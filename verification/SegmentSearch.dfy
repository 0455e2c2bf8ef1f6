/** Searching one segment through its value bitmaps, with minimum/maximum pruning, against a plain
    scan of its rows. */
module SegmentSearch {
  import opened Bytes
  import opened Wrappers
  import opened Types

  type Row = map<Text, Text>
  type Bitmaps = map<Text, set<nat>>

  /** What a segment keeps in memory to answer searches. */
  datatype SegmentIndex = SegmentIndex(
    bitmaps: map<Text, Bitmaps>,
    minMax: map<Text, (Text, Text)>,
    count: nat,
    deleted: set<nat>)

  const PLACEHOLDER_FIELD: Text := [63]
  const PLACEHOLDER_VALUE: Text := [63]

  predicate ValidFilter(f: Filter) {
    f.field != PLACEHOLDER_FIELD && f.value != PLACEHOLDER_VALUE
  }

  function ValidFilters(filters: seq<Filter>): seq<Filter> {
    if |filters| == 0 then []
    else (if ValidFilter(filters[0]) then [filters[0]] else []) + ValidFilters(filters[1..])
  }

  lemma {:induction false} ValidFiltersMembers(filters: seq<Filter>)
    ensures forall f :: f in ValidFilters(filters) <==> f in filters && ValidFilter(f)
  {
    if |filters| != 0 {
      ValidFiltersMembers(filters[1..]);
      assert filters == [filters[0]] + filters[1..];
    }
  }

  /** Whether minimum and maximum already rule the filter out. */
  predicate Prunes(c: Comparer, f: Filter, min: Text, max: Text) {
    match f.op
    case Eq => TextLess(f.value, min) || TextLess(max, f.value)
    case Gt => !TextLess(f.value, max)
    case Gte => TextLess(max, f.value)
    case Lt => !TextLess(min, f.value)
    case Lte => TextLess(f.value, min)
    case Between =>
      f.valueTo.Some?
      && (CompareValues(c, max, f.value, f.fieldType) == Some(Less)
          || CompareValues(c, min, f.valueTo.value, f.fieldType) == Some(Greater))
    case _ => false
  }

  predicate Skips(c: Comparer, ix: SegmentIndex, f: Filter) {
    f.field in ix.minMax && Prunes(c, f, ix.minMax[f.field].0, ix.minMax[f.field].1)
  }

  function BitmapsOf(ix: SegmentIndex, field: Text): Bitmaps {
    if field in ix.bitmaps then ix.bitmaps[field] else map[]
  }

  /** The rows one filter selects: an exact bitmap if `Eq` finds one, else every matching value's. */
  ghost function FilterBitmap(c: Comparer, bitmaps: Bitmaps, f: Filter): set<nat> {
    if f.op == Eq && f.value in bitmaps then bitmaps[f.value]
    else set v, i | v in bitmaps && Matches(c, v, f) && i in bitmaps[v] :: i
  }

  ghost function Combined(c: Comparer, ix: SegmentIndex, filters: seq<Filter>, op: LogicalOp): set<nat>
    requires |filters| > 0
  {
    var last := FilterBitmap(c, BitmapsOf(ix, filters[|filters| - 1].field), filters[|filters| - 1]);
    if |filters| == 1 then last
    else
      var rest := Combined(c, ix, filters[..|filters| - 1], op);
      if op == And then rest * last else rest + last
  }

  function AllRows(count: nat): (rows: set<nat>)
    ensures forall i: nat :: i in rows <==> i < count
  {
    if count == 0 then {} else AllRows(count - 1) + {count - 1}
  }

  /** The answer `Search` computes. */
  ghost function SearchResult(c: Comparer, ix: SegmentIndex, filters: seq<Filter>, op: LogicalOp): set<nat> {
    var valid := ValidFilters(filters);
    if |valid| == 0 then AllRows(ix.count) - ix.deleted
    else if exists f | f in valid :: Skips(c, ix, f) then {}
    else Combined(c, ix, valid, op) - ix.deleted
  }

  method MatchBitmap(c: Comparer, bitmaps: Bitmaps, f: Filter) returns (rows: set<nat>)
    ensures rows == FilterBitmap(c, bitmaps, f)
    ensures forall i :: i in rows <==>
              if f.op == Eq && f.value in bitmaps then i in bitmaps[f.value]
              else exists v :: v in bitmaps && Meets(c, v, f) && i in bitmaps[v]
  {
    forall v ensures Matches(c, v, f) <==> Meets(c, v, f) {
      MatchesMeans(c, v, f);
    }
    hide Matches, Meets;
    if f.op == Eq && f.value in bitmaps {
      return bitmaps[f.value];
    }
    rows := {};
    var pending := bitmaps.Keys;
    while pending != {}
      invariant pending <= bitmaps.Keys
      invariant rows == set v, i | v in bitmaps && v !in pending && Matches(c, v, f) && i in bitmaps[v] :: i
      decreases pending
    {
      var key :| key in pending;
      pending := pending - {key};
      if Matches(c, key, f) {
        rows := rows + bitmaps[key];
      }
    }
  }

  /** The accumulation over the filters. */
  method CombineBitmaps(c: Comparer, ix: SegmentIndex, valid: seq<Filter>, op: LogicalOp) returns (result: set<nat>)
    requires |valid| > 0
    ensures result == Combined(c, ix, valid, op)
  {
    result := {};
    var first := true;
    for n := 0 to |valid|
      invariant first <==> n == 0
      invariant n > 0 ==> result == Combined(c, ix, valid[..n], op)
    {
      var rows := MatchBitmap(c, BitmapsOf(ix, valid[n].field), valid[n]);
      assert n > 0 ==> valid[..n + 1][..n] == valid[..n];
      if first {
        result := rows;
        first := false;
      } else {
        match op {
          case And => result := result * rows;
          case Or => result := result + rows;
        }
      }
    }
    assert valid[..|valid|] == valid;
  }

  method Search(c: Comparer, ix: SegmentIndex, filters: seq<Filter>, op: LogicalOp) returns (result: set<nat>)
    ensures result == SearchResult(c, ix, filters, op)
  {
    var valid := ValidFilters(filters);
    if |valid| == 0 {
      return AllRows(ix.count) - ix.deleted;
    }
    for n := 0 to |valid|
      invariant forall k | 0 <= k < n :: !Skips(c, ix, valid[k])
    {
      if Skips(c, ix, valid[n]) {
        assert valid[n] in valid;
        return {};
      }
    }
    result := CombineBitmaps(c, ix, valid, op);
    result := result - ix.deleted;
  }

  // ---------- against a scan ----------

  predicate RowMatches(c: Comparer, row: Row, f: Filter) {
    f.field in row && Matches(c, row[f.field], f)
  }

  /** The live rows that satisfy every filter. */
  ghost function Scan(c: Comparer, rows: seq<Row>, deleted: set<nat>, filters: seq<Filter>): set<nat> {
    set i: nat | i < |rows| && i !in deleted && forall f | f in ValidFilters(filters) :: RowMatches(c, rows[i], f)
  }

  /** Row `i` is live, and has in the field of every filter but the placeholders a value that meets it. */
  ghost predicate LiveMatch(c: Comparer, rows: seq<Row>, deleted: set<nat>, filters: seq<Filter>, i: nat) {
    && i < |rows| && i !in deleted
    && forall f | f in filters && f.field != [63] && f.value != [63] :: f.field in rows[i] && Meets(c, rows[i][f.field], f)
  }

  lemma ScanMeans(c: Comparer, rows: seq<Row>, deleted: set<nat>, filters: seq<Filter>)
    ensures forall i: nat :: i in Scan(c, rows, deleted, filters) <==> LiveMatch(c, rows, deleted, filters, i)
  {
    ValidFiltersMembers(filters);
    forall v, f ensures Matches(c, v, f) <==> Meets(c, v, f) {
      MatchesMeans(c, v, f);
    }
    hide Matches, Meets, ValidFilters;
  }

  predicate Marks(bitmaps: Bitmaps, v: Text, i: nat) {
    v in bitmaps && i in bitmaps[v]
  }

  function Cell(rows: seq<Row>, i: nat, col: Text): Option<Text> {
    if i < |rows| && col in rows[i] then Some(rows[i][col]) else None
  }

  /** The index tells the truth about every live row. */
  ghost predicate BitmapsTrue(ix: SegmentIndex, rows: seq<Row>) {
    && ix.count == |rows|
    && forall col, v, i: nat | i !in ix.deleted ::
         Marks(BitmapsOf(ix, col), v, i) <==> Cell(rows, i, col) == Some(v)
  }

  ghost predicate ColumnWithin(rows: seq<Row>, col: Text, values: set<Text>) {
    forall i | 0 <= i < |rows| && col in rows[i] :: rows[i][col] in values
  }

  /** Recorded bounds, if any, are column values that enclose every row. */
  ghost predicate BoundsTrue(ix: SegmentIndex, rows: seq<Row>, col: Text, values: set<Text>) {
    col in ix.minMax ==>
      var (min, max) := ix.minMax[col];
      && min in values && max in values
      && forall i | 0 <= i < |rows| && col in rows[i] :: !TextLess(rows[i][col], min) && !TextLess(max, rows[i][col])
  }

  /** Comparing `v` with the filter's value does not contradict plain string order where the filter
      relies on it. */
  ghost predicate AgreesAt(c: Comparer, f: Filter, v: Text) {
    var order := CompareValues(c, v, f.value, f.fieldType);
    match f.op
    case Eq => order == Some(Equal) <==> v == f.value
    case Gt => order == Some(Greater) ==> TextLess(f.value, v)
    case Gte => AtLeast(order) ==> !TextLess(v, f.value)
    case Lt => order == Some(Less) ==> TextLess(v, f.value)
    case Lte => AtMost(order) ==> !TextLess(f.value, v)
    case _ => true
  }

  /** A value inside the range leaves neither enclosing value outside it. */
  ghost predicate RangeAgrees(c: Comparer, f: Filter, lo: Text, v: Text, hi: Text)
    requires f.valueTo.Some?
  {
    !TextLess(v, lo) && !TextLess(hi, v) && Matches(c, v, f) ==>
      && CompareValues(c, hi, f.value, f.fieldType) != Some(Less)
      && CompareValues(c, lo, f.valueTo.value, f.fieldType) != Some(Greater)
  }

  /** Comparison agrees with string order on all these values. */
  ghost predicate Agrees(c: Comparer, f: Filter, values: set<Text>) {
    && (forall v | v in values :: AgreesAt(c, f, v))
    && (f.op == Between && f.valueTo.Some? ==>
          forall lo, v, hi | lo in values && v in values && hi in values :: RangeAgrees(c, f, lo, v, hi))
  }

  /** Comparing the values with this bound is plain string order. */
  ghost predicate ComparesAsText(c: Comparer, f: Filter, values: set<Text>, bound: Text) {
    forall v | v in values :: CompareValues(c, v, bound, f.fieldType) == Some(CompareText(v, bound))
  }

  /** A filter whose bounds compare with the values as text agrees, whatever its operator. */
  lemma StringOrderAgrees(c: Comparer, f: Filter, values: set<Text>)
    requires ComparesAsText(c, f, values, f.value) && (f.valueTo.Some? ==> ComparesAsText(c, f, values, f.valueTo.value))
    ensures Agrees(c, f, values)
  {
    hide CompareValues, CompareText;
    forall v, w
      ensures CompareText(v, w) == Equal <==> v == w
      ensures TextLess(v, w) <==> CompareText(w, v) == Greater
    {
      TextOrderTotal(v, w);
      TextOrderTotal(w, v);
    }
    if f.op == Between && f.valueTo.Some? {
      forall lo, v, hi | lo in values && v in values && hi in values ensures RangeAgrees(c, f, lo, v, hi) {
        if !TextLess(v, lo) && !TextLess(hi, v) && Matches(c, v, f) {
          TextOrderTransitive(f.value, v, hi);
          TextOrderTransitive(lo, v, f.valueTo.value);
        }
      }
    }
  }

  /** A bound that is no number, and a date only among trimmed values. */
  ghost predicate TextBound(c: Comparer, number: Text -> Option<real>, isDate: Text -> bool, values: set<Text>, bound: Text) {
    number(bound).None? && (isDate(bound) ==> c.trim(bound) == bound && forall v | v in values :: c.trim(v) == v)
  }

  /** An untyped filter whose bounds are no numbers agrees with string order on every value. */
  lemma TextFilterAgrees(c: Comparer, number: Text -> Option<real>, isDate: Text -> bool, f: Filter, values: set<Text>)
    requires ParsesBy(c, number, isDate) && (f.fieldType == None || f.fieldType == Some(String))
    requires TextBound(c, number, isDate, values, f.value)
    requires f.valueTo.Some? ==> TextBound(c, number, isDate, values, f.valueTo.value)
    ensures Agrees(c, f, values)
  {
    forall v | v in values ensures CompareValues(c, v, f.value, f.fieldType) == Some(CompareText(v, f.value)) {
      PlainCompare(c, number, isDate, v, f.value);
    }
    if f.valueTo.Some? {
      forall v | v in values ensures CompareValues(c, v, f.valueTo.value, f.fieldType) == Some(CompareText(v, f.valueTo.value)) {
        PlainCompare(c, number, isDate, v, f.valueTo.value);
      }
    }
    hide Agrees, CompareValues;
    StringOrderAgrees(c, f, values);
  }

  lemma PruneIsSound(c: Comparer, ix: SegmentIndex, rows: seq<Row>, f: Filter, values: set<Text>, i: nat)
    requires BoundsTrue(ix, rows, f.field, values) && ColumnWithin(rows, f.field, values)
    requires Agrees(c, f, values)
    requires i < |rows| && RowMatches(c, rows[i], f)
    ensures !Skips(c, ix, f)
  {
    if f.field in ix.minMax {
      var (min, max) := ix.minMax[f.field];
      var v := rows[i][f.field];
      assert v in values;
      TextOrderTotal(v, f.value);
      TextOrderTotal(f.value, v);
      if !TextLess(f.value, max) { TextOrderTransitive(v, max, f.value); }
      if !TextLess(min, f.value) { TextOrderTransitive(f.value, min, v); }
      assert AgreesAt(c, f, v);
      assert f.op == Between && f.valueTo.Some? ==> RangeAgrees(c, f, min, v, max);
      if TextLess(max, f.value) && !TextLess(v, f.value) { TextOrderTransitive(f.value, v, max); }
      if TextLess(f.value, min) && !TextLess(f.value, v) { TextOrderTransitive(min, v, f.value); }
    }
  }

  /** Where comparison is string order, a range is pruned exactly if no text in it can satisfy the filter,
      whatever comparison operator it has; for a range of values as long as it is not upside down. */
  lemma PruneIsComplete(c: Comparer, f: Filter, min: Text, max: Text)
    requires forall x, y :: CompareValues(c, x, y, f.fieldType) == Some(CompareText(x, y))
    requires f.op in {Eq, Gt, Gte, Lt, Lte, Between} && !TextLess(max, min)
    requires f.op == Between ==> f.valueTo.Some? && !TextLess(f.valueTo.value, f.value)
    ensures Prunes(c, f, min, max) <==> forall v | !TextLess(v, min) && !TextLess(max, v) :: !Meets(c, v, f)
  {
    forall x, y
      ensures CompareText(x, y) == Equal <==> x == y
      ensures TextLess(x, y) <==> CompareText(y, x) == Greater
    {
      TextOrderTotal(x, y);
    }
    forall x, y, z | !TextLess(y, x) && !TextLess(z, y) ensures !TextLess(z, x) {
      TextOrderTransitive(x, y, z);
    }
    hide CompareText, CompareValues;
    if !Prunes(c, f, min, max) {
      var v := match f.op
        case Eq => f.value
        case Gt => max
        case Gte => max
        case Between => if TextLess(min, f.value) then f.value else min
        case _ => min;
      assert !TextLess(v, min) && !TextLess(max, v) && Meets(c, v, f);
    }
  }

  lemma FilterBitmapIsScan(c: Comparer, ix: SegmentIndex, rows: seq<Row>, f: Filter, values: set<Text>, i: nat)
    requires BitmapsTrue(ix, rows) && ColumnWithin(rows, f.field, values) && Agrees(c, f, values)
    requires i !in ix.deleted
    ensures i in FilterBitmap(c, BitmapsOf(ix, f.field), f) <==> i < |rows| && RowMatches(c, rows[i], f)
  {
    var bitmaps := BitmapsOf(ix, f.field);
    if i < |rows| && f.field in rows[i] {
      var v := rows[i][f.field];
      assert Marks(bitmaps, v, i) <==> Cell(rows, i, f.field) == Some(v);
      assert v in values && AgreesAt(c, f, v);
      assert Marks(bitmaps, f.value, i) <==> Cell(rows, i, f.field) == Some(f.value);
    }
    if i in FilterBitmap(c, bitmaps, f) {
      var v :| v in bitmaps && i in bitmaps[v] && (f.op == Eq && f.value in bitmaps ==> v == f.value)
             && (!(f.op == Eq && f.value in bitmaps) ==> Matches(c, v, f));
      assert Marks(bitmaps, v, i) <==> Cell(rows, i, f.field) == Some(v);
    }
  }

  lemma {:induction false} CombinedIsScan(c: Comparer, ix: SegmentIndex, rows: seq<Row>, filters: seq<Filter>, i: nat)
    requires BitmapsTrue(ix, rows) && |filters| > 0 && i !in ix.deleted
    requires forall f | f in filters :: Agrees(c, f, ValueSet(rows, f.field))
    ensures i in Combined(c, ix, filters, And) <==> i < |rows| && forall f | f in filters :: RowMatches(c, rows[i], f)
  {
    var last := filters[|filters| - 1];
    FilterBitmapIsScan(c, ix, rows, last, ValueSet(rows, last.field), i);
    if |filters| > 1 {
      var rest := filters[..|filters| - 1];
      CombinedIsScan(c, ix, rows, rest, i);
      assert filters == rest + [last];
    }
  }

  ghost function ValueSet(rows: seq<Row>, col: Text): set<Text> {
    set i: int | 0 <= i < |rows| && col in rows[i] :: rows[i][col]
  }

  /** An index whose bitmaps and bounds are both true. */
  ghost predicate IndexTrue(ix: SegmentIndex, rows: seq<Row>) {
    BitmapsTrue(ix, rows) && forall col :: BoundsTrue(ix, rows, col, ValueSet(rows, col))
  }

  /** An And-search loses and invents nothing when comparison agrees with string order on the
      values of the filtered columns. */
  lemma SearchIsScan(c: Comparer, ix: SegmentIndex, rows: seq<Row>, filters: seq<Filter>)
    requires BitmapsTrue(ix, rows)
    requires forall f | f in ValidFilters(filters) ::
               BoundsTrue(ix, rows, f.field, ValueSet(rows, f.field)) && Agrees(c, f, ValueSet(rows, f.field))
    ensures SearchResult(c, ix, filters, And) == Scan(c, rows, ix.deleted, filters)
    ensures forall i: nat :: i in SearchResult(c, ix, filters, And) <==> LiveMatch(c, rows, ix.deleted, filters, i)
  {
    ScanMeans(c, rows, ix.deleted, filters);
    hide LiveMatch;
    var valid := ValidFilters(filters);
    forall i: nat
      ensures i in SearchResult(c, ix, filters, And) <==> i in Scan(c, rows, ix.deleted, filters)
    {
      if i !in ix.deleted && |valid| > 0 {
        CombinedIsScan(c, ix, rows, valid, i);
        if f :| f in valid && Skips(c, ix, f) {
          if i in Scan(c, rows, ix.deleted, filters) {
            PruneIsSound(c, ix, rows, f, ValueSet(rows, f.field), i);
          }
        }
      }
    }
  }

  // ---------- Or ----------

  /** Row `i` is live and satisfies some filter. */
  ghost predicate LiveSome(c: Comparer, rows: seq<Row>, deleted: set<nat>, filters: seq<Filter>, i: nat) {
    i < |rows| && i !in deleted && exists f :: f in filters && RowMatches(c, rows[i], f)
  }

  lemma {:induction false} CombinedIsSome(c: Comparer, ix: SegmentIndex, rows: seq<Row>, filters: seq<Filter>, i: nat)
    requires BitmapsTrue(ix, rows) && |filters| > 0 && i !in ix.deleted
    requires forall f | f in filters :: Agrees(c, f, ValueSet(rows, f.field))
    ensures i in Combined(c, ix, filters, Or) <==> LiveSome(c, rows, ix.deleted, filters, i)
  {
    var last := filters[|filters| - 1];
    FilterBitmapIsScan(c, ix, rows, last, ValueSet(rows, last.field), i);
    hide RowMatches, FilterBitmap, Agrees, ValueSet, BitmapsTrue;
    assert last in filters;
    if |filters| > 1 {
      var rest := filters[..|filters| - 1];
      CombinedIsSome(c, ix, rows, rest, i);
      assert filters == rest + [last];
    }
  }

  /** Pruning ignores the operator: an Or-search finds exactly the live rows that satisfy some filter
      if and only if bounds rule no filter out, or there is no such row. */
  lemma OrSearchExactIff(c: Comparer, ix: SegmentIndex, rows: seq<Row>, filters: seq<Filter>)
    requires BitmapsTrue(ix, rows) && ValidFilters(filters) != []
    requires forall f | f in ValidFilters(filters) :: Agrees(c, f, ValueSet(rows, f.field))
    ensures (forall i: nat :: i in SearchResult(c, ix, filters, Or) <==> LiveSome(c, rows, ix.deleted, ValidFilters(filters), i)) <==>
      ((forall f | f in ValidFilters(filters) :: !Skips(c, ix, f)) || forall i: nat :: !LiveSome(c, rows, ix.deleted, ValidFilters(filters), i))
  {
    var valid := ValidFilters(filters);
    forall i: nat | i !in ix.deleted ensures i in Combined(c, ix, valid, Or) <==> LiveSome(c, rows, ix.deleted, valid, i) {
      CombinedIsSome(c, ix, rows, valid, i);
    }
    assert forall i: nat | LiveSome(c, rows, ix.deleted, valid, i) :: i !in ix.deleted;
    hide Combined, LiveSome, ValidFilters, Skips, Agrees, BitmapsTrue;
    if exists f :: f in valid && Skips(c, ix, f) {
      assert SearchResult(c, ix, filters, Or) == {};
    } else {
      assert SearchResult(c, ix, filters, Or) == Combined(c, ix, valid, Or) - ix.deleted;
    }
  }
}
