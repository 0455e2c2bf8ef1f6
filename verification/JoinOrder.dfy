/** Row comparison and filters of the join executor: which columns they read, and when the row order
    is an order. */
module JoinOrder {
  import opened Bytes
  import opened Wrappers
  import opened Sorting
  import opened Types
  import opened JoinRows

  datatype Direction = Asc | Desc

  datatype OrderBy = OrderBy(field: QualifiedField, direction: Direction)

  /** A filter with its field resolved; `condition` holds the operator and the values. */
  datatype ResolvedFilter = ResolvedFilter(field: QualifiedField, condition: Filter)

  datatype FilterTree = Leaf(filter: ResolvedFilter) | Group(op: LogicalOp, children: seq<FilterTree>)

  // ---------- comparing rows ----------

  function Cell(row: FlatRow, column: Text): Text {
    if column in row then row[column] else []
  }

  function ValueOrder(c: Comparer, a: Text, b: Text): Ordering {
    match CompareValues(c, a, b, None)
    case Some(order) => order
    case None => CompareText(a, b)
  }

  function CompareRows(c: Comparer, left: FlatRow, right: FlatRow, order: seq<OrderBy>): Ordering {
    if |order| == 0 then Equal
    else
      var q := order[0].field.qualified;
      var first := ValueOrder(c, Cell(left, q), Cell(right, q));
      if first == Equal then CompareRows(c, left, right, order[1..])
      else if order[0].direction == Desc then Reverse(first)
      else first
  }

  /** What `sort_by` takes from the comparison: not greater. */
  function RowLe(c: Comparer, order: seq<OrderBy>): (FlatRow, FlatRow) -> bool {
    (left: FlatRow, right: FlatRow) => CompareRows(c, left, right, order) != Greater
  }

  // ---------- values that are ordered ----------

  /** On these values swapping the sides reverses the order, and it is transitive. */
  ghost predicate OrderedOn(c: Comparer, values: set<Text>) {
    && (forall x, y | x in values && y in values :: ValueOrder(c, y, x) == Reverse(ValueOrder(c, x, y)))
    && (forall x, y, z | x in values && y in values && z in values
          && ValueOrder(c, x, y) != Greater && ValueOrder(c, y, z) != Greater ::
          && ValueOrder(c, x, z) != Greater
          && (ValueOrder(c, x, z) == Equal ==> ValueOrder(c, x, y) == Equal && ValueOrder(c, y, z) == Equal))
  }

  lemma OrderedOnFewer(c: Comparer, few: set<Text>, values: set<Text>)
    requires OrderedOn(c, values) && few <= values
    ensures OrderedOn(c, few)
  {
    hide ValueOrder;
  }

  /** Numbers among themselves are ordered, however they are written. */
  lemma NumbersOrdered(c: Comparer, number: Text -> Option<real>, isDate: Text -> bool, values: set<Text>)
    requires ParsesBy(c, number, isDate) && forall v | v in values :: number(v).Some?
    ensures OrderedOn(c, values)
  {
    forall x, y | x in values && y in values
      ensures ValueOrder(c, x, y) == CompareReals(number(x).value, number(y).value)
    {
    }
    hide ValueOrder;
  }

  /** Dates that are no numbers are ordered. */
  lemma DatesOrdered(c: Comparer, number: Text -> Option<real>, isDate: Text -> bool, values: set<Text>)
    requires ParsesBy(c, number, isDate) && forall v | v in values :: isDate(v) && number(v).None?
    ensures OrderedOn(c, values)
  {
    forall x, y | x in values && y in values ensures ValueOrder(c, x, y) == CompareText(c.trim(x), c.trim(y)) {
    }
    hide ValueOrder;
    TextsOrdered(c, (v: Text) => c.trim(v), values);
  }

  /** Values of which no two are numbers and no two are dates are ordered, as text. */
  lemma PlainTextOrdered(c: Comparer, number: Text -> Option<real>, isDate: Text -> bool, values: set<Text>)
    requires ParsesBy(c, number, isDate)
    requires forall x, y | x in values && y in values && x != y ::
               !(number(x).Some? && number(y).Some?) && !(isDate(x) && isDate(y))
    ensures OrderedOn(c, values)
  {
    forall x, y | x in values && y in values ensures ValueOrder(c, x, y) == CompareText(x, y) {
      TextOrderTotal(x, x);
      TextOrderTotal(c.trim(x), c.trim(x));
    }
    hide ValueOrder;
    TextsOrdered(c, (v: Text) => v, values);
  }

  /** Values that compare as some text of theirs are ordered. */
  lemma TextsOrdered(c: Comparer, text: Text -> Text, values: set<Text>)
    requires forall x, y | x in values && y in values :: ValueOrder(c, x, y) == CompareText(text(x), text(y))
    ensures OrderedOn(c, values)
  {
    hide ValueOrder, CompareText;
    forall x, y | x in values && y in values ensures ValueOrder(c, y, x) == Reverse(ValueOrder(c, x, y)) {
      TextReversed(text(x), text(y));
    }
    forall x, y, z | x in values && y in values && z in values && ValueOrder(c, x, y) != Greater && ValueOrder(c, y, z) != Greater
      ensures ValueOrder(c, x, z) != Greater
      ensures ValueOrder(c, x, z) == Equal ==> ValueOrder(c, x, y) == Equal && ValueOrder(c, y, z) == Equal
    {
      TextChain(text(x), text(y), text(z));
    }
  }

  /** Text that is no number lies among the numbers as their values do: those before it are smaller
      than those after it. */
  ghost predicate NumbersFit(number: Text -> Option<real>, values: set<Text>) {
    forall x, y, z | x in values && y in values && z in values
        && number(x).Some? && number(y).Some? && number(z).None? && TextLess(x, z) && TextLess(z, y) ::
      number(x).value < number(y).value
  }

  /** Text that is no date lies among the dates as their trimmed texts do. */
  ghost predicate DatesFit(c: Comparer, number: Text -> Option<real>, isDate: Text -> bool, values: set<Text>) {
    forall x, y, z | x in values && y in values && z in values && number(x).None? && number(y).None?
        && isDate(x) && isDate(y) && !isDate(z) && TextLess(x, z) && TextLess(z, y) ::
      TextLess(c.trim(x), c.trim(y))
  }

  /** No date is a number, or every date is; the dashes of a date see to the former. */
  ghost predicate KindsApart(number: Text -> Option<real>, isDate: Text -> bool, values: set<Text>) {
    forall v, w | v in values && w in values && isDate(v) && isDate(w) :: number(v).Some? == number(w).Some?
  }

  /** What two values are compared by. */
  lemma ValueOrderIs(c: Comparer, number: Text -> Option<real>, isDate: Text -> bool, x: Text, y: Text)
    requires ParsesBy(c, number, isDate)
    ensures ValueOrder(c, x, y) ==
      if number(x).Some? && number(y).Some? then CompareReals(number(x).value, number(y).value)
      else if isDate(x) && isDate(y) then CompareText(c.trim(x), c.trim(y))
      else CompareText(x, y)
  {
    PlainCompare(c, number, isDate, x, y);
  }

  ghost predicate TextSteps(x: Text, y: Text, z: Text) {
    CompareText(x, y) != Greater && CompareText(y, z) != Greater ==>
      CompareText(x, z) != Greater && (CompareText(x, z) == Equal ==> CompareText(x, y) == Equal && CompareText(y, z) == Equal)
  }

  /** Three texts in each rotation. */
  lemma TextRotations(x: Text, y: Text, z: Text)
    ensures TextSteps(x, y, z) && TextSteps(y, z, x) && TextSteps(z, x, y)
    ensures CompareText(y, x) == Reverse(CompareText(x, y))
    ensures CompareText(z, y) == Reverse(CompareText(y, z))
    ensures CompareText(z, x) == Reverse(CompareText(x, z))
  {
    hide CompareText;
    TextReversed(x, y);
    TextReversed(y, z);
    TextReversed(x, z);
    if CompareText(x, y) != Greater && CompareText(y, z) != Greater { TextChain(x, y, z); }
    if CompareText(y, z) != Greater && CompareText(z, x) != Greater { TextChain(y, z, x); }
    if CompareText(z, x) != Greater && CompareText(x, y) != Greater { TextChain(z, x, y); }
  }

  lemma TripleOrdered(c: Comparer, number: Text -> Option<real>, isDate: Text -> bool, values: set<Text>, x: Text, y: Text, z: Text)
    requires ParsesBy(c, number, isDate) && KindsApart(number, isDate, values)
    requires NumbersFit(number, values) && DatesFit(c, number, isDate, values)
    requires x in values && y in values && z in values
    requires ValueOrder(c, x, y) != Greater && ValueOrder(c, y, z) != Greater
    ensures ValueOrder(c, x, z) != Greater
    ensures ValueOrder(c, x, z) == Equal ==> ValueOrder(c, x, y) == Equal && ValueOrder(c, y, z) == Equal
  {
    ValueOrderIs(c, number, isDate, x, y);
    ValueOrderIs(c, number, isDate, y, z);
    ValueOrderIs(c, number, isDate, x, z);
    TextRotations(x, y, z);
    TextRotations(c.trim(x), c.trim(y), c.trim(z));
    TextOrderTotal(x, y);
    TextOrderTotal(y, z);
    TextOrderTotal(x, z);
    hide ValueOrder, CompareText, ParsesBy;
  }

  lemma FitsOrdered(c: Comparer, number: Text -> Option<real>, isDate: Text -> bool, values: set<Text>)
    requires ParsesBy(c, number, isDate) && KindsApart(number, isDate, values)
    requires NumbersFit(number, values) && DatesFit(c, number, isDate, values)
    ensures OrderedOn(c, values)
  {
    hide ValueOrder, CompareText, NumbersFit, DatesFit, ParsesBy, KindsApart;
    forall x, y | x in values && y in values ensures ValueOrder(c, y, x) == Reverse(ValueOrder(c, x, y)) {
      ValueOrderIs(c, number, isDate, x, y);
      ValueOrderIs(c, number, isDate, y, x);
      TextReversed(x, y);
      TextReversed(c.trim(x), c.trim(y));
    }
    forall x, y, z | x in values && y in values && z in values && ValueOrder(c, x, y) != Greater && ValueOrder(c, y, z) != Greater
      ensures ValueOrder(c, x, z) != Greater
      ensures ValueOrder(c, x, z) == Equal ==> ValueOrder(c, x, y) == Equal && ValueOrder(c, y, z) == Equal
    {
      TripleOrdered(c, number, isDate, values, x, y, z);
    }
  }

  lemma OrderedFits(c: Comparer, number: Text -> Option<real>, isDate: Text -> bool, values: set<Text>)
    requires ParsesBy(c, number, isDate) && KindsApart(number, isDate, values) && OrderedOn(c, values)
    ensures NumbersFit(number, values) && DatesFit(c, number, isDate, values)
  {
    hide ValueOrder, CompareText, ParsesBy;
    forall x, y, z | x in values && y in values && z in values
        && number(x).Some? && number(y).Some? && number(z).None? && TextLess(x, z) && TextLess(z, y)
      ensures number(x).value < number(y).value
    {
      ThreeOrders(c, number, isDate, x, y, z);
    }
    forall x, y, z | x in values && y in values && z in values && number(x).None? && number(y).None?
        && isDate(x) && isDate(y) && !isDate(z) && TextLess(x, z) && TextLess(z, y)
      ensures TextLess(c.trim(x), c.trim(y))
    {
      ThreeOrders(c, number, isDate, x, y, z);
    }
  }

  /** How a value between two others compares with them, and they with each other. */
  lemma ThreeOrders(c: Comparer, number: Text -> Option<real>, isDate: Text -> bool, x: Text, y: Text, z: Text)
    requires ParsesBy(c, number, isDate)
    ensures number(z).None? && !(isDate(x) && isDate(z)) ==> ValueOrder(c, x, z) == CompareText(x, z)
    ensures !(number(x).Some? && number(z).Some?) && !isDate(z) ==> ValueOrder(c, x, z) == CompareText(x, z)
    ensures number(z).None? && !(isDate(y) && isDate(z)) ==> ValueOrder(c, z, y) == CompareText(z, y)
    ensures !(number(y).Some? && number(z).Some?) && !isDate(z) ==> ValueOrder(c, z, y) == CompareText(z, y)
    ensures number(x).Some? && number(y).Some? ==> ValueOrder(c, x, y) == CompareReals(number(x).value, number(y).value)
    ensures number(x).None? && isDate(x) && isDate(y) ==> ValueOrder(c, x, y) == CompareText(c.trim(x), c.trim(y))
  {
    ValueOrderIs(c, number, isDate, x, z);
    ValueOrderIs(c, number, isDate, z, y);
    ValueOrderIs(c, number, isDate, x, y);
  }

  /** Values are ordered exactly if text lies among the numbers, and among the dates, as these compare. */
  lemma OrderedIff(c: Comparer, number: Text -> Option<real>, isDate: Text -> bool, values: set<Text>)
    requires ParsesBy(c, number, isDate) && KindsApart(number, isDate, values)
    ensures OrderedOn(c, values) <==> NumbersFit(number, values) && DatesFit(c, number, isDate, values)
  {
    hide OrderedOn, NumbersFit, DatesFit, ParsesBy, KindsApart;
    if OrderedOn(c, values) {
      OrderedFits(c, number, isDate, values);
    }
    if NumbersFit(number, values) && DatesFit(c, number, isDate, values) {
      FitsOrdered(c, number, isDate, values);
    }
  }

  /** Among values whose dates carry no padding only the numbers matter. */
  lemma OrderedIffNumbersFit(c: Comparer, number: Text -> Option<real>, isDate: Text -> bool, values: set<Text>)
    requires ParsesBy(c, number, isDate) && KindsApart(number, isDate, values)
    requires forall v | v in values && isDate(v) :: c.trim(v) == v
    ensures OrderedOn(c, values) <==> NumbersFit(number, values)
  {
    OrderedIff(c, number, isDate, values);
    hide CompareText, OrderedOn, NumbersFit, ParsesBy;
    forall x, y, z | x in values && y in values && z in values && number(x).None? && number(y).None?
        && isDate(x) && isDate(y) && !isDate(z) && TextLess(x, z) && TextLess(z, y)
      ensures TextLess(c.trim(x), c.trim(y))
    {
      TextChain(x, z, y);
    }
  }

  /** A missing cell, which reads as the empty text, is in front of everything and never in the way. */
  lemma EmptyFits(c: Comparer, number: Text -> Option<real>, isDate: Text -> bool, values: set<Text>)
    requires ParsesBy(c, number, isDate) && KindsApart(number, isDate, values) && number([]).None? && !isDate([])
    ensures OrderedOn(c, values + {[]}) <==> OrderedOn(c, values)
  {
    if OrderedOn(c, values + {[]}) {
      OrderedOnFewer(c, values, values + {[]});
    } else {
      OrderedIff(c, number, isDate, values);
      OrderedIff(c, number, isDate, values + {[]});
      hide OrderedOn, ParsesBy, KindsApart;
      EmptyFirst();
      hide CompareText;
    }
  }

  lemma EmptyFirst()
    ensures forall v :: !TextLess(v, [])
  {
  }

  /** Numbers and missing cells are ordered. */
  lemma NumbersAndMissingOrdered(c: Comparer, number: Text -> Option<real>, isDate: Text -> bool, values: set<Text>)
    requires ParsesBy(c, number, isDate) && number([]).None? && !isDate([])
    requires forall v | v in values :: v == [] || number(v).Some?
    ensures OrderedOn(c, values)
  {
    hide ValueOrder, OrderedOn, ParsesBy;
    NumbersOrdered(c, number, isDate, values - {[]});
    EmptyFits(c, number, isDate, values - {[]});
    OrderedOnFewer(c, values, values - {[]} + {[]});
  }

  /** Numbers among other texts are not ordered: "10" is before "1a", "1a" before "9", and "9" before "10". */
  lemma MixedValuesCycle(c: Comparer, number: Text -> Option<real>, isDate: Text -> bool, values: set<Text>)
    requires ParsesBy(c, number, isDate)
    requires number([57]) == Some(9.0) && number([49, 48]) == Some(10.0) && number([49, 97]) == None && !isDate([49, 97])
    requires {[57], [49, 48], [49, 97]} <= values
    ensures !OrderedOn(c, values)
  {
    var ten, mixed, nine: Text := [49, 48], [49, 97], [57];
    var few := {ten, mixed, nine};
    assert ten[1..] == [48] && mixed[1..] == [97];
    assert TextLess(ten, mixed) && TextLess(mixed, nine);
    assert !NumbersFit(number, few);
    hide OrderedOn, ParsesBy, NumbersFit;
    OrderedIff(c, number, isDate, few);
    if OrderedOn(c, values) {
      OrderedOnFewer(c, few, values);
    }
  }

  // ---------- rows whose ordering cells are ordered ----------

  /** Values per column. */
  type Columns = Text -> set<Text>

  /** The cells of these rows. */
  ghost function OrderCells(rows: seq<FlatRow>): Columns {
    (column: Text) => set r | r in rows :: Cell(r, column)
  }

  /** In each column that is sorted by, the values are ordered. */
  ghost predicate OrderedBy(c: Comparer, order: seq<OrderBy>, values: Columns) {
    forall o | o in order :: OrderedOn(c, values(o.field.qualified))
  }

  predicate Within(order: seq<OrderBy>, values: Columns, row: FlatRow) {
    forall o | o in order :: Cell(row, o.field.qualified) in values(o.field.qualified)
  }

  /** The row order, with every row outside the values after all others. */
  function RowLeOn(c: Comparer, order: seq<OrderBy>, values: Columns): (FlatRow, FlatRow) -> bool {
    (left: FlatRow, right: FlatRow) =>
      if Within(order, values, left) && Within(order, values, right) then CompareRows(c, left, right, order) != Greater
      else Within(order, values, left) || !Within(order, values, right)
  }

  lemma {:induction false} CompareReversed(c: Comparer, x: FlatRow, y: FlatRow, order: seq<OrderBy>, values: Columns)
    requires OrderedBy(c, order, values) && Within(order, values, x) && Within(order, values, y)
    ensures CompareRows(c, y, x, order) == Reverse(CompareRows(c, x, y, order))
  {
    if |order| != 0 {
      var q := order[0].field.qualified;
      assert order[0] in order;
      assert OrderedOn(c, values(q));
      assert ValueOrder(c, Cell(y, q), Cell(x, q)) == Reverse(ValueOrder(c, Cell(x, q), Cell(y, q)));
      hide ValueOrder, OrderedOn;
      CompareReversed(c, x, y, order[1..], values);
    }
  }

  /** Three values in a row, in either direction. */
  lemma ValueSteps(c: Comparer, x: Text, y: Text, z: Text, values: set<Text>)
    requires OrderedOn(c, values) && x in values && y in values && z in values
    ensures ValueOrder(c, x, y) == Equal && ValueOrder(c, y, z) == Equal ==> ValueOrder(c, x, z) == Equal
    ensures ValueOrder(c, x, y) == Equal ==> ValueOrder(c, x, z) == ValueOrder(c, y, z)
    ensures ValueOrder(c, y, z) == Equal ==> ValueOrder(c, x, z) == ValueOrder(c, x, y)
    ensures ValueOrder(c, x, y) == ValueOrder(c, y, z) ==> ValueOrder(c, x, z) == ValueOrder(c, x, y)
  {
    hide ValueOrder;
    assert ValueOrder(c, y, x) == Reverse(ValueOrder(c, x, y));
    assert ValueOrder(c, z, y) == Reverse(ValueOrder(c, y, z));
    assert ValueOrder(c, z, x) == Reverse(ValueOrder(c, x, z));
  }

  lemma {:induction false} CompareTransitive(c: Comparer, x: FlatRow, y: FlatRow, z: FlatRow, order: seq<OrderBy>, values: Columns)
    requires OrderedBy(c, order, values) && Within(order, values, x) && Within(order, values, y) && Within(order, values, z)
    requires CompareRows(c, x, y, order) != Greater && CompareRows(c, y, z, order) != Greater
    ensures CompareRows(c, x, z, order) != Greater
  {
    if |order| != 0 {
      var q := order[0].field.qualified;
      assert order[0] in order;
      ValueSteps(c, Cell(x, q), Cell(y, q), Cell(z, q), values(q));
      hide ValueOrder, OrderedOn;
      if ValueOrder(c, Cell(x, q), Cell(y, q)) == Equal && ValueOrder(c, Cell(y, q), Cell(z, q)) == Equal {
        CompareTransitive(c, x, y, z, order[1..], values);
      }
    }
  }

  /** Over ordered values, row comparison by any list of columns and directions is a total preorder. */
  lemma RowOrderIsPreorder(c: Comparer, order: seq<OrderBy>, values: Columns)
    requires OrderedBy(c, order, values)
    ensures TotalPreorder(RowLeOn(c, order, values))
  {
    var le := RowLeOn(c, order, values);
    hide CompareRows, OrderedBy, Within;
    forall x, y ensures le(x, y) || le(y, x) {
      if Within(order, values, x) && Within(order, values, y) {
        CompareReversed(c, x, y, order, values);
      }
    }
    forall x, y, z | le(x, y) && le(y, z) ensures le(x, z) {
      if Within(order, values, x) && Within(order, values, y) && Within(order, values, z) {
        CompareTransitive(c, x, y, z, order, values);
      }
    }
  }

  lemma OrderCellsCover(order: seq<OrderBy>, rows: seq<FlatRow>)
    ensures forall r | r in rows :: Within(order, OrderCells(rows), r)
  {
  }

  /** Rows within the values are sorted alike by both relations. */
  lemma SortWithin(c: Comparer, order: seq<OrderBy>, values: Columns, rows: seq<FlatRow>)
    requires forall r | r in rows :: Within(order, values, r)
    ensures StableSort(RowLe(c, order), rows) == StableSort(RowLeOn(c, order, values), rows)
  {
    hide CompareRows, Within;
    SortAgree(RowLe(c, order), RowLeOn(c, order, values), rows);
  }

  // ---------- what sorted means ----------

  /** At the first ordering column whose cells differ, they stand in the direction asked for; or none differs. */
  ghost predicate InOrder(c: Comparer, order: seq<OrderBy>, x: FlatRow, y: FlatRow) {
    || (forall m | 0 <= m < |order| :: CellOrder(c, order[m], x, y) == Equal)
    || exists n :: DiffersFirstAt(c, order, x, y, n) && CellOrder(c, order[n], x, y) == Wanted(order[n].direction)
  }

  function CellOrder(c: Comparer, o: OrderBy, x: FlatRow, y: FlatRow): Ordering {
    ValueOrder(c, Cell(x, o.field.qualified), Cell(y, o.field.qualified))
  }

  ghost predicate DiffersFirstAt(c: Comparer, order: seq<OrderBy>, x: FlatRow, y: FlatRow, n: int) {
    0 <= n < |order| && CellOrder(c, order[n], x, y) != Equal && forall m | 0 <= m < n :: CellOrder(c, order[m], x, y) == Equal
  }

  /** Ascending puts the smaller cell first, descending the greater. */
  function Wanted(direction: Direction): Ordering {
    match direction
    case Asc => Less
    case Desc => Greater
  }

  lemma {:induction false} CompareInOrder(c: Comparer, order: seq<OrderBy>, x: FlatRow, y: FlatRow)
    ensures CompareRows(c, x, y, order) != Greater <==> InOrder(c, order, x, y)
  {
    if |order| != 0 {
      CompareInOrder(c, order[1..], x, y);
      InOrderFirst(c, order, x, y);
    }
  }

  lemma InOrderFirst(c: Comparer, order: seq<OrderBy>, x: FlatRow, y: FlatRow)
    requires |order| > 0
    ensures InOrder(c, order, x, y) <==>
      if CellOrder(c, order[0], x, y) == Equal then InOrder(c, order[1..], x, y)
      else CellOrder(c, order[0], x, y) == Wanted(order[0].direction)
  {
    hide CellOrder;
    var rest := order[1..];
    assert forall m | 0 <= m < |rest| :: rest[m] == order[m + 1];
    if CellOrder(c, order[0], x, y) == Equal {
      if n :| DiffersFirstAt(c, rest, x, y, n) && CellOrder(c, rest[n], x, y) == Wanted(rest[n].direction) {
        assert DiffersFirstAt(c, order, x, y, n + 1);
      }
      if n :| DiffersFirstAt(c, order, x, y, n) && CellOrder(c, order[n], x, y) == Wanted(order[n].direction) {
        assert order[n] == rest[n - 1];
        assert forall m | 0 <= m < n - 1 :: CellOrder(c, rest[m], x, y) == CellOrder(c, order[m + 1], x, y);
        assert DiffersFirstAt(c, rest, x, y, n - 1);
      }
      if forall m | 0 <= m < |rest| :: CellOrder(c, rest[m], x, y) == Equal {
        forall m | 0 <= m < |order| ensures CellOrder(c, order[m], x, y) == Equal {
          assert m > 0 ==> order[m] == rest[m - 1];
        }
      }
    } else {
      assert DiffersFirstAt(c, order, x, y, 0);
    }
  }

  ghost predicate AllInOrder(c: Comparer, order: seq<OrderBy>, rows: seq<FlatRow>) {
    forall i, j | 0 <= i < j < |rows| :: InOrder(c, order, rows[i], rows[j])
  }

  /** Sorted rows whose cells are ordered stand in the order asked for. */
  lemma SortedInOrder(c: Comparer, order: seq<OrderBy>, rows: seq<FlatRow>)
    requires OrderedBy(c, order, OrderCells(rows))
    ensures AllInOrder(c, order, StableSort(RowLe(c, order), rows))
  {
    hide *;
    var le, sorted := RowLeOn(c, order, OrderCells(rows)), StableSort(RowLe(c, order), rows);
    RowOrderIsPreorder(c, order, OrderCells(rows));
    OrderCellsCover(order, rows);
    SortWithin(c, order, OrderCells(rows), rows);
    SortSorts(le, rows);
    SortPermutes(le, rows);
    SortedLeInOrder(c, order, OrderCells(rows), sorted);
  }

  lemma SortedLeInOrder(c: Comparer, order: seq<OrderBy>, values: Columns, sorted: seq<FlatRow>)
    requires SortedBy(RowLeOn(c, order, values), sorted) && forall r | r in sorted :: Within(order, values, r)
    ensures AllInOrder(c, order, sorted)
  {
    hide InOrder, Within, CompareRows;
    forall i, j | 0 <= i < j < |sorted| ensures InOrder(c, order, sorted[i], sorted[j]) {
      assert sorted[i] in sorted && sorted[j] in sorted;
      assert RowLeOn(c, order, values)(sorted[i], sorted[j]);
      CompareInOrder(c, order, sorted[i], sorted[j]);
    }
  }

  /** No ordering column tells the rows apart. */
  function Ties(c: Comparer, order: seq<OrderBy>, x: FlatRow): FlatRow -> bool {
    (y: FlatRow) => forall o | o in order :: CellOrder(c, o, x, y) == Equal
  }

  lemma {:induction false} CompareTies(c: Comparer, order: seq<OrderBy>, x: FlatRow, y: FlatRow)
    ensures CompareRows(c, x, y, order) == Equal <==> Ties(c, order, x)(y)
  {
    if |order| != 0 {
      CompareTies(c, order[1..], x, y);
      TiesFirst(c, order, x, y);
      hide Ties;
    }
  }

  lemma TiesFirst(c: Comparer, order: seq<OrderBy>, x: FlatRow, y: FlatRow)
    requires |order| > 0
    ensures Ties(c, order, x)(y) <==> CellOrder(c, order[0], x, y) == Equal && Ties(c, order[1..], x)(y)
  {
    hide CellOrder;
    assert order == [order[0]] + order[1..];
    assert forall o :: o in order <==> o == order[0] || o in order[1..];
  }

  lemma TiesEquivalent(c: Comparer, order: seq<OrderBy>, values: Columns, x: FlatRow, y: FlatRow)
    requires OrderedBy(c, order, values) && Within(order, values, x) && Within(order, values, y)
    ensures Equivalent(RowLeOn(c, order, values), x)(y) == Ties(c, order, x)(y)
  {
    CompareReversed(c, x, y, order, values);
    CompareTies(c, order, x, y);
    hide CompareRows, Within, Ties, OrderedBy;
  }

  /** Rows that no ordering column tells apart keep the order they had. */
  lemma TiesKeepOrder(c: Comparer, order: seq<OrderBy>, rows: seq<FlatRow>, x: FlatRow)
    requires OrderedBy(c, order, OrderCells(rows)) && x in rows
    ensures Select(Ties(c, order, x), StableSort(RowLe(c, order), rows)) == Select(Ties(c, order, x), rows)
  {
    hide *;
    var values, sorted := OrderCells(rows), StableSort(RowLe(c, order), rows);
    var le := RowLeOn(c, order, values);
    RowOrderIsPreorder(c, order, values);
    OrderCellsCover(order, rows);
    SortWithin(c, order, values, rows);
    SortPermutes(le, rows);
    SortIsStable(le, rows, x);
    forall y | y in rows ensures Equivalent(le, x)(y) == Ties(c, order, x)(y) {
      TiesEquivalent(c, order, values, x, y);
    }
    SelectAgree(Equivalent(le, x), Ties(c, order, x), rows);
    SelectAgree(Equivalent(le, x), Ties(c, order, x), sorted);
  }

  // ---------- filters ----------

  predicate EvaluateFilter(c: Comparer, row: FlatRow, f: ResolvedFilter) {
    f.field.qualified in row && Matches(c, row[f.field.qualified], f.condition)
  }

  predicate PassesFilters(c: Comparer, row: FlatRow, filters: seq<ResolvedFilter>, op: LogicalOp) {
    || filters == []
    || (op == And && forall f | f in filters :: EvaluateFilter(c, row, f))
    || (op == Or && exists f | f in filters :: EvaluateFilter(c, row, f))
  }

  function PassesAll(c: Comparer, filters: seq<ResolvedFilter>, op: LogicalOp): FlatRow -> bool {
    (row: FlatRow) => PassesFilters(c, row, filters, op)
  }

  predicate EvaluateTree(c: Comparer, row: FlatRow, node: FilterTree) {
    match node
    case Leaf(filter) => EvaluateFilter(c, row, filter)
    case Group(And, children) => forall child | child in children :: EvaluateTree(c, row, child)
    case Group(Or, children) => exists child | child in children :: EvaluateTree(c, row, child)
  }

  function PassesTree(c: Comparer, tree: Option<FilterTree>): FlatRow -> bool {
    (row: FlatRow) => tree.None? || EvaluateTree(c, row, tree.value)
  }

  /** A row meets a filter: it has the column, with a value that meets the condition. */
  ghost predicate RowMeets(c: Comparer, row: FlatRow, f: ResolvedFilter) {
    f.field.qualified in row && Meets(c, row[f.field.qualified], f.condition)
  }

  /** And asks every filter of a list, Or some filter; an empty list asks nothing. */
  lemma PassesMeans(c: Comparer, row: FlatRow, filters: seq<ResolvedFilter>, op: LogicalOp)
    ensures op == And ==> (PassesFilters(c, row, filters, op) <==> forall f | f in filters :: RowMeets(c, row, f))
    ensures op == Or ==> (PassesFilters(c, row, filters, op) <==> |filters| == 0 || exists f :: f in filters && RowMeets(c, row, f))
  {
    forall f ensures EvaluateFilter(c, row, f) <==> RowMeets(c, row, f) {
      if f.field.qualified in row {
        MatchesMeans(c, row[f.field.qualified], f.condition);
      }
    }
    hide EvaluateFilter, RowMeets;
  }

  /** The ways to satisfy a tree: each a list of filters that suffices.  Or offers the ways of its
      children, And one way of each child. */
  function Ways(node: FilterTree): seq<seq<ResolvedFilter>>
    decreases node, 0
  {
    match node
    case Leaf(filter) => [[filter]]
    case Group(Or, children) => AnyWay(children)
    case Group(And, children) => EveryWay(children)
  }

  function AnyWay(children: seq<FilterTree>): seq<seq<ResolvedFilter>>
    decreases children, 1
  {
    if |children| == 0 then [] else Ways(children[0]) + AnyWay(children[1..])
  }

  function EveryWay(children: seq<FilterTree>): seq<seq<ResolvedFilter>>
    decreases children, 1
  {
    if |children| == 0 then [[]] else Pairs(Ways(children[0]), EveryWay(children[1..]))
  }

  /** Every way of the first with every way of the second. */
  function Pairs(first: seq<seq<ResolvedFilter>>, second: seq<seq<ResolvedFilter>>): seq<seq<ResolvedFilter>> {
    if |first| == 0 then [] else Joined(first[0], second) + Pairs(first[1..], second)
  }

  function Joined(way: seq<ResolvedFilter>, second: seq<seq<ResolvedFilter>>): seq<seq<ResolvedFilter>> {
    if |second| == 0 then [] else [way + second[0]] + Joined(way, second[1..])
  }

  /** The row meets all filters of some way. */
  ghost predicate SomeWay(c: Comparer, row: FlatRow, ways: seq<seq<ResolvedFilter>>) {
    exists way :: way in ways && WayMet(c, row, way)
  }

  ghost predicate WayMet(c: Comparer, row: FlatRow, way: seq<ResolvedFilter>) {
    forall f | f in way :: RowMeets(c, row, f)
  }

  lemma SomeWayEither(c: Comparer, row: FlatRow, first: seq<seq<ResolvedFilter>>, second: seq<seq<ResolvedFilter>>)
    ensures SomeWay(c, row, first + second) <==> SomeWay(c, row, first) || SomeWay(c, row, second)
  {
    hide WayMet;
    assert forall way :: way in first + second <==> way in first || way in second;
  }

  lemma {:induction false} SomeWayJoined(c: Comparer, row: FlatRow, way: seq<ResolvedFilter>, second: seq<seq<ResolvedFilter>>)
    ensures SomeWay(c, row, Joined(way, second)) <==> WayMet(c, row, way) && SomeWay(c, row, second)
  {
    if |second| != 0 {
      SomeWayJoined(c, row, way, second[1..]);
      assert forall f :: f in way + second[0] <==> f in way || f in second[0];
      assert WayMet(c, row, way + second[0]) <==> WayMet(c, row, way) && WayMet(c, row, second[0]);
      hide WayMet;
      SomeWayEither(c, row, [way + second[0]], Joined(way, second[1..]));
      SomeWayEither(c, row, [second[0]], second[1..]);
      assert second == [second[0]] + second[1..];
      OneWay(c, row, way + second[0]);
      OneWay(c, row, second[0]);
    }
  }

  lemma OneWay(c: Comparer, row: FlatRow, way: seq<ResolvedFilter>)
    ensures SomeWay(c, row, [way]) <==> WayMet(c, row, way)
  {
    hide WayMet;
    assert way in [way];
  }

  lemma {:induction false} SomeWayPairs(c: Comparer, row: FlatRow, first: seq<seq<ResolvedFilter>>, second: seq<seq<ResolvedFilter>>)
    ensures SomeWay(c, row, Pairs(first, second)) <==> SomeWay(c, row, first) && SomeWay(c, row, second)
  {
    hide WayMet;
    if |first| != 0 {
      SomeWayPairs(c, row, first[1..], second);
      SomeWayJoined(c, row, first[0], second);
      SomeWayEither(c, row, Joined(first[0], second), Pairs(first[1..], second));
      SomeWayEither(c, row, [first[0]], first[1..]);
      assert first == [first[0]] + first[1..];
      OneWay(c, row, first[0]);
    }
  }

  /** A filter tree passes exactly the rows that meet all filters of one of its ways. */
  lemma {:induction false} TreeMeans(c: Comparer, row: FlatRow, node: FilterTree)
    ensures EvaluateTree(c, row, node) <==> SomeWay(c, row, Ways(node))
    decreases node, 0
  {
    match node
    case Leaf(filter) =>
      PassesMeans(c, row, [filter], And);
      assert filter in [filter];
      OneWay(c, row, [filter]);
      assert WayMet(c, row, [filter]) <==> RowMeets(c, row, filter);
    case Group(op, children) =>
      TreesMean(c, row, children);
  }

  lemma {:induction false} TreesMean(c: Comparer, row: FlatRow, children: seq<FilterTree>)
    ensures (exists child :: child in children && EvaluateTree(c, row, child)) <==> SomeWay(c, row, AnyWay(children))
    ensures (forall child | child in children :: EvaluateTree(c, row, child)) <==> SomeWay(c, row, EveryWay(children))
    decreases children, 1
  {
    hide EvaluateTree;
    if |children| == 0 {
      OneWay(c, row, []);
    } else {
      assert children == [children[0]] + children[1..];
      assert forall child :: child in children <==> child == children[0] || child in children[1..];
      TreeMeans(c, row, children[0]);
      TreesMean(c, row, children[1..]);
      hide SomeWay, Ways;
      SomeWayEither(c, row, Ways(children[0]), AnyWay(children[1..]));
      SomeWayPairs(c, row, Ways(children[0]), EveryWay(children[1..]));
    }
  }

  // ---------- the columns they read ----------

  predicate SameColumn(column: Text, x: FlatRow, y: FlatRow) {
    (column in x <==> column in y) && Cell(x, column) == Cell(y, column)
  }

  ghost predicate SameOrderColumns(order: seq<OrderBy>, x: FlatRow, y: FlatRow) {
    forall o | o in order :: SameColumn(o.field.qualified, x, y)
  }

  ghost predicate SameFilterColumns(filters: seq<ResolvedFilter>, x: FlatRow, y: FlatRow) {
    forall f | f in filters :: SameColumn(f.field.qualified, x, y)
  }

  lemma {:induction false} CompareReadsOrderColumns(c: Comparer, order: seq<OrderBy>, x: FlatRow, y: FlatRow, x': FlatRow, y': FlatRow)
    requires SameOrderColumns(order, x, x') && SameOrderColumns(order, y, y')
    ensures CompareRows(c, x', y', order) == CompareRows(c, x, y, order)
  {
    if |order| != 0 {
      assert order[0] in order;
      CompareReadsOrderColumns(c, order[1..], x, y, x', y');
    }
  }

  lemma WithinReadsOrderColumns(order: seq<OrderBy>, values: Columns, x: FlatRow, x': FlatRow)
    requires SameOrderColumns(order, x, x')
    ensures Within(order, values, x') == Within(order, values, x)
  {
    hide Cell;
    assert forall o | o in order :: Cell(x, o.field.qualified) == Cell(x', o.field.qualified);
  }

  lemma FiltersReadFilterColumns(c: Comparer, filters: seq<ResolvedFilter>, op: LogicalOp, x: FlatRow, x': FlatRow)
    requires SameFilterColumns(filters, x, x')
    ensures PassesFilters(c, x', filters, op) == PassesFilters(c, x, filters, op)
  {
    forall f | f in filters ensures EvaluateFilter(c, x', f) == EvaluateFilter(c, x, f) {
      assert SameColumn(f.field.qualified, x, x');
    }
  }
}
