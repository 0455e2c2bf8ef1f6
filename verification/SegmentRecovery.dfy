/** After a crash: the active segment's bitmaps rebuilt from raw column bytes, and searches that
    cannot tell the difference.  Then the exact limits of searching through an index. */
module SegmentRecovery {
  import opened Bytes
  import opened Wrappers
  import opened Types
  import opened SegmentSearch
  import opened ColumnFiles
  import opened SegmentWriting

  /** No row has the column after a row that lacks it. */
  ghost predicate PrefixColumn(rows: seq<Row>, col: Text) {
    forall i, j | 0 <= i < j < |rows| && col in rows[j] :: col in rows[i]
  }

  ghost predicate SlotsAreRows(rows: seq<Row>, col: Text) {
    forall i: nat :: Cell(rows, i, col) == if i < |ColumnValues(rows, col)| then Some(ColumnValues(rows, col)[i]) else None
  }

  /** Slot numbers in the column file are row numbers exactly for such columns. */
  lemma {:induction false} PrefixSlots(rows: seq<Row>, col: Text)
    ensures PrefixColumn(rows, col) <==> SlotsAreRows(rows, col)
    ensures |ColumnValues(rows, col)| <= |rows|
    ensures |ColumnValues(rows, col)| == |rows| ==> forall i | 0 <= i < |rows| :: col in rows[i]
    ensures PrefixColumn(rows, col) && |ColumnValues(rows, col)| < |rows| ==> col !in rows[|rows| - 1]
  {
    if |rows| != 0 {
      var prefix, last := rows[..|rows| - 1], rows[|rows| - 1];
      PrefixSlots(prefix, col);
      assert forall i: nat :: Cell(rows, i, col) == if i == |prefix| then Lookup(last, col) else Cell(prefix, i, col);
      assert PrefixColumn(rows, col) ==> PrefixColumn(prefix, col);
      if PrefixColumn(rows, col) && col in last {
        assert forall i | 0 <= i < |prefix| :: col in prefix[i] by {
          assert forall i | 0 <= i < |prefix| :: col in rows[i];
        }
        AllValues(prefix, col);
      }
      if SlotsAreRows(rows, col) {
        forall i, j | 0 <= i < j < |rows| && col in rows[j] ensures col in rows[i] {
          assert Cell(rows, j, col).Some?;
          assert Cell(rows, i, col).Some?;
        }
      }
    }
  }

  lemma {:induction false} AllValues(rows: seq<Row>, col: Text)
    requires forall i | 0 <= i < |rows| :: col in rows[i]
    ensures |ColumnValues(rows, col)| == |rows|
  {
    if |rows| != 0 {
      AllValues(rows[..|rows| - 1], col);
    }
  }

  /** How many of the first `i` rows have the column: the slot of row `i`, if that row has it. */
  ghost function SlotOf(rows: seq<Row>, col: Text, i: nat): nat
    requires i <= |rows|
  {
    |ColumnValues(rows[..i], col)|
  }

  predicate HasValueAt(values: seq<Text>, slot: nat, v: Text) {
    slot < |values| && values[slot] == v
  }

  lemma {:induction false} SlotHolds(rows: seq<Row>, col: Text, i: nat)
    requires i < |rows|
    ensures SlotOf(rows, col, i) <= i
    ensures SlotOf(rows, col, i) == i <==> forall j | 0 <= j < i :: col in rows[j]
    ensures col in rows[i] ==> HasValueAt(ColumnValues(rows, col), SlotOf(rows, col, i), rows[i][col])
  {
    var prefix := rows[..|rows| - 1];
    PrefixSlots(rows[..i], col);
    if forall j | 0 <= j < i :: col in rows[j] {
      AllValues(rows[..i], col);
    }
    if i < |prefix| {
      SlotHolds(prefix, col, i);
      assert prefix[..i] == rows[..i];
    }
  }

  /** Every live row finds its own value, or nothing, in the slot of its number. */
  ghost predicate LiveSlots(rows: seq<Row>, deleted: set<nat>, col: Text) {
    forall i: nat | i !in deleted ::
      Cell(rows, i, col) == if i < |ColumnValues(rows, col)| then Some(ColumnValues(rows, col)[i]) else None
  }

  /** No row before a live row with the column lacks it; no slot has the number of a live row without. */
  ghost predicate LivePrefix(rows: seq<Row>, deleted: set<nat>, col: Text) {
    && (forall i, j | 0 <= j < i < |rows| && i !in deleted && col in rows[i] :: col in rows[j])
    && (forall i | 0 <= i < |rows| && i !in deleted && col !in rows[i] :: |ColumnValues(rows, col)| <= i)
  }

  /** That is the condition on the rows: it suffices, it is necessary where no value repeats, and
      without tombstones it says that no row has the column after one that lacks it. */
  lemma LiveSlotsArePrefix(rows: seq<Row>, deleted: set<nat>, col: Text)
    ensures LivePrefix(rows, deleted, col) ==> LiveSlots(rows, deleted, col)
    ensures LiveSlots(rows, deleted, col) && DistinctValues(ColumnValues(rows, col)) ==> LivePrefix(rows, deleted, col)
    ensures PrefixColumn(rows, col) ==> LiveSlots(rows, deleted, col)
    ensures deleted == {} ==> (LiveSlots(rows, deleted, col) <==> PrefixColumn(rows, col))
  {
    var values := ColumnValues(rows, col);
    PrefixSlots(rows, col);
    forall i: nat | i < |rows|
      ensures SlotOf(rows, col, i) == i <==> forall j | 0 <= j < i :: col in rows[j]
      ensures col in rows[i] ==> HasValueAt(values, SlotOf(rows, col, i), rows[i][col])
    {
      SlotHolds(rows, col, i);
    }
    hide ColumnValues, SlotOf;
    if LiveSlots(rows, deleted, col) && DistinctValues(values) {
      forall i, j | 0 <= j < i < |rows| && i !in deleted && col in rows[i] ensures col in rows[j] {
        assert Cell(rows, i, col) == Some(rows[i][col]);
        assert values[SlotOf(rows, col, i)] == values[i];
      }
      forall i | 0 <= i < |rows| && i !in deleted && col !in rows[i] ensures |values| <= i {
        assert Cell(rows, i, col) == None;
      }
    }
    if LivePrefix(rows, deleted, col) {
      forall i: nat | i !in deleted ensures Cell(rows, i, col) == if i < |values| then Some(values[i]) else None {
        if i < |rows| && col in rows[i] {
          assert SlotOf(rows, col, i) == i;
        }
      }
    }
  }

  ghost predicate DistinctValues(values: seq<Text>) {
    forall i, j | 0 <= i < |values| && 0 <= j < |values| && values[i] == values[j] :: i == j
  }

  /** The column files hold what appending these rows wrote. */
  ghost predicate FilesTrue(files: map<Text, ColumnFile>, rows: seq<Row>) {
    forall col :: Lookup(files, col)
               == if |ColumnValues(rows, col)| == 0 then None else Some(FileOf(ColumnValues(rows, col)))
  }

  ghost predicate Addressable(files: map<Text, ColumnFile>) {
    forall col | col in files :: |files[col].dat| < U64_LIMIT
  }

  /** The bitmaps mark exactly the values of the first `n` slots whose rows are not deleted. */
  ghost predicate RebuiltUpTo(bitmaps: Bitmaps, dat: seq<Byte>, offsets: seq<Byte>, deleted: set<nat>, n: nat)
    requires n <= |offsets| / 8
  {
    forall v, i: nat :: Marks(bitmaps, v, i) <==> (i < n && i !in deleted && SlotValue(dat, offsets, i) == Some(v))
  }

  ghost predicate RebuiltFrom(bitmaps: Bitmaps, dat: seq<Byte>, offsets: seq<Byte>, deleted: set<nat>) {
    RebuiltUpTo(bitmaps, dat, offsets, deleted, |offsets| / 8)
  }

  lemma MarkAdded(bitmaps: Bitmaps, value: Text, row: nat)
    ensures var rows := if value in bitmaps then bitmaps[value] else {};
      forall v, i: nat :: Marks(bitmaps[value := rows + {row}], v, i) <==> Marks(bitmaps, v, i) || (v == value && i == row)
  {
    var rows := if value in bitmaps then bitmaps[value] else {};
    var next := bitmaps[value := rows + {row}];
    forall v, i: nat ensures Marks(next, v, i) <==> Marks(bitmaps, v, i) || (v == value && i == row) {
      if v == value {
        assert next[v] == rows + {row};
      } else {
        assert v in next <==> v in bitmaps;
      }
    }
  }

  /** Rebuilds a column's value bitmaps from its raw bytes, skipping deleted rows. */
  method RebuildBitmaps(dat: seq<Byte>, offsets: seq<Byte>, deleted: set<nat>) returns (bitmaps: Bitmaps)
    ensures RebuiltFrom(bitmaps, dat, offsets, deleted)
  {
    hide SlotValue, Marks;
    bitmaps := map[];
    NothingMarked(dat, offsets, deleted);
    for localId := 0 to |offsets| / 8
      invariant RebuiltUpTo(bitmaps, dat, offsets, deleted, localId)
    {
      if localId in deleted {
        continue;
      }
      var value := SlotValue(dat, offsets, localId);
      if value.None? {
        continue;
      }
      MarkAdded(bitmaps, value.value, localId);
      var rows := if value.value in bitmaps then bitmaps[value.value] else {};
      bitmaps := bitmaps[value.value := rows + {localId}];
    }
  }

  lemma NothingMarked(dat: seq<Byte>, offsets: seq<Byte>, deleted: set<nat>)
    ensures RebuiltUpTo(map[], dat, offsets, deleted, 0)
  {
    var none: Bitmaps := map[];
    forall v, i: nat ensures !Marks(none, v, i) {
    }
  }

  function BitmapsFor(bitmaps: map<Text, Bitmaps>, col: Text): Bitmaps {
    if col in bitmaps then bitmaps[col] else map[]
  }

  /** A bitmap file: what it decodes to, if it decodes. */
  type BitmapFile = Option<Bitmaps>

  /** The column has its persisted bitmaps, none if their file does not decode, and without a file
      what a scan of its bytes gives. */
  ghost predicate ColumnRehydrated(bitmaps: Bitmaps, file: ColumnFile, persisted: Option<BitmapFile>, deleted: set<nat>) {
    match persisted
    case Some(Some(decoded)) => bitmaps == decoded
    case Some(None) => bitmaps == map[]
    case None => RebuiltFrom(bitmaps, file.dat, file.offsets, deleted)
  }

  /** Per column, the persisted bitmaps if there are any, else a scan of the raw bytes. */
  method Rehydrate(files: map<Text, ColumnFile>, persisted: map<Text, BitmapFile>, deleted: set<nat>)
    returns (bitmaps: map<Text, Bitmaps>)
    ensures forall col | col in bitmaps :: col in files
    ensures forall col | col in files :: ColumnRehydrated(BitmapsFor(bitmaps, col), files[col], Lookup(persisted, col), deleted)
  {
    bitmaps := map[];
    var pending := files.Keys;
    while pending != {}
      invariant pending <= files.Keys && bitmaps.Keys <= files.Keys - pending
      invariant forall col | col in files && col !in pending ::
        ColumnRehydrated(BitmapsFor(bitmaps, col), files[col], Lookup(persisted, col), deleted)
      decreases pending
    {
      var col :| col in pending;
      pending := pending - {col};
      var rebuilt;
      if col in persisted {
        rebuilt := if persisted[col].Some? then persisted[col].value else map[];
      } else {
        rebuilt := RebuildBitmaps(files[col].dat, files[col].offsets, deleted);
      }
      hide RebuiltFrom;
      assert ColumnRehydrated(rebuilt, files[col], Lookup(persisted, col), deleted);
      hide ColumnRehydrated;
      ghost var before := bitmaps;
      if rebuilt != map[] {
        bitmaps := bitmaps[col := rebuilt];
      }
      assert BitmapsFor(bitmaps, col) == rebuilt;
      assert forall other | other != col :: BitmapsFor(bitmaps, other) == BitmapsFor(before, other);
    }
  }

  /** A rebuilt column has exactly the live part of the bitmaps that were lost. */
  lemma RebuiltColumn(bitmaps: Bitmaps, values: seq<Text>, deleted: set<nat>)
    requires |FileOf(values).dat| < U64_LIMIT
    requires RebuiltFrom(bitmaps, FileOf(values).dat, FileOf(values).offsets, deleted)
    ensures forall v, i: nat :: Marks(bitmaps, v, i) <==> (i < |values| && i !in deleted && values[i] == v)
  {
    FileSizes(values);
    forall i: nat | i < |values| ensures SlotValue(FileOf(values).dat, FileOf(values).offsets, i) == Some(values[i]) {
      SlotReadsBack(values, i);
    }
  }

  /** A segment reloaded without bitmap files. */
  ghost predicate Recovered(ix: SegmentIndex, files: map<Text, ColumnFile>) {
    && (forall col | col in ix.bitmaps :: col in files)
    && forall col | col in files :: RebuiltFrom(BitmapsOf(ix, col), files[col].dat, files[col].offsets, ix.deleted)
  }

  ghost predicate ColumnBitmapsTrue(ix: SegmentIndex, rows: seq<Row>, col: Text) {
    forall v, i: nat | i !in ix.deleted :: Marks(BitmapsOf(ix, col), v, i) <==> Cell(rows, i, col) == Some(v)
  }

  /** Rebuilding recovers a column exactly if every live row's slot is its own. */
  lemma RebuildExactness(ix: SegmentIndex, files: map<Text, ColumnFile>, rows: seq<Row>, col: Text)
    requires FilesTrue(files, rows) && Addressable(files) && Recovered(ix, files)
    ensures ColumnBitmapsTrue(ix, rows, col) <==> LiveSlots(rows, ix.deleted, col)
  {
    var values := ColumnValues(rows, col);
    assert Lookup(files, col) == if |values| == 0 then None else Some(FileOf(values));
    if col in files {
      RebuiltColumn(BitmapsOf(ix, col), values, ix.deleted);
    } else {
      assert BitmapsOf(ix, col) == map[];
      assert forall v, i: nat :: !Marks(BitmapsOf(ix, col), v, i);
    }
    assert forall v, i: nat :: Marks(BitmapsOf(ix, col), v, i) <==> (i < |values| && i !in ix.deleted && values[i] == v);
    hide Marks, FilesTrue, Addressable, Recovered, ColumnValues;
    if ColumnBitmapsTrue(ix, rows, col) {
      forall i: nat | i !in ix.deleted ensures Cell(rows, i, col) == if i < |values| then Some(values[i]) else None {
        forall v ensures Cell(rows, i, col) == Some(v) <==> i < |values| && values[i] == v {
          assert Marks(BitmapsOf(ix, col), v, i) <==> Cell(rows, i, col) == Some(v);
        }
      }
    }
  }

  lemma RecoveredTrue(ix: SegmentIndex, files: map<Text, ColumnFile>, rows: seq<Row>)
    requires FilesTrue(files, rows) && Addressable(files) && forall col :: LiveSlots(rows, ix.deleted, col)
    requires Recovered(ix, files) && ix.count == |rows|
    ensures BitmapsTrue(ix, rows)
  {
    hide FilesTrue, Addressable, LiveSlots, Recovered;
    forall col, v, i: nat | i !in ix.deleted
      ensures Marks(BitmapsOf(ix, col), v, i) <==> Cell(rows, i, col) == Some(v)
    {
      RebuildExactness(ix, files, rows, col);
      assert ColumnBitmapsTrue(ix, rows, col);
    }
  }

  ghost predicate AllAgree(c: Comparer, rows: seq<Row>, filters: seq<Filter>) {
    forall f | f in ValidFilters(filters) :: Agrees(c, f, ValueSet(rows, f.field))
  }

  /** Searching after the crash gives what searching before it gave. */
  lemma SearchSurvivesCrash(c: Comparer, before: SegmentIndex, after: SegmentIndex,
                            files: map<Text, ColumnFile>, rows: seq<Row>, filters: seq<Filter>)
    requires IndexTrue(before, rows)
    requires FilesTrue(files, rows) && Addressable(files) && forall col :: LiveSlots(rows, before.deleted, col)
    requires Recovered(after, files) && after.count == before.count && after.deleted == before.deleted
    requires forall col | col in after.minMax :: BoundsTrue(after, rows, col, ValueSet(rows, col))
    requires AllAgree(c, rows, filters)
    ensures SearchResult(c, after, filters, And) == SearchResult(c, before, filters, And)
         == Scan(c, rows, before.deleted, filters)
  {
    RecoveredTrue(after, files, rows);
    SearchIsScan(c, after, rows, filters);
    SearchIsScan(c, before, rows, filters);
  }

  // ---------- reopening ----------

  /** The number of rows a reopened segment believes to have: the manifest's if the manifest knows the
      segment, else the number of slots of some column. */
  ghost predicate LoadedCount(files: map<Text, ColumnFile>, meta: Option<nat>, count: nat) {
    if meta.Some? then count == meta.value
    else if files == map[] then count == 0
    else exists col :: col in files && count == |files[col].offsets| / 8
  }

  method LoadCount(files: map<Text, ColumnFile>, meta: Option<nat>) returns (count: nat)
    ensures LoadedCount(files, meta, count)
  {
    if meta.Some? {
      return meta.value;
    }
    if files == map[] {
      return 0;
    }
    var col :| col in files;
    return |files[col].offsets| / 8;
  }

  /** Without a manifest entry the count never exceeds the rows, and it is theirs if the column that
      was looked at is in every row. */
  lemma CountFromSlots(files: map<Text, ColumnFile>, rows: seq<Row>, col: Text)
    requires FilesTrue(files, rows) && col in files
    ensures |files[col].offsets| / 8 <= |rows|
    ensures |files[col].offsets| / 8 == |rows| <==> forall i | 0 <= i < |rows| :: col in rows[i]
  {
    assert Lookup(files, col) == Some(FileOf(ColumnValues(rows, col)));
    FileSizes(ColumnValues(rows, col));
    PrefixSlots(rows, col);
    if forall i | 0 <= i < |rows| :: col in rows[i] {
      AllValues(rows, col);
    }
  }

  /** What reopening leaves in memory: with a count of nothing the bitmaps are not rebuilt. */
  ghost predicate Reopened(ix: SegmentIndex, files: map<Text, ColumnFile>, rows: seq<Row>, deleted: set<nat>) {
    && ix.deleted == deleted
    && (if ix.count == 0 then ix.bitmaps == map[] else Recovered(ix, files))
    && forall col | col in ix.minMax :: BoundsTrue(ix, rows, col, ValueSet(rows, col))
  }

  /** No live row lies between the two row counts. */
  ghost predicate CountHarmless(count: nat, rows: seq<Row>, deleted: set<nat>) {
    forall i: nat | i !in deleted :: i < count <==> i < |rows|
  }

  lemma {:induction false} CombinedIgnoresCount(c: Comparer, ix: SegmentIndex, count: nat, filters: seq<Filter>, op: LogicalOp)
    requires |filters| > 0
    ensures Combined(c, ix.(count := count), filters, op) == Combined(c, ix, filters, op)
  {
    hide FilterBitmap;
    var last := filters[|filters| - 1];
    assert BitmapsOf(ix.(count := count), last.field) == BitmapsOf(ix, last.field);
    if |filters| > 1 {
      CombinedIgnoresCount(c, ix, count, filters[..|filters| - 1], op);
    }
  }

  /** With a harmless count every search gives what a true count gives. */
  lemma HarmlessCount(c: Comparer, ix: SegmentIndex, rows: seq<Row>, filters: seq<Filter>)
    requires CountHarmless(ix.count, rows, ix.deleted)
    ensures SearchResult(c, ix.(count := |rows|), filters, And) == SearchResult(c, ix, filters, And)
  {
    var valid := ValidFilters(filters);
    if |valid| > 0 {
      CombinedIgnoresCount(c, ix, |rows|, valid, And);
      assert forall f :: Skips(c, ix.(count := |rows|), f) == Skips(c, ix, f);
    }
  }

  /** Where no row is live, nothing is found, bitmaps or not. */
  lemma NothingLive(c: Comparer, ix: SegmentIndex, rows: seq<Row>, filters: seq<Filter>)
    requires ix.count == 0 && ix.bitmaps == map[] && CountHarmless(0, rows, ix.deleted)
    ensures SearchResult(c, ix, filters, And) == {} == Scan(c, rows, ix.deleted, filters)
  {
    var valid := ValidFilters(filters);
    if |valid| > 0 {
      var last := valid[|valid| - 1];
      assert BitmapsOf(ix, last.field) == map[];
      assert FilterBitmap(c, map[], last) == {};
      assert Combined(c, ix, valid, And) == {};
    }
  }

  /** A reopened segment answers every And-search that agrees with string order as before the crash
      exactly if its row count is harmless. */
  lemma ReopenExactIff(before: SegmentIndex, after: SegmentIndex, files: map<Text, ColumnFile>, rows: seq<Row>)
    requires IndexTrue(before, rows)
    requires FilesTrue(files, rows) && Addressable(files) && forall col :: LiveSlots(rows, before.deleted, col)
    requires Reopened(after, files, rows, before.deleted)
    ensures CountHarmless(after.count, rows, before.deleted) <==>
              forall c: Comparer, filters | AllAgree(c, rows, filters) ::
                SearchResult(c, after, filters, And) == SearchResult(c, before, filters, And)
  {
    if CountHarmless(after.count, rows, before.deleted) {
      forall c: Comparer, filters | AllAgree(c, rows, filters)
        ensures SearchResult(c, after, filters, And) == SearchResult(c, before, filters, And)
      {
        ReopenedFinds(c, before, after, files, rows, filters);
      }
    } else {
      WithoutFilters(before, after, rows);
    }
  }

  lemma ReopenedFinds(c: Comparer, before: SegmentIndex, after: SegmentIndex, files: map<Text, ColumnFile>, rows: seq<Row>,
                      filters: seq<Filter>)
    requires IndexTrue(before, rows)
    requires FilesTrue(files, rows) && Addressable(files) && forall col :: LiveSlots(rows, before.deleted, col)
    requires Reopened(after, files, rows, before.deleted) && CountHarmless(after.count, rows, before.deleted)
    requires AllAgree(c, rows, filters)
    ensures SearchResult(c, after, filters, And) == SearchResult(c, before, filters, And)
  {
    if after.count == 0 {
      NothingLive(c, after, rows, filters);
      SearchIsScan(c, before, rows, filters);
    } else {
      var counted := after.(count := |rows|);
      forall col ensures BitmapsOf(counted, col) == BitmapsOf(after, col) {
      }
      assert Recovered(counted, files);
      forall col | col in counted.minMax ensures BoundsTrue(counted, rows, col, ValueSet(rows, col)) {
        assert BoundsTrue(after, rows, col, ValueSet(rows, col));
      }
      hide FilesTrue, Addressable, LiveSlots, Recovered, BoundsTrue, AllAgree, CountHarmless;
      SearchSurvivesCrash(c, before, counted, files, rows, filters);
      HarmlessCount(c, after, rows, filters);
    }
  }

  lemma WithoutFilters(before: SegmentIndex, after: SegmentIndex, rows: seq<Row>)
    requires before.count == |rows| && after.deleted == before.deleted && !CountHarmless(after.count, rows, before.deleted)
    ensures exists c: Comparer, filters :: AllAgree(c, rows, filters)
              && SearchResult(c, after, filters, And) != SearchResult(c, before, filters, And)
  {
    var c := Comparer((a, b) => None, (a, b) => None, a => a, a => a);
    var i: nat :| i !in before.deleted && !(i < after.count <==> i < |rows|);
    assert ValidFilters([]) == [];
    assert AllAgree(c, rows, []);
    assert i in SearchResult(c, after, [], And) <==> i < after.count;
    assert i in SearchResult(c, before, [], And) <==> i < |rows|;
  }

  /** Reopens a crashed segment whose bitmap files never reached the disk; bounds may have been saved
      or not, and the manifest may know the segment or not.  Every And-search that agrees with string
      order is unchanged, exactly if the row count it finds is harmless. */
  method Reopen(crashed: SegmentWriter, boundsSaved: bool, meta: Option<nat>) returns (ix: SegmentIndex)
    requires crashed.Valid() && Addressable(crashed.files) && forall col :: LiveSlots(crashed.rows, crashed.deleted, col)
    ensures LoadedCount(crashed.files, meta, ix.count) && Reopened(ix, crashed.files, crashed.rows, crashed.deleted)
    ensures CountHarmless(ix.count, crashed.rows, crashed.deleted) <==>
              forall c: Comparer, filters | AllAgree(c, crashed.rows, filters) ::
                SearchResult(c, ix, filters, And) == SearchResult(c, crashed.Index(), filters, And)
  {
    var count := LoadCount(crashed.files, meta);
    var bitmaps: map<Text, Bitmaps> := map[];
    if count > 0 {
      bitmaps := Rehydrate(crashed.files, map[], crashed.deleted);
    }
    ix := SegmentIndex(bitmaps, if boundsSaved then crashed.minMax else map[], count, crashed.deleted);
    crashed.IndexIsTrue();
    WriterFiles(crashed);
    hide AllAgree, CountHarmless, SearchResult, LiveSlots, FilesTrue, Addressable;
    forall col | col in crashed.files ensures BitmapsOf(ix, col) == BitmapsFor(bitmaps, col) {
    }
    assert count > 0 ==> Recovered(ix, crashed.files);
    forall col | col in ix.minMax ensures BoundsTrue(ix, crashed.rows, col, ValueSet(crashed.rows, col)) {
      assert BoundsTrue(crashed.Index(), crashed.rows, col, ValueSet(crashed.rows, col));
    }
    ReopenExactIff(crashed.Index(), ix, crashed.files, crashed.rows);
  }

  lemma WriterFiles(w: SegmentWriter)
    requires w.Valid()
    ensures FilesTrue(w.files, w.rows)
  {
    forall col ensures Lookup(w.files, col) == w.Column(col).file {
      assert ColumnTrue(w.Column(col), w.rows, col);
    }
  }

  // ---------- how far searching through an index can be trusted ----------

  /** One column's index over the given values, as appending them leaves it. */
  ghost function IndexOver(field: Text, values: seq<Text>, min: Text, max: Text): SegmentIndex {
    SegmentIndex(
      map[field := map v | v in values :: set i: int | 0 <= i < |values| && values[i] == v :: i as nat],
      map[field := (min, max)],
      |values|,
      {})
  }

  ghost function RowsOver(field: Text, values: seq<Text>): seq<Row> {
    seq(|values|, i requires 0 <= i < |values| => map[field := values[i]])
  }

  lemma {:induction false} RowsOverValues(field: Text, values: seq<Text>, col: Text)
    ensures ColumnValues(RowsOver(field, values), col) == if col == field then values else []
  {
    if |values| != 0 {
      var n := |values| - 1;
      assert RowsOver(field, values)[..n] == RowsOver(field, values[..n]);
      RowsOverValues(field, values[..n], col);
      assert values == values[..n] + [values[n]];
    }
  }

  lemma IndexOverTrue(field: Text, values: seq<Text>, min: Text, max: Text)
    requires Encloses((min, max), values)
    ensures IndexTrue(IndexOver(field, values, min, max), RowsOver(field, values))
  {
    var ix, rows := IndexOver(field, values, min, max), RowsOver(field, values);
    forall col, v, i: nat
      ensures Marks(BitmapsOf(ix, col), v, i) <==> Cell(rows, i, col) == Some(v)
    {
    }
    forall col ensures BoundsTrue(ix, rows, col, ValueSet(rows, col)) {
      if col == field {
        RowsOverValues(field, values, col);
        ValueSetMembers(rows, col);
        assert forall i | 0 <= i < |rows| :: rows[i][col] in values;
      }
    }
  }

  /** Some segment whose column holds only these values is searched wrongly. */
  ghost predicate Misleads(c: Comparer, f: Filter, values: set<Text>) {
    exists rows: seq<Row>, ix: SegmentIndex ::
      ValueSet(rows, f.field) <= values && IndexTrue(ix, rows)
      && SearchResult(c, ix, [f], And) != Scan(c, rows, ix.deleted, [f])
  }

  lemma MisledBy(c: Comparer, f: Filter, values: set<Text>, column: seq<Text>, min: Text, max: Text)
    requires ValidFilter(f) && |column| > 0 && Encloses((min, max), column) && forall v | v in column :: v in values
    requires var ix := IndexOver(f.field, column, min, max);
      if Skips(c, ix, f) then Matches(c, column[0], f)
      else f.op == Eq && column[0] == f.value && !Matches(c, f.value, f)
    ensures Misleads(c, f, values)
  {
    var ix, rows := IndexOver(f.field, column, min, max), RowsOver(f.field, column);
    IndexOverTrue(f.field, column, min, max);
    RowsOverValues(f.field, column, f.field);
    ValueSetMembers(rows, f.field);
    assert ValidFilters([f]) == [f] + ValidFilters([]) == [f];
    assert f in [f];
    assert rows[0] == map[f.field := column[0]];
    assert 0 in Scan(c, rows, ix.deleted, [f]) <==> Matches(c, column[0], f);
    if !Skips(c, ix, f) {
      assert SearchResult(c, ix, [f], And) == FilterBitmap(c, BitmapsOf(ix, f.field), f) - {};
      assert column[0] in column && 0 in BitmapsOf(ix, f.field)[f.value];
    }
  }

  lemma DisagreementMisleads(c: Comparer, f: Filter, values: set<Text>)
    requires ValidFilter(f) && !Agrees(c, f, values)
    ensures Misleads(c, f, values)
  {
    if f.op == Between {
      var lo, v, hi :| lo in values && v in values && hi in values && !RangeAgrees(c, f, lo, v, hi);
      TextOrderTotal(lo, lo);
      TextOrderTotal(hi, hi);
      TextOrderTransitive(lo, v, hi);
      MisledBy(c, f, values, [v, lo, hi], lo, hi);
    } else {
      var v :| v in values && !AgreesAt(c, f, v);
      TextOrderTotal(v, v);
      TextOrderTotal(v, f.value);
      TextOrderTotal(f.value, v);
      MisledBy(c, f, values, [v], v, v);
    }
  }

  /** Searching by one filter is a scan, for every segment with these column values, if and only if
      comparison agrees with string order on them. */
  lemma SearchExactIff(c: Comparer, f: Filter, values: set<Text>)
    requires ValidFilter(f)
    ensures Agrees(c, f, values) <==> !Misleads(c, f, values)
  {
    if !Agrees(c, f, values) {
      DisagreementMisleads(c, f, values);
    } else if Misleads(c, f, values) {
      var rows: seq<Row>, ix: SegmentIndex :| ValueSet(rows, f.field) <= values && IndexTrue(ix, rows)
        && SearchResult(c, ix, [f], And) != Scan(c, rows, ix.deleted, [f]);
      AgreesOnFewer(c, f, ValueSet(rows, f.field), values);
      assert ValidFilters([f]) == [f] + ValidFilters([]) == [f];
      SearchIsScan(c, ix, rows, [f]);
    }
  }

  lemma AgreesOnFewer(c: Comparer, f: Filter, fewer: set<Text>, values: set<Text>)
    requires fewer <= values && Agrees(c, f, values)
    ensures Agrees(c, f, fewer)
  {
  }
}
