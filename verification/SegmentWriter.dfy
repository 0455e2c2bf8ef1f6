/** The active segment: raw column files, value bitmaps, bounds and tombstones kept in step. */
module SegmentWriting {
  import opened Bytes
  import opened Wrappers
  import opened Types
  import opened SegmentSearch
  import opened ColumnFiles

  /** The column's values, in row order, over the rows that have it. */
  function ColumnValues(rows: seq<Row>, col: Text): seq<Text> {
    if |rows| == 0 then []
    else
      var last := rows[|rows| - 1];
      ColumnValues(rows[..|rows| - 1], col) + (if col in last then [last[col]] else [])
  }

  lemma ColumnValuesAppend(rows: seq<Row>, row: Row, col: Text)
    ensures ColumnValues(rows + [row], col) == ColumnValues(rows, col) + (if col in row then [row[col]] else [])
  {
    assert (rows + [row])[..|rows|] == rows;
  }

  /** Everything the writer holds about one column. */
  datatype ColumnState = ColumnState(bitmaps: Bitmaps, file: Option<ColumnFile>, bounds: Option<(Text, Text)>)

  /** `append_record`'s work on one column. */
  function AppendCell(state: ColumnState, localId: nat, v: Text): ColumnState {
    var file := if state.file.Some? then state.file.value else EMPTY;
    var ids := if v in state.bitmaps then state.bitmaps[v] else {};
    ColumnState(state.bitmaps[v := ids + {localId}], Some(ColumnFiles.AppendValue(file, v)), Some(Widen(state.bounds, v)))
  }

  function Widen(bounds: Option<(Text, Text)>, v: Text): (Text, Text) {
    match bounds
    case None => (v, v)
    case Some((min, max)) => (if TextLess(v, min) then v else min, if CompareText(v, max) == Greater then v else max)
  }

  /** The state is what appending exactly these rows leaves. */
  ghost predicate ColumnTrue(state: ColumnState, rows: seq<Row>, col: Text) {
    && (forall v, i: nat :: Marks(state.bitmaps, v, i) <==> Cell(rows, i, col) == Some(v))
    && state.file == (if |ColumnValues(rows, col)| == 0 then None else Some(FileOf(ColumnValues(rows, col))))
    && (state.bounds.None? <==> |ColumnValues(rows, col)| == 0)
    && (state.bounds.Some? ==> Encloses(state.bounds.value, ColumnValues(rows, col)))
  }

  ghost predicate Encloses(bounds: (Text, Text), values: seq<Text>) {
    && bounds.0 in values && bounds.1 in values
    && forall v | v in values :: !TextLess(v, bounds.0) && !TextLess(bounds.1, v)
  }

  lemma WidenEncloses(bounds: Option<(Text, Text)>, values: seq<Text>, v: Text)
    requires bounds.None? <==> |values| == 0
    requires bounds.Some? ==> Encloses(bounds.value, values)
    ensures Encloses(Widen(bounds, v), values + [v])
  {
    TextOrderTotal(v, v);
    if bounds.Some? {
      var (min, max) := bounds.value;
      TextOrderTotal(v, min);
      TextOrderTotal(v, max);
      TextOrderTotal(max, v);
      forall w | w in values + [v]
        ensures !TextLess(w, Widen(bounds, v).0) && !TextLess(Widen(bounds, v).1, w)
      {
        if w in values {
          TextOrderTotal(v, min);
          TextOrderTotal(min, v);
          if TextLess(v, min) { TextOrderTransitive(v, min, w); }
          if CompareText(v, max) == Greater { TextOrderTransitive(w, max, v); }
        } else {
          TextOrderTotal(v, v);
        }
      }
    }
  }

  lemma CellAppended(state: ColumnState, rows: seq<Row>, row: Row, col: Text)
    requires ColumnTrue(state, rows, col) && col in row
    ensures ColumnTrue(AppendCell(state, |rows|, row[col]), rows + [row], col)
  {
    ColumnValuesAppend(rows, row, col);
    CellsAppended(rows, row, col);
    var values := ColumnValues(rows, col);
    var next := AppendCell(state, |rows|, row[col]);
    forall v, i: nat ensures Marks(next.bitmaps, v, i) <==> Cell(rows + [row], i, col) == Some(v) {
      assert Marks(next.bitmaps, v, i) <==> Marks(state.bitmaps, v, i) || (i == |rows| && v == row[col]);
    }
    WidenEncloses(state.bounds, values, row[col]);
    assert (values + [row[col]])[..|values|] == values;
  }

  lemma CellSkipped(state: ColumnState, rows: seq<Row>, row: Row, col: Text)
    requires ColumnTrue(state, rows, col) && col !in row
    ensures ColumnTrue(state, rows + [row], col)
  {
    ColumnValuesAppend(rows, row, col);
    assert ColumnValues(rows, col) + [] == ColumnValues(rows, col);
    CellsAppended(rows, row, col);
  }

  lemma CellsAppended(rows: seq<Row>, row: Row, col: Text)
    ensures forall i: nat :: Cell(rows + [row], i, col) == if i == |rows| then Lookup(row, col) else Cell(rows, i, col)
  {
  }

  function Lookup<K, V>(m: map<K, V>, k: K): Option<V> {
    if k in m then Some(m[k]) else None
  }

  class SegmentWriter {
    var files: map<Text, ColumnFile>
    var bitmaps: map<Text, Bitmaps>
    var minMax: map<Text, (Text, Text)>
    var deleted: set<nat>
    var recordCount: nat
    /** Every row appended so far. */
    ghost var rows: seq<Row>

    function Column(col: Text): ColumnState
      reads this
    {
      ColumnState(if col in bitmaps then bitmaps[col] else map[], Lookup(files, col), Lookup(minMax, col))
    }

    function Index(): SegmentIndex
      reads this
    {
      SegmentIndex(bitmaps, minMax, recordCount, deleted)
    }

    ghost predicate Valid()
      reads this
    {
      recordCount == |rows| && forall col :: ColumnTrue(Column(col), rows, col)
    }

    constructor ()
      ensures Valid() && rows == [] && deleted == {}
    {
      files, bitmaps, minMax, deleted, recordCount := map[], map[], map[], {}, 0;
      rows := [];
    }

    /** Appends a row, its columns in whatever order the hash map yields them. */
    method AppendRecord(row: Row)
      requires Valid() && recordCount < U32_LIMIT
      modifies this
      ensures Valid()
      ensures rows == old(rows) + [row] && deleted == old(deleted)
    {
      hide ColumnTrue, AppendCell;
      var localId := recordCount;
      var pending := row.Keys;
      ghost var after := rows + [row];
      forall col | col !in row ensures ColumnTrue(Column(col), after, col) {
        CellSkipped(Column(col), rows, row, col);
      }
      while pending != {}
        invariant pending <= row.Keys
        invariant rows == old(rows) && recordCount == localId == |rows| && deleted == old(deleted)
        invariant forall col :: ColumnTrue(Column(col), if col in pending then rows else after, col)
        decreases pending
      {
        var col :| col in pending;
        pending := pending - {col};
        CellAppended(Column(col), rows, row, col);
        AppendColumn(col, localId, row[col]);
      }
      recordCount := recordCount + 1;
      rows := after;
    }

    /** One column's share of an append. */
    method AppendColumn(col: Text, localId: nat, v: Text)
      modifies this`files, this`bitmaps, this`minMax
      ensures Column(col) == AppendCell(old(Column(col)), localId, v)
      ensures forall other | other != col :: Column(other) == old(Column(other))
    {
      var next := AppendCell(Column(col), localId, v);
      bitmaps := bitmaps[col := next.bitmaps];
      files := files[col := next.file.value];
      minMax := minMax[col := next.bounds.value];
    }

    method MarkDeleted(localId: nat)
      requires Valid()
      modifies this`deleted
      ensures Valid()
      ensures deleted == old(deleted) + {localId}
    {
      hide ColumnTrue;
      deleted := deleted + {localId};
      assert forall col :: Column(col) == old(Column(col));
    }

    /** An And-search of the active segment is a scan of its live rows, as long as comparison agrees
        with string order on the values in the filtered columns. */
    method Find(c: Comparer, filters: seq<Filter>, op: LogicalOp) returns (result: set<nat>)
      requires Valid()
      ensures result == SearchResult(c, Index(), filters, op)
      ensures op == And && (forall f | f in ValidFilters(filters) :: Agrees(c, f, ValueSet(rows, f.field)))
          ==> result == Scan(c, rows, deleted, filters) && forall i: nat :: i in result <==> LiveMatch(c, rows, deleted, filters, i)
    {
      hide LiveMatch;
      result := Search(c, Index(), filters, op);
      IndexIsTrue();
      if op == And && forall f | f in ValidFilters(filters) :: Agrees(c, f, ValueSet(rows, f.field)) {
        SearchIsScan(c, Index(), rows, filters);
      }
    }

    lemma IndexIsTrue()
      requires Valid()
      ensures IndexTrue(Index(), rows)
    {
      forall col, v, i: nat
        ensures Marks(BitmapsOf(Index(), col), v, i) <==> Cell(rows, i, col) == Some(v)
      {
        assert ColumnTrue(Column(col), rows, col);
        assert BitmapsOf(Index(), col) == Column(col).bitmaps;
      }
      forall col ensures BoundsTrue(Index(), rows, col, ValueSet(rows, col)) {
        assert ColumnTrue(Column(col), rows, col);
        ValueSetMembers(rows, col);
      }
    }
  }

  lemma {:induction false} ValueSetMembers(rows: seq<Row>, col: Text)
    ensures forall v :: v in ColumnValues(rows, col) <==> v in ValueSet(rows, col)
  {
    if |rows| != 0 {
      var prefix, last := rows[..|rows| - 1], rows[|rows| - 1];
      ValueSetMembers(prefix, col);
      forall v ensures v in ColumnValues(rows, col) <==> v in ValueSet(rows, col) {
        if v in ValueSet(prefix, col) {
          var i :| 0 <= i < |prefix| && col in prefix[i] && prefix[i][col] == v;
          assert col in rows[i] && rows[i][col] == v;
        }
        if v in ValueSet(rows, col) {
          var i :| 0 <= i < |rows| && col in rows[i] && rows[i][col] == v;
          assert i < |prefix| ==> col in prefix[i] && prefix[i][col] == v;
        }
      }
    }
  }
}
