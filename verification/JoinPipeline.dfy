/** One join step: keyed fetch, de-duplication, hash index and row merging, against the plain
    nested-loop join over the table. */
module JoinPipeline {
  import opened Bytes
  import opened Wrappers
  import opened Sorting
  import opened Sequences
  import opened Types
  import opened JoinRows
  import opened JoinLookup

  const JOIN_RESULT_LIMIT: nat := 200_000
  const FETCH_PAGE_SIZE: nat := 100

  datatype JoinError = TooManyRows

  /** A join with the table it reads: fetched fields, rows in storage order, pushed-down filters. */
  datatype JoinInput = JoinInput(join: ResolvedJoin, fields: seq<Text>, table: seq<TableRow>, push: seq<Filter>)

  function Flat(alias: Text, fields: seq<Text>, r: TableRow): FlatRow {
    if |fields| == 0 then map[]
    else Flat(alias, fields[..|fields| - 1], r)[Qualify(alias, fields[|fields| - 1]) := Column(r, fields[|fields| - 1])]
  }

  function Flatten(input: JoinInput): TableRow -> FlatRow {
    (r: TableRow) => Flat(input.join.alias, input.fields, r)
  }

  lemma {:induction false} FlatColumns(alias: Text, fields: seq<Text>, r: TableRow)
    ensures forall f | f in fields :: Qualify(alias, f) in Flat(alias, fields, r) && Flat(alias, fields, r)[Qualify(alias, f)] == Column(r, f)
    ensures forall q | q in Flat(alias, fields, r) :: exists f :: f in fields && q == Qualify(alias, f)
  {
    if |fields| != 0 {
      var prefix, last := fields[..|fields| - 1], fields[|fields| - 1];
      FlatColumns(alias, prefix, r);
      assert fields == prefix + [last];
      forall f, g ensures Qualify(alias, f) == Qualify(alias, g) <==> f == g {
        SameAlias(alias, f, g);
      }
    }
  }

  lemma SameAlias(alias: Text, f: Text, g: Text)
    ensures Qualify(alias, f) == Qualify(alias, g) <==> f == g
  {
    assert Qualify(alias, f)[|alias| + 1..] == f && Qualify(alias, g)[|alias| + 1..] == g;
  }

  // ---------- fetching ----------

  function Passing(c: Comparer, filters: seq<Filter>): TableRow -> bool {
    (r: TableRow) => RowPasses(c, r, filters)
  }

  function Batch(c: Comparer, input: JoinInput): seq<Filter> -> seq<FlatRow> {
    (filters: seq<Filter>) => Map(Flatten(input), Select(Passing(c, filters), input.table))
  }

  /** Reads the matching rows page by page until the reported total is reached. */
  method FetchRows(c: Comparer, input: JoinInput, filters: seq<Filter>) returns (rows: seq<FlatRow>)
    ensures rows == Batch(c, input)(filters)
  {
    rows := [];
    var found := Select(Passing(c, filters), input.table);
    var offset: nat := 0;
    while true
      invariant offset <= |found|
      invariant rows == Map(Flatten(input), found[..offset])
      decreases |found| - offset
    {
      var page := Take(Drop(found, offset), FETCH_PAGE_SIZE);
      if |page| == 0 {
        break;
      }
      MapAppend(Flatten(input), found[..offset], page);
      assert found[..offset + |page|] == found[..offset] + page;
      rows := rows + Map(Flatten(input), page);
      offset := offset + |page|;
      if offset >= |found| {
        break;
      }
    }
    assert found[..offset] == found;
  }

  function FetchedColumns(input: JoinInput): seq<Text> {
    Map((f: Text) => Qualify(input.join.alias, f), input.fields)
  }

  function Fingerprint(input: JoinInput): FlatRow -> Text {
    (row: FlatRow) =>
      if forall q | q in FetchedColumns(input) :: q in row then JoinParts(FingerprintParts(FetchedColumns(input), row)) else []
  }

  /** Everything a join step fetches for the current rows. */
  function Fetched(c: Comparer, k: Keying, input: JoinInput, rows: seq<FlatRow>): seq<FlatRow> {
    if |input.join.conditions| == 0 then Batch(c, input)(input.push)
    else DedupAll(Fingerprint(input), [], Map(Batch(c, input), Coalesced(LookupSets(k, rows, input.join, input.push))))
  }

  method FetchJoinRows(c: Comparer, k: Keying, input: JoinInput, rows: seq<FlatRow>) returns (fetched: seq<FlatRow>)
    ensures fetched == Fetched(c, k, input, rows)
  {
    hide LookupSets, Coalesced, Batch, Fingerprint, DedupAppend;
    var lookups := BuildLookupFilters(k, rows, input.join, input.push);
    if lookups.None? {
      fetched := FetchRows(c, input, input.push);
      return;
    }
    var sets := CoalesceLookupFilters(lookups.value);
    ghost var batches := Map(Batch(c, input), sets);
    fetched := [];
    assert batches[0..] == batches;
    for n := 0 to |sets|
      invariant DedupAll(Fingerprint(input), [], batches) == DedupAll(Fingerprint(input), fetched, batches[n..])
    {
      var batch := FetchRows(c, input, sets[n]);
      assert batches[n..][1..] == batches[n + 1..];
      fetched := AppendUnseen(Fingerprint(input), fetched, batch);
    }
  }

  method AppendUnseen(fingerprint: FlatRow -> Text, acc: seq<FlatRow>, batch: seq<FlatRow>) returns (rows: seq<FlatRow>)
    ensures rows == DedupAppend(fingerprint, acc, batch)
  {
    rows := acc;
    assert batch[0..] == batch;
    for i := 0 to |batch|
      invariant DedupAppend(fingerprint, acc, batch) == DedupAppend(fingerprint, rows, batch[i..])
    {
      assert batch[i..][1..] == batch[i + 1..];
      if !Seen(fingerprint, rows, fingerprint(batch[i])) {
        rows := rows + [batch[i]];
      }
    }
  }

  // ---------- the hash index ----------

  type JoinIndex = map<Text, seq<FlatRow>>

  function KeyIs(k: Keying, columns: seq<Text>, key: Text): FlatRow -> bool {
    (row: FlatRow) => ComposeKey(k, row, columns) == Some(key)
  }

  ghost predicate Indexes(index: JoinIndex, k: Keying, rows: seq<FlatRow>, columns: seq<Text>) {
    forall key :: (if key in index then index[key] else []) == Select(KeyIs(k, columns, key), rows)
  }

  method BuildJoinIndex(k: Keying, rows: seq<FlatRow>, columns: seq<Text>) returns (index: JoinIndex)
    ensures Indexes(index, k, rows, columns)
  {
    index := map[];
    for n := 0 to |rows|
      invariant Indexes(index, k, rows[..n], columns)
    {
      assert rows[..n + 1] == rows[..n] + [rows[n]];
      forall key
        ensures Select(KeyIs(k, columns, key), rows[..n + 1])
             == if ComposeKey(k, rows[n], columns) == Some(key) then Select(KeyIs(k, columns, key), rows[..n]) + [rows[n]]
                else Select(KeyIs(k, columns, key), rows[..n])
      {
        SelectSnoc(KeyIs(k, columns, key), rows[..n], rows[n]);
      }
      var key := ComposeKey(k, rows[n], columns);
      if key.Some? {
        index := index[key.value := (if key.value in index then index[key.value] else []) + [rows[n]]];
      }
    }
    assert rows[..|rows|] == rows;
  }

  // ---------- merging rows ----------

  function Present(matches: seq<FlatRow>, column: Text): seq<Text> {
    if |matches| == 0 then []
    else (if column in matches[0] then [matches[0][column]] else []) + Present(matches[1..], column)
  }

  /** The synthetic columns of an aggregate join. */
  function SyntheticColumns(k: Keying, join: ResolvedJoin, matches: seq<FlatRow>): FlatRow {
    var count: FlatRow := if join.countAs.Some? then map[Qualify(join.alias, join.countAs.value) := k.countText(|matches|)] else map[];
    if join.sumField.Some? && join.sumAs.Some? then
      count[Qualify(join.alias, join.sumAs.value) := k.sumText(Present(matches, Qualify(join.alias, join.sumField.value)))]
    else count
  }

  /** The result rows of one current row, given its matches. */
  function JoinRow(k: Keying, join: ResolvedJoin, row: FlatRow, matches: seq<FlatRow>): seq<FlatRow> {
    if join.Aggregates() then
      if |matches| > 0 || join.kind == Left then [row + SyntheticColumns(k, join, matches)] else []
    else if |matches| > 0 then Map((m: FlatRow) => row + m, matches)
    else if join.kind == Left then [row]
    else []
  }

  function IndexMatches(k: Keying, join: ResolvedJoin, index: JoinIndex, row: FlatRow): seq<FlatRow> {
    match ComposeKey(k, row, join.ExistingSide())
    case None => []
    case Some(key) => if key in index then index[key] else []
  }

  function IndexJoin(k: Keying, join: ResolvedJoin, index: JoinIndex): FlatRow -> seq<FlatRow> {
    (row: FlatRow) => JoinRow(k, join, row, IndexMatches(k, join, index, row))
  }

  function Capped(rows: seq<FlatRow>): Result<seq<FlatRow>, JoinError> {
    if |rows| > JOIN_RESULT_LIMIT then Err(TooManyRows) else Ok(rows)
  }

  method ApplyJoin(k: Keying, rows: seq<FlatRow>, join: ResolvedJoin, index: JoinIndex)
    returns (joined: Result<seq<FlatRow>, JoinError>)
    ensures joined == Capped(FlatMap(IndexJoin(k, join, index), rows))
  {
    hide JoinRow, IndexMatches;
    var out := [];
    for n := 0 to |rows|
      invariant out == FlatMap(IndexJoin(k, join, index), rows[..n]) && |out| <= JOIN_RESULT_LIMIT
    {
      assert rows[..n + 1] == rows[..n] + [rows[n]];
      FlatMapAppend(IndexJoin(k, join, index), rows[..n], [rows[n]]);
      FlatMapOne(IndexJoin(k, join, index), rows[n]);
      var merged := MergeMatches(k, join, rows[n], IndexMatches(k, join, index, rows[n]));
      out := out + merged;
      if |out| > JOIN_RESULT_LIMIT {
        assert rows == rows[..n + 1] + rows[n + 1..];
        FlatMapAppend(IndexJoin(k, join, index), rows[..n + 1], rows[n + 1..]);
        return Err(TooManyRows);
      }
    }
    assert rows[..|rows|] == rows;
    return Ok(out);
  }

  /** The row with the matched row's columns: those win, all others stay. */
  ghost predicate Extends(row: FlatRow, matched: FlatRow, out: FlatRow) {
    && out.Keys == row.Keys + matched.Keys
    && (forall q | q in matched :: out[q] == matched[q])
    && (forall q | q in row && q !in matched :: out[q] == row[q])
  }

  /** What a plain join makes of one row: one row per match, whatever the kind of join; without a
      match the row itself if the join is LEFT. */
  ghost predicate Expands(kind: JoinKind, row: FlatRow, matches: seq<FlatRow>, out: seq<FlatRow>) {
    if |matches| == 0 then out == (if kind == Left then [row] else [])
    else |out| == |matches| && forall i | 0 <= i < |matches| :: Extends(row, matches[i], out[i])
  }

  /** What an aggregate join makes of one row that it keeps: the row with the count of its matches and
      the sum over them, where asked for, and nothing else. */
  ghost predicate Summarises(k: Keying, join: ResolvedJoin, row: FlatRow, matches: seq<FlatRow>, out: FlatRow) {
    && (forall q :: q in out <==> q in row || IsCount(join, q) || IsSum(join, q))
    && (forall q | q in row && !IsCount(join, q) && !IsSum(join, q) :: out[q] == row[q])
    && (forall q | q in out && IsCount(join, q) && !IsSum(join, q) :: out[q] == k.countText(|matches|))
    && (forall q | q in out && IsSum(join, q) ::
          out[q] == k.sumText(Map((m: FlatRow) => if Qualify(join.alias, join.sumField.value) in m then m[Qualify(join.alias, join.sumField.value)] else [],
                                  Select((m: FlatRow) => Qualify(join.alias, join.sumField.value) in m, matches))))
  }

  predicate IsCount(join: ResolvedJoin, q: Text) {
    join.countAs.Some? && q == Qualify(join.alias, join.countAs.value)
  }

  predicate IsSum(join: ResolvedJoin, q: Text) {
    join.sumField.Some? && join.sumAs.Some? && q == Qualify(join.alias, join.sumAs.value)
  }

  lemma {:induction false} PresentIs(matches: seq<FlatRow>, column: Text)
    ensures Present(matches, column)
         == Map((m: FlatRow) => if column in m then m[column] else [], Select((m: FlatRow) => column in m, matches))
  {
    if |matches| != 0 {
      PresentIs(matches[1..], column);
    }
  }

  lemma JoinRowMeans(k: Keying, join: ResolvedJoin, row: FlatRow, matches: seq<FlatRow>)
    ensures !join.Aggregates() ==> Expands(join.kind, row, matches, JoinRow(k, join, row, matches))
    ensures join.Aggregates() ==>
      var out := JoinRow(k, join, row, matches);
      if |matches| == 0 && join.kind == Inner then out == [] else |out| == 1 && Summarises(k, join, row, matches, out[0])
  {
    if join.Aggregates() && join.sumField.Some? && join.sumAs.Some? {
      PresentIs(matches, Qualify(join.alias, join.sumField.value));
    }
  }

  method MergeMatches(k: Keying, join: ResolvedJoin, row: FlatRow, matches: seq<FlatRow>) returns (merged: seq<FlatRow>)
    ensures merged == JoinRow(k, join, row, matches)
    ensures !join.Aggregates() ==> Expands(join.kind, row, matches, merged)
    ensures join.Aggregates() ==>
              if |matches| == 0 && join.kind == Inner then merged == [] else |merged| == 1 && Summarises(k, join, row, matches, merged[0])
  {
    JoinRowMeans(k, join, row, matches);
    hide Expands, Summarises;
    if join.Aggregates() {
      merged := if |matches| > 0 || join.kind == Left then [row + SyntheticColumns(k, join, matches)] else [];
    } else if |matches| == 0 {
      merged := if join.kind == Left then [row] else [];
    } else {
      var merge := (m: FlatRow) => row + m;
      merged := [];
      for i := 0 to |matches|
        invariant merged == Map(merge, matches[..i])
      {
        assert matches[..i + 1] == matches[..i] + [matches[i]];
        MapSnoc(merge, matches[..i], matches[i]);
        merged := merged + [row + matches[i]];
      }
      assert matches[..|matches|] == matches;
      assert forall i | 0 <= i < |matches| :: merged[i] == row + matches[i];
    }
  }

  // ---------- the nested-loop join ----------

  function NormalizedColumn(k: Keying, r: TableRow): Text -> Text {
    (f: Text) => k.normalize(Column(r, f))
  }

  function TableKey(k: Keying, input: JoinInput, r: TableRow): seq<Text> {
    Map(NormalizedColumn(k, r), input.join.JoiningFields())
  }

  function HasTableKey(k: Keying, input: JoinInput, parts: seq<Text>): TableRow -> bool {
    (r: TableRow) => TableKey(k, input, r) == parts
  }

  /** The table rows left by the pushed-down filters. */
  function Candidates(c: Comparer, input: JoinInput): seq<TableRow> {
    Select(Passing(c, input.push), input.table)
  }

  /** Every candidate with the row's key, in table order. */
  function NestedMatches(c: Comparer, k: Keying, input: JoinInput, row: FlatRow): seq<FlatRow> {
    match KeyParts(k, row, input.join.ExistingSide())
    case None => []
    case Some(parts) => Map(Flatten(input), Select(HasTableKey(k, input, parts), Candidates(c, input)))
  }

  function NestedJoin(c: Comparer, k: Keying, input: JoinInput): FlatRow -> seq<FlatRow> {
    (row: FlatRow) => JoinRow(k, input.join, row, NestedMatches(c, k, input, row))
  }
}
