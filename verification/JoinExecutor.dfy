/** The join executor: joins one after the other, with filtering, sorting and truncating moved before
    the remaining LEFT joins when that cannot be seen in the page. */
module JoinExecutor {
  import opened Bytes
  import opened Wrappers
  import opened Sorting
  import opened Sequences
  import opened Types
  import opened JoinRows
  import opened JoinLookup
  import opened JoinPipeline
  import opened JoinEquivalence
  import opened JoinOrder

  const USIZE_LIMIT: nat := 0x1_0000_0000_0000_0000

  /** "__computed" */
  const COMPUTED: Text := [95, 95, 99, 111, 109, 112, 117, 116, 101, 100]

  /** A computed projection: its header, and what its expression gives for a row, as text. */
  datatype ComputedColumn = ComputedColumn(header: Text, value: FlatRow -> Text)

  datatype JoinQuery = JoinQuery(
    baseAlias: Text,
    baseRows: seq<FlatRow>,
    joins: seq<JoinInput>,
    filters: seq<ResolvedFilter>,
    filtersOp: LogicalOp,
    tree: Option<FilterTree>,
    order: seq<OrderBy>,
    aggregating: bool,
    computed: seq<ComputedColumn>,
    projections: seq<Text>,
    limit: nat,
    offset: nat)
  {
    function IsLeftAlias(alias: Text): bool {
      exists i | 0 <= i < |joins| :: joins[i].join.kind == Left && joins[i].join.alias == alias
    }

    /** Filters on LEFT joined tables are only pushed down, never applied to joined rows. */
    function PostJoinFilters(): seq<ResolvedFilter> {
      Select((f: ResolvedFilter) => !IsLeftAlias(f.field.alias), filters)
    }

    predicate IsJoined(alias: Text, n: nat)
      requires n <= |joins|
    {
      alias == baseAlias || exists i | 0 <= i < n :: joins[i].join.alias == alias
    }

    /** Names as query resolution leaves them. */
    ghost predicate Resolved() {
      && DOT !in baseAlias && baseAlias != COMPUTED
      && (forall i | 0 <= i < |joins| :: joins[i].join.Resolved() && joins[i].join.alias != COMPUTED
            && joins[i].join.alias != baseAlias)
      && (forall i, j | 0 <= i < j < |joins| :: joins[i].join.alias != joins[j].join.alias)
      && (forall f | f in filters :: f.field.Valid())
      && (forall o | o in order :: o.field.Valid())
      && limit < USIZE_LIMIT && offset < USIZE_LIMIT
    }
  }

  datatype QueryPage = QueryPage(rows: seq<seq<Text>>, totalFound: nat)

  // ---------- the plan without a window ----------

  /** All rows a row becomes in joins `from` to `to`. */
  function Expand(c: Comparer, k: Keying, q: JoinQuery, lo: nat, hi: nat): FlatRow -> seq<FlatRow>
    requires lo <= hi <= |q.joins|
    decreases hi
  {
    if lo == hi then One() else Then(Expand(c, k, q, lo, hi - 1), NestedJoin(c, k, q.joins[hi - 1]))
  }

  /** The rows after `n` nested-loop joins. */
  function JoinedRows(c: Comparer, k: Keying, q: JoinQuery, n: nat): seq<FlatRow>
    requires n <= |q.joins|
  {
    if n == 0 then q.baseRows else FlatMap(NestedJoin(c, k, q.joins[n - 1]), JoinedRows(c, k, q, n - 1))
  }

  predicate FitsLimit(c: Comparer, k: Keying, q: JoinQuery) {
    forall n | 0 < n <= |q.joins| :: |JoinedRows(c, k, q, n)| <= JOIN_RESULT_LIMIT
  }

  function ComputedCells(computed: seq<ComputedColumn>, row: FlatRow): FlatRow {
    if |computed| == 0 then map[]
    else ComputedCells(computed[..|computed| - 1], row)
           [Qualify(COMPUTED, computed[|computed| - 1].header) := computed[|computed| - 1].value(row)]
  }

  function Enrich(computed: seq<ComputedColumn>): FlatRow -> FlatRow {
    (row: FlatRow) => row + ComputedCells(computed, row)
  }

  function SortRows(c: Comparer, order: seq<OrderBy>, rows: seq<FlatRow>): seq<FlatRow> {
    if order == [] then rows else StableSort(RowLe(c, order), rows)
  }

  function Matching(c: Comparer, q: JoinQuery, rows: seq<FlatRow>): seq<FlatRow> {
    Select(PassesAll(c, q.PostJoinFilters(), q.filtersOp), rows)
  }

  /** The result rows of the plain plan: join everything, filter, compute, sort. */
  function PlainRows(c: Comparer, k: Keying, q: JoinQuery): seq<FlatRow> {
    SortRows(c, q.order,
      Map(Enrich(q.computed), Select(PassesTree(c, q.tree), Matching(c, q, JoinedRows(c, k, q, |q.joins|)))))
  }

  function Project(projections: seq<Text>): FlatRow -> seq<Text> {
    (row: FlatRow) => Map((column: Text) => Cell(row, column), projections)
  }

  /** The projected page of the result rows; a total not counted earlier is theirs. */
  function ResultPage(q: JoinQuery, rows: seq<FlatRow>, total: nat): QueryPage {
    QueryPage(Map(Project(q.projections), Page(rows, q.offset, q.limit)), if total == 0 then |rows| else total)
  }

  function PlainPage(c: Comparer, k: Keying, q: JoinQuery): QueryPage {
    ResultPage(q, PlainRows(c, k, q), 0)
  }

  // ---------- what the plain plan is ----------

  /** Filters on LEFT joined tables have done their part; of the others And asks every one, Or one if
      there is any; and the tree, if there is one, is satisfied in one of its ways. */
  ghost predicate Qualifies(c: Comparer, q: JoinQuery, row: FlatRow) {
    && (q.filtersOp == And ==> forall f | f in q.filters && !LeftJoined(q, f.field.alias) :: RowMeets(c, row, f))
    && (q.filtersOp == Or ==>
          (forall f | f in q.filters :: LeftJoined(q, f.field.alias))
          || exists f :: f in q.filters && !LeftJoined(q, f.field.alias) && RowMeets(c, row, f))
    && (q.tree.Some? ==> SomeWay(c, row, Ways(q.tree.value)))
  }

  ghost predicate LeftJoined(q: JoinQuery, alias: Text) {
    exists input :: input in q.joins && input.join.alias == alias && input.join.kind == Left
  }

  ghost function QualifiesOf(c: Comparer, q: JoinQuery): FlatRow -> bool {
    (row: FlatRow) => Qualifies(c, q, row)
  }

  /** The row with the computed columns: the last of one header counts, all other columns stay. */
  ghost predicate Computes(computed: seq<ComputedColumn>, row: FlatRow, out: FlatRow) {
    && (forall column :: column in out <==> column in row || Computed(computed, column))
    && (forall column | column in row && !Computed(computed, column) :: out[column] == row[column])
    && (forall i | 0 <= i < |computed| && LastHeader(computed, i) :: HoldsComputed(computed, row, out, i))
  }

  ghost predicate Computed(computed: seq<ComputedColumn>, column: Text) {
    exists i :: 0 <= i < |computed| && column == Qualify(COMPUTED, computed[i].header)
  }

  ghost predicate LastHeader(computed: seq<ComputedColumn>, i: int)
    requires 0 <= i < |computed|
  {
    forall j | i < j < |computed| :: computed[j].header != computed[i].header
  }

  lemma ComputedLast(computed: seq<ComputedColumn>, column: Text)
    requires |computed| > 0
    ensures var n := |computed| - 1;
      Computed(computed, column) <==> Computed(computed[..n], column) || column == Qualify(COMPUTED, computed[n].header)
  {
    var n := |computed| - 1;
    var front := computed[..n];
    hide Qualify;
    if Computed(front, column) {
      var i :| 0 <= i < n && column == Qualify(COMPUTED, front[i].header);
      assert computed[i] == front[i];
    }
    if Computed(computed, column) {
      var i :| 0 <= i <= n && column == Qualify(COMPUTED, computed[i].header);
      assert i < n ==> front[i] == computed[i];
    }
  }

  lemma LastHeaderFront(computed: seq<ComputedColumn>, i: int)
    requires 0 <= i < |computed| - 1 && LastHeader(computed, i)
    ensures var n := |computed| - 1;
      LastHeader(computed[..n], i) && Qualify(COMPUTED, computed[i].header) != Qualify(COMPUTED, computed[n].header)
  {
    var n := |computed| - 1;
    assert computed[n].header != computed[i].header;
    SameAlias(COMPUTED, computed[i].header, computed[n].header);
  }

  lemma {:induction false} ComputedCellsMean(computed: seq<ComputedColumn>, row: FlatRow)
    ensures forall column :: column in ComputedCells(computed, row) <==> Computed(computed, column)
    ensures forall i | 0 <= i < |computed| && LastHeader(computed, i) :: HoldsComputed(computed, row, ComputedCells(computed, row), i)
  {
    if |computed| != 0 {
      var n := |computed| - 1;
      var front := computed[..n];
      ComputedCellsMean(front, row);
      forall column ensures Computed(computed, column) <==> Computed(front, column) || column == Qualify(COMPUTED, computed[n].header) {
        ComputedLast(computed, column);
      }
      var before, cells := ComputedCells(front, row), ComputedCells(computed, row);
      assert cells == before[Qualify(COMPUTED, computed[n].header) := computed[n].value(row)];
      hide ComputedCells, Computed, LastHeader, Qualify;
      forall i | 0 <= i < |computed| && LastHeader(computed, i) ensures HoldsComputed(computed, row, cells, i) {
        if i < n {
          LastHeaderFront(computed, i);
          assert HoldsComputed(front, row, before, i);
        }
      }
    }
  }

  ghost predicate HoldsComputed(computed: seq<ComputedColumn>, row: FlatRow, cells: FlatRow, i: int)
    requires 0 <= i < |computed|
  {
    var column := Qualify(COMPUTED, computed[i].header);
    column in cells && cells[column] == computed[i].value(row)
  }

  lemma EnrichComputes(computed: seq<ComputedColumn>, row: FlatRow)
    ensures Computes(computed, row, Enrich(computed)(row))
  {
    ComputedCellsMean(computed, row);
    hide ComputedCells, Computed, LastHeader;
  }

  lemma QualifiesMeans(c: Comparer, q: JoinQuery, row: FlatRow)
    ensures Qualifies(c, q, row) <==> PassesAll(c, q.PostJoinFilters(), q.filtersOp)(row) && PassesTree(c, q.tree)(row)
  {
    PassesMeans(c, row, q.PostJoinFilters(), q.filtersOp);
    forall alias ensures q.IsLeftAlias(alias) <==> LeftJoined(q, alias) {
      if LeftJoined(q, alias) {
        var input :| input in q.joins && input.join.alias == alias && input.join.kind == Left;
        var i :| 0 <= i < |q.joins| && q.joins[i] == input;
      }
    }
    SelectMembers((f: ResolvedFilter) => !q.IsLeftAlias(f.field.alias), q.filters);
    if q.tree.Some? {
      TreeMeans(c, row, q.tree.value);
    }
    hide PassesFilters, RowMeets, SomeWay, Ways, EvaluateTree, LeftJoined, JoinQuery.IsLeftAlias;
    var post := q.PostJoinFilters();
    if |post| > 0 {
      assert post[0] in post;
    }
  }

  /** The rows that the result consists of: every joined row that qualifies, with its computed columns. */
  ghost function WantedRows(c: Comparer, k: Keying, q: JoinQuery): seq<FlatRow> {
    Map(Enrich(q.computed), Select(QualifiesOf(c, q), JoinedRows(c, k, q, |q.joins|)))
  }

  /** These are the wanted rows; in the order asked for, ties as they were joined, if the values sorted
      by are ordered; and as they were joined if no order is asked for. */
  ghost predicate IsResult(c: Comparer, k: Keying, q: JoinQuery, rows: seq<FlatRow>) {
    && multiset(rows) == multiset(WantedRows(c, k, q))
    && (q.order == [] ==> rows == WantedRows(c, k, q))
    && (OrderedBy(c, q.order, OrderCells(rows)) ==>
          && AllInOrder(c, q.order, rows)
          && forall x | x in rows :: Select(Ties(c, q.order, x), rows) == Select(Ties(c, q.order, x), WantedRows(c, k, q)))
  }

  lemma PlainRowsUnsorted(c: Comparer, k: Keying, q: JoinQuery)
    ensures PlainRows(c, k, q) == SortRows(c, q.order, WantedRows(c, k, q))
  {
    var post, tree, joined := PassesAll(c, q.PostJoinFilters(), q.filtersOp), PassesTree(c, q.tree), JoinedRows(c, k, q, |q.joins|);
    forall row ensures Both(tree, post)(row) == QualifiesOf(c, q)(row) {
      QualifiesMeans(c, q, row);
    }
    assert PlainRows(c, k, q) == SortRows(c, q.order, Map(Enrich(q.computed), Select(tree, Select(post, joined))));
    hide *;
    SelectSelect(tree, post, joined);
    SelectAgree(Both(tree, post), QualifiesOf(c, q), joined);
    WantedIs(c, k, q);
  }

  lemma WantedIs(c: Comparer, k: Keying, q: JoinQuery)
    ensures WantedRows(c, k, q) == Map(Enrich(q.computed), Select(QualifiesOf(c, q), JoinedRows(c, k, q, |q.joins|)))
  {
  }

  lemma PlainRowsMean(c: Comparer, k: Keying, q: JoinQuery)
    ensures IsResult(c, k, q, PlainRows(c, k, q))
  {
    var wanted, rows := WantedRows(c, k, q), PlainRows(c, k, q);
    PlainRowsUnsorted(c, k, q);
    hide PlainRows, WantedRows, AllInOrder, Ties, OrderedBy, OrderCells, StableSort, Select;
    if q.order == [] {
      NoOrder(c, rows);
    } else {
      SortPermutes(RowLe(c, q.order), wanted);
      if OrderedBy(c, q.order, OrderCells(rows)) {
        SameCellsOrdered(c, q.order, rows, wanted);
        SortedInOrder(c, q.order, wanted);
        forall x | x in rows ensures Select(Ties(c, q.order, x), rows) == Select(Ties(c, q.order, x), wanted) {
          TiesKeepOrder(c, q.order, wanted, x);
        }
      }
    }
  }

  lemma NoOrder(c: Comparer, rows: seq<FlatRow>)
    ensures AllInOrder(c, [], rows)
  {
  }

  lemma SameCellsOrdered(c: Comparer, order: seq<OrderBy>, rows: seq<FlatRow>, others: seq<FlatRow>)
    requires (forall r :: r in rows <==> r in others) && OrderedBy(c, order, OrderCells(rows))
    ensures OrderedBy(c, order, OrderCells(others))
  {
    hide OrderedOn;
    forall column ensures OrderCells(rows)(column) == OrderCells(others)(column) {
    }
  }

  // ---------- when the window may move ----------

  predicate CanApplyEarlyWindow(q: JoinQuery, n: nat)
    requires n <= |q.joins|
  {
    && q.order != [] && q.tree.None? && !q.aggregating
    && (forall f | f in q.PostJoinFilters() :: q.IsJoined(f.field.alias, n))
    && (forall o | o in q.order :: q.IsJoined(o.field.alias, n))
    && (forall i | n <= i < |q.joins| :: q.joins[i].join.kind == Left)
  }

  function SaturatingAdd(a: nat, b: nat): nat {
    if a + b < USIZE_LIMIT then a + b else USIZE_LIMIT - 1
  }

  /** The first `window` rows; a window of nothing does not truncate. */
  function Window(rows: seq<FlatRow>, window: nat): seq<FlatRow> {
    if window > 0 then Take(rows, window) else rows
  }

  // ---------- what joining and computing leave alone ----------

  ghost predicate AliasColumn(alias: Text, column: Text) {
    exists f :: column == Qualify(alias, f)
  }

  lemma FlattenedColumns(input: JoinInput, r: TableRow, column: Text)
    requires !AliasColumn(input.join.alias, column)
    ensures column !in Flatten(input)(r)
  {
    FlatColumns(input.join.alias, input.fields, r);
  }

  /** Matched rows hold only columns of their own table. */
  lemma MatchColumns(c: Comparer, k: Keying, input: JoinInput, row: FlatRow, m: FlatRow, column: Text)
    requires m in NestedMatches(c, k, input, row) && !AliasColumn(input.join.alias, column)
    ensures column !in m
  {
    NestedReads(c, k, input, row);
    var parts := KeyParts(k, row, input.join.ExistingSide());
    assert parts.Some?;
    hide NestedMatches, Flatten, AliasColumn, Candidates, HasTableKey, KeyParts;
    MapMembers(Flatten(input), Select(HasTableKey(k, input, parts.value), Candidates(c, input)), m);
    var r :| Flatten(input)(r) == m;
    FlattenedColumns(input, r, column);
  }

  lemma JoinKeepsColumn(c: Comparer, k: Keying, input: JoinInput, row: FlatRow, out: FlatRow, column: Text)
    requires out in NestedJoin(c, k, input)(row) && !AliasColumn(input.join.alias, column)
    ensures SameColumn(column, row, out)
  {
    hide NestedMatches;
    var matches := NestedMatches(c, k, input, row);
    if !input.join.Aggregates() && |matches| > 0 {
      var merge := (m: FlatRow) => row + m;
      MapMembers(merge, matches, out);
      var m :| m in matches && merge(m) == out;
      MatchColumns(c, k, input, row, m, column);
    }
  }

  lemma LeftJoinNeverEmpty(c: Comparer, k: Keying, input: JoinInput)
    requires input.join.kind == Left
    ensures NeverEmpty(NestedJoin(c, k, input))
  {
    hide NestedMatches;
    forall row ensures |NestedJoin(c, k, input)(row)| > 0 {
      assert NestedJoin(c, k, input)(row) == JoinRow(k, input.join, row, NestedMatches(c, k, input, row));
    }
  }

  lemma {:induction false} ComputedCellsColumns(computed: seq<ComputedColumn>, row: FlatRow, column: Text)
    requires !AliasColumn(COMPUTED, column)
    ensures column !in ComputedCells(computed, row)
  {
    if |computed| != 0 {
      ComputedCellsColumns(computed[..|computed| - 1], row, column);
    }
  }

  /** The column belongs to none of the joins `from` to `to`. */
  ghost predicate Untouched(q: JoinQuery, lo: nat, hi: nat, column: Text)
    requires lo <= hi <= |q.joins|
  {
    forall i | lo <= i < hi :: !AliasColumn(q.joins[i].join.alias, column)
  }

  lemma UntouchedLast(q: JoinQuery, lo: nat, hi: nat, column: Text)
    requires lo < hi <= |q.joins| && Untouched(q, lo, hi, column)
    ensures Untouched(q, lo, hi - 1, column) && !AliasColumn(q.joins[hi - 1].join.alias, column)
  {
    hide AliasColumn;
  }

  /** Where a row of the last join comes from. */
  lemma ExpandedFrom(c: Comparer, k: Keying, q: JoinQuery, lo: nat, hi: nat, row: FlatRow, out: FlatRow) returns (mid: FlatRow)
    requires lo < hi <= |q.joins| && out in Expand(c, k, q, lo, hi)(row)
    ensures mid in Expand(c, k, q, lo, hi - 1)(row) && out in NestedJoin(c, k, q.joins[hi - 1])(mid)
  {
    var last := NestedJoin(c, k, q.joins[hi - 1]);
    assert Expand(c, k, q, lo, hi)(row) == FlatMap(last, Expand(c, k, q, lo, hi - 1)(row));
    hide Expand, NestedJoin;
    FlatMapMembers(last, Expand(c, k, q, lo, hi - 1)(row), out);
    mid :| mid in Expand(c, k, q, lo, hi - 1)(row) && out in last(mid);
  }

  lemma {:induction false} ExpandKeepsColumn(c: Comparer, k: Keying, q: JoinQuery, lo: nat, hi: nat, row: FlatRow, out: FlatRow, column: Text)
    requires lo <= hi <= |q.joins| && out in Expand(c, k, q, lo, hi)(row) && Untouched(q, lo, hi, column)
    ensures SameColumn(column, row, out)
    decreases hi
  {
    hide NestedJoin, AliasColumn, Untouched;
    if lo == hi {
      assert out == row;
    } else {
      hide Expand, SameColumn;
      var mid := ExpandedFrom(c, k, q, lo, hi, row, out);
      UntouchedLast(q, lo, hi, column);
      ExpandKeepsColumn(c, k, q, lo, hi - 1, row, mid, column);
      JoinKeepsColumn(c, k, q.joins[hi - 1], mid, out, column);
      SameColumnTransitive(column, row, mid, out);
    }
  }

  lemma SameColumnTransitive(column: Text, x: FlatRow, y: FlatRow, z: FlatRow)
    requires SameColumn(column, x, y) && SameColumn(column, y, z)
    ensures SameColumn(column, x, z)
  {
  }

  lemma ExpandNothing(c: Comparer, k: Keying, q: JoinQuery, lo: nat)
    requires lo <= |q.joins|
    ensures NeverEmpty(Expand(c, k, q, lo, lo))
  {
  }

  lemma ExpandLast(c: Comparer, k: Keying, q: JoinQuery, lo: nat, hi: nat)
    requires lo < hi <= |q.joins|
    ensures Expand(c, k, q, lo, hi) == Then(Expand(c, k, q, lo, hi - 1), NestedJoin(c, k, q.joins[hi - 1]))
  {
  }

  lemma {:induction false} ExpandNeverEmpty(c: Comparer, k: Keying, q: JoinQuery, lo: nat, hi: nat)
    requires lo <= hi <= |q.joins| && forall i | lo <= i < hi :: q.joins[i].join.kind == Left
    ensures NeverEmpty(Expand(c, k, q, lo, hi))
    decreases hi
  {
    hide Expand, NestedJoin, NeverEmpty, Then, FlatMap, One;
    if lo == hi {
      ExpandNothing(c, k, q, lo);
    } else {
      ExpandNeverEmpty(c, k, q, lo, hi - 1);
      ExpandLast(c, k, q, lo, hi);
      LeftJoinNeverEmpty(c, k, q.joins[hi - 1]);
      ThenNeverEmpty(Expand(c, k, q, lo, hi - 1), NestedJoin(c, k, q.joins[hi - 1]));
    }
  }

  /** Joining, then computing. */
  function Full(c: Comparer, k: Keying, q: JoinQuery, lo: nat): FlatRow -> seq<FlatRow>
    requires lo <= |q.joins|
  {
    Then(Expand(c, k, q, lo, |q.joins|), Single(Enrich(q.computed)))
  }

  lemma FullKeepsColumn(c: Comparer, k: Keying, q: JoinQuery, lo: nat, row: FlatRow, out: FlatRow, column: Text)
    requires lo <= |q.joins| && out in Full(c, k, q, lo)(row)
    requires Untouched(q, lo, |q.joins|, column) && !AliasColumn(COMPUTED, column)
    ensures SameColumn(column, row, out)
  {
    hide Expand, AliasColumn, Untouched, SameColumn;
    var expand, enrich := Expand(c, k, q, lo, |q.joins|), Enrich(q.computed);
    FlatMapSingle(enrich, expand(row));
    MapMembers(enrich, expand(row), out);
    var mid :| mid in expand(row) && enrich(mid) == out;
    ExpandKeepsColumn(c, k, q, lo, |q.joins|, row, mid, column);
    EnrichKeepsColumn(q.computed, mid, column);
    SameColumnTransitive(column, row, mid, out);
  }

  lemma EnrichKeepsColumn(computed: seq<ComputedColumn>, row: FlatRow, column: Text)
    requires !AliasColumn(COMPUTED, column)
    ensures SameColumn(column, row, Enrich(computed)(row))
  {
    ComputedCellsColumns(computed, row, column);
  }

  lemma FullNeverEmpty(c: Comparer, k: Keying, q: JoinQuery, lo: nat)
    requires lo <= |q.joins| && forall i | lo <= i < |q.joins| :: q.joins[i].join.kind == Left
    ensures NeverEmpty(Full(c, k, q, lo))
    ensures forall row :: |Full(c, k, q, lo)(row)| == |Expand(c, k, q, lo, |q.joins|)(row)|
  {
    hide Expand;
    var expand := Expand(c, k, q, lo, |q.joins|);
    ExpandNeverEmpty(c, k, q, lo, |q.joins|);
    forall row ensures |Full(c, k, q, lo)(row)| == |expand(row)| && |expand(row)| > 0 {
      FlatMapSingle(Enrich(q.computed), expand(row));
    }
  }

  /** A column of a table joined before `n` belongs to no later join and is not computed. */
  lemma JoinedColumnUntouched(q: JoinQuery, n: nat, field: QualifiedField)
    requires q.Resolved() && n <= |q.joins| && field.Valid() && q.IsJoined(field.alias, n)
    ensures Untouched(q, n, |q.joins|, field.qualified) && !AliasColumn(COMPUTED, field.qualified)
  {
    assert DOT !in field.alias && field.alias != COMPUTED;
    assert DOT !in COMPUTED;
    forall f ensures field.qualified != Qualify(COMPUTED, f) {
      QualifyInjective(field.alias, field.field, COMPUTED, f);
    }
    forall i, f | n <= i < |q.joins| ensures field.qualified != Qualify(q.joins[i].join.alias, f) {
      QualifyInjective(field.alias, field.field, q.joins[i].join.alias, f);
    }
  }

  // ---------- the window commutes ----------

  /** The values the window sorts by. */
  ghost function WindowCells(c: Comparer, k: Keying, q: JoinQuery, n: nat): Columns
    requires n <= |q.joins|
  {
    OrderCells(Matching(c, q, JoinedRows(c, k, q, n)))
  }

  lemma FullKeepsOrderColumns(c: Comparer, k: Keying, q: JoinQuery, n: nat, x: FlatRow, x': FlatRow)
    requires q.Resolved() && n <= |q.joins| && CanApplyEarlyWindow(q, n) && x' in Full(c, k, q, n)(x)
    ensures SameOrderColumns(q.order, x, x')
  {
    hide Full, SameColumn;
    forall o | o in q.order ensures SameColumn(o.field.qualified, x, x') {
      JoinedColumnUntouched(q, n, o.field);
      FullKeepsColumn(c, k, q, n, x, x', o.field.qualified);
    }
  }

  lemma OrderUnchanged(c: Comparer, k: Keying, q: JoinQuery, n: nat, values: Columns)
    requires q.Resolved() && n <= |q.joins| && CanApplyEarlyWindow(q, n)
    ensures OrderKept(RowLeOn(c, q.order, values), Full(c, k, q, n))
  {
    var le, e := RowLeOn(c, q.order, values), Full(c, k, q, n);
    hide Full, SameOrderColumns, CompareRows, Within, CanApplyEarlyWindow;
    forall x, y, x', y' | x' in e(x) && y' in e(y) ensures le(x', y') == le(x, y) {
      FullKeepsOrderColumns(c, k, q, n, x, x');
      FullKeepsOrderColumns(c, k, q, n, y, y');
      CompareReadsOrderColumns(c, q.order, x, y, x', y');
      WithinReadsOrderColumns(q.order, values, x, x');
      WithinReadsOrderColumns(q.order, values, y, y');
    }
  }

  /** Joining and computing bring no row outside the values. */
  lemma ExpandedWithin(c: Comparer, k: Keying, q: JoinQuery, n: nat, values: Columns, rows: seq<FlatRow>)
    requires q.Resolved() && n <= |q.joins| && CanApplyEarlyWindow(q, n)
    requires forall r | r in rows :: Within(q.order, values, r)
    ensures forall r | r in FlatMap(Full(c, k, q, n), rows) :: Within(q.order, values, r)
  {
    hide Full, SameOrderColumns, CanApplyEarlyWindow, Within;
    forall out | out in FlatMap(Full(c, k, q, n), rows) ensures Within(q.order, values, out) {
      FlatMapMembers(Full(c, k, q, n), rows, out);
      var r :| r in rows && out in Full(c, k, q, n)(r);
      FullKeepsOrderColumns(c, k, q, n, r, out);
      WithinReadsOrderColumns(q.order, values, r, out);
    }
  }

  lemma FilterUnchanged(c: Comparer, k: Keying, q: JoinQuery, n: nat)
    requires q.Resolved() && n <= |q.joins| && CanApplyEarlyWindow(q, n)
    ensures SelectKept(PassesAll(c, q.PostJoinFilters(), q.filtersOp), Expand(c, k, q, n, |q.joins|))
  {
    var filters, e := q.PostJoinFilters(), Expand(c, k, q, n, |q.joins|);
    SelectMembers((f: ResolvedFilter) => !q.IsLeftAlias(f.field.alias), q.filters);
    forall x, x' | x' in e(x) ensures PassesAll(c, filters, q.filtersOp)(x') == PassesAll(c, filters, q.filtersOp)(x) {
      forall f | f in filters ensures SameColumn(f.field.qualified, x, x') {
        JoinedColumnUntouched(q, n, f.field);
        ExpandKeepsColumn(c, k, q, n, |q.joins|, x, x', f.field.qualified);
      }
      FiltersReadFilterColumns(c, filters, q.filtersOp, x, x');
    }
  }

  lemma {:induction false} JoinedRowsExpand(c: Comparer, k: Keying, q: JoinQuery, lo: nat, hi: nat)
    requires lo <= hi <= |q.joins|
    ensures JoinedRows(c, k, q, hi) == FlatMap(Expand(c, k, q, lo, hi), JoinedRows(c, k, q, lo))
    decreases hi
  {
    hide NestedJoin;
    if lo == hi {
      FlatMapOneEach(JoinedRows(c, k, q, lo));
    } else {
      JoinedRowsExpand(c, k, q, lo, hi - 1);
      FlatMapThen(Expand(c, k, q, lo, hi - 1), NestedJoin(c, k, q.joins[hi - 1]), JoinedRows(c, k, q, lo));
    }
  }

  /** Rows matched and sorted after `n` joins. */
  function SortedAt(c: Comparer, k: Keying, q: JoinQuery, n: nat): seq<FlatRow>
    requires n <= |q.joins|
  {
    SortRows(c, q.order, Matching(c, q, JoinedRows(c, k, q, n)))
  }

  lemma EnrichExpanded(c: Comparer, k: Keying, q: JoinQuery, n: nat, rows: seq<FlatRow>)
    requires n <= |q.joins|
    ensures Map(Enrich(q.computed), FlatMap(Expand(c, k, q, n, |q.joins|), rows)) == FlatMap(Full(c, k, q, n), rows)
  {
    hide Expand, Enrich;
    FlatMapSingle(Enrich(q.computed), FlatMap(Expand(c, k, q, n, |q.joins|), rows));
    FlatMapThen(Expand(c, k, q, n, |q.joins|), Single(Enrich(q.computed)), rows);
  }

  /** The plain plan may sort at `n` and join and compute afterwards. */
  lemma PlainRowsFromWindow(c: Comparer, k: Keying, q: JoinQuery, n: nat)
    requires q.Resolved() && n <= |q.joins| && CanApplyEarlyWindow(q, n) && OrderedBy(c, q.order, WindowCells(c, k, q, n))
    ensures PlainRows(c, k, q) == FlatMap(Full(c, k, q, n), SortedAt(c, k, q, n))
  {
    var p := PassesAll(c, q.PostJoinFilters(), q.filtersOp);
    var expand, joined := Expand(c, k, q, n, |q.joins|), JoinedRows(c, k, q, n);
    var kept, values := Select(p, joined), WindowCells(c, k, q, n);
    var le, full := RowLeOn(c, q.order, values), Full(c, k, q, n);
    assert PlainRows(c, k, q)
        == StableSort(RowLe(c, q.order), Map(Enrich(q.computed), Select(PassesTree(c, q.tree), Select(p, JoinedRows(c, k, q, |q.joins|)))));
    assert SortedAt(c, k, q, n) == StableSort(RowLe(c, q.order), kept);
    OrderUnchanged(c, k, q, n, values);
    FilterUnchanged(c, k, q, n);
    FullNeverEmpty(c, k, q, n);
    RowOrderIsPreorder(c, q.order, values);
    OrderCellsCover(q.order, kept);
    ExpandedWithin(c, k, q, n, values, kept);
    SelectAll(PassesTree(c, q.tree), FlatMap(expand, kept), true);
    hide *;
    JoinedRowsExpand(c, k, q, n, |q.joins|);
    SelectExpanded(p, expand, joined);
    EnrichExpanded(c, k, q, n, kept);
    SortWithin(c, q.order, values, kept);
    SortWithin(c, q.order, values, FlatMap(full, kept));
    SortExpanded(le, full, kept);
  }

  /** Sorting again what was sorted, truncated and expanded changes nothing. */
  lemma ResortedWindow(c: Comparer, k: Keying, q: JoinQuery, n: nat, values: Columns, rows: seq<FlatRow>)
    requires q.Resolved() && n <= |q.joins| && CanApplyEarlyWindow(q, n) && OrderedBy(c, q.order, values)
    requires SortedBy(RowLeOn(c, q.order, values), rows) && forall r | r in rows :: Within(q.order, values, r)
    ensures SortRows(c, q.order, Map(Enrich(q.computed), Select(PassesTree(c, q.tree), FlatMap(Expand(c, k, q, n, |q.joins|), rows))))
         == FlatMap(Full(c, k, q, n), rows)
  {
    var expand, full, le := Expand(c, k, q, n, |q.joins|), Full(c, k, q, n), RowLeOn(c, q.order, values);
    assert forall xs :: SortRows(c, q.order, xs) == StableSort(RowLe(c, q.order), xs);
    OrderUnchanged(c, k, q, n, values);
    FullNeverEmpty(c, k, q, n);
    RowOrderIsPreorder(c, q.order, values);
    SelectAll(PassesTree(c, q.tree), FlatMap(expand, rows), true);
    ExpandedWithin(c, k, q, n, values, rows);
    hide *;
    EnrichExpanded(c, k, q, n, rows);
    SortWithin(c, q.order, values, FlatMap(full, rows));
    SortExpanded(le, full, rows);
    SortIdempotent(le, rows);
  }

  lemma WindowSubset(c: Comparer, q: JoinQuery, rows: seq<FlatRow>, window: nat)
    ensures multiset(Window(SortRows(c, q.order, Matching(c, q, rows)), window)) <= multiset(rows)
  {
    hide PassesAll, RowLe, StableSort, Select, Take;
    var p := PassesAll(c, q.PostJoinFilters(), q.filtersOp);
    SelectSubset(p, rows);
    SortPermutes(RowLe(c, q.order), Select(p, rows));
    TakeSubset(SortRows(c, q.order, Select(p, rows)), window);
  }

  lemma FewerKeys(k: Keying, rows: seq<FlatRow>, all: seq<FlatRow>, columns: seq<Text>, parts: seq<Text>)
    requires (forall row | row in rows :: row in all) && HasKey(k, rows, columns, parts)
    ensures HasKey(k, all, columns, parts)
  {
  }

  /** A step that is reliable for some rows is reliable for fewer. */
  lemma ReliableForFewer(c: Comparer, k: Keying, input: JoinInput, rows: seq<FlatRow>, all: seq<FlatRow>)
    requires Reliable(c, k, input, all) && forall row | row in rows :: row in all
    ensures Reliable(c, k, input, rows)
  {
    hide HasKey, LooksUp, Candidates, TableKey, RowPrint, Findable;
    forall parts | HasKey(k, rows, input.join.ExistingSide(), parts)
      ensures HasKey(k, all, input.join.ExistingSide(), parts)
    {
      FewerKeys(k, rows, all, input.join.ExistingSide(), parts);
    }
  }

  // ---------- the executor ----------

  /** Every step is reliable on the rows the plain plan brings to it. */
  ghost predicate PlanReliable(c: Comparer, k: Keying, q: JoinQuery) {
    forall n | 0 <= n < |q.joins| :: Reliable(c, k, q.joins[n], JoinedRows(c, k, q, n))
  }

  /** The first point, from `n` joins on, at which the window moves. */
  function EarlyFrom(q: JoinQuery, n: nat): Option<nat>
    ensures EarlyFrom(q, n).Some? ==> n <= EarlyFrom(q, n).value <= |q.joins| && CanApplyEarlyWindow(q, EarlyFrom(q, n).value)
    decreases |q.joins| - n
  {
    if n > |q.joins| then None
    else if CanApplyEarlyWindow(q, n) then Some(n)
    else EarlyFrom(q, n + 1)
  }

  function EarlyAt(q: JoinQuery): Option<nat> {
    EarlyFrom(q, 1)
  }

  /** The alias is the base table's or that of one of the first `n` joins. */
  ghost predicate AvailableAt(q: JoinQuery, n: nat, alias: Text)
    requires n <= |q.joins|
  {
    alias == q.baseAlias || exists input :: input in q.joins[..n] && input.join.alias == alias
  }

  /** After `n` joins the window may move: there is an order, and no filter tree and no aggregation; all
      it filters and sorts by is there, and only LEFT joins remain. */
  ghost predicate MayMove(q: JoinQuery, n: nat)
    requires n <= |q.joins|
  {
    && |q.order| > 0 && q.tree.None? && !q.aggregating
    && (forall f | f in q.filters && !LeftJoined(q, f.field.alias) :: AvailableAt(q, n, f.field.alias))
    && (forall o | o in q.order :: AvailableAt(q, n, o.field.alias))
    && (forall input | input in q.joins[n..] :: input.join.kind == Left)
  }

  lemma MayMoveIs(q: JoinQuery, n: nat)
    requires n <= |q.joins|
    ensures CanApplyEarlyWindow(q, n) <==> MayMove(q, n)
  {
    forall alias ensures q.IsLeftAlias(alias) <==> LeftJoined(q, alias) {
      if LeftJoined(q, alias) {
        var input :| input in q.joins && input.join.alias == alias && input.join.kind == Left;
        var i :| 0 <= i < |q.joins| && q.joins[i] == input;
      }
    }
    SelectMembers((f: ResolvedFilter) => !q.IsLeftAlias(f.field.alias), q.filters);
    forall alias ensures q.IsJoined(alias, n) <==> AvailableAt(q, n, alias) {
      if i :| 0 <= i < n && q.joins[i].join.alias == alias {
        assert q.joins[..n][i] == q.joins[i];
      }
      if input :| input in q.joins[..n] && input.join.alias == alias {
        var i :| 0 <= i < n && q.joins[..n][i] == input;
        assert q.joins[i] == input;
      }
    }
    assert (forall i | n <= i < |q.joins| :: q.joins[i].join.kind == Left) <==> forall input | input in q.joins[n..] :: input.join.kind == Left by {
      forall i | n <= i < |q.joins| ensures q.joins[i] in q.joins[n..] {
        assert q.joins[n..][i - n] == q.joins[i];
      }
      forall input | input in q.joins[n..] ensures exists i :: n <= i < |q.joins| && q.joins[i] == input {
        var i :| 0 <= i < |q.joins| - n && q.joins[n..][i] == input;
        assert q.joins[n + i] == input;
      }
    }
    hide JoinQuery.IsJoined, JoinQuery.IsLeftAlias, LeftJoined, AvailableAt, Select;
  }

  lemma {:induction false} EarlyFromMeans(q: JoinQuery, n: nat)
    ensures match EarlyFrom(q, n)
      case None => forall m: nat | n <= m <= |q.joins| :: !MayMove(q, m)
      case Some(at) => n <= at <= |q.joins| && MayMove(q, at) && forall m: nat | n <= m < at :: !MayMove(q, m)
    decreases |q.joins| - n
  {
    if n <= |q.joins| {
      MayMoveIs(q, n);
      if !CanApplyEarlyWindow(q, n) {
        EarlyFromMeans(q, n + 1);
      }
      hide CanApplyEarlyWindow, MayMove;
    }
  }

  /** The window moves after the first join, at the earliest, that lets it. */
  lemma EarlyAtMeans(q: JoinQuery)
    ensures match EarlyAt(q)
      case None => forall m: nat | 1 <= m <= |q.joins| :: !MayMove(q, m)
      case Some(at) => 1 <= at <= |q.joins| && MayMove(q, at) && forall m: nat | 1 <= m < at :: !MayMove(q, m)
  {
    EarlyFromMeans(q, 1);
  }

  function WindowAt(c: Comparer, k: Keying, q: JoinQuery, n: nat): seq<FlatRow>
    requires n <= |q.joins|
  {
    Window(SortedAt(c, k, q, n), SaturatingAdd(q.offset, q.limit))
  }

  /** The page is the plain plan's; the total counts the rows at the window. */
  ghost predicate SamePage(c: Comparer, k: Keying, q: JoinQuery, page: QueryPage) {
    && page.rows == PlainPage(c, k, q).rows
    && page.totalFound == if EarlyAt(q).Some? then |SortedAt(c, k, q, EarlyAt(q).value)| else |PlainRows(c, k, q)|
  }

  /** After `n` joins: the rows, and whether the window has moved. */
  ghost predicate Progress(c: Comparer, k: Keying, q: JoinQuery, n: nat, rows: seq<FlatRow>, early: bool, total: nat)
    requires n <= |q.joins|
  {
    && multiset(rows) <= multiset(JoinedRows(c, k, q, n))
    && (early <==> EarlyAt(q).Some? && EarlyAt(q).value <= n)
    && (!early ==> rows == JoinedRows(c, k, q, n) && total == 0 && EarlyAt(q) == EarlyFrom(q, n + 1))
    && (early ==> var j := EarlyAt(q).value;
          rows == FlatMap(Expand(c, k, q, j, n), WindowAt(c, k, q, j)) && total == |SortedAt(c, k, q, j)|)
  }

  /** A join step keeps the progress, except that the window may now move. */
  lemma ProgressJoins(c: Comparer, k: Keying, q: JoinQuery, n: nat, rows: seq<FlatRow>, early: bool, total: nat)
    requires n < |q.joins| && Progress(c, k, q, n, rows, early, total)
    ensures var joined := FlatMap(NestedJoin(c, k, q.joins[n]), rows);
      && multiset(joined) <= multiset(JoinedRows(c, k, q, n + 1))
      && |joined| <= |JoinedRows(c, k, q, n + 1)|
      && (early ==> Progress(c, k, q, n + 1, joined, early, total))
      && (!early ==> joined == JoinedRows(c, k, q, n + 1) && EarlyAt(q) == EarlyFrom(q, n + 1))
  {
    var step, joined := NestedJoin(c, k, q.joins[n]), FlatMap(NestedJoin(c, k, q.joins[n]), rows);
    hide NestedJoin, WindowAt, SortedAt, CanApplyEarlyWindow;
    FlatMapSubset(step, rows, JoinedRows(c, k, q, n));
    SubsetSmaller(joined, JoinedRows(c, k, q, n + 1));
    if early {
      var j := EarlyAt(q).value;
      FlatMapThen(Expand(c, k, q, j, n), step, WindowAt(c, k, q, j));
    }
  }

  /** The window moves right after the first join that allows it. */
  lemma ProgressMoves(c: Comparer, k: Keying, q: JoinQuery, n: nat, rows: seq<FlatRow>)
    requires 0 < n <= |q.joins| && rows == JoinedRows(c, k, q, n) && EarlyAt(q) == EarlyFrom(q, n)
    ensures var sorted := SortRows(c, q.order, Matching(c, q, rows));
      if CanApplyEarlyWindow(q, n)
      then Progress(c, k, q, n, Window(sorted, SaturatingAdd(q.offset, q.limit)), true, |sorted|)
      else Progress(c, k, q, n, rows, false, 0)
  {
    hide CanApplyEarlyWindow, JoinedRows;
    if CanApplyEarlyWindow(q, n) {
      WindowSubset(c, q, rows, SaturatingAdd(q.offset, q.limit));
      FlatMapOneEach(WindowAt(c, k, q, n));
    }
  }

  /** What the executor does after the last join. */
  function Finish(c: Comparer, q: JoinQuery, rows: seq<FlatRow>, early: bool): seq<FlatRow> {
    SortRows(c, q.order,
      Map(Enrich(q.computed), Select(PassesTree(c, q.tree), if early then rows else Matching(c, q, rows))))
  }

  lemma PlainFinish(c: Comparer, k: Keying, q: JoinQuery)
    ensures Finish(c, q, JoinedRows(c, k, q, |q.joins|), false) == PlainRows(c, k, q)
  {
  }

  lemma WindowIsSorted(c: Comparer, k: Keying, q: JoinQuery, n: nat)
    requires n <= |q.joins| && q.order != [] && OrderedBy(c, q.order, WindowCells(c, k, q, n))
    ensures SortedBy(RowLeOn(c, q.order, WindowCells(c, k, q, n)), WindowAt(c, k, q, n))
    ensures forall r | r in WindowAt(c, k, q, n) :: Within(q.order, WindowCells(c, k, q, n), r)
  {
    hide *;
    var kept, values := Matching(c, q, JoinedRows(c, k, q, n)), WindowCells(c, k, q, n);
    var le, sorted := RowLeOn(c, q.order, values), SortedAt(c, k, q, n);
    WindowUnfolds(c, k, q, n);
    OrderCellsCover(q.order, kept);
    RowOrderIsPreorder(c, q.order, values);
    SortWithin(c, q.order, values, kept);
    SortSorts(le, kept);
    SortPermutes(le, kept);
    WindowSorted(le, sorted, SaturatingAdd(q.offset, q.limit));
  }

  lemma WindowUnfolds(c: Comparer, k: Keying, q: JoinQuery, n: nat)
    requires n <= |q.joins| && q.order != []
    ensures SortedAt(c, k, q, n) == StableSort(RowLe(c, q.order), Matching(c, q, JoinedRows(c, k, q, n)))
    ensures WindowCells(c, k, q, n) == OrderCells(Matching(c, q, JoinedRows(c, k, q, n)))
    ensures WindowAt(c, k, q, n) == Window(SortedAt(c, k, q, n), SaturatingAdd(q.offset, q.limit))
  {
    hide RowLe, StableSort, Matching, JoinedRows, OrderCells, Window;
  }

  lemma WindowSorted(le: (FlatRow, FlatRow) -> bool, rows: seq<FlatRow>, window: nat)
    requires SortedBy(le, rows)
    ensures SortedBy(le, Window(rows, window)) && forall r | r in Window(rows, window) :: r in rows
  {
    TakeSorted(le, rows, window);
  }

  lemma SortedFits(c: Comparer, k: Keying, q: JoinQuery, n: nat)
    requires 0 < n <= |q.joins| && |JoinedRows(c, k, q, n)| <= JOIN_RESULT_LIMIT
    ensures |SortedAt(c, k, q, n)| <= JOIN_RESULT_LIMIT
  {
    hide JoinedRows;
    var p := PassesAll(c, q.PostJoinFilters(), q.filtersOp);
    SelectMembers(p, JoinedRows(c, k, q, n));
    SortPermutes(RowLe(c, q.order), Select(p, JoinedRows(c, k, q, n)));
  }

  /** The early window cannot be seen in the page: sorting and truncating before the remaining LEFT
      joins gives the same page as joining everything first. */
  lemma EarlyWindowSamePage(c: Comparer, k: Keying, q: JoinQuery, n: nat)
    requires q.Resolved() && 0 < n <= |q.joins| && CanApplyEarlyWindow(q, n) && OrderedBy(c, q.order, WindowCells(c, k, q, n))
    requires |JoinedRows(c, k, q, n)| <= JOIN_RESULT_LIMIT
    ensures var early := Finish(c, q, FlatMap(Expand(c, k, q, n, |q.joins|), WindowAt(c, k, q, n)), true);
      && Page(early, q.offset, q.limit) == Page(PlainRows(c, k, q), q.offset, q.limit)
      && (SortedAt(c, k, q, n) == [] ==> early == [])
  {
    var window := SaturatingAdd(q.offset, q.limit);
    assert q.order != [] && forall i | n <= i < |q.joins| :: q.joins[i].join.kind == Left;
    assert q.limit < USIZE_LIMIT && q.offset < USIZE_LIMIT;
    hide Full, SortedAt, Expand, PlainRows, NeverEmpty, Enrich, PassesTree, RowLeOn, SortRows, Page, CanApplyEarlyWindow, Select, Map,
         SortedBy, OrderedBy, Within, WindowCells, JoinedRows;
    FullNeverEmpty(c, k, q, n);
    WindowIsSorted(c, k, q, n);
    ResortedWindow(c, k, q, n, WindowCells(c, k, q, n), WindowAt(c, k, q, n));
    PlainRowsFromWindow(c, k, q, n);
    SortedFits(c, k, q, n);
    if q.limit == 0 {
      PageOfNothing(PlainRows(c, k, q), q.offset);
      PageOfNothing(FlatMap(Full(c, k, q, n), WindowAt(c, k, q, n)), q.offset);
    } else {
      PageExpanded(Full(c, k, q, n), SortedAt(c, k, q, n), q.offset, q.limit, window);
    }
  }

  /** The values by which the window sorts are ordered; without a window nothing is asked of them. */
  ghost predicate OrderedAtWindow(c: Comparer, k: Keying, q: JoinQuery) {
    EarlyAt(q).Some? ==> OrderedBy(c, q.order, WindowCells(c, k, q, EarlyAt(q).value))
  }

  /** Sorting by columns that hold numbers, or nothing as a LEFT join leaves it, asks nothing further. */
  lemma NumbersAtWindow(c: Comparer, k: Keying, q: JoinQuery, number: Text -> Option<real>, isDate: Text -> bool)
    requires ParsesBy(c, number, isDate) && number([]).None? && !isDate([])
    requires EarlyAt(q).Some? ==>
               forall o, v | o in q.order && v in WindowCells(c, k, q, EarlyAt(q).value)(o.field.qualified) :: v == [] || number(v).Some?
    ensures OrderedAtWindow(c, k, q)
  {
    hide OrderedOn, WindowCells, ParsesBy;
    if EarlyAt(q).Some? {
      var cells := WindowCells(c, k, q, EarlyAt(q).value);
      forall o | o in q.order ensures OrderedOn(c, cells(o.field.qualified)) {
        NumbersAndMissingOrdered(c, number, isDate, cells(o.field.qualified));
      }
    }
  }

  /** The conditions under which the executor is compared with the plain plan. */
  ghost predicate Comparable(c: Comparer, k: Keying, q: JoinQuery) {
    q.Resolved() && OrderedAtWindow(c, k, q) && PlanReliable(c, k, q)
  }

  /** Up to the window, none of the first `n` joins exceeds the limit. */
  ghost predicate FitsUpTo(c: Comparer, k: Keying, q: JoinQuery, n: nat)
    requires n <= |q.joins|
  {
    forall m | 0 < m <= n && (EarlyAt(q).Some? ==> m <= EarlyAt(q).value) :: |JoinedRows(c, k, q, m)| <= JOIN_RESULT_LIMIT
  }

  /** Success within the limit; and on success the plain plan's page, no join up to the window over the limit. */
  ghost predicate Delivers(c: Comparer, k: Keying, q: JoinQuery, result: Result<QueryPage, JoinError>) {
    && (FitsLimit(c, k, q) ==> result.Ok?)
    && (result.Ok? ==> SamePage(c, k, q, result.value) && FitsUpTo(c, k, q, |q.joins|))
  }

  lemma FinishLate(c: Comparer, k: Keying, q: JoinQuery, rows: seq<FlatRow>, total: nat)
    requires FitsUpTo(c, k, q, |q.joins|) && Progress(c, k, q, |q.joins|, rows, false, total)
    ensures Delivers(c, k, q, Ok(ResultPage(q, Finish(c, q, rows, false), total)))
  {
    PlainFinish(c, k, q);
    hide Finish, PlainRows, Page, SortedAt, Project, Map, JoinedRows, FitsUpTo, FitsLimit;
  }

  /** Once the window has moved: where it did, and what is there at the end. */
  lemma EarlyProgress(c: Comparer, k: Keying, q: JoinQuery, rows: seq<FlatRow>, total: nat)
    requires OrderedAtWindow(c, k, q) && FitsUpTo(c, k, q, |q.joins|) && Progress(c, k, q, |q.joins|, rows, true, total)
    ensures EarlyAt(q).Some?
    ensures var n := EarlyAt(q).value;
      && 0 < n <= |q.joins| && CanApplyEarlyWindow(q, n) && OrderedBy(c, q.order, WindowCells(c, k, q, n))
      && |JoinedRows(c, k, q, n)| <= JOIN_RESULT_LIMIT
      && rows == FlatMap(Expand(c, k, q, n, |q.joins|), WindowAt(c, k, q, n)) && total == |SortedAt(c, k, q, n)|
  {
    hide OrderedBy, WindowCells, JoinedRows, FlatMap, Expand, WindowAt, SortedAt, CanApplyEarlyWindow;
  }

  /** A page of rows whose total was counted at the window. */
  lemma EarlyDelivers(c: Comparer, k: Keying, q: JoinQuery, n: nat, rows: seq<FlatRow>, total: nat)
    requires EarlyAt(q) == Some(n) && n <= |q.joins| && FitsUpTo(c, k, q, |q.joins|) && total == |SortedAt(c, k, q, n)|
    requires Page(rows, q.offset, q.limit) == Page(PlainRows(c, k, q), q.offset, q.limit)
    requires SortedAt(c, k, q, n) == [] ==> rows == []
    ensures Delivers(c, k, q, Ok(ResultPage(q, rows, total)))
  {
    hide EarlyAt, PlainRows, Page, SortedAt, Project, Map, FitsUpTo, FitsLimit;
  }

  lemma FinishEarly(c: Comparer, k: Keying, q: JoinQuery, rows: seq<FlatRow>, total: nat)
    requires q.Resolved() && OrderedAtWindow(c, k, q) && FitsUpTo(c, k, q, |q.joins|) && Progress(c, k, q, |q.joins|, rows, true, total)
    ensures Delivers(c, k, q, Ok(ResultPage(q, Finish(c, q, rows, true), total)))
  {
    hide *;
    EarlyProgress(c, k, q, rows, total);
    var n := EarlyAt(q).value;
    EarlyWindowSamePage(c, k, q, n);
    EarlyDelivers(c, k, q, n, Finish(c, q, rows, true), total);
  }

  lemma FinishProgress(c: Comparer, k: Keying, q: JoinQuery, rows: seq<FlatRow>, early: bool, total: nat)
    requires Comparable(c, k, q) && FitsUpTo(c, k, q, |q.joins|)
    requires Progress(c, k, q, |q.joins|, rows, early, total)
    ensures Delivers(c, k, q, Ok(ResultPage(q, Finish(c, q, rows, early), total)))
  {
    hide Finish, ResultPage, Delivers, Progress, FitsUpTo, PlanReliable, OrderedAtWindow;
    if early {
      FinishEarly(c, k, q, rows, total);
    } else {
      FinishLate(c, k, q, rows, total);
    }
  }

  lemma ProgressStarts(c: Comparer, k: Keying, q: JoinQuery)
    ensures Progress(c, k, q, 0, q.baseRows, false, 0) && FitsUpTo(c, k, q, 0)
  {
  }

  /** The next step finds what the nested-loop join finds. */
  lemma NextStep(c: Comparer, k: Keying, q: JoinQuery, n: nat, rows: seq<FlatRow>, early: bool, total: nat)
    requires n < |q.joins| && Comparable(c, k, q) && Progress(c, k, q, n, rows, early, total)
    ensures Reliable(c, k, q.joins[n], rows)
  {
    ProgressJoins(c, k, q, n, rows, early, total);
    hide NestedJoin, JoinedRows, WindowAt, Expand, SortedAt;
    SubsetSmaller(rows, JoinedRows(c, k, q, n));
    assert Reliable(c, k, q.joins[n], JoinedRows(c, k, q, n));
    ReliableForFewer(c, k, q.joins[n], rows, JoinedRows(c, k, q, n));
  }

  /** After join `n`, before the window is considered. */
  ghost predicate Joined(c: Comparer, k: Keying, q: JoinQuery, n: nat, rows: seq<FlatRow>, early: bool, total: nat)
    requires 0 < n <= |q.joins|
  {
    && FitsUpTo(c, k, q, n)
    && if early then Progress(c, k, q, n, rows, early, total)
       else total == 0 && rows == JoinedRows(c, k, q, n) && EarlyAt(q) == EarlyFrom(q, n)
  }

  /** A step beyond the limit means that the plain plan is beyond it; a step within it leads on. */
  lemma NextJoined(c: Comparer, k: Keying, q: JoinQuery, n: nat, rows: seq<FlatRow>, early: bool, total: nat)
    requires n < |q.joins| && Progress(c, k, q, n, rows, early, total) && FitsUpTo(c, k, q, n)
    ensures var joined := FlatMap(NestedJoin(c, k, q.joins[n]), rows);
      if |joined| > JOIN_RESULT_LIMIT then !FitsLimit(c, k, q) else Joined(c, k, q, n + 1, joined, early, total)
  {
    assert !early ==> total == 0;
    assert early ==> EarlyAt(q).Some? && EarlyAt(q).value <= n;
    hide JoinedRows, NestedJoin, FlatMap, EarlyAt, EarlyFrom, Expand, WindowAt, SortedAt;
    ProgressJoins(c, k, q, n, rows, early, total);
  }

  /** What the executor knows after `n` joins. */
  ghost predicate Reached(c: Comparer, k: Keying, q: JoinQuery, n: nat, rows: seq<FlatRow>, early: bool, total: nat) {
    n <= |q.joins| && (Comparable(c, k, q) ==> Progress(c, k, q, n, rows, early, total) && FitsUpTo(c, k, q, n))
  }

  /** What it knows after a join, before the window is considered. */
  ghost predicate ReachedJoin(c: Comparer, k: Keying, q: JoinQuery, n: nat, joined: Result<seq<FlatRow>, JoinError>, early: bool, total: nat) {
    && 0 < n <= |q.joins|
    && (Comparable(c, k, q) ==> if joined.Ok? then Joined(c, k, q, n, joined.value, early, total) else !FitsLimit(c, k, q))
  }

  method JoinNext(c: Comparer, k: Keying, q: JoinQuery, n: nat, rows: seq<FlatRow>, early: bool, total: nat)
    returns (joined: Result<seq<FlatRow>, JoinError>)
    requires n < |q.joins| && Reached(c, k, q, n, rows, early, total)
    ensures ReachedJoin(c, k, q, n + 1, joined, early, total)
  {
    hide Comparable, Progress, Joined, FitsUpTo, FitsLimit, Reliable, NestedJoin, FlatMap;
    if Comparable(c, k, q) {
      NextStep(c, k, q, n, rows, early, total);
      NextJoined(c, k, q, n, rows, early, total);
    }
    joined := JoinStep(c, k, q.joins[n], rows);
  }

  lemma JoinedMoves(c: Comparer, k: Keying, q: JoinQuery, n: nat, rows: seq<FlatRow>, early: bool, total: nat)
    requires 0 < n <= |q.joins| && Joined(c, k, q, n, rows, early, total)
    ensures FitsUpTo(c, k, q, n)
    ensures var sorted := SortRows(c, q.order, Matching(c, q, rows));
      if early then Progress(c, k, q, n, rows, early, total)
      else if CanApplyEarlyWindow(q, n) then Progress(c, k, q, n, Window(sorted, SaturatingAdd(q.offset, q.limit)), true, |sorted|)
      else Progress(c, k, q, n, rows, early, total)
  {
    if !early {
      ProgressMoves(c, k, q, n, rows);
    }
  }

  /** Filters, sorts and truncates as soon as that cannot be seen. */
  method MoveWindow(c: Comparer, k: Keying, q: JoinQuery, n: nat, rows: seq<FlatRow>, early: bool, total: nat)
    returns (windowed: seq<FlatRow>, moved: bool, counted: nat)
    requires ReachedJoin(c, k, q, n, Ok(rows), early, total)
    ensures Reached(c, k, q, n, windowed, moved, counted)
  {
    hide Comparable, Joined, Progress, FitsUpTo, FitsLimit, CanApplyEarlyWindow, SortRows, Matching, Window, SaturatingAdd;
    if Comparable(c, k, q) {
      JoinedMoves(c, k, q, n, rows, early, total);
    }
    windowed, moved, counted := rows, early, total;
    if !early && CanApplyEarlyWindow(q, n) {
      moved := true;
      windowed := SortRows(c, q.order, Matching(c, q, windowed));
      counted := |windowed|;
      windowed := Window(windowed, SaturatingAdd(q.offset, q.limit));
    }
  }

  lemma StartReached(c: Comparer, k: Keying, q: JoinQuery)
    ensures Reached(c, k, q, 0, q.baseRows, false, 0)
  {
    ProgressStarts(c, k, q);
  }

  /** A join failed: the plain plan is beyond the row limit. */
  ghost predicate Failed(c: Comparer, k: Keying, q: JoinQuery) {
    Comparable(c, k, q) ==> !FitsLimit(c, k, q)
  }

  lemma JoinFailed(c: Comparer, k: Keying, q: JoinQuery, n: nat, error: JoinError, early: bool, total: nat)
    requires ReachedJoin(c, k, q, n, Err(error), early, total)
    ensures Failed(c, k, q)
  {
    hide Comparable, FitsLimit;
  }

  lemma FailureDelivers(c: Comparer, k: Keying, q: JoinQuery, error: JoinError)
    requires Failed(c, k, q)
    ensures Comparable(c, k, q) ==> Delivers(c, k, q, Err(error))
  {
    hide Comparable, FitsLimit;
  }

  lemma EndDelivers(c: Comparer, k: Keying, q: JoinQuery, rows: seq<FlatRow>, early: bool, total: nat)
    requires Reached(c, k, q, |q.joins|, rows, early, total)
    ensures Comparable(c, k, q) ==> Delivers(c, k, q, Ok(ResultPage(q, Finish(c, q, rows, early), total)))
  {
    hide Comparable, Delivers, Progress, FitsUpTo, ResultPage, Finish;
    if Comparable(c, k, q) {
      FinishProgress(c, k, q, rows, early, total);
    }
  }

  /** The page: of the rows from the offset on, at most limit of them, the cells of the projected columns. */
  ghost predicate ShowsSlice(q: JoinQuery, rows: seq<FlatRow>, page: seq<seq<Text>>) {
    && |page| == (if |rows| <= q.offset then 0 else if |rows| - q.offset < q.limit then |rows| - q.offset else q.limit)
    && forall i | 0 <= i < |page| ::
         && |page[i]| == |q.projections|
         && forall j | 0 <= j < |q.projections| :: page[i][j] == Cell(rows[q.offset + i], q.projections[j])
  }

  lemma ResultPageShows(q: JoinQuery, rows: seq<FlatRow>, total: nat)
    ensures ShowsSlice(q, rows, ResultPage(q, rows, total).rows)
  {
  }

  /** Some arrangement of the wanted rows is the result, and the page shows its slice; the total counts
      the qualifying rows where the window moved or else at the end. */
  ghost predicate PageOfResult(c: Comparer, k: Keying, q: JoinQuery, page: QueryPage) {
    && (exists rows :: IsResult(c, k, q, rows) && ShowsSlice(q, rows, page.rows))
    && page.totalFound == |Select(QualifiesOf(c, q), JoinedRows(c, k, q, if EarlyAt(q).Some? then EarlyAt(q).value else |q.joins|))|
  }

  lemma SamePageOfResult(c: Comparer, k: Keying, q: JoinQuery, page: QueryPage)
    requires SamePage(c, k, q, page)
    ensures PageOfResult(c, k, q, page)
  {
    PlainRowsMean(c, k, q);
    ResultPageShows(q, PlainRows(c, k, q), 0);
    TotalCounts(c, k, q, page);
    hide PlainRows, IsResult, ShowsSlice, Page, Map, Project, QualifiesOf, JoinedRows, Select, EarlyAt, SortedAt;
  }

  /** The reported total is the number of joined rows that qualify, counted where the window moved or
      else at the end. */
  lemma TotalCounts(c: Comparer, k: Keying, q: JoinQuery, page: QueryPage)
    requires SamePage(c, k, q, page)
    ensures page.totalFound
         == |Select(QualifiesOf(c, q), JoinedRows(c, k, q, if EarlyAt(q).Some? then EarlyAt(q).value else |q.joins|))|
  {
    if EarlyAt(q).Some? {
      var n := EarlyAt(q).value;
      var post, joined := PassesAll(c, q.PostJoinFilters(), q.filtersOp), JoinedRows(c, k, q, n);
      assert q.tree.None? && q.order != [];
      forall row ensures post(row) == QualifiesOf(c, q)(row) {
        QualifiesMeans(c, q, row);
      }
      assert SortedAt(c, k, q, n) == StableSort(RowLe(c, q.order), Select(post, joined));
      hide *;
      SelectAgree(post, QualifiesOf(c, q), joined);
      SortPermutes(RowLe(c, q.order), Select(post, joined));
      SameTotal(c, k, q, page);
    } else {
      SameTotal(c, k, q, page);
      PlainRowsUnsorted(c, k, q);
      WantedIs(c, k, q);
      hide PlainRows, QualifiesOf, JoinedRows, Select, StableSort;
      SortPermutes(RowLe(c, q.order), WantedRows(c, k, q));
    }
  }

  lemma SameTotal(c: Comparer, k: Keying, q: JoinQuery, page: QueryPage)
    requires SamePage(c, k, q, page)
    ensures page.totalFound == if EarlyAt(q).Some? then |SortedAt(c, k, q, EarlyAt(q).value)| else |PlainRows(c, k, q)|
  {
    hide PlainPage, PlainRows, SortedAt, EarlyAt;
  }

  lemma DeliversPage(c: Comparer, k: Keying, q: JoinQuery, result: Result<QueryPage, JoinError>)
    requires Delivers(c, k, q, result)
    ensures result.Ok? ==> PageOfResult(c, k, q, result.value)
  {
    hide FitsLimit, FitsUpTo, SamePage, PageOfResult;
    if result.Ok? {
      SamePageOfResult(c, k, q, result.value);
    }
  }

  /** All joins in turn, with the window moved as soon as that cannot be seen. */
  method JoinAll(c: Comparer, k: Keying, q: JoinQuery) returns (rows: seq<FlatRow>, early: bool, total: nat, error: Option<JoinError>)
    ensures if error.Some? then Failed(c, k, q) else Reached(c, k, q, |q.joins|, rows, early, total)
  {
    rows, early, total, error := q.baseRows, false, 0, None;
    hide *;
    StartReached(c, k, q);
    for n := 0 to |q.joins|
      invariant Reached(c, k, q, n, rows, early, total)
    {
      var joined := JoinNext(c, k, q, n, rows, early, total);
      if joined.Err? {
        JoinFailed(c, k, q, n + 1, joined.error, early, total);
        error := Some(joined.error);
        return;
      }
      rows, early, total := MoveWindow(c, k, q, n + 1, joined.value, early, total);
    }
  }

  /** Runs the query.  It fails only if the plain plan exceeds the row limit at some join, and surely
      if it does so up to the window; whenever it succeeds, the page is the plain plan's. */
  method ExecuteJoinQuery(c: Comparer, k: Keying, q: JoinQuery) returns (result: Result<QueryPage, JoinError>)
    ensures Comparable(c, k, q) ==> Delivers(c, k, q, result)
    ensures Comparable(c, k, q) && result.Ok? ==> PageOfResult(c, k, q, result.value)
  {
    hide *;
    var rows, early, total, error := JoinAll(c, k, q);
    if error.Some? {
      FailureDelivers(c, k, q, error.value);
      return Err(error.value);
    }
    EndDelivers(c, k, q, rows, early, total);
    result := Ok(ResultPage(q, Finish(c, q, rows, early), total));
    if Comparable(c, k, q) {
      DeliversPage(c, k, q, result);
    }
  }

  /** The reported total is the plain plan's exactly if no row before the window has more than one
      match in the joins after it. */
  lemma TotalFoundExactIff(c: Comparer, k: Keying, q: JoinQuery, page: QueryPage)
    requires q.Resolved() && OrderedAtWindow(c, k, q) && EarlyAt(q).Some? && SamePage(c, k, q, page)
    ensures var n := EarlyAt(q).value;
      && page.totalFound <= PlainPage(c, k, q).totalFound
      && (page.totalFound == PlainPage(c, k, q).totalFound <==>
            forall row | row in SortedAt(c, k, q, n) :: |Expand(c, k, q, n, |q.joins|)(row)| == 1)
  {
    var n := EarlyAt(q).value;
    PlainRowsFromWindow(c, k, q, n);
    FullNeverEmpty(c, k, q, n);
    hide Full, Expand, PlainRows, SortedAt;
    FlatMapGrows(Full(c, k, q, n), SortedAt(c, k, q, n));
  }
}
