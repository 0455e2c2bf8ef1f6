/** Pushing filters down to the tables: for And-filters, joining filtered tables and filtering the
    result is joining whole tables and filtering the result. */
module JoinPushdown {
  import opened Bytes
  import opened Wrappers
  import opened Sorting
  import opened Sequences
  import opened Types
  import opened JoinRows
  import opened JoinLookup
  import opened JoinPipeline
  import opened JoinEquivalence
  import opened JoinOrder
  import opened JoinExecutor

  /** The base table before it is read. */
  datatype BaseTable = BaseTable(fields: seq<Text>, table: seq<TableRow>)

  function OnAlias(alias: Text): ResolvedFilter -> bool {
    (f: ResolvedFilter) => f.field.alias == alias
  }

  function ConditionOf(): ResolvedFilter -> Filter {
    (f: ResolvedFilter) => f.condition
  }

  /** The filters a table is read with; a filter tree pushes nothing down. */
  function Pushdown(q: JoinQuery, alias: Text): seq<Filter> {
    if q.tree.Some? then [] else Map(ConditionOf(), Select(OnAlias(alias), q.filters))
  }

  /** Without a filter tree a table is read with the filters on it, whatever operator joins them. */
  lemma PushdownMeans(c: Comparer, q: JoinQuery, alias: Text, r: TableRow)
    ensures RowPasses(c, r, Pushdown(q, alias)) <==>
      q.tree.Some? || forall f | f in q.filters && f.field.alias == alias :: Meets(c, Column(r, f.condition.field), f.condition)
  {
    if q.tree.None? {
      var on := Select(OnAlias(alias), q.filters);
      SelectMembers(OnAlias(alias), q.filters);
      forall f: ResolvedFilter ensures Matches(c, Column(r, f.condition.field), f.condition) <==> Meets(c, Column(r, f.condition.field), f.condition) {
        MatchesMeans(c, Column(r, f.condition.field), f.condition);
      }
      forall f ensures f in on <==> f in q.filters && f.field.alias == alias {
        assert OnAlias(alias)(f) <==> f.field.alias == alias;
      }
      forall g ensures g in Pushdown(q, alias) <==> exists f :: f in on && f.condition == g {
        if g in Pushdown(q, alias) {
          MapMembers(ConditionOf(), on, g);
          var f :| f in on && ConditionOf()(f) == g;
        }
        if f :| f in on && f.condition == g {
          MapMembers(ConditionOf(), on, f.condition);
        }
      }
      hide Matches, Meets, Select, Pushdown;
      if RowPasses(c, r, Pushdown(q, alias)) {
        forall f | f in q.filters && f.field.alias == alias ensures Meets(c, Column(r, f.condition.field), f.condition) {
          assert f.condition in Pushdown(q, alias);
        }
      }
    }
  }

  function BaseFlat(q: JoinQuery, base: BaseTable): TableRow -> FlatRow {
    (r: TableRow) => Flat(q.baseAlias, base.fields, r)
  }

  /** The query reads its tables with the pushed-down filters, and fetches every filtered column. */
  ghost predicate ReadsFiltered(c: Comparer, q: JoinQuery, base: BaseTable) {
    && q.baseRows == Map(BaseFlat(q, base), Select(Passing(c, Pushdown(q, q.baseAlias)), base.table))
    && (forall i | 0 <= i < |q.joins| :: q.joins[i].push == Pushdown(q, q.joins[i].join.alias))
    && (forall f | f in q.filters :: f.condition.field == f.field.field)
    && (forall f | f in q.filters && f.field.alias == q.baseAlias :: f.field.field in base.fields)
    && (forall i, f | 0 <= i < |q.joins| && f in q.filters && f.field.alias == q.joins[i].join.alias ::
          f.field.field in q.joins[i].fields)
  }

  function Unpushed(input: JoinInput): JoinInput {
    if input.join.kind == Left then input else input.(push := [])
  }

  /** The same query on whole tables; a LEFT join's filter stays part of the join. */
  function WholeTables(q: JoinQuery, base: BaseTable): JoinQuery {
    q.(baseRows := Map(BaseFlat(q, base), base.table), joins := Map((input: JoinInput) => Unpushed(input), q.joins))
  }

  // ---------- one table ----------

  /** All these filters pass. */
  function AllPass(c: Comparer, filters: seq<ResolvedFilter>): FlatRow -> bool {
    (row: FlatRow) => forall f | f in filters :: EvaluateFilter(c, row, f)
  }

  /** Of the filters that are applied after joining, those on one table. */
  function FiltersOn(q: JoinQuery, alias: Text): seq<ResolvedFilter> {
    Select(OnAlias(alias), q.filters)
  }

  /** The row holds the table row's columns. */
  ghost predicate Shows(alias: Text, fields: seq<Text>, r: TableRow, row: FlatRow) {
    forall f | f in fields :: Qualify(alias, f) in row && row[Qualify(alias, f)] == Column(r, f)
  }

  /** A table row passes the pushed-down filters exactly if a joined row that shows it passes them. */
  lemma PushdownAgrees(c: Comparer, q: JoinQuery, alias: Text, fields: seq<Text>, r: TableRow, row: FlatRow)
    requires q.tree.None? && Shows(alias, fields, r, row)
    requires forall f | f in q.filters && f.field.alias == alias ::
               f.field.Valid() && f.condition.field == f.field.field && f.field.field in fields
    ensures RowPasses(c, r, Pushdown(q, alias)) <==> AllPass(c, FiltersOn(q, alias))(row)
  {
    var on := FiltersOn(q, alias);
    SelectMembers(OnAlias(alias), q.filters);
    forall f | f in on ensures EvaluateFilter(c, row, f) == Matches(c, Column(r, f.condition.field), f.condition) {
      assert OnAlias(alias)(f);
    }
    hide Matches;
    forall f | f in on ensures f.condition in Pushdown(q, alias) {
      MapMembers(ConditionOf(), on, f.condition);
    }
    forall g | g in Pushdown(q, alias) ensures exists f :: f in on && f.condition == g {
      MapMembers(ConditionOf(), on, g);
      var f :| f in on && ConditionOf()(f) == g;
    }
  }

  lemma {:induction false} SelectFlatMap<A, B>(p: B -> bool, e: A -> seq<B>, g: A -> seq<B>, xs: seq<A>)
    requires forall x | x in xs :: Select(p, e(x)) == Select(p, g(x))
    ensures Select(p, FlatMap(e, xs)) == Select(p, FlatMap(g, xs))
  {
    if |xs| != 0 {
      assert xs[0] in xs;
      SelectFlatMap(p, e, g, xs[1..]);
      SelectAppend(p, e(xs[0]), FlatMap(e, xs[1..]));
      SelectAppend(p, g(xs[0]), FlatMap(g, xs[1..]));
    }
  }

  /** Filtering before or after looking for a key is the same. */
  lemma SelectPushed<A>(p: A -> bool, key: A -> bool, xs: seq<A>)
    ensures Select(p, Select(key, Select(p, xs))) == Select(p, Select(key, xs))
  {
    SelectSelect(key, p, xs);
    SelectSelect(p, Both(key, p), xs);
    SelectSelect(p, key, xs);
    SelectAgree(Both(p, Both(key, p)), Both(p, key), xs);
  }

  function Merge(row: FlatRow): FlatRow -> FlatRow {
    (m: FlatRow) => row + m
  }

  lemma InnerJoinRows(c: Comparer, k: Keying, input: JoinInput, row: FlatRow)
    requires input.join.kind == Inner && !input.join.Aggregates()
    ensures NestedJoin(c, k, input)(row) == Map(Merge(row), NestedMatches(c, k, input, row))
  {
    hide NestedMatches;
    assert NestedJoin(c, k, input)(row) == JoinRow(k, input.join, row, NestedMatches(c, k, input, row));
  }

  /** What the join makes of one current row, told by table rows. */
  function MergeFlat(input: JoinInput, row: FlatRow): TableRow -> FlatRow {
    MergeCells(input.join.alias, input.fields, row)
  }

  function MergeCells(alias: Text, fields: seq<Text>, row: FlatRow): TableRow -> FlatRow {
    (r: TableRow) => row + Flat(alias, fields, r)
  }

  lemma {:induction false} MapMap<A, B, C>(g: B -> C, f: A -> B, xs: seq<A>)
    ensures Map(g, Map(f, xs)) == Map(Composed(g, f), xs)
  {
  }

  lemma InnerJoinTableRows(c: Comparer, k: Keying, input: JoinInput, row: FlatRow, parts: seq<Text>)
    requires input.join.kind == Inner && !input.join.Aggregates()
    requires KeyParts(k, row, input.join.ExistingSide()) == Some(parts)
    ensures NestedJoin(c, k, input)(row) == Map(MergeFlat(input, row), Select(HasTableKey(k, input, parts), Candidates(c, input)))
  {
    forall r ensures Composed(Merge(row), Flatten(input))(r) == MergeFlat(input, row)(r) {
    }
    hide NestedJoin, NestedMatches, Candidates, HasTableKey, KeyParts, Merge, Flatten, MergeFlat;
    InnerJoinRows(c, k, input, row);
    NestedReads(c, k, input, row);
    MapMap(Merge(row), Flatten(input), Select(HasTableKey(k, input, parts), Candidates(c, input)));
    MapAgree(Composed(Merge(row), Flatten(input)), MergeFlat(input, row), Select(HasTableKey(k, input, parts), Candidates(c, input)));
  }

  lemma MergedShows(input: JoinInput, row: FlatRow, r: TableRow)
    ensures Shows(input.join.alias, input.fields, r, MergeFlat(input, row)(r))
  {
    FlatColumns(input.join.alias, input.fields, r);
  }

  lemma UnpushedKeysAlike(k: Keying, input: JoinInput, parts: seq<Text>, r: TableRow)
    ensures HasTableKey(k, Unpushed(input), parts)(r) == HasTableKey(k, input, parts)(r)
  {
    hide NormalizedColumn;
  }

  /** The rows passing a table's filters, however the key lookup and the filters are ordered. */
  lemma SelectMerged(c: Comparer, p: FlatRow -> bool, merge: TableRow -> FlatRow, key: TableRow -> bool, push: seq<Filter>,
                     table: seq<TableRow>)
    requires forall r :: p(merge(r)) == RowPasses(c, r, push)
    ensures Select(p, Map(merge, Select(key, Select(Passing(c, push), table)))) == Select(p, Map(merge, Select(key, table)))
  {
    var pushed := Select(key, Select(Passing(c, push), table));
    SelectMap(p, merge, pushed);
    SelectMap(p, merge, Select(key, table));
    forall r ensures Composed(p, merge)(r) == Passing(c, push)(r) {
    }
    hide RowPasses, Select;
    SelectAgree(Composed(p, merge), Passing(c, push), pushed);
    SelectAgree(Composed(p, merge), Passing(c, push), Select(key, table));
    SelectPushed(Passing(c, push), key, table);
  }

  lemma MapAgree<A, B>(f: A -> B, g: A -> B, xs: seq<A>)
    requires forall x | x in xs :: f(x) == g(x)
    ensures Map(f, xs) == Map(g, xs)
  {
    forall i | 0 <= i < |xs| ensures f(xs[i]) == g(xs[i]) {
      assert xs[i] in xs;
    }
  }

  ghost predicate PushedInner(q: JoinQuery, input: JoinInput) {
    && q.tree.None? && input.push == Pushdown(q, input.join.alias)
    && input.join.kind == Inner && !input.join.Aggregates()
    && forall f | f in q.filters && f.field.alias == input.join.alias ::
         f.field.Valid() && f.condition.field == f.field.field && f.field.field in input.fields
  }

  lemma UnpushedInnerRows(c: Comparer, k: Keying, input: JoinInput, row: FlatRow, parts: seq<Text>)
    requires input.join.kind == Inner && !input.join.Aggregates()
    requires KeyParts(k, row, input.join.ExistingSide()) == Some(parts)
    ensures NestedJoin(c, k, Unpushed(input))(row) == Map(MergeFlat(input, row), Select(HasTableKey(k, input, parts), input.table))
  {
    var whole := Unpushed(input);
    InnerJoinTableRows(c, k, whole, row, parts);
    forall r ensures HasTableKey(k, whole, parts)(r) == HasTableKey(k, input, parts)(r) {
      UnpushedKeysAlike(k, input, parts, r);
    }
    assert MergeFlat(whole, row) == MergeFlat(input, row);
    SelectAll(Passing(c, []), input.table, true);
    assert Candidates(c, whole) == input.table;
    hide NestedJoin, HasTableKey, MergeFlat, Candidates, KeyParts;
    SelectAgree(HasTableKey(k, whole, parts), HasTableKey(k, input, parts), input.table);
  }

  /** Of the rows an INNER join makes, those passing its table's filters are the same, pushed down or not. */
  lemma InnerPushed(c: Comparer, k: Keying, q: JoinQuery, input: JoinInput, row: FlatRow)
    requires PushedInner(q, input)
    ensures var p := AllPass(c, FiltersOn(q, input.join.alias));
      Select(p, NestedJoin(c, k, input)(row)) == Select(p, NestedJoin(c, k, Unpushed(input))(row))
  {
    var p, merge := AllPass(c, FiltersOn(q, input.join.alias)), MergeFlat(input, row);
    var found := KeyParts(k, row, input.join.ExistingSide());
    if found.None? {
      InnerJoinRows(c, k, input, row);
      InnerJoinRows(c, k, Unpushed(input), row);
    } else {
      InnerJoinTableRows(c, k, input, row, found.value);
      UnpushedInnerRows(c, k, input, row, found.value);
      forall r ensures p(merge(r)) == RowPasses(c, r, input.push) {
        MergedShows(input, row, r);
        PushdownAgrees(c, q, input.join.alias, input.fields, r, merge(r));
      }
      assert Candidates(c, input) == Select(Passing(c, input.push), input.table);
      hide NestedJoin, HasTableKey, MergeFlat, Candidates, KeyParts, AllPass, Pushdown, FiltersOn;
      SelectMerged(c, p, merge, HasTableKey(k, input, found.value), input.push, input.table);
    }
  }

  // ---------- all joins ----------

  /** The filters on the base table and on the INNER joined tables among the first `n`. */
  function FiltersUpTo(q: JoinQuery, n: nat): seq<ResolvedFilter>
    requires n <= |q.joins|
  {
    if n == 0 then FiltersOn(q, q.baseAlias)
    else if q.joins[n - 1].join.kind == Inner then FiltersUpTo(q, n - 1) + FiltersOn(q, q.joins[n - 1].join.alias)
    else FiltersUpTo(q, n - 1)
  }

  lemma {:induction false} FiltersUpToJoined(q: JoinQuery, n: nat)
    requires q.Resolved() && n <= |q.joins|
    ensures forall f | f in FiltersUpTo(q, n) :: f in q.filters && q.IsJoined(f.field.alias, n) && !q.IsLeftAlias(f.field.alias)
  {
    if n == 0 {
      SelectMembers(OnAlias(q.baseAlias), q.filters);
    } else {
      FiltersUpToJoined(q, n - 1);
      SelectMembers(OnAlias(q.joins[n - 1].join.alias), q.filters);
      forall f | f in FiltersUpTo(q, n - 1) ensures q.IsJoined(f.field.alias, n) {
        assert q.IsJoined(f.field.alias, n - 1);
      }
    }
  }

  /** Joining a later table changes nothing earlier filters see. */
  lemma EarlierFiltersKept(c: Comparer, k: Keying, q: JoinQuery, n: nat, input: JoinInput)
    requires q.Resolved() && n < |q.joins| && input.join == q.joins[n].join
    ensures SelectKept(AllPass(c, FiltersUpTo(q, n)), NestedJoin(c, k, input))
  {
    var filters, e := FiltersUpTo(q, n), NestedJoin(c, k, input);
    FiltersUpToJoined(q, n);
    hide FiltersUpTo, NestedJoin, Matches;
    forall x, x' | x' in e(x) ensures AllPass(c, filters)(x') == AllPass(c, filters)(x) {
      forall f | f in filters ensures EvaluateFilter(c, x', f) == EvaluateFilter(c, x, f) {
        JoinedColumnUntouched(q, n, f.field);
        JoinKeepsColumn(c, k, input, x, x', f.field.qualified);
      }
    }
  }

  lemma AllPassBoth(c: Comparer, first: seq<ResolvedFilter>, second: seq<ResolvedFilter>, rows: seq<FlatRow>)
    ensures Select(AllPass(c, first + second), rows) == Select(AllPass(c, second), Select(AllPass(c, first), rows))
  {
    hide EvaluateFilter;
    SelectSelect(AllPass(c, second), AllPass(c, first), rows);
    forall row ensures AllPass(c, first + second)(row) == Both(AllPass(c, second), AllPass(c, first))(row) {
      assert forall f :: f in first + second <==> f in first || f in second;
    }
    SelectAgree(AllPass(c, first + second), Both(AllPass(c, second), AllPass(c, first)), rows);
  }

  /** An INNER aggregate join is not filtered. */
  ghost predicate PlainInnerFilters(q: JoinQuery) {
    forall i | 0 <= i < |q.joins| && q.joins[i].join.kind == Inner && q.joins[i].join.Aggregates() ::
      FiltersOn(q, q.joins[i].join.alias) == []
  }

  ghost predicate Pushable(c: Comparer, q: JoinQuery, base: BaseTable) {
    q.Resolved() && q.tree.None? && ReadsFiltered(c, q, base) && PlainInnerFilters(q)
  }

  /** One step: of the rows that pass the filters so far, the same pass the step's filters. */
  lemma StepPushed(c: Comparer, k: Keying, q: JoinQuery, base: BaseTable, n: nat, rows: seq<FlatRow>)
    requires Pushable(c, q, base) && n < |q.joins| && q.joins[n].join.kind == Inner
    ensures var p := AllPass(c, FiltersOn(q, q.joins[n].join.alias));
      Select(p, FlatMap(NestedJoin(c, k, q.joins[n]), rows)) == Select(p, FlatMap(NestedJoin(c, k, Unpushed(q.joins[n])), rows))
  {
    var input := q.joins[n];
    if input.join.Aggregates() {
      assert Unpushed(input) == input;
    } else {
      assert PushedInner(q, input);
      hide *;
      var p := AllPass(c, FiltersOn(q, input.join.alias));
      forall row | row in rows
        ensures Select(p, NestedJoin(c, k, input)(row)) == Select(p, NestedJoin(c, k, Unpushed(input))(row))
      {
        InnerPushed(c, k, q, input, row);
      }
      SelectFlatMap(p, NestedJoin(c, k, input), NestedJoin(c, k, Unpushed(input)), rows);
    }
  }

  lemma BasePushed(c: Comparer, q: JoinQuery, base: BaseTable)
    requires Pushable(c, q, base)
    ensures var p, whole := AllPass(c, FiltersOn(q, q.baseAlias)), Map(BaseFlat(q, base), base.table);
      Select(p, q.baseRows) == Select(p, whole)
  {
    var p, flat := AllPass(c, FiltersOn(q, q.baseAlias)), BaseFlat(q, base);
    var push := Pushdown(q, q.baseAlias);
    forall r ensures p(flat(r)) == RowPasses(c, r, push) {
      FlatColumns(q.baseAlias, base.fields, r);
      PushdownAgrees(c, q, q.baseAlias, base.fields, r, flat(r));
    }
    assert q.baseRows == Map(flat, Select(Passing(c, push), base.table));
    hide AllPass, FiltersOn, Pushdown, BaseFlat, RowPasses;
    var any := (r: TableRow) => true;
    SelectAll(any, Select(Passing(c, push), base.table), true);
    SelectAll(any, base.table, true);
    SelectMerged(c, p, flat, any, push, base.table);
  }

  /** One more join keeps the agreement. */
  lemma NextPushed(c: Comparer, k: Keying, q: JoinQuery, base: BaseTable, n: nat, before: seq<FlatRow>, after: seq<FlatRow>)
    requires Pushable(c, q, base) && n < |q.joins|
    requires Select(AllPass(c, FiltersUpTo(q, n)), before) == Select(AllPass(c, FiltersUpTo(q, n)), after)
    ensures var p := AllPass(c, FiltersUpTo(q, n + 1));
      Select(p, FlatMap(NestedJoin(c, k, q.joins[n]), before)) == Select(p, FlatMap(NestedJoin(c, k, Unpushed(q.joins[n])), after))
  {
    var e, e' := NestedJoin(c, k, q.joins[n]), NestedJoin(c, k, Unpushed(q.joins[n]));
    var p, own := AllPass(c, FiltersUpTo(q, n)), FiltersOn(q, q.joins[n].join.alias);
    assert FiltersUpTo(q, n + 1) == if q.joins[n].join.kind == Inner then FiltersUpTo(q, n) + own else FiltersUpTo(q, n);
    assert q.joins[n].join.kind == Left ==> e == e';
    EarlierFiltersKept(c, k, q, n, q.joins[n]);
    EarlierFiltersKept(c, k, q, n, Unpushed(q.joins[n]));
    hide AllPass, FiltersUpTo, FiltersOn, NestedJoin, Pushable, Unpushed, SelectKept, Select, FlatMap;
    SelectExpanded(p, e, before);
    SelectExpanded(p, e', after);
    if q.joins[n].join.kind == Inner {
      AllPassBoth(c, FiltersUpTo(q, n), own, FlatMap(e, before));
      AllPassBoth(c, FiltersUpTo(q, n), own, FlatMap(e', after));
      StepPushed(c, k, q, base, n, Select(p, before));
    }
  }

  lemma WholeJoins(q: JoinQuery, base: BaseTable)
    ensures var whole := WholeTables(q, base);
      |whole.joins| == |q.joins| && forall i | 0 <= i < |q.joins| :: whole.joins[i] == Unpushed(q.joins[i])
  {
    hide Unpushed;
  }

  lemma JoinedNext(c: Comparer, k: Keying, q: JoinQuery, n: nat)
    requires n < |q.joins|
    ensures JoinedRows(c, k, q, n + 1) == FlatMap(NestedJoin(c, k, q.joins[n]), JoinedRows(c, k, q, n))
  {
    hide NestedJoin, FlatMap;
  }

  lemma NothingJoined(c: Comparer, k: Keying, q: JoinQuery, base: BaseTable)
    requires Pushable(c, q, base)
    ensures var p := AllPass(c, FiltersUpTo(q, 0));
      Select(p, JoinedRows(c, k, q, 0)) == Select(p, JoinedRows(c, k, WholeTables(q, base), 0))
  {
    BasePushed(c, q, base);
    hide AllPass, FiltersOn, Select, BaseFlat, Map, Pushable;
  }

  lemma {:induction false} JoinsPushed(c: Comparer, k: Keying, q: JoinQuery, base: BaseTable, n: nat)
    requires Pushable(c, q, base) && n <= |q.joins| == |WholeTables(q, base).joins|
    ensures var p := AllPass(c, FiltersUpTo(q, n));
      Select(p, JoinedRows(c, k, q, n)) == Select(p, JoinedRows(c, k, WholeTables(q, base), n))
  {
    hide *;
    if n == 0 {
      NothingJoined(c, k, q, base);
    } else {
      JoinsPushed(c, k, q, base, n - 1);
      WholeJoins(q, base);
      JoinedNext(c, k, q, n - 1);
      JoinedNext(c, k, WholeTables(q, base), n - 1);
      NextPushed(c, k, q, base, n - 1, JoinedRows(c, k, q, n - 1), JoinedRows(c, k, WholeTables(q, base), n - 1));
    }
  }

  /** The filters applied after joining already include those that were pushed down. */
  lemma PostFiltersImply(c: Comparer, q: JoinQuery, row: FlatRow)
    requires q.Resolved() && q.filtersOp == And && PassesAll(c, q.PostJoinFilters(), q.filtersOp)(row)
    ensures AllPass(c, FiltersUpTo(q, |q.joins|))(row)
  {
    FiltersUpToJoined(q, |q.joins|);
    SelectMembers((f: ResolvedFilter) => !q.IsLeftAlias(f.field.alias), q.filters);
    hide EvaluateFilter;
    forall f | f in FiltersUpTo(q, |q.joins|) ensures EvaluateFilter(c, row, f) {
      assert f in q.PostJoinFilters();
    }
  }

  lemma WholePostFilters(q: JoinQuery, base: BaseTable)
    ensures WholeTables(q, base).PostJoinFilters() == q.PostJoinFilters()
  {
    var whole := WholeTables(q, base);
    assert |whole.joins| == |q.joins| && forall i | 0 <= i < |q.joins| :: whole.joins[i].join == q.joins[i].join;
    forall alias ensures whole.IsLeftAlias(alias) == q.IsLeftAlias(alias) {
    }
    SelectAgree((f: ResolvedFilter) => !whole.IsLeftAlias(f.field.alias), (f: ResolvedFilter) => !q.IsLeftAlias(f.field.alias), q.filters);
  }

  /** Pushing And-filters down to the tables changes no result. */
  lemma PushdownIsSound(c: Comparer, k: Keying, q: JoinQuery, base: BaseTable)
    requires Pushable(c, q, base) && q.filtersOp == And
    ensures PlainRows(c, k, WholeTables(q, base)) == PlainRows(c, k, q)
  {
    var p, post := AllPass(c, FiltersUpTo(q, |q.joins|)), PassesAll(c, q.PostJoinFilters(), q.filtersOp);
    var mine, theirs := JoinedRows(c, k, q, |q.joins|), JoinedRows(c, k, WholeTables(q, base), |q.joins|);
    WholeJoins(q, base);
    JoinsPushed(c, k, q, base, |q.joins|);
    WholePostFilters(q, base);
    forall row ensures Both(post, p)(row) == post(row) {
      if post(row) {
        PostFiltersImply(c, q, row);
      }
    }
    assert Matching(c, q, mine) == Select(post, mine);
    assert Matching(c, WholeTables(q, base), theirs) == Select(post, theirs);
    hide AllPass, PassesAll, FiltersUpTo, JoinedRows, Select;
    SelectSelect(post, p, mine);
    SelectSelect(post, p, theirs);
    SelectAgree(Both(post, p), post, mine);
    SelectAgree(Both(post, p), post, theirs);
    assert Matching(c, q, mine) == Matching(c, WholeTables(q, base), theirs);
  }

  /** The executor's page is the page of joining whole tables naively, then filtering, sorting and paging. */
  lemma PageOnWholeTables(c: Comparer, k: Keying, q: JoinQuery, base: BaseTable, page: QueryPage)
    requires Pushable(c, q, base) && q.filtersOp == And && SamePage(c, k, q, page)
    ensures page.rows == PlainPage(c, k, WholeTables(q, base)).rows
    ensures EarlyAt(q).None? ==> page == PlainPage(c, k, WholeTables(q, base))
  {
    PushdownIsSound(c, k, q, base);
    hide PlainRows, Pushable, SortedAt, Map, Project, Page;
  }

  /** Runs a query whose And-filters have been pushed down: whenever it succeeds, the page is that of
      the naive plan over the whole tables. */
  method ExecutePushed(c: Comparer, k: Keying, q: JoinQuery, ghost base: BaseTable) returns (result: Result<QueryPage, JoinError>)
    ensures Comparable(c, k, q) && FitsLimit(c, k, q) ==> result.Ok?
    ensures Comparable(c, k, q) && Pushable(c, q, base) && q.filtersOp == And && result.Ok? ==>
              result.value.rows == PlainPage(c, k, WholeTables(q, base)).rows
  {
    hide Comparable, Pushable, FitsLimit, SamePage, PlainPage, WholeTables, FitsUpTo;
    result := ExecuteJoinQuery(c, k, q);
    if Comparable(c, k, q) && Pushable(c, q, base) && q.filtersOp == And && result.Ok? {
      PageOnWholeTables(c, k, q, base, result.value);
    }
  }

  // ---------- where pushing down loses rows ----------

  /** A single INNER join whose table has no row left gives nothing. */
  lemma NothingLeft(c: Comparer, k: Keying, q: JoinQuery)
    requires |q.joins| == 1 && q.joins[0].join.kind == Inner && Candidates(c, q.joins[0]) == []
    ensures PlainRows(c, k, q) == []
  {
    var input := q.joins[0];
    forall row ensures NestedJoin(c, k, input)(row) == [] {
      NestedReads(c, k, input, row);
      NothingSelectedFrom(HasTableKey(k, input, if KeyParts(k, row, input.join.ExistingSide()).Some?
                                                then KeyParts(k, row, input.join.ExistingSide()).value else []));
      assert NestedMatches(c, k, input, row) == [];
    }
    hide NestedJoin, PassesAll, PassesTree, Enrich, RowLe;
    NoExpansion(NestedJoin(c, k, input), q.baseRows);
    assert JoinedRows(c, k, q, 0) == q.baseRows;
    assert JoinedRows(c, k, q, 1) == [];
  }

  lemma NothingSelectedFrom<A>(p: A -> bool)
    ensures Select(p, []) == []
  {
  }

  lemma {:induction false} NoExpansion<A, B>(e: A -> seq<B>, xs: seq<A>)
    requires forall x | x in xs :: e(x) == []
    ensures FlatMap(e, xs) == []
  {
    if |xs| != 0 {
      assert xs[0] in xs;
      NoExpansion(e, xs[1..]);
    }
  }

  lemma SomethingLeft(c: Comparer, k: Keying, q: JoinQuery, row: FlatRow)
    requires q.tree.None? && row in JoinedRows(c, k, q, |q.joins|) && PassesAll(c, q.PostJoinFilters(), q.filtersOp)(row)
    ensures PlainRows(c, k, q) != []
  {
    var joined, post := JoinedRows(c, k, q, |q.joins|), PassesAll(c, q.PostJoinFilters(), q.filtersOp);
    hide JoinedRows, PassesAll, Enrich, RowLe, StableSort, Select;
    SelectMembers(post, joined);
    SelectAll(PassesTree(c, q.tree), Select(post, joined), true);
    assert |Select(post, joined)| > 0;
    SortPermutes(RowLe(c, q.order), Map(Enrich(q.computed), Select(post, joined)));
  }

  /** "i", in tables "a" and "b"; "n", the name of a count. */
  const ID: Text := [105]
  const COUNT: Text := [110]
  const LEFT_ALIAS: Text := [97]
  const RIGHT_ALIAS: Text := [98]

  function FieldOf(alias: Text, field: Text): QualifiedField {
    QualifiedField(alias, field, Qualify(alias, field))
  }

  function IsValue(alias: Text, field: Text, value: Text): ResolvedFilter {
    ResolvedFilter(FieldOf(alias, field), EqFilter(field, value))
  }

  /** Two tables with one row each, joined on their only column; `countAs` makes the join count. */
  function OneRowJoin(countAs: Option<Text>, v: Text, push: seq<Filter>): JoinInput {
    JoinInput(ResolvedJoin(RIGHT_ALIAS, Inner, [Condition(FieldOf(LEFT_ALIAS, ID), FieldOf(RIGHT_ALIAS, ID))], countAs, None, None),
              [ID], [map[ID := v]], push)
  }

  function OneRow(v: Text): FlatRow {
    Flat(LEFT_ALIAS, [ID], map[ID := v])
  }

  function OneRowQuery(countAs: Option<Text>, v: Text, filters: seq<ResolvedFilter>, op: LogicalOp, push: seq<Filter>): JoinQuery {
    JoinQuery(LEFT_ALIAS, [OneRow(v)], [OneRowJoin(countAs, v, push)], filters, op, None, [], false, [], [], 1, 0)
  }

  function OneRowTable(v: Text): BaseTable {
    BaseTable([ID], [map[ID := v]])
  }

  /** On the whole tables the rows match. */
  lemma OneRowMatches(c: Comparer, k: Keying, countAs: Option<Text>, v: Text)
    ensures var input := OneRowJoin(countAs, v, []);
      NestedMatches(c, k, input, OneRow(v)) == [Flatten(input)(map[ID := v])]
  {
    var input, row, r: TableRow := OneRowJoin(countAs, v, []), OneRow(v), map[ID := v];
    FlatColumns(LEFT_ALIAS, [ID], r);
    assert ID in [ID] && row[Qualify(LEFT_ALIAS, ID)] == v;
    hide Flat;
    assert input.join.ExistingSide() == [Qualify(LEFT_ALIAS, ID)] && input.join.JoiningFields() == [ID];
    KeyPartsLength(k, row, input.join.ExistingSide());
    var parts := KeyParts(k, row, input.join.ExistingSide());
    assert parts.value == [k.normalize(v)];
    assert TableKey(k, input, r) == [NormalizedColumn(k, r)(ID)];
    SelectAll(Passing(c, []), input.table, true);
    SelectAll(HasTableKey(k, input, parts.value), input.table, true);
    assert Map(Flatten(input), [r]) == [Flatten(input)(r)];
  }

  lemma OneRowJoined(c: Comparer, k: Keying, countAs: Option<Text>, v: Text, filters: seq<ResolvedFilter>, op: LogicalOp, push: seq<Filter>)
    ensures var whole, input := WholeTables(OneRowQuery(countAs, v, filters, op, push), OneRowTable(v)), OneRowJoin(countAs, v, []);
      JoinedRows(c, k, whole, 1) == JoinRow(k, input.join, OneRow(v), [Flatten(input)(map[ID := v])])
  {
    var whole, input := WholeTables(OneRowQuery(countAs, v, filters, op, push), OneRowTable(v)), OneRowJoin(countAs, v, []);
    OneRowMatches(c, k, countAs, v);
    assert whole.baseRows == [OneRow(v)];
    assert whole.joins == [input];
    assert JoinedRows(c, k, whole, 0) == [OneRow(v)];
    FlatMapOne(NestedJoin(c, k, input), OneRow(v));
  }

  /** With Or, pushing down loses rows: "a.i" is the value, but the filter on "b.i" has emptied table "b". */
  lemma OrPushdownLosesRows(c: Comparer, k: Keying, v: Text, w: Text)
    requires CompareValues(c, v, v, None) == Some(Equal) && CompareValues(c, v, w, None) != Some(Equal)
    ensures exists q: JoinQuery, base: BaseTable :: Pushable(c, q, base) && q.filtersOp == Or && PlainRows(c, k, q) == [] != PlainRows(c, k, WholeTables(q, base))
  {
    var filters := [IsValue(LEFT_ALIAS, ID, v), IsValue(RIGHT_ALIAS, ID, w)];
    var q, base := OneRowQuery(None, v, filters, Or, [EqFilter(ID, w)]), OneRowTable(v);
    OrPushable(c, v, w);
    hide *;
    OrKeepsNone(c, k, v, w);
    OrHasRow(c, k, v, w);
  }

  lemma OrPushable(c: Comparer, v: Text, w: Text)
    requires CompareValues(c, v, v, None) == Some(Equal)
    ensures var filters := [IsValue(LEFT_ALIAS, ID, v), IsValue(RIGHT_ALIAS, ID, w)];
      Pushable(c, OneRowQuery(None, v, filters, Or, [EqFilter(ID, w)]), OneRowTable(v))
  {
    var filters := [IsValue(LEFT_ALIAS, ID, v), IsValue(RIGHT_ALIAS, ID, w)];
    var q, base := OneRowQuery(None, v, filters, Or, [EqFilter(ID, w)]), OneRowTable(v);
    hide CompareValues, Flat, Select;
    SelectTwo(OnAlias(LEFT_ALIAS), filters[0], filters[1]);
    SelectTwo(OnAlias(RIGHT_ALIAS), filters[0], filters[1]);
    assert Pushdown(q, LEFT_ALIAS) == [EqFilter(ID, v)] && Pushdown(q, RIGHT_ALIAS) == [EqFilter(ID, w)];
    SelectAll(Passing(c, [EqFilter(ID, v)]), base.table, true);
    assert Map(BaseFlat(q, base), base.table) == [OneRow(v)];
    hide Pushdown, OneRow;
  }

  lemma SelectTwo<A>(p: A -> bool, x: A, y: A)
    ensures Select(p, [x, y]) == (if p(x) then [x] else []) + (if p(y) then [y] else [])
  {
    assert [x] + [y] == [x, y] && [y] + [] == [y];
    SelectCons(p, x, [y]);
    SelectCons(p, y, []);
  }

  lemma OrKeepsNone(c: Comparer, k: Keying, v: Text, w: Text)
    requires CompareValues(c, v, w, None) != Some(Equal)
    ensures var filters := [IsValue(LEFT_ALIAS, ID, v), IsValue(RIGHT_ALIAS, ID, w)];
      PlainRows(c, k, OneRowQuery(None, v, filters, Or, [EqFilter(ID, w)])) == []
  {
    var filters := [IsValue(LEFT_ALIAS, ID, v), IsValue(RIGHT_ALIAS, ID, w)];
    var q := OneRowQuery(None, v, filters, Or, [EqFilter(ID, w)]);
    assert EqFilter(ID, w) in q.joins[0].push;
    hide CompareValues;
    SelectAll(Passing(c, q.joins[0].push), q.joins[0].table, false);
    NothingLeft(c, k, q);
  }

  lemma OrHasRow(c: Comparer, k: Keying, v: Text, w: Text)
    requires CompareValues(c, v, v, None) == Some(Equal)
    ensures var filters := [IsValue(LEFT_ALIAS, ID, v), IsValue(RIGHT_ALIAS, ID, w)];
      PlainRows(c, k, WholeTables(OneRowQuery(None, v, filters, Or, [EqFilter(ID, w)]), OneRowTable(v))) != []
  {
    var filters := [IsValue(LEFT_ALIAS, ID, v), IsValue(RIGHT_ALIAS, ID, w)];
    var whole := WholeTables(OneRowQuery(None, v, filters, Or, [EqFilter(ID, w)]), OneRowTable(v));
    var input := OneRowJoin(None, v, []);
    var joined := OneRow(v) + Flatten(input)(map[ID := v]);
    OneRowJoined(c, k, None, v, filters, Or, [EqFilter(ID, w)]);
    assert JoinedRows(c, k, whole, 1) == [joined];
    OneRowCells(v);
    SelectMembers((f: ResolvedFilter) => !whole.IsLeftAlias(f.field.alias), whole.filters);
    assert filters[0] in whole.PostJoinFilters() by {
      assert filters[0] in whole.filters;
    }
    assert EvaluateFilter(c, joined, filters[0]);
    SomethingLeft(c, k, whole, joined);
  }

  lemma OneRowCells(v: Text)
    ensures var joined := OneRow(v) + Flatten(OneRowJoin(None, v, []))(map[ID := v]);
      Qualify(LEFT_ALIAS, ID) in joined && joined[Qualify(LEFT_ALIAS, ID)] == v
  {
    var r: TableRow := map[ID := v];
    FlatColumns(LEFT_ALIAS, [ID], r);
    FlatColumns(RIGHT_ALIAS, [ID], r);
    hide Flat;
    assert ID in [ID] && OneRow(v)[Qualify(LEFT_ALIAS, ID)] == v;
    forall f ensures Qualify(LEFT_ALIAS, ID) != Qualify(RIGHT_ALIAS, f) {
      QualifyInjective(LEFT_ALIAS, ID, RIGHT_ALIAS, f);
    }
  }

  /** A filter on the count of an INNER join is pushed down to a column no table row has, and so loses the row. */
  lemma CountPushdownLosesRows(c: Comparer, k: Keying, v: Text)
    requires CompareValues(c, k.countText(1), k.countText(1), None) == Some(Equal)
    requires CompareValues(c, [], k.countText(1), None) != Some(Equal)
    ensures exists q: JoinQuery, base: BaseTable ::
              && q.Resolved() && q.filtersOp == And && |q.joins| == 1 && q.joins[0].push == Pushdown(q, q.joins[0].join.alias)
              && PlainRows(c, k, q) == [] != PlainRows(c, k, WholeTables(q, base))
  {
    var filters, push := [IsValue(RIGHT_ALIAS, COUNT, k.countText(1))], [EqFilter(COUNT, k.countText(1))];
    var q, base := OneRowQuery(Some(COUNT), v, filters, And, push), OneRowTable(v);
    CountPushed(k, v);
    hide *;
    CountKeepsNone(c, k, v);
    CountHasRow(c, k, v);
  }

  lemma CountPushed(k: Keying, v: Text)
    ensures var filters, push := [IsValue(RIGHT_ALIAS, COUNT, k.countText(1))], [EqFilter(COUNT, k.countText(1))];
      var q := OneRowQuery(Some(COUNT), v, filters, And, push);
      q.Resolved() && q.filtersOp == And && |q.joins| == 1 && q.joins[0].push == Pushdown(q, q.joins[0].join.alias)
  {
    var filters, push := [IsValue(RIGHT_ALIAS, COUNT, k.countText(1))], [EqFilter(COUNT, k.countText(1))];
    SelectAll(OnAlias(RIGHT_ALIAS), filters, true);
    assert Map(ConditionOf(), filters) == push;
    hide Select, Flat;
  }

  lemma CountKeepsNone(c: Comparer, k: Keying, v: Text)
    requires CompareValues(c, [], k.countText(1), None) != Some(Equal)
    ensures var filters, push := [IsValue(RIGHT_ALIAS, COUNT, k.countText(1))], [EqFilter(COUNT, k.countText(1))];
      PlainRows(c, k, OneRowQuery(Some(COUNT), v, filters, And, push)) == []
  {
    var filters, push := [IsValue(RIGHT_ALIAS, COUNT, k.countText(1))], [EqFilter(COUNT, k.countText(1))];
    var q := OneRowQuery(Some(COUNT), v, filters, And, push);
    assert push[0] in q.joins[0].push;
    assert ID != COUNT && Column(q.joins[0].table[0], COUNT) == [];
    hide CompareValues;
    SelectAll(Passing(c, q.joins[0].push), q.joins[0].table, false);
    NothingLeft(c, k, q);
  }

  /** The one joined row, with its count. */
  function CountedRow(k: Keying, v: Text): FlatRow {
    OneRow(v) + map[Qualify(RIGHT_ALIAS, COUNT) := k.countText(1)]
  }

  lemma CountJoined(c: Comparer, k: Keying, v: Text, filters: seq<ResolvedFilter>, push: seq<Filter>)
    ensures JoinedRows(c, k, WholeTables(OneRowQuery(Some(COUNT), v, filters, And, push), OneRowTable(v)), 1) == [CountedRow(k, v)]
  {
    OneRowJoined(c, k, Some(COUNT), v, filters, And, push);
    hide JoinedRows, WholeTables, Flatten, OneRow;
  }

  lemma CountPasses(c: Comparer, k: Keying, v: Text, filters: seq<ResolvedFilter>)
    requires CompareValues(c, k.countText(1), k.countText(1), None) == Some(Equal)
    requires forall f | f in filters :: f == IsValue(RIGHT_ALIAS, COUNT, k.countText(1))
    ensures PassesAll(c, filters, And)(CountedRow(k, v))
  {
    hide CompareValues, OneRow;
  }

  lemma CountHasRow(c: Comparer, k: Keying, v: Text)
    requires CompareValues(c, k.countText(1), k.countText(1), None) == Some(Equal)
    ensures var filters, push := [IsValue(RIGHT_ALIAS, COUNT, k.countText(1))], [EqFilter(COUNT, k.countText(1))];
      PlainRows(c, k, WholeTables(OneRowQuery(Some(COUNT), v, filters, And, push), OneRowTable(v))) != []
  {
    var filters, push := [IsValue(RIGHT_ALIAS, COUNT, k.countText(1))], [EqFilter(COUNT, k.countText(1))];
    var whole := WholeTables(OneRowQuery(Some(COUNT), v, filters, And, push), OneRowTable(v));
    CountJoined(c, k, v, filters, push);
    hide CountedRow, JoinedRows, PassesAll, CompareValues, OneRow, Select, IsValue, EqFilter;
    SelectMembers((f: ResolvedFilter) => !whole.IsLeftAlias(f.field.alias), whole.filters);
    CountPasses(c, k, v, whole.PostJoinFilters());
    SomethingLeft(c, k, whole, CountedRow(k, v));
  }
}
