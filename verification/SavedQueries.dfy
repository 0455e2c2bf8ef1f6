/** Which tables saved operations refer to: batches are expanded by name, whatever their cycles. */
module SavedQueries {
  import opened Bytes
  import opened Wrappers
  import opened JoinRows

  datatype TableJoin = TableJoin(entity: Option<Text>, table: Text)

  datatype AuthTable = AuthTable(enabled: bool, table: Text)

  datatype ReadQuery = ReadQuery(
    entity: Text,
    table: Text,
    joins: seq<TableJoin>,
    auth: Option<AuthTable>,
    enrichment: Option<ReadQuery>)

  datatype Operation =
    | Read(name: Text, query: ReadQuery)
    | Write(name: Text, entity: Text, table: Text)
    | Batch(name: Text, operations: seq<Text>)

  const SLASH: Byte := 47

  function TableKey(entity: Text, table: Text): Text {
    entity + [SLASH] + table
  }

  function JoinKey(entity: Text, join: TableJoin): Text {
    TableKey(if join.entity.Some? then join.entity.value else entity, join.table)
  }

  /** Keys name one table of one entity, as long as entities have no slash. */
  lemma TableKeyInjective(e: Text, t: Text, e': Text, t': Text)
    requires SLASH !in e && SLASH !in e'
    ensures TableKey(e, t) == TableKey(e', t') <==> e == e' && t == t'
  {
    SplitAtFirst(SLASH, e, t, e', t');
  }

  /** A joined table is in the entity the join names, or else in the query's. */
  lemma JoinKeyNames(entity: Text, join: TableJoin, e: Text, t: Text)
    requires SLASH !in entity && SLASH !in e && (join.entity.Some? ==> SLASH !in join.entity.value)
    ensures JoinKey(entity, join) == TableKey(e, t) <==> t == join.table && (join.entity == Some(e) || (join.entity.None? && e == entity))
  {
    TableKeyInjective(if join.entity.Some? then join.entity.value else entity, join.table, e, t);
  }

  // ---------- which tables an operation names ----------

  /** The query reads the table itself, joins it, authenticates against it, or its enrichment does. */
  predicate Reads(q: ReadQuery, key: Text) {
    || key == TableKey(q.entity, q.table)
    || (exists j | j in q.joins :: key == JoinKey(q.entity, j))
    || (q.auth.Some? && q.auth.value.enabled && key == TableKey(q.entity, q.auth.value.table))
    || (q.enrichment.Some? && Reads(q.enrichment.value, key))
  }

  /** Batches name no table of their own. */
  predicate Names(op: Operation, key: Text) {
    match op
    case Read(_, q) => Reads(q, key)
    case Write(_, entity, table) => key == TableKey(entity, table)
    case Batch(_, _) => false
  }

  predicate SomeNames(ops: seq<Operation>, key: Text) {
    exists op :: op in ops && Names(op, key)
  }

  method CollectReadQueryTables(q: ReadQuery, out: set<Text>) returns (keys: set<Text>)
    ensures forall key :: key in keys <==> key in out || Reads(q, key)
    decreases q
  {
    keys := out + {TableKey(q.entity, q.table)};
    for i := 0 to |q.joins|
      invariant forall key :: key in keys <==>
                  key in out || key == TableKey(q.entity, q.table) || exists j | j in q.joins[..i] :: key == JoinKey(q.entity, j)
    {
      assert q.joins[..i + 1] == q.joins[..i] + [q.joins[i]];
      keys := keys + {JoinKey(q.entity, q.joins[i])};
    }
    assert q.joins[..|q.joins|] == q.joins;
    if q.auth.Some? && q.auth.value.enabled {
      keys := keys + {TableKey(q.entity, q.auth.value.table)};
    }
    if q.enrichment.Some? {
      keys := CollectReadQueryTables(q.enrichment.value, keys);
    }
  }

  // ---------- expanding batches ----------

  function BatchNames(ops: seq<Operation>): set<Text> {
    set op | op in ops && op.Batch? :: op.name
  }

  /** Every name leads to an operation; of several with one name, any may be meant. */
  ghost predicate NamesOf(ops: seq<Operation>, byName: map<Text, Operation>) {
    forall name | name in byName :: byName[name] in ops && byName[name].name == name
  }

  /** What names mean while `op` is expanded: a batch that shares its name with a later one stands for
      that name itself, since each batch name is expanded once. */
  ghost function Meaning(byName: map<Text, Operation>, op: Operation): map<Text, Operation> {
    if op.Batch? && op.name in byName && byName[op.name].Batch? then byName[op.name := op] else byName
  }

  /** Only names of batches that have been begun may mean something else than `byName` says. */
  ghost predicate MeansAlike(byName: map<Text, Operation>, meaning: map<Text, Operation>, begun: set<Text>) {
    && meaning.Keys == byName.Keys
    && forall name | name in byName :: meaning[name] == byName[name] || (name in begun && byName[name].Batch? && meaning[name].Batch?)
  }

  /** A batch about to be expanded is what its name means, unless that is no batch. */
  ghost predicate MeansItself(meaning: map<Text, Operation>, op: Operation) {
    op.Batch? && op.name in meaning && meaning[op.name].Batch? ==> meaning[op.name] == op
  }

  lemma MeaningFits(ops: seq<Operation>, byName: map<Text, Operation>, op: Operation)
    requires op in ops && NamesOf(ops, byName)
    ensures MeansAlike(byName, Meaning(byName, op), if op.Batch? then {op.name} else {})
    ensures MeansItself(Meaning(byName, op), op) && NamesOf(ops, Meaning(byName, op))
  {
  }

  /** A chain of batches, each listing the next operation. */
  ghost predicate Chain(meaning: map<Text, Operation>, path: seq<Operation>) {
    && |path| > 0
    && forall i | 0 <= i < |path| - 1 :: path[i].Batch? && Lists(meaning, path[i], path[i + 1])
  }

  predicate Lists(meaning: map<Text, Operation>, batch: Operation, next: Operation)
    requires batch.Batch?
  {
    exists name | name in batch.operations :: name in meaning && meaning[name] == next
  }

  /** Some operation that expanding `op` leads to names the table. */
  ghost predicate ExpandsTo(meaning: map<Text, Operation>, op: Operation, key: Text) {
    exists path :: Chain(meaning, path) && path[0] == op && Names(path[|path| - 1], key)
  }

  lemma NamesIsExpansion(meaning: map<Text, Operation>, op: Operation, key: Text)
    requires Names(op, key)
    ensures ExpandsTo(meaning, op, key)
  {
    assert Chain(meaning, [op]);
  }

  lemma ListedExpansion(meaning: map<Text, Operation>, batch: Operation, next: Operation, key: Text)
    requires batch.Batch? && Lists(meaning, batch, next) && ExpandsTo(meaning, next, key)
    ensures ExpandsTo(meaning, batch, key)
  {
    var path :| Chain(meaning, path) && path[0] == next && Names(path[|path| - 1], key);
    var longer := [batch] + path;
    forall i | 0 <= i < |longer| - 1 ensures longer[i].Batch? && Lists(meaning, longer[i], longer[i + 1]) {
      assert i > 0 ==> longer[i] == path[i - 1] && longer[i + 1] == path[i];
    }
    assert Chain(meaning, longer) && longer[|longer| - 1] == path[|path| - 1];
  }

  /** The operation's tables are collected, or it is a batch that has been expanded. */
  ghost predicate Done(op: Operation, visited: set<Text>, keys: set<Text>) {
    if op.Batch? then op.name in visited else forall key :: Names(op, key) ==> key in keys
  }

  /** The first `n` operations a batch lists are done. */
  ghost predicate DoneUpTo(byName: map<Text, Operation>, operations: seq<Text>, n: nat, visited: set<Text>, keys: set<Text>)
    requires n <= |operations|
  {
    forall i | 0 <= i < n && operations[i] in byName :: Done(byName[operations[i]], visited, keys)
  }

  /** The operation names nothing that is not collected, and if it is a batch, all it lists is done. */
  ghost predicate AllDone(byName: map<Text, Operation>, op: Operation, visited: set<Text>, keys: set<Text>) {
    match op
    case Batch(_, operations) => DoneUpTo(byName, operations, |operations|, visited, keys)
    case _ => forall key :: Names(op, key) ==> key in keys
  }

  /** Every batch expanded since `before` has been expanded completely, `open` excepted. */
  ghost predicate Expanded(byName: map<Text, Operation>, meaning: map<Text, Operation>, before: set<Text>, open: set<Text>,
                           visited: set<Text>, keys: set<Text>) {
    forall name | name in visited && name !in before && name !in open && name in meaning && meaning[name].Batch? ::
      AllDone(byName, meaning[name], visited, keys)
  }

  lemma DoneStays(byName: map<Text, Operation>, operations: seq<Text>, n: nat, visited: set<Text>, keys: set<Text>,
                  visited': set<Text>, keys': set<Text>)
    requires n <= |operations| && DoneUpTo(byName, operations, n, visited, keys) && visited <= visited' && keys <= keys'
    ensures DoneUpTo(byName, operations, n, visited', keys')
  {
    forall i | 0 <= i < n && operations[i] in byName ensures Done(byName[operations[i]], visited', keys') {
      assert Done(byName[operations[i]], visited, keys);
    }
  }

  /** What was expanded stays so, and what the next call expands is added. */
  lemma ExpandedNext(byName: map<Text, Operation>, meaning: map<Text, Operation>, before: set<Text>, open: set<Text>,
                     visited: set<Text>, keys: set<Text>, visited': set<Text>, keys': set<Text>)
    requires Expanded(byName, meaning, before, open, visited, keys) && Expanded(byName, meaning, visited, {}, visited', keys')
    requires visited <= visited' && keys <= keys'
    ensures Expanded(byName, meaning, before, open, visited', keys')
  {
    hide DoneUpTo, Names;
    forall name | name in visited' && name !in before && name !in open && name in meaning && meaning[name].Batch?
      ensures AllDone(byName, meaning[name], visited', keys')
    {
      if name in visited {
        var operations := meaning[name].operations;
        assert AllDone(byName, meaning[name], visited, keys);
        DoneStays(byName, operations, |operations|, visited, keys, visited', keys');
      }
    }
  }

  /** What a batch that is all done lists is all done. */
  lemma ListedDone(byName: map<Text, Operation>, meaning: map<Text, Operation>, visited: set<Text>, keys: set<Text>,
                   batch: Operation, next: Operation)
    requires MeansAlike(byName, meaning, visited) && Expanded(byName, meaning, {}, {}, visited, keys)
    requires batch.Batch? && AllDone(byName, batch, visited, keys) && Lists(meaning, batch, next) && NamesMatch(byName)
    ensures AllDone(byName, next, visited, keys)
  {
    var name :| name in batch.operations && name in meaning && meaning[name] == next;
    var i :| 0 <= i < |batch.operations| && batch.operations[i] == name;
    hide Names;
    assert Done(byName[name], visited, keys);
    if next.Batch? {
      assert name in visited;
    }
  }

  ghost predicate NamesMatch(byName: map<Text, Operation>) {
    forall name | name in byName :: byName[name].name == name
  }

  /** Once everything begun is expanded, every chain ends in something done. */
  lemma {:induction false} ChainDone(byName: map<Text, Operation>, meaning: map<Text, Operation>, visited: set<Text>, keys: set<Text>,
                                     path: seq<Operation>)
    requires MeansAlike(byName, meaning, visited) && Expanded(byName, meaning, {}, {}, visited, keys) && NamesMatch(byName)
    requires Chain(meaning, path) && AllDone(byName, path[0], visited, keys)
    ensures AllDone(byName, path[|path| - 1], visited, keys)
    decreases |path|
  {
    hide MeansAlike, Expanded, AllDone, Lists, NamesMatch;
    if |path| > 1 {
      assert path[0].Batch? && Lists(meaning, path[0], path[1]);
      ListedDone(byName, meaning, visited, keys, path[0], path[1]);
      var rest := path[1..];
      forall j | 0 <= j < |rest| - 1 ensures rest[j].Batch? && Lists(meaning, rest[j], rest[j + 1]) {
        assert rest[j] == path[j + 1] && rest[j + 1] == path[j + 2];
      }
      ChainDone(byName, meaning, visited, keys, rest);
    }
  }

  /** What a listed operation adds, the batch leads to. */
  lemma ListedAdds(meaning: map<Text, Operation>, batch: Operation, next: Operation, keys: set<Text>, keys': set<Text>)
    requires batch.Batch? && Lists(meaning, batch, next)
    requires forall key | key in keys' :: key in keys || ExpandsTo(meaning, next, key)
    ensures forall key | key in keys' :: key in keys || ExpandsTo(meaning, batch, key)
  {
    hide ExpandsTo, Lists;
    forall key | ExpandsTo(meaning, next, key) ensures ExpandsTo(meaning, batch, key) {
      ListedExpansion(meaning, batch, next, key);
    }
  }

  /** Expands an operation.  Each batch name is expanded once, so cycles end.  Only tables that the
      expansion leads to are added, and what is begun is completed. */
  method CollectOpTables(op: Operation, ghost ops: seq<Operation>, byName: map<Text, Operation>, visited: set<Text>, out: set<Text>,
                         ghost meaning: map<Text, Operation>)
    returns (visited': set<Text>, keys: set<Text>)
    requires op in ops && NamesOf(ops, byName) && MeansAlike(byName, meaning, visited + if op.Batch? then {op.name} else {})
    requires op.name !in visited ==> MeansItself(meaning, op)
    ensures visited <= visited' && visited' <= visited + BatchNames(ops) && out <= keys
    ensures Done(op, visited', keys)
    ensures if op.Batch? && op.name in visited then visited' == visited && keys == out else AllDone(byName, op, visited', keys)
    ensures forall key | key in keys :: key in out || ExpandsTo(meaning, op, key)
    ensures Expanded(byName, meaning, visited, {}, visited', keys)
    decreases BatchNames(ops) - visited, 0
  {
    match op
    case Read(_, q) =>
      visited' := visited;
      keys := CollectReadQueryTables(q, out);
      forall key | Names(op, key) ensures ExpandsTo(meaning, op, key) {
        NamesIsExpansion(meaning, op, key);
      }
    case Write(_, entity, table) =>
      visited', keys := visited, out + {TableKey(entity, table)};
      NamesIsExpansion(meaning, op, TableKey(entity, table));
    case Batch(name, operations) =>
      if name in visited {
        return visited, out;
      }
      assert name in BatchNames(ops);
      visited', keys := CollectListed(op, ops, byName, visited, out, meaning);
  }

  /** The operations a batch lists, one after the other. */
  method CollectListed(op: Operation, ghost ops: seq<Operation>, byName: map<Text, Operation>, visited: set<Text>, out: set<Text>,
                       ghost meaning: map<Text, Operation>)
    returns (visited': set<Text>, keys: set<Text>)
    requires op in ops && op.Batch? && op.name !in visited && op.name in BatchNames(ops)
    requires NamesOf(ops, byName) && MeansAlike(byName, meaning, visited + {op.name}) && MeansItself(meaning, op)
    ensures visited + {op.name} <= visited' && visited' <= visited + BatchNames(ops) && out <= keys
    ensures AllDone(byName, op, visited', keys)
    ensures forall key | key in keys :: key in out || ExpandsTo(meaning, op, key)
    ensures Expanded(byName, meaning, visited, {}, visited', keys)
    decreases BatchNames(ops) - visited - {op.name}, 1
  {
    visited', keys := visited + {op.name}, out;
    hide BatchNames, ExpandsTo, Names;
    for i := 0 to |op.operations|
      invariant visited + {op.name} <= visited' && visited' <= visited + BatchNames(ops) && out <= keys
      invariant forall key | key in keys :: key in out || ExpandsTo(meaning, op, key)
      invariant DoneUpTo(byName, op.operations, i, visited', keys)
      invariant Expanded(byName, meaning, visited, {op.name}, visited', keys)
    {
      if op.operations[i] in byName {
        var next := byName[op.operations[i]];
        ghost var visitedBefore, keysBefore := visited', keys;
        visited', keys := CollectOpTables(next, ops, byName, visited', keys, meaning);
        DoneStays(byName, op.operations, i, visitedBefore, keysBefore, visited', keys);
        ExpandedNext(byName, meaning, visited, {op.name}, visitedBefore, keysBefore, visited', keys);
        if !(next.Batch? && next.name in visitedBefore) {
          ListedAdds(meaning, op, next, keysBefore, keys);
        }
      }
    }
  }

  /** From a fresh start, the walk collects exactly the tables the expansion leads to. */
  lemma FreshWalkIsExact(ops: seq<Operation>, byName: map<Text, Operation>, op: Operation, visited: set<Text>, keys: set<Text>)
    requires op in ops && NamesOf(ops, byName)
    requires Done(op, visited, keys) && AllDone(byName, op, visited, keys)
    requires Expanded(byName, Meaning(byName, op), {}, {}, visited, keys)
    requires forall key | key in keys :: ExpandsTo(Meaning(byName, op), op, key)
    ensures forall key :: key in keys <==> ExpandsTo(Meaning(byName, op), op, key)
  {
    var meaning := Meaning(byName, op);
    MeaningFits(ops, byName, op);
    assert MeansAlike(byName, meaning, visited) && NamesMatch(byName);
    hide MeansAlike, Expanded, Chain, NamesMatch, Meaning;
    forall key | ExpandsTo(meaning, op, key) ensures key in keys {
      var path :| Chain(meaning, path) && path[0] == op && Names(path[|path| - 1], key);
      assert |path| > 0;
      ChainDone(byName, meaning, visited, keys, path);
    }
  }

  /** No operation between `i` and `n` has the same name. */
  predicate IsLastOf(ops: seq<Operation>, i: nat, n: nat)
    requires i < n <= |ops|
  {
    forall j | i < j < n :: ops[j].name != ops[i].name
  }

  /** Each of the first `n` names leads to its last operation so far. */
  ghost predicate Indexes(ops: seq<Operation>, byName: map<Text, Operation>, n: nat)
    requires n <= |ops|
  {
    && (forall i | 0 <= i < n :: ops[i].name in byName)
    && (forall i | 0 <= i < n && IsLastOf(ops, i, n) :: byName[ops[i].name] == ops[i])
  }

  lemma LastBefore(ops: seq<Operation>, i: nat, n: nat)
    requires i < n < |ops| && IsLastOf(ops, i, n + 1)
    ensures ops[i].name != ops[n].name && IsLastOf(ops, i, n)
  {
  }

  lemma IndexNext(ops: seq<Operation>, byName: map<Text, Operation>, n: nat)
    requires n < |ops| && Indexes(ops, byName, n)
    ensures Indexes(ops, byName[ops[n].name := ops[n]], n + 1)
  {
    var next := byName[ops[n].name := ops[n]];
    hide IsLastOf;
    forall i | 0 <= i < n + 1 && IsLastOf(ops, i, n + 1) ensures next[ops[i].name] == ops[i] {
      if i < n {
        LastBefore(ops, i, n);
      }
    }
  }

  /** The operations by name; a later one replaces an earlier one. */
  method IndexByName(ops: seq<Operation>) returns (byName: map<Text, Operation>)
    ensures NamesOf(ops, byName)
    ensures Indexes(ops, byName, |ops|)
  {
    byName := map[];
    hide IsLastOf;
    for i := 0 to |ops|
      invariant NamesOf(ops, byName) && Indexes(ops, byName, i)
    {
      IndexNext(ops, byName, i);
      hide Indexes;
      byName := byName[ops[i].name := ops[i]];
    }
  }

  /** Whatever an expansion leads to is one of the operations. */
  lemma {:induction false} ChainStaysInside(ops: seq<Operation>, meaning: map<Text, Operation>, path: seq<Operation>)
    requires NamesOf(ops, meaning) && Chain(meaning, path) && path[0] in ops
    ensures path[|path| - 1] in ops
  {
    if |path| > 1 {
      assert Lists(meaning, path[|path| - 2], path[|path| - 1]);
    }
  }

  lemma ExpansionStaysInside(ops: seq<Operation>, meaning: map<Text, Operation>, op: Operation)
    requires NamesOf(ops, meaning) && op in ops
    ensures forall key | ExpandsTo(meaning, op, key) :: SomeNames(ops, key)
  {
    hide NamesOf, Names;
    forall key | ExpandsTo(meaning, op, key) ensures SomeNames(ops, key) {
      var path :| Chain(meaning, path) && path[0] == op && Names(path[|path| - 1], key);
      ChainStaysInside(ops, meaning, path);
    }
  }

  /** The first `n` operations' own tables are among the keys. */
  ghost predicate Collected(ops: seq<Operation>, n: nat, keys: set<Text>)
    requires n <= |ops|
  {
    forall j, key | 0 <= j < n && Names(ops[j], key) :: key in keys
  }

  lemma CollectedNext(ops: seq<Operation>, n: nat, visited: set<Text>, keys: set<Text>, keys': set<Text>)
    requires n < |ops| && Collected(ops, n, keys) && keys <= keys' && Done(ops[n], visited, keys')
    ensures Collected(ops, n + 1, keys')
  {
    forall j, key | 0 <= j < n + 1 && Names(ops[j], key) ensures key in keys' {
      assert j < n ==> key in keys;
    }
  }

  lemma AllCollected(ops: seq<Operation>, keys: set<Text>)
    requires Collected(ops, |ops|, keys) && forall key | key in keys :: SomeNames(ops, key)
    ensures forall key :: key in keys <==> SomeNames(ops, key)
  {
    forall key | SomeNames(ops, key) ensures key in keys {
      var op :| op in ops && Names(op, key);
      var j :| 0 <= j < |ops| && ops[j] == op;
    }
  }

  /** The tables of all saved operations: batch expansion neither adds a key nor loses one. */
  method CollectOpsQueryTableKeys(ops: seq<Operation>) returns (keys: set<Text>)
    ensures forall key :: key in keys <==> SomeNames(ops, key)
  {
    var byName := IndexByName(ops);
    var visited: set<Text> := {};
    keys := {};
    hide *;
    NothingCollected(ops);
    for i := 0 to |ops|
      invariant Collected(ops, i, keys)
      invariant forall key | key in keys :: SomeNames(ops, key)
    {
      ghost var before := keys;
      MeaningFits(ops, byName, ops[i]);
      MeansAlikeMore(byName, Meaning(byName, ops[i]), if ops[i].Batch? then {ops[i].name} else {}, visited);
      ExpansionStaysInside(ops, Meaning(byName, ops[i]), ops[i]);
      visited, keys := CollectOpTables(ops[i], ops, byName, visited, keys, Meaning(byName, ops[i]));
      CollectedNext(ops, i, visited, before, keys);
    }
    AllCollected(ops, keys);
  }

  lemma NothingCollected(ops: seq<Operation>)
    ensures Collected(ops, 0, {})
  {
  }

  lemma MeansAlikeMore(byName: map<Text, Operation>, meaning: map<Text, Operation>, begun: set<Text>, visited: set<Text>)
    requires MeansAlike(byName, meaning, begun)
    ensures MeansAlike(byName, meaning, visited + begun)
  {
  }
}
