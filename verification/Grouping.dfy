/** Grouping of response rows: the shared loop, `Collect`, and nested response grouping. */
module Grouping {
  import opened Bytes
  import opened Wrappers
  import opened Sorting
  import opened Sequences
  import opened JoinRows
  import opened JsonValues

  datatype GroupingError = NoGroupFields | MissingField(field: Text) | NoItemFields | MissingItemField(field: Text) | OrderNotInItems(field: Text)

  // ---------- keys ----------

  function KeyTexts(fields: seq<Text>, row: Row): seq<Text> {
    if |fields| == 0 then []
    else [if fields[0] in row then Print(row[fields[0]]) else []] + KeyTexts(fields[1..], row)
  }

  function GroupKey(fields: seq<Text>): Row -> Text {
    (row: Row) => JoinParts(KeyTexts(fields, row))
  }

  function Fields(row: Row, fields: seq<Text>): Row {
    map f | f in row && f in fields :: row[f]
  }

  function Without(row: Row, fields: seq<Text>): Row {
    map f | f in row && f !in fields :: row[f]
  }

  predicate SameFields(fields: seq<Text>, x: Row, y: Row) {
    forall f | f in fields :: (f in x <==> f in y) && (f in x ==> Print(x[f]) == Print(y[f]))
  }

  lemma {:induction false} KeyTextsOf(fields: seq<Text>, row: Row)
    ensures |KeyTexts(fields, row)| == |fields|
    ensures forall t | t in KeyTexts(fields, row) :: SEPARATOR !in t
    ensures forall i | 0 <= i < |fields| && fields[i] in row :: KeyTexts(fields, row)[i] == Print(row[fields[i]])
  {
    if |fields| != 0 {
      KeyTextsOf(fields[1..], row);
    }
  }

  /** Rows share a key exactly if their group fields print alike: escaped text cannot forge a key. */
  lemma KeysCompareFields(fields: seq<Text>, x: Row, y: Row)
    requires forall f | f in fields :: f in x && f in y
    ensures GroupKey(fields)(x) == GroupKey(fields)(y) <==> SameFields(fields, x, y)
  {
    var xs, ys := KeyTexts(fields, x), KeyTexts(fields, y);
    KeyTextsOf(fields, x);
    KeyTextsOf(fields, y);
    if JoinParts(xs) == JoinParts(ys) {
      JoinPartsInjective(xs, ys);
      forall f | f in fields ensures Print(x[f]) == Print(y[f]) {
        var i :| 0 <= i < |fields| && fields[i] == f;
        assert xs[i] == ys[i];
      }
    }
    if SameFields(fields, x, y) {
      forall i | 0 <= i < |fields| ensures xs[i] == ys[i] {
        assert fields[i] in fields;
      }
      assert xs == ys;
    }
  }

  // ---------- groups ----------

  /** How a grouping reads its rows. */
  datatype Shape = Shape(fields: seq<Text>, item: Row -> Row, keep: Row -> bool)

  datatype Group = Group(parents: Row, items: seq<Row>)

  function SharesKey(fields: seq<Text>, row: Row): Row -> bool {
    (other: Row) => GroupKey(fields)(other) == GroupKey(fields)(row)
  }

  function Members(shape: Shape, rows: seq<Row>, first: Row): seq<Row> {
    Select(Both(SharesKey(shape.fields, first), shape.keep), rows)
  }

  /** The group opened by a row. */
  function GroupOf(shape: Shape, rows: seq<Row>): Row -> Group {
    (first: Row) => Group(Fields(first, shape.fields), Map(shape.item, Members(shape, rows, first)))
  }

  /** The first row of every group, in order of appearance. */
  function Firsts(shape: Shape, rows: seq<Row>): seq<Row> {
    DedupAppend(GroupKey(shape.fields), [], rows)
  }

  function GroupsOf(shape: Shape, rows: seq<Row>): seq<Group> {
    Map(GroupOf(shape, rows), Firsts(shape, rows))
  }

  predicate HasFields(fields: seq<Text>, row: Row) {
    forall f | f in fields :: f in row
  }

  // ---------- the grouping loop ----------

  /** The index holds, for every key seen, the position of its group. */
  ghost predicate Locates(index: map<Text, nat>, shape: Shape, firsts: seq<Row>) {
    && (forall key :: key in index <==> Seen(GroupKey(shape.fields), firsts, key))
    && (forall key | key in index :: index[key] < |firsts| && GroupKey(shape.fields)(firsts[index[key]]) == key)
  }

  method FirstMissing(fields: seq<Text>, row: Row) returns (missing: Option<Text>)
    ensures missing.None? <==> HasFields(fields, row)
    ensures missing.Some? ==> missing.value in fields && missing.value !in row
  {
    for i := 0 to |fields|
      invariant forall j | 0 <= j < i :: fields[j] in row
    {
      if fields[i] !in row {
        return Some(fields[i]);
      }
    }
    return None;
  }

  lemma MembersNext(shape: Shape, rows: seq<Row>, row: Row, first: Row)
    ensures var before := GroupOf(shape, rows)(first);
      GroupOf(shape, rows + [row])(first)
        == if GroupKey(shape.fields)(row) == GroupKey(shape.fields)(first) && shape.keep(row)
           then before.(items := before.items + [shape.item(row)]) else before
  {
    SelectSnoc(Both(SharesKey(shape.fields, first), shape.keep), rows, row);
    MapAppend(shape.item, Members(shape, rows, first), [row]);
    assert Map(shape.item, [row]) == [shape.item(row)];
  }

  /** First rows differ in their keys, come from the rows, and every row's key is among theirs. */
  lemma {:induction false} FirstsCover(key: Row -> Text, rows: seq<Row>)
    ensures DistinctBy(key, DedupAppend(key, [], rows))
    ensures forall f | f in DedupAppend(key, [], rows) :: f in rows
    ensures forall r | r in rows :: Seen(key, DedupAppend(key, [], rows), key(r))
    decreases |rows|
  {
    if |rows| != 0 {
      var front, last := rows[..|rows| - 1], rows[|rows| - 1];
      assert rows == front + [last];
      FirstsCover(key, front);
      DedupAppendSnoc(key, [], front, last);
      var before := DedupAppend(key, [], front);
      hide DedupAppend;
      SeenSnoc(key, before, last);
      if !Seen(key, before, key(last)) {
        DistinctSnoc(key, before, last);
      }
    }
  }

  /** A new row changes only the group with its key. */
  lemma OldGroups(shape: Shape, rows: seq<Row>, row: Row)
    ensures |GroupsOf(shape, rows)| == |Firsts(shape, rows)|
    ensures var groups, firsts, key := GroupsOf(shape, rows), Firsts(shape, rows), GroupKey(shape.fields);
      && firsts <= Firsts(shape, rows + [row])
      && forall i | 0 <= i < |firsts| ::
        GroupsOf(shape, rows + [row])[i]
          == if key(firsts[i]) == key(row) && shape.keep(row)
             then groups[i].(items := groups[i].items + [shape.item(row)]) else groups[i]
  {
    var firsts := Firsts(shape, rows);
    DedupAppendSnoc(GroupKey(shape.fields), [], rows, row);
    hide GroupKey, GroupOf, DedupAppend;
    forall i | 0 <= i < |firsts|
      ensures GroupsOf(shape, rows + [row])[i] == GroupOf(shape, rows + [row])(firsts[i])
      ensures GroupsOf(shape, rows)[i] == GroupOf(shape, rows)(firsts[i])
    {
      MembersNext(shape, rows, row, firsts[i]);
    }
    forall i | 0 <= i < |firsts| {
      MembersNext(shape, rows, row, firsts[i]);
    }
  }

  function Added(shape: Shape, row: Row): seq<Row> {
    if shape.keep(row) then [shape.item(row)] else []
  }

  lemma KnownKey(shape: Shape, rows: seq<Row>, row: Row, at: nat)
    requires at < |Firsts(shape, rows)| && GroupKey(shape.fields)(Firsts(shape, rows)[at]) == GroupKey(shape.fields)(row)
    ensures Firsts(shape, rows + [row]) == Firsts(shape, rows)
    ensures forall i | 0 <= i < |Firsts(shape, rows)| && i != at ::
              GroupKey(shape.fields)(Firsts(shape, rows)[i]) != GroupKey(shape.fields)(row)
  {
    DedupAppendSnoc(GroupKey(shape.fields), [], rows, row);
    FirstsCover(GroupKey(shape.fields), rows);
    hide GroupKey, DedupAppend;
    assert Firsts(shape, rows)[at] in Firsts(shape, rows);
  }

  lemma GroupCount(shape: Shape, rows: seq<Row>)
    ensures |GroupsOf(shape, rows)| == |Firsts(shape, rows)|
  {
  }

  /** A row with a known key joins its group. */
  lemma GroupsJoin(shape: Shape, rows: seq<Row>, row: Row, at: nat)
    requires at < |Firsts(shape, rows)| && GroupKey(shape.fields)(Firsts(shape, rows)[at]) == GroupKey(shape.fields)(row)
    ensures |GroupsOf(shape, rows)| == |Firsts(shape, rows)|
    ensures var groups := GroupsOf(shape, rows);
      && GroupsOf(shape, rows + [row]) == groups[at := groups[at].(items := groups[at].items + Added(shape, row))]
      && Firsts(shape, rows + [row]) == Firsts(shape, rows)
  {
    hide GroupsOf, Firsts, GroupKey;
    KnownKey(shape, rows, row, at);
    OldGroups(shape, rows, row);
    GroupCount(shape, rows + [row]);
    var groups, next := GroupsOf(shape, rows), GroupsOf(shape, rows + [row]);
    assert groups[at].items + [] == groups[at].items;
  }

  /** A row with a new key opens a group at the end. */
  lemma GroupsOpen(shape: Shape, rows: seq<Row>, row: Row)
    requires !Seen(GroupKey(shape.fields), Firsts(shape, rows), GroupKey(shape.fields)(row))
    ensures |GroupsOf(shape, rows)| == |Firsts(shape, rows)|
    ensures GroupsOf(shape, rows + [row]) == GroupsOf(shape, rows) + [Group(Fields(row, shape.fields), Added(shape, row))]
    ensures Firsts(shape, rows + [row]) == Firsts(shape, rows) + [row]
  {
    var firsts, key := Firsts(shape, rows), GroupKey(shape.fields);
    DedupAppendSnoc(key, [], rows, row);
    OldGroups(shape, rows, row);
    NewGroup(shape, rows, row);
    assert GroupsOf(shape, rows + [row])[|firsts|] == GroupOf(shape, rows + [row])(row);
    hide GroupKey, GroupOf, DedupAppend, GroupsOf, Firsts, Added;
    forall i | 0 <= i < |firsts| ensures GroupsOf(shape, rows + [row])[i] == GroupsOf(shape, rows)[i] {
      assert firsts[i] in firsts;
    }
  }

  lemma NewGroup(shape: Shape, rows: seq<Row>, row: Row)
    requires !Seen(GroupKey(shape.fields), Firsts(shape, rows), GroupKey(shape.fields)(row))
    ensures GroupOf(shape, rows + [row])(row)
         == Group(Fields(row, shape.fields), Added(shape, row))
  {
    var key := GroupKey(shape.fields);
    FirstsCover(key, rows);
    forall r | r in rows ensures !SharesKey(shape.fields, row)(r) {
      assert Seen(key, Firsts(shape, rows), key(r));
    }
    SelectAll(Both(SharesKey(shape.fields, row), shape.keep), rows, false);
    assert GroupOf(shape, rows)(row).items == [];
    MembersNext(shape, rows, row, row);
  }

  /** Groups rows one by one; the first row without a group field ends the attempt. */
  method GroupRows(shape: Shape, rows: seq<Row>) returns (groups: Result<seq<Group>, GroupingError>)
    ensures groups.Ok? <==> forall row | row in rows :: HasFields(shape.fields, row)
    ensures groups.Ok? ==> groups.value == GroupsOf(shape, rows)
    ensures groups.Err? ==> groups.error.MissingField? && groups.error.field in shape.fields
    ensures groups.Err? ==> exists row :: row in rows && groups.error.field !in row
  {
    hide GroupsOf, Firsts, HasFields, GroupKey;
    var grouped: seq<Group> := [];
    var index: map<Text, nat> := map[];
    NothingGrouped(shape);
    for n := 0 to |rows|
      invariant forall i | 0 <= i < n :: HasFields(shape.fields, rows[i])
      invariant grouped == GroupsOf(shape, rows[..n]) && |grouped| == |Firsts(shape, rows[..n])|
      invariant Locates(index, shape, Firsts(shape, rows[..n]))
    {
      var row := rows[n];
      var missing := FirstMissing(shape.fields, row);
      if missing.Some? {
        assert row in rows;
        return Err(MissingField(missing.value));
      }
      var key := GroupKey(shape.fields)(row);
      assert rows[..n + 1] == rows[..n] + [row];
      ghost var firsts := Firsts(shape, rows[..n]);
      var added := Added(shape, row);
      if key in index {
        var at := index[key];
        GroupsJoin(shape, rows[..n], row, at);
        grouped := grouped[at := grouped[at].(items := grouped[at].items + added)];
      } else {
        GroupsOpen(shape, rows[..n], row);
        LocatesNext(index, shape, firsts, row);
        index := index[key := |grouped|];
        grouped := grouped + [Group(Fields(row, shape.fields), added)];
      }
    }
    assert rows[..|rows|] == rows;
    return Ok(grouped);
  }

  lemma NothingGrouped(shape: Shape)
    ensures GroupsOf(shape, []) == [] && Firsts(shape, []) == []
  {
  }

  lemma LocatesNext(index: map<Text, nat>, shape: Shape, firsts: seq<Row>, row: Row)
    requires Locates(index, shape, firsts) && GroupKey(shape.fields)(row) !in index
    ensures Locates(index[GroupKey(shape.fields)(row) := |firsts|], shape, firsts + [row])
  {
    hide GroupKey;
    var key := GroupKey(shape.fields);
    forall t ensures Seen(key, firsts + [row], t) <==> Seen(key, firsts, t) || t == key(row) {
      if Seen(key, firsts, t) {
        var a :| a in firsts && key(a) == t;
        assert a in firsts + [row];
      }
      assert row in firsts + [row];
    }
  }

  // ---------- conservation ----------

  function ItemsOf(): Group -> seq<Row> {
    (g: Group) => g.items
  }

  lemma {:induction false} FlatMapUpdated<A, B>(e: A -> seq<B>, xs: seq<A>, at: nat, y: A, added: seq<B>)
    requires at < |xs| && e(y) == e(xs[at]) + added
    ensures multiset(FlatMap(e, xs[at := y])) == multiset(FlatMap(e, xs)) + multiset(added)
  {
    if at == 0 {
      assert xs[0 := y] == [y] + xs[1..];
    } else {
      FlatMapUpdated(e, xs[1..], at - 1, y, added);
      assert xs[at := y][1..] == xs[1..][at - 1 := y];
    }
  }

  /** The groups together hold the items of exactly the kept rows, each as often as it occurs. */
  lemma {:induction false} GroupsConserveItems(shape: Shape, rows: seq<Row>)
    ensures multiset(FlatMap(ItemsOf(), GroupsOf(shape, rows))) == multiset(Map(shape.item, Select(shape.keep, rows)))
    decreases |rows|
  {
    if |rows| != 0 {
      var front, row := rows[..|rows| - 1], rows[|rows| - 1];
      assert rows == front + [row];
      GroupsConserveItems(shape, front);
      var groups, added := GroupsOf(shape, front), Added(shape, row);
      KeptItemNext(shape, front, row);
      if i :| 0 <= i < |groups| && GroupKey(shape.fields)(Firsts(shape, front)[i]) == GroupKey(shape.fields)(row) {
        hide GroupsOf, Firsts, GroupKey, ItemsOf;
        GroupsJoin(shape, front, row, i);
        AppendedItems(groups, i, added);
      } else {
        hide GroupsOf, Firsts, GroupKey;
        assert forall f | f in Firsts(shape, front) :: exists i :: 0 <= i < |groups| && Firsts(shape, front)[i] == f;
        GroupsOpen(shape, front, row);
        FlatMapAppend(ItemsOf(), groups, [Group(Fields(row, shape.fields), added)]);
        FlatMapOne(ItemsOf(), Group(Fields(row, shape.fields), added));
      }
    }
  }

  lemma AppendedItems(groups: seq<Group>, at: nat, added: seq<Row>)
    requires at < |groups|
    ensures multiset(FlatMap(ItemsOf(), groups[at := groups[at].(items := groups[at].items + added)]))
         == multiset(FlatMap(ItemsOf(), groups)) + multiset(added)
  {
    FlatMapUpdated(ItemsOf(), groups, at, groups[at].(items := groups[at].items + added), added);
  }

  lemma KeptItemNext(shape: Shape, front: seq<Row>, row: Row)
    ensures Map(shape.item, Select(shape.keep, front + [row]))
         == Map(shape.item, Select(shape.keep, front)) + Added(shape, row)
  {
    SelectSnoc(shape.keep, front, row);
    if shape.keep(row) {
      MapSnoc(shape.item, Select(shape.keep, front), row);
    }
  }

  /** The position of the first row with a key. */
  function FirstAt(key: Row -> Text, rows: seq<Row>, k: Text): (at: nat)
    ensures at <= |rows|
    ensures at < |rows| ==> key(rows[at]) == k
    ensures forall i | 0 <= i < at :: key(rows[i]) != k
  {
    if |rows| == 0 || key(rows[0]) == k then 0 else 1 + FirstAt(key, rows[1..], k)
  }

  lemma {:induction false} FirstAtExtended(key: Row -> Text, rows: seq<Row>, row: Row, k: Text)
    ensures FirstAt(key, rows, k) < |rows| ==> FirstAt(key, rows + [row], k) == FirstAt(key, rows, k)
    ensures FirstAt(key, rows, k) == |rows| && key(row) == k ==> FirstAt(key, rows + [row], k) == |rows|
  {
    var at, next := FirstAt(key, rows, k), FirstAt(key, rows + [row], k);
    assert forall i | 0 <= i < |rows| :: (rows + [row])[i] == rows[i];
    assert (rows + [row])[|rows|] == row;
  }

  ghost function Positions(key: Row -> Text, rows: seq<Row>, firsts: seq<Row>): seq<nat> {
    Map((first: Row) => FirstAt(key, rows, key(first)), firsts)
  }

  ghost predicate OpensAt(rows: seq<Row>, firsts: seq<Row>, at: seq<nat>) {
    && |at| == |firsts|
    && (forall i | 0 <= i < |at| :: at[i] < |rows| && rows[at[i]] == firsts[i])
    && (forall i, j | 0 <= i < j < |at| :: at[i] < at[j])
  }

  /** Each of these rows is the first with its key, and they are in row order. */
  ghost predicate InOrder(key: Row -> Text, rows: seq<Row>, firsts: seq<Row>) {
    OpensAt(rows, firsts, Positions(key, rows, firsts))
  }

  lemma OpensNext(rows: seq<Row>, row: Row, firsts: seq<Row>, at: seq<nat>)
    requires OpensAt(rows, firsts, at)
    ensures OpensAt(rows + [row], firsts, at)
    ensures OpensAt(rows + [row], firsts + [row], at + [|rows|])
  {
  }

  lemma {:induction false} PositionsKept(key: Row -> Text, rows: seq<Row>, row: Row, firsts: seq<Row>)
    requires InOrder(key, rows, firsts)
    ensures Positions(key, rows + [row], firsts) == Positions(key, rows, firsts)
  {
    hide FirstAt;
    var at, next := Positions(key, rows, firsts), Positions(key, rows + [row], firsts);
    forall i | 0 <= i < |firsts| ensures next[i] == at[i] {
      FirstAtExtended(key, rows, row, key(firsts[i]));
    }
  }

  lemma InOrderKept(key: Row -> Text, rows: seq<Row>, row: Row, firsts: seq<Row>)
    requires InOrder(key, rows, firsts)
    ensures InOrder(key, rows + [row], firsts)
  {
    PositionsKept(key, rows, row, firsts);
    hide Positions;
    OpensNext(rows, row, firsts, Positions(key, rows, firsts));
  }

  lemma InOrderSnoc(key: Row -> Text, rows: seq<Row>, row: Row, firsts: seq<Row>)
    requires InOrder(key, rows, firsts) && FirstAt(key, rows, key(row)) == |rows|
    ensures InOrder(key, rows + [row], firsts + [row])
  {
    PositionsKept(key, rows, row, firsts);
    FirstAtExtended(key, rows, row, key(row));
    hide FirstAt;
    MapSnoc((first: Row) => FirstAt(key, rows + [row], key(first)), firsts, row);
    assert Positions(key, rows + [row], firsts + [row]) == Positions(key, rows, firsts) + [|rows|];
    hide Positions;
    OpensNext(rows, row, firsts, Positions(key, rows, firsts));
  }

  lemma UnseenIsNew(key: Row -> Text, rows: seq<Row>, row: Row)
    requires !Seen(key, DedupAppend(key, [], rows), key(row))
    ensures FirstAt(key, rows, key(row)) == |rows|
  {
    FirstsCover(key, rows);
    hide FirstAt, DedupAppend;
    forall i | 0 <= i < |rows| ensures key(rows[i]) != key(row) {
      assert rows[i] in rows;
    }
  }

  /** Groups are opened by the first row with their key, in the order these rows appear. */
  lemma {:induction false} FirstsInOrder(key: Row -> Text, rows: seq<Row>)
    ensures InOrder(key, rows, DedupAppend(key, [], rows))
    decreases |rows|
  {
    if |rows| != 0 {
      var front, row := rows[..|rows| - 1], rows[|rows| - 1];
      assert rows == front + [row];
      FirstsInOrder(key, front);
      hide *;
      DedupAppendSnoc(key, [], front, row);
      if Seen(key, DedupAppend(key, [], front), key(row)) {
        InOrderKept(key, front, row, DedupAppend(key, [], front));
      } else {
        UnseenIsNew(key, front, row);
        InOrderSnoc(key, front, row, DedupAppend(key, [], front));
      }
    }
  }

  // ---------- Collect ----------

  datatype Collect = Collect(groupFields: seq<Text>, itemFields: seq<Text>, includeGroupFields: bool, order: seq<CollectOrder>)

  datatype Collected = Collected(groups: seq<Group>, summary: nat)

  function ItemFields(collect: Collect, rows: seq<Row>): set<Text>
    requires |rows| > 0
  {
    if collect.itemFields != [] then set f | f in collect.itemFields
    else set f | f in rows[0] && (collect.includeGroupFields || f !in collect.groupFields)
  }

  function CollectItem(fields: set<Text>, whole: bool): Row -> Row {
    (row: Row) => if whole then row else map f | f in row && f in fields :: row[f]
  }

  function Everything(): Row -> bool {
    (row: Row) => true
  }

  function CollectShape(collect: Collect, fields: set<Text>): Shape {
    Shape(collect.groupFields, CollectItem(fields, collect.includeGroupFields), Everything())
  }

  predicate ItemsResolve(collect: Collect, rows: seq<Row>)
    requires |rows| > 0
  {
    && ItemFields(collect, rows) != {}
    && (forall f, row | f in ItemFields(collect, rows) && row in rows :: f in row)
    && (forall o | o in collect.order :: o.field in ItemFields(collect, rows))
  }

  function SortItems(order: seq<CollectOrder>): Group -> Group {
    (g: Group) => g.(items := if order == [] then g.items else StableSort(ItemLe(order), g.items))
  }

  method ResolveItemFields(collect: Collect, rows: seq<Row>) returns (fields: Result<set<Text>, GroupingError>)
    requires |rows| > 0
    ensures fields.Ok? <==> ItemsResolve(collect, rows)
    ensures fields.Ok? ==> fields.value == ItemFields(collect, rows)
    ensures fields == Err(NoItemFields) <==> ItemFields(collect, rows) == {}
    ensures fields.Err? ==> fields.error.NoItemFields? || fields.error.MissingItemField? || fields.error.OrderNotInItems?
    ensures fields.Err? && fields.error.MissingItemField? ==>
              fields.error.field in ItemFields(collect, rows) && exists row :: row in rows && fields.error.field !in row
    ensures fields.Err? && fields.error.OrderNotInItems? ==>
              fields.error.field !in ItemFields(collect, rows) && exists o :: o in collect.order && o.field == fields.error.field
  {
    var names := ItemFields(collect, rows);
    if names == {} {
      return Err(NoItemFields);
    }
    for i := 0 to |rows|
      invariant forall f, j | f in names && 0 <= j < i :: f in rows[j]
    {
      if f :| f in names && f !in rows[i] {
        assert rows[i] in rows;
        return Err(MissingItemField(f));
      }
    }
    for i := 0 to |collect.order|
      invariant forall j | 0 <= j < i :: collect.order[j].field in names
    {
      if collect.order[i].field !in names {
        assert collect.order[i] in collect.order;
        return Err(OrderNotInItems(collect.order[i].field));
      }
    }
    return Ok(names);
  }

  predicate Collectable(collect: Collect, rows: seq<Row>) {
    && collect.groupFields != []
    && (rows != [] ==> ItemsResolve(collect, rows) && forall row | row in rows :: HasFields(collect.groupFields, row))
  }

  /** Groups the rows' items by key and sorts within each group. */
  method BuildCollectAggregation(collect: Collect, rows: seq<Row>) returns (result: Result<Collected, GroupingError>)
    ensures result.Ok? <==> Collectable(collect, rows)
    ensures result == Err(NoGroupFields) <==> collect.groupFields == []
    ensures result.Ok? && rows == [] ==> result.value == Collected([], 0)
    ensures result.Ok? && rows != [] ==>
              && result.value.summary == |rows|
              && result.value.groups == Map(SortItems(collect.order), GroupsOf(CollectShape(collect, ItemFields(collect, rows)), rows))
  {
    if collect.groupFields == [] {
      return Err(NoGroupFields);
    }
    if rows == [] {
      return Ok(Collected([], 0));
    }
    var fields := ResolveItemFields(collect, rows);
    if fields.Err? {
      return Err(fields.error);
    }
    hide GroupsOf, ItemsResolve, HasFields, ItemFields, SortItems;
    var groups := GroupRows(CollectShape(collect, fields.value), rows);
    if groups.Err? {
      return Err(groups.error);
    }
    var sorted := groups.value;
    for i := 0 to |sorted|
      invariant |sorted| == |groups.value|
      invariant forall j | 0 <= j < i :: sorted[j] == SortItems(collect.order)(groups.value[j])
      invariant forall j | i <= j < |sorted| :: sorted[j] == groups.value[j]
    {
      sorted := sorted[i := SortItems(collect.order)(sorted[i])];
    }
    return Ok(Collected(sorted, |rows|));
  }

  lemma {:induction false} SortKeepsItems(order: seq<CollectOrder>, groups: seq<Group>)
    ensures multiset(FlatMap(ItemsOf(), Map(SortItems(order), groups))) == multiset(FlatMap(ItemsOf(), groups))
  {
    if |groups| != 0 {
      SortKeepsItems(order, groups[1..]);
      SortPermutes(ItemLe(order), groups[0].items);
    }
  }

  lemma {:induction false} SelectEverything(rows: seq<Row>)
    ensures Select(Everything(), rows) == rows
  {
    if |rows| != 0 {
      SelectEverything(rows[1..]);
    }
  }

  /** `Collect` conserves rows: its groups together hold every row's item once, and the summary counts them. */
  lemma CollectConserves(collect: Collect, fields: set<Text>, rows: seq<Row>)
    ensures var groups := Map(SortItems(collect.order), GroupsOf(CollectShape(collect, fields), rows));
      && multiset(FlatMap(ItemsOf(), groups)) == multiset(Map(CollectItem(fields, collect.includeGroupFields), rows))
      && |FlatMap(ItemsOf(), groups)| == |rows|
  {
    var shape := CollectShape(collect, fields);
    var groups := Map(SortItems(collect.order), GroupsOf(shape, rows));
    hide GroupsOf, SortItems, ItemsOf, CollectItem;
    GroupsConserveItems(shape, rows);
    SelectEverything(rows);
    SortKeepsItems(collect.order, GroupsOf(shape, rows));
    assert |multiset(FlatMap(ItemsOf(), groups))| == |multiset(Map(shape.item, rows))|;
  }

  /** An item is its row, or of it exactly the item fields: those asked for, or else all of the first
      row's but the group fields. */
  lemma CollectItemMeans(collect: Collect, rows: seq<Row>, row: Row)
    requires |rows| > 0
    ensures var item := CollectItem(ItemFields(collect, rows), collect.includeGroupFields)(row);
      && (forall f :: f in item <==> f in row && (collect.includeGroupFields || IsItemField(collect, rows[0], f)))
      && forall f | f in item :: item[f] == row[f]
  {
  }

  predicate IsItemField(collect: Collect, first: Row, f: Text) {
    if collect.itemFields == [] then f in first && f !in collect.groupFields else f in collect.itemFields
  }

  /** Within a group, items are sorted, ties stay in row order, and no other group holds them. */
  lemma CollectSortsWithinGroups(collect: Collect, fields: set<Text>, rows: seq<Row>, i: nat)
    requires i < |Firsts(CollectShape(collect, fields), rows)|
    ensures var shape, le := CollectShape(collect, fields), ItemLe(collect.order);
      var first := Firsts(shape, rows)[i];
      var items := Map(SortItems(collect.order), GroupsOf(shape, rows))[i].items;
      var own := Map(shape.item, Select(SharesKey(collect.groupFields, first), rows));
      && SortedBy(le, items) && multiset(items) == multiset(own)
      && (forall a, b | 0 <= a < b < |items| :: ItemsInOrder(collect.order, items[a], items[b]))
      && forall item :: Select(Equivalent(le, item), items) == Select(Equivalent(le, item), own)
  {
    hide *;
    var shape, le := CollectShape(collect, fields), ItemLe(collect.order);
    var own := Map(shape.item, Select(SharesKey(collect.groupFields, Firsts(shape, rows)[i]), rows));
    CollectedItems(collect, fields, rows, i);
    SortedItemsMean(collect.order, own);
  }

  lemma CollectedItems(collect: Collect, fields: set<Text>, rows: seq<Row>, i: nat)
    requires i < |Firsts(CollectShape(collect, fields), rows)|
    ensures var shape := CollectShape(collect, fields);
      && |Map(SortItems(collect.order), GroupsOf(shape, rows))| == |Firsts(shape, rows)|
      && Map(SortItems(collect.order), GroupsOf(shape, rows))[i].items
         == StableSort(ItemLe(collect.order), Map(shape.item, Select(SharesKey(collect.groupFields, Firsts(shape, rows)[i]), rows)))
  {
    var shape := CollectShape(collect, fields);
    var first := Firsts(shape, rows)[i];
    var own := Map(shape.item, Select(SharesKey(collect.groupFields, first), rows));
    hide GroupKey, Firsts, CollectItem;
    SelectAgree(Both(SharesKey(collect.groupFields, first), shape.keep), SharesKey(collect.groupFields, first), rows);
    if collect.order == [] {
      ItemOrderIsPreorder(collect.order);
      SortIdempotent(ItemLe(collect.order), own);
    }
  }

  lemma SortedItemsMean(order: seq<CollectOrder>, own: seq<Row>)
    ensures var le := ItemLe(order);
      var items := StableSort(le, own);
      && SortedBy(le, items) && multiset(items) == multiset(own)
      && (forall a, b | 0 <= a < b < |items| :: ItemsInOrder(order, items[a], items[b]))
      && forall item :: Select(Equivalent(le, item), items) == Select(Equivalent(le, item), own)
  {
    var le := ItemLe(order);
    var items := StableSort(le, own);
    hide ItemLe, ItemsInOrder, StableSort, Select, Equivalent;
    ItemOrderIsPreorder(order);
    SortSorts(le, own);
    SortPermutes(le, own);
    forall a, b | 0 <= a < b < |items| ensures ItemsInOrder(order, items[a], items[b]) {
      ItemLeMeans(order, items[a], items[b]);
    }
    forall item ensures Select(Equivalent(le, item), items) == Select(Equivalent(le, item), own) {
      SortIsStable(le, own, item);
    }
  }

  // ---------- nested response grouping ----------

  const MAX_GROUP_PAGE: nat := 100

  /** One level of grouping; only the first child of a level is followed, so levels form a list. */
  datatype Level = Level(fields: seq<Text>, includeFields: bool, limit: Option<nat>, offset: nat) {
    function PageLimit(): nat {
      if limit.Some? && limit.value < MAX_GROUP_PAGE then limit.value else MAX_GROUP_PAGE
    }

    /** A group of this many items is shown whole. */
    predicate Shows(count: nat) {
      count == 0 || (offset == 0 && count <= PageLimit())
    }
  }

  datatype Tree = Rows(items: seq<Row>) | Groups(nodes: seq<Node>)

  datatype Node = Node(parents: Row, content: Tree, totalItems: nat, page: nat, totalPages: nat)

  function ItemRow(level: Level): Row -> Row {
    (row: Row) => if level.includeFields then row else Without(row, level.fields)
  }

  function HasContent(level: Level): Row -> bool {
    (row: Row) => exists f | f in ItemRow(level)(row) :: !Blank(ItemRow(level)(row)[f])
  }

  function LevelShape(level: Level): Shape {
    Shape(level.fields, ItemRow(level), HasContent(level))
  }

  /** The page a group shows, and how it is described. */
  function PageNode(level: Level, total: Option<nat>): Group -> Node {
    (g: Group) =>
      var limit := level.PageLimit();
      var count := if total.Some? then total.value else |g.items|;
      Node(g.parents, Rows(Page(g.items, level.offset, limit)), count,
           if limit == 0 then 1 else level.offset / limit + 1,
           if limit == 0 then 1 else (count + limit - 1) / limit)
  }

  function PageNodes(level: Level, rows: seq<Row>, total: Option<nat>): seq<Node> {
    var groups := GroupsOf(LevelShape(level), rows);
    Map(PageNode(level, if |groups| == 1 then total else None), groups)
  }

  predicate Nestable(levels: seq<Level>, rows: seq<Row>)
    decreases |levels|
  {
    |levels| > 0 ==>
      && levels[0].fields != [] && (forall row | row in rows :: HasFields(levels[0].fields, row))
      && (|levels| > 1 ==> forall i | 0 <= i < |PageNodes(levels[0], rows, None)| ::
            Nestable(levels[1..], PageNodes(levels[0], rows, None)[i].content.items))
  }

  function Descend(levels: seq<Level>): Node -> Node
    decreases |levels|, 1
  {
    (n: Node) => if n.content.Rows? then n.(content := Nested(levels, n.content.items, None)) else n
  }

  /** The grouped response: each level pages its groups, then groups the page by the next level. */
  function Nested(levels: seq<Level>, rows: seq<Row>, total: Option<nat>): Tree
    decreases |levels|, 0
  {
    if |levels| == 0 then Rows(rows)
    else if |levels| == 1 then Groups(PageNodes(levels[0], rows, total))
    else Groups(Map(Descend(levels[1..]), PageNodes(levels[0], rows, total)))
  }

  /** The page of every group, described. */
  method PageGroups(level: Level, rows: seq<Row>, groups: seq<Group>, total: Option<nat>) returns (nodes: seq<Node>)
    requires groups == GroupsOf(LevelShape(level), rows)
    ensures nodes == PageNodes(level, rows, total)
  {
    hide GroupsOf;
    var shown := if |groups| == 1 then total else None;
    var describe := PageNode(level, shown);
    hide PageNode;
    nodes := [];
    for i := 0 to |groups|
      invariant |nodes| == i
      invariant forall j | 0 <= j < i :: nodes[j] == describe(groups[j])
    {
      nodes := nodes + [describe(groups[i])];
    }
    assert nodes == Map(describe, groups);
  }

  lemma RoundUp(n: nat, limit: nat)
    requires limit > 0
    ensures var pages := (n + limit - 1) / limit; pages * limit >= n && (n > 0 ==> (pages - 1) * limit < n) && (n == 0 ==> pages == 0)
  {
    var a := n + limit - 1;
    assert a == a / limit * limit + a % limit;
    assert (a / limit - 1) * limit == a / limit * limit - limit;
  }

  lemma RoundDown(n: nat, limit: nat)
    requires limit > 0
    ensures n / limit * limit <= n < (n / limit + 1) * limit
  {
    assert n == n / limit * limit + n % limit;
    assert (n / limit + 1) * limit == n / limit * limit + limit;
  }

  /** The items from `offset` on, at most `limit` of them. */
  predicate SliceOf(page: seq<Row>, items: seq<Row>, offset: nat, limit: nat) {
    && |page| <= limit && (|page| < limit ==> |items| <= offset + |page|)
    && forall k | 0 <= k < |page| :: offset + k < |items| && page[k] == items[offset + k]
  }

  lemma PageSlices(items: seq<Row>, offset: nat, limit: nat)
    ensures SliceOf(Page(items, offset, limit), items, offset, limit)
  {
  }

  /** The number of the page that the offset lies in, and the least number of pages with room for the total. */
  predicate Numbered(node: Node, offset: nat, limit: nat) {
    && (node.page - 1) * limit <= offset < node.page * limit
    && node.totalItems <= node.totalPages * limit
    && (if node.totalItems == 0 then node.totalPages == 0 else (node.totalPages - 1) * limit < node.totalItems)
  }

  /** A page is the slice of its group between offset and limit, numbered; without a limit it is empty. */
  lemma PageDescribes(level: Level, rows: seq<Row>, total: Option<nat>, i: nat)
    requires i < |PageNodes(level, rows, total)|
    ensures var groups, node, limit := GroupsOf(LevelShape(level), rows), PageNodes(level, rows, total)[i], level.PageLimit();
      && |groups| == |PageNodes(level, rows, total)| && node.content.Rows?
      && node.parents == groups[i].parents
      && node.totalItems == (if |groups| == 1 && total.Some? then total.value else |groups[i].items|)
      && SliceOf(node.content.items, groups[i].items, level.offset, limit)
      && limit <= 100 && (level.limit.Some? ==> limit <= level.limit.value) && (limit == 100 || level.limit == Some(limit))
      && (if limit == 0 then node.page == 1 && node.totalPages == 1 else Numbered(node, level.offset, limit))
  {
    hide GroupsOf, Page, SliceOf;
    var limit, node := level.PageLimit(), PageNodes(level, rows, total)[i];
    PageSlices(GroupsOf(LevelShape(level), rows)[i].items, level.offset, limit);
    if limit > 0 {
      assert node.page == level.offset / limit + 1 && node.totalPages == (node.totalItems + limit - 1) / limit;
      hide *;
      RoundUp(node.totalItems, limit);
      RoundDown(level.offset, limit);
      NodeNumbered(node, level.offset, limit);
    }
  }

  lemma NodeNumbered(node: Node, offset: nat, limit: nat)
    requires (node.page - 1) * limit <= offset < node.page * limit && node.totalItems <= node.totalPages * limit
    requires if node.totalItems == 0 then node.totalPages == 0 else (node.totalPages - 1) * limit < node.totalItems
    ensures Numbered(node, offset, limit)
  {
  }

  /** The first `n` pages, one after the other. */
  function FirstPages(items: seq<Row>, limit: nat, n: nat): seq<Row> {
    if n == 0 then [] else FirstPages(items, limit, n - 1) + Page(items, (n - 1) * limit, limit)
  }

  lemma NextPage(items: seq<Row>, m: nat, limit: nat)
    ensures Take(items, m) + Page(items, m, limit) == Take(items, m + limit)
  {
  }

  lemma {:induction false} FirstPagesTake(items: seq<Row>, limit: nat, n: nat)
    ensures FirstPages(items, limit, n) == Take(items, n * limit)
  {
    if n != 0 {
      var m := (n - 1) * limit;
      assert n * limit == m + limit;
      hide Take, Page;
      FirstPagesTake(items, limit, n - 1);
      NextPage(items, m, limit);
    }
  }

  /** Pages neither overlap nor leave gaps: together they are the group exactly from the announced
      number of pages on. */
  lemma PagesCoverGroup(items: seq<Row>, limit: nat, n: nat)
    requires limit > 0
    ensures FirstPages(items, limit, n) == items <==> n >= (|items| + limit - 1) / limit
  {
    FirstPagesTake(items, limit, n);
    RoundUp(|items|, limit);
    var pages := (|items| + limit - 1) / limit;
    if n >= pages {
      LinearGrows(pages, n, limit);
    } else {
      LinearGrows(n, pages - 1, limit);
    }
  }

  lemma LinearGrows(m: nat, n: nat, limit: nat)
    requires m <= n
    ensures m * limit <= n * limit
  {
  }

  /** The override changes how a page is described, not what is on it. */
  lemma PagesAlike(level: Level, rows: seq<Row>, total: Option<nat>)
    ensures var nodes, plain := PageNodes(level, rows, total), PageNodes(level, rows, None);
      && |nodes| == |plain| == |GroupsOf(LevelShape(level), rows)|
      && forall i | 0 <= i < |nodes| :: nodes[i].content.Rows? && nodes[i].content == plain[i].content
  {
  }

  lemma DescendInto(levels: seq<Level>, n: Node)
    requires n.content.Rows?
    ensures Descend(levels)(n) == n.(content := Nested(levels, n.content.items, None))
  {
  }

  /** The rows of every node can be grouped by these levels. */
  predicate AllNestable(levels: seq<Level>, nodes: seq<Node>) {
    forall i | 0 <= i < |nodes| :: nodes[i].content.Rows? ==> Nestable(levels, nodes[i].content.items)
  }

  /** Every node's rows grouped by these levels. */
  function NestAll(levels: seq<Level>, nodes: seq<Node>): seq<Node> {
    Map(Descend(levels), nodes)
  }

  lemma NestedBelow(levels: seq<Level>, rows: seq<Row>, total: Option<nat>)
    requires |levels| > 1
    ensures Nested(levels, rows, total) == Groups(NestAll(levels[1..], PageNodes(levels[0], rows, total)))
    ensures Nestable(levels, rows) <==>
              (levels[0].fields != [] && (forall row | row in rows :: HasFields(levels[0].fields, row))
                && AllNestable(levels[1..], PageNodes(levels[0], rows, total)))
  {
    PagesAlike(levels[0], rows, total);
    hide PageNodes, HasFields, Nested;
  }

  /** Groups the rows of every node by the next levels. */
  method NestNodes(levels: seq<Level>, nodes: seq<Node>) returns (nested: Result<seq<Node>, GroupingError>)
    requires |levels| > 0 && forall i | 0 <= i < |nodes| :: nodes[i].content.Rows?
    ensures nested.Ok? <==> AllNestable(levels, nodes)
    ensures nested.Ok? ==> nested.value == NestAll(levels, nodes)
    decreases |levels|, 1
  {
    hide Nestable, Descend, Map, Nested, Ungroup, ShowsSomething, Uncut, PrintsApart, Select;
    var done: seq<Node> := [];
    for i := 0 to |nodes|
      invariant |done| == i
      invariant forall j | 0 <= j < i :: Nestable(levels, nodes[j].content.items)
      invariant forall j | 0 <= j < i :: done[j] == Descend(levels)(nodes[j])
    {
      var child := GroupRowsByField(levels, nodes[i].content.items, None);
      if child.Err? {
        return Err(child.error);
      }
      DescendInto(levels, nodes[i]);
      done := done + [nodes[i].(content := child.value)];
    }
    assert done == Map(Descend(levels), nodes);
    return Ok(done);
  }

  /** Groups by the first level, pages each group, and groups the pages by the next level. */
  method GroupRowsByField(levels: seq<Level>, rows: seq<Row>, total: Option<nat>) returns (tree: Result<Tree, GroupingError>)
    requires |levels| > 0
    ensures tree.Ok? <==> Nestable(levels, rows)
    ensures levels[0].fields == [] ==> tree == Err(NoGroupFields)
    ensures tree.Ok? ==> tree.value == Nested(levels, rows, total)
    ensures tree.Ok? && PrintsApart(rows) && Uncut(levels, rows) ==>
              multiset(Ungroup(tree.value)) == multiset(Select(ShowsSomething(levels), rows))
    decreases |levels|, 0
  {
    if Nestable(levels, rows) && PrintsApart(rows) && Uncut(levels, rows) {
      NestingKeepsContent(levels, rows, total);
    }
    hide Ungroup, ShowsSomething, Uncut, PrintsApart;
    hide GroupsOf, HasFields, PageNodes;
    if levels[0].fields == [] {
      return Err(NoGroupFields);
    }
    var groups := GroupRows(LevelShape(levels[0]), rows);
    if groups.Err? {
      return Err(groups.error);
    }
    var nodes := PageGroups(levels[0], rows, groups.value, total);
    if |levels| == 1 {
      return Ok(Groups(nodes));
    }
    PagesAlike(levels[0], rows, total);
    NestedBelow(levels, rows, total);
    hide Nestable, Nested, NestAll, AllNestable;
    var nested := NestNodes(levels[1..], nodes);
    if nested.Err? {
      return Err(nested.error);
    }
    return Ok(Groups(nested.value));
  }

  // ---------- undoing a nested grouping ----------

  function WithParents(parents: Row): Row -> Row {
    (row: Row) => row + parents
  }

  /** All leaf rows, each with the group fields above it. */
  function Ungroup(tree: Tree): seq<Row>
    decreases tree, if tree.Groups? then |tree.nodes| + 1 else 0
  {
    match tree
    case Rows(items) => items
    case Groups(nodes) => UngroupFirst(tree, |nodes|)
  }

  function UngroupFirst(tree: Tree, n: nat): seq<Row>
    requires tree.Groups? && n <= |tree.nodes|
    decreases tree, n
  {
    if n == 0 then []
    else UngroupFirst(tree, n - 1) + Map(WithParents(tree.nodes[n - 1].parents), Ungroup(tree.nodes[n - 1].content))
  }

  function UngroupNode(): Node -> seq<Row> {
    (n: Node) => Map(WithParents(n.parents), Ungroup(n.content))
  }

  lemma {:induction false} UngroupEach(tree: Tree, n: nat)
    requires tree.Groups? && n <= |tree.nodes|
    ensures UngroupFirst(tree, n) == FlatMap(UngroupNode(), tree.nodes[..n])
  {
    if n != 0 {
      UngroupEach(tree, n - 1);
      assert tree.nodes[..n] == tree.nodes[..n - 1] + [tree.nodes[n - 1]];
      FlatMapAppend(UngroupNode(), tree.nodes[..n - 1], [tree.nodes[n - 1]]);
      FlatMapOne(UngroupNode(), tree.nodes[n - 1]);
    }
  }

  /** The row still has something to show once every level has taken its fields out. */
  function Kept(levels: seq<Level>): Row -> bool
    decreases |levels|
  {
    (row: Row) => |levels| == 0 || (HasContent(levels[0])(row) && Kept(levels[1..])(ItemRow(levels[0])(row)))
  }

  /** Values of one field that print alike are the same value. */
  ghost predicate PrintsApart(rows: seq<Row>) {
    forall x, y, f | x in rows && y in rows && f in x && f in y && Print(x[f]) == Print(y[f]) :: x[f] == y[f]
  }

  /** All items of a group. */
  function GroupItems(level: Level, rows: seq<Row>, first: Row): seq<Row> {
    Map(ItemRow(level), Members(LevelShape(level), rows, first))
  }

  /** The items that its page shows. */
  function Shown(level: Level, rows: seq<Row>, first: Row): seq<Row> {
    Page(GroupItems(level, rows, first), level.offset, level.PageLimit())
  }

  /** No page leaves out a row that later levels would keep. */
  predicate AllShown(levels: seq<Level>, rows: seq<Row>)
    decreases |levels|
  {
    |levels| > 0 ==>
      var firsts := Firsts(LevelShape(levels[0]), rows);
      forall i | 0 <= i < |firsts| ::
        && Select(Kept(levels[1..]), Shown(levels[0], rows, firsts[i])) == Select(Kept(levels[1..]), GroupItems(levels[0], rows, firsts[i]))
        && AllShown(levels[1..], Shown(levels[0], rows, firsts[i]))
  }

  /** Every group at every level fits its page. */
  predicate Uncut(levels: seq<Level>, rows: seq<Row>)
    decreases |levels|
  {
    |levels| > 0 ==>
      var firsts := Firsts(LevelShape(levels[0]), rows);
      forall i | 0 <= i < |firsts| ::
        && levels[0].Shows(|GroupItems(levels[0], rows, firsts[i])|)
        && Uncut(levels[1..], GroupItems(levels[0], rows, firsts[i]))
  }

  /** A group of this size is shown whole exactly if it is empty, or nothing is skipped and it fits. */
  lemma ShownWhole(level: Level, rows: seq<Row>, first: Row)
    ensures level.Shows(|GroupItems(level, rows, first)|) <==> Shown(level, rows, first) == GroupItems(level, rows, first)
  {
    hide Members;
    PageWhole(GroupItems(level, rows, first), level.offset, level.PageLimit());
  }

  /** Groups that fit their pages are shown whole. */
  lemma {:induction false} UncutShowsAll(levels: seq<Level>, rows: seq<Row>)
    requires Uncut(levels, rows)
    ensures AllShown(levels, rows)
    decreases |levels|
  {
    if |levels| > 0 {
      var firsts := Firsts(LevelShape(levels[0]), rows);
      hide GroupItems, Shown, Firsts, Kept, Select;
      forall i | 0 <= i < |firsts|
        ensures Shown(levels[0], rows, firsts[i]) == GroupItems(levels[0], rows, firsts[i])
        ensures AllShown(levels[1..], Shown(levels[0], rows, firsts[i]))
      {
        ShownWhole(levels[0], rows, firsts[i]);
        UncutShowsAll(levels[1..], GroupItems(levels[0], rows, firsts[i]));
      }
    }
  }

  /** Putting a row's group fields back gives the row. */
  lemma RestoresRow(level: Level, rows: seq<Row>, first: Row, row: Row)
    requires PrintsApart(rows) && first in rows && row in rows
    requires HasFields(level.fields, first) && HasFields(level.fields, row) && SharesKey(level.fields, first)(row)
    ensures WithParents(Fields(first, level.fields))(ItemRow(level)(row)) == row
  {
    KeysCompareFields(level.fields, row, first);
    assert forall f | f in level.fields :: row[f] == first[f];
  }

  /** Mapping fewer elements gives fewer, and all of them only if no element is missing. */
  lemma MapFewer<A, B>(f: A -> B, xs: seq<A>, ys: seq<A>)
    requires multiset(xs) <= multiset(ys)
    ensures multiset(Map(f, xs)) <= multiset(Map(f, ys))
    ensures multiset(Map(f, xs)) == multiset(Map(f, ys)) <==> multiset(xs) == multiset(ys)
  {
    FlatMapSubset(Single(f), xs, ys);
    FlatMapSingle(f, xs);
    FlatMapSingle(f, ys);
    FewerEqual(xs, ys);
    FewerEqual(Map(f, xs), Map(f, ys));
  }

  /** Of two sequences, one within the other, the sizes tell whether they hold the same. */
  lemma FewerEqual<A>(xs: seq<A>, ys: seq<A>)
    requires multiset(xs) <= multiset(ys)
    ensures |xs| <= |ys|
    ensures |xs| == |ys| <==> multiset(xs) == multiset(ys)
  {
    var rest := multiset(ys) - multiset(xs);
    assert multiset(ys) == multiset(xs) + rest;
    assert |multiset(ys)| == |multiset(xs)| + |rest| && |multiset(xs)| == |xs| && |multiset(ys)| == |ys|;
  }

  function MembersKept(fields: seq<Text>, keep: Row -> bool, rows: seq<Row>): Row -> seq<Row> {
    (first: Row) => Select(Both(SharesKey(fields, first), keep), rows)
  }

  function Itself(): Row -> Row {
    (row: Row) => row
  }

  lemma {:induction false} MapItself(rows: seq<Row>)
    ensures Map(Itself(), rows) == rows
  {
  }

  lemma {:induction false} FlatMapOfMap<A, B, C>(e: B -> seq<C>, f: A -> B, g: A -> seq<C>, xs: seq<A>)
    requires forall x | x in xs :: e(f(x)) == g(x)
    ensures FlatMap(e, Map(f, xs)) == FlatMap(g, xs)
  {
    if |xs| != 0 {
      assert xs[0] in xs;
      FlatMapOfMap(e, f, g, xs[1..]);
      assert Map(f, xs)[1..] == Map(f, xs[1..]);
    }
  }

  /** Sorting rows into groups neither loses nor repeats any. */
  lemma GroupsPartition(fields: seq<Text>, keep: Row -> bool, rows: seq<Row>)
    ensures multiset(FlatMap(MembersKept(fields, keep, rows), Firsts(Shape(fields, Itself(), keep), rows)))
         == multiset(Select(keep, rows))
  {
    var shape := Shape(fields, Itself(), keep);
    var firsts := Firsts(shape, rows);
    GroupsConserveItems(shape, rows);
    MapItself(Select(keep, rows));
    forall first | first in firsts ensures ItemsOf()(GroupOf(shape, rows)(first)) == MembersKept(fields, keep, rows)(first) {
      MapItself(Members(shape, rows, first));
    }
    FlatMapOfMap(ItemsOf(), GroupOf(shape, rows), MembersKept(fields, keep, rows), firsts);
  }

  /** Fewer elements in every expansion are fewer in all, and all of them only if none is missing. */
  lemma {:induction false} FlatMapPairwise<A, B, C>(e: A -> seq<C>, xs: seq<A>, f: B -> seq<C>, ys: seq<B>)
    requires |xs| == |ys| && forall i | 0 <= i < |xs| :: multiset(e(xs[i])) <= multiset(f(ys[i]))
    ensures multiset(FlatMap(e, xs)) <= multiset(FlatMap(f, ys))
    ensures multiset(FlatMap(e, xs)) == multiset(FlatMap(f, ys)) <==>
              forall i | 0 <= i < |xs| :: multiset(e(xs[i])) == multiset(f(ys[i]))
  {
    if |xs| != 0 {
      FlatMapPairwise(e, xs[1..], f, ys[1..]);
      FewerInBoth(e(xs[0]), f(ys[0]), FlatMap(e, xs[1..]), FlatMap(f, ys[1..]));
      PairsFirst(e, xs, f, ys);
    }
  }

  lemma PairsFirst<A, B, C>(e: A -> seq<C>, xs: seq<A>, f: B -> seq<C>, ys: seq<B>)
    requires |xs| == |ys| > 0
    ensures (forall i | 0 <= i < |xs| :: multiset(e(xs[i])) == multiset(f(ys[i]))) <==>
      multiset(e(xs[0])) == multiset(f(ys[0])) && forall i | 0 <= i < |xs[1..]| :: multiset(e(xs[1..][i])) == multiset(f(ys[1..][i]))
  {
    forall i | 0 < i < |xs| ensures xs[i] == xs[1..][i - 1] && ys[i] == ys[1..][i - 1] {
    }
  }

  lemma FewerInBoth<A>(x: seq<A>, y: seq<A>, xs: seq<A>, ys: seq<A>)
    requires multiset(x) <= multiset(y) && multiset(xs) <= multiset(ys)
    ensures multiset(x + xs) <= multiset(y + ys)
    ensures multiset(x + xs) == multiset(y + ys) <==> multiset(x) == multiset(y) && multiset(xs) == multiset(ys)
  {
    FewerEqual(x, y);
    FewerEqual(xs, ys);
    assert multiset(x + xs) == multiset(x) + multiset(xs) && multiset(y + ys) == multiset(y) + multiset(ys);
    FewerEqual(x + xs, y + ys);
  }

  /** The node that the nested grouping makes of a group. */
  ghost predicate IsNodeOf(levels: seq<Level>, rows: seq<Row>, first: Row, n: Node)
    requires |levels| > 0
  {
    && n.parents == Fields(first, levels[0].fields)
    && n.content == Nested(levels[1..], Shown(levels[0], rows, first), None)
  }

  lemma ItemsPrintApart(level: Level, rows: seq<Row>, first: Row)
    requires PrintsApart(rows)
    ensures PrintsApart(Shown(level, rows, first))
  {
    var members, shown := Members(LevelShape(level), rows, first), Shown(level, rows, first);
    MembersAreRows(LevelShape(level), rows, first);
    hide Members, GroupKey;
    forall x, y, f | x in shown && y in shown && f in x && f in y && Print(x[f]) == Print(y[f]) ensures x[f] == y[f] {
      PageMembers(Map(ItemRow(level), members), level.offset, level.PageLimit(), x);
      PageMembers(Map(ItemRow(level), members), level.offset, level.PageLimit(), y);
      MapMembers(ItemRow(level), members, x);
      MapMembers(ItemRow(level), members, y);
      var r :| r in members && ItemRow(level)(r) == x;
      var s :| s in members && ItemRow(level)(s) == y;
      assert r in rows && s in rows;
    }
  }

  lemma MembersAreRows(shape: Shape, rows: seq<Row>, first: Row)
    ensures forall m | m in Members(shape, rows, first) :: m in rows && SharesKey(shape.fields, first)(m)
    ensures |Members(shape, rows, first)| <= |rows|
  {
    SelectMembers(Both(SharesKey(shape.fields, first), shape.keep), rows);
  }

  lemma PageShows(level: Level, rows: seq<Row>, total: Option<nat>, i: nat)
    requires i < |Firsts(LevelShape(level), rows)|
    ensures var shape, nodes := LevelShape(level), PageNodes(level, rows, total);
      && |nodes| == |Firsts(shape, rows)|
      && nodes[i].content == Rows(Shown(level, rows, Firsts(shape, rows)[i]))
      && nodes[i].parents == Fields(Firsts(shape, rows)[i], level.fields)
  {
    hide Members, Firsts, GroupKey;
  }

  lemma NodesOf(levels: seq<Level>, rows: seq<Row>, total: Option<nat>)
    requires |levels| > 0
    ensures var tree, firsts := Nested(levels, rows, total), Firsts(LevelShape(levels[0]), rows);
      && tree.Groups? && |tree.nodes| == |firsts|
      && forall i | 0 <= i < |firsts| :: IsNodeOf(levels, rows, firsts[i], tree.nodes[i])
  {
    var tree, firsts := Nested(levels, rows, total), Firsts(LevelShape(levels[0]), rows);
    var nodes := PageNodes(levels[0], rows, total);
    assert |nodes| == |firsts|;
    assert tree.nodes == if |levels| == 1 then nodes else Map(Descend(levels[1..]), nodes);
    hide Nested, Firsts, PageNodes, Members, GroupKey, Descend, Shown;
    forall i | 0 <= i < |firsts| ensures IsNodeOf(levels, rows, firsts[i], tree.nodes[i]) {
      PageShows(levels[0], rows, total, i);
      if |levels| == 1 {
        NestedInNothing(levels[1..], nodes[i].content.items);
      } else {
        DescendInto(levels[1..], nodes[i]);
      }
    }
  }

  lemma NestedInNothing(levels: seq<Level>, rows: seq<Row>)
    requires |levels| == 0
    ensures Nested(levels, rows, None) == Rows(rows)
  {
  }

  lemma ChildOf(levels: seq<Level>, rows: seq<Row>, i: nat)
    requires |levels| > 0 && Nestable(levels, rows) && PrintsApart(rows)
    requires i < |Firsts(LevelShape(levels[0]), rows)|
    ensures var shown := Shown(levels[0], rows, Firsts(LevelShape(levels[0]), rows)[i]);
      Nestable(levels[1..], shown) && PrintsApart(shown)
  {
    hide Firsts, GroupKey, PageNodes, PrintsApart, Shown;
    PageShows(levels[0], rows, None, i);
    ItemsPrintApart(levels[0], rows, Firsts(LevelShape(levels[0]), rows)[i]);
  }

  lemma AllShownBelow(levels: seq<Level>, rows: seq<Row>)
    requires |levels| > 0
    ensures AllShown(levels, rows) <==>
      var firsts := Firsts(LevelShape(levels[0]), rows);
      forall i | 0 <= i < |firsts| :: GroupShown(levels, rows, firsts[i])
  {
    hide Firsts, Shown, GroupItems, Kept, Select;
  }

  /** The group's page leaves out nothing that later levels keep, nor do the pages below it. */
  predicate GroupShown(levels: seq<Level>, rows: seq<Row>, first: Row)
    requires |levels| > 0
  {
    && Select(Kept(levels[1..]), Shown(levels[0], rows, first)) == Select(Kept(levels[1..]), GroupItems(levels[0], rows, first))
    && AllShown(levels[1..], Shown(levels[0], rows, first))
  }

  lemma RestoresRows(level: Level, rows: seq<Row>, first: Row, kept: seq<Row>)
    requires PrintsApart(rows) && first in rows && HasFields(level.fields, first)
    requires forall row | row in kept :: row in rows && HasFields(level.fields, row) && SharesKey(level.fields, first)(row)
    ensures Map(WithParents(Fields(first, level.fields)), Map(ItemRow(level), kept)) == kept
  {
    hide PrintsApart, HasFields, SharesKey, WithParents, ItemRow;
    forall i | 0 <= i < |kept| ensures WithParents(Fields(first, level.fields))(ItemRow(level)(kept[i])) == kept[i] {
      assert kept[i] in kept;
      RestoresRow(level, rows, first, kept[i]);
    }
  }

  /** Keeping by this level, then by the later ones, is keeping by all of them. */
  lemma KeptInTwoSteps(levels: seq<Level>, rows: seq<Row>, first: Row)
    requires |levels| > 0
    ensures Select(Composed(Kept(levels[1..]), ItemRow(levels[0])), Members(LevelShape(levels[0]), rows, first))
         == MembersKept(levels[0].fields, Kept(levels), rows)(first)
  {
    var own := Both(SharesKey(levels[0].fields, first), HasContent(levels[0]));
    var later := Composed(Kept(levels[1..]), ItemRow(levels[0]));
    SelectSelect(later, own, rows);
    var all := Both(SharesKey(levels[0].fields, first), Kept(levels));
    forall row | row in rows ensures Both(later, own)(row) == all(row) {
    }
    SelectAgree(Both(later, own), all, rows);
  }

  lemma GroupItemsAre(level: Level, rows: seq<Row>, first: Row)
    ensures GroupItems(level, rows, first) == Map(ItemRow(level), Members(LevelShape(level), rows, first))
  {
  }

  /** A group's leaf rows, with their group fields back, are kept rows with the group's key, and all
      of these exactly if none of its kept items is missing. */
  lemma NodeKeepsRows(levels: seq<Level>, rows: seq<Row>, first: Row, leaves: seq<Row>)
    requires |levels| > 0 && PrintsApart(rows) && first in rows
    requires forall row | row in rows :: HasFields(levels[0].fields, row)
    requires multiset(leaves) <= multiset(Select(Kept(levels[1..]), GroupItems(levels[0], rows, first)))
    ensures var restored := Map(WithParents(Fields(first, levels[0].fields)), leaves);
      var own := MembersKept(levels[0].fields, Kept(levels), rows)(first);
      && multiset(restored) <= multiset(own)
      && (multiset(restored) == multiset(own) <==>
            multiset(leaves) == multiset(Select(Kept(levels[1..]), GroupItems(levels[0], rows, first))))
  {
    hide *;
    GroupItemsAre(levels[0], rows, first);
    var item, members := ItemRow(levels[0]), Members(LevelShape(levels[0]), rows, first);
    var kept := Select(Composed(Kept(levels[1..]), item), members);
    SelectMap(Kept(levels[1..]), item, members);
    MapFewer(WithParents(Fields(first, levels[0].fields)), leaves, Map(item, kept));
    LevelMembers(levels[0], rows, first);
    SelectMembers(Composed(Kept(levels[1..]), item), members);
    RestoresRows(levels[0], rows, first, kept);
    KeptInTwoSteps(levels, rows, first);
  }

  /** A page selects fewer; if it selects as many, it selects the same. */
  lemma PageSelects<A>(p: A -> bool, xs: seq<A>, offset: nat, limit: nat)
    ensures multiset(Select(p, Page(xs, offset, limit))) <= multiset(Select(p, xs))
    ensures multiset(Select(p, Page(xs, offset, limit))) == multiset(Select(p, xs)) <==> Select(p, Page(xs, offset, limit)) == Select(p, xs)
  {
    var page, skipped, rest := Page(xs, offset, limit), Take(xs, offset), Drop(Drop(xs, offset), limit);
    PageBetween(xs, offset, limit);
    hide *;
    SelectAppend(p, skipped, page + rest);
    SelectAppend(p, page, rest);
    MiddleFewer(Select(p, skipped), Select(p, page), Select(p, rest));
  }

  lemma PageBetween<A>(xs: seq<A>, offset: nat, limit: nat)
    ensures xs == Take(xs, offset) + (Page(xs, offset, limit) + Drop(Drop(xs, offset), limit))
  {
  }

  lemma MiddleFewer<A>(a: seq<A>, b: seq<A>, c: seq<A>)
    ensures multiset(b) <= multiset(a + (b + c))
    ensures multiset(b) == multiset(a + (b + c)) <==> b == a + (b + c)
  {
    assert multiset(a + (b + c)) == multiset(a) + (multiset(b) + multiset(c));
    FewerEqual(b, a + (b + c));
    if |b| == |a + (b + c)| {
      assert a == [] && c == [];
    }
  }

  /** A node gives back kept rows of its group; all of them exactly if the pages hold them. */
  lemma NodeUngrouped(levels: seq<Level>, rows: seq<Row>, first: Row, n: Node)
    requires |levels| > 0 && PrintsApart(rows) && first in rows && IsNodeOf(levels, rows, first, n)
    requires forall row | row in rows :: HasFields(levels[0].fields, row)
    requires var shown := Shown(levels[0], rows, first); var leaves := Ungroup(Nested(levels[1..], shown, None));
      && multiset(leaves) <= multiset(Select(Kept(levels[1..]), shown))
      && (multiset(leaves) == multiset(Select(Kept(levels[1..]), shown)) <==> AllShown(levels[1..], shown))
    ensures multiset(UngroupNode()(n)) <= multiset(MembersKept(levels[0].fields, Kept(levels), rows)(first))
    ensures multiset(UngroupNode()(n)) == multiset(MembersKept(levels[0].fields, Kept(levels), rows)(first)) <==> GroupShown(levels, rows, first)
  {
    hide PrintsApart, HasFields, WithParents, Kept, MembersKept, Fields, Ungroup, Nested, AllShown, Select, Page, GroupItems;
    PageSelects(Kept(levels[1..]), GroupItems(levels[0], rows, first), levels[0].offset, levels[0].PageLimit());
    NodeKeepsRows(levels, rows, first, Ungroup(n.content));
  }

  /** Undoing the grouping node by node, each node by itself giving back its rows. */
  lemma NodesUngrouped(levels: seq<Level>, rows: seq<Row>, tree: Tree)
    requires |levels| > 0 && tree.Groups?
    requires var firsts := Firsts(LevelShape(levels[0]), rows);
      && |tree.nodes| == |firsts|
      && forall i | 0 <= i < |firsts| ::
           multiset(UngroupNode()(tree.nodes[i])) <= multiset(MembersKept(levels[0].fields, Kept(levels), rows)(firsts[i]))
    ensures multiset(Ungroup(tree)) <= multiset(Select(Kept(levels), rows))
    ensures var firsts := Firsts(LevelShape(levels[0]), rows);
      multiset(Ungroup(tree)) == multiset(Select(Kept(levels), rows)) <==>
        forall i | 0 <= i < |firsts| ::
          multiset(UngroupNode()(tree.nodes[i])) == multiset(MembersKept(levels[0].fields, Kept(levels), rows)(firsts[i]))
  {
    var firsts := Firsts(LevelShape(levels[0]), rows);
    assert Firsts(Shape(levels[0].fields, Itself(), Kept(levels)), rows) == firsts;
    UngroupWhole(tree);
    hide *;
    FlatMapPairwise(UngroupNode(), tree.nodes, MembersKept(levels[0].fields, Kept(levels), rows), firsts);
    GroupsPartition(levels[0].fields, Kept(levels), rows);
  }

  lemma NothingNested(levels: seq<Level>, rows: seq<Row>, total: Option<nat>)
    requires |levels| == 0
    ensures Ungroup(Nested(levels, rows, total)) == Select(Kept(levels), rows) && AllShown(levels, rows)
  {
    SelectAll(Kept(levels), rows, true);
  }

  lemma NestableRows(levels: seq<Level>, rows: seq<Row>)
    requires |levels| > 0 && Nestable(levels, rows)
    ensures forall row | row in rows :: HasFields(levels[0].fields, row)
    ensures var firsts := Firsts(LevelShape(levels[0]), rows); forall i | 0 <= i < |firsts| :: firsts[i] in rows
  {
    FirstsCover(GroupKey(levels[0].fields), rows);
    var firsts := Firsts(LevelShape(levels[0]), rows);
    assert forall i | 0 <= i < |firsts| :: firsts[i] in firsts;
  }

  /** Undoing a nested, paged grouping gives rows that were there and still have content, none more
      often than it was there; and all of them exactly if no page leaves one of them out. */
  lemma {:induction false} NestingKeepsRows(levels: seq<Level>, rows: seq<Row>, total: Option<nat>)
    requires Nestable(levels, rows) && PrintsApart(rows)
    ensures multiset(Ungroup(Nested(levels, rows, total))) <= multiset(Select(Kept(levels), rows))
    ensures multiset(Ungroup(Nested(levels, rows, total))) == multiset(Select(Kept(levels), rows)) <==> AllShown(levels, rows)
    decreases |levels|
  {
    hide *;
    if |levels| == 0 {
      NothingNested(levels, rows, total);
    } else {
      var tree, firsts := Nested(levels, rows, total), Firsts(LevelShape(levels[0]), rows);
      NestableRows(levels, rows);
      NodesOf(levels, rows, total);
      forall i | 0 <= i < |firsts|
        ensures multiset(UngroupNode()(tree.nodes[i])) <= multiset(MembersKept(levels[0].fields, Kept(levels), rows)(firsts[i]))
        ensures multiset(UngroupNode()(tree.nodes[i])) == multiset(MembersKept(levels[0].fields, Kept(levels), rows)(firsts[i]))
           <==> GroupShown(levels, rows, firsts[i])
      {
        ChildOf(levels, rows, i);
        NestingKeepsRows(levels[1..], Shown(levels[0], rows, firsts[i]), None);
        NodeUngrouped(levels, rows, firsts[i], tree.nodes[i]);
      }
      NodesUngrouped(levels, rows, tree);
      AllShownBelow(levels, rows);
    }
  }

  // ---------- rows with content, by their fields ----------

  /** All group fields that the levels take out of the items. */
  function TakenOut(levels: seq<Level>): seq<Text> {
    if |levels| == 0 then [] else (if levels[0].includeFields then [] else levels[0].fields) + TakenOut(levels[1..])
  }

  /** Some field that no level takes out has a value that is neither null nor the empty string. */
  predicate HasShownField(levels: seq<Level>, row: Row) {
    exists f | f in row :: f !in TakenOut(levels) && row[f] != Null && (row[f].String? ==> row[f].text != [])
  }

  function ShowsSomething(levels: seq<Level>): Row -> bool {
    (row: Row) => |levels| == 0 || HasShownField(levels, row)
  }

  lemma ItemFieldsOf(level: Level, row: Row)
    ensures forall f :: f in ItemRow(level)(row) <==> f in row && (level.includeFields || f !in level.fields)
    ensures forall f | f in ItemRow(level)(row) :: ItemRow(level)(row)[f] == row[f]
  {
  }

  /** What one level calls content. */
  lemma ContentMeans(level: Level, row: Row)
    ensures HasContent(level)(row) <==> HasShownField([level], row)
  {
    ItemFieldsOf(level, row);
    assert TakenOut([level]) == (if level.includeFields then [] else level.fields) + TakenOut([]);
  }

  /** What is shown below a level is what the level leaves in and later ones do not take out. */
  lemma ShownBelowLevel(levels: seq<Level>, row: Row)
    requires |levels| > 0
    ensures HasShownField(levels, row) <==> HasShownField(levels[1..], ItemRow(levels[0])(row))
    ensures HasShownField(levels, row) ==> HasShownField([levels[0]], row)
  {
    ItemFieldsOf(levels[0], row);
    assert TakenOut([levels[0]]) == (if levels[0].includeFields then [] else levels[0].fields) + TakenOut([]);
    var rest := TakenOut(levels[1..]);
    hide ItemRow;
  }

  /** A row is kept by all levels exactly if the last one still has something of it to show. */
  lemma {:induction false} KeptMeans(levels: seq<Level>, row: Row)
    ensures Kept(levels)(row) <==> ShowsSomething(levels)(row)
    decreases |levels|
  {
    if |levels| != 0 {
      KeptMeans(levels[1..], ItemRow(levels[0])(row));
      ContentMeans(levels[0], row);
      ShownBelowLevel(levels, row);
      hide HasShownField, HasContent;
      if |levels| == 1 {
        assert levels == [levels[0]];
      }
    }
  }

  /** Undoing a nested, paged grouping gives back only rows that have something to show, none more often
      than it was there, and all of them exactly if no page leaves one of them out. */
  lemma NestingKeepsContent(levels: seq<Level>, rows: seq<Row>, total: Option<nat>)
    requires Nestable(levels, rows) && PrintsApart(rows)
    ensures multiset(Ungroup(Nested(levels, rows, total))) <= multiset(Select(ShowsSomething(levels), rows))
    ensures multiset(Ungroup(Nested(levels, rows, total))) == multiset(Select(ShowsSomething(levels), rows)) <==> AllShown(levels, rows)
    ensures Uncut(levels, rows) ==> multiset(Ungroup(Nested(levels, rows, total))) == multiset(Select(ShowsSomething(levels), rows))
  {
    NestingKeepsRows(levels, rows, total);
    if Uncut(levels, rows) {
      UncutShowsAll(levels, rows);
    }
    forall row | row in rows ensures Kept(levels)(row) == ShowsSomething(levels)(row) {
      KeptMeans(levels, row);
    }
    SelectAgree(Kept(levels), ShowsSomething(levels), rows);
  }

  // ---------- order within the innermost groups ----------

  /** The rows that end up in the same innermost group as `row`. */
  function SameGroup(levels: seq<Level>, row: Row): Row -> bool
    decreases |levels|
  {
    (other: Row) =>
      |levels| == 0
      || (SharesKey(levels[0].fields, row)(other) && SameGroup(levels[1..], ItemRow(levels[0])(row))(ItemRow(levels[0])(other)))
  }

  lemma {:induction false} SelectFlatMapNone<A, B>(p: B -> bool, e: A -> seq<B>, xs: seq<A>)
    requires forall x | x in xs :: Select(p, e(x)) == []
    ensures Select(p, FlatMap(e, xs)) == []
  {
    if |xs| != 0 {
      assert xs[0] in xs;
      SelectFlatMapNone(p, e, xs[1..]);
      SelectAppend(p, e(xs[0]), FlatMap(e, xs[1..]));
    }
  }

  /** Only one expansion holds elements of the class. */
  lemma SelectFlatMapOne<A, B>(p: B -> bool, e: A -> seq<B>, xs: seq<A>, at: nat)
    requires at < |xs| && forall i | 0 <= i < |xs| && i != at :: Select(p, e(xs[i])) == []
    ensures Select(p, FlatMap(e, xs)) == Select(p, e(xs[at]))
  {
    hide *;
    assert xs == xs[..at] + ([xs[at]] + xs[at + 1..]);
    FlatMapAppend(e, xs[..at], [xs[at]] + xs[at + 1..]);
    FlatMapAppend(e, [xs[at]], xs[at + 1..]);
    FlatMapOne(e, xs[at]);
    SelectFlatMapNone(p, e, xs[..at]);
    SelectFlatMapNone(p, e, xs[at + 1..]);
    SelectAppend(p, FlatMap(e, xs[..at]), e(xs[at]) + FlatMap(e, xs[at + 1..]));
    SelectAppend(p, e(xs[at]), FlatMap(e, xs[at + 1..]));
  }

  /** A node gives back only rows with its key. */
  lemma NodeRowsShareKey(levels: seq<Level>, rows: seq<Row>, first: Row, leaves: seq<Row>, row: Row)
    requires |levels| > 0
    requires multiset(leaves) == multiset(MembersKept(levels[0].fields, Kept(levels), rows)(first))
    requires !SharesKey(levels[0].fields, row)(first)
    ensures Select(SameGroup(levels, row), leaves) == []
  {
    var kept := MembersKept(levels[0].fields, Kept(levels), rows)(first);
    SelectMembers(Both(SharesKey(levels[0].fields, first), Kept(levels)), rows);
    hide Kept, GroupKey;
    forall r | r in leaves ensures !SameGroup(levels, row)(r) {
      assert r in multiset(leaves) && r in kept;
      assert SharesKey(levels[0].fields, first)(r);
    }
    SelectAll(SameGroup(levels, row), leaves, false);
  }

  /** Within one group the class is decided by the later levels. */
  lemma ClassWithinGroup(levels: seq<Level>, row: Row, first: Row, r: Row)
    requires |levels| > 0 && SharesKey(levels[0].fields, row)(first) && SharesKey(levels[0].fields, first)(r)
    ensures SameGroup(levels, row)(r) == SameGroup(levels[1..], ItemRow(levels[0])(row))(ItemRow(levels[0])(r))
  {
  }

  lemma ClassInTwoSteps(levels: seq<Level>, rows: seq<Row>, row: Row, first: Row)
    requires |levels| > 0 && SharesKey(levels[0].fields, row)(first)
    ensures var item := ItemRow(levels[0]);
      var later := Both(SameGroup(levels[1..], item(row)), Kept(levels[1..]));
      Select(Composed(later, item), Members(LevelShape(levels[0]), rows, first))
        == Select(Both(SameGroup(levels, row), Kept(levels)), rows)
  {
    var item := ItemRow(levels[0]);
    var later := Composed(Both(SameGroup(levels[1..], item(row)), Kept(levels[1..])), item);
    var own := Both(SharesKey(levels[0].fields, first), HasContent(levels[0]));
    var all := Both(SameGroup(levels, row), Kept(levels));
    SelectSelect(later, own, rows);
    forall r | r in rows ensures Both(later, own)(r) == all(r) {
      if SharesKey(levels[0].fields, first)(r) {
        ClassWithinGroup(levels, row, first, r);
      }
    }
    SelectAgree(Both(later, own), all, rows);
  }

  /** With its group fields back, a leaf row is in the class exactly if the later levels say so. */
  lemma LeavesRestore(levels: seq<Level>, rows: seq<Row>, first: Row, leaves: seq<Row>, row: Row)
    requires |levels| > 0 && PrintsApart(rows) && first in rows && SharesKey(levels[0].fields, row)(first)
    requires forall r | r in rows :: HasFields(levels[0].fields, r)
    requires multiset(leaves)
          == multiset(Select(Kept(levels[1..]), Map(ItemRow(levels[0]), Members(LevelShape(levels[0]), rows, first))))
    ensures forall u | u in leaves ::
              Composed(SameGroup(levels, row), WithParents(Fields(first, levels[0].fields)))(u)
                == SameGroup(levels[1..], ItemRow(levels[0])(row))(u)
  {
    hide PrintsApart, HasFields, SharesKey, WithParents, ItemRow, Members, Kept, SameGroup, Fields;
    var item, members := ItemRow(levels[0]), Members(LevelShape(levels[0]), rows, first);
    MembersAreRows(LevelShape(levels[0]), rows, first);
    SelectMembers(Kept(levels[1..]), Map(item, members));
    forall u | u in leaves
      ensures Composed(SameGroup(levels, row), WithParents(Fields(first, levels[0].fields)))(u)
           == SameGroup(levels[1..], item(row))(u)
    {
      assert u in multiset(leaves) && u in Map(item, members);
      MapMembers(item, members, u);
      var r :| r in members && item(r) == u;
      RestoresRow(levels[0], rows, first, r);
      ClassWithinGroup(levels, row, first, r);
    }
  }

  lemma LevelMembers(level: Level, rows: seq<Row>, first: Row)
    ensures forall m | m in Members(LevelShape(level), rows, first) :: m in rows && SharesKey(level.fields, first)(m)
  {
    MembersAreRows(LevelShape(level), rows, first);
  }

  /** A node gives the class back in row order, if its content does. */
  lemma NodeKeepsOrder(levels: seq<Level>, rows: seq<Row>, first: Row, leaves: seq<Row>, row: Row)
    requires |levels| > 0 && PrintsApart(rows) && first in rows && SharesKey(levels[0].fields, row)(first)
    requires forall r | r in rows :: HasFields(levels[0].fields, r)
    requires var items := GroupItems(levels[0], rows, first);
      && multiset(leaves) == multiset(Select(Kept(levels[1..]), items))
      && Select(SameGroup(levels[1..], ItemRow(levels[0])(row)), leaves)
         == Select(Both(SameGroup(levels[1..], ItemRow(levels[0])(row)), Kept(levels[1..])), items)
    ensures Select(SameGroup(levels, row), Map(WithParents(Fields(first, levels[0].fields)), leaves))
         == Select(Both(SameGroup(levels, row), Kept(levels)), rows)
  {
    hide *;
    GroupItemsAre(levels[0], rows, first);
    var item, restore := ItemRow(levels[0]), WithParents(Fields(first, levels[0].fields));
    var members := Members(LevelShape(levels[0]), rows, first);
    var inner := SameGroup(levels[1..], item(row));
    var kept := Select(Composed(Both(inner, Kept(levels[1..])), item), members);
    LevelMembers(levels[0], rows, first);
    LeavesRestore(levels, rows, first, leaves, row);
    SelectMap(SameGroup(levels, row), restore, leaves);
    SelectAgree(Composed(SameGroup(levels, row), restore), inner, leaves);
    SelectMap(Both(inner, Kept(levels[1..])), item, members);
    SelectMembers(Composed(Both(inner, Kept(levels[1..])), item), members);
    RestoresRows(levels[0], rows, first, kept);
    ClassInTwoSteps(levels, rows, row, first);
  }

  /** Nested grouping keeps the order of rows that share all their group fields. */
  lemma {:induction false} NestingKeepsOrder(levels: seq<Level>, rows: seq<Row>, total: Option<nat>, row: Row)
    requires Nestable(levels, rows) && AllShown(levels, rows) && PrintsApart(rows)
    ensures Select(SameGroup(levels, row), Ungroup(Nested(levels, rows, total)))
         == Select(Both(SameGroup(levels, row), Kept(levels)), rows)
    decreases |levels|
  {
    hide *;
    if |levels| == 0 {
      NothingNestedOrder(levels, rows, total, row);
    } else {
      var tree, firsts := Nested(levels, rows, total), Firsts(LevelShape(levels[0]), rows);
      NestableRows(levels, rows);
      NodesOf(levels, rows, total);
      forall i | 0 <= i < |firsts|
        ensures !SharesKey(levels[0].fields, row)(firsts[i]) ==> Select(SameGroup(levels, row), UngroupNode()(tree.nodes[i])) == []
        ensures SharesKey(levels[0].fields, row)(firsts[i]) ==>
                  Select(SameGroup(levels, row), UngroupNode()(tree.nodes[i])) == Select(Both(SameGroup(levels, row), Kept(levels)), rows)
      {
        var shown := Shown(levels[0], rows, firsts[i]);
        ChildOf(levels, rows, i);
        AllShownBelow(levels, rows);
        ShownBelow(levels, rows, firsts[i], row);
        NestingKeepsRows(levels[1..], shown, None);
        NestingKeepsOrder(levels[1..], shown, None, ItemRow(levels[0])(row));
        NodeOrder(levels, rows, firsts[i], tree.nodes[i], row);
      }
      NodesInOrder(levels, rows, tree, row);
    }
  }

  /** What a page shows in full, it shows in order. */
  lemma ShownBelow(levels: seq<Level>, rows: seq<Row>, first: Row, row: Row)
    requires |levels| > 0 && GroupShown(levels, rows, first)
    ensures var shown, items := Shown(levels[0], rows, first), GroupItems(levels[0], rows, first);
      var inner := SameGroup(levels[1..], ItemRow(levels[0])(row));
      && AllShown(levels[1..], shown)
      && Select(Kept(levels[1..]), shown) == Select(Kept(levels[1..]), items)
      && Select(Both(inner, Kept(levels[1..])), shown) == Select(Both(inner, Kept(levels[1..])), items)
  {
    var inner := SameGroup(levels[1..], ItemRow(levels[0])(row));
    hide Shown, GroupItems, Kept, SameGroup, ItemRow, Select, AllShown;
    SelectSelect(inner, Kept(levels[1..]), Shown(levels[0], rows, first));
    SelectSelect(inner, Kept(levels[1..]), GroupItems(levels[0], rows, first));
  }

  lemma NothingNestedOrder(levels: seq<Level>, rows: seq<Row>, total: Option<nat>, row: Row)
    requires |levels| == 0
    ensures Select(SameGroup(levels, row), Ungroup(Nested(levels, rows, total)))
         == Select(Both(SameGroup(levels, row), Kept(levels)), rows)
  {
    SelectAll(SameGroup(levels, row), rows, true);
    SelectAll(Both(SameGroup(levels, row), Kept(levels)), rows, true);
  }

  lemma NodeOrder(levels: seq<Level>, rows: seq<Row>, first: Row, n: Node, row: Row)
    requires |levels| > 0 && PrintsApart(rows) && first in rows && IsNodeOf(levels, rows, first, n)
    requires forall r | r in rows :: HasFields(levels[0].fields, r)
    requires var items := GroupItems(levels[0], rows, first);
      var leaves, inner := Ungroup(Nested(levels[1..], Shown(levels[0], rows, first), None)), SameGroup(levels[1..], ItemRow(levels[0])(row));
      && multiset(leaves) == multiset(Select(Kept(levels[1..]), items))
      && Select(inner, leaves) == Select(Both(inner, Kept(levels[1..])), items)
    ensures !SharesKey(levels[0].fields, row)(first) ==> Select(SameGroup(levels, row), UngroupNode()(n)) == []
    ensures SharesKey(levels[0].fields, row)(first) ==>
              Select(SameGroup(levels, row), UngroupNode()(n)) == Select(Both(SameGroup(levels, row), Kept(levels)), rows)
  {
    assert UngroupNode()(n) == Map(WithParents(Fields(first, levels[0].fields)), Ungroup(n.content));
    assert n.content == Nested(levels[1..], Shown(levels[0], rows, first), None);
    hide *;
    if SharesKey(levels[0].fields, row)(first) {
      NodeKeepsOrder(levels, rows, first, Ungroup(n.content), row);
    } else {
      NodeKeepsRows(levels, rows, first, Ungroup(n.content));
      NodeRowsShareKey(levels, rows, first, UngroupNode()(n), row);
    }
  }

  /** No group has the row's key: nothing is in its class. */
  lemma NoGroupForRow(levels: seq<Level>, rows: seq<Row>, row: Row)
    requires |levels| > 0
    requires var firsts := Firsts(LevelShape(levels[0]), rows);
      forall i | 0 <= i < |firsts| :: !SharesKey(levels[0].fields, row)(firsts[i])
    ensures Select(Both(SameGroup(levels, row), Kept(levels)), rows) == []
  {
    var key, firsts := GroupKey(levels[0].fields), Firsts(LevelShape(levels[0]), rows);
    FirstsCover(key, rows);
    forall r | r in rows ensures !SameGroup(levels, row)(r) {
      assert Seen(key, firsts, key(r));
      var f :| f in firsts && key(f) == key(r);
      var i :| 0 <= i < |firsts| && firsts[i] == f;
    }
    SelectAll(Both(SameGroup(levels, row), Kept(levels)), rows, false);
  }

  lemma OneGroupForRow(levels: seq<Level>, rows: seq<Row>, row: Row, at: nat)
    requires |levels| > 0 && at < |Firsts(LevelShape(levels[0]), rows)|
    requires SharesKey(levels[0].fields, row)(Firsts(LevelShape(levels[0]), rows)[at])
    ensures var firsts := Firsts(LevelShape(levels[0]), rows);
      forall i | 0 <= i < |firsts| && i != at :: !SharesKey(levels[0].fields, row)(firsts[i])
  {
    FirstsCover(GroupKey(levels[0].fields), rows);
  }

  lemma UngroupWhole(tree: Tree)
    requires tree.Groups?
    ensures Ungroup(tree) == FlatMap(UngroupNode(), tree.nodes)
  {
    UngroupEach(tree, |tree.nodes|);
    assert tree.nodes[..|tree.nodes|] == tree.nodes;
  }

  lemma NodesInOrder(levels: seq<Level>, rows: seq<Row>, tree: Tree, row: Row)
    requires |levels| > 0 && tree.Groups?
    requires var firsts := Firsts(LevelShape(levels[0]), rows);
      && |tree.nodes| == |firsts|
      && forall i | 0 <= i < |firsts| ::
           && (!SharesKey(levels[0].fields, row)(firsts[i]) ==> Select(SameGroup(levels, row), UngroupNode()(tree.nodes[i])) == [])
           && (SharesKey(levels[0].fields, row)(firsts[i]) ==>
                 Select(SameGroup(levels, row), UngroupNode()(tree.nodes[i])) == Select(Both(SameGroup(levels, row), Kept(levels)), rows))
    ensures Select(SameGroup(levels, row), Ungroup(tree)) == Select(Both(SameGroup(levels, row), Kept(levels)), rows)
  {
    hide *;
    var firsts := Firsts(LevelShape(levels[0]), rows);
    UngroupWhole(tree);
    if at: nat :| at < |firsts| && SharesKey(levels[0].fields, row)(firsts[at]) {
      OneGroupForRow(levels, rows, row, at);
      SelectFlatMapOne(SameGroup(levels, row), UngroupNode(), tree.nodes, at);
    } else {
      NoGroupForRow(levels, rows, row);
      forall n | n in tree.nodes ensures Select(SameGroup(levels, row), UngroupNode()(n)) == [] {
        var i :| 0 <= i < |tree.nodes| && tree.nodes[i] == n;
      }
      SelectFlatMapNone(SameGroup(levels, row), UngroupNode(), tree.nodes);
    }
  }
}
