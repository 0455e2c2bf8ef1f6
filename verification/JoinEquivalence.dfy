/** One join step finds, for every current row, the rows the plain nested-loop join finds: same rows,
    same order.  For a join on one column the exact condition is known. */
module JoinEquivalence {
  import opened Bytes
  import opened Wrappers
  import opened Sorting
  import opened Sequences
  import opened Types
  import opened JoinRows
  import opened JoinLookup
  import opened JoinPipeline

  // ---------- what the step relies on ----------

  /** The lookup value made from a column compares equal to the column it was made from. */
  ghost predicate Findable(c: Comparer, k: Keying, v: Text) {
    CompareValues(c, v, k.normalize(v), None) == Some(Equal)
  }

  /** Rows with the same key cannot be told apart by any row's lookup. */
  ghost predicate LookedUpAlike(c: Comparer, k: Keying, input: JoinInput, rows: seq<FlatRow>) {
    forall r, s, parts | r in Candidates(c, input) && s in Candidates(c, input)
        && TableKey(k, input, r) == TableKey(k, input, s) && HasKey(k, rows, input.join.ExistingSide(), parts)
        && |parts| == |input.join.JoiningFields()| ::
      LooksUp(c, r, input.join.JoiningFields(), parts) == LooksUp(c, s, input.join.JoiningFields(), parts)
  }

  /** No part of a composed key contains the separator. */
  ghost predicate SeparatorsKept(c: Comparer, k: Keying, input: JoinInput, rows: seq<FlatRow>) {
    && SeparatorFree(input.join.JoiningFields())
    && (forall parts | HasKey(k, rows, input.join.ExistingSide(), parts) :: SeparatorFree(parts))
    && (forall r | r in Candidates(c, input) :: SeparatorFree(TableKey(k, input, r)))
  }

  /** Composed keys stand for their parts: a single part always does. */
  ghost predicate KeysApart(c: Comparer, k: Keying, input: JoinInput, rows: seq<FlatRow>) {
    |input.join.conditions| == 1 || SeparatorsKept(c, k, input, rows)
  }

  function RowPrint(input: JoinInput): TableRow -> Text {
    Composed(Fingerprint(input), Flatten(input))
  }

  ghost predicate WellPosed(input: JoinInput) {
    && input.join.Resolved()
    && (forall f | f in input.join.JoiningFields() :: f in input.fields)
  }

  ghost predicate Reliable(c: Comparer, k: Keying, input: JoinInput, rows: seq<FlatRow>) {
    && WellPosed(input)
    && DistinctBy(RowPrint(input), Candidates(c, input))
    && (forall r, f | r in Candidates(c, input) && f in input.join.JoiningFields() :: Findable(c, k, Column(r, f)))
    && (|input.join.conditions| == 1 || (SeparatorsKept(c, k, input, rows) && LookedUpAlike(c, k, input, rows)))
  }

  // ---------- keys of fetched rows ----------

  lemma FetchedKey(k: Keying, input: JoinInput, r: TableRow)
    requires WellPosed(input)
    ensures KeyParts(k, Flatten(input)(r), input.join.JoiningSide()) == Some(TableKey(k, input, r))
  {
    var join, flat := input.join, Flatten(input)(r);
    FlatColumns(join.alias, input.fields, r);
    KeyPartsLength(k, flat, join.JoiningSide());
    forall i | 0 <= i < |join.conditions|
      ensures var q := join.JoiningSide()[i];
        q in flat && k.normalize(flat[q]) == TableKey(k, input, r)[i]
    {
      var s := join.conditions[i];
      assert s in join.conditions;
      assert join.JoiningFields()[i] in join.JoiningFields();
    }
    assert forall q | q in join.JoiningSide() :: q in flat;
    assert KeyParts(k, flat, join.JoiningSide()).value == TableKey(k, input, r);
  }

  lemma KeysCompose(parts: seq<Text>, other: seq<Text>, n: nat)
    requires |parts| == |other| == n
    requires n == 1 || (SeparatorFree(parts) && SeparatorFree(other))
    ensures JoinParts(parts) == JoinParts(other) <==> parts == other
  {
    JoinPartsInjective(parts, other);
  }

  /** A fetched row is under the index key exactly if its key is the row's. */
  lemma IndexedUnder(c: Comparer, k: Keying, input: JoinInput, rows: seq<FlatRow>, parts: seq<Text>, r: TableRow)
    requires WellPosed(input) && KeysApart(c, k, input, rows) && HasKey(k, rows, input.join.ExistingSide(), parts)
    requires |parts| == |input.join.conditions| && r in Candidates(c, input)
    ensures KeyIs(k, input.join.JoiningSide(), JoinParts(parts))(Flatten(input)(r)) <==> HasTableKey(k, input, parts)(r)
  {
    FetchedKey(k, input, r);
    KeysCompose(TableKey(k, input, r), parts, |input.join.conditions|);
  }

  // ---------- which lookups find a row ----------

  lemma DedupeKeysApart(fields: seq<Text>, parts: seq<Text>, other: seq<Text>)
    requires |fields| == |parts| == |other|
    requires |fields| == 1 || (SeparatorFree(fields) && SeparatorFree(parts) && SeparatorFree(other))
    ensures DedupeKey(fields)(parts) == DedupeKey(fields)(other) ==> parts == other
  {
    var x, y := DedupeParts(fields, parts), DedupeParts(fields, other);
    if |fields| != 1 {
      forall i | 0 <= i < |fields| ensures SEPARATOR !in x[i] && SEPARATOR !in y[i] {
        assert fields[i] in fields && parts[i] in parts && other[i] in other;
      }
    }
    JoinPartsInjective(x, y);
    if x == y {
      forall i | 0 <= i < |fields| ensures parts[i] == other[i] {
        assert x[i][|fields[i]| + 1..] == parts[i] && y[i][|fields[i]| + 1..] == other[i];
      }
      assert parts == other;
    }
  }

  /** Every key a current row has is looked up. */
  lemma OwnKeyLookedUp(c: Comparer, k: Keying, input: JoinInput, rows: seq<FlatRow>, parts: seq<Text>)
    requires KeysApart(c, k, input, rows) && HasKey(k, rows, input.join.ExistingSide(), parts)
    ensures |parts| == |input.join.conditions| && parts in DistinctKeysOf(k, rows, input.join)
  {
    var join := input.join;
    var dedupe := DedupeKey(join.JoiningFields());
    KeysMembers(k, rows, join.ExistingSide());
    DedupKeepsOne(dedupe, [], Keys(k, rows, join.ExistingSide()), parts);
    var y :| y in DistinctKeysOf(k, rows, join) && dedupe(y) == dedupe(parts);
    DistinctKeysAreKeys(k, rows, join);
    DedupeKeysApart(join.JoiningFields(), y, parts);
  }

  lemma LookupMeaning(c: Comparer, k: Keying, input: JoinInput, rows: seq<FlatRow>, parts: seq<Text>, r: TableRow)
    requires |parts| == |input.join.conditions|
    ensures RowPasses(c, r, SetFor(input.join.JoiningFields(), input.push)(parts))
       <==> LooksUp(c, r, input.join.JoiningFields(), parts) && RowPasses(c, r, input.push)
  {
    SetForMeaning(c, r, input.join.JoiningFields(), parts, input.push);
  }

  /** A candidate is found by the lookup of its own key. */
  lemma OwnLookupFinds(c: Comparer, k: Keying, input: JoinInput, rows: seq<FlatRow>, r: TableRow)
    requires Reliable(c, k, input, rows) && r in Candidates(c, input)
    ensures LooksUp(c, r, input.join.JoiningFields(), TableKey(k, input, r))
  {
    var fields := input.join.JoiningFields();
    forall i | 0 <= i < |fields|
      ensures CompareValues(c, Column(r, fields[i]), TableKey(k, input, r)[i], None) == Some(Equal)
    {
      assert fields[i] in fields;
      assert Findable(c, k, Column(r, fields[i]));
    }
  }

  function Found(c: Comparer, table: seq<TableRow>): seq<Filter> -> seq<TableRow> {
    (filters: seq<Filter>) => Select(Passing(c, filters), table)
  }

  /** Whatever a lookup finds is a candidate. */
  lemma FoundAreCandidates(c: Comparer, k: Keying, input: JoinInput, rows: seq<FlatRow>, s: seq<Filter>, r: TableRow)
    requires s in Coalesced(LookupSets(k, rows, input.join, input.push)) && RowPasses(c, r, s)
    ensures exists parts :: parts in DistinctKeysOf(k, rows, input.join) && |parts| == |input.join.conditions|
              && LooksUp(c, r, input.join.JoiningFields(), parts)
    ensures RowPasses(c, r, input.push)
  {
    var sets := LookupSets(k, rows, input.join, input.push);
    LookupSetsUniform(k, rows, input.join, input.push);
    CoalesceMeaning(c, r, sets);
    var own :| own in sets && RowPasses(c, r, own);
    LookupSetParts(k, rows, input.join, input.push, own);
    var parts :| parts in DistinctKeysOf(k, rows, input.join) && BuiltFor(input.join, input.push, own, parts);
    LookupMeaning(c, k, input, rows, parts, r);
  }

  lemma OwnSetBuilt(k: Keying, input: JoinInput, rows: seq<FlatRow>, parts: seq<Text>)
    requires parts in DistinctKeysOf(k, rows, input.join)
    ensures SetFor(input.join.JoiningFields(), input.push)(parts) in LookupSets(k, rows, input.join, input.push)
  {
    MapMembers(SetFor(input.join.JoiningFields(), input.push), DistinctKeysOf(k, rows, input.join),
               SetFor(input.join.JoiningFields(), input.push)(parts));
  }

  lemma CandidatesPass(c: Comparer, input: JoinInput)
    ensures forall r :: r in Candidates(c, input) <==> r in input.table && RowPasses(c, r, input.push)
  {
    SelectMembers(Passing(c, input.push), input.table);
    assert forall r :: Passing(c, input.push)(r) == RowPasses(c, r, input.push);
  }

  /** The lookup of a key finds all candidates with that key. */
  lemma SetFindsKey(c: Comparer, k: Keying, input: JoinInput, rows: seq<FlatRow>, parts: seq<Text>, r: TableRow)
    requires Reliable(c, k, input, rows) && HasKey(k, rows, input.join.ExistingSide(), parts)
    requires r in Candidates(c, input) && TableKey(k, input, r) == parts
    ensures PassesSome(c, r, Coalesced(LookupSets(k, rows, input.join, input.push)))
  {
    OwnKeyLookedUp(c, k, input, rows, parts);
    OwnSetBuilt(k, input, rows, parts);
    CandidatesPass(c, input);
    OwnLookupFinds(c, k, input, rows, r);
    hide Reliable, LookupSets, SetFor, Coalesced, LooksUp, Candidates, TableKey;
    LookupMeaning(c, k, input, rows, parts, r);
    LookupSetsUniform(k, rows, input.join, input.push);
    CoalesceMeaning(c, r, LookupSets(k, rows, input.join, input.push));
  }

  /** A lookup built from one key is passed by all candidates of a key, or by none. */
  lemma PassSeparateSet(c: Comparer, k: Keying, input: JoinInput, rows: seq<FlatRow>, s: seq<Filter>, r: TableRow, other: TableRow)
    requires Reliable(c, k, input, rows) && |input.join.conditions| != 1
    requires r in Candidates(c, input) && other in Candidates(c, input)
    requires TableKey(k, input, r) == TableKey(k, input, other)
    requires s in LookupSets(k, rows, input.join, input.push) && RowPasses(c, other, s)
    ensures RowPasses(c, r, s)
  {
    CandidatesPass(c, input);
    assert LookedUpAlike(c, k, input, rows);
    hide Reliable, LookupSets, RowPasses, LooksUp, Candidates, TableKey, KeyParts, Matches;
    LookupSetParts(k, rows, input.join, input.push, s);
    var parts :| parts in DistinctKeysOf(k, rows, input.join) && BuiltFor(input.join, input.push, s, parts);
    DistinctKeysAreKeys(k, rows, input.join);
    LookupMeaning(c, k, input, rows, parts, r);
    LookupMeaning(c, k, input, rows, parts, other);
    assert LooksUp(c, r, input.join.JoiningFields(), parts) == LooksUp(c, other, input.join.JoiningFields(), parts);
  }

  lemma OnlySet(c: Comparer, r: TableRow, sets: seq<seq<Filter>>, s: seq<Filter>)
    requires |sets| <= 1 && s in sets && PassesSome(c, r, sets)
    ensures RowPasses(c, r, s)
  {
  }

  /** Candidates with one key pass a lookup together. */
  lemma PassTogether(c: Comparer, k: Keying, input: JoinInput, rows: seq<FlatRow>, s: seq<Filter>, r: TableRow, other: TableRow)
    requires Reliable(c, k, input, rows) && HasKey(k, rows, input.join.ExistingSide(), TableKey(k, input, r))
    requires r in Candidates(c, input) && other in Candidates(c, input)
    requires TableKey(k, input, r) == TableKey(k, input, other)
    requires s in Coalesced(LookupSets(k, rows, input.join, input.push)) && RowPasses(c, other, s)
    ensures RowPasses(c, r, s)
  {
    hide Reliable, LookupSets, RowPasses, LooksUp, Candidates, TableKey, KeyParts, CoalescedFrom, Coalesced, Matches;
    var sets := LookupSets(k, rows, input.join, input.push);
    LookupSetsUniform(k, rows, input.join, input.push);
    CoalesceMeaning(c, r, sets);
    if |Coalesced(sets)| <= 1 {
      SetFindsKey(c, k, input, rows, TableKey(k, input, r), r);
      OnlySet(c, r, Coalesced(sets), s);
    } else {
      if |input.join.conditions| == 1 {
        SingleConditionCoalesces(k, rows, input.join, input.push);
      }
      PassSeparateSet(c, k, input, rows, s, r, other);
    }
  }

  ghost predicate SomePasses(c: Comparer, k: Keying, input: JoinInput, s: seq<Filter>, parts: seq<Text>) {
    exists r :: r in Candidates(c, input) && HasTableKey(k, input, parts)(r) && RowPasses(c, r, s)
  }

  lemma BatchRow(c: Comparer, k: Keying, input: JoinInput, rows: seq<FlatRow>, s: seq<Filter>, parts: seq<Text>, r: TableRow)
    requires Reliable(c, k, input, rows) && HasKey(k, rows, input.join.ExistingSide(), parts)
    requires s in Coalesced(LookupSets(k, rows, input.join, input.push)) && r in input.table
    ensures var p := HasTableKey(k, input, parts);
      (p(r) && RowPasses(c, r, s)) == ((p(r) && RowPasses(c, r, input.push)) && SomePasses(c, k, input, s, parts))
  {
    CandidatesPass(c, input);
    hide Reliable, LookupSets, Coalesced, RowPasses, LooksUp, TableKey, KeyParts, Candidates, HasKey;
    var p := HasTableKey(k, input, parts);
    if p(r) && RowPasses(c, r, s) {
      FoundAreCandidates(c, k, input, rows, s, r);
    }
    if p(r) && RowPasses(c, r, input.push) && SomePasses(c, k, input, s, parts) {
      var other :| other in Candidates(c, input) && p(other) && RowPasses(c, other, s);
      PassTogether(c, k, input, rows, s, r, other);
    }
  }

  /** A batch holds all candidates with a current row's key, in table order, or none. */
  lemma BatchAllOrNone(c: Comparer, k: Keying, input: JoinInput, rows: seq<FlatRow>, s: seq<Filter>, parts: seq<Text>)
    requires Reliable(c, k, input, rows) && HasKey(k, rows, input.join.ExistingSide(), parts)
    requires s in Coalesced(LookupSets(k, rows, input.join, input.push))
    ensures var p := HasTableKey(k, input, parts);
      Select(p, Found(c, input.table)(s)) == if SomePasses(c, k, input, s, parts) then Select(p, Candidates(c, input)) else []
  {
    var p := HasTableKey(k, input, parts);
    var found, wanted := Both(p, Passing(c, s)), Both(p, Passing(c, input.push));
    SelectSelect(p, Passing(c, s), input.table);
    SelectSelect(p, Passing(c, input.push), input.table);
    assert Candidates(c, input) == Select(Passing(c, input.push), input.table);
    hide Reliable, LookupSets, Coalesced, RowPasses, TableKey, KeyParts, HasKey, Candidates, SomePasses, HasTableKey, Select;
    forall r | r in input.table ensures found(r) == (wanted(r) && SomePasses(c, k, input, s, parts)) {
      BatchRow(c, k, input, rows, s, parts, r);
    }
    SelectAllOrNone(found, wanted, input.table, SomePasses(c, k, input, s, parts));
  }

  // ---------- the whole step ----------

  /** The table rows behind what is fetched. */
  function FetchedRows(c: Comparer, k: Keying, input: JoinInput, rows: seq<FlatRow>): seq<TableRow> {
    DedupAll(RowPrint(input), [], Map(Found(c, input.table), Coalesced(LookupSets(k, rows, input.join, input.push))))
  }

  lemma FetchedFlat(c: Comparer, k: Keying, input: JoinInput, rows: seq<FlatRow>)
    requires |input.join.conditions| > 0
    ensures Fetched(c, k, input, rows) == Map(Flatten(input), FetchedRows(c, k, input, rows))
  {
    hide LookupSets, Coalesced, DedupAll, Flatten, Fingerprint;
    var sets := Coalesced(LookupSets(k, rows, input.join, input.push));
    var batches := Map(Found(c, input.table), sets);
    assert Map(Batch(c, input), sets) == Map(MapEach(Flatten(input)), batches);
    DedupAllMap(Fingerprint(input), Flatten(input), [], batches);
  }

  /** Some current row's key looks the table row up. */
  ghost predicate LookedUp(c: Comparer, k: Keying, input: JoinInput, rows: seq<FlatRow>, r: TableRow) {
    exists parts :: HasKey(k, rows, input.join.ExistingSide(), parts) && |parts| == |input.join.conditions|
      && LooksUp(c, r, input.join.JoiningFields(), parts)
  }

  lemma BatchLookedUp(c: Comparer, k: Keying, input: JoinInput, rows: seq<FlatRow>, b: seq<TableRow>, r: TableRow)
    requires b in Map(Found(c, input.table), Coalesced(LookupSets(k, rows, input.join, input.push))) && r in b
    ensures r in Candidates(c, input) && LookedUp(c, k, input, rows, r)
  {
    hide LookupSets, Coalesced, RowPasses, LooksUp, KeyParts, HasKey, Candidates;
    var sets := Coalesced(LookupSets(k, rows, input.join, input.push));
    MapMembers(Found(c, input.table), sets, b);
    var s :| s in sets && Found(c, input.table)(s) == b;
    SelectMembers(Passing(c, s), input.table);
    CandidatesPass(c, input);
    assert Passing(c, s)(r);
    FoundAreCandidates(c, k, input, rows, s, r);
    DistinctKeysAreKeys(k, rows, input.join);
  }

  /** Only candidates that some current row looks up are fetched. */
  lemma FetchedAreCandidates(c: Comparer, k: Keying, input: JoinInput, rows: seq<FlatRow>)
    ensures forall r | r in FetchedRows(c, k, input, rows) :: r in Candidates(c, input) && LookedUp(c, k, input, rows, r)
  {
    hide LookupSets, Coalesced, Candidates, LookedUp;
    var batches := Map(Found(c, input.table), Coalesced(LookupSets(k, rows, input.join, input.push)));
    forall r | r in FetchedRows(c, k, input, rows) ensures r in Candidates(c, input) && LookedUp(c, k, input, rows, r) {
      DedupAllMembers(RowPrint(input), [], batches, r);
      var b :| b in batches && r in b;
      BatchLookedUp(c, k, input, rows, b, r);
    }
  }

  /** Some lookup passes the candidates with a current row's key, if there are any. */
  lemma SomeBatchWhole(c: Comparer, k: Keying, input: JoinInput, rows: seq<FlatRow>, parts: seq<Text>)
    requires Reliable(c, k, input, rows) && HasKey(k, rows, input.join.ExistingSide(), parts)
    requires Select(HasTableKey(k, input, parts), Candidates(c, input)) != []
    ensures exists s :: s in Coalesced(LookupSets(k, rows, input.join, input.push)) && SomePasses(c, k, input, s, parts)
  {
    hide Reliable, LookupSets, Coalesced, RowPasses, LooksUp, KeyParts, Candidates;
    var p := HasTableKey(k, input, parts);
    var whole := Select(p, Candidates(c, input));
    SelectMembers(p, Candidates(c, input));
    var r := whole[0];
    assert r in whole && p(r);
    SetFindsKey(c, k, input, rows, parts, r);
    var s :| s in Coalesced(LookupSets(k, rows, input.join, input.push)) && RowPasses(c, r, s);
    assert SomePasses(c, k, input, s, parts);
  }

  lemma ReliableDistinct(c: Comparer, k: Keying, input: JoinInput, rows: seq<FlatRow>)
    requires Reliable(c, k, input, rows)
    ensures DistinctBy(RowPrint(input), Candidates(c, input))
  {
  }

  lemma NothingSelected<A>(p: A -> bool)
    ensures Select(p, []) == []
  {
  }

  /** Fetching keeps, for every current row's key, all candidates with that key in table order. */
  lemma FetchedOfKey(c: Comparer, k: Keying, input: JoinInput, rows: seq<FlatRow>, parts: seq<Text>)
    requires Reliable(c, k, input, rows) && HasKey(k, rows, input.join.ExistingSide(), parts)
    ensures Select(HasTableKey(k, input, parts), FetchedRows(c, k, input, rows))
         == Select(HasTableKey(k, input, parts), Candidates(c, input))
  {
    var p, universe := HasTableKey(k, input, parts), Candidates(c, input);
    var sets := Coalesced(LookupSets(k, rows, input.join, input.push));
    var batches := Map(Found(c, input.table), sets);
    var whole := Select(p, universe);
    hide *;
    FetchedUnfolds(c, k, input, rows);
    ReliableDistinct(c, k, input, rows);
    NothingSelected(p);
    SelectDistinct(RowPrint(input), p, universe);
    DistinctDecides(RowPrint(input), p, universe);
    forall b | b in batches
      ensures forall r | r in b :: r in universe
      ensures Select(p, b) == [] || Select(p, b) == whole
    {
      forall r | r in b ensures r in universe {
        BatchLookedUp(c, k, input, rows, b, r);
      }
      MapMembers(Found(c, input.table), sets, b);
      var s :| s in sets && Found(c, input.table)(s) == b;
      BatchAllOrNone(c, k, input, rows, s, parts);
    }
    DedupKeepsClass(RowPrint(input), p, universe, whole, [], batches);
    if whole != [] {
      SomeBatchWhole(c, k, input, rows, parts);
      var s :| s in sets && SomePasses(c, k, input, s, parts);
      BatchAllOrNone(c, k, input, rows, s, parts);
      MapMembers(Found(c, input.table), sets, Found(c, input.table)(s));
      assert Found(c, input.table)(s) in batches;
    }
  }

  /** The index key of a current row finds the fetched rows that have the row's key. */
  lemma FetchedWithKey(c: Comparer, k: Keying, input: JoinInput, rows: seq<FlatRow>, parts: seq<Text>)
    requires WellPosed(input) && KeysApart(c, k, input, rows) && HasKey(k, rows, input.join.ExistingSide(), parts)
    requires |parts| == |input.join.conditions| > 0
    ensures Select(KeyIs(k, input.join.JoiningSide(), JoinParts(parts)), Fetched(c, k, input, rows))
         == Map(Flatten(input), Select(HasTableKey(k, input, parts), FetchedRows(c, k, input, rows)))
  {
    hide *;
    var own, p := KeyIs(k, input.join.JoiningSide(), JoinParts(parts)), HasTableKey(k, input, parts);
    FetchedFlat(c, k, input, rows);
    SelectMap(own, Flatten(input), FetchedRows(c, k, input, rows));
    FetchedKeyed(c, k, input, rows, parts);
    SelectAgree(Composed(own, Flatten(input)), p, FetchedRows(c, k, input, rows));
  }

  lemma FetchedKeyed(c: Comparer, k: Keying, input: JoinInput, rows: seq<FlatRow>, parts: seq<Text>)
    requires WellPosed(input) && KeysApart(c, k, input, rows) && HasKey(k, rows, input.join.ExistingSide(), parts)
    requires |parts| == |input.join.conditions|
    ensures forall r | r in FetchedRows(c, k, input, rows) ::
              Composed(KeyIs(k, input.join.JoiningSide(), JoinParts(parts)), Flatten(input))(r) == HasTableKey(k, input, parts)(r)
  {
    hide *;
    FetchedAreCandidates(c, k, input, rows);
    forall r | r in FetchedRows(c, k, input, rows)
      ensures Composed(KeyIs(k, input.join.JoiningSide(), JoinParts(parts)), Flatten(input))(r) == HasTableKey(k, input, parts)(r)
    {
      IndexedUnder(c, k, input, rows, parts, r);
      ComposedAt(KeyIs(k, input.join.JoiningSide(), JoinParts(parts)), Flatten(input), r);
    }
  }

  lemma ComposedAt<A, B, C>(g: B -> C, f: A -> B, x: A)
    ensures Composed(g, f)(x) == g(f(x))
  {
  }

  /** The fetched rows under a current row's key are the candidates with that key. */
  lemma FetchedUnderKey(c: Comparer, k: Keying, input: JoinInput, rows: seq<FlatRow>, parts: seq<Text>)
    requires Reliable(c, k, input, rows) && HasKey(k, rows, input.join.ExistingSide(), parts)
    requires |parts| == |input.join.conditions| > 0
    ensures Select(KeyIs(k, input.join.JoiningSide(), JoinParts(parts)), Fetched(c, k, input, rows))
         == Map(Flatten(input), Select(HasTableKey(k, input, parts), Candidates(c, input)))
  {
    assert WellPosed(input) && KeysApart(c, k, input, rows);
    hide *;
    FetchedWithKey(c, k, input, rows, parts);
    FetchedOfKey(c, k, input, rows, parts);
  }

  lemma IndexReads(k: Keying, join: ResolvedJoin, index: JoinIndex, fetched: seq<FlatRow>, row: FlatRow)
    requires Indexes(index, k, fetched, join.JoiningSide())
    ensures var parts := KeyParts(k, row, join.ExistingSide());
      IndexMatches(k, join, index, row)
        == if parts.None? then [] else Select(KeyIs(k, join.JoiningSide(), JoinParts(parts.value)), fetched)
  {
    hide KeyParts, KeyIs, Select;
  }

  lemma NestedReads(c: Comparer, k: Keying, input: JoinInput, row: FlatRow)
    ensures var parts := KeyParts(k, row, input.join.ExistingSide());
      NestedMatches(c, k, input, row)
        == if parts.None? then [] else Map(Flatten(input), Select(HasTableKey(k, input, parts.value), Candidates(c, input)))
  {
  }

  /** The index finds, for every current row, what scanning the whole table finds. */
  lemma IndexFindsMatches(c: Comparer, k: Keying, input: JoinInput, rows: seq<FlatRow>, index: JoinIndex, row: FlatRow)
    requires Reliable(c, k, input, rows) && row in rows
    requires Indexes(index, k, Fetched(c, k, input, rows), input.join.JoiningSide())
    ensures IndexMatches(k, input.join, index, row) == NestedMatches(c, k, input, row)
  {
    assert |input.join.conditions| > 0;
    NestedReads(c, k, input, row);
    hide Reliable, Fetched, Candidates, Flatten, KeyIs, HasTableKey, KeyParts, NestedMatches, IndexMatches, Select, Map, Indexes;
    KeyPartsLength(k, row, input.join.ExistingSide());
    IndexReads(k, input.join, index, Fetched(c, k, input, rows), row);
    var found := KeyParts(k, row, input.join.ExistingSide());
    if found.Some? {
      assert HasKey(k, rows, input.join.ExistingSide(), found.value);
      FetchedUnderKey(c, k, input, rows, found.value);
    }
  }

  /** One join step is the nested-loop join. */
  lemma StepIsNestedJoin(c: Comparer, k: Keying, input: JoinInput, rows: seq<FlatRow>, index: JoinIndex)
    requires Reliable(c, k, input, rows)
    requires Indexes(index, k, Fetched(c, k, input, rows), input.join.JoiningSide())
    ensures FlatMap(IndexJoin(k, input.join, index), rows) == FlatMap(NestedJoin(c, k, input), rows)
  {
    hide Reliable, Indexes, Fetched, IndexMatches, NestedMatches, JoinRow;
    forall row | row in rows ensures IndexJoin(k, input.join, index)(row) == NestedJoin(c, k, input)(row) {
      IndexFindsMatches(c, k, input, rows, index, row);
    }
    FlatMapAgree(IndexJoin(k, input.join, index), NestedJoin(c, k, input), rows);
  }

  /** Fetches, indexes and merges for one join. */
  method JoinStep(c: Comparer, k: Keying, input: JoinInput, rows: seq<FlatRow>) returns (joined: Result<seq<FlatRow>, JoinError>)
    ensures Reliable(c, k, input, rows) ==> joined == Capped(FlatMap(NestedJoin(c, k, input), rows))
  {
    hide Reliable, Fetched, NestedJoin, IndexJoin, Indexes, Capped;
    var fetched := FetchJoinRows(c, k, input, rows);
    var index := BuildJoinIndex(k, fetched, input.join.JoiningSide());
    joined := ApplyJoin(k, rows, input.join, index);
    if Reliable(c, k, input, rows) {
      StepIsNestedJoin(c, k, input, rows, index);
    }
  }

  // ---------- what a nested-loop join is ----------

  /** The table row passes the pushed-down filters and agrees with the current row on every condition,
      once both values are normalised. */
  predicate IsMatch(c: Comparer, k: Keying, input: JoinInput, row: FlatRow, r: TableRow) {
    RowPasses(c, r, input.push) && SameKey(k, input.join, row, r)
  }

  predicate SameKey(k: Keying, join: ResolvedJoin, row: FlatRow, r: TableRow) {
    forall s | s in join.conditions ::
      s.existing.qualified in row && k.normalize(Column(r, s.joining.field)) == k.normalize(row[s.existing.qualified])
  }

  function IsMatchOf(c: Comparer, k: Keying, input: JoinInput, row: FlatRow): TableRow -> bool {
    (r: TableRow) => IsMatch(c, k, input, row, r)
  }

  lemma KeysAgree(k: Keying, input: JoinInput, row: FlatRow, r: TableRow)
    ensures KeyParts(k, row, input.join.ExistingSide()) == Some(TableKey(k, input, r)) <==> SameKey(k, input.join, row, r)
  {
    var join := input.join;
    var existing, fields := join.ExistingSide(), join.JoiningFields();
    KeyPartsLength(k, row, existing);
    assert forall i | 0 <= i < |join.conditions| :: TableKey(k, input, r)[i] == k.normalize(Column(r, fields[i])) by {
      forall i | 0 <= i < |join.conditions| ensures TableKey(k, input, r)[i] == k.normalize(Column(r, fields[i])) {
        assert TableKey(k, input, r)[i] == NormalizedColumn(k, r)(fields[i]);
      }
    }
    hide TableKey, KeyParts;
    if SameKey(k, join, row, r) {
      forall q | q in existing ensures q in row {
        var i :| 0 <= i < |existing| && existing[i] == q;
        assert join.conditions[i] in join.conditions;
      }
      forall i | 0 <= i < |existing| ensures KeyParts(k, row, existing).value[i] == TableKey(k, input, r)[i] {
        assert join.conditions[i] in join.conditions;
      }
      assert KeyParts(k, row, existing).value == TableKey(k, input, r);
    }
    if KeyParts(k, row, existing) == Some(TableKey(k, input, r)) {
      forall s | s in join.conditions
        ensures s.existing.qualified in row && k.normalize(Column(r, s.joining.field)) == k.normalize(row[s.existing.qualified])
      {
        var i :| 0 <= i < |join.conditions| && join.conditions[i] == s;
        assert existing[i] in existing;
      }
    }
  }

  ghost predicate IsFetched(input: JoinInput, q: Text) {
    exists f | f in input.fields :: q == Qualify(input.join.alias, f)
  }

  /** The current row with the fetched fields of the table row, all other columns unchanged. */
  ghost predicate ShowsMatch(input: JoinInput, row: FlatRow, r: TableRow, out: FlatRow) {
    && (forall q :: q in out <==> q in row || IsFetched(input, q))
    && (forall f | f in input.fields :: out[Qualify(input.join.alias, f)] == Column(r, f))
    && (forall q | q in row && !IsFetched(input, q) :: out[q] == row[q])
  }

  lemma NestedFound(c: Comparer, k: Keying, input: JoinInput, row: FlatRow)
    ensures NestedMatches(c, k, input, row) == Map(Flatten(input), Select(IsMatchOf(c, k, input, row), input.table))
  {
    var found := KeyParts(k, row, input.join.ExistingSide());
    var whole, passing := IsMatchOf(c, k, input, row), Passing(c, input.push);
    NestedReads(c, k, input, row);
    assert Candidates(c, input) == Select(passing, input.table);
    forall r ensures whole(r) == (passing(r) && found == Some(TableKey(k, input, r))) {
      KeysAgree(k, input, row, r);
    }
    hide KeyParts, TableKey, NestedMatches, RowPasses, Candidates, Flatten, Select, IsMatch;
    if found.Some? {
      var key := HasTableKey(k, input, found.value);
      SelectSelect(key, passing, input.table);
      SelectAgree(Both(key, passing), whole, input.table);
    } else {
      SelectAll(whole, input.table, false);
    }
  }

  lemma ExtendsShows(input: JoinInput, row: FlatRow, r: TableRow, out: FlatRow)
    requires Extends(row, Flatten(input)(r), out)
    ensures ShowsMatch(input, row, r, out)
  {
    FlatColumns(input.join.alias, input.fields, r);
    hide Flat;
  }

  /** A plain nested-loop join gives, for every matching row of the table in order, the current row with
      the fetched fields of that row; without a match the row itself if the join is LEFT, else nothing. */
  lemma NestedJoinRows(c: Comparer, k: Keying, input: JoinInput, row: FlatRow)
    requires !input.join.Aggregates()
    ensures var found, out := Select(IsMatchOf(c, k, input, row), input.table), NestedJoin(c, k, input)(row);
      if found == [] then out == (if input.join.kind == Left then [row] else [])
      else |out| == |found| && forall i | 0 <= i < |found| :: ShowsMatch(input, row, found[i], out[i])
  {
    var found, out := Select(IsMatchOf(c, k, input, row), input.table), NestedJoin(c, k, input)(row);
    var matches := NestedMatches(c, k, input, row);
    NestedFound(c, k, input, row);
    JoinRowMeans(k, input.join, row, matches);
    hide NestedMatches, JoinRow, Flatten, Select, Extends, ShowsMatch;
    assert Expands(input.join.kind, row, matches, out);
    forall i | 0 <= i < |found| ensures |out| == |found| && ShowsMatch(input, row, found[i], out[i]) {
      assert matches[i] == Flatten(input)(found[i]);
      ExtendsShows(input, row, found[i], out[i]);
    }
  }

  /** An aggregate join keeps every matched row, and every row if it is LEFT, once, with the number of
      matching table rows and the sum over their field. */
  lemma NestedAggregate(c: Comparer, k: Keying, input: JoinInput, row: FlatRow)
    requires input.join.Aggregates() && (input.join.sumField.Some? ==> input.join.sumField.value in input.fields)
    ensures var join, found, out := input.join, Select(IsMatchOf(c, k, input, row), input.table), NestedJoin(c, k, input)(row);
      if found == [] && join.kind == Inner then out == []
      else
        && |out| == 1
        && (forall q :: q in out[0] <==> q in row || IsCount(join, q) || IsSum(join, q))
        && (forall q | q in row && !IsCount(join, q) && !IsSum(join, q) :: out[0][q] == row[q])
        && (forall q | q in out[0] && IsCount(join, q) && !IsSum(join, q) :: out[0][q] == k.countText(|found|))
        && (forall q | q in out[0] && IsSum(join, q) :: out[0][q] == k.sumText(Map(ColumnOf(join.sumField.value), found)))
  {
    var join, found, out := input.join, Select(IsMatchOf(c, k, input, row), input.table), NestedJoin(c, k, input)(row);
    var matches := NestedMatches(c, k, input, row);
    NestedFound(c, k, input, row);
    JoinRowMeans(k, join, row, matches);
    if join.sumField.Some? {
      SummedCells(input, found, join.sumField.value);
    }
    hide NestedMatches, JoinRow, Flatten, Select, IsMatch;
    assert |found| == |matches|;
  }

  lemma SummedCells(input: JoinInput, found: seq<TableRow>, field: Text)
    requires field in input.fields
    ensures var q, matches := Qualify(input.join.alias, field), Map(Flatten(input), found);
      Map((m: FlatRow) => if q in m then m[q] else [], Select((m: FlatRow) => q in m, matches)) == Map(ColumnOf(field), found)
  {
    var q, matches := Qualify(input.join.alias, field), Map(Flatten(input), found);
    forall i | 0 <= i < |found| ensures q in matches[i] && matches[i][q] == Column(found[i], field) {
      FlatColumns(input.join.alias, input.fields, found[i]);
    }
    forall m | m in matches ensures q in m {
      var i :| 0 <= i < |matches| && matches[i] == m;
    }
    SelectAll((m: FlatRow) => q in m, matches, true);
  }

  // ---------- fingerprints ----------

  ghost predicate PlainCells(input: JoinInput, r: TableRow) {
    forall f | f in input.fields :: SEPARATOR !in f && SEPARATOR !in Column(r, f)
  }

  ghost predicate SameCells(input: JoinInput, r: TableRow, s: TableRow) {
    forall f | f in input.fields :: Column(r, f) == Column(s, f)
  }

  lemma {:induction false} PrintParts(columns: seq<Text>, row: FlatRow)
    requires forall q | q in columns :: q in row
    ensures |FingerprintParts(columns, row)| == |columns|
    ensures forall i | 0 <= i < |columns| :: FingerprintParts(columns, row)[i] == columns[i] + [EQUALS] + row[columns[i]]
  {
    if |columns| != 0 {
      PrintParts(columns[1..], row);
    }
  }

  lemma RowPrintParts(input: JoinInput, r: TableRow)
    ensures var columns, flat := FetchedColumns(input), Flatten(input)(r);
      && (forall q | q in columns :: q in flat)
      && RowPrint(input)(r) == JoinParts(FingerprintParts(columns, flat))
      && forall i | 0 <= i < |columns| :: flat[columns[i]] == Column(r, input.fields[i])
  {
    var columns, flat := FetchedColumns(input), Flatten(input)(r);
    FlatColumns(input.join.alias, input.fields, r);
    forall i | 0 <= i < |columns| ensures columns[i] in flat && flat[columns[i]] == Column(r, input.fields[i]) {
      assert input.fields[i] in input.fields;
    }
  }

  /** Fingerprints tell exactly the rows apart that differ in a fetched column, as long as no cell
      contains the separator; with a single column there is nothing to separate. */
  lemma FingerprintsTellApart(input: JoinInput, r: TableRow, s: TableRow)
    requires |input.fields| == 1 || (SEPARATOR !in input.join.alias && PlainCells(input, r) && PlainCells(input, s))
    ensures RowPrint(input)(r) == RowPrint(input)(s) <==> SameCells(input, r, s)
  {
    RowPrintParts(input, r);
    RowPrintParts(input, s);
    hide Flat, RowPrint, JoinParts;
    var columns, fields := FetchedColumns(input), input.fields;
    var x, y := FingerprintParts(columns, Flatten(input)(r)), FingerprintParts(columns, Flatten(input)(s));
    PrintParts(columns, Flatten(input)(r));
    PrintParts(columns, Flatten(input)(s));
    forall i | 0 <= i < |fields|
      ensures x[i] == y[i] <==> Column(r, fields[i]) == Column(s, fields[i])
      ensures |fields| == 1 || (SEPARATOR !in x[i] && SEPARATOR !in y[i])
    {
      assert fields[i] in fields;
      var prefix := columns[i] + [EQUALS];
      assert (prefix + Column(r, fields[i]))[|prefix|..] == Column(r, fields[i]);
      assert (prefix + Column(s, fields[i]))[|prefix|..] == Column(s, fields[i]);
    }
    JoinPartsInjective(x, y);
    if x == y {
      forall f | f in fields ensures Column(r, f) == Column(s, f) {
        var i :| 0 <= i < |fields| && fields[i] == f;
        assert x[i] == y[i];
      }
    }
    if SameCells(input, r, s) {
      forall i | 0 <= i < |fields| ensures x[i] == y[i] {
        assert fields[i] in fields;
      }
      assert x == y;
    }
  }

  function ColumnOf(field: Text): TableRow -> Text {
    (r: TableRow) => Column(r, field)
  }

  /** A fetched primary key without repetitions keeps de-duplication from dropping rows. */
  lemma DistinctCellsDistinctPrints(c: Comparer, input: JoinInput, key: Text)
    requires key in input.fields && DistinctBy(ColumnOf(key), Candidates(c, input))
    requires |input.fields| == 1
          || (SEPARATOR !in input.join.alias && forall r | r in Candidates(c, input) :: PlainCells(input, r))
    ensures DistinctBy(RowPrint(input), Candidates(c, input))
  {
    var rows := Candidates(c, input);
    hide RowPrint, Candidates, PlainCells, SameCells;
    forall i, j | 0 <= i < j < |rows| ensures RowPrint(input)(rows[i]) != RowPrint(input)(rows[j]) {
      assert rows[i] in rows && rows[j] in rows;
      FingerprintsTellApart(input, rows[i], rows[j]);
      CellsDiffer(input, rows[i], rows[j], key);
    }
  }

  lemma CellsDiffer(input: JoinInput, r: TableRow, s: TableRow, key: Text)
    requires key in input.fields && Column(r, key) != Column(s, key)
    ensures !SameCells(input, r, s)
  {
  }

  // ---------- plain text keys ----------

  /** Every joining cell of a candidate is its own normal form and compares equal to itself. */
  ghost predicate PlainKeys(c: Comparer, k: Keying, input: JoinInput) {
    forall r, f | r in Candidates(c, input) && f in input.join.JoiningFields() ::
      k.normalize(Column(r, f)) == Column(r, f) && Findable(c, k, Column(r, f))
  }

  lemma SameKeySameColumns(c: Comparer, k: Keying, input: JoinInput, r: TableRow, s: TableRow, f: Text)
    requires PlainKeys(c, k, input) && r in Candidates(c, input) && s in Candidates(c, input)
    requires TableKey(k, input, r) == TableKey(k, input, s) && f in input.join.JoiningFields()
    ensures Column(r, f) == Column(s, f)
  {
    var fields := input.join.JoiningFields();
    var i :| 0 <= i < |fields| && fields[i] == f;
    assert TableKey(k, input, r)[i] == NormalizedColumn(k, r)(f) && TableKey(k, input, s)[i] == NormalizedColumn(k, s)(f);
  }

  lemma PlainTableKey(c: Comparer, k: Keying, input: JoinInput, r: TableRow)
    requires WellPosed(input) && PlainKeys(c, k, input) && r in Candidates(c, input) && PlainCells(input, r)
    ensures SeparatorFree(TableKey(k, input, r))
  {
    hide Candidates, Findable;
    var fields := input.join.JoiningFields();
    forall i | 0 <= i < |fields| ensures SEPARATOR !in TableKey(k, input, r)[i] {
      assert fields[i] in fields;
      assert TableKey(k, input, r)[i] == NormalizedColumn(k, r)(fields[i]);
    }
  }

  lemma SameKeyLookedUpAlike(c: Comparer, k: Keying, input: JoinInput, rows: seq<FlatRow>)
    requires PlainKeys(c, k, input)
    ensures LookedUpAlike(c, k, input, rows)
  {
    var fields := input.join.JoiningFields();
    hide CompareValues, Candidates, TableKey, HasKey, PlainKeys;
    forall r, s, parts | r in Candidates(c, input) && s in Candidates(c, input)
        && TableKey(k, input, r) == TableKey(k, input, s) && |parts| == |fields|
      ensures LooksUp(c, r, fields, parts) == LooksUp(c, s, fields, parts)
    {
      forall i | 0 <= i < |fields| ensures Column(r, fields[i]) == Column(s, fields[i]) {
        SameKeySameColumns(c, k, input, r, s, fields[i]);
      }
    }
  }

  /** With joining cells in normal form a step is reliable as soon as the table has a fetched primary
      key and nothing contains the separator. */
  lemma PlainKeysReliable(c: Comparer, k: Keying, input: JoinInput, rows: seq<FlatRow>, key: Text)
    requires WellPosed(input) && PlainKeys(c, k, input)
    requires key in input.fields && DistinctBy(ColumnOf(key), Candidates(c, input))
    requires SEPARATOR !in input.join.alias && forall f | f in input.fields :: SEPARATOR !in f
    requires forall r | r in Candidates(c, input) :: PlainCells(input, r)
    requires forall parts | HasKey(k, rows, input.join.ExistingSide(), parts) :: SeparatorFree(parts)
    ensures Reliable(c, k, input, rows)
  {
    PlainFields(input);
    hide *;
    DistinctCellsDistinctPrints(c, input, key);
    SameKeyLookedUpAlike(c, k, input, rows);
    forall r | r in Candidates(c, input) ensures SeparatorFree(TableKey(k, input, r)) {
      PlainTableKey(c, k, input, r);
    }
    ReliableParts(c, k, input, rows);
  }

  lemma PlainFields(input: JoinInput)
    requires WellPosed(input) && forall f | f in input.fields :: SEPARATOR !in f
    ensures SeparatorFree(input.join.JoiningFields())
  {
    assert forall f | f in input.join.JoiningFields() :: f in input.fields;
  }

  lemma ReliableParts(c: Comparer, k: Keying, input: JoinInput, rows: seq<FlatRow>)
    requires WellPosed(input) && PlainKeys(c, k, input) && DistinctBy(RowPrint(input), Candidates(c, input))
    requires SeparatorFree(input.join.JoiningFields()) && LookedUpAlike(c, k, input, rows)
    requires forall r | r in Candidates(c, input) :: SeparatorFree(TableKey(k, input, r))
    requires forall parts | HasKey(k, rows, input.join.ExistingSide(), parts) :: SeparatorFree(parts)
    ensures Reliable(c, k, input, rows)
  {
    hide WellPosed, DistinctBy, LookedUpAlike, SeparatorFree, Candidates, TableKey, HasKey, Findable, RowPrint;
  }

  /** A value is found by its normal form exactly if, both being numbers, they are the same number,
      or else, both being dates, the same date, or else the same text. */
  lemma FindableIff(c: Comparer, k: Keying, number: Text -> Option<real>, isDate: Text -> bool, v: Text)
    requires ParsesBy(c, number, isDate)
    ensures var n := k.normalize(v);
      Findable(c, k, v) <==>
        if number(v).Some? && number(n).Some? then number(v) == number(n)
        else if isDate(v) && isDate(n) then c.trim(v) == c.trim(n)
        else v == n
  {
    var n := k.normalize(v);
    PlainCompare(c, number, isDate, v, n);
    TextOrderTotal(v, n);
    TextOrderTotal(c.trim(v), c.trim(n));
  }

  // ---------- joins on one column, exactly ----------

  /** The matches read from the fetched rows. */
  function FetchedMatches(c: Comparer, k: Keying, input: JoinInput, rows: seq<FlatRow>, row: FlatRow): seq<FlatRow> {
    match ComposeKey(k, row, input.join.ExistingSide())
    case None => []
    case Some(key) => Select(KeyIs(k, input.join.JoiningSide(), key), Fetched(c, k, input, rows))
  }

  ghost predicate StepExact(c: Comparer, k: Keying, input: JoinInput, rows: seq<FlatRow>) {
    forall row | row in rows :: FetchedMatches(c, k, input, rows, row) == NestedMatches(c, k, input, row)
  }

  ghost function SomeLookup(c: Comparer, k: Keying, input: JoinInput, rows: seq<FlatRow>): TableRow -> bool {
    (r: TableRow) => LookedUp(c, k, input, rows, r)
  }

  /** The lookups together pass what some current row looks up. */
  lemma LookupsTogether(c: Comparer, k: Keying, input: JoinInput, rows: seq<FlatRow>, r: TableRow)
    requires KeysApart(c, k, input, rows)
    ensures PassesSome(c, r, Coalesced(LookupSets(k, rows, input.join, input.push)))
       <==> LookedUp(c, k, input, rows, r) && RowPasses(c, r, input.push)
  {
    hide KeysApart, LookupSets, Coalesced, HasKey, LooksUp, RowPasses, DistinctKeysOf, SetFor;
    if PassesSome(c, r, Coalesced(LookupSets(k, rows, input.join, input.push))) {
      var s :| s in Coalesced(LookupSets(k, rows, input.join, input.push)) && RowPasses(c, r, s);
      FoundAreCandidates(c, k, input, rows, s, r);
      DistinctKeysAreKeys(k, rows, input.join);
    }
    if LookedUp(c, k, input, rows, r) && RowPasses(c, r, input.push) {
      var parts :| HasKey(k, rows, input.join.ExistingSide(), parts) && |parts| == |input.join.conditions|
        && LooksUp(c, r, input.join.JoiningFields(), parts);
      KeyPasses(c, k, input, rows, parts, r);
    }
  }

  /** What a current row's key looks up passes some lookup. */
  lemma KeyPasses(c: Comparer, k: Keying, input: JoinInput, rows: seq<FlatRow>, parts: seq<Text>, r: TableRow)
    requires KeysApart(c, k, input, rows) && HasKey(k, rows, input.join.ExistingSide(), parts)
    requires |parts| == |input.join.conditions| && LooksUp(c, r, input.join.JoiningFields(), parts) && RowPasses(c, r, input.push)
    ensures PassesSome(c, r, Coalesced(LookupSets(k, rows, input.join, input.push)))
  {
    hide KeysApart, LookupSets, SetFor, Coalesced, LooksUp;
    OwnKeyLookedUp(c, k, input, rows, parts);
    OwnSetBuilt(k, input, rows, parts);
    LookupMeaning(c, k, input, rows, parts, r);
    LookupSetsUniform(k, rows, input.join, input.push);
    CoalesceMeaning(c, r, LookupSets(k, rows, input.join, input.push));
  }

  lemma OneBatch<A, K>(key: A -> K, batch: seq<A>)
    requires DistinctBy(key, batch)
    ensures DedupAll(key, [], [batch]) == batch
  {
    assert [] + batch == batch;
    DedupFresh(key, [], batch);
    assert DedupAll(key, [], [batch]) == DedupAll(key, DedupAppend(key, [], batch), [batch][1..]);
  }

  /** A join on one column fetches exactly the candidates that some current row looks up, in order. */
  lemma SingleKeyFetches(c: Comparer, k: Keying, input: JoinInput, rows: seq<FlatRow>)
    requires |input.join.conditions| == 1 && DistinctBy(RowPrint(input), Candidates(c, input))
    ensures FetchedRows(c, k, input, rows) == Select(SomeLookup(c, k, input, rows), Candidates(c, input))
  {
    var sets := Coalesced(LookupSets(k, rows, input.join, input.push));
    var some, passing := SomeLookup(c, k, input, rows), Passing(c, input.push);
    hide *;
    FetchedUnfolds(c, k, input, rows);
    SingleKeyPasses(c, k, input, rows);
    SingleConditionCoalesces(k, rows, input.join, input.push);
    SelectSelect(some, passing, input.table);
    SelectDistinct(RowPrint(input), some, Candidates(c, input));
    OneLookupFetches(c, RowPrint(input), input.table, sets, Both(some, passing));
  }

  lemma FetchedUnfolds(c: Comparer, k: Keying, input: JoinInput, rows: seq<FlatRow>)
    ensures FetchedRows(c, k, input, rows)
         == DedupAll(RowPrint(input), [], Map(Found(c, input.table), Coalesced(LookupSets(k, rows, input.join, input.push))))
    ensures Candidates(c, input) == Select(Passing(c, input.push), input.table)
  {
    hide LookupSets, Coalesced, DedupAll, RowPrint, Select;
  }

  lemma SingleKeyPasses(c: Comparer, k: Keying, input: JoinInput, rows: seq<FlatRow>)
    requires |input.join.conditions| == 1
    ensures forall r :: PassesSome(c, r, Coalesced(LookupSets(k, rows, input.join, input.push)))
                     == Both(SomeLookup(c, k, input, rows), Passing(c, input.push))(r)
  {
    assert KeysApart(c, k, input, rows);
    hide KeysApart, LookupSets, Coalesced, LookedUp, RowPasses, PassesSome;
    forall r ensures PassesSome(c, r, Coalesced(LookupSets(k, rows, input.join, input.push)))
                  == Both(SomeLookup(c, k, input, rows), Passing(c, input.push))(r) {
      LookupsTogether(c, k, input, rows, r);
    }
  }

  /** At most one lookup: what passes it, in order. */
  lemma OneLookupFetches<K>(c: Comparer, key: TableRow -> K, table: seq<TableRow>, sets: seq<seq<Filter>>, passes: TableRow -> bool)
    requires |sets| <= 1 && DistinctBy(key, Select(passes, table))
    requires forall r :: PassesSome(c, r, sets) == passes(r)
    ensures DedupAll(key, [], Map(Found(c, table), sets)) == Select(passes, table)
  {
    hide RowPasses, Select, DedupAll, DistinctBy;
    if sets == [] {
      SelectAll(passes, table, false);
      NothingFetched(key);
    } else {
      assert sets == [sets[0]];
      forall r ensures Passing(c, sets[0])(r) == passes(r) {
        OneSet(c, r, sets[0]);
      }
      SelectAgree(Passing(c, sets[0]), passes, table);
      assert Map(Found(c, table), sets) == [Found(c, table)(sets[0])];
      OneBatch(key, Select(passes, table));
    }
  }

  lemma NothingFetched<A, K>(key: A -> K)
    ensures DedupAll(key, [], []) == []
  {
  }

  lemma OneSet(c: Comparer, r: TableRow, s: seq<Filter>)
    ensures PassesSome(c, r, [s]) <==> RowPasses(c, r, s)
  {
    assert s in [s];
  }

  lemma RowReads(c: Comparer, k: Keying, input: JoinInput, rows: seq<FlatRow>, row: FlatRow)
    requires row in rows
    ensures var found := KeyParts(k, row, input.join.ExistingSide());
      match found
      case None => FetchedMatches(c, k, input, rows, row) == []
      case Some(parts) =>
        && HasKey(k, rows, input.join.ExistingSide(), parts) && |parts| == |input.join.conditions|
        && FetchedMatches(c, k, input, rows, row)
           == Select(KeyIs(k, input.join.JoiningSide(), JoinParts(parts)), Fetched(c, k, input, rows))
  {
    hide KeyParts, KeyIs, Fetched, Select;
    KeyPartsLength(k, row, input.join.ExistingSide());
  }

  /** A current row gets all its matches exactly if each of them is looked up. */
  lemma RowExactIff(c: Comparer, k: Keying, input: JoinInput, rows: seq<FlatRow>, row: FlatRow)
    requires WellPosed(input) && |input.join.conditions| == 1 && DistinctBy(RowPrint(input), Candidates(c, input)) && row in rows
    ensures FetchedMatches(c, k, input, rows, row) == NestedMatches(c, k, input, row) <==>
      forall r | r in Candidates(c, input) && KeyParts(k, row, input.join.ExistingSide()) == Some(TableKey(k, input, r)) ::
        LookedUp(c, k, input, rows, r)
  {
    var found := KeyParts(k, row, input.join.ExistingSide());
    hide *;
    NestedReads(c, k, input, row);
    RowReads(c, k, input, rows, row);
    if found.Some? {
      KeyExactIff(c, k, input, rows, found.value);
      TableKeyIs(k, input, found.value);
    }
  }

  lemma TableKeyIs(k: Keying, input: JoinInput, parts: seq<Text>)
    ensures forall r :: HasTableKey(k, input, parts)(r) <==> parts == TableKey(k, input, r)
  {
    hide TableKey;
  }

  lemma SomeLookupIs(c: Comparer, k: Keying, input: JoinInput, rows: seq<FlatRow>)
    requires |input.join.conditions| == 1
    ensures KeysApart(c, k, input, rows)
    ensures forall r :: SomeLookup(c, k, input, rows)(r) <==> LookedUp(c, k, input, rows, r)
  {
    hide LookedUp;
  }

  /** Under one key all matches are fetched exactly if each of them is looked up. */
  lemma KeyExactIff(c: Comparer, k: Keying, input: JoinInput, rows: seq<FlatRow>, parts: seq<Text>)
    requires WellPosed(input) && |input.join.conditions| == 1 && DistinctBy(RowPrint(input), Candidates(c, input))
    requires HasKey(k, rows, input.join.ExistingSide(), parts) && |parts| == 1
    ensures var fetched := Select(KeyIs(k, input.join.JoiningSide(), JoinParts(parts)), Fetched(c, k, input, rows));
      fetched == Map(Flatten(input), Select(HasTableKey(k, input, parts), Candidates(c, input))) <==>
        forall r | r in Candidates(c, input) && HasTableKey(k, input, parts)(r) :: LookedUp(c, k, input, rows, r)
  {
    hide *;
    var p, some := HasTableKey(k, input, parts), SomeLookup(c, k, input, rows);
    SomeLookupIs(c, k, input, rows);
    FetchedWithKey(c, k, input, rows, parts);
    SingleKeyFetches(c, k, input, rows);
    SelectSelect(p, some, Candidates(c, input));
    MapSelected(Flatten(input), p, some, Candidates(c, input));
  }

  /** Dropping by a second condition cannot be seen exactly if nothing is dropped. */
  lemma MapSelected<A, B>(f: A -> B, p: A -> bool, q: A -> bool, xs: seq<A>)
    ensures Map(f, Select(Both(p, q), xs)) == Map(f, Select(p, xs)) <==> forall x | x in xs && p(x) :: q(x)
  {
    SelectBothShorter(p, q, xs);
    assert |Map(f, Select(Both(p, q), xs))| == |Select(Both(p, q), xs)| && |Map(f, Select(p, xs))| == |Select(p, xs)|;
    if forall x | x in xs && p(x) :: q(x) {
      SelectAgree(Both(p, q), p, xs);
    }
  }

  /** A join on one column finds what the nested-loop join finds exactly if every candidate with a
      current row's key compares equal to the normalised value of some current row. */
  lemma SingleKeyStepExactIff(c: Comparer, k: Keying, input: JoinInput, rows: seq<FlatRow>)
    requires WellPosed(input) && |input.join.conditions| == 1 && DistinctBy(RowPrint(input), Candidates(c, input))
    ensures StepExact(c, k, input, rows) <==>
      forall r | r in Candidates(c, input) && HasKey(k, rows, input.join.ExistingSide(), TableKey(k, input, r)) ::
        LookedUp(c, k, input, rows, r)
  {
    hide Candidates, KeyParts, NestedMatches, FetchedMatches, LookedUp, RowPrint, DistinctBy, WellPosed, TableKey;
    forall row | row in rows
      ensures FetchedMatches(c, k, input, rows, row) == NestedMatches(c, k, input, row) <==>
        forall r | r in Candidates(c, input) && KeyParts(k, row, input.join.ExistingSide()) == Some(TableKey(k, input, r)) ::
          LookedUp(c, k, input, rows, r)
    {
      RowExactIff(c, k, input, rows, row);
    }
  }

  /** What the current rows of a one-column join look up. */
  lemma SingleKeyLookedUp(c: Comparer, k: Keying, input: JoinInput, rows: seq<FlatRow>, r: TableRow)
    requires |input.join.conditions| == 1
    ensures var own := input.join.conditions[0].existing.qualified;
      LookedUp(c, k, input, rows, r) <==>
        exists row :: row in rows && own in row
          && CompareValues(c, Column(r, input.join.conditions[0].joining.field), k.normalize(row[own]), None) == Some(Equal)
  {
    var own, field := input.join.conditions[0].existing.qualified, input.join.conditions[0].joining.field;
    assert input.join.ExistingSide() == [own] && input.join.JoiningFields() == [field];
    hide CompareValues;
    if row :| row in rows && own in row && CompareValues(c, Column(r, field), k.normalize(row[own]), None) == Some(Equal) {
      KeyPartsLength(k, row, [own]);
      var parts := KeyParts(k, row, [own]).value;
      assert parts == [k.normalize(row[own])];
      assert HasKey(k, rows, [own], parts) && LooksUp(c, r, [field], parts);
    }
    if LookedUp(c, k, input, rows, r) {
      var parts :| HasKey(k, rows, [own], parts) && |parts| == 1 && LooksUp(c, r, [field], parts);
      var row :| row in rows && KeyParts(k, row, [own]) == Some(parts);
      KeyPartsLength(k, row, [own]);
    }
  }

  /** One table row and one current row with the same value. */
  function PaddedInput(join: ResolvedJoin, fields: seq<Text>, v: Text): JoinInput
    requires |join.conditions| == 1
  {
    JoinInput(join, fields, [map[join.conditions[0].joining.field := v]], [])
  }

  function PaddedRows(join: ResolvedJoin, v: Text): seq<FlatRow>
    requires |join.conditions| == 1
  {
    [map[join.conditions[0].existing.qualified := v]]
  }

  lemma PaddedOnly(c: Comparer, k: Keying, join: ResolvedJoin, fields: seq<Text>, v: Text)
    requires |join.conditions| == 1
    ensures var input, rows := PaddedInput(join, fields, v), PaddedRows(join, v);
      && Candidates(c, input) == input.table
      && Column(input.table[0], join.conditions[0].joining.field) == v
      && HasKey(k, rows, join.ExistingSide(), TableKey(k, input, input.table[0]))
      && (LookedUp(c, k, input, rows, input.table[0]) <==> Findable(c, k, v))
  {
    var input, rows := PaddedInput(join, fields, v), PaddedRows(join, v);
    var r, field := input.table[0], join.conditions[0].joining.field;
    hide CompareValues;
    SelectAll(Passing(c, []), input.table, true);
    KeyPartsLength(k, rows[0], join.ExistingSide());
    assert KeyParts(k, rows[0], join.ExistingSide()).value == [k.normalize(v)];
    assert join.JoiningFields() == [field] && Column(r, field) == v;
    assert Map(NormalizedColumn(k, r), [field])[0] == NormalizedColumn(k, r)(field);
    assert TableKey(k, input, r) == [k.normalize(v)];
    assert rows[0] in rows;
    SingleKeyLookedUp(c, k, input, rows, r);
  }

  /** A value its own lookup does not find breaks the join of a one-row table. */
  lemma PaddedKeyMissed(c: Comparer, k: Keying, join: ResolvedJoin, fields: seq<Text>, v: Text)
    requires WellPosed(JoinInput(join, fields, [], [])) && |join.conditions| == 1
    ensures DistinctBy(RowPrint(PaddedInput(join, fields, v)), Candidates(c, PaddedInput(join, fields, v)))
    ensures StepExact(c, k, PaddedInput(join, fields, v), PaddedRows(join, v)) <==> Findable(c, k, v)
  {
    var input, rows := PaddedInput(join, fields, v), PaddedRows(join, v);
    assert WellPosed(input);
    PaddedOnly(c, k, join, fields, v);
    assert input.table[0] in input.table;
    hide StepExact, WellPosed, Candidates, LookedUp, HasKey, TableKey, Findable;
    SingleKeyStepExactIff(c, k, input, rows);
  }

  /** Text that starts with a space: its lookup is for the text without it, and misses it. */
  lemma PaddedTextMissed(c: Comparer, k: Keying, number: Text -> Option<real>, isDate: Text -> bool, join: ResolvedJoin, fields: seq<Text>)
    requires WellPosed(JoinInput(join, fields, [], [])) && |join.conditions| == 1
    requires ParsesBy(c, number, isDate) && k.normalize([32, 97, 98, 99]) == [97, 98, 99]
    requires number([32, 97, 98, 99]).None? && !isDate([32, 97, 98, 99])
    ensures !StepExact(c, k, PaddedInput(join, fields, [32, 97, 98, 99]), PaddedRows(join, [32, 97, 98, 99]))
  {
    var padded: Text := [32, 97, 98, 99];
    FindableIff(c, k, number, isDate, padded);
    assert padded[0] != k.normalize(padded)[0];
    hide Findable, StepExact, WellPosed;
    PaddedKeyMissed(c, k, join, fields, padded);
  }

  /** The values a table's candidates are joined by. */
  ghost predicate JoinsBy(c: Comparer, input: JoinInput, values: set<Text>) {
    forall r, f | r in Candidates(c, input) && f in input.join.JoiningFields() :: Column(r, f) in values
  }

  lemma FindableLookedUp(c: Comparer, k: Keying, input: JoinInput, rows: seq<FlatRow>, values: set<Text>, r: TableRow)
    requires |input.join.conditions| == 1 && JoinsBy(c, input, values) && forall v | v in values :: Findable(c, k, v)
    requires r in Candidates(c, input) && HasKey(k, rows, input.join.ExistingSide(), TableKey(k, input, r))
    ensures LookedUp(c, k, input, rows, r)
  {
    var field := input.join.conditions[0].joining.field;
    assert input.join.JoiningFields() == [field];
    hide CompareValues, Candidates, HasKey;
    assert field in input.join.JoiningFields();
    assert TableKey(k, input, r) == [NormalizedColumn(k, r)(field)];
    assert Findable(c, k, Column(r, field));
    assert LooksUp(c, r, [field], TableKey(k, input, r));
  }

  /** Over these values the join is exact, for every table joined by them and all current rows. */
  ghost predicate AlwaysExact(c: Comparer, k: Keying, join: ResolvedJoin, fields: seq<Text>, values: set<Text>) {
    forall table, push, rows | DistinctBy(RowPrint(JoinInput(join, fields, table, push)), Candidates(c, JoinInput(join, fields, table, push)))
        && JoinsBy(c, JoinInput(join, fields, table, push), values) ::
      StepExact(c, k, JoinInput(join, fields, table, push), rows)
  }

  /** Over a set of values a join on one column is always exact exactly if each of the values is found
      by its normal form. */
  lemma SingleKeyExactIff(c: Comparer, k: Keying, join: ResolvedJoin, fields: seq<Text>, values: set<Text>)
    requires |join.conditions| == 1 && WellPosed(JoinInput(join, fields, [], []))
    ensures AlwaysExact(c, k, join, fields, values) <==> forall v | v in values :: Findable(c, k, v)
  {
    hide WellPosed, Findable, AlwaysExact;
    if forall v | v in values :: Findable(c, k, v) {
      SingleKeyAllTables(c, k, join, fields, values);
    } else {
      var v :| v in values && !Findable(c, k, v);
      SingleKeyCounterexample(c, k, join, fields, values, v);
    }
  }

  lemma SingleKeyAllTables(c: Comparer, k: Keying, join: ResolvedJoin, fields: seq<Text>, values: set<Text>)
    requires |join.conditions| == 1 && WellPosed(JoinInput(join, fields, [], [])) && forall v | v in values :: Findable(c, k, v)
    ensures AlwaysExact(c, k, join, fields, values)
  {
    assert forall table, push :: WellPosed(JoinInput(join, fields, table, push));
    hide WellPosed, StepExact, RowPrint, Candidates, Findable, DistinctBy, JoinsBy;
    forall table, push, rows | DistinctBy(RowPrint(JoinInput(join, fields, table, push)), Candidates(c, JoinInput(join, fields, table, push)))
        && JoinsBy(c, JoinInput(join, fields, table, push), values)
      ensures StepExact(c, k, JoinInput(join, fields, table, push), rows)
    {
      SingleKeyAllFound(c, k, JoinInput(join, fields, table, push), rows, values);
    }
  }

  lemma SingleKeyCounterexample(c: Comparer, k: Keying, join: ResolvedJoin, fields: seq<Text>, values: set<Text>, v: Text)
    requires |join.conditions| == 1 && WellPosed(JoinInput(join, fields, [], [])) && v in values && !Findable(c, k, v)
    ensures !AlwaysExact(c, k, join, fields, values)
  {
    hide StepExact, RowPrint, Candidates, Findable, DistinctBy, WellPosed;
    PaddedKeyMissed(c, k, join, fields, v);
    PaddedOnly(c, k, join, fields, v);
    assert join.JoiningFields() == [join.conditions[0].joining.field];
    assert JoinsBy(c, PaddedInput(join, fields, v), values);
  }

  lemma SingleKeyAllFound(c: Comparer, k: Keying, input: JoinInput, rows: seq<FlatRow>, values: set<Text>)
    requires WellPosed(input) && |input.join.conditions| == 1 && DistinctBy(RowPrint(input), Candidates(c, input))
    requires JoinsBy(c, input, values) && forall v | v in values :: Findable(c, k, v)
    ensures StepExact(c, k, input, rows)
  {
    hide *;
    SingleKeyStepExactIff(c, k, input, rows);
    forall r | r in Candidates(c, input) && HasKey(k, rows, input.join.ExistingSide(), TableKey(k, input, r))
      ensures LookedUp(c, k, input, rows, r)
    {
      FindableLookedUp(c, k, input, rows, values, r);
    }
  }

  // ---------- aggregate joins ----------

  function IsKept(c: Comparer, k: Keying, input: JoinInput): FlatRow -> bool {
    (row: FlatRow) => input.join.kind == Left || |NestedMatches(c, k, input, row)| > 0
  }

  function WithAggregates(c: Comparer, k: Keying, input: JoinInput): FlatRow -> FlatRow {
    (row: FlatRow) => row + SyntheticColumns(k, input.join, NestedMatches(c, k, input, row))
  }

  /** An aggregate join gives one row per matched current row (every row, for a LEFT join), in order. */
  lemma {:induction false} AggregateForm(c: Comparer, k: Keying, input: JoinInput, rows: seq<FlatRow>)
    requires input.join.Aggregates()
    ensures FlatMap(NestedJoin(c, k, input), rows) == Map(WithAggregates(c, k, input), Select(IsKept(c, k, input), rows))
  {
    if |rows| != 0 {
      AggregateForm(c, k, input, rows[1..]);
      hide NestedMatches;
    }
  }

  /** The same join without its aggregates: one result row per match. */
  function Expanding(join: ResolvedJoin): ResolvedJoin {
    join.(kind := Inner, countAs := None, sumField := None, sumAs := None)
  }

  /** The count is the number of rows the join would have expanded to; other columns stay. */
  lemma CountIsExpansion(k: Keying, join: ResolvedJoin, row: FlatRow, matches: seq<FlatRow>)
    requires join.countAs.Some? && join.countAs != join.sumAs && (join.kind == Left || |matches| > 0)
    ensures var out := JoinRow(k, join, row, matches);
      && |out| == 1
      && Qualify(join.alias, join.countAs.value) in out[0]
      && out[0][Qualify(join.alias, join.countAs.value)] == k.countText(|JoinRow(k, Expanding(join), row, matches)|)
      && forall q | q in row && q != Qualify(join.alias, join.countAs.value)
           && (join.sumAs.Some? ==> q != Qualify(join.alias, join.sumAs.value)) :: q in out[0] && out[0][q] == row[q]
  {
    if join.sumAs.Some? {
      SameAlias(join.alias, join.countAs.value, join.sumAs.value);
    }
  }
}
