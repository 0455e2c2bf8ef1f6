/** Keyed lookups: which filters a join asks its table for, and how N equality lookups become one. */
module JoinLookup {
  import opened Bytes
  import opened Wrappers
  import opened Sequences
  import opened Types
  import opened JoinRows

  type TableRow = map<Text, Text>

  /** A missing cell reads as the empty string. */
  function Column(r: TableRow, field: Text): Text {
    if field in r then r[field] else []
  }

  predicate RowPasses(c: Comparer, r: TableRow, filters: seq<Filter>) {
    forall f | f in filters :: Matches(c, Column(r, f.field), f)
  }

  ghost predicate PassesSome(c: Comparer, r: TableRow, sets: seq<seq<Filter>>) {
    exists s :: s in sets && RowPasses(c, r, s)
  }

  // ---------- one lookup per distinct key ----------

  function EqFilter(field: Text, value: Text): Filter {
    Filter(field, Eq, value, None, None, [])
  }

  function EqFilters(fields: seq<Text>, parts: seq<Text>): (filters: seq<Filter>)
    requires |fields| == |parts|
    ensures |filters| == |fields| && forall i | 0 <= i < |fields| :: filters[i] == EqFilter(fields[i], parts[i])
  {
    seq(|fields|, i requires 0 <= i < |fields| => EqFilter(fields[i], parts[i]))
  }

  function DedupeParts(fields: seq<Text>, parts: seq<Text>): (named: seq<Text>)
    requires |fields| == |parts|
    ensures |named| == |fields| && forall i | 0 <= i < |fields| :: named[i] == fields[i] + [EQUALS] + parts[i]
  {
    seq(|fields|, i requires 0 <= i < |fields| => fields[i] + [EQUALS] + parts[i])
  }

  /** The text that tells two keys apart while lookups are collected. */
  function DedupeKey(fields: seq<Text>): seq<Text> -> Text {
    (parts: seq<Text>) => if |parts| == |fields| then JoinParts(DedupeParts(fields, parts)) else []
  }

  /** The keys of the rows that have one, in row order. */
  function Keys(k: Keying, rows: seq<FlatRow>, columns: seq<Text>): seq<seq<Text>> {
    if |rows| == 0 then []
    else
      var rest := Keys(k, rows[..|rows| - 1], columns);
      match KeyParts(k, rows[|rows| - 1], columns)
      case None => rest
      case Some(parts) => rest + [parts]
  }

  ghost predicate HasKey(k: Keying, rows: seq<FlatRow>, columns: seq<Text>, parts: seq<Text>) {
    exists row :: row in rows && KeyParts(k, row, columns) == Some(parts)
  }

  lemma {:induction false} KeysMembers(k: Keying, rows: seq<FlatRow>, columns: seq<Text>)
    ensures forall parts :: parts in Keys(k, rows, columns) <==> HasKey(k, rows, columns, parts)
    ensures forall parts | parts in Keys(k, rows, columns) :: |parts| == |columns|
  {
    if |rows| != 0 {
      var prefix, last := rows[..|rows| - 1], rows[|rows| - 1];
      KeysMembers(k, prefix, columns);
      KeyPartsLength(k, last, columns);
      assert forall row :: row in rows <==> row in prefix || row == last;
      forall parts ensures parts in Keys(k, rows, columns) <==> HasKey(k, rows, columns, parts) {
        assert HasKey(k, rows, columns, parts) <==> HasKey(k, prefix, columns, parts) || KeyParts(k, last, columns) == Some(parts);
      }
    }
  }

  lemma KeysNext(k: Keying, rows: seq<FlatRow>, n: nat, columns: seq<Text>)
    requires n < |rows|
    ensures Keys(k, rows[..n + 1], columns)
         == match KeyParts(k, rows[n], columns)
            case None => Keys(k, rows[..n], columns)
            case Some(parts) => Keys(k, rows[..n], columns) + [parts]
  {
    assert rows[..n + 1][..n] == rows[..n];
  }

  /** The distinct keys, by their deduplication text. */
  function DistinctKeysOf(k: Keying, rows: seq<FlatRow>, join: ResolvedJoin): seq<seq<Text>> {
    DedupAppend(DedupeKey(join.JoiningFields()), [], Keys(k, rows, join.ExistingSide()))
  }

  function SetFor(fields: seq<Text>, push: seq<Filter>): seq<Text> -> seq<Filter> {
    (parts: seq<Text>) => if |parts| == |fields| then EqFilters(fields, parts) + push else push
  }

  function LookupSets(k: Keying, rows: seq<FlatRow>, join: ResolvedJoin, push: seq<Filter>): seq<seq<Filter>> {
    Map(SetFor(join.JoiningFields(), push), DistinctKeysOf(k, rows, join))
  }

  ghost function KeptUpTo(k: Keying, rows: seq<FlatRow>, join: ResolvedJoin, n: nat): seq<seq<Text>>
    requires n <= |rows|
  {
    DedupAppend(DedupeKey(join.JoiningFields()), [], Keys(k, rows[..n], join.ExistingSide()))
  }

  lemma KeptNext(k: Keying, rows: seq<FlatRow>, join: ResolvedJoin, n: nat)
    requires n < |rows|
    ensures var kept, parts := KeptUpTo(k, rows, join, n), KeyParts(k, rows[n], join.ExistingSide());
      && (parts.Some? ==> |parts.value| == |join.conditions|)
      && KeptUpTo(k, rows, join, n + 1)
         == (if parts.None? || Seen(DedupeKey(join.JoiningFields()), kept, DedupeKey(join.JoiningFields())(parts.value))
             then kept else kept + [parts.value])
  {
    KeysNext(k, rows, n, join.ExistingSide());
    KeyPartsLength(k, rows[n], join.ExistingSide());
    var parts := KeyParts(k, rows[n], join.ExistingSide());
    if parts.Some? {
      DedupAppendSnoc(DedupeKey(join.JoiningFields()), [], Keys(k, rows[..n], join.ExistingSide()), parts.value);
    }
  }

  lemma KeptEnds(k: Keying, rows: seq<FlatRow>, join: ResolvedJoin)
    ensures KeptUpTo(k, rows, join, 0) == []
    ensures KeptUpTo(k, rows, join, |rows|) == DistinctKeysOf(k, rows, join)
  {
    assert rows[..|rows|] == rows;
  }

  /** Collects the lookups.  Rows without the columns are skipped; only a join without conditions
      has no lookups at all. */
  method BuildLookupFilters(k: Keying, rows: seq<FlatRow>, join: ResolvedJoin, push: seq<Filter>)
    returns (sets: Option<seq<seq<Filter>>>)
    ensures sets == if |join.conditions| == 0 then None else Some(LookupSets(k, rows, join, push))
  {
    if |join.conditions| == 0 {
      return None;
    }
    hide KeptUpTo, KeyParts, Tracks;
    var dedupe, setFor := DedupeKey(join.JoiningFields()), SetFor(join.JoiningFields(), push);
    var seen: set<Text> := {};
    ghost var kept: seq<seq<Text>> := [];
    var collected: seq<seq<Filter>> := [];
    KeptEnds(k, rows, join);
    TracksNothing(dedupe, setFor);
    for n := 0 to |rows|
      invariant kept == KeptUpTo(k, rows, join, n)
      invariant Tracks(dedupe, setFor, seen, kept, collected)
    {
      KeptNext(k, rows, join, n);
      var parts := KeyParts(k, rows[n], join.ExistingSide());
      if parts.None? {
        continue;
      }
      TracksNext(dedupe, setFor, seen, kept, collected, parts.value);
      if dedupe(parts.value) !in seen {
        kept := kept + [parts.value];
        seen := seen + {dedupe(parts.value)};
        collected := collected + [setFor(parts.value)];
      }
    }
    TracksMap(dedupe, setFor, seen, kept, collected);
    return Some(collected);
  }

  /** The loop's collections stand for the keys kept so far. */
  ghost predicate Tracks(dedupe: seq<Text> -> Text, setFor: seq<Text> -> seq<Filter>,
                         seen: set<Text>, kept: seq<seq<Text>>, collected: seq<seq<Filter>>) {
    (forall t :: t in seen <==> Seen(dedupe, kept, t)) && collected == Map(setFor, kept)
  }

  lemma TracksNothing(dedupe: seq<Text> -> Text, setFor: seq<Text> -> seq<Filter>)
    ensures Tracks(dedupe, setFor, {}, [], [])
  {
  }

  lemma TracksMap(dedupe: seq<Text> -> Text, setFor: seq<Text> -> seq<Filter>,
                  seen: set<Text>, kept: seq<seq<Text>>, collected: seq<seq<Filter>>)
    requires Tracks(dedupe, setFor, seen, kept, collected)
    ensures collected == Map(setFor, kept)
  {
  }

  lemma TracksNext(dedupe: seq<Text> -> Text, setFor: seq<Text> -> seq<Filter>,
                   seen: set<Text>, kept: seq<seq<Text>>, collected: seq<seq<Filter>>, parts: seq<Text>)
    requires Tracks(dedupe, setFor, seen, kept, collected)
    ensures dedupe(parts) in seen <==> Seen(dedupe, kept, dedupe(parts))
    ensures Tracks(dedupe, setFor, seen + {dedupe(parts)}, kept + [parts], collected + [setFor(parts)])
  {
    MapSnoc(setFor, kept, parts);
    SeenSnoc(dedupe, kept, parts);
  }

  /** The row's columns compare equal to every part of the key. */
  ghost predicate LooksUp(c: Comparer, r: TableRow, fields: seq<Text>, parts: seq<Text>)
    requires |fields| == |parts|
  {
    forall i | 0 <= i < |fields| :: CompareValues(c, Column(r, fields[i]), parts[i], None) == Some(Equal)
  }

  lemma SetForMeaning(c: Comparer, r: TableRow, fields: seq<Text>, parts: seq<Text>, push: seq<Filter>)
    requires |fields| == |parts|
    ensures RowPasses(c, r, SetFor(fields, push)(parts)) <==> LooksUp(c, r, fields, parts) && RowPasses(c, r, push)
  {
    var filters := EqFilters(fields, parts);
    assert forall f | f in push :: f in filters + push;
    forall i | 0 <= i < |fields|
      ensures filters[i] in filters + push
    {
      assert (filters + push)[i] == filters[i];
    }
    if RowPasses(c, r, filters + push) {
      forall i | 0 <= i < |fields|
        ensures CompareValues(c, Column(r, fields[i]), parts[i], None) == Some(Equal)
      {
        assert Matches(c, Column(r, filters[i].field), filters[i]);
      }
    }
  }

  // ---------- merging N lookups into one ----------

  /** What the merge compares of two filters: not their options or types. */
  predicate SameCondition(f: Filter, g: Filter) {
    f.field == g.field && f.op == g.op && f.value == g.value && f.valueTo == g.valueTo
  }

  predicate MatchesTemplate(s: seq<Filter>, template: seq<Filter>, vary: nat)
    requires vary < |template|
  {
    && |s| == |template|
    && forall i | 0 <= i < |s| ::
         if i == vary then s[i].field == template[i].field && s[i].op == Eq else SameCondition(s[i], template[i])
  }

  predicate MergesAt(sets: seq<seq<Filter>>, vary: nat)
    requires |sets| > 0
  {
    && vary < |sets[0]| && sets[0][vary].op == Eq
    && forall s | s in sets :: MatchesTemplate(s, sets[0], vary)
  }

  function ValueAt(vary: nat): seq<Filter> -> Text {
    (s: seq<Filter>) => if vary < |s| then s[vary].value else []
  }

  function Same<A>(): A -> A {
    x => x
  }

  function VaryingValues(sets: seq<seq<Filter>>, vary: nat): seq<Text> {
    DedupAppend(Same(), [], Map(ValueAt(vary), sets))
  }

  function MergedSet(sets: seq<seq<Filter>>, vary: nat): seq<Filter>
    requires |sets| > 0 && vary < |sets[0]|
  {
    var values := VaryingValues(sets, vary);
    var f := sets[0][vary];
    sets[0][vary := Filter(f.field, In, if |values| > 0 then values[0] else [], None, f.fieldType, values)]
  }

  /** The merge at the first position where only the value varies. */
  function CoalescedFrom(sets: seq<seq<Filter>>, vary: nat): seq<seq<Filter>>
    requires |sets| > 0
    decreases |sets[0]| - vary
  {
    if vary >= |sets[0]| then sets
    else if MergesAt(sets, vary) then [MergedSet(sets, vary)]
    else CoalescedFrom(sets, vary + 1)
  }

  function Coalesced(sets: seq<seq<Filter>>): seq<seq<Filter>> {
    if |sets| <= 1 then sets else CoalescedFrom(sets, 0)
  }

  method CoalesceLookupFilters(sets: seq<seq<Filter>>) returns (out: seq<seq<Filter>>)
    ensures out == Coalesced(sets)
  {
    if |sets| <= 1 {
      return sets;
    }
    var template := sets[0];
    for vary := 0 to |template|
      invariant Coalesced(sets) == CoalescedFrom(sets, vary)
    {
      if template[vary].op != Eq {
        continue;
      }
      var values := CollectValues(sets, vary);
      if values.None? {
        continue;
      }
      var f := template[vary];
      return [template[vary := Filter(f.field, In, values.value[0], None, f.fieldType, values.value)]];
    }
    return sets;
  }

  /** The distinct values at the varying position, unless some set differs elsewhere. */
  method CollectValues(sets: seq<seq<Filter>>, vary: nat) returns (values: Option<seq<Text>>)
    requires |sets| > 0 && vary < |sets[0]| && sets[0][vary].op == Eq
    ensures values == if MergesAt(sets, vary) then Some(VaryingValues(sets, vary)) else None
    ensures values.Some? ==> |values.value| > 0
  {
    hide VaryingValues;
    var template := sets[0];
    var collected: seq<Text> := [];
    NothingVaries(sets, vary);
    for n := 0 to |sets|
      invariant forall k | 0 <= k < n :: MatchesTemplate(sets[k], template, vary)
      invariant collected == VaryingValues(sets[..n], vary)
      invariant n > 0 ==> |collected| > 0
    {
      var s := sets[n];
      if !MatchesTemplate(s, template, vary) {
        assert s in sets;
        return None;
      }
      VaryingNext(sets, n, vary);
      if s[vary].value !in collected {
        collected := collected + [s[vary].value];
      }
    }
    assert sets[..|sets|] == sets;
    return Some(collected);
  }

  lemma NothingVaries(sets: seq<seq<Filter>>, vary: nat)
    ensures VaryingValues(sets[..0], vary) == []
  {
  }

  lemma VaryingNext(sets: seq<seq<Filter>>, n: nat, vary: nat)
    requires n < |sets| && vary < |sets[n]|
    ensures var before := VaryingValues(sets[..n], vary);
      VaryingValues(sets[..n + 1], vary) == if sets[n][vary].value in before then before else before + [sets[n][vary].value]
  {
    assert sets[..n + 1] == sets[..n] + [sets[n]];
    MapSnoc(ValueAt(vary), sets[..n], sets[n]);
    DedupAppendSnoc(Same(), [], Map(ValueAt(vary), sets[..n]), sets[n][vary].value);
  }

  /** The shape in which lookups are built: at each position the sets agree on options and type. */
  ghost predicate UniformShape(sets: seq<seq<Filter>>) {
    forall s: seq<Filter>, t: seq<Filter>, i: nat | s in sets && t in sets && i < |s| && i < |t| ::
      s[i].valueOptions == t[i].valueOptions && s[i].fieldType == t[i].fieldType
  }

  lemma {:induction false} DedupSameMembers(acc: seq<Text>, xs: seq<Text>)
    ensures forall x :: x in DedupAppend(Same(), acc, xs) <==> x in acc || x in xs
    decreases |xs|
  {
    if |xs| != 0 {
      DedupSameMembers(if Seen(Same(), acc, xs[0]) then acc else acc + [xs[0]], xs[1..]);
      assert xs == [xs[0]] + xs[1..];
      assert Seen(Same(), acc, xs[0]) <==> xs[0] in acc;
    }
  }

  lemma VaryingMembers(sets: seq<seq<Filter>>, vary: nat)
    ensures forall v :: v in VaryingValues(sets, vary) <==> exists s :: s in sets && ValueAt(vary)(s) == v
  {
    var values := Map(ValueAt(vary), sets);
    DedupSameMembers([], values);
    forall v ensures v in values <==> exists s :: s in sets && ValueAt(vary)(s) == v {
      if v in values {
        var i :| 0 <= i < |values| && values[i] == v;
        assert sets[i] in sets;
      }
      if s :| s in sets && ValueAt(vary)(s) == v {
        var i :| 0 <= i < |sets| && sets[i] == s;
        assert values[i] == v;
      }
    }
  }

  /** The row passes every filter of the set except the one at `vary`. */
  ghost predicate PassesOthers(c: Comparer, r: TableRow, s: seq<Filter>, vary: nat) {
    forall i | 0 <= i < |s| && i != vary :: Matches(c, Column(r, s[i].field), s[i])
  }

  lemma PassesByPosition(c: Comparer, r: TableRow, s: seq<Filter>, vary: nat)
    requires vary < |s|
    ensures RowPasses(c, r, s) <==> PassesOthers(c, r, s, vary) && Matches(c, Column(r, s[vary].field), s[vary])
  {
    assert s[vary] in s;
    if RowPasses(c, r, s) {
      forall i | 0 <= i < |s| ensures Matches(c, Column(r, s[i].field), s[i]) {
        assert s[i] in s;
      }
    }
  }

  lemma OthersAlike(c: Comparer, r: TableRow, sets: seq<seq<Filter>>, vary: nat, s: seq<Filter>)
    requires |sets| > 0 && UniformShape(sets) && MergesAt(sets, vary) && s in sets
    ensures |s| == |sets[0]| && s[vary].fieldType == sets[0][vary].fieldType
    ensures PassesOthers(c, r, s, vary) <==> PassesOthers(c, r, sets[0], vary)
  {
    assert sets[0] in sets && MatchesTemplate(s, sets[0], vary);
    forall i: nat | i < |s| && i != vary ensures s[i] == sets[0][i] {
      assert SameCondition(s[i], sets[0][i]);
    }
  }

  /** A set's meaning, in terms of the template and its own varying value. */
  lemma SetMeaning(c: Comparer, r: TableRow, sets: seq<seq<Filter>>, vary: nat, s: seq<Filter>)
    requires |sets| > 0 && UniformShape(sets) && MergesAt(sets, vary) && s in sets
    ensures RowPasses(c, r, s) <==>
              (PassesOthers(c, r, sets[0], vary) &&
               CompareValues(c, Column(r, sets[0][vary].field), ValueAt(vary)(s), sets[0][vary].fieldType) == Some(Equal))
  {
    OthersAlike(c, r, sets, vary, s);
    PassesByPosition(c, r, s, vary);
    assert MatchesTemplate(s, sets[0], vary);
  }

  lemma MergedSetMeaning(c: Comparer, r: TableRow, sets: seq<seq<Filter>>, vary: nat)
    requires |sets| > 0 && vary < |sets[0]| && |VaryingValues(sets, vary)| > 0
    ensures RowPasses(c, r, MergedSet(sets, vary)) <==>
              (PassesOthers(c, r, sets[0], vary) &&
               exists v :: v in VaryingValues(sets, vary)
                 && CompareValues(c, Column(r, sets[0][vary].field), v, sets[0][vary].fieldType) == Some(Equal))
  {
    var merged := MergedSet(sets, vary);
    PassesByPosition(c, r, merged, vary);
    assert |merged| == |sets[0]| && forall i: nat | i < |merged| && i != vary :: merged[i] == sets[0][i];
    assert PassesOthers(c, r, MergedSet(sets, vary), vary) <==> PassesOthers(c, r, sets[0], vary);
  }

  /** One `In` lookup finds exactly the rows that some equality lookup found. */
  lemma MergedMeaning(c: Comparer, r: TableRow, sets: seq<seq<Filter>>, vary: nat)
    requires |sets| > 0 && UniformShape(sets) && MergesAt(sets, vary)
    ensures RowPasses(c, r, MergedSet(sets, vary)) <==> PassesSome(c, r, sets)
  {
    VaryingMembers(sets, vary);
    assert sets[0] in sets && ValueAt(vary)(sets[0]) in VaryingValues(sets, vary);
    hide VaryingValues, MergedSet, RowPasses, PassesOthers, CompareValues;
    MergedSetMeaning(c, r, sets, vary);
    forall s | s in sets
      ensures RowPasses(c, r, s) <==>
                (PassesOthers(c, r, sets[0], vary) &&
                 CompareValues(c, Column(r, sets[0][vary].field), ValueAt(vary)(s), sets[0][vary].fieldType) == Some(Equal))
    {
      SetMeaning(c, r, sets, vary, s);
    }
  }

  lemma {:induction false} CoalescedFromMeaning(c: Comparer, r: TableRow, sets: seq<seq<Filter>>, vary: nat)
    requires |sets| > 0 && UniformShape(sets)
    ensures PassesSome(c, r, CoalescedFrom(sets, vary)) <==> PassesSome(c, r, sets)
    ensures CoalescedFrom(sets, vary) == sets || |CoalescedFrom(sets, vary)| == 1
    decreases |sets[0]| - vary
  {
    if vary >= |sets[0]| {
    } else if MergesAt(sets, vary) {
      MergedMeaning(c, r, sets, vary);
      assert MergedSet(sets, vary) in [MergedSet(sets, vary)];
    } else {
      CoalescedFromMeaning(c, r, sets, vary + 1);
    }
  }

  /** Merging lookups preserves their meaning: a row passes some set before exactly if it passes some
      set after. */
  lemma CoalesceMeaning(c: Comparer, r: TableRow, sets: seq<seq<Filter>>)
    requires UniformShape(sets)
    ensures PassesSome(c, r, Coalesced(sets)) <==> PassesSome(c, r, sets)
    ensures Coalesced(sets) == sets || |Coalesced(sets)| == 1
  {
    if |sets| > 1 {
      CoalescedFromMeaning(c, r, sets, 0);
    }
  }

  lemma DistinctKeysAreKeys(k: Keying, rows: seq<FlatRow>, join: ResolvedJoin)
    ensures forall parts | parts in DistinctKeysOf(k, rows, join) ::
              HasKey(k, rows, join.ExistingSide(), parts) && |parts| == |join.conditions|
  {
    KeysMembers(k, rows, join.ExistingSide());
    DedupMembers(DedupeKey(join.JoiningFields()), [], Keys(k, rows, join.ExistingSide()));
  }

  ghost predicate BuiltFor(join: ResolvedJoin, push: seq<Filter>, s: seq<Filter>, parts: seq<Text>) {
    |parts| == |join.conditions| && s == EqFilters(join.JoiningFields(), parts) + push
  }

  lemma LookupSetParts(k: Keying, rows: seq<FlatRow>, join: ResolvedJoin, push: seq<Filter>, s: seq<Filter>)
    requires s in LookupSets(k, rows, join, push)
    ensures exists parts :: parts in DistinctKeysOf(k, rows, join) && BuiltFor(join, push, s, parts)
  {
    DistinctKeysAreKeys(k, rows, join);
    MapMembers(SetFor(join.JoiningFields(), push), DistinctKeysOf(k, rows, join), s);
    var parts :| parts in DistinctKeysOf(k, rows, join) && SetFor(join.JoiningFields(), push)(parts) == s;
    assert BuiltFor(join, push, s, parts);
  }

  lemma BuiltAlike(join: ResolvedJoin, push: seq<Filter>, s: seq<Filter>, x: seq<Text>, t: seq<Filter>, y: seq<Text>)
    requires BuiltFor(join, push, s, x) && BuiltFor(join, push, t, y)
    ensures |s| == |t|
    ensures forall i: nat | i < |s| :: s[i].valueOptions == t[i].valueOptions && s[i].fieldType == t[i].fieldType
    ensures forall i: nat | 0 < i < |s| && |join.conditions| == 1 :: s[i] == t[i]
    ensures |join.conditions| > 0 ==> s[0].op == t[0].op == Eq && s[0].field == t[0].field
  {
  }

  /** The lookups that are built have the uniform shape. */
  lemma LookupSetsUniform(k: Keying, rows: seq<FlatRow>, join: ResolvedJoin, push: seq<Filter>)
    ensures UniformShape(LookupSets(k, rows, join, push))
  {
    hide LookupSets, BuiltFor, DistinctKeysOf;
    var sets := LookupSets(k, rows, join, push);
    forall s: seq<Filter>, t: seq<Filter>, i: nat | s in sets && t in sets && i < |s| && i < |t|
      ensures s[i].valueOptions == t[i].valueOptions && s[i].fieldType == t[i].fieldType
    {
      LookupSetParts(k, rows, join, push, s);
      LookupSetParts(k, rows, join, push, t);
      var x :| x in DistinctKeysOf(k, rows, join) && BuiltFor(join, push, s, x);
      var y :| y in DistinctKeysOf(k, rows, join) && BuiltFor(join, push, t, y);
      BuiltAlike(join, push, s, x, t, y);
    }
  }

  /** A join on one column always ends up with a single lookup. */
  lemma SingleConditionCoalesces(k: Keying, rows: seq<FlatRow>, join: ResolvedJoin, push: seq<Filter>)
    requires |join.conditions| == 1
    ensures |Coalesced(LookupSets(k, rows, join, push))| <= 1
  {
    var sets := LookupSets(k, rows, join, push);
    if |sets| > 1 {
      assert sets[0] in sets;
      LookupSetParts(k, rows, join, push, sets[0]);
      var x :| x in DistinctKeysOf(k, rows, join) && BuiltFor(join, push, sets[0], x);
      forall s | s in sets ensures MatchesTemplate(s, sets[0], 0) {
        LookupSetParts(k, rows, join, push, s);
        var y :| y in DistinctKeysOf(k, rows, join) && BuiltFor(join, push, s, y);
        BuiltAlike(join, push, s, y, sets[0], x);
      }
      assert MergesAt(sets, 0);
      assert Coalesced(sets) == [MergedSet(sets, 0)];
    }
  }
}
