/** The table cache used by one thread at a time: the open-table limit and who is evicted for it. */
module TableManagers {
  import opened Wrappers
  import opened Sorting
  import TableOpening

  type Key = string

  /** Whether saved operations query the table. */
  predicate Queried(queryKeys: Option<set<Key>>, k: Key) {
    queryKeys.Some? && k in queryKeys.value
  }

  /** Worth in memory: cold, then CDC-only, then queried, then both. */
  function Rank(queryKeys: Option<set<Key>>, cdcActive: set<Key>, k: Key): nat {
    (if Queried(queryKeys, k) then 2 else 0) + (if k in cdcActive then 1 else 0)
  }

  function Not<T>(p: T -> bool): T -> bool {
    x => !p(x)
  }

  function Partition<T>(p: T -> bool, xs: seq<T>): (seq<T>, seq<T>) {
    (Select(p, xs), Select(Not(p), xs))
  }

  lemma {:induction false} PartitionPermutes<T>(p: T -> bool, xs: seq<T>)
    ensures multiset(Partition(p, xs).0) + multiset(Partition(p, xs).1) == multiset(xs)
  {
    if |xs| != 0 {
      PartitionPermutes(p, xs[1..]);
      assert xs == [xs[0]] + xs[1..];
    }
  }

  lemma PartitionMembers<T>(p: T -> bool, xs: seq<T>)
    ensures forall x :: x in Partition(p, xs).0 <==> x in xs && p(x)
    ensures forall x :: x in Partition(p, xs).1 <==> x in xs && !p(x)
  {
    SelectMembers(p, xs);
    SelectMembers(Not(p), xs);
  }

  function IsCold(queryKeys: Option<set<Key>>, cdcActive: set<Key>): Key -> bool {
    k => !Queried(queryKeys, k) && k !in cdcActive
  }

  /** Separate only when operations are loaded. */
  function IsCdcOnly(queryKeys: Option<set<Key>>, cdcActive: set<Key>): Key -> bool {
    k => queryKeys.Some? && !Queried(queryKeys, k) && k in cdcActive
  }

  function IsWarm(cdcActive: set<Key>): Key -> bool {
    k => k !in cdcActive
  }

  /** The four-way partition, front evicted first. */
  function EvictionOrder(queryKeys: Option<set<Key>>, cdcActive: set<Key>, keys: seq<Key>): seq<Key> {
    var (cold, rest) := Partition(IsCold(queryKeys, cdcActive), keys);
    var (cdcNonOps, rest2) := Partition(IsCdcOnly(queryKeys, cdcActive), rest);
    var (warm, hot) := Partition(IsWarm(cdcActive), rest2);
    cold + cdcNonOps + warm + hot
  }

  ghost predicate RankSorted(queryKeys: Option<set<Key>>, cdcActive: set<Key>, keys: seq<Key>) {
    forall i, j | 0 <= i < j < |keys| :: Rank(queryKeys, cdcActive, keys[i]) <= Rank(queryKeys, cdcActive, keys[j])
  }

  ghost predicate RanksWithin(queryKeys: Option<set<Key>>, cdcActive: set<Key>, keys: seq<Key>, lo: nat, hi: nat) {
    forall k | k in keys :: lo <= Rank(queryKeys, cdcActive, k) <= hi
  }

  lemma SortedConcat(queryKeys: Option<set<Key>>, cdcActive: set<Key>, xs: seq<Key>, ys: seq<Key>, lo: nat, mid: nat, hi: nat)
    requires lo <= mid <= hi && RankSorted(queryKeys, cdcActive, xs) && RankSorted(queryKeys, cdcActive, ys)
    requires RanksWithin(queryKeys, cdcActive, xs, lo, mid) && RanksWithin(queryKeys, cdcActive, ys, mid, hi)
    ensures RankSorted(queryKeys, cdcActive, xs + ys) && RanksWithin(queryKeys, cdcActive, xs + ys, lo, hi)
  {
    var all := xs + ys;
    forall i, j | 0 <= i < j < |all| ensures Rank(queryKeys, cdcActive, all[i]) <= Rank(queryKeys, cdcActive, all[j]) {
      assert i < |xs| ==> all[i] in xs;
      assert j >= |xs| ==> all[j] in ys;
    }
  }

  lemma EqualRanksSorted(queryKeys: Option<set<Key>>, cdcActive: set<Key>, keys: seq<Key>, r: nat)
    requires RanksWithin(queryKeys, cdcActive, keys, r, r)
    ensures RankSorted(queryKeys, cdcActive, keys)
  {
  }

  /** The ranks of the four parts; without operations the last part is merely CDC-active. */
  lemma PartRanks(queryKeys: Option<set<Key>>, cdcActive: set<Key>, keys: seq<Key>)
    ensures var (cold, rest) := Partition(IsCold(queryKeys, cdcActive), keys);
      var (cdcNonOps, rest2) := Partition(IsCdcOnly(queryKeys, cdcActive), rest);
      var (warm, hot) := Partition(IsWarm(cdcActive), rest2);
      var top := if queryKeys.Some? then 3 else 1;
      && RanksWithin(queryKeys, cdcActive, cold, 0, 0)
      && RanksWithin(queryKeys, cdcActive, cdcNonOps, 1, 1)
      && RanksWithin(queryKeys, cdcActive, warm, top - 1, top - 1)
      && RanksWithin(queryKeys, cdcActive, hot, top, top)
      && (queryKeys.None? ==> warm == cdcNonOps == [])
  {
    var (cold, rest) := Partition(IsCold(queryKeys, cdcActive), keys);
    var (cdcNonOps, rest2) := Partition(IsCdcOnly(queryKeys, cdcActive), rest);
    var (warm, hot) := Partition(IsWarm(cdcActive), rest2);
    PartitionMembers(IsCold(queryKeys, cdcActive), keys);
    PartitionMembers(IsCdcOnly(queryKeys, cdcActive), rest);
    PartitionMembers(IsWarm(cdcActive), rest2);
    assert |warm| > 0 ==> warm[0] in warm;
    assert |cdcNonOps| > 0 ==> cdcNonOps[0] in cdcNonOps;
  }

  lemma EvictionOrderPermutes(queryKeys: Option<set<Key>>, cdcActive: set<Key>, keys: seq<Key>)
    ensures multiset(EvictionOrder(queryKeys, cdcActive, keys)) == multiset(keys)
  {
    var (cold, rest) := Partition(IsCold(queryKeys, cdcActive), keys);
    var (cdcNonOps, rest2) := Partition(IsCdcOnly(queryKeys, cdcActive), rest);
    PartitionPermutes(IsCold(queryKeys, cdcActive), keys);
    PartitionPermutes(IsCdcOnly(queryKeys, cdcActive), rest);
    PartitionPermutes(IsWarm(cdcActive), rest2);
  }

  /** The eviction order is a permutation of the keys, by rising rank. */
  lemma EvictionOrderSorted(queryKeys: Option<set<Key>>, cdcActive: set<Key>, keys: seq<Key>)
    ensures multiset(EvictionOrder(queryKeys, cdcActive, keys)) == multiset(keys)
    ensures RankSorted(queryKeys, cdcActive, EvictionOrder(queryKeys, cdcActive, keys))
  {
    EvictionOrderPermutes(queryKeys, cdcActive, keys);
    PartRanks(queryKeys, cdcActive, keys);
    var (cold, rest) := Partition(IsCold(queryKeys, cdcActive), keys);
    var (cdcNonOps, rest2) := Partition(IsCdcOnly(queryKeys, cdcActive), rest);
    var (warm, hot) := Partition(IsWarm(cdcActive), rest2);
    var top := if queryKeys.Some? then 3 else 1;
    EqualRanksSorted(queryKeys, cdcActive, cold, 0);
    EqualRanksSorted(queryKeys, cdcActive, cdcNonOps, 1);
    EqualRanksSorted(queryKeys, cdcActive, warm, top - 1);
    EqualRanksSorted(queryKeys, cdcActive, hot, top);
    var mid := if queryKeys.Some? then 1 else 0;
    SortedConcat(queryKeys, cdcActive, cold, cdcNonOps, 0, mid, mid);
    SortedConcat(queryKeys, cdcActive, cold + cdcNonOps, warm, 0, mid, top - 1);
    SortedConcat(queryKeys, cdcActive, cold + cdcNonOps + warm, hot, 0, top - 1, top);
  }

  ghost function First(keys: seq<Key>, n: nat): set<Key>
    requires n <= |keys|
  {
    set k | k in keys[..n]
  }

  ghost predicate Distinct(keys: seq<Key>) {
    forall i, j | 0 <= i < j < |keys| :: keys[i] != keys[j]
  }

  lemma FirstNext(keys: seq<Key>, n: nat)
    requires n < |keys| && Distinct(keys)
    ensures First(keys, n + 1) == First(keys, n) + {keys[n]} && keys[n] !in First(keys, n)
  {
    assert keys[..n + 1] == keys[..n] + [keys[n]];
  }

  lemma FirstRanks(queryKeys: Option<set<Key>>, cdcActive: set<Key>, keys: seq<Key>, n: nat, gone: Key, kept: Key)
    requires RankSorted(queryKeys, cdcActive, keys) && n <= |keys|
    requires gone in First(keys, n) && kept in keys && kept !in First(keys, n)
    ensures Rank(queryKeys, cdcActive, gone) <= Rank(queryKeys, cdcActive, kept)
  {
    var i :| 0 <= i < n && keys[..n][i] == gone;
    var j :| 0 <= j < |keys| && keys[j] == kept;
    assert j >= n;
  }

  datatype OpenError = OpenFailed

  class TableManager {
    const maxOpenHard: nat
    const opsBuffer: nat
    var maxOpen: nat
    var openCount: nat
    var tables: set<Key>
    var queryKeys: Option<set<Key>>
    var cdcActive: set<Key>

    ghost predicate Valid()
      reads this
    {
      openCount == |tables| && maxOpen <= maxOpenHard
    }

    constructor (maxOpenHard: nat, opsBuffer: nat)
      ensures Valid() && tables == {} && maxOpen == maxOpenHard == this.maxOpenHard && this.opsBuffer == opsBuffer
    {
      this.maxOpenHard, this.opsBuffer, maxOpen := maxOpenHard, opsBuffer, maxOpenHard;
      openCount, tables, queryKeys, cdcActive := 0, {}, None, {};
    }

    method MarkCdcActive(k: Key)
      requires Valid()
      modifies this`cdcActive
      ensures Valid() && cdcActive == old(cdcActive) + {k}
    {
      cdcActive := cdcActive + {k};
    }

    /** Loading saved operations shrinks the limit to their tables plus a buffer, never above the
        hard limit; unloading them restores the hard limit.  No table is closed yet. */
    method SetQueryPriorityKeys(keys: Option<set<Key>>)
      requires Valid()
      modifies this`maxOpen, this`queryKeys
      ensures Valid() && queryKeys == keys
      ensures keys.None? || keys.value == {} ==> maxOpen == maxOpenHard
      ensures keys.Some? && keys.value != {} ==>
                (maxOpen == maxOpenHard || maxOpen == |keys.value| + opsBuffer) && maxOpen <= |keys.value| + opsBuffer
    {
      var limit := maxOpenHard;
      if keys.Some? && keys.value != {} {
        var opsLimit := |keys.value| + opsBuffer;
        limit := if opsLimit < maxOpenHard then opsLimit else maxOpenHard;
      }
      maxOpen := limit;
      queryKeys := keys;
    }

    /** The cached keys in whatever order the hash map yields them. */
    method ListKeys() returns (keys: seq<Key>)
      ensures multiset(keys) == multiset(tables)
    {
      keys := [];
      var pending := tables;
      while pending != {}
        invariant pending <= tables
        invariant multiset(keys) == multiset(tables - pending)
        decreases pending
      {
        var k :| k in pending;
        pending := pending - {k};
        assert tables - pending == (tables - (pending + {k})) + {k};
        keys := keys + [k];
      }
      assert tables - {} == tables;
    }

    /** Closes tables down to the target, least valuable first. */
    method EvictLru()
      requires Valid()
      modifies this`openCount, this`tables
      ensures Valid()
      ensures tables <= old(tables)
      ensures |tables| == if old(|tables|) <= TableOpening.Target(maxOpen) then old(|tables|) else TableOpening.Target(maxOpen)
      ensures forall gone, kept | gone in old(tables) - tables && kept in tables ::
                Rank(queryKeys, cdcActive, gone) <= Rank(queryKeys, cdcActive, kept)
    {
      hide Rank, EvictionOrder, RankSorted, First, Distinct;
      var toEvict := TableOpening.SaturatingSub(openCount, TableOpening.Target(maxOpen));
      if toEvict == 0 || tables == {} {
        return;
      }
      var listed := ListKeys();
      var keys := EvictionOrder(queryKeys, cdcActive, listed);
      EvictionOrderSorted(queryKeys, cdcActive, listed);
      ListsOnce(keys, tables);
      var evictCount := if toEvict < |keys| then toEvict else |keys|;
      EvictFirst(keys, evictCount);
      forall gone, kept | gone in old(tables) - tables && kept in tables
        ensures Rank(queryKeys, cdcActive, gone) <= Rank(queryKeys, cdcActive, kept)
      {
        FirstRanks(queryKeys, cdcActive, keys, evictCount, gone, kept);
      }
    }

    /** The eviction loop. */
    method EvictFirst(keys: seq<Key>, evictCount: nat)
      requires Valid() && evictCount <= |keys|
      requires (forall k :: k in keys <==> k in tables) && Distinct(keys)
      modifies this`openCount, this`tables
      ensures Valid()
      ensures tables == old(tables) - First(keys, evictCount)
      ensures |tables| == old(|tables|) - evictCount
    {
      for evicted := 0 to evictCount
        invariant openCount == |tables| == old(|tables|) - evicted
        invariant tables == old(tables) - First(keys, evicted)
      {
        FirstNext(keys, evicted);
        assert keys[evicted] in keys;
        tables := tables - {keys[evicted]};
        openCount := openCount - 1;
      }
    }

    /** Returns whether the key was cached; on a miss evicts if the limit is reached, then opens. */
    method GetTable(k: Key, opens: bool) returns (r: Result<bool, OpenError>)
      requires Valid()
      modifies this`openCount, this`tables
      ensures Valid()
      ensures k in old(tables) ==> r == Ok(true) && tables == old(tables)
      ensures k !in old(tables) ==>
                && r == (if opens then Ok(false) else Err(OpenFailed))
                && tables <= old(tables) + {k} && (k in tables <==> opens)
                && |tables| <= (if maxOpen > 1 then maxOpen else 1)
                && (old(|tables|) < maxOpen ==> old(tables) <= tables)
                && (old(|tables|) >= maxOpen && 0 < maxOpen <= 50 ==> |tables - {k}| == maxOpen - 1)
                && (old(|tables|) >= maxOpen && maxOpen > 50 ==> 2 * |tables - {k}| <= maxOpen <= 2 * |tables - {k}| + 1)
                && forall gone, kept | gone in old(tables) - tables && kept in tables && kept != k ::
                     Rank(queryKeys, cdcActive, gone) <= Rank(queryKeys, cdcActive, kept)
    {
      if k in tables {
        return Ok(true);
      }
      if openCount >= maxOpen {
        EvictLru();
      }
      assert tables - {k} == tables;
      if !opens {
        return Err(OpenFailed);
      }
      openCount := openCount + 1;
      assert tables + {k} - {k} == tables;
      tables := tables + {k};
      r := Ok(false);
    }

    method CloseTable(k: Key)
      requires Valid()
      modifies this`openCount, this`tables
      ensures Valid() && tables == old(tables) - {k}
    {
      if k in tables {
        tables := tables - {k};
        openCount := openCount - 1;
      }
    }
  }

  /** A listing of a set mentions each element once. */
  lemma ListsOnce<T>(xs: seq<T>, s: set<T>)
    requires multiset(xs) == multiset(s)
    ensures |xs| == |s|
    ensures forall x :: x in xs <==> x in s
    ensures forall i, j | 0 <= i < j < |xs| :: xs[i] != xs[j]
  {
    assert |multiset(xs)| == |multiset(s)|;
    assert forall x :: x in xs <==> x in multiset(xs);
    forall i, j | 0 <= i < j < |xs| ensures xs[i] != xs[j] {
      if xs[i] == xs[j] {
        DuplicateCount(xs, i, j);
      }
    }
  }
}
