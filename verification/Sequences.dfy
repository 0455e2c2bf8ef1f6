/** Mapping, expanding and de-duplicating sequences, and how these commute with filtering and with
    the stable sort. */
module Sequences {
  import opened Sorting

  function Map<A, B>(f: A -> B, xs: seq<A>): (ys: seq<B>)
    ensures |ys| == |xs|
    ensures forall i | 0 <= i < |xs| :: ys[i] == f(xs[i])
  {
    if |xs| == 0 then [] else [f(xs[0])] + Map(f, xs[1..])
  }

  lemma {:induction false} MapAppend<A, B>(f: A -> B, xs: seq<A>, ys: seq<A>)
    ensures Map(f, xs + ys) == Map(f, xs) + Map(f, ys)
  {
  }

  lemma MapSnoc<A, B>(f: A -> B, xs: seq<A>, x: A)
    ensures Map(f, xs + [x]) == Map(f, xs) + [f(x)]
  {
    MapAppend(f, xs, [x]);
    assert Map(f, [x]) == [f(x)] + Map(f, [x][1..]);
  }

  lemma MapMembers<A, B>(f: A -> B, xs: seq<A>, y: B)
    ensures y in Map(f, xs) <==> exists x :: x in xs && f(x) == y
  {
    if y in Map(f, xs) {
      var i :| 0 <= i < |xs| && Map(f, xs)[i] == y;
      assert xs[i] in xs;
    }
    if x :| x in xs && f(x) == y {
      var i :| 0 <= i < |xs| && xs[i] == x;
      assert Map(f, xs)[i] == y;
    }
  }

  function Composed<A, B, C>(key: B -> C, f: A -> B): A -> C {
    a => key(f(a))
  }

  lemma {:induction false} SelectMap<A, B>(p: B -> bool, f: A -> B, xs: seq<A>)
    ensures Select(p, Map(f, xs)) == Map(f, Select(Composed(p, f), xs))
  {
    if |xs| != 0 {
      SelectMap(p, f, xs[1..]);
      var q := Composed(p, f);
      SelectCons(p, f(xs[0]), Map(f, xs[1..]));
      assert Map(f, xs) == [f(xs[0])] + Map(f, xs[1..]);
      MapAppend(f, if q(xs[0]) then [xs[0]] else [], Select(q, xs[1..]));
    }
  }

  // ---------- expansion ----------

  function FlatMap<A, B>(e: A -> seq<B>, xs: seq<A>): seq<B> {
    if |xs| == 0 then [] else e(xs[0]) + FlatMap(e, xs[1..])
  }

  lemma {:induction false} FlatMapAppend<A, B>(e: A -> seq<B>, xs: seq<A>, ys: seq<A>)
    ensures FlatMap(e, xs + ys) == FlatMap(e, xs) + FlatMap(e, ys)
  {
    if |xs| == 0 {
      assert xs + ys == ys;
    } else {
      FlatMapAppend(e, xs[1..], ys);
      assert (xs + ys)[1..] == xs[1..] + ys;
      Associative(e(xs[0]), FlatMap(e, xs[1..]), FlatMap(e, ys));
    }
  }

  lemma FlatMapOne<A, B>(e: A -> seq<B>, x: A)
    ensures FlatMap(e, [x]) == e(x)
  {
    assert FlatMap(e, [x]) == e(x) + FlatMap(e, []);
  }

  lemma {:induction false} FlatMapMembers<A, B>(e: A -> seq<B>, xs: seq<A>, y: B)
    requires y in FlatMap(e, xs)
    ensures exists x :: x in xs && y in e(x)
  {
    if y in e(xs[0]) {
      assert xs[0] in xs;
    } else {
      FlatMapMembers(e, xs[1..], y);
    }
  }

  function One<A>(): A -> seq<A> {
    x => [x]
  }

  lemma {:induction false} FlatMapOneEach<A>(xs: seq<A>)
    ensures FlatMap(One(), xs) == xs
  {
    if |xs| != 0 {
      FlatMapOneEach(xs[1..]);
    }
  }

  function Single<A, B>(f: A -> B): A -> seq<B> {
    x => [f(x)]
  }

  lemma {:induction false} FlatMapSingle<A, B>(f: A -> B, xs: seq<A>)
    ensures FlatMap(Single(f), xs) == Map(f, xs)
  {
    if |xs| != 0 {
      FlatMapSingle(f, xs[1..]);
    }
  }

  lemma {:induction false} FlatMapSubset<A, B>(e: A -> seq<B>, xs: seq<A>, ys: seq<A>)
    requires multiset(xs) <= multiset(ys)
    ensures multiset(FlatMap(e, xs)) <= multiset(FlatMap(e, ys))
  {
    if |xs| != 0 {
      assert xs == [xs[0]] + xs[1..];
      assert xs[0] in multiset(xs) && xs[0] in ys;
      var i :| 0 <= i < |ys| && ys[i] == xs[0];
      var front, back := ys[..i], ys[i + 1..];
      assert ys == front + ([xs[0]] + back);
      assert multiset(xs[1..]) == multiset(xs) - multiset{xs[0]};
      assert multiset(front + back) == multiset(ys) - multiset{xs[0]};
      FlatMapAppend(e, front, [xs[0]] + back);
      FlatMapAppend(e, [xs[0]], back);
      FlatMapOne(e, xs[0]);
      FlatMapSubset(e, xs[1..], front + back);
      FlatMapAppend(e, front, back);
    }
  }

  lemma SubsetSmaller<A>(xs: seq<A>, ys: seq<A>)
    requires multiset(xs) <= multiset(ys)
    ensures |xs| <= |ys| && forall x | x in xs :: x in ys
  {
    assert |multiset(ys)| == |multiset(xs)| + |multiset(ys) - multiset(xs)|;
    forall x | x in xs ensures x in ys {
      assert x in multiset(xs);
    }
  }

  lemma {:induction false} FlatMapAgree<A, B>(e: A -> seq<B>, f: A -> seq<B>, xs: seq<A>)
    requires forall x | x in xs :: e(x) == f(x)
    ensures FlatMap(e, xs) == FlatMap(f, xs)
  {
    if |xs| != 0 {
      assert xs[0] in xs;
      FlatMapAgree(e, f, xs[1..]);
    }
  }

  /** Expanding twice is expanding by the composition. */
  function Then<A, B, C>(e: A -> seq<B>, f: B -> seq<C>): A -> seq<C> {
    x => FlatMap(f, e(x))
  }

  lemma {:induction false} FlatMapThen<A, B, C>(e: A -> seq<B>, f: B -> seq<C>, xs: seq<A>)
    ensures FlatMap(f, FlatMap(e, xs)) == FlatMap(Then(e, f), xs)
  {
    if |xs| != 0 {
      FlatMapThen(e, f, xs[1..]);
      FlatMapAppend(f, e(xs[0]), FlatMap(e, xs[1..]));
    }
  }

  /** Every element expands to at least one. */
  ghost predicate NeverEmpty<A(!new), B>(e: A -> seq<B>) {
    forall x :: |e(x)| > 0
  }

  lemma {:induction false} FlatMapGrows<A(!new), B>(e: A -> seq<B>, xs: seq<A>)
    requires NeverEmpty(e)
    ensures |FlatMap(e, xs)| >= |xs|
    ensures |FlatMap(e, xs)| == |xs| <==> forall x | x in xs :: |e(x)| == 1
  {
    if |xs| != 0 {
      FlatMapGrows(e, xs[1..]);
      assert xs == [xs[0]] + xs[1..];
      assert |e(xs[0])| > 0;
    }
  }

  lemma ThenNeverEmpty<A(!new), B(!new), C>(e: A -> seq<B>, f: B -> seq<C>)
    requires NeverEmpty(e) && NeverEmpty(f)
    ensures NeverEmpty(Then(e, f))
  {
    forall x ensures |Then(e, f)(x)| > 0 {
      assert |e(x)| > 0;
      FlatMapGrows(f, e(x));
    }
  }

  /** The order cannot tell an element from what it expands to. */
  ghost predicate OrderKept<A(!new)>(le: (A, A) -> bool, e: A -> seq<A>) {
    forall x, y, x', y' :: x' in e(x) && y' in e(y) ==> le(x', y') == le(x, y)
  }

  function InsertAll<A>(le: (A, A) -> bool, block: seq<A>, xs: seq<A>): seq<A> {
    if |block| == 0 then xs else Insert(le, block[0], InsertAll(le, block[1..], xs))
  }

  lemma {:induction false} SortBlock<A>(le: (A, A) -> bool, block: seq<A>, xs: seq<A>)
    ensures StableSort(le, block + xs) == InsertAll(le, block, StableSort(le, xs))
  {
    if |block| == 0 {
      assert block + xs == xs;
    } else {
      SortBlock(le, block[1..], xs);
      assert (block + xs)[1..] == block[1..] + xs;
    }
  }

  lemma InsertCons<A>(le: (A, A) -> bool, x: A, y: A, xs: seq<A>)
    requires !le(x, y)
    ensures Insert(le, x, [y] + xs) == [y] + Insert(le, x, xs)
  {
    assert ([y] + xs)[1..] == xs;
  }

  lemma {:induction false} InsertPast<A>(le: (A, A) -> bool, x: A, smaller: seq<A>, xs: seq<A>)
    requires forall s | s in smaller :: !le(x, s)
    ensures Insert(le, x, smaller + xs) == smaller + Insert(le, x, xs)
  {
    if |smaller| == 0 {
      assert smaller + xs == xs;
    } else {
      hide Insert;
      InsertPast(le, x, smaller[1..], xs);
      assert smaller == [smaller[0]] + smaller[1..];
      Associative([smaller[0]], smaller[1..], xs);
      InsertCons(le, x, smaller[0], smaller[1..] + xs);
      Associative([smaller[0]], smaller[1..], Insert(le, x, xs));
    }
  }

  lemma {:induction false} InsertAllPast<A>(le: (A, A) -> bool, block: seq<A>, smaller: seq<A>, xs: seq<A>)
    requires forall b, s | b in block && s in smaller :: !le(b, s)
    ensures InsertAll(le, block, smaller + xs) == smaller + InsertAll(le, block, xs)
  {
    if |block| != 0 {
      InsertAllPast(le, block[1..], smaller, xs);
      InsertPast(le, block[0], smaller, InsertAll(le, block[1..], xs));
    }
  }

  lemma {:induction false} InsertAllInFront<A>(le: (A, A) -> bool, block: seq<A>, xs: seq<A>)
    requires forall b, c | b in block && c in block :: le(b, c)
    requires |xs| > 0 ==> forall b | b in block :: le(b, xs[0])
    ensures InsertAll(le, block, xs) == block + xs
  {
    if |block| != 0 {
      InsertAllInFront(le, block[1..], xs);
      assert block[0] in block;
      assert |block| > 1 ==> block[1] in block;
      assert block + xs == [block[0]] + (block[1..] + xs);
    }
  }

  /** Inserting an element's expansion into an expansion is expanding after inserting the element. */
  lemma {:induction false} InsertExpanded<A(!new)>(le: (A, A) -> bool, e: A -> seq<A>, x: A, xs: seq<A>)
    requires TotalPreorder(le) && OrderKept(le, e) && NeverEmpty(e)
    ensures InsertAll(le, e(x), FlatMap(e, xs)) == FlatMap(e, Insert(le, x, xs))
  {
    assert le(x, x);
    if |xs| == 0 {
      InsertAllInFront(le, e(x), []);
      assert FlatMap(e, [x]) == e(x) + FlatMap(e, []);
    } else if le(x, xs[0]) {
      assert FlatMap(e, xs)[0] == e(xs[0])[0] && e(xs[0])[0] in e(xs[0]);
      InsertAllInFront(le, e(x), FlatMap(e, xs));
      assert ([x] + xs)[1..] == xs;
    } else {
      InsertExpanded(le, e, x, xs[1..]);
      InsertAllPast(le, e(x), e(xs[0]), FlatMap(e, xs[1..]));
    }
  }

  /** Sorting and expanding commute. */
  lemma {:induction false} SortExpanded<A(!new)>(le: (A, A) -> bool, e: A -> seq<A>, xs: seq<A>)
    requires TotalPreorder(le) && OrderKept(le, e) && NeverEmpty(e)
    ensures StableSort(le, FlatMap(e, xs)) == FlatMap(e, StableSort(le, xs))
  {
    if |xs| != 0 {
      SortExpanded(le, e, xs[1..]);
      SortBlock(le, e(xs[0]), FlatMap(e, xs[1..]));
      InsertExpanded(le, e, xs[0], StableSort(le, xs[1..]));
    }
  }

  ghost predicate SelectKept<A(!new)>(p: A -> bool, e: A -> seq<A>) {
    forall x, x' :: x' in e(x) ==> p(x') == p(x)
  }

  lemma {:induction false} SelectAll<A>(p: A -> bool, xs: seq<A>, keep: bool)
    requires forall x | x in xs :: p(x) == keep
    ensures Select(p, xs) == if keep then xs else []
  {
    if |xs| != 0 {
      assert xs[0] in xs;
      SelectAll(p, xs[1..], keep);
    }
  }

  /** A second condition drops something exactly if some selected element fails it. */
  lemma {:induction false} SelectBothShorter<A>(p: A -> bool, q: A -> bool, xs: seq<A>)
    ensures |Select(Both(p, q), xs)| <= |Select(p, xs)|
    ensures |Select(Both(p, q), xs)| == |Select(p, xs)| <==> forall x | x in xs && p(x) :: q(x)
  {
    if |xs| != 0 {
      SelectBothShorter(p, q, xs[1..]);
      assert forall x :: x in xs <==> x == xs[0] || x in xs[1..];
    }
  }

  lemma {:induction false} SelectSubset<A>(p: A -> bool, xs: seq<A>)
    ensures multiset(Select(p, xs)) <= multiset(xs)
  {
    if |xs| != 0 {
      SelectSubset(p, xs[1..]);
      assert xs == [xs[0]] + xs[1..];
    }
  }

  /** Filtering and expanding commute. */
  lemma {:induction false} SelectExpanded<A(!new)>(p: A -> bool, e: A -> seq<A>, xs: seq<A>)
    requires SelectKept(p, e)
    ensures Select(p, FlatMap(e, xs)) == FlatMap(e, Select(p, xs))
  {
    if |xs| != 0 {
      SelectExpanded(p, e, xs[1..]);
      SelectAppend(p, e(xs[0]), FlatMap(e, xs[1..]));
      SelectAll(p, e(xs[0]), p(xs[0]));
      FlatMapAppend(e, if p(xs[0]) then [xs[0]] else [], Select(p, xs[1..]));
      assert FlatMap(e, [xs[0]]) == e(xs[0]) + FlatMap(e, []);
    }
  }

  // ---------- pages ----------

  function Take<A>(xs: seq<A>, n: nat): seq<A> {
    if n < |xs| then xs[..n] else xs
  }

  function Drop<A>(xs: seq<A>, n: nat): seq<A> {
    if n < |xs| then xs[n..] else []
  }

  function Page<A>(xs: seq<A>, offset: nat, limit: nat): seq<A> {
    Take(Drop(xs, offset), limit)
  }

  /** A page is the whole exactly if there is nothing, or nothing is skipped and all of it fits. */
  lemma PageWhole<A>(xs: seq<A>, offset: nat, limit: nat)
    ensures Page(xs, offset, limit) == xs <==> |xs| == 0 || (offset == 0 && |xs| <= limit)
  {
    assert |Page(xs, offset, limit)| <= |xs|;
    if offset > 0 && |xs| > 0 {
      assert |Page(xs, offset, limit)| < |xs|;
    }
  }

  lemma PageMembers<A>(xs: seq<A>, offset: nat, limit: nat, x: A)
    requires x in Page(xs, offset, limit)
    ensures x in xs
  {
  }

  lemma PageOfFront<A>(front: seq<A>, back: seq<A>, offset: nat, limit: nat)
    requires offset + limit <= |front|
    ensures Page(front, offset, limit) == Page(front + back, offset, limit)
  {
  }

  /** Expanding only the first `w` elements is enough for any page that ends within `w`. */
  lemma PageExpanded<A(!new), B>(e: A -> seq<B>, xs: seq<A>, offset: nat, limit: nat, w: nat)
    requires NeverEmpty(e) && (offset + limit <= w || |xs| <= w)
    ensures Page(FlatMap(e, Take(xs, w)), offset, limit) == Page(FlatMap(e, xs), offset, limit)
  {
    if w < |xs| {
      FlatMapAppend(e, xs[..w], xs[w..]);
      assert xs == xs[..w] + xs[w..];
      FlatMapGrows(e, xs[..w]);
      PageOfFront(FlatMap(e, xs[..w]), FlatMap(e, xs[w..]), offset, limit);
    }
  }

  lemma TakeSorted<A>(le: (A, A) -> bool, xs: seq<A>, w: nat)
    requires SortedBy(le, xs)
    ensures SortedBy(le, Take(xs, w))
  {
  }

  lemma TakeSubset<A>(xs: seq<A>, n: nat)
    ensures multiset(Take(xs, n)) <= multiset(xs)
  {
    if n < |xs| {
      assert xs == xs[..n] + xs[n..];
    }
  }

  lemma PageOfNothing<A>(xs: seq<A>, offset: nat)
    ensures Page(xs, offset, 0) == []
  {
  }

  // ---------- de-duplication ----------

  predicate Seen<A(==), K(==)>(key: A -> K, acc: seq<A>, k: K) {
    exists a | a in acc :: key(a) == k
  }

  /** Appends what has not been seen by key. */
  function DedupAppend<A(==), K(==)>(key: A -> K, acc: seq<A>, batch: seq<A>): seq<A>
    decreases |batch|
  {
    if |batch| == 0 then acc
    else DedupAppend(key, if Seen(key, acc, key(batch[0])) then acc else acc + [batch[0]], batch[1..])
  }

  ghost predicate DistinctBy<A, K>(key: A -> K, xs: seq<A>) {
    forall i, j | 0 <= i < j < |xs| :: key(xs[i]) != key(xs[j])
  }

  /** The predicate depends on the key alone, as far as these elements go. */
  ghost predicate KeyDecides<A, K>(key: A -> K, p: A -> bool, xs: seq<A>) {
    forall x, y | x in xs && y in xs && key(x) == key(y) :: p(x) == p(y)
  }

  lemma DedupCons<A, K>(key: A -> K, acc: seq<A>, b: A, rest: seq<A>)
    ensures DedupAppend(key, acc, [b] + rest)
         == DedupAppend(key, if Seen(key, acc, key(b)) then acc else acc + [b], rest)
  {
    assert ([b] + rest)[1..] == rest;
  }

  lemma {:induction false} DedupAppendSnoc<A, K>(key: A -> K, acc: seq<A>, batch: seq<A>, x: A)
    ensures var before := DedupAppend(key, acc, batch);
      DedupAppend(key, acc, batch + [x]) == if Seen(key, before, key(x)) then before else before + [x]
    decreases |batch|
  {
    if |batch| == 0 {
      assert batch + [x] == [x];
      assert DedupAppend(key, acc, [x]) == DedupAppend(key, if Seen(key, acc, key(x)) then acc else acc + [x], [x][1..]);
    } else {
      assert (batch + [x])[1..] == batch[1..] + [x];
      DedupAppendSnoc(key, if Seen(key, acc, key(batch[0])) then acc else acc + [batch[0]], batch[1..], x);
    }
  }

  lemma SeenSnoc<A, K>(key: A -> K, acc: seq<A>, x: A)
    ensures forall k :: Seen(key, acc + [x], k) <==> Seen(key, acc, k) || k == key(x)
  {
    forall k ensures Seen(key, acc + [x], k) <==> Seen(key, acc, k) || k == key(x) {
      if Seen(key, acc, k) {
        var a :| a in acc && key(a) == k;
        assert a in acc + [x];
      }
      assert x in acc + [x];
    }
  }

  lemma {:induction false} DedupKeepsOne<A, K>(key: A -> K, acc: seq<A>, batch: seq<A>, x: A)
    requires x in acc || x in batch
    ensures exists y :: y in DedupAppend(key, acc, batch) && key(y) == key(x)
    decreases |batch|
  {
    if |batch| == 0 {
      assert x in DedupAppend(key, acc, batch);
    } else {
      var next := if Seen(key, acc, key(batch[0])) then acc else acc + [batch[0]];
      if x == batch[0] {
        assert Seen(key, next, key(x));
        var a :| a in next && key(a) == key(x);
        DedupKeepsOne(key, next, batch[1..], a);
      } else {
        assert x in acc || x in batch[1..];
        DedupKeepsOne(key, next, batch[1..], x);
      }
    }
  }

  lemma SelectSnoc<A>(p: A -> bool, xs: seq<A>, x: A)
    ensures Select(p, xs + [x]) == if p(x) then Select(p, xs) + [x] else Select(p, xs)
  {
    SelectAppend(p, xs, [x]);
    assert Select(p, [x]) == (if p(x) then [x] else []) + Select(p, []);
  }

  lemma {:induction false} SeenSelected<A, K>(key: A -> K, p: A -> bool, acc: seq<A>, b: A)
    requires p(b) && forall a | a in acc && key(a) == key(b) :: p(a) == p(b)
    ensures Seen(key, Select(p, acc), key(b)) <==> Seen(key, acc, key(b))
  {
    if |acc| != 0 {
      SeenSelected(key, p, acc[1..], b);
      SeenFirst(key, acc, key(b));
      if p(acc[0]) {
        SeenFirst(key, [acc[0]] + Select(p, acc[1..]), key(b));
      } else {
        assert acc[0] in acc;
      }
    }
  }

  lemma SeenFirst<A, K>(key: A -> K, acc: seq<A>, k: K)
    requires |acc| > 0
    ensures Seen(key, acc, k) <==> key(acc[0]) == k || Seen(key, acc[1..], k)
  {
    assert acc[0] in acc;
  }

  /** De-duplicating and filtering commute when the key decides the filter. */
  lemma {:induction false} DedupSelect<A, K>(key: A -> K, p: A -> bool, acc: seq<A>, batch: seq<A>)
    requires KeyDecides(key, p, acc + batch)
    ensures Select(p, DedupAppend(key, acc, batch)) == DedupAppend(key, Select(p, acc), Select(p, batch))
    decreases |batch|
  {
    if |batch| != 0 {
      var b := batch[0];
      var acc' := if Seen(key, acc, key(b)) then acc else acc + [b];
      assert forall x | x in acc' + batch[1..] :: x in acc + batch;
      DedupSelect(key, p, acc', batch[1..]);
      assert b in acc + batch && forall a | a in acc :: a in acc + batch;
      SelectSnoc(p, acc, b);
      if p(b) {
        SeenSelected(key, p, acc, b);
        DedupCons(key, Select(p, acc), b, Select(p, batch[1..]));
      } else {
        assert Select(p, batch) == Select(p, batch[1..]);
      }
    }
  }

  /** Distinct elements that are all new are all appended. */
  lemma {:induction false} DedupFresh<A, K>(key: A -> K, acc: seq<A>, batch: seq<A>)
    requires DistinctBy(key, acc + batch)
    ensures DedupAppend(key, acc, batch) == acc + batch
    decreases |batch|
  {
    if |batch| != 0 {
      var all := acc + batch;
      forall a | a in acc ensures key(a) != key(batch[0]) {
        var i :| 0 <= i < |acc| && acc[i] == a;
        assert all[i] == a && all[|acc|] == batch[0];
      }
      assert acc + [batch[0]] + batch[1..] == all;
      DedupFresh(key, acc + [batch[0]], batch[1..]);
    }
  }

  /** Elements already there are not appended. */
  lemma {:induction false} DedupOld<A, K>(key: A -> K, acc: seq<A>, batch: seq<A>)
    requires forall b | b in batch :: b in acc
    ensures DedupAppend(key, acc, batch) == acc
    decreases |batch|
  {
    if |batch| != 0 {
      assert batch[0] in batch;
      DedupOld(key, acc, batch[1..]);
    }
  }

  /** De-duplicating whole batches, one after the other. */
  function DedupAll<A(==), K(==)>(key: A -> K, acc: seq<A>, batches: seq<seq<A>>): seq<A>
    decreases |batches|
  {
    if |batches| == 0 then acc else DedupAll(key, DedupAppend(key, acc, batches[0]), batches[1..])
  }

  lemma {:induction false} DedupMembers<A, K>(key: A -> K, acc: seq<A>, batch: seq<A>)
    ensures forall x | x in DedupAppend(key, acc, batch) :: x in acc || x in batch
    decreases |batch|
  {
    if |batch| != 0 {
      DedupMembers(key, if Seen(key, acc, key(batch[0])) then acc else acc + [batch[0]], batch[1..]);
    }
  }

  /** Of a class of elements decided by the key, each batch holds all, in one order, or none: then
      so does the de-duplicated whole, and it holds all as soon as some batch does. */
  lemma {:induction false} DedupKeepsClass<A, K>(key: A -> K, p: A -> bool, universe: seq<A>, whole: seq<A>,
                                                  acc: seq<A>, batches: seq<seq<A>>)
    requires DistinctBy(key, whole) && KeyDecides(key, p, universe)
    requires forall x | x in acc :: x in universe
    requires forall b, x | b in batches && x in b :: x in universe
    requires Select(p, acc) == [] || Select(p, acc) == whole
    requires forall b | b in batches :: Select(p, b) == [] || Select(p, b) == whole
    ensures var all := Select(p, DedupAll(key, acc, batches));
      all == if Select(p, acc) == whole || exists b :: b in batches && Select(p, b) == whole then whole else []
    decreases |batches|
  {
    if |batches| != 0 {
      var b := batches[0];
      assert b in batches && batches == [b] + batches[1..];
      var next := DedupAppend(key, acc, b);
      assert forall x | x in acc + b :: x in universe;
      DedupSelect(key, p, acc, b);
      DedupMembers(key, acc, b);
      if Select(p, b) == [] {
        assert Select(p, next) == Select(p, acc);
      } else if Select(p, acc) == [] {
        assert [] + whole == whole;
        DedupFresh(key, [], whole);
      } else {
        DedupOld(key, whole, whole);
      }
      DedupKeepsClass(key, p, universe, whole, next, batches[1..]);
    }
  }

  lemma {:induction false} DedupAppendMap<A, B, K>(key: B -> K, f: A -> B, acc: seq<A>, batch: seq<A>)
    ensures DedupAppend(key, Map(f, acc), Map(f, batch)) == Map(f, DedupAppend(Composed(key, f), acc, batch))
    decreases |batch|
  {
    if |batch| != 0 {
      var k := Composed(key, f);
      var mapped := Map(f, acc);
      assert Seen(key, mapped, key(f(batch[0]))) <==> Seen(k, acc, k(batch[0])) by {
        if Seen(k, acc, k(batch[0])) {
          var a :| a in acc && k(a) == k(batch[0]);
          var i :| 0 <= i < |acc| && acc[i] == a;
          assert mapped[i] in mapped;
        }
        if Seen(key, mapped, key(f(batch[0]))) {
          var m :| m in mapped && key(m) == key(f(batch[0]));
          var i :| 0 <= i < |mapped| && mapped[i] == m;
          assert acc[i] in acc && k(acc[i]) == k(batch[0]);
        }
      }
      MapAppend(f, acc, [batch[0]]);
      assert Map(f, [batch[0]]) == [f(batch[0])];
      DedupAppendMap(key, f, if Seen(k, acc, k(batch[0])) then acc else acc + [batch[0]], batch[1..]);
      assert Map(f, batch)[1..] == Map(f, batch[1..]);
    }
  }

  function MapEach<A, B>(f: A -> B): seq<A> -> seq<B> {
    (xs: seq<A>) => Map(f, xs)
  }

  lemma {:induction false} DedupAllMap<A, B, K>(key: B -> K, f: A -> B, acc: seq<A>, batches: seq<seq<A>>)
    ensures DedupAll(key, Map(f, acc), Map(MapEach(f), batches)) == Map(f, DedupAll(Composed(key, f), acc, batches))
    decreases |batches|
  {
    if |batches| != 0 {
      DedupAppendMap(key, f, acc, batches[0]);
      DedupAllMap(key, f, DedupAppend(Composed(key, f), acc, batches[0]), batches[1..]);
      assert Map(MapEach(f), batches)[1..] == Map(MapEach(f), batches[1..]);
    }
  }

  lemma {:induction false} SelectDistinct<A(!new), K>(key: A -> K, p: A -> bool, xs: seq<A>)
    requires DistinctBy(key, xs)
    ensures DistinctBy(key, Select(p, xs))
  {
    if |xs| != 0 {
      SelectDistinct(key, p, xs[1..]);
      var rest := Select(p, xs[1..]);
      SelectMembers(p, xs[1..]);
      forall i | 0 <= i < |rest| ensures key(rest[i]) != key(xs[0]) {
        assert rest[i] in xs[1..];
        var j :| 0 <= j < |xs| - 1 && xs[1..][j] == rest[i];
      }
    }
  }

  lemma DistinctSnoc<A, K>(key: A -> K, xs: seq<A>, x: A)
    requires DistinctBy(key, xs) && !Seen(key, xs, key(x))
    ensures DistinctBy(key, xs + [x])
  {
    assert forall i | 0 <= i < |xs| :: xs[i] in xs;
  }

  lemma DistinctDecides<A, K>(key: A -> K, p: A -> bool, xs: seq<A>)
    requires DistinctBy(key, xs)
    ensures KeyDecides(key, p, xs)
  {
  }

  /** A selection either agrees with another on every element, or keeps nothing the other does. */
  lemma SelectAllOrNone<A>(p: A -> bool, q: A -> bool, xs: seq<A>, keep: bool)
    requires forall x | x in xs :: p(x) == (q(x) && keep)
    ensures Select(p, xs) == if keep then Select(q, xs) else []
  {
    if keep {
      SelectAgree(p, q, xs);
    } else {
      SelectAll(p, xs, false);
    }
  }

  lemma {:induction false} DedupAllMembers<A, K>(key: A -> K, acc: seq<A>, batches: seq<seq<A>>, x: A)
    requires x in DedupAll(key, acc, batches)
    ensures x in acc || exists b :: b in batches && x in b
    decreases |batches|
  {
    if |batches| != 0 {
      assert batches[0] in batches;
      DedupMembers(key, acc, batches[0]);
      DedupAllMembers(key, DedupAppend(key, acc, batches[0]), batches[1..], x);
    }
  }
}
