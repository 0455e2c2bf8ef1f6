/** Filtering, and the stable sort of the standard library: the model of `sort_by`, together with
    the proof that sortedness and stability leave no other result. */
module Sorting {

  function Select<T>(p: T -> bool, xs: seq<T>): seq<T> {
    if |xs| == 0 then [] else (if p(xs[0]) then [xs[0]] else []) + Select(p, xs[1..])
  }

  lemma {:induction false} SelectMembers<T>(p: T -> bool, xs: seq<T>)
    ensures forall x :: x in Select(p, xs) <==> x in xs && p(x)
    ensures |Select(p, xs)| <= |xs|
  {
    if |xs| != 0 {
      SelectMembers(p, xs[1..]);
      assert forall x :: x in xs <==> x == xs[0] || x in xs[1..];
    }
  }

  lemma Associative<T>(xs: seq<T>, ys: seq<T>, zs: seq<T>)
    ensures (xs + ys) + zs == xs + (ys + zs)
  {
  }

  lemma {:induction false} SelectAppend<T>(p: T -> bool, xs: seq<T>, ys: seq<T>)
    ensures Select(p, xs + ys) == Select(p, xs) + Select(p, ys)
  {
    if |xs| == 0 {
      assert xs + ys == ys;
    } else {
      SelectAppend(p, xs[1..], ys);
      assert (xs + ys)[1..] == xs[1..] + ys;
      Associative(if p(xs[0]) then [xs[0]] else [], Select(p, xs[1..]), Select(p, ys));
    }
  }

  lemma SelectCons<T>(p: T -> bool, x: T, xs: seq<T>)
    ensures Select(p, [x] + xs) == (if p(x) then [x] else []) + Select(p, xs)
  {
    assert ([x] + xs)[1..] == xs;
  }

  lemma {:induction false} SelectAgree<T>(p: T -> bool, q: T -> bool, xs: seq<T>)
    requires forall x | x in xs :: p(x) == q(x)
    ensures Select(p, xs) == Select(q, xs)
  {
    if |xs| != 0 {
      assert xs[0] in xs;
      SelectAgree(p, q, xs[1..]);
    }
  }

  function Both<T>(p: T -> bool, q: T -> bool): T -> bool {
    x => p(x) && q(x)
  }

  lemma {:induction false} SelectSelect<T>(p: T -> bool, q: T -> bool, xs: seq<T>)
    ensures Select(p, Select(q, xs)) == Select(Both(p, q), xs)
  {
    if |xs| != 0 {
      SelectSelect(p, q, xs[1..]);
      SelectAppend(p, if q(xs[0]) then [xs[0]] else [], Select(q, xs[1..]));
    }
  }

  ghost predicate TotalPreorder<T(!new)>(le: (T, T) -> bool) {
    && (forall x, y :: le(x, y) || le(y, x))
    && (forall x, y, z :: le(x, y) && le(y, z) ==> le(x, z))
  }

  ghost predicate SortedBy<T>(le: (T, T) -> bool, xs: seq<T>) {
    forall i, j | 0 <= i < j < |xs| :: le(xs[i], xs[j])
  }

  function Equivalent<T>(le: (T, T) -> bool, x: T): T -> bool {
    y => le(x, y) && le(y, x)
  }

  /** `x` goes in front of the first element that is not smaller. */
  function Insert<T>(le: (T, T) -> bool, x: T, xs: seq<T>): seq<T> {
    if |xs| == 0 || le(x, xs[0]) then [x] + xs else [xs[0]] + Insert(le, x, xs[1..])
  }

  function StableSort<T>(le: (T, T) -> bool, xs: seq<T>): seq<T> {
    if |xs| == 0 then [] else Insert(le, xs[0], StableSort(le, xs[1..]))
  }

  lemma {:induction false} InsertAgree<T>(le: (T, T) -> bool, other: (T, T) -> bool, x: T, xs: seq<T>)
    requires forall y | y in xs :: le(x, y) == other(x, y)
    ensures Insert(le, x, xs) == Insert(other, x, xs)
  {
    if |xs| != 0 {
      assert xs[0] in xs;
      InsertAgree(le, other, x, xs[1..]);
    }
  }

  /** Sorting depends on the relation only between the elements. */
  lemma {:induction false} SortAgree<T>(le: (T, T) -> bool, other: (T, T) -> bool, xs: seq<T>)
    requires forall x, y | x in xs && y in xs :: le(x, y) == other(x, y)
    ensures StableSort(le, xs) == StableSort(other, xs)
  {
    if |xs| != 0 {
      SortAgree(le, other, xs[1..]);
      var rest := StableSort(other, xs[1..]);
      SortPermutes(other, xs[1..]);
      forall y | y in rest ensures le(xs[0], y) == other(xs[0], y) {
        assert y in multiset(rest);
        assert y in multiset(xs[1..]);
      }
      InsertAgree(le, other, xs[0], rest);
    }
  }

  lemma {:induction false} InsertMultiset<T>(le: (T, T) -> bool, x: T, xs: seq<T>)
    ensures multiset(Insert(le, x, xs)) == multiset{x} + multiset(xs)
  {
    if |xs| != 0 && !le(x, xs[0]) {
      InsertMultiset(le, x, xs[1..]);
      assert xs == [xs[0]] + xs[1..];
    }
  }

  lemma {:induction false} SortPermutes<T>(le: (T, T) -> bool, xs: seq<T>)
    ensures multiset(StableSort(le, xs)) == multiset(xs)
    ensures |StableSort(le, xs)| == |xs|
    ensures forall x :: x in StableSort(le, xs) <==> x in xs
  {
    if |xs| != 0 {
      SortPermutes(le, xs[1..]);
      InsertMultiset(le, xs[0], StableSort(le, xs[1..]));
      assert xs == [xs[0]] + xs[1..];
    }
    assert |multiset(StableSort(le, xs))| == |multiset(xs)|;
    assert forall x :: x in StableSort(le, xs) <==> x in multiset(StableSort(le, xs));
  }

  lemma {:induction false} InsertSorted<T(!new)>(le: (T, T) -> bool, x: T, xs: seq<T>)
    requires TotalPreorder(le) && SortedBy(le, xs)
    ensures SortedBy(le, Insert(le, x, xs))
  {
    if |xs| != 0 {
      if le(x, xs[0]) {
        forall j | 0 <= j < |xs| ensures le(x, xs[j]) {
          assert le(xs[0], xs[j]);
        }
      } else {
        InsertSorted(le, x, xs[1..]);
        InsertMultiset(le, x, xs[1..]);
        var rest := Insert(le, x, xs[1..]);
        forall j | 0 <= j < |rest| ensures le(xs[0], rest[j]) {
          assert rest[j] in multiset(rest);
          assert rest[j] == x || rest[j] in xs[1..];
        }
      }
    }
  }

  lemma {:induction false} SortSorts<T(!new)>(le: (T, T) -> bool, xs: seq<T>)
    requires TotalPreorder(le)
    ensures SortedBy(le, StableSort(le, xs))
  {
    if |xs| != 0 {
      SortSorts(le, xs[1..]);
      InsertSorted(le, xs[0], StableSort(le, xs[1..]));
    }
  }

  /** Inserting puts `x` in front of every element it ties with. */
  lemma {:induction false} InsertIsStable<T(!new)>(le: (T, T) -> bool, x: T, xs: seq<T>, c: T)
    requires TotalPreorder(le)
    ensures Select(Equivalent(le, c), Insert(le, x, xs)) == Select(Equivalent(le, c), [x] + xs)
  {
    var p := Equivalent(le, c);
    if |xs| != 0 && !le(x, xs[0]) {
      InsertIsStable(le, x, xs[1..], c);
      SelectCons(p, xs[0], Insert(le, x, xs[1..]));
      SelectCons(p, x, xs[1..]);
      SelectCons(p, x, xs);
      assert !(p(x) && p(xs[0]));
    }
  }

  /** Elements that compare equal keep their original order. */
  lemma {:induction false} SortIsStable<T(!new)>(le: (T, T) -> bool, xs: seq<T>, c: T)
    requires TotalPreorder(le)
    ensures Select(Equivalent(le, c), StableSort(le, xs)) == Select(Equivalent(le, c), xs)
  {
    if |xs| != 0 {
      var rest := StableSort(le, xs[1..]);
      SortIsStable(le, xs[1..], c);
      InsertIsStable(le, xs[0], rest, c);
      SelectCons(Equivalent(le, c), xs[0], rest);
    }
  }

  /** Two sorted sequences with the same ties in the same order are the same sequence. */
  lemma {:induction false} SortedStableUnique<T(!new)>(le: (T, T) -> bool, xs: seq<T>, ys: seq<T>)
    requires TotalPreorder(le) && SortedBy(le, xs) && SortedBy(le, ys)
    requires forall c :: Select(Equivalent(le, c), xs) == Select(Equivalent(le, c), ys)
    ensures xs == ys
  {
    if |xs| == 0 {
      if |ys| != 0 {
        SelectMembers(Equivalent(le, ys[0]), ys);
      }
    } else {
      var x := xs[0];
      SelectMembers(Equivalent(le, x), xs);
      SelectMembers(Equivalent(le, x), ys);
      assert x in ys;
      var y := ys[0];
      SelectMembers(Equivalent(le, y), xs);
      SelectMembers(Equivalent(le, y), ys);
      assert y in xs;
      assert le(x, y) && le(y, x);
      assert Select(Equivalent(le, x), xs)[0] == x;
      assert Select(Equivalent(le, x), ys)[0] == y;
      forall c ensures Select(Equivalent(le, c), xs[1..]) == Select(Equivalent(le, c), ys[1..]) {
        var p := Equivalent(le, c);
        var k := if p(x) then 1 else 0;
        assert Select(p, xs)[k..] == Select(p, xs[1..]) && Select(p, ys)[k..] == Select(p, ys[1..]);
      }
      SortedStableUnique(le, xs[1..], ys[1..]);
      assert xs == [x] + xs[1..] && ys == [y] + ys[1..];
    }
  }

  /** Sorting what is sorted changes nothing. */
  lemma SortIdempotent<T(!new)>(le: (T, T) -> bool, xs: seq<T>)
    requires TotalPreorder(le) && SortedBy(le, xs)
    ensures StableSort(le, xs) == xs
  {
    SortSorts(le, xs);
    forall c ensures Select(Equivalent(le, c), StableSort(le, xs)) == Select(Equivalent(le, c), xs) {
      SortIsStable(le, xs, c);
    }
    SortedStableUnique(le, StableSort(le, xs), xs);
  }

  function ByKey<T>(key: T -> nat): (T, T) -> bool {
    (x, y) => key(x) <= key(y)
  }

  ghost predicate DistinctKeys<T>(key: T -> nat, xs: seq<T>) {
    forall i, j | 0 <= i < j < |xs| :: key(xs[i]) != key(xs[j])
  }

  ghost predicate AscendingKeys<T>(key: T -> nat, xs: seq<T>) {
    forall i, j | 0 <= i < j < |xs| :: key(xs[i]) < key(xs[j])
  }

  lemma DuplicateCount<T>(xs: seq<T>, i: nat, j: nat)
    requires i < j < |xs| && xs[i] == xs[j]
    ensures multiset(xs)[xs[i]] >= 2
  {
    assert xs == xs[..j] + [xs[j]] + xs[j + 1..];
    assert xs[i] in xs[..j];
  }

  lemma {:induction false} DistinctCount<T>(key: T -> nat, xs: seq<T>, x: T)
    requires DistinctKeys(key, xs)
    ensures multiset(xs)[x] <= 1
  {
    if |xs| != 0 {
      DistinctCount(key, xs[1..], x);
      assert xs == [xs[0]] + xs[1..];
      assert xs[0] !in xs[1..];
    }
  }

  /** Sorting by distinct keys gives a strictly ascending sequence. */
  lemma SortDistinctKeys<T(!new)>(key: T -> nat, xs: seq<T>)
    requires DistinctKeys(key, xs)
    ensures AscendingKeys(key, StableSort(ByKey(key), xs))
  {
    var sorted := StableSort(ByKey(key), xs);
    SortSorts(ByKey(key), xs);
    SortPermutes(ByKey(key), xs);
    forall i, j | 0 <= i < j < |sorted| ensures key(sorted[i]) < key(sorted[j]) {
      assert ByKey(key)(sorted[i], sorted[j]);
      if key(sorted[i]) == key(sorted[j]) {
        assert sorted[i] in xs && sorted[j] in xs;
        DuplicateCount(sorted, i, j);
        DistinctCount(key, xs, sorted[i]);
        assert false;
      }
    }
  }
}
