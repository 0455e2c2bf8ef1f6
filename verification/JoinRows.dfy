/** Flat rows, qualified names, composed keys and fingerprints of the join executor. */
module JoinRows {
  import opened Bytes
  import opened Wrappers
  import opened Sequences

  /** Qualified column name to value. */
  type FlatRow = map<Text, Text>

  const DOT: Byte := 46
  const EQUALS: Byte := 61
  /** The unit separator between the parts of keys and fingerprints. */
  const SEPARATOR: Byte := 31

  function Qualify(alias: Text, field: Text): Text {
    alias + [DOT] + field
  }

  /** A text before its first separator, and the rest, are determined by the whole. */
  lemma SplitAtFirst(sep: Byte, a: Text, x: Text, b: Text, y: Text)
    requires sep !in a && sep !in b
    ensures a + [sep] + x == b + [sep] + y <==> a == b && x == y
  {
    var q, r := a + [sep] + x, b + [sep] + y;
    if q == r {
      assert q[|a|] == sep && r[|b|] == sep;
      assert forall i | 0 <= i < |a| :: q[i] == a[i] && a[i] in a;
      assert forall i | 0 <= i < |b| :: r[i] == b[i] && b[i] in b;
      assert |a| == |b|;
      assert q[..|a|] == a && r[..|b|] == b;
      assert q[|a| + 1..] == x && r[|b| + 1..] == y;
    }
  }

  /** Aliases without dots keep the columns of different tables apart. */
  lemma QualifyInjective(a: Text, f: Text, b: Text, g: Text)
    requires DOT !in a && DOT !in b
    ensures Qualify(a, f) == Qualify(b, g) <==> a == b && f == g
  {
    SplitAtFirst(DOT, a, f, b, g);
  }

  /** Parts joined by the separator. */
  function JoinParts(parts: seq<Text>): Text {
    if |parts| == 0 then [] else if |parts| == 1 then parts[0] else parts[0] + [SEPARATOR] + JoinParts(parts[1..])
  }

  ghost predicate SeparatorFree(parts: seq<Text>) {
    forall p | p in parts :: SEPARATOR !in p
  }

  /** Equally many parts without separators are determined by their join; a single part always is. */
  lemma {:induction false} JoinPartsInjective(xs: seq<Text>, ys: seq<Text>)
    requires |xs| == |ys|
    requires |xs| <= 1 || (SeparatorFree(xs) && SeparatorFree(ys))
    ensures JoinParts(xs) == JoinParts(ys) <==> xs == ys
  {
    if |xs| > 1 && JoinParts(xs) == JoinParts(ys) {
      assert xs[0] in xs && ys[0] in ys;
      SplitAtFirst(SEPARATOR, xs[0], JoinParts(xs[1..]), ys[0], JoinParts(ys[1..]));
      JoinPartsInjective(xs[1..], ys[1..]);
      assert xs == [xs[0]] + xs[1..] && ys == [ys[0]] + ys[1..];
    }
  }

  lemma JoinPartsCons(x: Text, rest: seq<Text>)
    requires |rest| > 0
    ensures JoinParts([x] + rest) == x + [SEPARATOR] + JoinParts(rest)
  {
    assert ([x] + rest)[1..] == rest;
  }

  /** Another key of as many parts, with the same composed text. */
  ghost predicate Collides(xs: seq<Text>, ys: seq<Text>) {
    |ys| == |xs| && JoinParts(ys) == JoinParts(xs) && ys != xs
  }

  /** Where the first part contains a separator, the split between it and the next can be moved there. */
  lemma FirstCollides(xs: seq<Text>, i: nat)
    requires |xs| >= 2 && i < |xs[0]| && xs[0][i] == SEPARATOR
    ensures exists ys :: Collides(xs, ys)
  {
    var x, y, rest := xs[0], xs[1], xs[2..];
    var front, back := x[..i], x[i + 1..] + [SEPARATOR] + y;
    var ys := [front, back] + rest;
    assert x == front + [SEPARATOR] + x[i + 1..] && |front| < |x| && ys[0] == front;
    assert xs == [x] + ([y] + rest) && ys == [front] + ([back] + rest);
    JoinPartsCons(x, [y] + rest);
    JoinPartsCons(front, [back] + rest);
    if |rest| == 0 {
      assert [y] + rest == [y] && [back] + rest == [back];
    } else {
      JoinPartsCons(y, rest);
      JoinPartsCons(back, rest);
    }
    assert JoinParts([back] + rest) == x[i + 1..] + [SEPARATOR] + JoinParts([y] + rest);
    assert JoinParts(ys) == front + [SEPARATOR] + x[i + 1..] + [SEPARATOR] + JoinParts([y] + rest);
    assert Collides(xs, ys);
  }

  /** Where the last of two parts contains a separator, the split can be moved there as well. */
  lemma LastCollides(xs: seq<Text>, i: nat)
    requires |xs| == 2 && i < |xs[1]| && xs[1][i] == SEPARATOR
    ensures exists ys :: Collides(xs, ys)
  {
    var x, y := xs[0], xs[1];
    var ys := [x + [SEPARATOR] + y[..i], y[i + 1..]];
    assert y == y[..i] + [SEPARATOR] + y[i + 1..] && |ys[1]| < |y|;
    assert xs == [x] + [y] && ys == [ys[0]] + [ys[1]];
    JoinPartsCons(x, [y]);
    JoinPartsCons(ys[0], [ys[1]]);
    assert Collides(xs, ys);
  }

  lemma {:induction false} SeparatorCollides(xs: seq<Text>, p: nat, i: nat)
    requires |xs| >= 2 && p < |xs| && i < |xs[p]| && xs[p][i] == SEPARATOR
    ensures exists ys :: Collides(xs, ys)
  {
    if p == 0 {
      FirstCollides(xs, i);
    } else if |xs| == 2 {
      LastCollides(xs, i);
    } else {
      SeparatorCollides(xs[1..], p - 1, i);
      var rest :| Collides(xs[1..], rest);
      assert xs == [xs[0]] + xs[1..];
      JoinPartsCons(xs[0], xs[1..]);
      JoinPartsCons(xs[0], rest);
      assert ([xs[0]] + rest)[1..] == rest;
      assert Collides(xs, [xs[0]] + rest);
    }
  }

  lemma {:induction false} SeparatorCount(xs: seq<Text>)
    requires |xs| > 0
    ensures multiset(JoinParts(xs))[SEPARATOR] >= |xs| - 1
    ensures multiset(JoinParts(xs))[SEPARATOR] == |xs| - 1 <==> SeparatorFree(xs)
  {
    assert xs[0] in xs;
    if |xs| > 1 {
      SeparatorCount(xs[1..]);
      assert forall p :: p in xs <==> p == xs[0] || p in xs[1..];
      assert multiset(JoinParts(xs))[SEPARATOR] == multiset(xs[0])[SEPARATOR] + 1 + multiset(JoinParts(xs[1..]))[SEPARATOR];
    } else {
      assert forall p :: p in xs <==> p == xs[0];
    }
  }

  /** No other key has the composed text exactly if no part contains the separator. */
  lemma SeparatorFreeIff(xs: seq<Text>)
    requires |xs| >= 2
    ensures SeparatorFree(xs) <==> forall ys | |ys| == |xs| && JoinParts(ys) == JoinParts(xs) :: ys == xs
  {
    hide JoinParts;
    if SeparatorFree(xs) {
      forall ys | |ys| == |xs| && JoinParts(ys) == JoinParts(xs) ensures ys == xs {
        SeparatorCount(xs);
        SeparatorCount(ys);
        JoinPartsInjective(xs, ys);
      }
    } else {
      var part :| part in xs && SEPARATOR in part;
      var p :| 0 <= p < |xs| && xs[p] == part;
      var i :| 0 <= i < |part| && part[i] == SEPARATOR;
      SeparatorCollides(xs, p, i);
      var ys :| Collides(xs, ys);
      assert |ys| == |xs|;
    }
  }

  datatype QualifiedField = QualifiedField(alias: Text, field: Text, qualified: Text) {
    ghost predicate Valid() {
      qualified == Qualify(alias, field)
    }
  }

  datatype Condition = Condition(existing: QualifiedField, joining: QualifiedField)

  datatype JoinKind = Inner | Left

  datatype ResolvedJoin = ResolvedJoin(
    alias: Text,
    kind: JoinKind,
    conditions: seq<Condition>,
    countAs: Option<Text>,
    sumField: Option<Text>,
    sumAs: Option<Text>)
  {
    predicate Aggregates() {
      countAs.Some? || (sumField.Some? && sumAs.Some?)
    }

    /** What resolving a query's joins establishes. */
    ghost predicate Resolved() {
      && DOT !in alias && |conditions| > 0
      && (sumField.Some? <==> sumAs.Some?)
      && forall c | c in conditions :: c.existing.Valid() && c.joining.Valid() && c.joining.alias == alias
    }

    function ExistingSide(): seq<Text> {
      Map((c: Condition) => c.existing.qualified, conditions)
    }

    function JoiningSide(): seq<Text> {
      Map((c: Condition) => c.joining.qualified, conditions)
    }

    function JoiningFields(): seq<Text> {
      Map((c: Condition) => c.joining.field, conditions)
    }
  }

  /** The key normaliser, and how counts and sums are written. */
  datatype Keying = Keying(normalize: Text -> Text, countText: nat -> Text, sumText: seq<Text> -> Text)

  /** The normalised key of a row, if it has all the columns. */
  function KeyParts(k: Keying, row: FlatRow, columns: seq<Text>): Option<seq<Text>> {
    if |columns| == 0 then Some([])
    else if columns[0] !in row then None
    else
      match KeyParts(k, row, columns[1..])
      case None => None
      case Some(rest) => Some([k.normalize(row[columns[0]])] + rest)
  }

  lemma {:induction false} KeyPartsLength(k: Keying, row: FlatRow, columns: seq<Text>)
    ensures KeyParts(k, row, columns).Some? <==> forall c | c in columns :: c in row
    ensures KeyParts(k, row, columns).Some? ==>
              && |KeyParts(k, row, columns).value| == |columns|
              && forall i | 0 <= i < |columns| :: KeyParts(k, row, columns).value[i] == k.normalize(row[columns[i]])
  {
    if |columns| != 0 {
      KeyPartsLength(k, row, columns[1..]);
      assert columns == [columns[0]] + columns[1..];
    }
  }

  function ComposeKey(k: Keying, row: FlatRow, columns: seq<Text>): Option<Text> {
    match KeyParts(k, row, columns)
    case None => None
    case Some(parts) => Some(JoinParts(parts))
  }

  /** All columns of a fetched row, `name=value`, in sorted column order. */
  function FingerprintParts(columns: seq<Text>, row: FlatRow): seq<Text>
    requires forall c | c in columns :: c in row
  {
    if |columns| == 0 then []
    else [columns[0] + [EQUALS] + row[columns[0]]] + FingerprintParts(columns[1..], row)
  }
}
