/** JSON values as far as grouping looks at them: their text, emptiness, and the order `Collect`
    sorts items by. */
module JsonValues {
  import opened Bytes
  import opened Wrappers
  import opened Sorting
  import opened Types
  import opened JoinRows

  const QUOTE: Byte := 34

  /** JSON text escapes control characters. */
  type JsonText = t: Text | SEPARATOR !in t witness []

  predicate StartsNumber(b: Byte) {
    b == 45 || 48 <= b <= 57
  }

  /** A number's text starts with a digit or a minus sign. */
  type NumberText = t: Text | |t| > 0 && StartsNumber(t[0]) && SEPARATOR !in t witness [48]

  /** `escaped`, `digits` and `body` are the value's text without quotes and opening brackets. */
  datatype Json =
    | Null
    | Bool(value: bool)
    | Number(float: real, digits: NumberText)
    | String(text: Text, escaped: JsonText)
    | Array(body: JsonText)
    | Object(body: JsonText)

  type Row = map<Text, Json>

  function Print(v: Json): (t: JsonText)
    ensures |t| > 0
  {
    match v
    case Null => [110, 117, 108, 108]
    case Bool(true) => [116, 114, 117, 101]
    case Bool(false) => [102, 97, 108, 115, 101]
    case Number(_, digits) => digits
    case String(_, escaped) => [QUOTE] + escaped + [QUOTE]
    case Array(body) => [91] + body
    case Object(body) => [123] + body
  }

  /** Nothing to show: null or the empty string. */
  predicate Blank(v: Json) {
    v == Null || (v.String? && v.text == [])
  }

  // ---------- the order of collected items ----------

  function CompareScalar(left: Option<Json>, right: Option<Json>): Ordering {
    match (left, right)
    case (Some(Number(a, _)), Some(Number(b, _))) => CompareReals(a, b)
    case (Some(String(a, _)), Some(String(b, _))) => CompareText(a, b)
    case (Some(a), Some(b)) => CompareText(Print(a), Print(b))
    case (Some(_), None) => Greater
    case (None, Some(_)) => Less
    case (None, None) => Equal
  }

  datatype CollectOrder = CollectOrder(field: Text, descending: bool)

  function Field(row: Row, field: Text): Option<Json> {
    if field in row then Some(row[field]) else None
  }

  function CompareItems(left: Row, right: Row, order: seq<CollectOrder>): Ordering {
    if |order| == 0 then Equal
    else
      var first := CompareScalar(Field(left, order[0].field), Field(right, order[0].field));
      if first == Equal then CompareItems(left, right, order[1..])
      else if order[0].descending then Reverse(first)
      else first
  }

  function ItemLe(order: seq<CollectOrder>): (Row, Row) -> bool {
    (left: Row, right: Row) => CompareItems(left, right, order) != Greater
  }

  /** Missing values come first, then strings, numbers, arrays, false, null, true and objects. */
  function Kind(v: Option<Json>): nat {
    match v
    case None => 0
    case Some(String(_, _)) => 1
    case Some(Number(_, _)) => 2
    case Some(Array(_)) => 3
    case Some(Bool(false)) => 4
    case Some(Null) => 5
    case Some(Bool(true)) => 6
    case Some(Object(_)) => 7
  }

  lemma FirstByteDecides(a: Text, b: Text)
    requires |a| > 0 && |b| > 0 && a[0] != b[0]
    ensures CompareText(a, b) == if a[0] < b[0] then Less else Greater
  {
  }

  /** Values of different kinds compare by kind, although the comparison is by text. */
  lemma KindsDecide(a: Option<Json>, b: Option<Json>)
    requires Kind(a) != Kind(b)
    ensures CompareScalar(a, b) == if Kind(a) < Kind(b) then Less else Greater
  {
    if a.Some? && b.Some? {
      FirstByteDecides(Print(a.value), Print(b.value));
    }
  }

  lemma ScalarReversed(a: Option<Json>, b: Option<Json>)
    ensures CompareScalar(b, a) == Reverse(CompareScalar(a, b))
  {
    if a.Some? && b.Some? {
      var x := if a.value.String? then a.value.text else Print(a.value);
      var y := if b.value.String? then b.value.text else Print(b.value);
      TextOrderTotal(x, y);
      TextOrderTotal(y, x);
      TextOrderTotal(Print(a.value), Print(b.value));
      TextOrderTotal(Print(b.value), Print(a.value));
    }
  }

  lemma ScalarTransitive(a: Option<Json>, b: Option<Json>, c: Option<Json>)
    requires CompareScalar(a, b) != Greater && CompareScalar(b, c) != Greater
    ensures CompareScalar(a, c) != Greater
    ensures CompareScalar(a, c) == Equal ==> CompareScalar(a, b) == Equal && CompareScalar(b, c) == Equal
  {
    if Kind(a) == Kind(b) == Kind(c) {
      if a.Some? {
        var byText := a.value.String?;
        var x := if byText then a.value.text else Print(a.value);
        var y := if byText then b.value.text else Print(b.value);
        var z := if byText then c.value.text else Print(c.value);
        if !a.value.Number? {
          TextChain(x, y, z);
        }
      }
    } else {
      if Kind(a) != Kind(b) { KindsDecide(a, b); }
      if Kind(b) != Kind(c) { KindsDecide(b, c); }
      if Kind(a) != Kind(c) { KindsDecide(a, c); }
    }
  }

  lemma ScalarSteps(a: Option<Json>, b: Option<Json>, c: Option<Json>)
    ensures CompareScalar(a, b) == Equal && CompareScalar(b, c) == Equal ==> CompareScalar(a, c) == Equal
    ensures CompareScalar(a, b) == Equal ==> CompareScalar(a, c) == CompareScalar(b, c)
    ensures CompareScalar(b, c) == Equal ==> CompareScalar(a, c) == CompareScalar(a, b)
    ensures CompareScalar(a, b) == CompareScalar(b, c) ==> CompareScalar(a, c) == CompareScalar(a, b)
  {
    hide CompareScalar;
    ScalarReversed(a, b);
    ScalarReversed(b, c);
    ScalarReversed(a, c);
    if CompareScalar(a, b) != Greater && CompareScalar(b, c) != Greater { ScalarTransitive(a, b, c); }
    if CompareScalar(c, b) != Greater && CompareScalar(b, a) != Greater { ScalarTransitive(c, b, a); }
    if CompareScalar(a, c) != Greater && CompareScalar(c, b) != Greater { ScalarTransitive(a, c, b); }
    if CompareScalar(b, a) != Greater && CompareScalar(a, c) != Greater { ScalarTransitive(b, a, c); }
    if CompareScalar(b, c) != Greater && CompareScalar(c, a) != Greater { ScalarTransitive(b, c, a); }
    if CompareScalar(c, a) != Greater && CompareScalar(a, b) != Greater { ScalarTransitive(c, a, b); }
  }

  lemma {:induction false} ItemsReversed(x: Row, y: Row, order: seq<CollectOrder>)
    ensures CompareItems(y, x, order) == Reverse(CompareItems(x, y, order))
  {
    if |order| != 0 {
      ScalarReversed(Field(x, order[0].field), Field(y, order[0].field));
      ItemsReversed(x, y, order[1..]);
    }
  }

  lemma {:induction false} ItemsTransitive(x: Row, y: Row, z: Row, order: seq<CollectOrder>)
    requires CompareItems(x, y, order) != Greater && CompareItems(y, z, order) != Greater
    ensures CompareItems(x, z, order) != Greater
  {
    if |order| != 0 {
      var a, b, c := Field(x, order[0].field), Field(y, order[0].field), Field(z, order[0].field);
      ScalarSteps(a, b, c);
      hide CompareScalar;
      if CompareScalar(a, b) == Equal && CompareScalar(b, c) == Equal {
        ItemsTransitive(x, y, z, order[1..]);
      }
    }
  }

  /** Unlike the row order of joins, the order of collected items is always a total preorder. */
  lemma ItemOrderIsPreorder(order: seq<CollectOrder>)
    ensures TotalPreorder(ItemLe(order))
  {
    var le := ItemLe(order);
    hide CompareItems;
    forall x, y ensures le(x, y) || le(y, x) {
      ItemsReversed(x, y, order);
    }
    forall x, y, z | le(x, y) && le(y, z) ensures le(x, z) {
      ItemsTransitive(x, y, z, order);
    }
  }

  // ---------- what the order means ----------

  /** Within a kind numbers compare by value, strings by their text, everything else by what is printed. */
  lemma ScalarMeans(a: Json, b: Json)
    requires Kind(Some(a)) == Kind(Some(b))
    ensures var order := CompareScalar(Some(a), Some(b));
      && (a.Number? ==> (order == Less <==> a.float < b.float) && (order == Greater <==> a.float > b.float))
      && (a.String? ==> (order == Less <==> Before(a.text, b.text)) && (order == Greater <==> Before(b.text, a.text)))
      && (!a.Number? && !a.String? ==> (order == Less <==> Before(Print(a), Print(b))) && (order == Greater <==> Before(Print(b), Print(a))))
  {
    if a.String? {
      TextOrderMeans(a.text, b.text);
    }
    TextOrderMeans(Print(a), Print(b));
    hide CompareText, Before;
  }

  function FieldOrder(o: CollectOrder, x: Row, y: Row): Ordering {
    CompareScalar(Field(x, o.field), Field(y, o.field))
  }

  /** At the first ordering field whose values differ, they stand in the direction asked for; or none differs. */
  ghost predicate ItemsInOrder(order: seq<CollectOrder>, x: Row, y: Row) {
    || (forall m | 0 <= m < |order| :: FieldOrder(order[m], x, y) == Equal)
    || exists n :: FieldDiffersAt(order, x, y, n) && FieldOrder(order[n], x, y) == (if order[n].descending then Greater else Less)
  }

  ghost predicate FieldDiffersAt(order: seq<CollectOrder>, x: Row, y: Row, n: int) {
    0 <= n < |order| && FieldOrder(order[n], x, y) != Equal && forall m | 0 <= m < n :: FieldOrder(order[m], x, y) == Equal
  }

  lemma {:induction false} ItemLeMeans(order: seq<CollectOrder>, x: Row, y: Row)
    ensures ItemLe(order)(x, y) <==> ItemsInOrder(order, x, y)
  {
    if |order| != 0 {
      ItemLeMeans(order[1..], x, y);
      ItemsInOrderFirst(order, x, y);
    }
  }

  lemma ItemsInOrderFirst(order: seq<CollectOrder>, x: Row, y: Row)
    requires |order| > 0
    ensures ItemsInOrder(order, x, y) <==>
      if FieldOrder(order[0], x, y) == Equal then ItemsInOrder(order[1..], x, y)
      else FieldOrder(order[0], x, y) == (if order[0].descending then Greater else Less)
  {
    hide FieldOrder;
    var rest := order[1..];
    assert forall m | 0 <= m < |rest| :: rest[m] == order[m + 1];
    if FieldOrder(order[0], x, y) == Equal {
      if n :| FieldDiffersAt(rest, x, y, n) && FieldOrder(rest[n], x, y) == (if rest[n].descending then Greater else Less) {
        assert FieldDiffersAt(order, x, y, n + 1);
      }
      if n :| FieldDiffersAt(order, x, y, n) && FieldOrder(order[n], x, y) == (if order[n].descending then Greater else Less) {
        assert order[n] == rest[n - 1];
        assert forall m | 0 <= m < n - 1 :: FieldOrder(rest[m], x, y) == FieldOrder(order[m + 1], x, y);
        assert FieldDiffersAt(rest, x, y, n - 1);
      }
      if forall m | 0 <= m < |rest| :: FieldOrder(rest[m], x, y) == Equal {
        forall m | 0 <= m < |order| ensures FieldOrder(order[m], x, y) == Equal {
          assert m > 0 ==> order[m] == rest[m - 1];
        }
      }
    } else {
      assert FieldDiffersAt(order, x, y, 0);
    }
  }
}
