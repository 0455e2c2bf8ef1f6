/** Filters and what they mean for one value.  How numbers and dates compare is left open: any
    partial outcome is allowed, as floating-point parsing allows it. */
module Types {
  import opened Bytes
  import opened Wrappers

  datatype Ordering = Less | Equal | Greater

  function Reverse(o: Ordering): Ordering {
    match o
    case Less => Greater
    case Equal => Equal
    case Greater => Less
  }

  datatype ComparisonOp =
    | Eq | Ne | Gt | Gte | Lt | Lte | In | Between | NotIn | IsNull | IsNotNull | Contains | StartsWith | EndsWith

  datatype LogicalOp = And | Or

  datatype FieldType = String | Int | Float | Date

  datatype Filter = Filter(
    field: Text,
    op: ComparisonOp,
    value: Text,
    valueTo: Option<Text>,
    fieldType: Option<FieldType>,
    valueOptions: seq<Text>)

  /** The parts of comparison that depend on number syntax, date syntax and Unicode. */
  datatype Comparer = Comparer(
    numeric: (Text, Text) -> Option<Ordering>,
    dates: (Text, Text) -> Option<Ordering>,
    lower: Text -> Text,
    trim: Text -> Text)

  /** Plain string order: UTF-8 bytes, lexicographically. */
  function CompareText(a: Text, b: Text): Ordering {
    if |a| == 0 && |b| == 0 then Equal
    else if |a| == 0 then Less
    else if |b| == 0 then Greater
    else if a[0] < b[0] then Less
    else if a[0] > b[0] then Greater
    else CompareText(a[1..], b[1..])
  }

  predicate TextLess(a: Text, b: Text) {
    CompareText(a, b) == Less
  }

  lemma {:induction false} TextOrderTotal(a: Text, b: Text)
    ensures CompareText(a, b) == Equal <==> a == b
    ensures TextLess(a, b) <==> CompareText(b, a) == Greater
  {
    if |a| > 0 && |b| > 0 && a[0] == b[0] {
      TextOrderTotal(a[1..], b[1..]);
      assert a == [a[0]] + a[1..] && b == [b[0]] + b[1..];
    }
  }

  lemma {:induction false} TextOrderTransitive(a: Text, b: Text, c: Text)
    requires !TextLess(b, a) && !TextLess(c, b)
    ensures !TextLess(c, a)
  {
    if |a| > 0 && |b| > 0 && |c| > 0 && a[0] == b[0] == c[0] {
      TextOrderTransitive(a[1..], b[1..], c[1..]);
    }
  }

  lemma TextReversed(a: Text, b: Text)
    ensures CompareText(b, a) == Reverse(CompareText(a, b))
  {
    TextOrderTotal(a, b);
    TextOrderTotal(b, a);
  }

  /** Text order is transitive, and equality in the end means equality on the way. */
  lemma TextChain(x: Text, y: Text, z: Text)
    requires CompareText(x, y) != Greater && CompareText(y, z) != Greater
    ensures CompareText(x, z) != Greater
    ensures CompareText(x, z) == Equal ==> CompareText(x, y) == Equal && CompareText(y, z) == Equal
  {
    TextOrderTotal(y, x);
    TextOrderTotal(z, y);
    TextOrderTotal(z, x);
    TextOrderTotal(x, z);
    TextOrderTotal(x, y);
    TextOrderTransitive(x, y, z);
  }

  function CompareReals(a: real, b: real): Ordering {
    if a < b then Less else if a > b then Greater else Equal
  }

  function CompareValues(c: Comparer, left: Text, right: Text, fieldType: Option<FieldType>): Option<Ordering> {
    match fieldType
    case Some(Int) => c.numeric(left, right)
    case Some(Float) => c.numeric(left, right)
    case Some(Date) => c.dates(left, right)
    case _ =>
      if c.numeric(left, right).Some? then c.numeric(left, right)
      else if c.dates(left, right).Some? then c.dates(left, right)
      else Some(CompareText(left, right))
  }

  /** How numbers and dates are told and compared: numbers by the value they parse to, an infinity by
      one beyond all others, dates by their trimmed text. */
  ghost predicate ParsesBy(c: Comparer, number: Text -> Option<real>, isDate: Text -> bool) {
    && (forall x, y :: c.numeric(x, y) ==
          if number(x).Some? && number(y).Some? then Some(CompareReals(number(x).value, number(y).value)) else None)
    && (forall x, y :: c.dates(x, y) == if isDate(x) && isDate(y) then Some(CompareText(c.trim(x), c.trim(y))) else None)
  }

  /** With one of them no number and one of them no date, two values compare as text. */
  lemma PlainCompare(c: Comparer, number: Text -> Option<real>, isDate: Text -> bool, x: Text, y: Text)
    requires ParsesBy(c, number, isDate)
    ensures CompareValues(c, x, y, None) ==
      if number(x).Some? && number(y).Some? then Some(CompareReals(number(x).value, number(y).value))
      else if isDate(x) && isDate(y) then Some(CompareText(c.trim(x), c.trim(y)))
      else Some(CompareText(x, y))
  {
  }

  predicate AtLeast(o: Option<Ordering>) {
    o == Some(Greater) || o == Some(Equal)
  }

  predicate AtMost(o: Option<Ordering>) {
    o == Some(Less) || o == Some(Equal)
  }

  const COMMA: Byte := 44
  const SEMICOLON: Byte := 59

  function Split(value: Text): (parts: seq<Text>)
    ensures |parts| > 0
  {
    if |value| == 0 then [[]]
    else
      var rest := Split(value[1..]);
      if value[0] == COMMA || value[0] == SEMICOLON then [[]] + rest
      else [[value[0]] + rest[0]] + rest[1..]
  }

  function TrimmedNonEmpty(c: Comparer, parts: seq<Text>): seq<Text> {
    if |parts| == 0 then []
    else (if c.trim(parts[0]) == [] then [] else [c.trim(parts[0])]) + TrimmedNonEmpty(c, parts[1..])
  }

  function ListValues(c: Comparer, value: Text, options: seq<Text>): seq<Text> {
    if |options| > 0 then options else TrimmedNonEmpty(c, Split(value))
  }

  predicate IsInfix(needle: Text, hay: Text) {
    needle <= hay || (|hay| > 0 && IsInfix(needle, hay[1..]))
  }

  predicate IsSuffix(needle: Text, hay: Text) {
    |needle| <= |hay| && hay[|hay| - |needle|..] == needle
  }

  predicate Matches(c: Comparer, actual: Text, f: Filter) {
    var order := CompareValues(c, actual, f.value, f.fieldType);
    match f.op
    case Eq => order == Some(Equal)
    case Ne => order != Some(Equal)
    case Gt => order == Some(Greater)
    case Gte => AtLeast(order)
    case Lt => order == Some(Less)
    case Lte => AtMost(order)
    case In => exists v | v in ListValues(c, f.value, f.valueOptions) ::
        CompareValues(c, actual, v, f.fieldType) == Some(Equal)
    case NotIn => forall v | v in ListValues(c, f.value, f.valueOptions) ::
        CompareValues(c, actual, v, f.fieldType) != Some(Equal)
    case Between =>
      f.valueTo.Some? && AtLeast(order) && AtMost(CompareValues(c, actual, f.valueTo.value, f.fieldType))
    case IsNull => c.trim(actual) == []
    case IsNotNull => c.trim(actual) != []
    case Contains => IsInfix(c.lower(f.value), c.lower(actual))
    case StartsWith => c.lower(f.value) <= c.lower(actual)
    case EndsWith => IsSuffix(c.lower(f.value), c.lower(actual))
  }

  // ---------- what a filter means ----------

  /** `needle` stands in `hay` at some place. */
  ghost predicate Occurs(needle: Text, hay: Text) {
    exists i :: OccursAt(needle, hay, i)
  }

  ghost predicate OccursAt(needle: Text, hay: Text, i: int) {
    0 <= i <= |hay| - |needle| && hay[i..i + |needle|] == needle
  }

  ghost predicate IsSeparator(b: Byte) {
    b == 44 || b == 59
  }

  /** `part` is what stands between two neighbouring commas or semicolons, or an end, of the list. */
  ghost predicate IsPart(list: Text, part: Text) {
    exists i, j :: IsPartAt(list, part, i, j)
  }

  ghost predicate IsPartAt(list: Text, part: Text, i: int, j: int) {
    && 0 <= i <= j <= |list| && part == list[i..j]
    && (forall b | b in part :: !IsSeparator(b))
    && (i == 0 || IsSeparator(list[i - 1])) && (j == |list| || IsSeparator(list[j]))
  }

  /** The value is one of the options, or without options a trimmed, non-empty part of the list. */
  ghost predicate Listed(c: Comparer, list: Text, options: seq<Text>, v: Text) {
    if options != [] then v in options else v != [] && exists part :: IsPart(list, part) && c.trim(part) == v
  }

  /** Whether a value meets a filter, said operator by operator. */
  ghost predicate Meets(c: Comparer, actual: Text, f: Filter) {
    var order := CompareValues(c, actual, f.value, f.fieldType);
    var hay, needle := c.lower(actual), c.lower(f.value);
    && (f.op == Eq ==> order == Some(Equal))
    && (f.op == Ne ==> order in {None, Some(Less), Some(Greater)})
    && (f.op == Gt ==> order == Some(Greater))
    && (f.op == Gte ==> order in {Some(Greater), Some(Equal)})
    && (f.op == Lt ==> order == Some(Less))
    && (f.op == Lte ==> order in {Some(Less), Some(Equal)})
    && (f.op == Between ==>
          && f.valueTo.Some? && order in {Some(Greater), Some(Equal)}
          && CompareValues(c, actual, f.valueTo.value, f.fieldType) in {Some(Less), Some(Equal)})
    && (f.op == In ==> exists v :: Listed(c, f.value, f.valueOptions, v) && CompareValues(c, actual, v, f.fieldType) == Some(Equal))
    && (f.op == NotIn ==> forall v | Listed(c, f.value, f.valueOptions, v) :: CompareValues(c, actual, v, f.fieldType) != Some(Equal))
    && (f.op == IsNull ==> |c.trim(actual)| == 0)
    && (f.op == IsNotNull ==> |c.trim(actual)| > 0)
    && (f.op == Contains ==> Occurs(needle, hay))
    && (f.op == StartsWith ==> |needle| <= |hay| && hay[..|needle|] == needle)
    && (f.op == EndsWith ==> |needle| <= |hay| && hay[|hay| - |needle|..] == needle)
  }

  lemma {:induction false} InfixOccurs(needle: Text, hay: Text)
    ensures IsInfix(needle, hay) <==> Occurs(needle, hay)
  {
    if needle <= hay {
      assert OccursAt(needle, hay, 0);
    }
    if |hay| > 0 {
      InfixOccurs(needle, hay[1..]);
      if i :| OccursAt(needle, hay[1..], i) {
        assert hay[1..][i..i + |needle|] == hay[i + 1..i + 1 + |needle|];
        assert OccursAt(needle, hay, i + 1);
      }
      if i :| OccursAt(needle, hay, i) {
        if i > 0 {
          assert hay[1..][i - 1..i - 1 + |needle|] == hay[i..i + |needle|];
          assert OccursAt(needle, hay[1..], i - 1);
        }
      }
    }
  }

  /** The first part ends at the first separator. */
  lemma {:induction false} FirstPart(list: Text)
    ensures |Split(list)[0]| <= |list| && Split(list)[0] == list[..|Split(list)[0]|]
    ensures forall b | b in Split(list)[0] :: !IsSeparator(b)
    ensures if |Split(list)[0]| == |list| then Split(list) == [list]
            else IsSeparator(list[|Split(list)[0]|]) && Split(list)[1..] == Split(list[|Split(list)[0]| + 1..])
  {
    if |list| != 0 {
      FirstPart(list[1..]);
      var rest := Split(list[1..]);
      if !IsSeparator(list[0]) {
        var n := |rest[0]|;
        assert Split(list)[0] == [list[0]] + rest[0] && Split(list)[1..] == rest[1..];
        assert list == [list[0]] + list[1..];
        if n != |list[1..]| {
          assert list[1..][n + 1..] == list[n + 2..];
        }
      } else {
        assert Split(list)[1..] == rest && list[0 + 1..] == list[1..];
      }
    }
  }

  /** Splitting gives exactly the parts. */
  lemma {:induction false} SplitParts(list: Text, part: Text)
    ensures part in Split(list) <==> IsPart(list, part)
    decreases |list|
  {
    var first := Split(list)[0];
    var n := |first|;
    FirstPart(list);
    hide Split;
    assert part in Split(list) <==> part == first || part in Split(list)[1..];
    if part == first {
      assert IsPartAt(list, part, 0, n);
    }
    if n < |list| {
      var rest := list[n + 1..];
      SplitParts(rest, part);
      if IsPart(rest, part) {
        var i, j :| IsPartAt(rest, part, i, j);
        PartShifted(list, n, part, i, j);
      }
    }
    if IsPart(list, part) {
      var i, j :| IsPartAt(list, part, i, j);
      PartPlaced(list, first, part, i, j);
    }
  }

  lemma PartShifted(list: Text, n: nat, part: Text, i: int, j: int)
    requires n < |list| && IsSeparator(list[n]) && IsPartAt(list[n + 1..], part, i, j)
    ensures IsPartAt(list, part, i + n + 1, j + n + 1)
  {
    assert list[n + 1..][i..j] == list[i + n + 1..j + n + 1];
  }

  /** A part is the first one or lies behind the first separator. */
  lemma PartPlaced(list: Text, first: Text, part: Text, i: int, j: int)
    requires |first| <= |list| && first == list[..|first|] && forall b | b in first :: !IsSeparator(b)
    requires |first| == |list| || IsSeparator(list[|first|])
    requires IsPartAt(list, part, i, j)
    ensures part == first || (|first| < |list| && IsPart(list[|first| + 1..], part))
  {
    var n := |first|;
    NoneInside(list, first, 0, n);
    NoneInside(list, part, i, j);
    if i > 0 {
      var rest := list[n + 1..];
      assert rest[i - n - 1..j - n - 1] == part;
      assert IsPartAt(rest, part, i - n - 1, j - n - 1);
    }
  }

  lemma NoneInside(list: Text, part: Text, i: int, j: int)
    requires 0 <= i <= j <= |list| && part == list[i..j] && forall b | b in part :: !IsSeparator(b)
    ensures forall m | i <= m < j :: !IsSeparator(list[m])
  {
    forall m | i <= m < j ensures !IsSeparator(list[m]) {
      assert list[m] == part[m - i] && part[m - i] in part;
    }
  }

  lemma {:induction false} TrimmedMembers(c: Comparer, parts: seq<Text>, v: Text)
    ensures v in TrimmedNonEmpty(c, parts) <==> v != [] && exists part :: part in parts && c.trim(part) == v
  {
    if |parts| != 0 {
      TrimmedMembers(c, parts[1..], v);
      assert forall part :: part in parts <==> part == parts[0] || part in parts[1..];
    }
  }

  lemma ListedIs(c: Comparer, list: Text, options: seq<Text>, v: Text)
    ensures v in ListValues(c, list, options) <==> Listed(c, list, options, v)
  {
    hide Split, TrimmedNonEmpty, IsPart;
    if options == [] {
      TrimmedMembers(c, Split(list), v);
      forall part ensures part in Split(list) <==> IsPart(list, part) {
        SplitParts(list, part);
      }
    }
  }

  /** The filter evaluation decides exactly that. */
  lemma MatchesMeans(c: Comparer, actual: Text, f: Filter)
    ensures Matches(c, actual, f) <==> Meets(c, actual, f)
  {
    var hay, needle := c.lower(actual), c.lower(f.value);
    InfixOccurs(needle, hay);
    assert needle <= hay <==> |needle| <= |hay| && hay[..|needle|] == needle;
    forall v ensures v in ListValues(c, f.value, f.valueOptions) <==> Listed(c, f.value, f.valueOptions, v) {
      ListedIs(c, f.value, f.valueOptions, v);
    }
    hide IsInfix, Occurs, ListValues, Listed, CompareValues;
    var order := CompareValues(c, actual, f.value, f.fieldType);
    assert order.None? || order.value == Less || order.value == Equal || order.value == Greater;
  }

  /** Typed comparison: numbers by their value, dates by their trimmed text, and without a type numbers
      first, then dates, then text. */
  lemma CompareMeans(c: Comparer, number: Text -> Option<real>, isDate: Text -> bool, x: Text, y: Text, fieldType: Option<FieldType>)
    requires ParsesBy(c, number, isDate)
    ensures var numbers, dates := number(x).Some? && number(y).Some?, isDate(x) && isDate(y);
      var order, untyped := CompareValues(c, x, y, fieldType), fieldType in {None, Some(String)};
      && (fieldType in {Some(Int), Some(Float)} && !numbers ==> order == None)
      && (fieldType == Some(Date) && !dates ==> order == None)
      && (numbers && fieldType != Some(Date) ==> Tells(order, number(x).value < number(y).value, number(x).value > number(y).value))
      && (dates && (fieldType == Some(Date) || (untyped && !numbers)) ==>
            Tells(order, Before(c.trim(x), c.trim(y)), Before(c.trim(y), c.trim(x))))
      && (!numbers && !dates && untyped ==> Tells(order, Before(x, y), Before(y, x)))
  {
    TextOrderMeans(x, y);
    TextOrderMeans(c.trim(x), c.trim(y));
    assert c.numeric(x, y) == if number(x).Some? && number(y).Some? then Some(CompareReals(number(x).value, number(y).value)) else None;
    assert c.dates(x, y) == if isDate(x) && isDate(y) then Some(CompareText(c.trim(x), c.trim(y))) else None;
    hide CompareText, Before, ParsesBy;
  }

  ghost predicate Tells(order: Option<Ordering>, less: bool, greater: bool) {
    order.Some? && (order.value == Less <==> less) && (order.value == Greater <==> greater)
  }

  /** `a` is cut short of `b`, or smaller at the first byte that differs. */
  ghost predicate Before(a: Text, b: Text) {
    (a != b && a <= b) || exists i :: 0 <= i < |a| && i < |b| && a[..i] == b[..i] && a[i] < b[i]
  }

  lemma {:induction false} TextOrderMeans(a: Text, b: Text)
    ensures CompareText(a, b) == Less <==> Before(a, b)
    ensures CompareText(a, b) == Greater <==> Before(b, a)
  {
    if |a| > 0 && |b| > 0 {
      if a[0] == b[0] {
        TextOrderMeans(a[1..], b[1..]);
        BeforeTail(a, b);
        BeforeTail(b, a);
      } else {
        BeforeHead(a, b);
        BeforeHead(b, a);
      }
    }
  }

  lemma BeforeHead(a: Text, b: Text)
    requires |a| > 0 && |b| > 0 && a[0] != b[0]
    ensures Before(a, b) <==> a[0] < b[0]
  {
    if a[0] < b[0] {
      assert a[..0] == b[..0];
    }
    if i :| 0 <= i < |a| && i < |b| && a[..i] == b[..i] && a[i] < b[i] {
      assert i > 0 ==> a[..i][0] == b[..i][0];
    }
  }

  lemma BeforeTail(a: Text, b: Text)
    requires |a| > 0 && |b| > 0 && a[0] == b[0]
    ensures Before(a, b) <==> Before(a[1..], b[1..])
  {
    assert a == [a[0]] + a[1..] && b == [b[0]] + b[1..];
    if i :| 0 <= i < |a| && i < |b| && a[..i] == b[..i] && a[i] < b[i] {
      assert a[1..][..i - 1] == a[..i][1..] && b[1..][..i - 1] == b[..i][1..];
      assert a[1..][i - 1] < b[1..][i - 1];
    }
    if i :| 0 <= i < |a[1..]| && i < |b[1..]| && a[1..][..i] == b[1..][..i] && a[1..][i] < b[1..][i] {
      assert a[..i + 1] == [a[0]] + a[1..][..i] && b[..i + 1] == [b[0]] + b[1..][..i];
      assert a[i + 1] < b[i + 1];
    }
    if a[1..] <= b[1..] && a[1..] != b[1..] {
      assert a <= b;
    }
    if a <= b && a != b {
      assert a[1..] <= b[1..];
    }
  }
}
