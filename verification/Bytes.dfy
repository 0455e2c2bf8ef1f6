/** Bytes and the little-endian integers that every on-disk format of the engine uses. */
module Bytes {

  type Byte = b: int | 0 <= b < 256

  /** A string, as its UTF-8 bytes. */
  type Text = seq<Byte>

  const U32_LIMIT: nat := 0x1_0000_0000
  const U64_LIMIT: nat := 0x1_0000_0000_0000_0000
  const U128_LIMIT: nat := 0x1_0000_0000_0000_0000_0000_0000_0000_0000

  function Power256(width: nat): (p: nat)
    ensures p > 0
  {
    if width == 0 then 1 else 256 * Power256(width - 1)
  }

  lemma PowerLimits()
    ensures Power256(4) == U32_LIMIT
    ensures Power256(8) == U64_LIMIT
    ensures Power256(16) == U128_LIMIT
  {
    assert Power256(12) == 0x1_0000_0000_0000_0000_0000_0000;
  }

  /** The `width` low-order bytes of `n`, least significant first. */
  function ToLE(n: nat, width: nat): (bytes: seq<Byte>)
    ensures |bytes| == width
  {
    if width == 0 then [] else [n % 256] + ToLE(n / 256, width - 1)
  }

  function FromLE(bytes: seq<Byte>): nat {
    if |bytes| == 0 then 0 else bytes[0] + 256 * FromLE(bytes[1..])
  }

  lemma {:induction false} FromToLE(n: nat, width: nat)
    requires n < Power256(width)
    ensures FromLE(ToLE(n, width)) == n
  {
    if width != 0 {
      FromToLE(n / 256, width - 1);
      assert ToLE(n, width)[1..] == ToLE(n / 256, width - 1);
    }
  }

  lemma SplitByte(low: Byte, high: nat)
    ensures (low + 256 * high) % 256 == low && (low + 256 * high) / 256 == high
  {
  }

  lemma {:induction false} ToFromLE(bytes: seq<Byte>)
    ensures FromLE(bytes) < Power256(|bytes|)
    ensures ToLE(FromLE(bytes), |bytes|) == bytes
  {
    if |bytes| != 0 {
      ToFromLE(bytes[1..]);
      SplitByte(bytes[0], FromLE(bytes[1..]));
      assert bytes == [bytes[0]] + bytes[1..];
    }
  }

  /** Byte `i` is the digit of 256 to the power of `i`. */
  lemma {:induction false} LEDigit(n: nat, width: nat, i: nat)
    requires i < width
    ensures ToLE(n, width)[i] == n / Power256(i) % 256
  {
    if i > 0 {
      LEDigit(n / 256, width - 1, i - 1);
      DivideTwice(n, Power256(i - 1));
    }
  }

  lemma DivideTwice(n: nat, p: nat)
    requires p > 0
    ensures n / 256 / p == n / (256 * p)
  {
    var q, low := n / 256, n % 256;
    var r, high := q / p, q % p;
    assert q == r * p + high;
    Regroups(r, p);
    QuotientIs(n, 256 * p, r, 256 * high + low);
  }

  lemma Regroups(r: nat, p: nat)
    ensures r * (256 * p) == 256 * (r * p)
  {
  }

  lemma QuotientIs(n: nat, d: nat, q: nat, rest: nat)
    requires d > 0 && n == q * d + rest && rest < d
    ensures n / d == q
  {
    var other := n / d;
    assert n == other * d + n % d;
    TimesGrows(other + 1, q, d);
    TimesGrows(q + 1, other, d);
  }

  lemma TimesGrows(a: nat, b: nat, d: nat)
    ensures a <= b ==> a * d <= b * d
  {
  }

  function Concat(parts: seq<seq<Byte>>): seq<Byte> {
    if |parts| == 0 then [] else Concat(parts[..|parts| - 1]) + parts[|parts| - 1]
  }

  /** Part `i` of a concatenation starts where the parts before it end. */
  lemma {:induction false} ConcatSlice(parts: seq<seq<Byte>>, i: nat)
    requires i < |parts|
    ensures |Concat(parts[..i])| + |parts[i]| <= |Concat(parts)|
    ensures Concat(parts)[|Concat(parts[..i])|..|Concat(parts[..i])| + |parts[i]|] == parts[i]
  {
    var n := |parts| - 1;
    if i < n {
      ConcatSlice(parts[..n], i);
      assert parts[..n][..i] == parts[..i];
      var start := |Concat(parts[..i])|;
      assert Concat(parts)[start..start + |parts[i]|] == Concat(parts[..n])[start..start + |parts[i]|];
    }
  }

  lemma {:induction false} ConcatAppend(parts: seq<seq<Byte>>, part: seq<Byte>)
    ensures Concat(parts + [part]) == Concat(parts) + part
  {
    assert (parts + [part])[..|parts|] == parts;
  }

  lemma {:induction false} ConcatEqualWidths(parts: seq<seq<Byte>>, width: nat)
    requires forall i :: 0 <= i < |parts| ==> |parts[i]| == width
    ensures |Concat(parts)| == width * |parts|
  {
    if |parts| != 0 {
      ConcatEqualWidths(parts[..|parts| - 1], width);
      assert width * |parts| == width * (|parts| - 1) + width;
    }
  }
}
