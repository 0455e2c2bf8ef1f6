/** One column on disk: length-prefixed values back to back in `.dat`, their starts in `.offsets`. */
module ColumnFiles {
  import opened Bytes
  import opened Wrappers

  datatype ColumnFile = ColumnFile(dat: seq<Byte>, offsets: seq<Byte>, current: nat)

  const EMPTY: ColumnFile := ColumnFile([], [], 0)

  function EncodeText(v: Text): seq<Byte> {
    ToLE(|v|, 8) + v
  }

  /** Decoding ignores trailing bytes. */
  /** A value's bytes: eight for the length, then the text. */
  lemma EncodeLayout(v: Text)
    requires |v| < U64_LIMIT
    ensures |EncodeText(v)| == 8 + |v| && FromLE(EncodeText(v)[..8]) == |v| && EncodeText(v)[8..] == v
  {
    PowerLimits();
    FromToLE(|v|, 8);
    assert EncodeText(v)[..8] == ToLE(|v|, 8);
  }

  function DecodeText(bytes: seq<Byte>): Option<Text> {
    if |bytes| < 8 then None
    else
      var len := FromLE(bytes[..8]);
      if 8 + len > |bytes| then None else Some(bytes[8..8 + len])
  }

  lemma TextRoundTrip(v: Text, rest: seq<Byte>)
    requires |v| < U64_LIMIT
    ensures DecodeText(EncodeText(v) + rest) == Some(v)
  {
    PowerLimits();
    FromToLE(|v|, 8);
    var bytes := EncodeText(v) + rest;
    assert bytes[..8] == ToLE(|v|, 8);
    assert bytes[8..8 + |v|] == v;
  }

  /** What one append adds to the column's two files. */
  function AppendValue(file: ColumnFile, v: Text): ColumnFile {
    ColumnFile(file.dat + EncodeText(v), file.offsets + ToLE(file.current, 8), file.current + |EncodeText(v)|)
  }

  function FileOf(values: seq<Text>): ColumnFile {
    if |values| == 0 then EMPTY else AppendValue(FileOf(values[..|values| - 1]), values[|values| - 1])
  }

  lemma {:induction false} FileSizes(values: seq<Text>)
    ensures FileOf(values).current == |FileOf(values).dat|
    ensures |FileOf(values).offsets| == 8 * |values|
  {
    if |values| != 0 {
      FileSizes(values[..|values| - 1]);
    }
  }

  lemma PrefixSlice(a: seq<Byte>, b: seq<Byte>, i: nat, j: nat)
    requires i <= j <= |a|
    ensures (a + b)[i..j] == a[i..j]
  {
  }

  lemma SuffixSlice(a: seq<Byte>, b: seq<Byte>)
    ensures (a + b)[|a|..|a| + |b|] == b
  {
  }

  ghost predicate HoldsAt(file: ColumnFile, i: nat, start: nat, v: Text) {
    && start + |EncodeText(v)| <= |file.dat| && file.dat[start..start + |EncodeText(v)|] == EncodeText(v)
    && 8 * i + 8 <= |file.offsets| && file.offsets[8 * i..8 * i + 8] == ToLE(start, 8)
  }

  lemma HoldsAfterAppend(file: ColumnFile, i: nat, start: nat, v: Text, w: Text)
    requires HoldsAt(file, i, start, v)
    ensures HoldsAt(AppendValue(file, w), i, start, v)
  {
    PrefixSlice(file.dat, EncodeText(w), start, start + |EncodeText(v)|);
    PrefixSlice(file.offsets, ToLE(file.current, 8), 8 * i, 8 * i + 8);
  }

  lemma HoldsAtEnd(file: ColumnFile, i: nat, v: Text)
    requires file.current == |file.dat| && |file.offsets| == 8 * i
    ensures HoldsAt(AppendValue(file, v), i, |file.dat|, v)
  {
    SuffixSlice(file.dat, EncodeText(v));
    SuffixSlice(file.offsets, ToLE(file.current, 8));
  }

  /** Value `i` sits where the files of the values before it end. */
  lemma {:induction false} ValueBytes(values: seq<Text>, i: nat)
    requires i < |values|
    ensures HoldsAt(FileOf(values), i, |FileOf(values[..i]).dat|, values[i])
    ensures |FileOf(values[..i + 1]).dat| == |FileOf(values[..i]).dat| + |EncodeText(values[i])|
  {
    var prefix, last := values[..|values| - 1], values[|values| - 1];
    FileSizes(prefix);
    assert values[..i + 1][..i] == values[..i];
    if i < |prefix| {
      ValueBytes(prefix, i);
      assert prefix[..i] == values[..i];
      HoldsAfterAppend(FileOf(prefix), i, |FileOf(values[..i]).dat|, values[i], last);
    } else {
      HoldsAtEnd(FileOf(prefix), i, last);
    }
  }

  function SlotStart(offsets: seq<Byte>, i: nat): nat
    requires 8 * i + 8 <= |offsets|
  {
    FromLE(offsets[8 * i..8 * i + 8])
  }

  lemma SlotStarts(values: seq<Text>, i: nat)
    requires |FileOf(values).dat| < U64_LIMIT && i < |values|
    ensures 8 * i + 8 <= |FileOf(values).offsets|
    ensures SlotStart(FileOf(values).offsets, i) == |FileOf(values[..i]).dat|
  {
    ValueBytes(values, i);
    PowerLimits();
    FromToLE(|FileOf(values[..i]).dat|, 8);
  }

  /** Reads one cell; the empty string when the files do not reach that far. */
  function ReadCell(dat: seq<Byte>, offsets: seq<Byte>, i: nat): Text {
    if 8 * i + 8 > |offsets| then []
    else
      var start := SlotStart(offsets, i);
      if start + 8 > |dat| then []
      else
        var len := FromLE(dat[start..start + 8]);
        if start + 8 + len > |dat| then [] else dat[start + 8..start + 8 + len]
  }

  lemma CellAt(dat: seq<Byte>, start: nat, v: Text)
    requires |v| < U64_LIMIT
    requires start + 8 + |v| <= |dat| && dat[start..start + 8 + |v|] == EncodeText(v)
    ensures FromLE(dat[start..start + 8]) == |v|
    ensures dat[start + 8..start + 8 + |v|] == v
  {
    var cell := dat[start..start + 8 + |v|];
    PowerLimits();
    FromToLE(|v|, 8);
    assert dat[start..start + 8] == cell[..8] == ToLE(|v|, 8);
    assert dat[start + 8..start + 8 + |v|] == cell[8..] == v;
  }

  lemma ReadCellAt(file: ColumnFile, i: nat, start: nat, v: Text)
    requires |v| < U64_LIMIT && 8 * i + 8 <= |file.offsets| && SlotStart(file.offsets, i) == start
    requires start + 8 + |v| <= |file.dat| && file.dat[start..start + 8 + |v|] == EncodeText(v)
    ensures ReadCell(file.dat, file.offsets, i) == v
  {
    CellAt(file.dat, start, v);
    hide EncodeText, SlotStart;
  }

  lemma HeldBytes(file: ColumnFile, i: nat, start: nat, v: Text)
    requires HoldsAt(file, i, start, v)
    ensures start + 8 + |v| <= |file.dat| && file.dat[start..start + 8 + |v|] == EncodeText(v)
  {
  }

  /** Every appended value reads back, and reading past the end gives the empty string. */
  lemma CellReadsBack(values: seq<Text>, i: nat)
    requires |FileOf(values).dat| < U64_LIMIT
    ensures ReadCell(FileOf(values).dat, FileOf(values).offsets, i) == if i < |values| then values[i] else []
  {
    FileSizes(values);
    hide FileOf, EncodeText, SlotStart, HoldsAt;
    if i < |values| {
      ValueBytes(values, i);
      HeldBytes(FileOf(values), i, |FileOf(values[..i]).dat|, values[i]);
      SlotStarts(values, i);
      ReadCellAt(FileOf(values), i, |FileOf(values[..i]).dat|, values[i]);
    }
  }

  /** The recovery scan's view of one slot: from its start to the next start, or to the end of the data. */
  function SlotValue(dat: seq<Byte>, offsets: seq<Byte>, i: nat): Option<Text>
    requires i < |offsets| / 8
  {
    var start := SlotStart(offsets, i);
    var end := if i + 1 < |offsets| / 8 then SlotStart(offsets, i + 1) else |dat|;
    if end <= start || end > |dat| then None else DecodeText(dat[start..end])
  }

  lemma SlotEnd(values: seq<Text>, i: nat)
    requires |FileOf(values).dat| < U64_LIMIT && i < |values|
    ensures |FileOf(values).offsets| / 8 == |values|
    ensures |FileOf(values[..i + 1]).dat|
         == if i + 1 < |values| then SlotStart(FileOf(values).offsets, i + 1) else |FileOf(values).dat|
  {
    FileSizes(values);
    if i + 1 < |values| {
      SlotStarts(values, i + 1);
    } else {
      assert values[..i + 1] == values;
    }
  }

  lemma DecodeExact(v: Text)
    requires |v| < U64_LIMIT
    ensures DecodeText(EncodeText(v)) == Some(v)
  {
    TextRoundTrip(v, []);
    assert EncodeText(v) + [] == EncodeText(v);
  }

  lemma SlotReadsBack(values: seq<Text>, i: nat)
    requires |FileOf(values).dat| < U64_LIMIT && i < |values|
    ensures |FileOf(values).offsets| / 8 == |values|
    ensures SlotValue(FileOf(values).dat, FileOf(values).offsets, i) == Some(values[i])
  {
    hide FileOf, EncodeText, SlotStart, HoldsAt, DecodeText;
    ValueBytes(values, i);
    HeldBytes(FileOf(values), i, |FileOf(values[..i]).dat|, values[i]);
    SlotStarts(values, i);
    SlotEnd(values, i);
    EncodedLength(values[i]);
    DecodeExact(values[i]);
  }

  lemma EncodedLength(v: Text)
    ensures |EncodeText(v)| == 8 + |v|
  {
  }
}
