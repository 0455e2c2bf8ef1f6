/** The version 3 exact-index file: 40-byte header, 28-byte index entries, and the
    serialised posting lists between them. */
module SnapshotFormat {
  import opened Bytes
  import opened Wrappers

  type Hash = h: nat | h < U128_LIMIT witness 0

  /** The rows of one segment that carry an indexed value. */
  datatype Posting = Posting(segment: nat, rows: set<nat>)

  type Postings = seq<Posting>

  datatype Entry = Entry(hash: Hash, postings: Postings)

  /** The serialiser of posting lists. */
  datatype Codec = Codec(encode: Postings -> seq<Byte>, decode: seq<Byte> -> Option<Postings>) {

    /** Decoding undoes encoding, and a truncated encoding never decodes. */
    ghost predicate LawfulAt(p: Postings) {
      && decode(encode(p)) == Some(p)
      && forall n | 0 <= n < |encode(p)| :: decode(encode(p)[..n]) == None
    }

    ghost predicate Lawful() {
      forall p: Postings :: LawfulAt(p)
    }
  }

  datatype FormatError =
    | TooShort(expected: nat, actual: nat)
    | BadMagic(magic: seq<Byte>)
    | UnsupportedVersion(version: Byte)
    | InvalidNumEntries(count: nat, fileSize: nat)
    | BincodeError

  const MAGIC: seq<Byte> := [66, 84, 88, 73]
  const VERSION_V3: Byte := 3
  const HEADER_SIZE: nat := 40
  const INDEX_ENTRY_SIZE: nat := 28

  datatype V3Header = V3Header(version: Byte, numEntries: nat, bitmapsOffset: nat, indexOffset: nat) {

    ghost predicate Writable() {
      && version == VERSION_V3
      && numEntries * INDEX_ENTRY_SIZE < U64_LIMIT
      && bitmapsOffset < U64_LIMIT
      && indexOffset < U64_LIMIT
    }

    function Write(): (bytes: seq<Byte>)
      ensures |bytes| == HEADER_SIZE
    {
      MAGIC + [version, 0, 0, 0] + ToLE(numEntries, 8) + ToLE(bitmapsOffset, 8) + ToLE(indexOffset, 8) + ToLE(0, 8)
    }

    static function Parse(bytes: seq<Byte>): Result<V3Header, FormatError> {
      if |bytes| < HEADER_SIZE then
        Err(TooShort(HEADER_SIZE, |bytes|))
      else if bytes[0..4] != MAGIC then
        Err(BadMagic(bytes[0..4]))
      else if bytes[4] != VERSION_V3 then
        Err(UnsupportedVersion(bytes[4]))
      else
        var numEntries := FromLE(bytes[8..16]);
        if numEntries * INDEX_ENTRY_SIZE >= U64_LIMIT then
          Err(InvalidNumEntries(numEntries, 0))
        else
          Ok(V3Header(bytes[4], numEntries, FromLE(bytes[16..24]), FromLE(bytes[24..32])))
    }
  }

  datatype IndexEntry = IndexEntry(hash: Hash, offset: nat, length: nat) {

    ghost predicate Writable() {
      offset < U64_LIMIT && length < U32_LIMIT
    }

    function Write(): (bytes: seq<Byte>)
      ensures |bytes| == INDEX_ENTRY_SIZE
    {
      ToLE(hash, 16) + ToLE(offset, 8) + ToLE(length, 4)
    }

    static function Parse(bytes: seq<Byte>): IndexEntry
      requires |bytes| == INDEX_ENTRY_SIZE
    {
      PowerLimits();
      ToFromLE(bytes[0..16]);
      IndexEntry(FromLE(bytes[0..16]), FromLE(bytes[16..24]), FromLE(bytes[24..28]))
    }
  }

  lemma HeaderLayout(header: V3Header, rest: seq<Byte>)
    ensures var bytes := header.Write() + rest;
      && bytes[0..4] == MAGIC
      && bytes[4] == header.version
      && bytes[8..16] == ToLE(header.numEntries, 8)
      && bytes[16..24] == ToLE(header.bitmapsOffset, 8)
      && bytes[24..32] == ToLE(header.indexOffset, 8)
  {
    hide ToLE;
    var tail := ToLE(0, 8) + rest;
    var afterVersion := ToLE(header.numEntries, 8) + (ToLE(header.bitmapsOffset, 8) + (ToLE(header.indexOffset, 8) + tail));
    assert header.Write() + rest == (MAGIC + [header.version, 0, 0, 0]) + afterVersion;
  }

  /** Whatever follows the header, parsing returns what was written. */
  lemma HeaderParsesBack(header: V3Header, rest: seq<Byte>)
    requires header.Writable()
    ensures V3Header.Parse(header.Write() + rest) == Ok(header)
  {
    PowerLimits();
    FromToLE(header.numEntries, 8);
    FromToLE(header.bitmapsOffset, 8);
    FromToLE(header.indexOffset, 8);
    HeaderLayout(header, rest);
  }

  /** Parsing loses nothing but the two reserved areas. */
  lemma HeaderWritesBack(bytes: seq<Byte>, header: V3Header)
    requires V3Header.Parse(bytes) == Ok(header)
    ensures header.Writable()
    ensures header.Write()[0..4] == bytes[0..4] && header.Write()[4] == bytes[4]
    ensures header.Write()[8..16] == bytes[8..16]
    ensures header.Write()[16..24] == bytes[16..24]
    ensures header.Write()[24..32] == bytes[24..32]
  {
    PowerLimits();
    ToFromLE(bytes[8..16]);
    ToFromLE(bytes[16..24]);
    ToFromLE(bytes[24..32]);
    HeaderLayout(header, []);
    assert header.Write() + [] == header.Write();
  }

  /** Sixteen bytes of hash, eight of offset, four of length. */
  lemma IndexEntryLayout(entry: IndexEntry)
    requires entry.Writable()
    ensures var bytes := entry.Write();
      FromLE(bytes[..16]) == entry.hash && FromLE(bytes[16..24]) == entry.offset && FromLE(bytes[24..]) == entry.length
  {
    PowerLimits();
    FromToLE(entry.hash, 16);
    FromToLE(entry.offset, 8);
    FromToLE(entry.length, 4);
    var bytes := entry.Write();
    assert bytes[..16] == ToLE(entry.hash, 16) && bytes[16..24] == ToLE(entry.offset, 8) && bytes[24..] == ToLE(entry.length, 4);
  }

  lemma IndexEntryRoundTrip(entry: IndexEntry, bytes: seq<Byte>)
    requires |bytes| == INDEX_ENTRY_SIZE
    ensures entry.Writable() && bytes == entry.Write() <==> entry == IndexEntry.Parse(bytes)
  {
    PowerLimits();
    if entry.Writable() && bytes == entry.Write() {
      FromToLE(entry.hash, 16);
      FromToLE(entry.offset, 8);
      FromToLE(entry.length, 4);
      assert bytes[0..16] == ToLE(entry.hash, 16);
      assert bytes[16..24] == ToLE(entry.offset, 8);
      assert bytes[24..28] == ToLE(entry.length, 4);
    }
    if entry == IndexEntry.Parse(bytes) {
      ToFromLE(bytes[0..16]);
      ToFromLE(bytes[16..24]);
      ToFromLE(bytes[24..28]);
      assert bytes == bytes[0..16] + bytes[16..24] + bytes[24..28];
    }
  }
}
