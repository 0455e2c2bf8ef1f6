/** Reading a version 3 snapshot: header validation, binary search and sequential iteration. */
module SnapshotReading {
  import opened Bytes
  import opened Wrappers
  import opened SnapshotFormat
  import opened SnapshotWriter

  datatype SnapshotReader = SnapshotReader(file: seq<Byte>, numEntries: nat, indexOffset: nat) {

    /** The size equation that `Open` establishes. */
    ghost predicate Valid() {
      indexOffset + numEntries * INDEX_ENTRY_SIZE == |file| < U64_LIMIT
    }

    static function Open(file: seq<Byte>): (r: Result<SnapshotReader, FormatError>)
      ensures r.Ok? ==> r.value.Valid() && r.value.file == file
    {
      if |file| < HEADER_SIZE then Err(TooShort(HEADER_SIZE, |file|))
      else
        var header :- V3Header.Parse(file[..HEADER_SIZE]);
        var expected := header.indexOffset + header.numEntries * INDEX_ENTRY_SIZE;
        if expected >= U64_LIMIT || expected != |file| then
          Err(InvalidNumEntries(header.numEntries, |file|))
        else
          Ok(SnapshotReader(file, header.numEntries, header.indexOffset))
    }

    function ReadIndexEntry(i: nat): Result<IndexEntry, FormatError> {
      var start := indexOffset + i * INDEX_ENTRY_SIZE;
      var end := start + INDEX_ENTRY_SIZE;
      if end > |file| then Err(TooShort(end, |file|))
      else Ok(IndexEntry.Parse(file[start..end]))
    }

    function ReadPostings(codec: Codec, entry: IndexEntry): Result<Postings, FormatError> {
      var start := entry.offset;
      var end := start + entry.length;
      if end > |file| then Err(TooShort(end, |file|))
      else
        match codec.decode(file[start..end])
        case Some(postings) => Ok(postings)
        case None => Err(BincodeError)
    }

    function ReadEntry(codec: Codec, i: nat): Result<Entry, FormatError> {
      var indexEntry :- ReadIndexEntry(i);
      var postings :- ReadPostings(codec, indexEntry);
      Ok(Entry(indexEntry.hash, postings))
    }

    function IterEntries(codec: Codec): seq<Result<Entry, FormatError>> {
      seq(numEntries, i requires 0 <= i < numEntries => ReadEntry(codec, i))
    }

    /** Every index slot of an opened file is inside the file. */
    lemma SlotInBounds(i: nat)
      requires Valid() && i < numEntries
      ensures ReadIndexEntry(i).Ok?
    {
      assert (i + 1) * INDEX_ENTRY_SIZE <= numEntries * INDEX_ENTRY_SIZE;
    }

    ghost predicate HasHash(i: nat, hash: Hash) {
      ReadIndexEntry(i).Ok? && ReadIndexEntry(i).value.hash == hash
    }

    ghost predicate IndexSorted() {
      forall i: nat, j: nat | i < j < numEntries && ReadIndexEntry(i).Ok? && ReadIndexEntry(j).Ok? ::
        ReadIndexEntry(i).value.hash < ReadIndexEntry(j).value.hash
    }

    /** Binary search.  On any opened file it terminates without leaving the file, and what it finds
        is there; on a sorted index a miss means the hash is nowhere. */
    method FindEntry(hash: Hash) returns (r: Result<Option<IndexEntry>, FormatError>)
      requires Valid()
      ensures r.Ok?
      ensures r.value.Some? ==>
                exists i: nat :: i < numEntries && HasHash(i, hash) && ReadIndexEntry(i) == Ok(r.value.value)
      ensures r.value.None? && IndexSorted() ==> forall i: nat | i < numEntries :: !HasHash(i, hash)
    {
      var lo: nat, hi: nat := 0, numEntries;
      while lo < hi
        invariant lo <= hi <= numEntries
        invariant IndexSorted() ==>
                    forall i: nat | i < numEntries && HasHash(i, hash) :: lo <= i < hi
      {
        var mid := lo + (hi - lo) / 2;
        SlotInBounds(mid);
        var entry := ReadIndexEntry(mid).value;
        if entry.hash < hash {
          lo := mid + 1;
        } else if entry.hash > hash {
          hi := mid;
        } else {
          assert HasHash(mid, hash);
          return Ok(Some(entry));
        }
      }
      return Ok(None);
    }

    /** The list of one index slot. */
    function SlotAnswer(codec: Codec, i: nat): Result<Option<Postings>, FormatError>
    {
      var entry :- ReadIndexEntry(i);
      var postings :- ReadPostings(codec, entry);
      Ok(Some(postings))
    }

    /** What the file says about a hash, read without searching. */
    ghost function Lookup(codec: Codec, hash: Hash): Result<Option<Postings>, FormatError> {
      if i: nat :| i < numEntries && HasHash(i, hash) then SlotAnswer(codec, i) else Ok(None)
    }

    lemma HashOnce(i: nat, j: nat, hash: Hash)
      requires IndexSorted() && i < numEntries && j < numEntries && HasHash(i, hash) && HasHash(j, hash)
      ensures i == j
    {
    }

    lemma LookupHit(codec: Codec, i: nat, hash: Hash)
      requires IndexSorted() && i < numEntries && HasHash(i, hash)
      ensures Lookup(codec, hash) == SlotAnswer(codec, i)
    {
      forall j: nat | j < numEntries && HasHash(j, hash) ensures j == i {
        HashOnce(i, j, hash);
      }
    }

    /** Reading a posting list through an index entry whose length was cut to 32 bits. */
    lemma ReadCut(codec: Codec, entry: IndexEntry, p: Postings)
      requires codec.LawfulAt(p)
      requires var blob := codec.encode(p);
        && entry.offset + |blob| <= |file| && file[entry.offset..entry.offset + |blob|] == blob
        && entry.length == |blob| % U32_LIMIT
      ensures ReadPostings(codec, entry) == if Fits(codec, p) then Ok(p) else Err(BincodeError)
    {
      var blob := codec.encode(p);
      SliceFront(file, entry.offset, |blob|, entry.length);
      if Fits(codec, p) {
        assert blob[..entry.length] == blob;
      }
    }

    /** Looks a hash up.  On any opened file a list or an error is that of a slot with the hash; on a
        sorted index the answer is what the file says about the hash. */
    method Get(codec: Codec, hash: Hash) returns (r: Result<Option<Postings>, FormatError>)
      requires Valid()
      ensures r != Ok(None) ==> exists i: nat :: i < numEntries && HasHash(i, hash) && r == SlotAnswer(codec, i)
      ensures IndexSorted() ==> r == Lookup(codec, hash)
    {
      var found := FindEntry(hash);
      match found.value {
        case None =>
          r := Ok(None);
        case Some(entry) =>
          ghost var i: nat :| i < numEntries && HasHash(i, hash) && ReadIndexEntry(i) == Ok(entry);
          if IndexSorted() {
            LookupHit(codec, i, hash);
          }
          SlotAnswers(codec, i, entry);
          hide SlotAnswer, ReadPostings, ReadIndexEntry, IndexSorted, Lookup;
          var postings := ReadPostings(codec, entry);
          r := if postings.Ok? then Ok(Some(postings.value)) else Err(postings.error);
      }
    }

    lemma SlotAnswers(codec: Codec, i: nat, entry: IndexEntry)
      requires ReadIndexEntry(i) == Ok(entry)
      ensures var read := ReadPostings(codec, entry);
        SlotAnswer(codec, i) == if read.Ok? then Ok(Some(read.value)) else Err(read.error)
    {
    }
  }

  lemma SliceFront(bytes: seq<Byte>, start: nat, len: nat, n: nat)
    requires start + len <= |bytes| && n <= len
    ensures bytes[start..start + n] == bytes[start..start + len][..n]
  {
  }

  /** Whether the 32-bit length field can hold the entry's encoding. */
  predicate Fits(codec: Codec, p: Postings) {
    |codec.encode(p)| < U32_LIMIT
  }

  /** The files the writer produces from what its callers hand it. */
  ghost predicate Written(codec: Codec, entries: seq<Entry>) {
    codec.Lawful() && StrictlyAscending(entries) && FileSize(codec, entries) < U64_LIMIT
  }

  ghost function ReaderOf(codec: Codec, entries: seq<Entry>): SnapshotReader {
    SnapshotReader(FileBytes(codec, entries), |entries|, OffsetOf(codec, entries, |entries|))
  }

  /** Written bytes pass `Open`'s validation. */
  lemma WrittenOpens(codec: Codec, entries: seq<Entry>)
    requires FileSize(codec, entries) < U64_LIMIT
    ensures SnapshotReader.Open(FileBytes(codec, entries)) == Ok(ReaderOf(codec, entries))
  {
    var header := HeaderOf(codec, entries);
    var file := FileBytes(codec, entries);
    FileBytesSize(codec, entries);
    assert file[..HEADER_SIZE] == header.Write() == header.Write() + [];
    HeaderParsesBack(header, []);
  }

  lemma LastPart(a: seq<Byte>, b: seq<Byte>, c: seq<Byte>, i: nat, j: nat)
    requires i <= j <= |c|
    ensures (a + b + c)[|a| + |b| + i..|a| + |b| + j] == c[i..j]
  {
  }

  lemma MiddlePart(a: seq<Byte>, b: seq<Byte>, c: seq<Byte>, i: nat, j: nat)
    requires i <= j <= |b|
    ensures (a + b + c)[|a| + i..|a| + j] == b[i..j]
  {
  }

  lemma BlobAt(codec: Codec, entries: seq<Entry>, i: nat)
    requires i < |entries|
    ensures |Blobs(codec, entries)| == |entries| && Blobs(codec, entries)[i] == codec.encode(entries[i].postings)
    ensures OffsetOf(codec, entries, i) == |HeaderOf(codec, entries).Write()| + |Concat(Blobs(codec, entries)[..i])|
    ensures FileBytes(codec, entries)
         == HeaderOf(codec, entries).Write() + Concat(Blobs(codec, entries)) + Concat(IndexParts(codec, entries))
  {
    hide Concat, ToLE, HeaderOf;
    assert Blobs(codec, entries)[..|entries|] == Blobs(codec, entries);
  }

  lemma OffsetInFile(codec: Codec, entries: seq<Entry>, i: nat)
    requires i < |entries|
    ensures OffsetOf(codec, entries, i) + |codec.encode(entries[i].postings)| <= FileSize(codec, entries)
    ensures |FileBytes(codec, entries)| == FileSize(codec, entries)
    ensures var start := OffsetOf(codec, entries, i);
      FileBytes(codec, entries)[start..start + |codec.encode(entries[i].postings)|] == codec.encode(entries[i].postings)
  {
    hide *;
    var blobs := Blobs(codec, entries);
    FileBytesSize(codec, entries);
    BlobAt(codec, entries, i);
    ConcatSlice(blobs, i);
    var start := |Concat(blobs[..i])|;
    MiddlePart(HeaderOf(codec, entries).Write(), Concat(blobs), Concat(IndexParts(codec, entries)),
               start, start + |blobs[i]|);
  }

  lemma FileSections(codec: Codec, entries: seq<Entry>, i: nat)
    requires i < |entries|
    ensures FileBytes(codec, entries)
         == HeaderOf(codec, entries).Write() + Concat(Blobs(codec, entries)) + Concat(IndexParts(codec, entries))
    ensures OffsetOf(codec, entries, |entries|) == |HeaderOf(codec, entries).Write()| + |Concat(Blobs(codec, entries))|
    ensures IndexParts(codec, entries)[i] == IndexEntryOf(codec, entries, i).Write()
    ensures forall p | p in IndexParts(codec, entries) :: |p| == INDEX_ENTRY_SIZE
  {
    hide Concat, IndexEntryOf, ToLE, HeaderOf;
    assert Blobs(codec, entries)[..|entries|] == Blobs(codec, entries);
  }

  lemma SlotBytes(codec: Codec, entries: seq<Entry>, i: nat)
    requires i < |entries|
    ensures var start := OffsetOf(codec, entries, |entries|) + i * INDEX_ENTRY_SIZE;
      && start + INDEX_ENTRY_SIZE <= |FileBytes(codec, entries)|
      && FileBytes(codec, entries)[start..start + INDEX_ENTRY_SIZE] == IndexEntryOf(codec, entries, i).Write()
  {
    hide *;
    FileSections(codec, entries, i);
    SlotInParts(IndexParts(codec, entries), i);
    LastPart(HeaderOf(codec, entries).Write(), Concat(Blobs(codec, entries)), Concat(IndexParts(codec, entries)),
             i * INDEX_ENTRY_SIZE, i * INDEX_ENTRY_SIZE + INDEX_ENTRY_SIZE);
  }

  /** Parts of one width sit at multiples of it. */
  lemma SlotInParts(parts: seq<seq<Byte>>, i: nat)
    requires i < |parts| && forall p | p in parts :: |p| == INDEX_ENTRY_SIZE
    ensures i * INDEX_ENTRY_SIZE + INDEX_ENTRY_SIZE <= |Concat(parts)|
    ensures Concat(parts)[i * INDEX_ENTRY_SIZE..i * INDEX_ENTRY_SIZE + INDEX_ENTRY_SIZE] == parts[i]
  {
    ConcatSlice(parts, i);
    ConcatEqualWidths(parts[..i], INDEX_ENTRY_SIZE);
  }

  lemma WrittenSlot(codec: Codec, entries: seq<Entry>, i: nat)
    requires FileSize(codec, entries) < U64_LIMIT && i < |entries|
    ensures ReaderOf(codec, entries).ReadIndexEntry(i) == Ok(IndexEntryOf(codec, entries, i))
  {
    SlotBytes(codec, entries, i);
    OffsetInFile(codec, entries, i);
    IndexEntryRoundTrip(IndexEntryOf(codec, entries, i), IndexEntryOf(codec, entries, i).Write());
  }

  /** An entry reads back unless its length did not fit in 32 bits; then decoding fails. */
  lemma WrittenReads(codec: Codec, entries: seq<Entry>, i: nat)
    requires Written(codec, entries) && i < |entries|
    ensures ReaderOf(codec, entries).ReadPostings(codec, IndexEntryOf(codec, entries, i))
         == if Fits(codec, entries[i].postings) then Ok(entries[i].postings) else Err(BincodeError)
  {
    OffsetInFile(codec, entries, i);
    assert codec.LawfulAt(entries[i].postings);
    var reader := ReaderOf(codec, entries);
    assert reader.file == FileBytes(codec, entries);
    reader.ReadCut(codec, IndexEntryOf(codec, entries, i), entries[i].postings);
  }

  lemma WrittenSlots(codec: Codec, entries: seq<Entry>)
    requires FileSize(codec, entries) < U64_LIMIT
    ensures forall i: nat | i < |entries| ::
              ReaderOf(codec, entries).ReadIndexEntry(i) == Ok(IndexEntryOf(codec, entries, i))
  {
    forall i: nat | i < |entries|
      ensures ReaderOf(codec, entries).ReadIndexEntry(i) == Ok(IndexEntryOf(codec, entries, i))
    {
      WrittenSlot(codec, entries, i);
    }
  }

  lemma WrittenSorted(codec: Codec, entries: seq<Entry>)
    requires Written(codec, entries)
    ensures ReaderOf(codec, entries).Valid() && ReaderOf(codec, entries).IndexSorted()
  {
    FileBytesSize(codec, entries);
    WrittenSlots(codec, entries);
  }

  /** The answer a written file gives for `hash`. */
  function Answer(codec: Codec, m: map<Hash, Postings>, hash: Hash): Result<Option<Postings>, FormatError> {
    if hash !in m then Ok(None)
    else if Fits(codec, m[hash]) then Ok(Some(m[hash]))
    else Err(BincodeError)
  }

  /** Looking up any hash in a written file. */
  lemma WrittenLookup(codec: Codec, entries: seq<Entry>, hash: Hash)
    requires Written(codec, entries)
    ensures ReaderOf(codec, entries).Lookup(codec, hash) == Answer(codec, ToMap(entries), hash)
  {
    var reader := ReaderOf(codec, entries);
    WrittenSlots(codec, entries);
    WrittenSorted(codec, entries);
    if hash in ToMap(entries) {
      ToMapSound(entries, hash);
      var i: nat :| i < |entries| && entries[i] == Entry(hash, ToMap(entries)[hash]);
      assert reader.HasHash(i, hash);
      WrittenReads(codec, entries, i);
      reader.LookupHit(codec, i, hash);
    } else {
      forall i: nat | i < |entries| ensures !reader.HasHash(i, hash) {
        ToMapComplete(entries, i);
      }
    }
  }

  /** What iterating yields for one entry: itself, or an error when its length did not fit. */
  function Yield(codec: Codec, e: Entry): Result<Entry, FormatError> {
    if Fits(codec, e.postings) then Ok(e) else Err(BincodeError)
  }

  /** Iterating over a written file yields its entries in order. */
  lemma WrittenIterates(codec: Codec, entries: seq<Entry>)
    requires Written(codec, entries)
    ensures var yielded := ReaderOf(codec, entries).IterEntries(codec);
      |yielded| == |entries| && forall i | 0 <= i < |entries| :: yielded[i] == Yield(codec, entries[i])
  {
    WrittenSlots(codec, entries);
    forall i | 0 <= i < |entries|
      ensures ReaderOf(codec, entries).ReadEntry(codec, i) == Yield(codec, entries[i])
    {
      WrittenReads(codec, entries, i);
    }
  }

  ghost predicate AllFit(codec: Codec, m: map<Hash, Postings>) {
    forall h | h in m :: Fits(codec, m[h])
  }

  /** Every lookup is exact if and only if every encoding's length fits in 32 bits. */
  lemma SnapshotLookupsExact(codec: Codec, entries: seq<Entry>)
    requires Written(codec, entries)
    ensures AllFit(codec, ToMap(entries))
        <==> forall h: Hash :: ReaderOf(codec, entries).Lookup(codec, h)
                            == Ok(if h in ToMap(entries) then Some(ToMap(entries)[h]) else None)
  {
    forall h: Hash
      ensures ReaderOf(codec, entries).Lookup(codec, h) == Answer(codec, ToMap(entries), h)
    {
      WrittenLookup(codec, entries, h);
    }
  }

  function AllOk(entries: seq<Entry>): seq<Result<Entry, FormatError>> {
    seq(|entries|, i requires 0 <= i < |entries| => Ok(entries[i]))
  }

  lemma YieldsAllOk(codec: Codec, entries: seq<Entry>, yielded: seq<Result<Entry, FormatError>>)
    requires |yielded| == |entries| && forall i | 0 <= i < |entries| :: yielded[i] == Yield(codec, entries[i])
    ensures (forall e | e in entries :: Fits(codec, e.postings)) <==> yielded == AllOk(entries)
  {
    if e :| e in entries && !Fits(codec, e.postings) {
      var i :| 0 <= i < |entries| && entries[i] == e;
      assert yielded[i].Err? && AllOk(entries)[i].Ok?;
    }
  }

  lemma AllFitByEntry(codec: Codec, entries: seq<Entry>)
    requires StrictlyAscending(entries)
    ensures AllFit(codec, ToMap(entries)) <==> forall e | e in entries :: Fits(codec, e.postings)
  {
    forall h: Hash, p: Postings
      ensures Entry(h, p) in entries <==> h in ToMap(entries) && ToMap(entries)[h] == p
    {
      ToMapIff(entries, h, p);
    }
    if h :| h in ToMap(entries) && !Fits(codec, ToMap(entries)[h]) {
      assert Entry(h, ToMap(entries)[h]) in entries;
    }
    if e :| e in entries && !Fits(codec, e.postings) {
      assert Entry(e.hash, e.postings) in entries;
    }
  }

  /** Iteration returns the very sequence written under the same condition. */
  lemma SnapshotIterationExact(codec: Codec, entries: seq<Entry>)
    requires Written(codec, entries)
    ensures AllFit(codec, ToMap(entries)) <==> ReaderOf(codec, entries).IterEntries(codec) == AllOk(entries)
  {
    WrittenIterates(codec, entries);
    AllFitByEntry(codec, entries);
    YieldsAllOk(codec, entries, ReaderOf(codec, entries).IterEntries(codec));
  }
}
