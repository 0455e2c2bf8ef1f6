/** Writing a version 3 snapshot: one pass over sorted entries, then the index, then the header. */
module SnapshotWriter {
  import opened Bytes
  import opened Wrappers
  import opened SnapshotFormat
  import opened Sorting

  ghost predicate StrictlyAscending(entries: seq<Entry>) {
    forall i, j | 0 <= i < j < |entries| :: entries[i].hash < entries[j].hash
  }

  ghost predicate AscendingUpTo(entries: seq<Entry>, n: nat)
    requires n <= |entries|
  {
    forall i | 0 < i < n :: entries[i - 1].hash < entries[i].hash
  }

  lemma AscendingStep(entries: seq<Entry>, i: nat, j: nat)
    requires AscendingUpTo(entries, |entries|) && i < j < |entries|
    ensures entries[i].hash < entries[j].hash
    decreases j
  {
    if i < j - 1 {
      AscendingStep(entries, i, j - 1);
    }
  }

  /** Checking neighbours, as the writer does, decides the whole order. */
  lemma AscendingByNeighbours(entries: seq<Entry>)
    ensures AscendingUpTo(entries, |entries|) <==> StrictlyAscending(entries)
  {
    if AscendingUpTo(entries, |entries|) {
      forall i, j | 0 <= i < j < |entries| ensures entries[i].hash < entries[j].hash {
        AscendingStep(entries, i, j);
      }
    }
  }

  /** The posting lists in entry order, serialised. */
  function Blobs(codec: Codec, entries: seq<Entry>): (parts: seq<seq<Byte>>)
    ensures |parts| == |entries|
  {
    seq(|entries|, i requires 0 <= i < |entries| => codec.encode(entries[i].postings))
  }

  /** Where entry `i`'s posting list starts in the file. */
  function OffsetOf(codec: Codec, entries: seq<Entry>, i: nat): nat
    requires i <= |entries|
  {
    HEADER_SIZE + |Concat(Blobs(codec, entries)[..i])|
  }

  /** Index entry `i`; the length is cut to 32 bits. */
  function IndexEntryOf(codec: Codec, entries: seq<Entry>, i: nat): IndexEntry
    requires i < |entries|
  {
    IndexEntry(entries[i].hash, OffsetOf(codec, entries, i), |codec.encode(entries[i].postings)| % U32_LIMIT)
  }

  function IndexParts(codec: Codec, entries: seq<Entry>): (parts: seq<seq<Byte>>)
    ensures |parts| == |entries|
  {
    seq(|entries|, i requires 0 <= i < |entries| => IndexEntryOf(codec, entries, i).Write())
  }

  function HeaderOf(codec: Codec, entries: seq<Entry>): V3Header {
    V3Header(VERSION_V3, |entries|, HEADER_SIZE, OffsetOf(codec, entries, |entries|))
  }

  function FileBytes(codec: Codec, entries: seq<Entry>): seq<Byte> {
    HeaderOf(codec, entries).Write() + Concat(Blobs(codec, entries)) + Concat(IndexParts(codec, entries))
  }

  function FileSize(codec: Codec, entries: seq<Entry>): nat {
    OffsetOf(codec, entries, |entries|) + |entries| * INDEX_ENTRY_SIZE
  }

  lemma FileBytesSize(codec: Codec, entries: seq<Entry>)
    ensures |FileBytes(codec, entries)| == FileSize(codec, entries)
  {
    ConcatEqualWidths(IndexParts(codec, entries), INDEX_ENTRY_SIZE);
    assert Blobs(codec, entries)[..|entries|] == Blobs(codec, entries);
  }

  lemma ConcatNext(parts: seq<seq<Byte>>, n: nat)
    requires n < |parts|
    ensures Concat(parts[..n + 1]) == Concat(parts[..n]) + parts[n]
  {
    assert parts[..n + 1] == parts[..n] + [parts[n]];
    ConcatAppend(parts[..n], parts[n]);
  }

  /** The pass over the entries, after a 40-byte placeholder; `warned` is the out-of-order warning. */
  method WriteBlobs(codec: Codec, entries: seq<Entry>)
    returns (out: seq<Byte>, indexEntries: seq<IndexEntry>, indexOffset: nat, warned: bool)
    ensures warned <==> !StrictlyAscending(entries)
    ensures |out| == indexOffset == OffsetOf(codec, entries, |entries|)
    ensures out[HEADER_SIZE..] == Concat(Blobs(codec, entries))
    ensures |indexEntries| == |entries|
    ensures forall i | 0 <= i < |entries| :: indexEntries[i] == IndexEntryOf(codec, entries, i)
  {
    var placeholder: seq<Byte> := seq(HEADER_SIZE, _ => 0);
    out := placeholder;
    indexOffset := HEADER_SIZE;
    indexEntries := [];
    var prevHash := None;
    warned := false;
    for n := 0 to |entries|
      invariant out == placeholder + Concat(Blobs(codec, entries)[..n])
      invariant indexOffset == OffsetOf(codec, entries, n)
      invariant |indexEntries| == n
      invariant forall i | 0 <= i < n :: indexEntries[i] == IndexEntryOf(codec, entries, i)
      invariant prevHash == if n == 0 then None else Some(entries[n - 1].hash)
      invariant warned <==> !AscendingUpTo(entries, n)
    {
      var entry := entries[n];
      if prevHash.Some? && entry.hash <= prevHash.value {
        warned := true;
      }
      prevHash := Some(entry.hash);
      var serialized := codec.encode(entry.postings);
      var length := |serialized| % U32_LIMIT;
      ConcatNext(Blobs(codec, entries), n);
      out := out + serialized;
      indexEntries := indexEntries + [IndexEntry(entry.hash, indexOffset, length)];
      indexOffset := indexOffset + |serialized|;
    }
    assert Blobs(codec, entries)[..|entries|] == Blobs(codec, entries);
    AscendingByNeighbours(entries);
  }

  method WriteIndex(out: seq<Byte>, indexEntries: seq<IndexEntry>) returns (written: seq<Byte>)
    ensures written == out + Concat(seq(|indexEntries|, i requires 0 <= i < |indexEntries| => indexEntries[i].Write()))
  {
    ghost var parts := seq(|indexEntries|, i requires 0 <= i < |indexEntries| => indexEntries[i].Write());
    written := out;
    for n := 0 to |indexEntries|
      invariant written == out + Concat(parts[..n])
    {
      ConcatNext(parts, n);
      written := written + indexEntries[n].Write();
    }
    assert parts[..|indexEntries|] == parts;
  }

  /** Blobs and index first, then back to offset 0 for the header. */
  method WriteSnapshot(codec: Codec, entries: seq<Entry>) returns (file: Result<seq<Byte>, FormatError>, warned: bool)
    ensures warned <==> !StrictlyAscending(entries)
    ensures file == if FileSize(codec, entries) < U64_LIMIT then Ok(FileBytes(codec, entries))
                    else Err(InvalidNumEntries(|entries|, 0))
  {
    var out, indexEntries, indexOffset, w := WriteBlobs(codec, entries);
    warned := w;
    var written := WriteIndex(out, indexEntries);
    var numEntries := |entries|;
    // saturating_mul, then checked_add
    var indexSize := if numEntries * INDEX_ENTRY_SIZE < U64_LIMIT then numEntries * INDEX_ENTRY_SIZE else U64_LIMIT - 1;
    if indexOffset + indexSize >= U64_LIMIT {
      file := Err(InvalidNumEntries(numEntries, 0));
      return;
    }
    assert IndexParts(codec, entries)
        == seq(|indexEntries|, i requires 0 <= i < |indexEntries| => indexEntries[i].Write());
    var header := V3Header(VERSION_V3, numEntries, HEADER_SIZE, indexOffset);
    ghost var blobs, index := Concat(Blobs(codec, entries)), Concat(IndexParts(codec, entries));
    assert written[HEADER_SIZE..] == blobs + index;
    assert header.Write() + (blobs + index) == header.Write() + blobs + index;
    file := Ok(header.Write() + written[HEADER_SIZE..]);
  }

  ghost predicate DistinctHashes(entries: seq<Entry>) {
    forall i, j | 0 <= i < j < |entries| :: entries[i].hash != entries[j].hash
  }

  /** The map an entry sequence denotes; later entries win. */
  function ToMap(entries: seq<Entry>): map<Hash, Postings> {
    if |entries| == 0 then map[]
    else ToMap(entries[..|entries| - 1])[entries[|entries| - 1].hash := entries[|entries| - 1].postings]
  }

  lemma {:induction false} ToMapSound(entries: seq<Entry>, h: Hash)
    requires h in ToMap(entries)
    ensures Entry(h, ToMap(entries)[h]) in entries
  {
    var last := entries[|entries| - 1];
    if h != last.hash {
      ToMapSound(entries[..|entries| - 1], h);
    }
  }

  lemma {:induction false} ToMapComplete(entries: seq<Entry>, i: nat)
    requires DistinctHashes(entries) && i < |entries|
    ensures entries[i].hash in ToMap(entries) && ToMap(entries)[entries[i].hash] == entries[i].postings
  {
    if i < |entries| - 1 {
      ToMapComplete(entries[..|entries| - 1], i);
    }
  }

  lemma ToMapIff(entries: seq<Entry>, h: Hash, p: Postings)
    requires DistinctHashes(entries)
    ensures Entry(h, p) in entries <==> h in ToMap(entries) && ToMap(entries)[h] == p
  {
    if Entry(h, p) in entries {
      var i :| 0 <= i < |entries| && entries[i] == Entry(h, p);
      ToMapComplete(entries, i);
    }
    if h in ToMap(entries) {
      ToMapSound(entries, h);
    }
  }

  lemma SameMap(xs: seq<Entry>, ys: seq<Entry>)
    requires DistinctHashes(xs) && DistinctHashes(ys)
    requires forall e :: e in xs <==> e in ys
    ensures ToMap(xs) == ToMap(ys)
  {
    forall h: Hash
      ensures h in ToMap(xs) <==> h in ToMap(ys)
      ensures h in ToMap(xs) ==> ToMap(xs)[h] == ToMap(ys)[h]
    {
      if h in ToMap(xs) {
        ToMapIff(xs, h, ToMap(xs)[h]);
        ToMapIff(ys, h, ToMap(xs)[h]);
      }
      if h in ToMap(ys) {
        ToMapIff(xs, h, ToMap(ys)[h]);
        ToMapIff(ys, h, ToMap(ys)[h]);
      }
    }
  }

  lemma MapWithoutLast(xs: seq<Entry>)
    requires StrictlyAscending(xs) && |xs| > 0
    ensures ToMap(xs[..|xs| - 1]) == ToMap(xs) - {xs[|xs| - 1].hash}
  {
    var prefix, last := xs[..|xs| - 1], xs[|xs| - 1];
    if last.hash in ToMap(prefix) {
      ToMapSound(prefix, last.hash);
      assert false;
    }
    assert ToMap(prefix)[last.hash := last.postings] - {last.hash} == ToMap(prefix);
  }

  lemma LastIsGreatest(xs: seq<Entry>, h: Hash)
    requires StrictlyAscending(xs) && h in ToMap(xs)
    ensures |xs| > 0 && h <= xs[|xs| - 1].hash
  {
    ToMapSound(xs, h);
  }

  lemma SameLast(xs: seq<Entry>, ys: seq<Entry>)
    requires StrictlyAscending(xs) && StrictlyAscending(ys) && ToMap(xs) == ToMap(ys) && |xs| > 0
    ensures |ys| > 0 && xs[|xs| - 1] == ys[|ys| - 1]
  {
    var x := xs[|xs| - 1];
    assert x.hash in ToMap(xs);
    LastIsGreatest(ys, x.hash);
    var y := ys[|ys| - 1];
    assert y.hash in ToMap(ys);
    LastIsGreatest(xs, y.hash);
    assert x.postings == ToMap(xs)[x.hash] && y.postings == ToMap(ys)[y.hash];
  }

  /** Sorted entries are determined by the map they denote. */
  lemma {:induction false} AscendingUnique(xs: seq<Entry>, ys: seq<Entry>)
    requires StrictlyAscending(xs) && StrictlyAscending(ys) && ToMap(xs) == ToMap(ys)
    ensures xs == ys
  {
    if |xs| == 0 {
      if |ys| != 0 {
        SameLast(ys, xs);
      }
    } else {
      SameLast(xs, ys);
      MapWithoutLast(xs);
      MapWithoutLast(ys);
      var xs', ys' := xs[..|xs| - 1], ys[..|ys| - 1];
      AscendingUnique(xs', ys');
      assert xs == xs' + [xs[|xs| - 1]] && ys == ys' + [ys[|ys| - 1]];
    }
  }

  const ENTRY_HASH: Entry -> nat := (e: Entry) => e.hash

  /** Sorting distinct hashes gives the one ascending sequence with the same entries. */
  lemma SortedByHash(entries: seq<Entry>)
    requires DistinctHashes(entries)
    ensures StrictlyAscending(StableSort(ByKey(ENTRY_HASH), entries))
    ensures ToMap(StableSort(ByKey(ENTRY_HASH), entries)) == ToMap(entries)
  {
    SortDistinctKeys(ENTRY_HASH, entries);
    SortPermutes(ByKey(ENTRY_HASH), entries);
    SameMap(StableSort(ByKey(ENTRY_HASH), entries), entries);
  }

  /** A hash map's entries, in whatever order it yields them, sorted for the writer. */
  method SortMap(m: map<Hash, Postings>) returns (entries: seq<Entry>)
    ensures StrictlyAscending(entries) && ToMap(entries) == m
  {
    var collected: seq<Entry> := [];
    var pending := m.Keys;
    while pending != {}
      invariant pending <= m.Keys
      invariant forall i | 0 <= i < |collected| :: collected[i].hash !in pending
      invariant DistinctHashes(collected)
      invariant ToMap(collected) == m - pending
      decreases pending
    {
      var hash :| hash in pending;
      ghost var before := collected;
      pending := pending - {hash};
      collected := collected + [Entry(hash, m[hash])];
      assert collected[..|collected| - 1] == before;
    }
    SortedByHash(collected);
    entries := StableSort(ByKey(ENTRY_HASH), collected);
  }
}
