/** Opening an exact index: a missing file, a version 3 snapshot, or an older file whose entries
    become the delta. */
module ExactOpening {
  import opened Bytes
  import opened Wrappers
  import opened SnapshotFormat
  import opened SnapshotWriter
  import opened SnapshotReading
  import opened MergeStreams
  import opened IndexView
  import opened ExactIndexes

  // ---------- older files keyed by text ----------

  /** The list holds the row under the segment. */
  ghost predicate Holds(list: Postings, segment: nat, row: nat) {
    exists i | 0 <= i < |list| :: list[i].segment == segment && row in list[i].rows
  }

  ghost predicate DeltaHolds(delta: map<Hash, DeltaEntry>, h: Hash, segment: nat, row: nat) {
    h in delta && delta[h].Replace? && Holds(delta[h].postings, segment, row)
  }

  /** Some value with this hash has the row under the segment. */
  ghost predicate ValueHolds(hash: Text -> Hash, raw: map<Text, Postings>, h: Hash, segment: nat, row: nat) {
    exists v :: v in raw && hash(v) == h && Holds(raw[v], segment, row)
  }

  lemma {:induction false} MergeHolds(list: Postings, segment: nat, rows: set<nat>)
    ensures forall s, r :: Holds(MergeInto(list, segment, rows), s, r) <==> Holds(list, s, r) || (s == segment && r in rows)
  {
    forall s, r ensures Holds(MergeInto(list, segment, rows), s, r) <==> Holds(list, s, r) || (s == segment && r in rows) {
      MergeHoldsAt(list, segment, rows, s, r);
    }
  }

  lemma {:induction false} MergeHoldsAt(list: Postings, segment: nat, rows: set<nat>, s: nat, r: nat)
    ensures Holds(MergeInto(list, segment, rows), s, r) <==> Holds(list, s, r) || (s == segment && r in rows)
  {
    var merged := MergeInto(list, segment, rows);
    if |list| == 0 {
      assert Holds(merged, s, r) <==> (merged[0].segment == s && r in merged[0].rows);
    } else {
      HoldsFirst(list, s, r);
      HoldsFirst(merged, s, r);
      if list[0].segment != segment {
        MergeHoldsAt(list[1..], segment, rows, s, r);
        assert merged[1..] == MergeInto(list[1..], segment, rows);
      }
    }
  }

  lemma HoldsFirst(list: Postings, s: nat, r: nat)
    requires |list| > 0
    ensures Holds(list, s, r) <==> (list[0].segment == s && r in list[0].rows) || Holds(list[1..], s, r)
  {
    if Holds(list, s, r) {
      var i :| 0 <= i < |list| && list[i].segment == s && r in list[i].rows;
      assert i > 0 ==> list[1..][i - 1] == list[i];
    }
    if Holds(list[1..], s, r) {
      var i :| 0 <= i < |list| - 1 && list[1..][i].segment == s && r in list[1..][i].rows;
      assert list[i + 1] == list[1..][i];
    }
  }

  /** Adds one value's list to the list of another value with the same hash. */
  method Collapse(entry: Postings, bitmaps: Postings) returns (merged: Postings)
    ensures forall s, r :: Holds(merged, s, r) <==> Holds(entry, s, r) || Holds(bitmaps, s, r)
  {
    merged := entry;
    for i := 0 to |bitmaps|
      invariant forall s, r :: Holds(merged, s, r) <==> Holds(entry, s, r) || Holds(bitmaps[..i], s, r)
    {
      MergeHolds(merged, bitmaps[i].segment, bitmaps[i].rows);
      forall s, r ensures Holds(bitmaps[..i + 1], s, r) <==> Holds(bitmaps[..i], s, r) || (s == bitmaps[i].segment && r in bitmaps[i].rows) {
        HoldsLast(bitmaps, i, s, r);
      }
      merged := MergeInto(merged, bitmaps[i].segment, bitmaps[i].rows);
    }
    assert bitmaps[..|bitmaps|] == bitmaps;
  }

  lemma HoldsLast(list: Postings, i: nat, s: nat, r: nat)
    requires i < |list|
    ensures Holds(list[..i + 1], s, r) <==> Holds(list[..i], s, r) || (s == list[i].segment && r in list[i].rows)
  {
    var longer, shorter := list[..i + 1], list[..i];
    if Holds(shorter, s, r) {
      var j :| 0 <= j < i && shorter[j].segment == s && r in shorter[j].rows;
      assert longer[j] == shorter[j];
    }
    assert longer[i] == list[i];
    if Holds(longer, s, r) {
      var j :| 0 <= j < i + 1 && longer[j].segment == s && r in longer[j].rows;
      assert j < i ==> shorter[j] == longer[j];
    }
  }

  /** The delta made of the values visited so far. */
  ghost predicate Loaded(hash: Text -> Hash, raw: map<Text, Postings>, delta: map<Hash, DeltaEntry>) {
    && (forall h :: h in delta <==> exists v :: v in raw && hash(v) == h)
    && (forall h | h in delta :: delta[h].Replace?)
    && (forall h, s, r :: DeltaHolds(delta, h, s, r) <==> ValueHolds(hash, raw, h, s, r))
  }

  /** Re-keys an older file by hash.  Whatever the order in which the values come up, a hash ends up
      with the rows of all values that have it. */
  method LoadV1IntoDelta(hash: Text -> Hash, raw: map<Text, Postings>) returns (delta: map<Hash, DeltaEntry>)
    ensures Loaded(hash, raw, delta)
  {
    delta := map[];
    ghost var done: map<Text, Postings> := map[];
    var pending := raw.Keys;
    while pending != {}
      invariant pending <= raw.Keys && done.Keys == raw.Keys - pending
      invariant forall v | v in done :: done[v] == raw[v]
      invariant Loaded(hash, done, delta)
      decreases pending
    {
      var value :| value in pending;
      pending := pending - {value};
      var h := hash(value);
      ghost var before := delta;
      if h in delta {
        var merged := Collapse(delta[h].postings, raw[value]);
        delta := delta[h := Replace(merged)];
      } else {
        delta := delta[h := Replace(raw[value])];
      }
      LoadedNext(hash, done, before, value, raw[value], delta);
      done := done[value := raw[value]];
    }
    assert done == raw;
  }

  lemma LoadedNext(hash: Text -> Hash, done: map<Text, Postings>, before: map<Hash, DeltaEntry>, value: Text, list: Postings,
                   after: map<Hash, DeltaEntry>)
    requires Loaded(hash, done, before) && value !in done
    requires after.Keys == before.Keys + {hash(value)}
    requires forall h | h in before && h != hash(value) :: after[h] == before[h]
    requires after[hash(value)].Replace?
    requires forall s, r :: Holds(after[hash(value)].postings, s, r) <==> DeltaHolds(before, hash(value), s, r) || Holds(list, s, r)
    ensures Loaded(hash, done[value := list], after)
  {
    hide Holds;
    var next := done[value := list];
    forall h ensures h in after <==> exists v :: v in next && hash(v) == h {
      if h in before {
        var v :| v in done && hash(v) == h;
        assert v in next;
      }
      assert value in next;
    }
    forall h, s, r ensures DeltaHolds(after, h, s, r) <==> ValueHolds(hash, next, h, s, r) {
      ValueHoldsNext(hash, done, value, list, h, s, r);
      assert DeltaHolds(before, h, s, r) <==> ValueHolds(hash, done, h, s, r);
    }
  }

  lemma ValueHoldsNext(hash: Text -> Hash, done: map<Text, Postings>, value: Text, list: Postings, h: Hash, s: nat, r: nat)
    requires value !in done
    ensures ValueHolds(hash, done[value := list], h, s, r)
       <==> ValueHolds(hash, done, h, s, r) || (hash(value) == h && Holds(list, s, r))
  {
    hide Holds;
    var next := done[value := list];
    if ValueHolds(hash, done, h, s, r) {
      var v :| v in done && hash(v) == h && Holds(done[v], s, r);
      assert v in next && next[v] == done[v];
    }
    assert value in next && next[value] == list;
    if ValueHolds(hash, next, h, s, r) {
      var v :| v in next && hash(v) == h && Holds(next[v], s, r);
      assert v != value ==> v in done && done[v] == next[v];
    }
  }

  // ---------- opening ----------

  const VERSION_V1: Byte := 1
  const VERSION_V2: Byte := 2

  datatype OpenError = BadSnapshot(error: FormatError) | UndecodablePayload | VersionNotSupported(version: Byte)

  /** The decoders of the older payloads. */
  datatype Legacy = Legacy(byHash: seq<Byte> -> Option<map<Hash, Postings>>, byText: seq<Byte> -> Option<map<Text, Postings>>)

  predicate HasMagic(file: seq<Byte>) {
    |file| >= 4 && file[..4] == MAGIC
  }

  /** The version byte, zero if the file ends before it. */
  function VersionOf(file: seq<Byte>): Byte {
    if |file| > 4 then file[4] else 0
  }

  function Payload(file: seq<Byte>): seq<Byte> {
    if |file| > 8 then file[8..] else []
  }

  ghost predicate WrittenFrom(codec: Codec, file: seq<Byte>, entries: seq<Entry>) {
    Written(codec, entries) && file == FileBytes(codec, entries)
  }

  lemma StartsWithHeader(header: V3Header, file: seq<Byte>, rest: seq<Byte>)
    requires header.version == VERSION_V3 && file == header.Write() + rest
    ensures HasMagic(file) && VersionOf(file) == VERSION_V3
  {
    HeaderLayout(header, rest);
    assert file[..4] == file[0..4];
  }

  lemma FileParts(codec: Codec, entries: seq<Entry>)
    ensures HeaderOf(codec, entries).version == VERSION_V3
    ensures FileBytes(codec, entries)
         == HeaderOf(codec, entries).Write() + (Concat(Blobs(codec, entries)) + Concat(IndexParts(codec, entries)))
  {
    hide Concat, Blobs, IndexParts, ToLE;
  }

  lemma WrittenFacts(codec: Codec, file: seq<Byte>, entries: seq<Entry>)
    requires WrittenFrom(codec, file, entries)
    ensures Written(codec, entries) && FileSize(codec, entries) < U64_LIMIT && file == FileBytes(codec, entries)
  {
  }

  lemma WrittenHasVersion(codec: Codec, file: seq<Byte>, entries: seq<Entry>)
    requires WrittenFrom(codec, file, entries)
    ensures HasMagic(file) && VersionOf(file) == VERSION_V3
    ensures SnapshotReader.Open(file) == Ok(ReaderOf(codec, entries))
  {
    hide *;
    WrittenFacts(codec, file, entries);
    WrittenOpens(codec, entries);
    FileParts(codec, entries);
    StartsWithHeader(HeaderOf(codec, entries), file, Concat(Blobs(codec, entries)) + Concat(IndexParts(codec, entries)));
  }

  /** What an index starts from. */
  datatype Contents = Contents(snapshot: Option<SnapshotReader>, delta: map<Hash, DeltaEntry>)

  /** In an older file the payload is everything after eight bytes: the magic, the version and three more. */
  lemma PayloadAfterHeader(version: Byte, spare: seq<Byte>, payload: seq<Byte>)
    requires |spare| == 3
    ensures var file := MAGIC + [version] + spare + payload;
      HasMagic(file) && VersionOf(file) == version && Payload(file) == payload && TextPayload(file) == payload
  {
    var file := MAGIC + [version] + spare + payload;
    assert file == (MAGIC + [version] + spare) + payload;
    assert file[..4] == MAGIC;
  }

  /** A file that ends before its version has version zero, which is not supported. */
  lemma MagicAlone(hash: Text -> Hash, legacy: Legacy, r: Result<Contents, OpenError>)
    requires Leads(hash, legacy, MAGIC, r)
    ensures r == Err(VersionNotSupported(0))
  {
  }

  /** The payload keyed by text: everything after the header, or a whole file without one. */
  function TextPayload(file: seq<Byte>): seq<Byte> {
    if HasMagic(file) then Payload(file) else file
  }

  /** What an index file leads to: the snapshot of version 3, the decoded payload of the older versions
      as delta, or the error. */
  ghost predicate Leads(hash: Text -> Hash, legacy: Legacy, file: seq<Byte>, r: Result<Contents, OpenError>) {
    if !HasMagic(file) || VersionOf(file) == VERSION_V1 then
      match legacy.byText(TextPayload(file))
      case None => r == Err(UndecodablePayload)
      case Some(raw) => r.Ok? && r.value.snapshot == None && Loaded(hash, raw, r.value.delta)
    else if VersionOf(file) == VERSION_V2 then
      match legacy.byHash(Payload(file))
      case None => r == Err(UndecodablePayload)
      case Some(stored) => r.Ok? && r.value.snapshot == None && Overlay(map[], r.value.delta) == stored
    else if VersionOf(file) == VERSION_V3 then
      match SnapshotReader.Open(file)
      case Err(error) => r == Err(BadSnapshot(error))
      case Ok(reader) => r == Ok(Contents(Some(reader), map[]))
    else r == Err(VersionNotSupported(VersionOf(file)))
  }

  /** Reads an index file of any version. */
  method ReadFile(hash: Text -> Hash, legacy: Legacy, file: seq<Byte>) returns (r: Result<Contents, OpenError>)
    ensures Leads(hash, legacy, file, r)
  {
    hide Loaded;
    if !HasMagic(file) || VersionOf(file) == VERSION_V1 {
      var raw := legacy.byText(TextPayload(file));
      if raw.None? {
        return Err(UndecodablePayload);
      }
      var delta := LoadV1IntoDelta(hash, raw.value);
      return Ok(Contents(None, delta));
    }
    if VersionOf(file) == VERSION_V2 {
      var stored := legacy.byHash(Payload(file));
      if stored.None? {
        return Err(UndecodablePayload);
      }
      var delta := map h | h in stored.value :: Replace(stored.value[h]);
      assert Overlay(map[], delta) == stored.value;
      return Ok(Contents(None, delta));
    }
    if VersionOf(file) != VERSION_V3 {
      return Err(VersionNotSupported(VersionOf(file)));
    }
    var reader := SnapshotReader.Open(file);
    if reader.Err? {
      return Err(BadSnapshot(reader.error));
    }
    return Ok(Contents(Some(reader.value), map[]));
  }

  /** Opens the index at a path.  A missing file gives an empty index bound to the path, an older file
      the map of its payload, and a file made from `entries` their readable part. */
  method OpenIndex(codec: Codec, hash: Text -> Hash, capacity: nat, legacy: Legacy, disk: Disk, path: Path, ghost entries: seq<Entry>)
    returns (r: Result<ExactIndex, OpenError>)
    requires codec.Lawful()
    ensures r.Ok? ==> fresh(r.value) && r.value.path == Some(path) && r.value.hash == hash && r.value.codec == codec
    ensures path !in disk.files ==> r.Ok? && r.value.Valid() && r.value.View() == map[]
    ensures path in disk.files ==>
              Leads(hash, legacy, disk.files[path], if r.Ok? then Ok(Contents(r.value.snapshot, r.value.delta)) else Err(r.error))
    ensures r.Ok? && r.value.snapshot.None? ==> r.value.Valid() && r.value.View() == Overlay(map[], r.value.delta)
    ensures path in disk.files && WrittenFrom(codec, disk.files[path], entries) ==>
              r.Ok? && r.value.Valid() && r.value.View() == Readable(codec, ToMap(entries))
  {
    hide WrittenFrom, HasMagic, VersionOf, Readable, Loaded, SnapshotReader.Open;
    var index := new ExactIndex(codec, hash, capacity);
    index.path := Some(path);
    if path !in disk.files {
      return Ok(index);
    }
    if WrittenFrom(codec, disk.files[path], entries) {
      WrittenHasVersion(codec, disk.files[path], entries);
      WrittenFacts(codec, disk.files[path], entries);
    }
    var contents := ReadFile(hash, legacy, disk.files[path]);
    if contents.Err? {
      return Err(contents.error);
    }
    index.snapshot := contents.value.snapshot;
    index.delta := contents.value.delta;
    index.written := entries;
    return Ok(index);
  }

  /** When a save to a given path writes a file. */
  lemma SaveStepWrites(codec: Codec, s: IndexState, path: Path, disk: DiskOutcome)
    ensures var reply := SaveStep(codec, s, Some(path), disk).1;
      (reply == Stored && (s.changed || !s.saved)) || reply == Failed(ReopenFailed) <==>
        (s.changed || !s.saved) && disk in {Works, NoReopen} && (s.saved ==> s.intact) && Storable(codec, s.view)
  {
    hide Storable, Readable, AllFit;
  }

  ghost predicate CanWrite(index: ExactIndex, outcome: DiskOutcome)
    reads index
  {
    !index.UpToDate() && outcome in {Works, NoReopen} && index.SnapshotIntact() && Storable(index.codec, index.View())
  }

  lemma EntriesOf(codec: Codec, files: map<Path, seq<Byte>>, path: Path, m: View) returns (entries: seq<Entry>)
    requires HoldsMap(codec, files, path, m)
    ensures path in files && WrittenFrom(codec, files[path], entries) && ToMap(entries) == m
  {
    hide Written, FileBytes;
    entries :| Written(codec, entries) && ToMap(entries) == m && files[path] == FileBytes(codec, entries);
  }

  /** Saves to a path and says whether a file was written. */
  method SaveTo(index: ExactIndex, disk: Disk, path: Path, outcome: DiskOutcome) returns (written: bool, ghost entries: seq<Entry>)
    requires index.Valid()
    modifies index, disk
    ensures written <==> old(CanWrite(index, outcome))
    ensures written ==> path in disk.files && WrittenFrom(index.codec, disk.files[path], entries) && ToMap(entries) == old(index.View())
  {
    var upToDate := index.UpToDate();
    ghost var whole := index.View();
    SaveStepWrites(index.codec, index.State(), path, outcome);
    hide ExactIndex.View, ExactIndex.Valid, ExactIndex.SnapshotIntact, Storable, Readable, AllFit, SaveStep, HoldsMap, OthersKept, WrittenFrom;
    var saved := index.Save(disk, Some(path), outcome);
    written := (saved.Ok? && !upToDate) || saved == Err(ReopenFailed);
    entries := [];
    if written {
      entries := EntriesOf(index.codec, disk.files, path, whole);
    }
  }

  /** An index saved and opened again is the same map, less what did not fit the format; even where
      the save failed, if only reopening did. */
  method SaveThenOpen(index: ExactIndex, legacy: Legacy, disk: Disk, path: Path, outcome: DiskOutcome)
    returns (r: Result<ExactIndex, OpenError>, written: bool)
    requires index.Valid()
    modifies index, disk
    ensures written <==> old(CanWrite(index, outcome))
    ensures written ==> r.Ok? && r.value.Valid() && r.value.View() == Readable(index.codec, old(index.View()))
    ensures written && AllFit(index.codec, old(index.View())) ==> r.value.View() == old(index.View())
  {
    ReadableIsAll(index.codec, index.View());
    hide WrittenFrom, Leads, ExactIndex.View, ExactIndex.Valid, CanWrite, Readable, AllFit, Overlay;
    ghost var entries;
    written, entries := SaveTo(index, disk, path, outcome);
    r := OpenIndex(index.codec, index.hash, index.capacity, legacy, disk, path, entries);
  }
}
