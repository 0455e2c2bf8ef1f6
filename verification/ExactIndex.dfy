/** The exact-match index of one field: an immutable snapshot file, an in-memory delta with
    tombstones, and an LRU cache of decoded snapshot answers. */
module ExactIndexes {
  import opened Bytes
  import opened Wrappers
  import opened SnapshotFormat
  import opened SnapshotWriter
  import opened SnapshotReading
  import opened MergeStreams
  import opened IndexView

  type Path = string

  datatype SaveError =
    | NoPath
    | DirectoryFailed
    | SnapshotUnreadable(error: FormatError)
    | WriteFailed(reason: FormatError)
    | DiskFailed
    | ReopenFailed

  /** What the disk does during a save: the first step that fails, if any does. */
  datatype DiskOutcome = Works | NoDirectory | NoWrite | NoReopen

  /** Files by path.  A rename over a path never disturbs a reader of the old file. */
  class Disk {
    var files: map<Path, seq<Byte>>
  }

  // ---------- the LRU cache: most recently used first ----------

  function CacheFind(cache: seq<Entry>, h: Hash): Option<Postings> {
    if |cache| == 0 then None
    else if cache[0].hash == h then Some(cache[0].postings)
    else CacheFind(cache[1..], h)
  }

  function CachePop(cache: seq<Entry>, h: Hash): seq<Entry> {
    if |cache| == 0 then []
    else (if cache[0].hash == h then [] else [cache[0]]) + CachePop(cache[1..], h)
  }

  /** A new or touched entry goes in front; the least recently used one falls off a full cache. */
  function CachePut(cache: seq<Entry>, capacity: nat, e: Entry): seq<Entry> {
    var others := CachePop(cache, e.hash);
    if 1 + |others| <= capacity then [e] + others else ([e] + others)[..capacity]
  }

  lemma {:induction false} CacheFound(cache: seq<Entry>, h: Hash)
    ensures CacheFind(cache, h).Some? ==> Entry(h, CacheFind(cache, h).value) in cache
  {
    if |cache| != 0 && cache[0].hash != h {
      CacheFound(cache[1..], h);
    }
  }

  lemma {:induction false} CachePopped(cache: seq<Entry>, h: Hash)
    ensures forall e :: e in CachePop(cache, h) <==> e in cache && e.hash != h
    ensures |CachePop(cache, h)| <= |cache|
    ensures DistinctHashes(cache) ==> DistinctHashes(CachePop(cache, h))
  {
    if |cache| != 0 {
      CachePopped(cache[1..], h);
      assert cache == [cache[0]] + cache[1..];
      assert DistinctHashes(cache) ==> DistinctHashes(cache[1..]);
      if DistinctHashes(cache) {
        assert forall e | e in cache[1..] :: e.hash != cache[0].hash;
      }
    }
  }

  /** Cached answers agree with the snapshot and are never shadowed by the delta. */
  ghost predicate CacheAgrees(cache: seq<Entry>, capacity: nat, base: View, delta: map<Hash, DeltaEntry>) {
    && DistinctHashes(cache) && |cache| <= capacity
    && forall e | e in cache :: e.hash !in delta && e.hash in base && base[e.hash] == e.postings
  }

  lemma CachePutAgrees(cache: seq<Entry>, capacity: nat, base: View, delta: map<Hash, DeltaEntry>, e: Entry)
    requires CacheAgrees(cache, capacity, base, delta)
    requires e.hash !in delta && e.hash in base && base[e.hash] == e.postings
    ensures CacheAgrees(CachePut(cache, capacity, e), capacity, base, delta)
  {
    CachePopped(cache, e.hash);
    var others := CachePop(cache, e.hash);
    assert DistinctHashes([e] + others);
  }

  lemma CachePopAgrees(cache: seq<Entry>, capacity: nat, base: View, delta: map<Hash, DeltaEntry>, h: Hash, change: DeltaEntry)
    requires CacheAgrees(cache, capacity, base, delta)
    ensures CacheAgrees(CachePop(cache, h), capacity, base, delta[h := change])
  {
    CachePopped(cache, h);
  }

  /** All entries ever put in the cache, the most recently used first. */
  function Recent(puts: seq<Entry>): seq<Entry> {
    if |puts| == 0 then [] else [puts[|puts| - 1]] + CachePop(Recent(puts[..|puts| - 1]), puts[|puts| - 1].hash)
  }

  /** The cache after these uses, from nothing. */
  function CacheAfter(puts: seq<Entry>, capacity: nat): seq<Entry> {
    if |puts| == 0 then [] else CachePut(CacheAfter(puts[..|puts| - 1], capacity), capacity, puts[|puts| - 1])
  }

  function Front(xs: seq<Entry>, n: nat): seq<Entry> {
    if n < |xs| then xs[..n] else xs
  }

  lemma NothingPopped(xs: seq<Entry>, h: Hash)
    requires forall e | e in xs :: e.hash != h
    ensures CachePop(xs, h) == xs
  {
    if |xs| != 0 {
      assert xs[0] in xs;
      NothingPopped(xs[1..], h);
    }
  }

  /** Of the front of a listing, at most the last place is freed or filled by taking one hash out. */
  lemma {:induction false} PopFront(xs: seq<Entry>, h: Hash, n: nat)
    requires DistinctHashes(xs) && n > 0
    ensures Front(CachePop(Front(xs, n), h), n - 1) == Front(CachePop(xs, h), n - 1)
  {
    if |xs| != 0 && n < |xs| {
      var first, rest := xs[0], xs[1..];
      assert DistinctHashes(rest) && xs == [first] + rest;
      assert xs[..n] == [first] + rest[..n - 1] && Front(xs, n) == [first] + Front(rest, n - 1);
      PopCons(first, rest, h);
      PopCons(first, Front(rest, n - 1), h);
      hide CachePop;
      if first.hash == h {
        forall e | e in rest ensures e.hash != h {
          var i :| 0 <= i < |rest| && rest[i] == e;
          assert xs[i + 1] == e;
        }
        NothingPopped(rest, h);
        NothingPopped(Front(rest, n - 1), h);
      } else if n > 1 {
        PopFront(rest, h, n - 1);
        FrontCons(first, CachePop(Front(rest, n - 1), h), n - 1);
        FrontCons(first, CachePop(rest, h), n - 1);
      }
    }
  }

  lemma PopCons(e: Entry, xs: seq<Entry>, h: Hash)
    ensures CachePop([e] + xs, h) == (if e.hash == h then [] else [e]) + CachePop(xs, h)
  {
    assert ([e] + xs)[1..] == xs;
  }

  lemma FrontCons(e: Entry, xs: seq<Entry>, n: nat)
    requires n > 0
    ensures Front([e] + xs, n) == [e] + Front(xs, n - 1)
  {
  }

  lemma {:induction false} RecentDistinct(puts: seq<Entry>)
    ensures DistinctHashes(Recent(puts))
  {
    if |puts| != 0 {
      RecentDistinct(puts[..|puts| - 1]);
      CachePopped(Recent(puts[..|puts| - 1]), puts[|puts| - 1].hash);
    }
  }

  /** The cache is least recently used: it holds the most recently used entries, as many as it has room for. */
  lemma {:induction false} CacheHoldsRecent(puts: seq<Entry>, capacity: nat)
    requires capacity > 0
    ensures CacheAfter(puts, capacity) == Front(Recent(puts), capacity)
  {
    if |puts| != 0 {
      var before, e := puts[..|puts| - 1], puts[|puts| - 1];
      CacheHoldsRecent(before, capacity);
      RecentDistinct(before);
      PopFront(Recent(before), e.hash, capacity);
      hide CachePop, Recent;
      PutFront(CachePop(Front(Recent(before), capacity), e.hash), CachePop(Recent(before), e.hash), e, capacity);
      RecentNext(before, e);
      assert before + [e] == puts;
    }
  }

  lemma RecentNext(before: seq<Entry>, e: Entry)
    ensures Recent(before + [e]) == [e] + CachePop(Recent(before), e.hash)
  {
    assert (before + [e])[..|before|] == before;
  }

  lemma PutFront(kept: seq<Entry>, all: seq<Entry>, e: Entry, capacity: nat)
    requires capacity > 0 && Front(kept, capacity - 1) == Front(all, capacity - 1)
    ensures Front([e] + kept, capacity) == Front([e] + all, capacity)
  {
    FrontCons(e, kept, capacity);
    FrontCons(e, all, capacity);
  }

  lemma OverlayUpdate(base: View, delta: map<Hash, DeltaEntry>, h: Hash, change: DeltaEntry)
    ensures Overlay(base, delta[h := change])
         == match change
            case Replace(postings) => Overlay(base, delta)[h := postings]
            case Removed => Overlay(base, delta) - {h}
  {
  }

  /** What an index is, to its callers: the map, whether a snapshot backs it and can be read in full,
      whether there is anything to save, and where to. */
  datatype IndexState = IndexState(view: View, saved: bool, intact: bool, changed: bool, path: Option<Path>)

  datatype SaveReply = Stored | Failed(error: SaveError)

  /** A save.  The snapshot is written from the map and the index then answers from it; a first save
      that fails after the directory was made has already drained the map. */
  ghost function SaveStep(codec: Codec, s: IndexState, target: Option<Path>, disk: DiskOutcome): (IndexState, SaveReply) {
    if target.None? && s.path.None? then (s, Failed(NoPath))
    else if s.saved && !s.changed then (s, Stored)
    else if disk == NoDirectory then (s, Failed(DirectoryFailed))
    else if s.saved && !s.intact then (s, Failed(SnapshotUnreadable(UNREADABLE)))
    else
      WriteStep(codec, if s.saved then s else s.(view := map[], changed := false), s.view, if target.Some? then target else s.path, disk)
  }

  /** Writing the map out and reopening it, from the state that collecting it leaves. */
  ghost function WriteStep(codec: Codec, kept: IndexState, view: View, target: Option<Path>, disk: DiskOutcome): (IndexState, SaveReply) {
    if !Storable(codec, view) then (kept, Failed(WriteFailed(TOO_LARGE)))
    else if disk == NoWrite then (kept, Failed(DiskFailed))
    else if disk == NoReopen then (IndexState(map[], false, true, false, kept.path), Failed(ReopenFailed))
    else (IndexState(Readable(codec, view), true, AllFit(codec, view), false, target), Stored)
  }

  /** Errors are told apart by their kind. */
  const UNREADABLE: FormatError := InvalidNumEntries(0, 0)
  const TOO_LARGE: FormatError := InvalidNumEntries(0, 0)

  function ReplyOf(r: Result<(), SaveError>): SaveReply {
    match r
    case Ok(_) => Stored
    case Err(SnapshotUnreadable(_)) => Failed(SnapshotUnreadable(UNREADABLE))
    case Err(WriteFailed(_)) => Failed(WriteFailed(TOO_LARGE))
    case Err(error) => Failed(error)
  }

  /** The file holds what the map is written as. */
  ghost predicate HoldsMap(codec: Codec, files: map<Path, seq<Byte>>, path: Path, m: View) {
    path in files && exists entries :: Written(codec, entries) && ToMap(entries) == m && files[path] == FileBytes(codec, entries)
  }

  /** No other file has changed. */
  predicate OthersKept(before: map<Path, seq<Byte>>, after: map<Path, seq<Byte>>, path: Path) {
    path in after && after == before[path := after[path]]
  }

  /** Saving replaces the map by what can be read back of it, keeps it, or, after a failure without a
      snapshot or while reopening, leaves nothing. */
  lemma SaveStepMeans(codec: Codec, s: IndexState, target: Option<Path>, disk: DiskOutcome)
    ensures var (after, reply) := SaveStep(codec, s, target, disk);
      && (reply == Failed(NoPath) <==> target.None? && s.path.None?)
      && (reply == Stored && (s.changed || !s.saved) ==> after.view == Readable(codec, s.view))
      && (reply == Stored ==> after.saved && !after.changed)
      && (reply == Stored && (s.changed || !s.saved) ==> after.saved && !after.changed && (after.intact <==> AllFit(codec, s.view)))
      && (s.saved && !s.changed ==> after == s)
      && (reply != Stored ==> after.path == s.path)
      && (reply in {Failed(NoPath), Failed(DirectoryFailed)} || (s.saved && reply !in {Stored, Failed(ReopenFailed)}) ==> after == s)
      && (reply == Failed(ReopenFailed) || (!s.saved && reply !in {Stored, Failed(NoPath), Failed(DirectoryFailed)}) ==> after.view == map[])
      && (disk == Works && (target.Some? || s.path.Some?) && (s.saved ==> s.intact) && Storable(codec, s.view) ==> reply == Stored)
  {
    hide Storable, Readable, AllFit;
  }

  class ExactIndex {
    const codec: Codec
    const hash: Text -> Hash
    const capacity: nat
    var snapshot: Option<SnapshotReader>
    var path: Option<Path>
    var delta: map<Hash, DeltaEntry>
    var cache: seq<Entry>
    /** What the snapshot file was written from. */
    ghost var written: seq<Entry>

    /** The map that the snapshot alone answers from. */
    ghost function Base(): View
      reads this
    {
      if snapshot.Some? then Readable(codec, ToMap(written)) else map[]
    }

    /** The one map this index stands for. */
    ghost function View(): View
      reads this
    {
      Overlay(Base(), delta)
    }

    ghost predicate Valid()
      reads this
    {
      && codec.Lawful()
      && (snapshot.Some? ==> Written(codec, written) && snapshot.value == ReaderOf(codec, written))
      && CacheAgrees(cache, capacity, Base(), delta)
    }

    constructor (codec: Codec, hash: Text -> Hash, capacity: nat)
      requires codec.Lawful()
      ensures Valid() && View() == map[]
      ensures this.codec == codec && this.hash == hash && this.capacity == capacity
      ensures path == None && snapshot == None && delta == map[]
    {
      this.codec := codec;
      this.hash := hash;
      this.capacity := capacity;
      snapshot := None;
      path := None;
      delta := map[];
      cache := [];
      written := [];
    }

    /** The snapshot's answer for one hash. */
    method SnapshotGet(reader: SnapshotReader, h: Hash) returns (r: Result<Option<Postings>, FormatError>)
      requires Valid() && snapshot == Some(reader)
      ensures r == Answer(codec, ToMap(written), h)
      ensures (r.Ok? && r.value.Some?) <==> h in Base()
      ensures h in Base() ==> r == Ok(Some(Base()[h]))
    {
      WrittenSorted(codec, written);
      WrittenLookup(codec, written, h);
      r := reader.Get(codec, h);
    }

    /** Looks a value up: delta, then cache, then snapshot.  It answers as the map does and changes
        nothing but the cache. */
    method Get(value: Text) returns (r: Option<Postings>)
      requires Valid()
      modifies this`cache
      ensures Valid()
      ensures r == if hash(value) in View() then Some(View()[hash(value)]) else None
    {
      var h := hash(value);
      if h in delta {
        match delta[h] {
          case Replace(postings) => return Some(postings);
          case Removed => return None;
        }
      }
      r := CacheFind(cache, h);
      CacheFound(cache, h);
      if r.Some? {
        CachePutAgrees(cache, capacity, Base(), delta, Entry(h, r.value));
        cache := CachePut(cache, capacity, Entry(h, r.value));
        return;
      }
      if snapshot.None? {
        return None;
      }
      var answer := SnapshotGet(snapshot.value, h);
      if answer.Ok? && answer.value.Some? {
        r := answer.value;
        CachePutAgrees(cache, capacity, Base(), delta, Entry(h, r.value));
        cache := CachePut(cache, capacity, Entry(h, r.value));
      }
    }

    method Insert(value: Text, postings: Postings)
      requires Valid()
      modifies this`delta, this`cache
      ensures Valid() && delta != map[]
      ensures View() == old(View())[hash(value) := postings]
    {
      SetDelta(hash(value), Replace(postings));
      assert hash(value) in delta;
    }

    /** Records a change and forgets the cached answer it shadows. */
    method SetDelta(h: Hash, change: DeltaEntry)
      requires Valid()
      modifies this`delta, this`cache
      ensures Valid()
      ensures delta == old(delta)[h := change]
      ensures View() == match change
                        case Replace(postings) => old(View())[h := postings]
                        case Removed => old(View()) - {h}
    {
      CachePopAgrees(cache, capacity, Base(), delta, h, change);
      OverlayUpdate(Base(), delta, h, change);
      delta := delta[h := change];
      cache := CachePop(cache, h);
    }

    /** Adds a segment's value bitmaps, in whatever order the hash map yields them. */
    method MergeSegment(segment: nat, bitmaps: map<Text, set<nat>>)
      requires Valid()
      modifies this`delta, this`cache
      ensures Valid()
      ensures View() == Merged(hash, old(View()), segment, bitmaps)
      ensures delta == map[] <==> old(delta) == map[] && bitmaps == map[]
    {
      ghost var done: map<Text, set<nat>> := map[];
      ghost var start := View();
      var pending := bitmaps.Keys;
      MergedNone(hash, start, segment);
      while pending != {}
        invariant Valid() && pending <= bitmaps.Keys
        invariant done.Keys == bitmaps.Keys - pending && forall v | v in done :: done[v] == bitmaps[v]
        invariant View() == Merged(hash, start, segment, done)
        invariant delta == map[] <==> old(delta) == map[] && done == map[]
        decreases pending
      {
        var value :| value in pending;
        pending := pending - {value};
        MergedStep(hash, start, segment, done, value, bitmaps[value]);
        done := done[value := bitmaps[value]];
        MergeValue(hash(value), segment, bitmaps[value]);
      }
      assert done == bitmaps;
    }

    /** One value's share of `MergeSegment`. */
    method MergeValue(h: Hash, segment: nat, rows: set<nat>)
      requires Valid()
      modifies this`delta, this`cache
      ensures Valid()
      ensures View() == old(View())[h := MergeInto(Current(old(View()), h), segment, rows)]
      ensures delta != map[]
    {
      var current: Postings := [];
      if h in delta {
        match delta[h] {
          case Replace(postings) => current := postings;
          case Removed =>
        }
      } else if snapshot.Some? {
        var answer := SnapshotGet(snapshot.value, h);
        if answer.Ok? && answer.value.Some? {
          current := answer.value.value;
        }
      }
      SetDelta(h, Replace(MergeInto(current, segment, rows)));
    }

    /** The scan over the snapshot: what it would put in the delta. */
    method SnapshotPass(reader: SnapshotReader, removed: set<nat>) returns (toApply: map<Hash, DeltaEntry>)
      requires Valid() && snapshot == Some(reader)
      ensures toApply == SnapshotPurges(Base(), delta, removed)
    {
      WrittenIterates(codec, written);
      ReadableEnds(codec, written);
      toApply := ScanForPurge(codec, written, reader.IterEntries(codec), delta, removed);
    }

    /** Drops every posting of the removed segments, and hashes left with none.  Reports whether
        anything changed, which is exactly whether a removed segment was present. */
    method PurgeSegments(removed: set<nat>) returns (changed: bool)
      requires Valid()
      modifies this`delta, this`cache
      ensures Valid()
      ensures View() == Purged(old(View()), removed)
      ensures changed <==> SegmentsOf(old(View())) * removed != {}
      ensures !changed ==> delta == old(delta) && cache == old(cache)
      ensures changed ==> delta != map[]
    {
      PassesPurge(Base(), delta, removed);
      PassesChange(Base(), delta, removed);
      var toApply := map[];
      if snapshot.Some? {
        toApply := SnapshotPass(snapshot.value, removed);
      }
      assert toApply == SnapshotPurges(Base(), delta, removed);
      var after, touched := DeltaPass(delta + toApply, removed);
      changed := toApply != map[] || touched;
      delta := after;
      if changed {
        cache := [];
      }
    }

    /** Every segment some posting refers to. */
    method SegmentIds() returns (ids: set<nat>)
      requires Valid()
      ensures ids == SegmentsOf(View())
    {
      ids := {};
      if snapshot.Some? {
        WrittenIterates(codec, written);
        ReadableEnds(codec, written);
        ids := SegmentsOutside(codec, written, snapshot.value.IterEntries(codec), delta);
      }
      assert ids == SegmentsOf(Base() - delta.Keys);
      ids := AddDeltaSegments(ids, Base(), delta);
    }

    /** Whether a save has nothing to do. */
    predicate UpToDate()
      reads this
    {
      delta == map[] && snapshot.Some?
    }

    ghost predicate SnapshotIntact()
      reads this
    {
      snapshot.Some? ==> AllFit(codec, ToMap(written))
    }

    ghost function State(): IndexState
      reads this
    {
      IndexState(View(), snapshot.Some?, SnapshotIntact(), delta != map[], path)
    }

    /** Writes the map as a fresh snapshot and reopens it.  A successful save keeps every list that
        fits the format, and a file is written exactly if the save succeeds or only reopening fails. */
    method Save(disk: Disk, target: Option<Path>, outcome: DiskOutcome) returns (r: Result<(), SaveError>)
      requires Valid()
      modifies this, disk
      ensures Valid()
      ensures (State(), ReplyOf(r)) == SaveStep(codec, old(State()), target, outcome)
      ensures r.Ok? ==> View() == Readable(codec, old(View())) && snapshot.Some? && delta == map[]
      ensures if (r.Ok? && !old(UpToDate())) || r == Err(ReopenFailed)
              then
                && (target.Some? || old(path).Some?)
                && var p := if target.Some? then target.value else old(path).value;
                && HoldsMap(codec, disk.files, p, old(View())) && OthersKept(old(disk.files), disk.files, p)
                && (r.Ok? ==> path == Some(p) && disk.files[p] == FileBytes(codec, written))
              else disk.files == old(disk.files) && snapshot == old(snapshot) && written == old(written)
    {
      if target.None? && path.None? {
        return Err(NoPath);
      }
      var targetPath := if target.Some? then target.value else path.value;
      if delta == map[] && snapshot.Some? {
        UpToDateView();
        return Ok(());
      }
      if outcome == NoDirectory {
        return Err(DirectoryFailed);
      }
      hide Valid, View, SnapshotIntact, WriteStep, Storable, Readable, AllFit, Written, FileBytes, HoldsMap, OthersKept, UpToDate;
      var collected := Collect();
      if collected.Err? {
        return Err(collected.error);
      }
      r := WriteOut(disk, targetPath, collected.value, outcome);
    }

    /** Writes the entries to the file and, if that works, answers from it. */
    method WriteOut(disk: Disk, targetPath: Path, entries: seq<Entry>, outcome: DiskOutcome) returns (r: Result<(), SaveError>)
      requires Valid() && StrictlyAscending(entries) && outcome != NoDirectory
      modifies this, disk
      ensures Valid()
      ensures (State(), ReplyOf(r)) == WriteStep(codec, old(State()), ToMap(entries), Some(targetPath), outcome)
      ensures r != Err(NoPath) && r != Err(DirectoryFailed) && !(r.Err? && r.error.SnapshotUnreadable?)
      ensures if r.Ok? || r == Err(ReopenFailed)
              then HoldsMap(codec, disk.files, targetPath, ToMap(entries)) && OthersKept(old(disk.files), disk.files, targetPath)
              else disk.files == old(disk.files) && snapshot == old(snapshot) && written == old(written)
      ensures r.Ok? ==> View() == Readable(codec, ToMap(entries)) && UpToDate()
      ensures r.Ok? ==> path == Some(targetPath) && disk.files[targetPath] == FileBytes(codec, written)
    {
      var file, _ := WriteSnapshot(codec, entries);
      StorableOnce(codec, entries);
      if file.Err? {
        return Err(WriteFailed(file.error));
      }
      if outcome == NoWrite {
        return Err(DiskFailed);
      }
      hide Storable, Readable, AllFit, FileBytes, FileSize, ToMap;
      assert Written(codec, entries);
      disk.files := disk.files[targetPath := file.value];
      assert HoldsMap(codec, disk.files, targetPath, ToMap(entries));
      if outcome == NoReopen {
        Close();
        return Err(ReopenFailed);
      }
      Install(targetPath, file.value, entries);
      r := Ok(());
    }

    /** Forgets snapshot, delta and cache. */
    method Close()
      requires codec.Lawful()
      modifies this`snapshot, this`delta, this`cache
      ensures Valid() && snapshot == None && delta == map[] && View() == map[]
    {
      snapshot := None;
      delta := map[];
      cache := [];
    }

    lemma UpToDateView()
      requires UpToDate()
      ensures View() == Readable(codec, View())
    {
    }

    /** The sorted entries to write.  Without a snapshot the delta is drained on the way. */
    method Collect() returns (entries: Result<seq<Entry>, SaveError>)
      requires Valid()
      modifies this`delta
      ensures Valid()
      ensures entries.Ok? ==> StrictlyAscending(entries.value) && ToMap(entries.value) == old(View())
      ensures entries.Ok? <==> SnapshotIntact()
      ensures entries.Err? ==> entries.error.SnapshotUnreadable? && snapshot.Some?
      ensures State() == if snapshot.Some? then old(State()) else old(State()).(view := map[], changed := false)
    {
      if snapshot.Some? {
        var merged := MergedSnapshot(snapshot.value);
        entries := if merged.Ok? then Ok(merged.value) else Err(SnapshotUnreadable(merged.error));
      } else {
        var live := map h | h in delta && delta[h].Replace? :: delta[h].postings;
        assert live == View();
        delta := map[];
        var sorted := SortMap(live);
        entries := Ok(sorted);
      }
    }

    /** Swaps in the file just written. */
    method Install(targetPath: Path, file: seq<Byte>, ghost entries: seq<Entry>)
      requires codec.Lawful() && Written(codec, entries) && file == FileBytes(codec, entries)
      modifies this
      ensures Valid() && UpToDate()
      ensures View() == Readable(codec, ToMap(entries))
      ensures path == Some(targetPath) && written == entries
    {
      WrittenOpens(codec, entries);
      hide FileBytes, Readable, ToMap, FileSize;
      Close();
      snapshot := Some(SnapshotReader.Open(file).value);
      written := entries;
      path := Some(targetPath);
    }

    /** The merge of the snapshot and the delta, if every snapshot entry can be read. */
    method MergedSnapshot(reader: SnapshotReader) returns (entries: Result<seq<Entry>, FormatError>)
      requires Valid() && snapshot == Some(reader)
      ensures entries.Ok? <==> SnapshotIntact()
      ensures entries.Ok? ==> StrictlyAscending(entries.value) && ToMap(entries.value) == View()
    {
      WrittenIterates(codec, written);
      AllFitByEntry(codec, written);
      ghost var results := reader.IterEntries(codec);
      OkEntriesYield(codec, written, results);
      YieldsOk(codec, written, results);
      var iter := MergeWithDelta(codec, reader, delta);
      if iter.Err? {
        return Err(iter.error);
      }
      ghost var items :| Lists(items, delta) && iter.value.Pending() == Merge(OkEntries(results), items);
      MergeIsOverlay(OkEntries(results), items, delta);
      ReadableIsAll(codec, ToMap(written));
      var drained := Drain(iter.value);
      entries := Ok(drained);
    }
  }

  /** `SegmentIds`' loop over the delta. */
  method AddDeltaSegments(outside: set<nat>, ghost base: View, delta: map<Hash, DeltaEntry>) returns (ids: set<nat>)
    requires outside == SegmentsOf(base - delta.Keys)
    ensures ids == SegmentsOf(Overlay(base, delta))
  {
    ids := outside;
    var pending := delta.Keys;
    ghost var seen: View := base - delta.Keys;
    ghost var whole := Overlay(base, delta);
    assert seen == whole - pending;
    while pending != {}
      invariant pending <= delta.Keys
      invariant seen == whole - pending
      invariant ids == SegmentsOf(seen)
      decreases pending
    {
      var h :| h in pending;
      pending := pending - {h};
      if delta[h].Replace? {
        SegmentsOfPut(seen, h, delta[h].postings);
        seen := seen[h := delta[h].postings];
        ids := ids + SegmentsIn(delta[h].postings);
      }
    }
    assert seen == whole;
  }

  lemma YieldsOk(codec: Codec, entries: seq<Entry>, results: seq<Result<Entry, FormatError>>)
    requires |results| == |entries| && forall i | 0 <= i < |entries| :: results[i] == Yield(codec, entries[i])
    ensures (forall r | r in results :: r.Ok?) <==> forall e | e in entries :: Fits(codec, e.postings)
  {
    if e :| e in entries && !Fits(codec, e.postings) {
      var i :| 0 <= i < |entries| && entries[i] == e;
      assert results[i] in results;
    }
  }

  /** `PurgeSegments`' loop over the snapshot's entries. */
  method ScanForPurge(codec: Codec, ghost entries: seq<Entry>, results: seq<Result<Entry, FormatError>>,
                      delta: map<Hash, DeltaEntry>, removed: set<nat>)
    returns (toApply: map<Hash, DeltaEntry>)
    requires StrictlyAscending(entries)
    requires |results| == |entries| && forall i | 0 <= i < |entries| :: results[i] == Yield(codec, entries[i])
    ensures toApply == SnapshotPurges(ReadableUpTo(codec, entries, |entries|), delta, removed)
  {
    toApply := map[];
    ReadableEnds(codec, entries);
    for i := 0 to |results|
      invariant toApply == SnapshotPurges(ReadableUpTo(codec, entries, i), delta, removed)
    {
      ReadableNext(codec, entries, i);
      SnapshotPurgesPut(ReadableUpTo(codec, entries, i), delta, removed, entries[i].hash, entries[i].postings);
      if results[i].Err? || results[i].value.hash in delta {
        continue;
      }
      var list := results[i].value.postings;
      WithoutSpec(list, removed);
      if |Without(list, removed)| != |list| {
        toApply := toApply[results[i].value.hash := PurgedEntry(list, removed)];
      }
    }
  }

  /** `SegmentIds`' loop over the snapshot's entries that the delta does not override. */
  method SegmentsOutside(codec: Codec, ghost entries: seq<Entry>, results: seq<Result<Entry, FormatError>>,
                         delta: map<Hash, DeltaEntry>)
    returns (ids: set<nat>)
    requires StrictlyAscending(entries)
    requires |results| == |entries| && forall i | 0 <= i < |entries| :: results[i] == Yield(codec, entries[i])
    ensures ids == SegmentsOf(ReadableUpTo(codec, entries, |entries|) - delta.Keys)
  {
    ids := {};
    ReadableEnds(codec, entries);
    ghost var seen: View := map[];
    for i := 0 to |results|
      invariant seen == ReadableUpTo(codec, entries, i) - delta.Keys
      invariant ids == SegmentsOf(seen)
    {
      ReadableNext(codec, entries, i);
      if results[i].Err? || results[i].value.hash in delta {
        continue;
      }
      SegmentsOfPut(seen, results[i].value.hash, results[i].value.postings);
      seen := seen[results[i].value.hash := results[i].value.postings];
      ids := ids + SegmentsIn(results[i].value.postings);
    }
  }

  /** The map fits in one file. */
  ghost predicate Storable(codec: Codec, m: View) {
    forall entries | StrictlyAscending(entries) && ToMap(entries) == m :: FileSize(codec, entries) < U64_LIMIT
  }

  /** A map has one ascending listing, so one size. */
  lemma StorableOnce(codec: Codec, entries: seq<Entry>)
    requires StrictlyAscending(entries)
    ensures Storable(codec, ToMap(entries)) <==> FileSize(codec, entries) < U64_LIMIT
  {
    forall other | StrictlyAscending(other) && ToMap(other) == ToMap(entries) ensures other == entries {
      AscendingUnique(other, entries);
    }
  }

  /** The readable entries of a written file, in file order. */
  lemma {:induction false} OkEntriesYield(codec: Codec, entries: seq<Entry>, results: seq<Result<Entry, FormatError>>)
    requires StrictlyAscending(entries)
    requires |results| == |entries| && forall i | 0 <= i < |entries| :: results[i] == Yield(codec, entries[i])
    ensures forall e :: e in OkEntries(results) <==> e in entries && Fits(codec, e.postings)
    ensures StrictlyAscending(OkEntries(results))
    ensures (forall e | e in entries :: Fits(codec, e.postings)) ==> OkEntries(results) == entries
  {
    if |entries| != 0 {
      OkEntriesYield(codec, entries[1..], results[1..]);
      assert entries == [entries[0]] + entries[1..];
    }
  }

  /** The pass over the delta. */
  method DeltaPass(delta: map<Hash, DeltaEntry>, removed: set<nat>) returns (after: map<Hash, DeltaEntry>, touched: bool)
    ensures after == PurgeChanges(delta, removed)
    ensures touched <==> DeltaTouched(delta, removed)
    ensures !touched ==> after == delta
  {
    after := delta;
    touched := false;
    var pending := delta.Keys;
    while pending != {}
      invariant pending <= delta.Keys && after.Keys == delta.Keys
      invariant forall h | h in delta :: after[h] == if h in pending then delta[h] else PurgeChange(delta[h], removed)
      invariant touched <==> exists h :: h in delta && h !in pending && delta[h].Replace? && Touches(delta[h].postings, removed)
      decreases pending
    {
      var h :| h in pending;
      pending := pending - {h};
      if delta[h].Replace? {
        var list := delta[h].postings;
        WithoutSpec(list, removed);
        if |Without(list, removed)| != |list| {
          touched := true;
          after := after[h := PurgedEntry(list, removed)];
        }
      }
    }
  }

  // ---------- whole runs ----------

  datatype Op =
    | OpGet(value: Text)
    | OpInsert(value: Text, postings: Postings)
    | OpMerge(segment: nat, bitmaps: map<Text, set<nat>>)
    | OpPurge(removed: set<nat>)
    | OpSegments
    | OpSave(target: Option<Path>, disk: DiskOutcome)

  datatype Reply = Found(postings: Option<Postings>) | Changed(changed: bool) | Segments(ids: set<nat>) | Saved(reply: SaveReply) | Done

  /** One operation on the plain map and its four marks. */
  ghost function StateStep(codec: Codec, hash: Text -> Hash, s: IndexState, op: Op): (IndexState, Reply) {
    match op
    case OpGet(value) => (s, Found(if hash(value) in s.view then Some(s.view[hash(value)]) else None))
    case OpInsert(value, postings) => (s.(view := s.view[hash(value) := postings], changed := true), Done)
    case OpMerge(segment, bitmaps) =>
      (s.(view := Merged(hash, s.view, segment, bitmaps), changed := s.changed || bitmaps != map[]), Done)
    case OpPurge(removed) =>
      var touched := SegmentsOf(s.view) * removed != {};
      (s.(view := Purged(s.view, removed), changed := s.changed || touched), Changed(touched))
    case OpSegments => (s, Segments(SegmentsOf(s.view)))
    case OpSave(target, disk) =>
      var step := SaveStep(codec, s, target, disk);
      (step.0, Saved(step.1))
  }

  ghost function StateRun(codec: Codec, hash: Text -> Hash, s: IndexState, ops: seq<Op>): (IndexState, seq<Reply>)
    decreases |ops|
  {
    if |ops| == 0 then (s, [])
    else
      var step := StateStep(codec, hash, s, ops[0]);
      var rest := StateRun(codec, hash, step.0, ops[1..]);
      (rest.0, [step.1] + rest.1)
  }

  /** One operation on the index. */
  method Perform(index: ExactIndex, disk: Disk, op: Op) returns (reply: Reply)
    requires index.Valid()
    modifies index, disk
    ensures index.Valid()
    ensures (index.State(), reply) == StateStep(index.codec, index.hash, old(index.State()), op)
  {
    hide SaveStep, Merged, Purged, SegmentsOf, ExactIndex.Valid, Readable, AllFit, HoldsMap, OthersKept;
    reply := Done;
    match op {
      case OpGet(value) =>
        var found := index.Get(value);
        reply := Found(found);
      case OpInsert(value, postings) =>
        index.Insert(value, postings);
      case OpMerge(segment, bitmaps) =>
        index.MergeSegment(segment, bitmaps);
      case OpPurge(removed) =>
        var changed := index.PurgeSegments(removed);
        reply := Changed(changed);
      case OpSegments =>
        var ids := index.SegmentIds();
        reply := Segments(ids);
      case OpSave(target, outcome) =>
        var saved := index.Save(disk, target, outcome);
        reply := Saved(ReplyOf(saved));
    }
  }

  /** Over every run, whatever the disk does, snapshot, delta and cache together answer exactly like
      one plain map. */
  method Run(index: ExactIndex, disk: Disk, ops: seq<Op>) returns (replies: seq<Reply>)
    requires index.Valid()
    modifies index, disk
    ensures index.Valid()
    ensures (index.State(), replies) == StateRun(index.codec, index.hash, old(index.State()), ops)
  {
    replies := [];
    assert ops[0..] == ops;
    hide StateStep;
    ghost var start := index.State();
    for i := 0 to |ops|
      invariant index.Valid()
      invariant StateRun(index.codec, index.hash, start, ops).0 == StateRun(index.codec, index.hash, index.State(), ops[i..]).0
      invariant StateRun(index.codec, index.hash, start, ops).1 == replies + StateRun(index.codec, index.hash, index.State(), ops[i..]).1
    {
      assert ops[i..][1..] == ops[i + 1..];
      var reply := Perform(index, disk, ops[i]);
      ghost var rest := StateRun(index.codec, index.hash, index.State(), ops[i + 1..]).1;
      assert replies + ([reply] + rest) == (replies + [reply]) + rest;
      replies := replies + [reply];
    }
    assert replies + [] == replies;
  }

  // ---------- what runs keep ----------

  /** What a run does to the plain map when no save in it loses anything. */
  ghost function MapStep(hash: Text -> Hash, view: View, op: Op): View {
    match op
    case OpInsert(value, postings) => view[hash(value) := postings]
    case OpMerge(segment, bitmaps) => Merged(hash, view, segment, bitmaps)
    case OpPurge(removed) => Purged(view, removed)
    case _ => view
  }

  ghost function MapRun(hash: Text -> Hash, view: View, ops: seq<Op>): View
    decreases |ops|
  {
    if |ops| == 0 then view else MapRun(hash, MapStep(hash, view, ops[0]), ops[1..])
  }

  /** A save in this state loses nothing: it has nothing to do or nowhere to go, or it fails with the
      map still backed, or it succeeds with lists that all fit. */
  ghost predicate SaveKeeps(codec: Codec, s: IndexState, target: Option<Path>, disk: DiskOutcome) {
    || (target.None? && s.path.None?)
    || (s.saved && !s.changed)
    || disk == NoDirectory
    || (s.saved && !s.intact)
    || (s.saved && (!Storable(codec, s.view) || disk == NoWrite))
    || (Storable(codec, s.view) && disk == Works && AllFit(codec, s.view))
    || s.view == map[]
  }

  lemma SaveKeepsIff(codec: Codec, s: IndexState, target: Option<Path>, disk: DiskOutcome)
    ensures SaveStep(codec, s, target, disk).0.view == s.view <==> SaveKeeps(codec, s, target, disk)
  {
    ReadableIsAll(codec, s.view);
    assert Readable(codec, map[]) == map[];
    if Readable(codec, s.view) == s.view {
      assert AllFit(codec, s.view);
    }
  }

  ghost predicate SavesKeep(codec: Codec, hash: Text -> Hash, s: IndexState, ops: seq<Op>)
    decreases |ops|
  {
    |ops| > 0 ==>
      && (ops[0].OpSave? ==> SaveKeeps(codec, s, ops[0].target, ops[0].disk))
      && SavesKeep(codec, hash, StateStep(codec, hash, s, ops[0]).0, ops[1..])
  }

  /** A run in which every save keeps the map ends with the map its other operations make. */
  lemma {:induction false} RunKeeps(codec: Codec, hash: Text -> Hash, s: IndexState, ops: seq<Op>)
    requires SavesKeep(codec, hash, s, ops)
    ensures StateRun(codec, hash, s, ops).0.view == MapRun(hash, s.view, ops)
    decreases |ops|
  {
    if |ops| > 0 {
      if ops[0].OpSave? {
        SaveKeepsIff(codec, s, ops[0].target, ops[0].disk);
      }
      RunKeeps(codec, hash, StateStep(codec, hash, s, ops[0]).0, ops[1..]);
    }
  }
}
