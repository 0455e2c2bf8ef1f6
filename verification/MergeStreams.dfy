/** Merging a sorted snapshot with the sorted in-memory delta, one entry at a time. */
module MergeStreams {
  import opened Wrappers
  import opened Sorting
  import opened SnapshotFormat
  import opened SnapshotWriter
  import opened SnapshotReading

  datatype DeltaEntry = Replace(postings: Postings) | Removed

  datatype DeltaItem = DeltaItem(hash: Hash, change: DeltaEntry)

  /** The snapshot overlaid by the delta: replaced hashes answer from the delta, removed ones are gone. */
  function Overlay(base: map<Hash, Postings>, delta: map<Hash, DeltaEntry>): map<Hash, Postings> {
    map h | h in base.Keys + delta.Keys && (h in delta ==> delta[h].Replace?) ::
      if h in delta then delta[h].postings else base[h]
  }

  const ITEM_HASH: DeltaItem -> nat := (item: DeltaItem) => item.hash

  ghost predicate Lists(items: seq<DeltaItem>, delta: map<Hash, DeltaEntry>) {
    && AscendingKeys(ITEM_HASH, items)
    && forall item :: item in items <==> item.hash in delta && delta[item.hash] == item.change
  }

  /** The whole output of the merge. */
  function Merge(snap: seq<Entry>, delta: seq<DeltaItem>): seq<Entry>
    decreases |snap| + |delta|
  {
    if |delta| == 0 then snap
    else if |snap| > 0 && snap[0].hash < delta[0].hash then [snap[0]] + Merge(snap[1..], delta)
    else
      var rest := if |snap| > 0 && snap[0].hash == delta[0].hash then snap[1..] else snap;
      match delta[0].change
      case Replace(postings) => [Entry(delta[0].hash, postings)] + Merge(rest, delta[1..])
      case Removed => Merge(rest, delta[1..])
  }

  function OkEntries(results: seq<Result<Entry, FormatError>>): seq<Entry> {
    if |results| == 0 then []
    else (if results[0].Ok? then [results[0].value] else []) + OkEntries(results[1..])
  }

  class MergedEntriesIter {
    var snap: seq<Result<Entry, FormatError>>
    const delta: seq<DeltaItem>
    var deltaIdx: nat
    var snapBuf: Option<Entry>

    ghost predicate Valid()
      reads this
    {
      && deltaIdx <= |delta|
      && (snapBuf.None? ==> OkEntries(snap) == [])
      && StrictlyAscending(SnapAhead())
    }

    /** The snapshot entries still to come. */
    ghost function SnapAhead(): seq<Entry>
      reads this
    {
      (if snapBuf.Some? then [snapBuf.value] else []) + OkEntries(snap)
    }

    /** What the remaining calls to `Next` will yield. */
    ghost function Pending(): seq<Entry>
      reads this
      requires deltaIdx <= |delta|
    {
      Merge(SnapAhead(), delta[deltaIdx..])
    }

    constructor (snap: seq<Result<Entry, FormatError>>, delta: seq<DeltaItem>)
      requires StrictlyAscending(OkEntries(snap))
      ensures Valid()
      ensures this.delta == delta && deltaIdx == 0
      ensures SnapAhead() == OkEntries(snap)
    {
      this.snap := snap;
      this.delta := delta;
      deltaIdx := 0;
      snapBuf := None;
      new;
      AdvanceSnap();
    }

    /** Moves the next readable snapshot entry into the buffer, skipping unreadable ones. */
    method AdvanceSnap()
      modifies this
      ensures deltaIdx == old(deltaIdx)
      ensures SnapAhead() == old(OkEntries(snap))
      ensures snapBuf.None? ==> OkEntries(snap) == []
    {
      while true
        invariant OkEntries(snap) == old(OkEntries(snap))
        invariant deltaIdx == old(deltaIdx)
        decreases |snap|
      {
        if |snap| == 0 {
          snapBuf := None;
          return;
        }
        var head := snap[0];
        snap := snap[1..];
        if head.Ok? {
          snapBuf := Some(head.value);
          return;
        }
      }
    }

    method TakeDelta(dh: Hash) returns (item: Option<Entry>)
      requires Valid() && deltaIdx < |delta| && delta[deltaIdx].hash == dh
      requires |SnapAhead()| > 0 ==> dh < SnapAhead()[0].hash
      modifies this
      ensures Valid()
      ensures item == if |old(Pending())| == 0 then None else Some(old(Pending())[0])
      ensures Pending() == if |old(Pending())| == 0 then [] else old(Pending())[1..]
      decreases |delta| - deltaIdx, 0
    {
      var entry := delta[deltaIdx];
      deltaIdx := deltaIdx + 1;
      assert delta[deltaIdx - 1..][1..] == delta[deltaIdx..];
      match entry.change {
        case Replace(postings) => item := Some(Entry(dh, postings));
        case Removed => item := Next();
      }
    }

    method Next() returns (item: Option<Entry>)
      requires Valid()
      modifies this
      ensures Valid()
      ensures item == if |old(Pending())| == 0 then None else Some(old(Pending())[0])
      ensures Pending() == if |old(Pending())| == 0 then [] else old(Pending())[1..]
      decreases |delta| - deltaIdx, 1
    {
      assert snapBuf.Some? ==> OkEntries(snap) == SnapAhead()[1..];
      hide OkEntries;
      if snapBuf.None? && deltaIdx == |delta| {
        item := None;
      } else if snapBuf.Some? && (deltaIdx == |delta| || snapBuf.value.hash < delta[deltaIdx].hash) {
        item := snapBuf;
        AdvanceSnap();
      } else if snapBuf.None? || snapBuf.value.hash > delta[deltaIdx].hash {
        item := TakeDelta(delta[deltaIdx].hash);
      } else {
        var dh := delta[deltaIdx].hash;
        ghost var ahead := SnapAhead();
        assert |ahead| > 1 ==> ahead[0].hash < ahead[1].hash;
        AdvanceSnap();
        assert SnapAhead() == ahead[1..];
        item := TakeDelta(dh);
      }
    }
  }

  /** Sorts the delta, and refuses a snapshot with an unreadable entry. */
  method MergeWithDelta(codec: Codec, reader: SnapshotReader, delta: map<Hash, DeltaEntry>)
    returns (iter: Result<MergedEntriesIter, FormatError>)
    requires StrictlyAscending(OkEntries(reader.IterEntries(codec)))
    ensures iter.Ok? <==> forall r | r in reader.IterEntries(codec) :: r.Ok?
    ensures iter.Ok? ==>
              && fresh(iter.value) && iter.value.Valid()
              && exists items | Lists(items, delta) ::
                   iter.value.Pending() == Merge(OkEntries(reader.IterEntries(codec)), items)
  {
    var deltaSorted := SortDelta(delta);
    var snapVec := reader.IterEntries(codec);
    for i := 0 to |snapVec|
      invariant forall k | 0 <= k < i :: snapVec[k].Ok?
    {
      if snapVec[i].Err? {
        return Err(snapVec[i].error);
      }
    }
    var merged := new MergedEntriesIter(snapVec, deltaSorted);
    assert merged.delta[0..] == deltaSorted;
    iter := Ok(merged);
  }

  method SortDelta(delta: map<Hash, DeltaEntry>) returns (items: seq<DeltaItem>)
    ensures Lists(items, delta)
  {
    var collected: seq<DeltaItem> := [];
    var pending := delta.Keys;
    while pending != {}
      invariant pending <= delta.Keys
      invariant DistinctKeys(ITEM_HASH, collected)
      invariant forall item ::
        item in collected <==> item.hash in delta && item.hash !in pending && delta[item.hash] == item.change
      decreases pending
    {
      var hash :| hash in pending;
      pending := pending - {hash};
      collected := collected + [DeltaItem(hash, delta[hash])];
    }
    SortDistinctKeys(ITEM_HASH, collected);
    SortPermutes(ByKey(ITEM_HASH), collected);
    items := StableSort(ByKey(ITEM_HASH), collected);
  }

  /** Runs the iterator to its end, as the writer does. */
  method Drain(iter: MergedEntriesIter) returns (entries: seq<Entry>)
    requires iter.Valid()
    modifies iter
    ensures entries == old(iter.Pending())
  {
    hide Merge, OkEntries, StrictlyAscending;
    entries := [];
    while true
      invariant iter.Valid()
      invariant entries + iter.Pending() == old(iter.Pending())
      decreases |iter.Pending()|
    {
      ghost var before := iter.Pending();
      var item := iter.Next();
      if item.None? {
        return;
      }
      assert before == [before[0]] + before[1..];
      entries := entries + [item.value];
    }
  }

  ghost predicate Mentions(delta: seq<DeltaItem>, h: Hash) {
    exists item :: item in delta && item.hash == h
  }

  lemma MentionsTail(delta: seq<DeltaItem>, h: Hash)
    requires AscendingKeys(ITEM_HASH, delta) && |delta| > 0
    ensures Mentions(delta, h) <==> h == delta[0].hash || Mentions(delta[1..], h)
    ensures Mentions(delta[1..], h) ==> h > delta[0].hash
    ensures forall c :: DeltaItem(h, c) in delta <==> DeltaItem(h, c) == delta[0] || DeltaItem(h, c) in delta[1..]
  {
    assert delta == [delta[0]] + delta[1..];
    assert delta[0] in delta;
    if h > delta[0].hash && Mentions(delta, h) {
      var item :| item in delta && item.hash == h;
      assert item in delta[1..];
    }
  }

  /** The merge yields an entry exactly when the delta put it there, or the snapshot has it and the
      delta does not mention its hash. */
  lemma {:induction false} MergeMembers(snap: seq<Entry>, delta: seq<DeltaItem>, e: Entry)
    requires StrictlyAscending(snap) && AscendingKeys(ITEM_HASH, delta)
    ensures e in Merge(snap, delta) <==>
              (DeltaItem(e.hash, Replace(e.postings)) in delta || (e in snap && !Mentions(delta, e.hash)))
    decreases |snap| + |delta|
  {
    if |delta| == 0 {
    } else {
      MentionsTail(delta, e.hash);
      assert |snap| > 0 ==> snap == [snap[0]] + snap[1..];
      if |snap| > 0 && snap[0].hash < delta[0].hash {
        MergeMembers(snap[1..], delta, e);
      } else if |snap| > 0 && snap[0].hash == delta[0].hash {
        MergeMembers(snap[1..], delta[1..], e);
      } else {
        MergeMembers(snap, delta[1..], e);
      }
    }
  }

  lemma AscendsCons(e: Entry, rest: seq<Entry>)
    requires StrictlyAscending(rest) && forall x | x in rest :: e.hash < x.hash
    ensures StrictlyAscending([e] + rest)
  {
  }

  lemma {:induction false} MergeAscends(snap: seq<Entry>, delta: seq<DeltaItem>)
    requires StrictlyAscending(snap) && AscendingKeys(ITEM_HASH, delta)
    ensures StrictlyAscending(Merge(snap, delta))
    decreases |snap| + |delta|
  {
    if |delta| == 0 {
    } else if |snap| > 0 && snap[0].hash < delta[0].hash {
      MergeAscends(snap[1..], delta);
      MergeBeyond(snap[1..], delta, snap[0].hash);
      AscendsCons(snap[0], Merge(snap[1..], delta));
    } else {
      var rest := if |snap| > 0 && snap[0].hash == delta[0].hash then snap[1..] else snap;
      MergeAscends(rest, delta[1..]);
      MergeBeyond(rest, delta[1..], delta[0].hash);
      if delta[0].change.Replace? {
        AscendsCons(Entry(delta[0].hash, delta[0].change.postings), Merge(rest, delta[1..]));
      }
    }
  }

  /** What merges only later hashes holds only later hashes. */
  lemma MergeBeyond(snap: seq<Entry>, delta: seq<DeltaItem>, h: Hash)
    requires StrictlyAscending(snap) && AscendingKeys(ITEM_HASH, delta)
    requires (forall e | e in snap :: h < e.hash) && forall item | item in delta :: h < item.hash
    ensures forall e | e in Merge(snap, delta) :: h < e.hash
  {
    hide Merge;
    forall e | e in Merge(snap, delta) ensures h < e.hash {
      MergeMembers(snap, delta, e);
    }
  }

  lemma MergeAt(snap: seq<Entry>, items: seq<DeltaItem>, delta: map<Hash, DeltaEntry>, h: Hash)
    requires StrictlyAscending(snap) && Lists(items, delta)
    ensures h in ToMap(Merge(snap, items)) <==> h in Overlay(ToMap(snap), delta)
    ensures h in ToMap(Merge(snap, items)) ==> ToMap(Merge(snap, items))[h] == Overlay(ToMap(snap), delta)[h]
  {
    var merged, overlay := Merge(snap, items), Overlay(ToMap(snap), delta);
    MergeAscends(snap, items);
    assert h in delta ==> DeltaItem(h, delta[h]) in items;
    if h in overlay {
      ToMapIff(snap, h, overlay[h]);
      MergeMembers(snap, items, Entry(h, overlay[h]));
      ToMapIff(merged, h, overlay[h]);
    } else if h in ToMap(merged) {
      var p := ToMap(merged)[h];
      ToMapIff(merged, h, p);
      MergeMembers(snap, items, Entry(h, p));
      ToMapIff(snap, h, p);
    }
  }

  /** The merge is the sorted listing of the overlaid map: what the writer needs, and nothing else. */
  lemma MergeIsOverlay(snap: seq<Entry>, items: seq<DeltaItem>, delta: map<Hash, DeltaEntry>)
    requires StrictlyAscending(snap) && Lists(items, delta)
    ensures StrictlyAscending(Merge(snap, items))
    ensures ToMap(Merge(snap, items)) == Overlay(ToMap(snap), delta)
  {
    MergeAscends(snap, items);
    forall h: Hash
      ensures h in ToMap(Merge(snap, items)) <==> h in Overlay(ToMap(snap), delta)
      ensures h in ToMap(Merge(snap, items)) ==> ToMap(Merge(snap, items))[h] == Overlay(ToMap(snap), delta)[h]
    {
      MergeAt(snap, items, delta, h);
    }
  }
}
