/** What an exact index means: one map from value hash to posting list, and what each operation
    does to that map. */
module IndexView {
  import opened Bytes
  import opened SnapshotFormat
  import opened SnapshotWriter
  import opened SnapshotReading
  import opened MergeStreams

  type View = map<Hash, Postings>

  /** The entries a snapshot can give back. */
  ghost function Readable(codec: Codec, m: View): View {
    map h | h in m && Fits(codec, m[h]) :: m[h]
  }

  /** A snapshot keeps a map intact exactly when every list fits. */
  lemma ReadableIsAll(codec: Codec, m: View)
    ensures Readable(codec, m) == m <==> AllFit(codec, m)
  {
    if Readable(codec, m) == m {
      assert forall h | h in m :: h in Readable(codec, m);
    }
  }

  /** What the first `n` entries of a file give back. */
  ghost function ReadableUpTo(codec: Codec, entries: seq<Entry>, n: nat): View
    requires n <= |entries|
  {
    Readable(codec, ToMap(entries[..n]))
  }

  lemma ReadableNext(codec: Codec, entries: seq<Entry>, n: nat)
    requires StrictlyAscending(entries) && n < |entries|
    ensures entries[n].hash !in ReadableUpTo(codec, entries, n)
    ensures ReadableUpTo(codec, entries, n + 1)
         == if Fits(codec, entries[n].postings) then ReadableUpTo(codec, entries, n)[entries[n].hash := entries[n].postings]
            else ReadableUpTo(codec, entries, n)
  {
    assert entries[..n + 1][..n] == entries[..n];
    if entries[n].hash in ToMap(entries[..n]) {
      ToMapSound(entries[..n], entries[n].hash);
    }
  }

  lemma ReadableEnds(codec: Codec, entries: seq<Entry>)
    ensures ReadableUpTo(codec, entries, 0) == map[]
    ensures ReadableUpTo(codec, entries, |entries|) == Readable(codec, ToMap(entries))
  {
    assert entries[..|entries|] == entries;
  }

  // ---------- merging a segment's bitmaps ----------

  /** The first posting of the segment absorbs the rows; without one, a posting is appended. */
  function MergeInto(list: Postings, segment: nat, rows: set<nat>): Postings {
    if |list| == 0 then [Posting(segment, rows)]
    else if list[0].segment == segment then [Posting(segment, list[0].rows + rows)] + list[1..]
    else [list[0]] + MergeInto(list[1..], segment, rows)
  }

  lemma {:induction false} MergeTwice(list: Postings, segment: nat, a: set<nat>, b: set<nat>)
    ensures MergeInto(MergeInto(list, segment, a), segment, b) == MergeInto(list, segment, a + b)
  {
    if |list| == 0 {
    } else if list[0].segment == segment {
      assert list[0].rows + a + b == list[0].rows + (a + b);
    } else {
      MergeTwice(list[1..], segment, a, b);
    }
  }

  function Current(view: View, h: Hash): Postings {
    if h in view then view[h] else []
  }

  ghost predicate Hit(hash: Text -> Hash, bitmaps: map<Text, set<nat>>, h: Hash) {
    exists v :: v in bitmaps && hash(v) == h
  }

  ghost function RowsHashedTo(hash: Text -> Hash, bitmaps: map<Text, set<nat>>, h: Hash): set<nat> {
    set v, r | v in bitmaps && hash(v) == h && r in bitmaps[v] :: r
  }

  /** Every hash some value maps to gains that value's rows under the segment, whatever the order
      in which values that share a hash are visited. */
  ghost function Merged(hash: Text -> Hash, view: View, segment: nat, bitmaps: map<Text, set<nat>>): View {
    map h | h in view.Keys + (set v | v in bitmaps :: hash(v)) ::
      if Hit(hash, bitmaps, h)
      then MergeInto(Current(view, h), segment, RowsHashedTo(hash, bitmaps, h))
      else view[h]
  }

  lemma MergedNone(hash: Text -> Hash, view: View, segment: nat)
    ensures Merged(hash, view, segment, map[]) == view
  {
  }

  lemma MergedStep(hash: Text -> Hash, view: View, segment: nat, done: map<Text, set<nat>>, v: Text, rows: set<nat>)
    requires v !in done
    ensures var before := Merged(hash, view, segment, done);
      Merged(hash, view, segment, done[v := rows])
      == before[hash(v) := MergeInto(Current(before, hash(v)), segment, rows)]
  {
    var before, after := Merged(hash, view, segment, done), Merged(hash, view, segment, done[v := rows]);
    var expected := before[hash(v) := MergeInto(Current(before, hash(v)), segment, rows)];
    forall h: Hash
      ensures h in after <==> h in expected
      ensures h in after ==> after[h] == expected[h]
    {
      if h == hash(v) {
        MergedStepHere(hash, view, segment, done, v, rows);
      } else {
        MergedStepElsewhere(hash, view, segment, done, v, rows, h);
      }
    }
  }

  lemma MergedStepElsewhere(hash: Text -> Hash, view: View, segment: nat, done: map<Text, set<nat>>, v: Text, rows: set<nat>, h: Hash)
    requires v !in done && h != hash(v)
    ensures var before, after := Merged(hash, view, segment, done), Merged(hash, view, segment, done[v := rows]);
      (h in after <==> h in before) && (h in after ==> after[h] == before[h])
  {
    var done' := done[v := rows];
    assert forall w :: w in done' && hash(w) == h <==> w in done && hash(w) == h;
    assert Hit(hash, done', h) <==> Hit(hash, done, h);
    assert RowsHashedTo(hash, done', h) == RowsHashedTo(hash, done, h);
  }

  lemma MergedStepHere(hash: Text -> Hash, view: View, segment: nat, done: map<Text, set<nat>>, v: Text, rows: set<nat>)
    requires v !in done
    ensures var before, after := Merged(hash, view, segment, done), Merged(hash, view, segment, done[v := rows]);
      hash(v) in after && after[hash(v)] == MergeInto(Current(before, hash(v)), segment, rows)
  {
    var done' := done[v := rows];
    assert v in done' && Hit(hash, done', hash(v));
    RowsStep(hash, done, v, rows);
    MergeTwice(Current(view, hash(v)), segment, RowsHashedTo(hash, done, hash(v)), rows);
    if !Hit(hash, done, hash(v)) {
      assert RowsHashedTo(hash, done, hash(v)) + rows == rows;
    }
  }

  lemma RowsStep(hash: Text -> Hash, done: map<Text, set<nat>>, v: Text, rows: set<nat>)
    requires v !in done
    ensures RowsHashedTo(hash, done[v := rows], hash(v)) == RowsHashedTo(hash, done, hash(v)) + rows
  {
    var after := done[v := rows];
    forall r | r in RowsHashedTo(hash, done, hash(v)) + rows ensures r in RowsHashedTo(hash, after, hash(v)) {
      if r in rows {
        assert v in after && r in after[v];
      } else {
        var w :| w in done && hash(w) == hash(v) && r in done[w];
        assert w in after && after[w] == done[w];
      }
    }
  }

  // ---------- purging segments ----------

  function Without(list: Postings, removed: set<nat>): Postings {
    if |list| == 0 then []
    else (if list[0].segment in removed then [] else [list[0]]) + Without(list[1..], removed)
  }

  ghost predicate Touches(list: Postings, removed: set<nat>) {
    exists i :: 0 <= i < |list| && list[i].segment in removed
  }

  lemma {:induction false} WithoutSpec(list: Postings, removed: set<nat>)
    ensures forall p :: p in Without(list, removed) <==> p in list && p.segment !in removed
    ensures |Without(list, removed)| <= |list|
    ensures |Without(list, removed)| == |list| <==> !Touches(list, removed)
    ensures !Touches(list, removed) ==> Without(list, removed) == list
  {
    if |list| != 0 {
      WithoutSpec(list[1..], removed);
      assert list == [list[0]] + list[1..];
      if Touches(list[1..], removed) {
        var i :| 0 <= i < |list[1..]| && list[1..][i].segment in removed;
        assert list[i + 1].segment in removed;
      }
      if Touches(list, removed) && list[0].segment !in removed {
        var i :| 0 <= i < |list| && list[i].segment in removed;
        assert list[1..][i - 1].segment in removed;
      }
    }
  }

  ghost predicate Survives(list: Postings, removed: set<nat>) {
    Touches(list, removed) ==> Without(list, removed) != []
  }

  /** Postings of removed segments go; a hash goes when that empties its list. */
  ghost function Purged(view: View, removed: set<nat>): View {
    map h | h in view && Survives(view[h], removed) :: Without(view[h], removed)
  }

  ghost function SegmentsOf(view: View): set<nat> {
    set h, p | h in view && p in view[h] :: p.segment
  }

  lemma SegmentsTouched(view: View, removed: set<nat>)
    ensures (exists h :: h in view && Touches(view[h], removed)) <==> SegmentsOf(view) * removed != {}
  {
    if h :| h in view && Touches(view[h], removed) {
      var i :| 0 <= i < |view[h]| && view[h][i].segment in removed;
      assert view[h][i] in view[h];
      assert view[h][i].segment in SegmentsOf(view) * removed;
    }
    if s :| s in SegmentsOf(view) * removed {
      var h, p :| h in view && p in view[h] && p.segment == s;
      var i :| 0 <= i < |view[h]| && view[h][i] == p;
      assert Touches(view[h], removed);
    }
  }

  /** After a purge the segments are the old ones minus the removed ones. */
  lemma PurgedSegments(view: View, removed: set<nat>)
    ensures SegmentsOf(Purged(view, removed)) == SegmentsOf(view) - removed
  {
    forall h | h in view {
      WithoutSpec(view[h], removed);
    }
    forall s | s in SegmentsOf(view) - removed ensures s in SegmentsOf(Purged(view, removed)) {
      var h, p :| h in view && p in view[h] && p.segment == s;
      WithoutSpec(view[h], removed);
      assert p in Without(view[h], removed);
      assert h in Purged(view, removed);
    }
    forall s | s in SegmentsOf(Purged(view, removed)) ensures s in SegmentsOf(view) - removed {
      var h, p :| h in Purged(view, removed) && p in Purged(view, removed)[h] && p.segment == s;
      WithoutSpec(view[h], removed);
    }
  }

  lemma PurgedNothing(view: View, removed: set<nat>)
    requires SegmentsOf(view) * removed == {}
    ensures Purged(view, removed) == view
  {
    SegmentsTouched(view, removed);
    forall h | h in view ensures h in Purged(view, removed) && Purged(view, removed)[h] == view[h] {
      WithoutSpec(view[h], removed);
    }
  }

  /** A purge changes nothing exactly if no removed segment is there, leaves the row sets of the other
      segments alone, and a second purge finds nothing to do. */
  lemma PurgeIsExact(view: View, removed: set<nat>)
    ensures forall h, p: Posting :: p.segment !in removed ==>
              ((h in view && p in view[h]) <==> (h in Purged(view, removed) && p in Purged(view, removed)[h]))
    ensures SegmentsOf(Purged(view, removed)) * removed == {}
    ensures Purged(Purged(view, removed), removed) == Purged(view, removed)
    ensures Purged(view, removed) == view <==> SegmentsOf(view) * removed == {}
  {
    var purged := Purged(view, removed);
    PurgedSegments(view, removed);
    if SegmentsOf(view) * removed == {} {
      PurgedNothing(view, removed);
    }
    forall h, p: Posting | p.segment !in removed
      ensures (h in view && p in view[h]) <==> (h in purged && p in purged[h])
    {
      if h in view {
        WithoutSpec(view[h], removed);
      }
    }
    PurgedNothing(purged, removed);
  }

  // ---------- purging, as the two passes over snapshot and delta do it ----------

  function PurgedEntry(list: Postings, removed: set<nat>): DeltaEntry {
    if Without(list, removed) == [] then Removed else Replace(Without(list, removed))
  }

  /** The changes that the pass over the snapshot records. */
  ghost function SnapshotPurges(base: View, delta: map<Hash, DeltaEntry>, removed: set<nat>): map<Hash, DeltaEntry> {
    map h | h in base && h !in delta && Touches(base[h], removed) :: PurgedEntry(base[h], removed)
  }

  ghost function PurgeChange(change: DeltaEntry, removed: set<nat>): DeltaEntry {
    if change.Replace? && Touches(change.postings, removed) then PurgedEntry(change.postings, removed) else change
  }

  ghost predicate DeltaTouched(delta: map<Hash, DeltaEntry>, removed: set<nat>) {
    exists h :: h in delta && delta[h].Replace? && Touches(delta[h].postings, removed)
  }

  ghost function PurgeChanges(delta: map<Hash, DeltaEntry>, removed: set<nat>): map<Hash, DeltaEntry> {
    map h | h in delta :: PurgeChange(delta[h], removed)
  }

  /** What both passes leave in the delta. */
  ghost function PurgedDelta(base: View, delta: map<Hash, DeltaEntry>, removed: set<nat>): map<Hash, DeltaEntry> {
    PurgeChanges(delta + SnapshotPurges(base, delta, removed), removed)
  }

  lemma SnapshotPurgesPut(base: View, delta: map<Hash, DeltaEntry>, removed: set<nat>, h: Hash, list: Postings)
    requires h !in base
    ensures SnapshotPurges(base[h := list], delta, removed)
         == if h in delta || !Touches(list, removed) then SnapshotPurges(base, delta, removed)
            else SnapshotPurges(base, delta, removed)[h := PurgedEntry(list, removed)]
  {
  }

  lemma WithoutTwice(list: Postings, removed: set<nat>)
    ensures !Touches(Without(list, removed), removed)
  {
    WithoutSpec(list, removed);
    WithoutSpec(Without(list, removed), removed);
  }

  lemma PurgedDeltaAt(base: View, delta: map<Hash, DeltaEntry>, removed: set<nat>, h: Hash)
    ensures var after, purged := Overlay(base, PurgedDelta(base, delta, removed)), Purged(Overlay(base, delta), removed);
      (h in after <==> h in purged) && (h in after ==> after[h] == purged[h])
  {
    var view := Overlay(base, delta);
    if h in view {
      WithoutSpec(view[h], removed);
      WithoutTwice(view[h], removed);
    }
  }

  /** The two passes purge the map. */
  lemma PassesPurge(base: View, delta: map<Hash, DeltaEntry>, removed: set<nat>)
    ensures Overlay(base, PurgedDelta(base, delta, removed)) == Purged(Overlay(base, delta), removed)
  {
    forall h: Hash
      ensures var after, purged := Overlay(base, PurgedDelta(base, delta, removed)), Purged(Overlay(base, delta), removed);
        (h in after <==> h in purged) && (h in after ==> after[h] == purged[h])
    {
      PurgedDeltaAt(base, delta, removed, h);
    }
  }

  /** One of the passes changes something exactly when the map has a removed segment. */
  lemma PassesChange(base: View, delta: map<Hash, DeltaEntry>, removed: set<nat>)
    ensures var first := SnapshotPurges(base, delta, removed);
      (first != map[] || DeltaTouched(delta + first, removed)) <==> SegmentsOf(Overlay(base, delta)) * removed != {}
    ensures var first := SnapshotPurges(base, delta, removed);
      first == map[] && !DeltaTouched(delta, removed) ==> PurgedDelta(base, delta, removed) == delta
  {
    var first, view := SnapshotPurges(base, delta, removed), Overlay(base, delta);
    SegmentsTouched(view, removed);
    if h :| h in view && Touches(view[h], removed) {
      if h in delta {
        assert h in delta + first && (delta + first)[h] == delta[h];
      } else {
        assert h in first;
      }
    }
    if h :| h in first {
      assert h in view && Touches(view[h], removed);
    }
    if DeltaTouched(delta + first, removed) {
      var h :| h in delta + first && (delta + first)[h].Replace? && Touches((delta + first)[h].postings, removed);
      if h !in delta {
        WithoutTwice(base[h], removed);
      }
      assert h in view && Touches(view[h], removed);
    }
  }

  function SegmentsIn(list: Postings): set<nat> {
    set p | p in list :: p.segment
  }

  lemma SegmentsOfPut(view: View, h: Hash, list: Postings)
    requires h !in view
    ensures SegmentsOf(view[h := list]) == SegmentsOf(view) + SegmentsIn(list)
  {
    var after := view[h := list];
    forall s | s in SegmentsOf(view) + SegmentsIn(list) ensures s in SegmentsOf(after) {
      if s in SegmentsIn(list) {
        var p :| p in list && p.segment == s;
        assert h in after && p in after[h];
      } else {
        var g, p :| g in view && p in view[g] && p.segment == s;
        assert g in after && p in after[g];
      }
    }
  }
}
