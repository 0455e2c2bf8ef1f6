/** Opening tables under every interleaving: per-key opening locks, the cache's read-write lock, the
    shared counter, eviction and closing, one atomic access at a time. */
module TableOpening {
  import opened Wrappers

  type Tid = nat
  type Key = string

  datatype PC =
    | Idle
    | WantLock(key: Key)               // missed in the cache
    | Rechecking(key: Key)             // owns the key's lock
    | AtLimit(key: Key)                // missed again, about to read the counter
    | Comparing(key: Key, count: nat)  // read the counter, about to compare it with the limit
    | EvictStart(key: Key)
    | EvictTarget(key: Key, target: nat)
    | WantEvict(key: Key, left: nat)   // waiting for the cache's write lock
    | Evicting(key: Key, left: nat)    // owns the write lock
    | Lowering(key: Key, left: nat, victim: Key)     // removed the victim, counter not lowered yet
    | ClosingVictim(key: Key, left: nat, victim: Key) // closing the victim, write lock still owned
    | Opening(key: Key)                // inside Table::open
    | Opened(key: Key)                 // table built, counter not raised yet
    | Counted(key: Key)                // counter raised, table not inserted yet
    | Duplicate(key: Key)              // found the key already inserted: the defensive branch
    | Removed(victim: Key)             // took a table out, counter not lowered yet
    | Closing(victim: Key)             // write lock given back, the table is still closing

  datatype State = State(
    tables: set<Key>,
    openCount: nat,
    maxOpen: nat,
    locks: map<Key, Tid>,
    writer: Option<Tid>,
    pcs: map<Tid, PC>)

  datatype Step =
    | Miss(t: Tid, k: Key)
    | TakeLock(t: Tid)
    | RecheckHit(t: Tid)
    | RecheckMiss(t: Tid)
    | ReadCount(t: Tid)
    | UnderLimit(t: Tid)
    | OverLimit(t: Tid)
    | LoadMax(t: Tid)
    | LoadCount(t: Tid)
    | EvictLock(t: Tid)
    | EvictOne(t: Tid, victim: Key)
    | EvictLower(t: Tid)
    | EvictClosed(t: Tid)
    | EvictDone(t: Tid)
    | OpenFails(t: Tid)
    | OpenSucceeds(t: Tid)
    | CountUp(t: Tid)
    | Insert(t: Tid)
    | FindDuplicate(t: Tid)
    | DropDuplicate(t: Tid)
    | Close(t: Tid, k: Key)
    | CloseLower(t: Tid)
    | Closed(t: Tid)
    | SetMax(limit: nat)

  /** Eviction keeps this many tables: half of a large limit, all but one of a small one. */
  function Target(maxOpen: nat): nat {
    if maxOpen > 50 then maxOpen / 2 else if maxOpen == 0 then 0 else maxOpen - 1
  }

  function SaturatingSub(a: nat, b: nat): nat {
    if a < b then 0 else a - b
  }

  ghost function At(s: State, t: Tid): PC {
    if t in s.pcs then s.pcs[t] else Idle
  }

  ghost predicate Init(s: State) {
    s.tables == {} && s.openCount == 0 && s.locks == map[] && s.writer == None && forall t | t in s.pcs :: s.pcs[t] == Idle
  }

  ghost predicate Enabled(s: State, step: Step) {
    step.SetMax? ||
    (step.t in s.pcs &&
     var pc := s.pcs[step.t];
     match step
     case Miss(_, k) => pc == Idle && s.writer == None && k !in s.tables
     case TakeLock(_) => pc.WantLock? && pc.key !in s.locks
     case RecheckHit(_) => pc.Rechecking? && s.writer == None && pc.key in s.tables
     case RecheckMiss(_) => pc.Rechecking? && s.writer == None && pc.key !in s.tables
     case ReadCount(_) => pc.AtLimit?
     case UnderLimit(_) => pc.Comparing? && pc.count < s.maxOpen
     case OverLimit(_) => pc.Comparing? && pc.count >= s.maxOpen
     case LoadMax(_) => pc.EvictStart?
     case LoadCount(_) => pc.EvictTarget?
     case EvictLock(_) => pc.WantEvict? && s.writer == None
     case EvictOne(_, victim) => pc.Evicting? && pc.left > 0 && victim in s.tables
     case EvictLower(_) => pc.Lowering?
     case EvictClosed(_) => pc.ClosingVictim?
     case EvictDone(_) => pc.Evicting? && pc.left == 0
     case OpenFails(_) => pc.Opening?
     case OpenSucceeds(_) => pc.Opening?
     case CountUp(_) => pc.Opened?
     case Insert(_) => pc.Counted? && s.writer == None && pc.key !in s.tables
     case FindDuplicate(_) => pc.Counted? && s.writer == None && pc.key in s.tables
     case DropDuplicate(_) => pc.Duplicate?
     case Close(_, k) => pc == Idle && s.writer == None && k in s.tables
     case CloseLower(_) => pc.Removed?
     case Closed(_) => pc.Closing?)
  }

  /** Lowering the counter wraps below zero; `NeverUnderflows` shows it never gets there. */
  ghost function Lowered(s: State): State {
    s.(openCount := SaturatingSub(s.openCount, 1))
  }

  ghost function Goto(s: State, t: Tid, pc: PC): State {
    s.(pcs := s.pcs[t := pc])
  }

  ghost function Unlock(s: State, key: Key): State {
    s.(locks := s.locks - {key})
  }

  ghost function Apply(s: State, step: Step): State
    requires Enabled(s, step)
  {
    if step.SetMax? then s.(maxOpen := step.limit)
    else
      var t, pc := step.t, s.pcs[step.t];
      match step
      case Miss(_, k) => Goto(s, t, WantLock(k))
      case TakeLock(_) => Goto(s, t, Rechecking(pc.key)).(locks := s.locks[pc.key := t])
      case RecheckHit(_) => Unlock(Goto(s, t, Idle), pc.key)
      case RecheckMiss(_) => Goto(s, t, AtLimit(pc.key))
      case ReadCount(_) => Goto(s, t, Comparing(pc.key, s.openCount))
      case UnderLimit(_) => Goto(s, t, Opening(pc.key))
      case OverLimit(_) => Goto(s, t, EvictStart(pc.key))
      case LoadMax(_) => Goto(s, t, EvictTarget(pc.key, Target(s.maxOpen)))
      case LoadCount(_) =>
        var toEvict := SaturatingSub(s.openCount, pc.target);
        Goto(s, t, if toEvict == 0 then Opening(pc.key) else WantEvict(pc.key, toEvict))
      case EvictLock(_) =>
        if s.tables == {} then Goto(s, t, Opening(pc.key))
        else
          var left := if pc.left < |s.tables| then pc.left else |s.tables|;
          Goto(s, t, Evicting(pc.key, left)).(writer := Some(t))
      case EvictOne(_, victim) => Goto(s, t, Lowering(pc.key, pc.left, victim)).(tables := s.tables - {victim})
      case EvictLower(_) => Lowered(Goto(s, t, ClosingVictim(pc.key, pc.left, pc.victim)))
      case EvictClosed(_) => Goto(s, t, Evicting(pc.key, SaturatingSub(pc.left, 1)))
      case EvictDone(_) => Goto(s, t, Opening(pc.key)).(writer := None)
      case OpenFails(_) => Unlock(Goto(s, t, Idle), pc.key)
      case OpenSucceeds(_) => Goto(s, t, Opened(pc.key))
      case CountUp(_) => Goto(s, t, Counted(pc.key)).(openCount := s.openCount + 1)
      case Insert(_) => Unlock(Goto(s, t, Idle), pc.key).(tables := s.tables + {pc.key})
      case FindDuplicate(_) => Goto(s, t, Duplicate(pc.key)).(writer := Some(t))
      case DropDuplicate(_) => Lowered(Unlock(Goto(s, t, Idle), pc.key)).(writer := None)
      case Close(_, k) => Goto(s, t, Removed(k)).(tables := s.tables - {k}, writer := Some(t))
      case CloseLower(_) => Lowered(Goto(s, t, Closing(pc.victim))).(writer := None)
      case Closed(_) => Goto(s, t, Idle)
  }

  /** The thread owns the opening lock of its key. */
  ghost predicate OwnsLock(pc: PC) {
    !pc.Idle? && !pc.WantLock? && !pc.Removed? && !pc.Closing?
  }

  /** The thread found its key missing while owning the key's lock. */
  ghost predicate Missed(pc: PC) {
    OwnsLock(pc) && !pc.Rechecking?
  }

  ghost predicate OwnsWriter(pc: PC) {
    pc.Evicting? || pc.Lowering? || pc.ClosingVictim? || pc.Duplicate? || pc.Removed?
  }

  /** The counter is one ahead of the cache on this thread's account. */
  ghost predicate Ahead(pc: PC) {
    pc.Counted? || pc.Lowering? || pc.Removed?
  }

  /** The thread has taken a table out of the cache under the write lock and still owns the lock. */
  ghost predicate TookOut(pc: PC) {
    pc.Lowering? || pc.ClosingVictim? || pc.Removed?
  }

  ghost function AheadThreads(pcs: map<Tid, PC>): set<Tid> {
    set t | t in pcs && Ahead(pcs[t])
  }

  ghost function CountedThreads(pcs: map<Tid, PC>): set<Tid> {
    set t | t in pcs && pcs[t].Counted?
  }

  /** A key's lock is taken exactly by the thread working on that key. */
  ghost predicate LocksTrue(pcs: map<Tid, PC>, locks: map<Key, Tid>) {
    && (forall t | t in pcs && OwnsLock(pcs[t]) :: pcs[t].key in locks && locks[pcs[t].key] == t)
    && (forall k | k in locks :: locks[k] in pcs && OwnsLock(pcs[locks[k]]) && pcs[locks[k]].key == k)
  }

  ghost predicate Inv(s: State) {
    && LocksTrue(s.pcs, s.locks)
    && (forall t | t in s.pcs :: OwnsWriter(s.pcs[t]) <==> s.writer == Some(t))
    && (s.writer.Some? ==> s.writer.value in s.pcs)
    && (forall t | t in s.pcs && Missed(s.pcs[t]) :: s.pcs[t].key !in s.tables && !s.pcs[t].Duplicate?)
    && s.openCount == |s.tables| + |AheadThreads(s.pcs)|
    && VictimsUnopened(s)
  }

  /** No thread has missed a key whose table another one is taking out under the write lock. */
  ghost predicate VictimsUnopened(s: State) {
    forall t, u | t in s.pcs && u in s.pcs && TookOut(s.pcs[t]) && Missed(s.pcs[u]) :: s.pcs[u].key != s.pcs[t].victim
  }

  lemma InitInv(s: State)
    requires Init(s)
    ensures Inv(s)
  {
    assert AheadThreads(s.pcs) == {};
  }

  lemma AheadMove(pcs: map<Tid, PC>, t: Tid, pc: PC)
    requires t in pcs
    ensures |AheadThreads(pcs[t := pc])|
         == |AheadThreads(pcs)| - (if Ahead(pcs[t]) then 1 else 0) + (if Ahead(pc) then 1 else 0)
  {
    var before, after := AheadThreads(pcs), AheadThreads(pcs[t := pc]);
    if Ahead(pc) {
      assert after == before + {t};
    } else {
      assert after == before - {t};
    }
    assert t in before <==> Ahead(pcs[t]);
  }

  lemma KeepLock(pcs: map<Tid, PC>, locks: map<Key, Tid>, t: Tid, pc: PC)
    requires LocksTrue(pcs, locks) && t in pcs
    requires OwnsLock(pcs[t]) == OwnsLock(pc) && (OwnsLock(pc) ==> pcs[t].key == pc.key)
    ensures LocksTrue(pcs[t := pc], locks)
  {
  }

  lemma AcquireLock(pcs: map<Tid, PC>, locks: map<Key, Tid>, t: Tid, pc: PC)
    requires LocksTrue(pcs, locks) && t in pcs && !OwnsLock(pcs[t]) && OwnsLock(pc) && pc.key !in locks
    ensures LocksTrue(pcs[t := pc], locks[pc.key := t])
  {
  }

  lemma ReleaseLock(pcs: map<Tid, PC>, locks: map<Key, Tid>, t: Tid, pc: PC)
    requires LocksTrue(pcs, locks) && t in pcs && OwnsLock(pcs[t]) && !OwnsLock(pc)
    ensures LocksTrue(pcs[t := pc], locks - {pcs[t].key})
  {
  }

  lemma StepKeepsLocks(s: State, step: Step)
    requires LocksTrue(s.pcs, s.locks) && Enabled(s, step)
    ensures LocksTrue(Apply(s, step).pcs, Apply(s, step).locks)
  {
    if !step.SetMax? {
      StepMoves(s, step);
      StepChangesLocks(s, step);
      var t, next := step.t, Apply(s, step);
      hide Enabled, Apply, LocksTrue, OwnsLock;
      if OwnsLock(s.pcs[t]) == OwnsLock(next.pcs[t]) {
        KeepLock(s.pcs, s.locks, t, next.pcs[t]);
      } else if OwnsLock(next.pcs[t]) {
        AcquireLock(s.pcs, s.locks, t, next.pcs[t]);
      } else {
        ReleaseLock(s.pcs, s.locks, t, next.pcs[t]);
      }
    }
  }

  /** A step takes its key's lock, gives it back, or keeps working on the key. */
  lemma StepChangesLocks(s: State, step: Step)
    requires Enabled(s, step) && !step.SetMax?
    ensures var next, pc := Apply(s, step), s.pcs[step.t];
      && step.t in next.pcs
      && var pc' := next.pcs[step.t];
      && (OwnsLock(pc) == OwnsLock(pc') ==> next.locks == s.locks && (OwnsLock(pc) ==> pc'.key == pc.key))
      && (!OwnsLock(pc) && OwnsLock(pc') ==> pc'.key !in s.locks && next.locks == s.locks[pc'.key := step.t])
      && (OwnsLock(pc) && !OwnsLock(pc') ==> next.locks == s.locks - {pc.key})
  {
  }

  /** The write lock changes hands only between the stepping thread and nobody. */
  lemma StepChangesWriter(s: State, step: Step)
    requires Enabled(s, step) && !step.SetMax?
    requires OwnsWriter(s.pcs[step.t]) <==> s.writer == Some(step.t)
    ensures var next := Apply(s, step);
      && step.t in next.pcs
      && (OwnsWriter(next.pcs[step.t]) <==> next.writer == Some(step.t))
      && (next.writer == s.writer || (s.writer in {None, Some(step.t)} && next.writer in {None, Some(step.t)}))
  {
  }

  lemma StepKeepsOrder(s: State, step: Step)
    requires Inv(s) && Enabled(s, step)
    ensures var next := Apply(s, step);
      && (forall t | t in next.pcs :: OwnsWriter(next.pcs[t]) <==> next.writer == Some(t))
      && (next.writer.Some? ==> next.writer.value in next.pcs)
  {
    if !step.SetMax? {
      StepMoves(s, step);
      StepChangesWriter(s, step);
      hide Enabled, Apply, OwnsWriter, LocksTrue, VictimsUnopened;
    }
  }

  /** What the stepping thread has missed is not in the cache; the cache grows by its own key only. */
  lemma StepChangesMiss(s: State, step: Step)
    requires Enabled(s, step) && !step.SetMax?
    requires Missed(s.pcs[step.t]) ==> s.pcs[step.t].key !in s.tables && !s.pcs[step.t].Duplicate?
    ensures var next, pc := Apply(s, step), s.pcs[step.t];
      && step.t in next.pcs
      && (Missed(next.pcs[step.t]) ==> next.pcs[step.t].key !in next.tables && !next.pcs[step.t].Duplicate?)
      && (forall k | k in next.tables && k !in s.tables :: OwnsLock(pc) && k == pc.key)
  {
  }

  lemma StepKeepsMisses(s: State, step: Step)
    requires Inv(s) && Enabled(s, step)
    ensures var next := Apply(s, step);
      forall t | t in next.pcs && Missed(next.pcs[t]) :: next.pcs[t].key !in next.tables && !next.pcs[t].Duplicate?
  {
    if !step.SetMax? {
      StepMoves(s, step);
      StepChangesMiss(s, step);
      hide Enabled, Apply, VictimsUnopened, AheadThreads;
    }
  }

  /** A table is taken out while it is cached, so nobody has missed its key; a key is missed only while
      nobody owns the write lock. */
  lemma StepChangesVictims(s: State, step: Step)
    requires Enabled(s, step) && !step.SetMax?
    requires OwnsWriter(s.pcs[step.t]) <==> s.writer == Some(step.t)
    ensures var next, pc := Apply(s, step), s.pcs[step.t];
      && step.t in next.pcs
      && (TookOut(next.pcs[step.t]) ==> if TookOut(pc) then next.pcs[step.t].victim == pc.victim else next.pcs[step.t].victim in s.tables)
      && (Missed(next.pcs[step.t]) ==> if Missed(pc) then next.pcs[step.t].key == pc.key else s.writer.None?)
      && (TookOut(next.pcs[step.t]) ==> if TookOut(pc) then s.writer == Some(step.t) else Missed(pc) || s.writer.None?)
  {
  }

  lemma StepKeepsVictims(s: State, step: Step)
    requires Inv(s) && Enabled(s, step)
    ensures VictimsUnopened(Apply(s, step))
  {
    if !step.SetMax? {
      StepMoves(s, step);
      StepChangesVictims(s, step);
      MissedStays(s, step);
      hide Enabled, Apply, AheadThreads, LocksTrue;
      var next := Apply(s, step);
      forall t, u | t in next.pcs && u in next.pcs && TookOut(next.pcs[t]) && Missed(next.pcs[u])
        ensures next.pcs[u].key != next.pcs[t].victim
      {
        assert u == step.t || s.pcs[u] == next.pcs[u];
        assert t == step.t || s.pcs[t] == next.pcs[t];
        assert t != step.t ==> OwnsWriter(s.pcs[t]) && s.writer == Some(t);
      }
    }
  }

  /** A thread that takes a table out had missed another key, or none. */
  lemma MissedStays(s: State, step: Step)
    requires Inv(s) && Enabled(s, step) && !step.SetMax?
    ensures var next := Apply(s, step);
      step.t in next.pcs && (TookOut(next.pcs[step.t]) && Missed(next.pcs[step.t]) ==> next.pcs[step.t].key != next.pcs[step.t].victim)
  {
  }

  ghost predicate Lowers(step: Step) {
    step.EvictLower? || step.CloseLower? || step.DropDuplicate?
  }

  ghost predicate Removes(step: Step) {
    step.EvictOne? || step.Close?
  }

  lemma StepMoves(s: State, step: Step)
    requires Enabled(s, step) && !step.SetMax?
    ensures step.t in s.pcs && Apply(s, step).pcs.Keys == s.pcs.Keys
    ensures Apply(s, step).pcs == s.pcs[step.t := Apply(s, step).pcs[step.t]]
  {
  }

  lemma StepChangesAhead(s: State, step: Step)
    requires Enabled(s, step) && !step.SetMax? && !step.DropDuplicate?
    ensures step.t in s.pcs && step.t in Apply(s, step).pcs
    ensures Ahead(s.pcs[step.t]) <==> Lowers(step) || step.Insert? || step.FindDuplicate?
    ensures Ahead(Apply(s, step).pcs[step.t]) <==> step.CountUp? || Removes(step)
  {
  }

  lemma StepChangesCount(s: State, step: Step)
    requires Enabled(s, step)
    ensures Apply(s, step).openCount
         == if step.CountUp? then s.openCount + 1 else if Lowers(step) then SaturatingSub(s.openCount, 1) else s.openCount
  {
  }

  lemma StepChangesTables(s: State, step: Step)
    requires Enabled(s, step)
    ensures |Apply(s, step).tables|
         == if step.Insert? then |s.tables| + 1 else if Removes(step) then |s.tables| - 1 else |s.tables|
  {
  }

  lemma StepKeepsCount(s: State, step: Step)
    requires Inv(s) && Enabled(s, step)
    ensures var next := Apply(s, step); next.openCount == |next.tables| + |AheadThreads(next.pcs)|
  {
    if !step.SetMax? {
      NoDuplicates(s, step.t);
      StepMoves(s, step);
      StepChangesAhead(s, step);
      StepChangesCount(s, step);
      StepChangesTables(s, step);
      AheadMove(s.pcs, step.t, Apply(s, step).pcs[step.t]);
      assert Ahead(s.pcs[step.t]) ==> step.t in AheadThreads(s.pcs);
    }
  }

  lemma NoDuplicates(s: State, t: Tid)
    requires Inv(s)
    ensures !Enabled(s, DropDuplicate(t)) && !Enabled(s, FindDuplicate(t))
  {
  }

  lemma StepKeepsInv(s: State, step: Step)
    requires Inv(s) && Enabled(s, step)
    ensures Inv(Apply(s, step))
  {
    StepKeepsLocks(s, step);
    StepKeepsOrder(s, step);
    StepKeepsMisses(s, step);
    StepKeepsCount(s, step);
    StepKeepsVictims(s, step);
  }

  ghost predicate Run(states: seq<State>, steps: seq<Step>) {
    && |states| == |steps| + 1
    && Init(states[0])
    && forall i | 0 <= i < |steps| :: Enabled(states[i], steps[i]) && states[i + 1] == Apply(states[i], steps[i])
  }

  lemma {:induction false} RunKeepsInv(states: seq<State>, steps: seq<Step>, i: nat)
    requires Run(states, steps) && i < |states|
    ensures Inv(states[i])
  {
    if i == 0 {
      InitInv(states[0]);
    } else {
      RunKeepsInv(states, steps, i - 1);
      StepKeepsInv(states[i - 1], steps[i - 1]);
    }
  }

  /** At most one thread is inside `Table::open` for a key, and none for a cached key. */
  lemma OneOpenerPerKey(states: seq<State>, steps: seq<Step>, i: nat, t: Tid, u: Tid)
    requires Run(states, steps) && i < |states|
    requires At(states[i], t).Opening? && At(states[i], u).Opening?
    requires At(states[i], t).key == At(states[i], u).key
    ensures t == u
    ensures At(states[i], t).key !in states[i].tables
  {
    RunKeepsInv(states, steps, i);
  }

  /** The defensive branch for an already cached key is never taken. */
  lemma DuplicateUnreachable(states: seq<State>, steps: seq<Step>, i: nat, t: Tid)
    requires Run(states, steps) && i < |states|
    ensures !Enabled(states[i], FindDuplicate(t)) && !At(states[i], t).Duplicate?
  {
    RunKeepsInv(states, steps, i);
  }

  /** The counter is the cache plus the threads between raising it and inserting, plus the one table
      a write-lock owner has removed but not yet subtracted. */
  lemma CounterIsExact(states: seq<State>, steps: seq<Step>, i: nat)
    requires Run(states, steps) && i < |states|
    ensures var s := states[i];
      s.openCount == |s.tables| + |CountedThreads(s.pcs)|
                     + (if s.writer.Some? && (At(s, s.writer.value).Lowering? || At(s, s.writer.value).Removed?) then 1 else 0)
  {
    var s := states[i];
    RunKeepsInv(states, steps, i);
    var counted := CountedThreads(s.pcs);
    if s.writer.Some? && (At(s, s.writer.value).Lowering? || At(s, s.writer.value).Removed?) {
      assert AheadThreads(s.pcs) == counted + {s.writer.value};
    } else {
      forall t | t in s.pcs && Ahead(s.pcs[t]) ensures s.pcs[t].Counted? {
        assert OwnsWriter(s.pcs[t]) <==> s.writer == Some(t);
      }
      assert AheadThreads(s.pcs) == counted;
    }
  }

  /** No step that lowers the counter can take it below zero. */
  lemma NeverUnderflows(states: seq<State>, steps: seq<Step>, i: nat)
    requires Run(states, steps) && i < |steps|
    requires steps[i].EvictLower? || steps[i].CloseLower? || steps[i].DropDuplicate?
    ensures states[i].openCount > 0 && states[i + 1].openCount == states[i].openCount - 1
  {
    RunKeepsInv(states, steps, i);
    assert Ahead(states[i].pcs[steps[i].t]) ==> steps[i].t in AheadThreads(states[i].pcs);
  }

  // ---------- how much is evicted ----------

  /** How many tables the thread has still to take out. */
  ghost function Owed(pc: PC): nat {
    match pc
    case WantEvict(_, left) => left
    case Evicting(_, left) => left
    case Lowering(_, left, _) => SaturatingSub(left, 1)
    case ClosingVictim(_, left, _) => SaturatingSub(left, 1)
    case _ => 0
  }

  /** A thread at the limit owes what the counter is above half of a large limit, or above one less than
      a small one; no more than there is when it gets the lock; and one less with every table. */
  lemma EvictionSteps(s: State, step: Step)
    requires Enabled(s, step) && !step.SetMax?
    ensures var next, pc := Apply(s, step), s.pcs[step.t];
      && step.t in next.pcs
      && (step.LoadMax? ==> next.pcs[step.t].EvictTarget? && IsTarget(s.maxOpen, next.pcs[step.t].target))
      && (step.LoadCount? ==> pc.EvictTarget?)
      && (step.LoadCount? && s.openCount > pc.target ==> Owed(next.pcs[step.t]) + pc.target == s.openCount)
      && (step.EvictLock? ==> Owed(next.pcs[step.t]) <= Owed(pc) && Owed(next.pcs[step.t]) <= |s.tables|)
      && (step.EvictLock? ==> Owed(next.pcs[step.t]) in {Owed(pc), |s.tables|})
      && (step.EvictOne? ==> Owed(next.pcs[step.t]) + 1 == Owed(pc) && step.victim in s.tables && next.tables == s.tables - {step.victim})
      && (step.EvictLower? || step.EvictClosed? ==> Owed(next.pcs[step.t]) == Owed(pc))
      && (step.EvictDone? ==> Owed(pc) == 0)
  {
  }

  ghost predicate IsTarget(maxOpen: nat, target: nat) {
    if maxOpen > 50 then 2 * target <= maxOpen <= 2 * target + 1
    else if maxOpen > 0 then target + 1 == maxOpen
    else target == 0
  }

  /** An evicting thread never owes more than there is. */
  ghost predicate EnoughLeft(s: State) {
    forall t | t in s.pcs ::
      && (s.pcs[t].Evicting? ==> s.pcs[t].left <= |s.tables|)
      && (s.pcs[t].Lowering? || s.pcs[t].ClosingVictim? ==> s.pcs[t].left <= |s.tables| + 1)
  }

  lemma StepKeepsEnough(s: State, step: Step)
    requires Inv(s) && Enabled(s, step) && EnoughLeft(s)
    ensures EnoughLeft(Apply(s, step))
  {
    if !step.SetMax? {
      StepMoves(s, step);
      StepChangesTables(s, step);
      StepChangesOwed(s, step);
      hide Enabled, Apply, LocksTrue, VictimsUnopened, AheadThreads;
    }
  }

  /** The cache changes only while nobody else owns the write lock, and never by more than the own debt. */
  lemma StepChangesOwed(s: State, step: Step)
    requires Inv(s) && Enabled(s, step) && !step.SetMax? && EnoughLeft(s)
    ensures var next := Apply(s, step);
      && step.t in next.pcs
      && (next.pcs[step.t].Evicting? ==> next.pcs[step.t].left <= |next.tables|)
      && (next.pcs[step.t].Lowering? || next.pcs[step.t].ClosingVictim? ==> next.pcs[step.t].left <= |next.tables| + 1)
      && (next.tables != s.tables ==> s.writer in {None, Some(step.t)})
  {
  }

  lemma {:induction false} RunKeepsEnough(states: seq<State>, steps: seq<Step>, i: nat)
    requires Run(states, steps) && i < |states|
    ensures EnoughLeft(states[i])
  {
    if i > 0 {
      RunKeepsEnough(states, steps, i - 1);
      RunKeepsInv(states, steps, i - 1);
      hide Inv, EnoughLeft, Enabled, Apply, Init;
      StepKeepsEnough(states[i - 1], steps[i - 1]);
    }
  }

  /** Eviction never stalls: while a thread has tables to take out there is one. */
  lemma EvictionGoesOn(states: seq<State>, steps: seq<Step>, i: nat, t: Tid)
    requires Run(states, steps) && i < |states| && At(states[i], t).Evicting?
    ensures if At(states[i], t).left == 0 then Enabled(states[i], EvictDone(t)) else exists k :: Enabled(states[i], EvictOne(t, k))
  {
    RunKeepsEnough(states, steps, i);
    var s := states[i];
    if At(s, t).left > 0 {
      assert s.tables != {};
      var k :| k in s.tables;
      assert Enabled(s, EvictOne(t, k));
    }
  }

  // ---------- how far the limit can be exceeded ----------

  /** The thread may add a table for which no table goes: it read a counter below the limit, is opening
      without having to evict, or has taken out a table for the one it adds. */
  ghost predicate MayAdd(pc: PC, limit: nat) {
    || (pc.Comparing? && pc.count < limit)
    || pc.Opening? || pc.Opened? || pc.Counted?
    || pc.Lowering? || pc.ClosingVictim? || (pc.Evicting? && pc.left == 0)
  }

  ghost function Adders(pcs: map<Tid, PC>, limit: nat): set<Tid> {
    set t | t in pcs && MayAdd(pcs[t], limit)
  }

  /** The limit is never above `limit`, targets are below it, and who waits to evict has a table to evict. */
  ghost predicate Limited(s: State, limit: nat) {
    && s.maxOpen <= limit
    && (forall t | t in s.pcs :: (s.pcs[t].EvictTarget? ==> s.pcs[t].target < limit) && (s.pcs[t].WantEvict? ==> s.pcs[t].left > 0))
    && |s.tables| + |Adders(s.pcs, limit)| < limit + |s.pcs|
  }

  lemma AddersMove(pcs: map<Tid, PC>, limit: nat, t: Tid, pc: PC)
    requires t in pcs
    ensures |Adders(pcs[t := pc], limit)|
         == |Adders(pcs, limit)| - (if MayAdd(pcs[t], limit) then 1 else 0) + (if MayAdd(pc, limit) then 1 else 0)
    ensures |Adders(pcs, limit)| + (if MayAdd(pcs[t], limit) then 0 else 1) <= |pcs|
    ensures |pcs[t := pc]| == |pcs|
  {
    var before, after := Adders(pcs, limit), Adders(pcs[t := pc], limit);
    if MayAdd(pc, limit) {
      assert after == before + {t};
    } else {
      assert after == before - {t};
    }
    assert t in before <==> MayAdd(pcs[t], limit);
    assert pcs[t := pc].Keys == pcs.Keys;
    FewerThreads(before - {t}, pcs.Keys - {t});
    assert |pcs.Keys - {t}| == |pcs| - 1;
  }

  lemma FewerThreads(few: set<Tid>, all: set<Tid>)
    requires few <= all
    ensures |few| <= |all|
  {
    assert all == few + (all - few);
  }

  /** A step that lets its thread add a table either finds fewer tables than the limit or none at all;
      else the thread could add one before, or a table goes or is there now. */
  lemma StepAdds(s: State, step: Step, limit: nat)
    requires Enabled(s, step) && !step.SetMax? && limit > 0 && s.maxOpen <= limit
    requires s.pcs[step.t].EvictTarget? ==> s.pcs[step.t].target < limit
    requires s.pcs[step.t].WantEvict? ==> s.pcs[step.t].left > 0
    ensures var next, pc := Apply(s, step), s.pcs[step.t];
      && step.t in next.pcs
      && (MayAdd(next.pcs[step.t], limit) && !MayAdd(pc, limit) ==>
            step.EvictOne? || s.openCount < limit || s.tables == {})
      && (step.Insert? ==> MayAdd(pc, limit) && !MayAdd(next.pcs[step.t], limit))
      && (next.pcs[step.t].EvictTarget? ==> next.pcs[step.t].target < limit)
      && (next.pcs[step.t].WantEvict? ==> next.pcs[step.t].left > 0)
      && next.maxOpen == s.maxOpen
  {
  }

  lemma StepKeepsLimited(s: State, step: Step, limit: nat)
    requires Inv(s) && Enabled(s, step) && limit > 0 && Limited(s, limit) && (step.SetMax? ==> step.limit <= limit)
    ensures Limited(Apply(s, step), limit)
  {
    if !step.SetMax? {
      StepMoves(s, step);
      StepAdds(s, step, limit);
      StepChangesTables(s, step);
      AddersMove(s.pcs, limit, step.t, Apply(s, step).pcs[step.t]);
      var next := Apply(s, step);
      assert |s.tables| <= s.openCount;
      hide Enabled, Apply, MayAdd, Adders, LocksTrue, VictimsUnopened, AheadThreads;
    }
  }

  lemma {:induction false} RunKeepsLimited(states: seq<State>, steps: seq<Step>, limit: nat, i: nat)
    requires Run(states, steps) && i < |states| && limit > 0 && states[0].maxOpen <= limit && |states[0].pcs| > 0
    requires forall j | 0 <= j < |steps| && steps[j].SetMax? :: steps[j].limit <= limit
    ensures Limited(states[i], limit) && |states[i].pcs| == |states[0].pcs|
  {
    if i == 0 {
      assert Adders(states[0].pcs, limit) == {};
    } else {
      RunKeepsLimited(states, steps, limit, i - 1);
      RunKeepsInv(states, steps, i - 1);
      SameThreads(states[i - 1], steps[i - 1]);
      hide Inv, Limited, Enabled, Apply, Init;
      StepKeepsLimited(states[i - 1], steps[i - 1], limit);
    }
  }

  lemma SameThreads(s: State, step: Step)
    requires Enabled(s, step)
    ensures |Apply(s, step).pcs| == |s.pcs|
  {
    if !step.SetMax? {
      StepMoves(s, step);
      assert |s.pcs.Keys| == |s.pcs| && |Apply(s, step).pcs.Keys| == |Apply(s, step).pcs|;
    }
  }

  /** Whatever the interleaving, the tables open never exceed the limit by as much as there are threads. */
  lemma LimitNearlyHolds(states: seq<State>, steps: seq<Step>, limit: nat, i: nat)
    requires Run(states, steps) && i < |states| && limit > 0 && states[0].maxOpen <= limit && |states[0].pcs| > 0
    requires forall j | 0 <= j < |steps| && steps[j].SetMax? :: steps[j].limit <= limit
    ensures |states[i].tables| < limit + |states[0].pcs|
  {
    RunKeepsLimited(states, steps, limit, i);
  }

  // ---------- opening a table whose old instance is still closing ----------

  /** No thread is opening a table that eviction is closing. */
  lemma NoOpenDuringEviction(states: seq<State>, steps: seq<Step>, i: nat, t: Tid, u: Tid)
    requires Run(states, steps) && i < |states|
    requires At(states[i], t).ClosingVictim? && At(states[i], u).Opening?
    ensures At(states[i], u).key != At(states[i], t).victim
  {
    RunKeepsInv(states, steps, i);
  }

  /** `close_table` is still closing the key's table. */
  ghost predicate Closes(s: State, t: Tid, key: Key) {
    t in s.pcs && s.pcs[t].Closing? && s.pcs[t].victim == key
  }

  /** Some thread is inside `Table::open` for a table that `close_table` is still closing. */
  ghost predicate Overlaps(s: State) {
    exists t, u :: OverlapOf(s, t, u)
  }

  ghost predicate OverlapOf(s: State, t: Tid, u: Tid) {
    u in s.pcs && s.pcs[u].Opening? && Closes(s, t, s.pcs[u].key)
  }

  /** The four ways into `Table::open`. */
  ghost predicate Enters(s: State, step: Step) {
    !step.SetMax? && step.t in s.pcs &&
    var pc := s.pcs[step.t];
    match step
    case UnderLimit(_) => pc.Comparing?
    case LoadCount(_) => pc.EvictTarget? && s.openCount <= pc.target
    case EvictLock(_) => pc.WantEvict? && s.tables == {}
    case EvictDone(_) => pc.Evicting?
    case _ => false
  }

  /** The step goes into `Table::open` for a table that is still closing. */
  ghost predicate OpensClosing(s: State, step: Step) {
    Enters(s, step) && exists t :: Closes(s, t, s.pcs[step.t].key)
  }

  lemma StepChangesOpening(s: State, step: Step)
    requires Enabled(s, step) && !step.SetMax?
    ensures var next, pc := Apply(s, step), s.pcs[step.t];
      && step.t in next.pcs
      && (next.pcs[step.t].Closing? ==> pc.Removed? && next.pcs[step.t].victim == pc.victim)
      && (next.pcs[step.t].Opening? <==> Enters(s, step))
      && (Enters(s, step) ==> !pc.Closing? && next.pcs[step.t] == Opening(pc.key))
  {
  }

  lemma OverlapMade(s: State, step: Step)
    requires Enabled(s, step) && OpensClosing(s, step)
    ensures Overlaps(Apply(s, step))
  {
    var t :| Closes(s, t, s.pcs[step.t].key);
    StepMoves(s, step);
    StepChangesOpening(s, step);
    hide Enabled, Apply, Enters;
    assert OverlapOf(Apply(s, step), t, step.t);
  }

  lemma OverlapFound(s: State, step: Step, t: Tid, u: Tid)
    requires VictimsUnopened(s) && Enabled(s, step) && !step.SetMax? && !Overlaps(s)
    requires OverlapOf(Apply(s, step), t, u)
    ensures OpensClosing(s, step)
  {
    StepMoves(s, step);
    StepChangesOpening(s, step);
    RemovedUnopened(s, t, u);
    var next := Apply(s, step);
    hide Enabled, Apply, Enters, VictimsUnopened;
    assert !OverlapOf(s, t, u);
    assert u == step.t ==> Closes(s, t, next.pcs[u].key);
  }

  lemma RemovedUnopened(s: State, t: Tid, u: Tid)
    requires VictimsUnopened(s)
    ensures t in s.pcs && u in s.pcs && s.pcs[t].Removed? && s.pcs[u].Opening? ==> s.pcs[u].key != s.pcs[t].victim
  {
  }

  /** An overlap begins exactly by going into `Table::open` for a table that is still closing: giving
      back the write lock never begins one, since nobody has missed a table that is being taken out. */
  lemma OverlapBegins(s: State, step: Step)
    requires Inv(s) && Enabled(s, step) && !Overlaps(s)
    ensures Overlaps(Apply(s, step)) <==> OpensClosing(s, step)
  {
    hide OpensClosing;
    if OpensClosing(s, step) {
      OverlapMade(s, step);
    }
    if Overlaps(Apply(s, step)) {
      var t, u :| OverlapOf(Apply(s, step), t, u);
      assert step.SetMax? ==> OverlapOf(s, t, u);
      OverlapFound(s, step, t, u);
    }
  }

  /** In a run no thread is inside `Table::open` for a table that is still closing exactly if none goes
      there while it is. */
  lemma {:induction false} NoOverlapIff(states: seq<State>, steps: seq<Step>, n: nat)
    requires Run(states, steps) && n < |states|
    ensures (forall i | 0 <= i <= n :: !Overlaps(states[i])) <==> forall i | 0 <= i < n :: !OpensClosing(states[i], steps[i])
  {
    if n == 0 {
      assert !Overlaps(states[0]);
    } else {
      NoOverlapIff(states, steps, n - 1);
      RunKeepsInv(states, steps, n - 1);
      hide Inv, Enabled, Apply, Overlaps, OpensClosing, Init;
      assert Enabled(states[n - 1], steps[n - 1]) && states[n] == Apply(states[n - 1], steps[n - 1]);
      if !Overlaps(states[n - 1]) {
        OverlapBegins(states[n - 1], steps[n - 1]);
      }
    }
  }

  // ---------- closing under the key's opening lock ----------

  /** What holding the key's opening lock throughout `close_table` would do: it starts only while
      nobody owns that lock, and nobody takes the lock before it is done. */
  ghost predicate Disciplined(s: State, step: Step) {
    && (step.Close? ==> step.k !in s.locks)
    && (step.TakeLock? && step.t in s.pcs && s.pcs[step.t].WantLock? ==>
          forall t | t in s.pcs && IsClosing(s.pcs[t]) :: s.pcs[t].victim != s.pcs[step.t].key)
  }

  ghost predicate IsClosing(pc: PC) {
    pc.Removed? || pc.Closing?
  }

  /** Nobody owns the opening lock of a key that is being closed. */
  ghost predicate ClosersAlone(s: State) {
    forall t | t in s.pcs && IsClosing(s.pcs[t]) :: s.pcs[t].victim !in s.locks
  }

  lemma StepChangesLocked(s: State, step: Step)
    requires Enabled(s, step) && !step.SetMax?
    ensures var next, pc := Apply(s, step), s.pcs[step.t];
      && step.t in next.pcs
      && (IsClosing(next.pcs[step.t]) ==> next.locks == s.locks)
      && (IsClosing(next.pcs[step.t]) && step.Close? ==> next.pcs[step.t].victim == step.k)
      && (IsClosing(next.pcs[step.t]) && !step.Close? ==> IsClosing(pc) && next.pcs[step.t].victim == pc.victim)
      && (forall k | k in next.locks && k !in s.locks :: step.TakeLock? && pc.WantLock? && k == pc.key)
  {
  }

  lemma StepKeepsClosersAlone(s: State, step: Step)
    requires Enabled(s, step) && Disciplined(s, step) && ClosersAlone(s)
    ensures ClosersAlone(Apply(s, step))
  {
    if !step.SetMax? {
      StepMoves(s, step);
      StepChangesLocked(s, step);
      hide Enabled, Apply, IsClosing;
    }
  }

  lemma {:induction false} RunKeepsClosersAlone(states: seq<State>, steps: seq<Step>, n: nat)
    requires Run(states, steps) && n < |states| && forall i | 0 <= i < |steps| :: Disciplined(states[i], steps[i])
    ensures ClosersAlone(states[n])
  {
    if n > 0 {
      RunKeepsClosersAlone(states, steps, n - 1);
      hide Disciplined, ClosersAlone, Apply, Enabled, Init;
      StepKeepsClosersAlone(states[n - 1], steps[n - 1]);
    }
  }

  /** Closing tables under their opening locks rules the overlap out. */
  lemma DisciplineSuffices(states: seq<State>, steps: seq<Step>, n: nat)
    requires Run(states, steps) && n < |states| && forall i | 0 <= i < |steps| :: Disciplined(states[i], steps[i])
    ensures !Overlaps(states[n])
  {
    RunKeepsClosersAlone(states, steps, n);
    RunKeepsInv(states, steps, n);
    hide Run, Disciplined, Inv;
    forall t, u ensures !OverlapOf(states[n], t, u) {
      ClosedAlone(states[n], t, u);
    }
  }

  lemma ClosedAlone(s: State, t: Tid, u: Tid)
    requires Inv(s) && ClosersAlone(s)
    ensures !OverlapOf(s, t, u)
  {
  }

  ghost predicate Reachable(s: State) {
    exists states, steps :: Run(states, steps) && states[|states| - 1] == s
  }

  lemma ReachNext(s: State, step: Step)
    requires Reachable(s) && Enabled(s, step)
    ensures Reachable(Apply(s, step))
  {
    var states, steps :| Run(states, steps) && states[|states| - 1] == s;
    hide Enabled, Apply, Init;
    var longer, more := states + [Apply(s, step)], steps + [step];
    forall i | 0 <= i < |more| ensures Enabled(longer[i], more[i]) && longer[i + 1] == Apply(longer[i], more[i]) {
      assert i < |steps| ==> Enabled(states[i], steps[i]) && states[i + 1] == Apply(states[i], steps[i]);
    }
    assert Run(longer, more);
  }

  ghost predicate Ready(s: State, t: Tid, pc: PC) {
    Reachable(s) && t in s.pcs && s.pcs[t] == pc && s.writer == None
  }

  lemma Locks(s: State, t: Tid, k: Key)
    requires Ready(s, t, Idle) && k !in s.tables && k !in s.locks
    ensures Ready(Goto(s, t, Rechecking(k)).(locks := s.locks[k := t]), t, Rechecking(k))
  {
    hide Reachable;
    ReachNext(s, Miss(t, k));
    var waiting := Goto(s, t, WantLock(k));
    assert waiting == Apply(s, Miss(t, k));
    ReachNext(waiting, TakeLock(t));
    assert Apply(waiting, TakeLock(t)) == Goto(s, t, Rechecking(k)).(locks := s.locks[k := t]);
  }

  lemma Misses(s: State, t: Tid, k: Key)
    requires Ready(s, t, Rechecking(k)) && k !in s.tables
    ensures Ready(Goto(s, t, Comparing(k, s.openCount)), t, Comparing(k, s.openCount))
  {
    hide Reachable;
    ReachNext(s, RecheckMiss(t));
    var checking := Goto(s, t, AtLimit(k));
    assert checking == Apply(s, RecheckMiss(t));
    ReachNext(checking, ReadCount(t));
    assert Apply(checking, ReadCount(t)) == Goto(s, t, Comparing(k, s.openCount));
  }

  lemma Compares(s: State, t: Tid, k: Key, count: nat)
    requires Ready(s, t, Comparing(k, count)) && count < s.maxOpen
    ensures Ready(Goto(s, t, Opening(k)), t, Opening(k))
  {
    hide Reachable;
    ReachNext(s, UnderLimit(t));
  }

  lemma Opens(s: State, t: Tid, k: Key)
    requires Ready(s, t, Opening(k))
    ensures Ready(Goto(s, t, Counted(k)).(openCount := s.openCount + 1), t, Counted(k))
  {
    hide Reachable;
    ReachNext(s, OpenSucceeds(t));
    var built := Goto(s, t, Opened(k));
    assert built == Apply(s, OpenSucceeds(t));
    ReachNext(built, CountUp(t));
    assert Apply(built, CountUp(t)) == Goto(s, t, Counted(k)).(openCount := s.openCount + 1);
  }

  lemma Inserts(s: State, t: Tid, k: Key)
    requires Ready(s, t, Counted(k)) && k !in s.tables
    ensures Ready(Unlock(Goto(s, t, Idle), k).(tables := s.tables + {k}), t, Idle)
  {
    hide Reachable;
    ReachNext(s, Insert(t));
  }

  lemma ClosesTable(s: State, t: Tid, k: Key)
    requires Ready(s, t, Idle) && k in s.tables
    ensures Ready(Lowered(Goto(s, t, Closing(k))).(tables := s.tables - {k}), t, Closing(k))
  {
    hide Reachable;
    ReachNext(s, Close(t, k));
    var removed := Goto(s, t, Removed(k)).(tables := s.tables - {k}, writer := Some(t));
    assert removed == Apply(s, Close(t, k));
    ReachNext(removed, CloseLower(t));
    assert Apply(removed, CloseLower(t)) == Lowered(Goto(s, t, Closing(k))).(tables := s.tables - {k});
  }

  /** A thread goes from missing the table to being inside `Table::open`. */
  lemma StartsOpening(s: State, t: Tid, k: Key)
    requires Ready(s, t, Idle) && k !in s.tables && k !in s.locks && s.openCount < s.maxOpen
    ensures Ready(Goto(s, t, Opening(k)).(locks := s.locks[k := t]), t, Opening(k))
  {
    hide Reachable, Enabled, Apply;
    Locks(s, t, k);
    var locked := Goto(s, t, Rechecking(k)).(locks := s.locks[k := t]);
    Misses(locked, t, k);
    var compared := Goto(locked, t, Comparing(k, s.openCount));
    Compares(compared, t, k, s.openCount);
    assert Goto(compared, t, Opening(k)) == Goto(s, t, Opening(k)).(locks := s.locks[k := t]);
  }

  /** And on to having it in the cache. */
  lemma Caches(s: State, t: Tid, k: Key)
    requires Ready(s, t, Idle) && k !in s.tables && k !in s.locks && s.openCount < s.maxOpen
    ensures Ready(s.(openCount := s.openCount + 1, tables := s.tables + {k}), t, Idle)
  {
    hide Reachable, Enabled, Apply;
    StartsOpening(s, t, k);
    var opening := Goto(s, t, Opening(k)).(locks := s.locks[k := t]);
    Opens(opening, t, k);
    var counted := Goto(opening, t, Counted(k)).(openCount := s.openCount + 1);
    Inserts(counted, t, k);
    var cached := Unlock(Goto(counted, t, Idle), k).(tables := s.tables + {k});
    assert cached.pcs == s.pcs && cached.locks == s.locks;
    assert cached == s.(openCount := s.openCount + 1, tables := s.tables + {k});
  }

  /** A thread that is closing a table after `close_table` gave back the write lock, and a second one
      opening the same table. */
  lemma CloseOverlaps(k: Key)
    ensures exists s :: Reachable(s) && Overlaps(s) && At(s, 1) == Closing(k) && At(s, 2) == Opening(k)
  {
    var start := State({}, 0, 10, map[], None, map[1 := Idle, 2 := Idle]);
    StartReachable(start);
    hide Reachable, Enabled, Apply, Init, Missed;
    Caches(start, 1, k);
    var cached := start.(openCount := 1, tables := {k});
    assert {} + {k} == {k};
    ClosesTable(cached, 1, k);
    var closing := Lowered(Goto(cached, 1, Closing(k))).(tables := {k} - {k});
    assert k !in closing.tables;
    StartsOpening(closing, 2, k);
    OpeningOverlaps(Goto(closing, 2, Opening(k)).(locks := closing.locks[k := 2]), k);
  }

  lemma StartReachable(s: State)
    requires Init(s)
    ensures Reachable(s)
  {
    assert Run([s], []);
    assert [s][|[s]| - 1] == s;
  }

  lemma OpeningOverlaps(s: State, k: Key)
    requires At(s, 1) == Closing(k) && At(s, 2) == Opening(k)
    ensures Overlaps(s)
  {
    assert OverlapOf(s, 1, 2);
  }
}
