/** The join gate: a counter behind a mutex, with a condition variable, under every interleaving of
    its lock, wait, wake and release steps. */
module JoinGate {
  import opened Wrappers

  type Tid = nat

  datatype PC =
    | Outside      // not using the gate
    | AtLock       // acquiring, waiting for the mutex
    | Checking     // acquiring, owns the mutex, about to test the counter
    | Sleeping     // waiting on the condition variable
    | Woken        // notified, waiting to own the mutex again
    | Holding      // has a permit
    | Releasing    // dropping the permit, owns the mutex, counter not yet lowered
    | Lowered      // dropping the permit, owns the mutex, not yet notified

  datatype State = State(max: nat, active: nat, owner: Option<Tid>, pcs: map<Tid, PC>)

  datatype Step =
    | Call(t: Tid)
    | Lock(t: Tid)
    | Wait(t: Tid)
    | Enter(t: Tid)
    | WakeUp(t: Tid)
    | Relock(t: Tid)
    | BeginDrop(t: Tid)
    | Lower(t: Tid)
    | NotifyOne(t: Tid, woken: Option<Tid>)

  ghost predicate At(s: State, t: Tid, pc: PC) {
    t in s.pcs && s.pcs[t] == pc
  }

  ghost predicate Init(s: State) {
    s.active == 0 && s.owner == None && forall t | t in s.pcs :: s.pcs[t] == Outside
  }

  ghost predicate Enabled(s: State, step: Step) {
    match step
    case Call(t) => At(s, t, Outside)
    case Lock(t) => At(s, t, AtLock) && s.owner == None
    case Wait(t) => At(s, t, Checking) && s.active >= s.max
    case Enter(t) => At(s, t, Checking) && s.active < s.max
    case WakeUp(t) => At(s, t, Sleeping)
    case Relock(t) => At(s, t, Woken) && s.owner == None
    case BeginDrop(t) => At(s, t, Holding) && s.owner == None
    case Lower(t) => At(s, t, Releasing)
    case NotifyOne(t, woken) =>
      At(s, t, Lowered) && (if woken.Some? then At(s, woken.value, Sleeping) else forall u :: !At(s, u, Sleeping))
  }

  /** `WakeUp` is a wakeup without a notification. */
  ghost function Apply(s: State, step: Step): State
    requires Enabled(s, step)
  {
    match step
    case Call(t) => s.(pcs := s.pcs[t := AtLock])
    case Lock(t) => s.(pcs := s.pcs[t := Checking], owner := Some(t))
    case Wait(t) => s.(pcs := s.pcs[t := Sleeping], owner := None)
    case Enter(t) => s.(pcs := s.pcs[t := Holding], owner := None, active := s.active + 1)
    case WakeUp(t) => s.(pcs := s.pcs[t := Woken])
    case Relock(t) => s.(pcs := s.pcs[t := Checking], owner := Some(t))
    case BeginDrop(t) => s.(pcs := s.pcs[t := Releasing], owner := Some(t))
    case Lower(t) => s.(pcs := s.pcs[t := Lowered], active := if s.active > 0 then s.active - 1 else 0)
    case NotifyOne(t, woken) =>
      var pcs := s.pcs[t := Outside];
      s.(pcs := if woken.Some? then pcs[woken.value := Woken] else pcs, owner := None)
  }

  ghost function Those(pcs: map<Tid, PC>, pc: PC): set<Tid> {
    set t | t in pcs && pcs[t] == pc
  }

  ghost function CountOf(pcs: map<Tid, PC>, pc: PC): nat {
    |Those(pcs, pc)|
  }

  ghost function Count(s: State, pc: PC): nat {
    CountOf(s.pcs, pc)
  }

  ghost predicate InCriticalSection(pc: PC) {
    pc == Checking || pc == Releasing || pc == Lowered
  }

  ghost predicate Inv(s: State) {
    && (forall t | t in s.pcs :: InCriticalSection(s.pcs[t]) <==> s.owner == Some(t))
    && (s.owner.Some? ==> s.owner.value in s.pcs)
    && s.active == Count(s, Holding) + Count(s, Releasing)
    && s.active <= s.max
    && (Count(s, Sleeping) > 0 ==>
          s.active + Count(s, Woken) + Count(s, Checking) + Count(s, Lowered) >= s.max)
  }

  ghost function One(b: bool): nat {
    if b then 1 else 0
  }

  /** A thread's move from one place to another. */
  lemma CountMove(pcs: map<Tid, PC>, t: Tid, pc: PC, which: PC)
    requires t in pcs
    ensures CountOf(pcs[t := pc], which) == CountOf(pcs, which) - One(pcs[t] == which) + One(pc == which)
  {
    var before, after := Those(pcs, which), Those(pcs[t := pc], which);
    if pc == which {
      assert after == before + {t};
    } else {
      assert after == before - {t};
    }
    assert t in before <==> pcs[t] == which;
  }

  lemma CountPositive(s: State, pc: PC)
    ensures Count(s, pc) > 0 <==> exists t :: At(s, t, pc)
  {
    if t :| At(s, t, pc) {
      assert t in Those(s.pcs, pc);
    }
    if Count(s, pc) > 0 {
      var t :| t in Those(s.pcs, pc);
      assert At(s, t, pc);
    }
  }

  lemma FreeMutex(s: State, pc: PC)
    requires Inv(s) && s.owner == None && InCriticalSection(pc)
    ensures Count(s, pc) == 0
  {
    assert Those(s.pcs, pc) == {};
  }

  lemma InitInv(s: State)
    requires Init(s)
    ensures Inv(s)
  {
    forall pc | pc != Outside ensures Count(s, pc) == 0 {
      assert Those(s.pcs, pc) == {};
    }
  }

  lemma Moves(pcs: map<Tid, PC>, t: Tid, pc: PC)
    requires t in pcs
    ensures forall which :: CountOf(pcs[t := pc], which) == CountOf(pcs, which) - One(pcs[t] == which) + One(pc == which)
  {
    forall which
      ensures CountOf(pcs[t := pc], which) == CountOf(pcs, which) - One(pcs[t] == which) + One(pc == which)
    {
      CountMove(pcs, t, pc, which);
    }
  }

  /** Every step but the notification moves one thread. */
  lemma MoveKeepsInv(s: State, step: Step)
    requires Inv(s) && Enabled(s, step) && !step.NotifyOne?
    ensures Inv(Apply(s, step))
  {
    Moves(s.pcs, step.t, Apply(s, step).pcs[step.t]);
    CountPositive(s, Releasing);
    if step.Lower? {
      assert At(s, step.t, Releasing);
    }
  }

  lemma NotifyKeepsInv(s: State, t: Tid, woken: Option<Tid>)
    requires Inv(s) && Enabled(s, NotifyOne(t, woken))
    ensures Inv(Apply(s, NotifyOne(t, woken)))
  {
    CountPositive(s, Sleeping);
    Moves(s.pcs, t, Outside);
    if woken.Some? {
      Moves(s.pcs[t := Outside], woken.value, Woken);
    }
  }

  lemma StepKeepsInv(s: State, step: Step)
    requires Inv(s) && Enabled(s, step)
    ensures Inv(Apply(s, step))
  {
    if step.NotifyOne? {
      NotifyKeepsInv(s, step.t, step.woken);
    } else {
      MoveKeepsInv(s, step);
    }
  }

  /** A run: every state follows from the one before by some enabled step. */
  ghost predicate Run(states: seq<State>, steps: seq<Step>) {
    && |states| == |steps| + 1
    && Init(states[0])
    && forall i | 0 <= i < |steps| :: Enabled(states[i], steps[i]) && states[i + 1] == Apply(states[i], steps[i])
  }

  lemma {:induction false} RunKeepsInv(states: seq<State>, steps: seq<Step>, i: nat)
    requires Run(states, steps) && i < |states|
    ensures Inv(states[i])
  {
    if i == 0 {
      InitInv(states[0]);
    } else {
      RunKeepsInv(states, steps, i - 1);
      StepKeepsInv(states[i - 1], steps[i - 1]);
    }
  }

  /** In every reachable state at most `max` permits are out, the counter is exact whenever the mutex
      is free, and lowering it never saturates. */
  lemma GateIsSafe(states: seq<State>, steps: seq<Step>, i: nat)
    requires Run(states, steps) && i < |states|
    ensures Count(states[i], Holding) <= states[i].max
    ensures states[i].owner == None ==> states[i].active == Count(states[i], Holding)
    ensures forall t | Enabled(states[i], Lower(t)) :: states[i].active > 0
  {
    var s := states[i];
    RunKeepsInv(states, steps, i);
    CountPositive(s, Releasing);
    if s.owner == None {
      FreeMutex(s, Releasing);
    }
  }

  /** No wakeup is lost: while a thread sleeps and the mutex is free, permits in use plus threads
      already woken fill the gate; so if a permit is free, a woken thread can go and take it. */
  lemma NoLostWakeup(states: seq<State>, steps: seq<Step>, i: nat)
    requires Run(states, steps) && i < |states|
    requires states[i].owner == None && exists t :: At(states[i], t, Sleeping)
    ensures states[i].active + Count(states[i], Woken) >= states[i].max
    ensures states[i].active < states[i].max ==>
              exists t :: Enabled(states[i], Relock(t)) && Enabled(Apply(states[i], Relock(t)), Enter(t))
  {
    var s := states[i];
    RunKeepsInv(states, steps, i);
    FreeMutex(s, Checking);
    FreeMutex(s, Lowered);
    CountPositive(s, Sleeping);
    CountPositive(s, Woken);
    if s.active < s.max {
      var t :| At(s, t, Woken);
      assert Enabled(s, Relock(t)) && Enabled(Apply(s, Relock(t)), Enter(t));
    }
  }
}
