/** The POSIX `Event` of event.cc: a flag under a mutex with a condition variable, used by any number
    of threads. Every line of `Set`, `Reset` and `Wait` that touches shared state is one step, and the
    steps of all threads interleave freely; a sleeper may wake at any time, with or without cause. */
module Events {
  import opened Options

  type Tid = nat

  datatype Op = SetOp | ResetOp | WaitOp(forever: bool)

  datatype Reply = Done | Waited(forever: bool, ok: bool)

  /** Where a thread stands: the next thing it does. From `Storing` on to `Leaving`, except `Asleep`
      and `Waking`, it holds the mutex. */
  datatype Pc =
    | Idle
    | Entering(op: Op)
    | Storing
    | Broadcasting
    | Clearing
    | Testing(forever: bool, error: int)
    | Asleep(forever: bool)
    | Waking(forever: bool, error: int)
    | Deciding(forever: bool, error: int)
    | Leaving(reply: Reply)
  {
    predicate Holds() {
      Storing? || Broadcasting? || Clearing? || Testing? || Deciding? || Leaving?
    }

    /** In a call of `Set` that has not stored yet. */
    predicate Setting() { this == Entering(SetOp) || Storing? }

    predicate Succeeding() { Leaving? && reply.Waited? && reply.ok }
  }

  /** What happened so far: calls of `Set`, stores of true, stores that found the event signaled
      already, resets that found it signaled, waits that found it signaled, waits that returned true. */
  datatype Tally = Tally(initial: nat, sets: nat, stored: nat, merged: nat, lost: nat, taken: nat, successes: nat)

  datatype Monitor = Monitor(manual: bool, signaled: bool, owner: Option<Tid>, pcs: map<Tid, Pc>, tally: Tally)
  {
    function PcOf(t: Tid): Pc { if t in pcs then pcs[t] else Idle }

    function At(t: Tid, pc: Pc): Monitor { this.(pcs := pcs[t := pc]) }
  }

  function Bit(b: bool): nat { if b then 1 else 0 }

  function Initial(manual: bool, signaled: bool): Monitor {
    Monitor(manual, signaled, None, map[], Tally(Bit(signaled), 0, 0, 0, 0, 0, 0))
  }

  // ---------------------------------------------------------------- steps

  datatype Step =
    | Call(t: Tid, op: Op)
    | Run(t: Tid)
    | Wake(t: Tid, error: int)

  function Inside(op: Op): Pc {
    match op
    case SetOp => Storing
    case ResetOp => Clearing
    case WaitOp(forever) => Testing(forever, 0)
  }

  function Awake(pc: Pc): Pc { if pc.Asleep? then Waking(pc.forever, 0) else pc }

  function AllAwake(pcs: map<Tid, Pc>): map<Tid, Pc> { map t | t in pcs :: Awake(pcs[t]) }

  function Stored(s: Monitor): Monitor {
    s.(signaled := true,
       tally := s.tally.(stored := s.tally.stored + 1, merged := s.tally.merged + Bit(s.signaled)))
  }

  function Cleared(s: Monitor): Monitor {
    s.(signaled := false, tally := s.tally.(lost := s.tally.lost + Bit(s.signaled)))
  }

  function Decided(s: Monitor, error: int): Monitor {
    if error != 0 then s
    else s.(signaled := s.signaled && s.manual, tally := s.tally.(taken := s.tally.taken + 1))
  }

  function Left(s: Monitor, reply: Reply): Monitor {
    var won := Bit(reply.Waited? && reply.ok);
    s.(owner := None, tally := s.tally.(successes := s.tally.successes + won))
  }

  /** The next step of a thread; one that waits for the mutex or for a wake-up stays where it is. */
  function Advance(s: Monitor, t: Tid): Monitor {
    match s.PcOf(t)
    case Idle => s
    case Entering(op) => if s.owner.Some? then s else s.(owner := Some(t)).At(t, Inside(op))
    case Storing => Stored(s).At(t, Broadcasting)
    case Broadcasting => s.(pcs := AllAwake(s.pcs)).At(t, Leaving(Done))
    case Clearing => Cleared(s).At(t, Leaving(Done))
    case Testing(forever, error) =>
      if !s.signaled && error == 0 then s.(owner := None).At(t, Asleep(forever))
      else s.At(t, Deciding(forever, error))
    case Asleep(_) => s
    case Waking(forever, error) => if s.owner.Some? then s else s.(owner := Some(t)).At(t, Testing(forever, error))
    case Deciding(forever, error) => Decided(s, error).At(t, Leaving(Waited(forever, error == 0)))
    case Leaving(reply) => Left(s, reply).At(t, Idle)
  }

  /** A wait without limit wakes with no error; one with a limit may wake with any, a timeout say. */
  function Apply(s: Monitor, step: Step): Monitor {
    match step
    case Call(t, op) =>
      if s.PcOf(t) != Idle then s
      else s.(tally := s.tally.(sets := s.tally.sets + Bit(op.SetOp?))).At(t, Entering(op))
    case Run(t) => Advance(s, t)
    case Wake(t, error) =>
      if s.PcOf(t).Asleep? && (s.PcOf(t).forever ==> error == 0) then s.At(t, Waking(s.PcOf(t).forever, error)) else s
  }

  function After(s: Monitor, steps: seq<Step>): Monitor
    decreases |steps|
  {
    if steps == [] then s else After(Apply(s, steps[0]), steps[1..])
  }

  // ---------------------------------------------------------------- invariants

  /** Exactly the owner of the mutex stands between lock and unlock. */
  ghost predicate MutexInv(s: Monitor) {
    forall t: Tid :: s.PcOf(t).Holds() <==> s.owner == Some(t)
  }

  /** While the event is signaled nobody sleeps, unless the thread that set it is about to broadcast. */
  ghost predicate WakeInv(s: Monitor) {
    s.signaled && !(s.owner.Some? && s.PcOf(s.owner.value).Broadcasting?) ==> forall t: Tid :: !s.PcOf(t).Asleep?
  }

  /** A waiter that decides without error does so on a signaled event, and one without limit never
      has an error. */
  ghost predicate WaitInv(s: Monitor) {
    && (forall t: Tid :: s.PcOf(t).Deciding? && s.PcOf(t).error == 0 ==> s.signaled)
    && (forall t: Tid :: LimitKept(s.PcOf(t)))
  }

  predicate LimitKept(pc: Pc) {
    && ((pc.Testing? || pc.Waking? || pc.Deciding?) && pc.forever ==> pc.error == 0)
    && (pc.Leaving? && pc.reply.Waited? && pc.reply.forever ==> pc.reply.ok)
  }

  /** Every store of true is taken by a wait, still there, merged with an earlier one or reset; waits
      on a manual event take nothing. */
  ghost predicate TallyInv(s: Monitor) {
    s.tally.initial + s.tally.stored
      == (if s.manual then 0 else s.tally.taken) + Bit(s.signaled) + s.tally.merged + s.tally.lost
  }

  ghost function Setters(pcs: map<Tid, Pc>): set<Tid> { set t | t in pcs && pcs[t].Setting() }

  /** A call of `Set` not yet counted as a store is one of the calls under way. */
  ghost predicate CallsInv(s: Monitor) { s.tally.sets == s.tally.stored + |Setters(s.pcs)| }

  /** A wait that took the event and has not returned holds the mutex, so there is at most one. */
  ghost predicate ReturnsInv(s: Monitor) {
    s.tally.taken == s.tally.successes + Bit(s.owner.Some? && s.PcOf(s.owner.value).Succeeding())
  }

  ghost predicate Inv(s: Monitor) {
    MutexInv(s) && WakeInv(s) && WaitInv(s) && TallyInv(s) && CallsInv(s) && ReturnsInv(s)
  }

  lemma InitialInv(manual: bool, signaled: bool)
    ensures Inv(Initial(manual, signaled))
  {
    assert Setters(map[]) == {};
  }

  lemma StepKeepsMutex(s: Monitor, step: Step)
    requires MutexInv(s)
    ensures MutexInv(Apply(s, step))
  {
    var s' := Apply(s, step);
    forall t: Tid ensures s'.PcOf(t).Holds() <==> s'.owner == Some(t) {
      assert s.PcOf(t).Holds() <==> s.owner == Some(t);
      assert s.PcOf(step.t).Holds() <==> s.owner == Some(step.t);
    }
  }

  lemma StepKeepsWake(s: Monitor, step: Step)
    requires MutexInv(s) && WakeInv(s)
    ensures WakeInv(Apply(s, step))
  {
    var s' := Apply(s, step);
    assert s.PcOf(step.t).Holds() <==> s.owner == Some(step.t);
    if s'.signaled && !(s'.owner.Some? && s'.PcOf(s'.owner.value).Broadcasting?) {
      forall t: Tid ensures !s'.PcOf(t).Asleep? {
        assert s.PcOf(t) == s.PcOf(t);
      }
    }
  }

  lemma StepKeepsWait(s: Monitor, step: Step)
    requires MutexInv(s) && WaitInv(s)
    ensures WaitInv(Apply(s, step))
  {
    var s' := Apply(s, step);
    assert s.PcOf(step.t).Holds() <==> s.owner == Some(step.t);
    forall t: Tid ensures LimitKept(s'.PcOf(t)) && (s'.PcOf(t).Deciding? && s'.PcOf(t).error == 0 ==> s'.signaled) {
      assert LimitKept(s.PcOf(t)) && LimitKept(s.PcOf(step.t));
      assert s.PcOf(t).Holds() <==> s.owner == Some(t);
    }
  }

  lemma StepKeepsTally(s: Monitor, step: Step)
    requires WaitInv(s) && TallyInv(s)
    ensures TallyInv(Apply(s, step))
  {
    assert s.PcOf(step.t).Deciding? && s.PcOf(step.t).error == 0 ==> s.signaled;
  }

  lemma SettersAt(pcs: map<Tid, Pc>, t: Tid, pc: Pc)
    ensures var before := t in pcs && pcs[t].Setting();
      |Setters(pcs[t := pc])| == |Setters(pcs)| - Bit(before) + Bit(pc.Setting())
  {
    var rest := Setters(pcs) - {t};
    assert Setters(pcs) == if t in pcs && pcs[t].Setting() then rest + {t} else rest;
    assert Setters(pcs[t := pc]) == if pc.Setting() then rest + {t} else rest;
  }

  lemma StepKeepsCalls(s: Monitor, step: Step)
    requires CallsInv(s)
    ensures CallsInv(Apply(s, step))
  {
    if step.Run? && s.PcOf(step.t).Broadcasting? {
      assert Setters(AllAwake(s.pcs)) == Setters(s.pcs);
      SettersAt(AllAwake(s.pcs), step.t, Leaving(Done));
    } else {
      SettersAt(s.pcs, step.t, Apply(s, step).PcOf(step.t));
    }
  }

  lemma StepKeepsReturns(s: Monitor, step: Step)
    requires MutexInv(s) && ReturnsInv(s)
    ensures ReturnsInv(Apply(s, step))
  {
    assert s.PcOf(step.t).Holds() <==> s.owner == Some(step.t);
    if s.owner.Some? {
      assert s.PcOf(s.owner.value).Holds();
    }
  }

  lemma StepKeeps(s: Monitor, step: Step)
    requires Inv(s)
    ensures Inv(Apply(s, step))
  {
    StepKeepsMutex(s, step);
    StepKeepsWake(s, step);
    StepKeepsWait(s, step);
    StepKeepsTally(s, step);
    StepKeepsCalls(s, step);
    StepKeepsReturns(s, step);
  }

  // ---------------------------------------------------------------- runs

  lemma {:induction false} RunKeeps(s: Monitor, steps: seq<Step>)
    requires Inv(s)
    ensures Inv(After(s, steps))
    decreases |steps|
  {
    if steps != [] {
      StepKeeps(s, steps[0]);
      RunKeeps(Apply(s, steps[0]), steps[1..]);
    }
  }

  lemma StepGrows(s: Monitor, step: Step)
    ensures var d := Apply(s, step);
      && d.manual == s.manual && d.tally.initial == s.tally.initial
      && d.tally.stored >= s.tally.stored && d.tally.merged >= s.tally.merged && d.tally.lost >= s.tally.lost
  {
  }

  /** What no step changes, and counts that only grow. */
  lemma {:induction false} RunGrows(s: Monitor, steps: seq<Step>)
    ensures var d := After(s, steps);
      && d.manual == s.manual && d.tally.initial == s.tally.initial
      && d.tally.stored >= s.tally.stored && d.tally.merged >= s.tally.merged && d.tally.lost >= s.tally.lost
    decreases |steps|
  {
    if steps != [] {
      StepGrows(s, steps[0]);
      RunGrows(Apply(s, steps[0]), steps[1..]);
    }
  }

  /** In every run at most one thread stands between lock and unlock, whatever the threads do. */
  lemma MutualExclusion(manual: bool, signaled: bool, steps: seq<Step>, t: Tid, u: Tid)
    requires var s := After(Initial(manual, signaled), steps); s.PcOf(t).Holds() && s.PcOf(u).Holds()
    ensures t == u
  {
    InitialInv(manual, signaled);
    RunKeeps(Initial(manual, signaled), steps);
  }

  /** In every run each `Set` under way or done is accounted for: its store is still pending, was
      taken by exactly one wait, still signals the event, fell on an event already signaled, or was
      reset. Waits on a manual event take nothing. */
  lemma TallyInEveryRun(manual: bool, signaled: bool, steps: seq<Step>)
    ensures var s := After(Initial(manual, signaled), steps);
      && s.tally.initial == Bit(signaled)
      && Bit(signaled) + s.tally.sets ==
           |Setters(s.pcs)| + (if manual then 0 else s.tally.taken) + Bit(s.signaled) + s.tally.merged + s.tally.lost
      && s.tally.taken == s.tally.successes + Bit(s.owner.Some? && s.PcOf(s.owner.value).Succeeding())
  {
    InitialInv(manual, signaled);
    RunKeeps(Initial(manual, signaled), steps);
    RunGrows(Initial(manual, signaled), steps);
  }

  /** On an automatic event the waits that returned true, plus one if it is still signaled, are never
      more than the calls of `Set`, plus one if it was signaled at first. */
  lemma NoMoreWakeupsThanSets(signaled: bool, steps: seq<Step>)
    ensures var s := After(Initial(false, signaled), steps);
      s.tally.successes + Bit(s.signaled) <= s.tally.sets + Bit(signaled)
  {
    TallyInEveryRun(false, signaled, steps);
  }

  /** The same over any stretch of a run: without a store of true in it at most one wait is served,
      and none unless the event was signaled at its start. */
  lemma NoMoreWakeupsInStretch(s: Monitor, steps: seq<Step>)
    requires Inv(s) && !s.manual
    ensures var d := After(s, steps);
      d.tally.taken - s.tally.taken + Bit(d.signaled) <= d.tally.stored - s.tally.stored + Bit(s.signaled)
  {
    RunKeeps(s, steps);
    RunGrows(s, steps);
  }

  predicate InWait(pc: Pc) { pc == Entering(WaitOp(true)) || pc == Entering(WaitOp(false)) || pc.Asleep? || pc.Waking? }

  predicate TimedOut(pc: Pc) { pc.Waking? && pc.error != 0 }

  /** On a signaled event a waiter that gets the mutex leaves the loop at once. */
  lemma LockedWaiterDecides(s: Monitor, t: Tid, forever: bool, error: int)
    requires s.signaled && s.PcOf(t) == Testing(forever, error)
    ensures var d := Advance(Advance(Advance(s, t), t), t);
      && d.PcOf(t) == Idle && d.owner == None
      && d.tally.successes == s.tally.successes + Bit(error == 0)
      && d.signaled == (s.manual || error != 0)
  {
    var s1 := s.At(t, Deciding(forever, error));
    assert Advance(s, t) == s1;
    var s2 := Decided(s1, error).At(t, Leaving(Waited(forever, error == 0)));
    assert Advance(s1, t) == s2;
  }

  /** No wake-up is lost: whenever in a run the event is signaled and the mutex is free, any thread
      that is in a wait can run to its return. It returns true, and takes the signal of an automatic
      event, unless its wait had timed out, and then it takes nothing. */
  lemma NoLostWakeup(manual: bool, signaled: bool, steps: seq<Step>, t: Tid)
    requires var s := After(Initial(manual, signaled), steps); s.signaled && s.owner == None && InWait(s.PcOf(t))
    ensures var s := After(Initial(manual, signaled), steps);
      var d := Advance(Advance(Advance(Advance(s, t), t), t), t);
      && d.PcOf(t) == Idle && d.owner == None
      && d.tally.successes == s.tally.successes + Bit(!TimedOut(s.PcOf(t)))
      && d.signaled == (manual || TimedOut(s.PcOf(t)))
  {
    InitialInv(manual, signaled);
    RunKeeps(Initial(manual, signaled), steps);
    RunGrows(Initial(manual, signaled), steps);
    var s := After(Initial(manual, signaled), steps);
    var pc := s.PcOf(t);
    assert !pc.Asleep?;
    var forever, error := if pc.Entering? then pc.op.forever else pc.forever, if pc.Entering? then 0 else pc.error;
    var s1 := s.(owner := Some(t)).At(t, Testing(forever, error));
    assert Advance(s, t) == s1;
    LockedWaiterDecides(s1, t, forever, error);
  }

  /** A wait without limit never gives up. */
  lemma ForeverReturnsTrue(manual: bool, signaled: bool, steps: seq<Step>, t: Tid, ok: bool)
    requires After(Initial(manual, signaled), steps).PcOf(t) == Leaving(Waited(true, ok))
    ensures ok
  {
    InitialInv(manual, signaled);
    RunKeeps(Initial(manual, signaled), steps);
    assert LimitKept(After(Initial(manual, signaled), steps).PcOf(t));
  }

  /** Whether some thread is in a call of `Reset` and has not cleared the event yet. */
  ghost predicate Resetting(s: Monitor) {
    exists t: Tid :: s.PcOf(t) == Entering(ResetOp) || s.PcOf(t).Clearing?
  }

  /** A manual event once signaled stays so until a call of `Reset`. */
  lemma {:induction false} ManualStaysSignaled(s: Monitor, steps: seq<Step>)
    requires s.manual && s.signaled && !Resetting(s)
    requires forall step :: step in steps && step.Call? ==> !step.op.ResetOp?
    ensures After(s, steps).signaled
    decreases |steps|
  {
    if steps != [] {
      var d := Apply(s, steps[0]);
      assert s.PcOf(steps[0].t) == s.PcOf(steps[0].t);
      forall t: Tid ensures !(d.PcOf(t) == Entering(ResetOp) || d.PcOf(t).Clearing?) {
        assert s.PcOf(t) == s.PcOf(t);
      }
      ManualStaysSignaled(d, steps[1..]);
    }
  }

  lemma {:induction false} AfterBoth(s: Monitor, first: seq<Step>, second: seq<Step>)
    ensures After(s, first + second) == After(After(s, first), second)
    decreases |first|
  {
    if first == [] {
      assert first + second == second;
    } else {
      assert (first + second)[1..] == first[1..] + second;
      AfterBoth(Apply(s, first[0]), first[1..], second);
    }
  }

  lemma AfterStep(s: Monitor, steps: seq<Step>, step: Step)
    ensures After(s, steps + [step]) == Apply(After(s, steps), step)
  {
    AfterBoth(s, steps, [step]);
    assert [step][1..] == [];
  }

  // ---------------------------------------------------------------- the class

  lemma OtherLeaves(s: Monitor, step: Step, t: Tid)
    requires step.t != t
    ensures Apply(s, step).PcOf(t) == s.PcOf(t) || Apply(s, step).PcOf(t) == Awake(s.PcOf(t))
  {
  }

  /** Whatever other threads do while `t` waits, `t` stays where it is, except that a broadcast may
      wake it. */
  lemma {:induction false} OthersLeave(s: Monitor, steps: seq<Step>, t: Tid)
    requires forall step :: step in steps ==> step.t != t
    ensures After(s, steps).PcOf(t) == s.PcOf(t) || After(s, steps).PcOf(t) == Awake(s.PcOf(t))
    decreases |steps|
  {
    if steps != [] {
      OtherLeaves(s, steps[0], t);
      OthersLeave(Apply(s, steps[0]), steps[1..], t);
    }
  }

  function Others(steps: seq<Step>, t: Tid): (rest: seq<Step>)
    ensures forall step :: step in rest ==> step.t != t
  {
    if steps == [] then []
    else if steps[0].t == t then Others(steps[1..], t)
    else [steps[0]] + Others(steps[1..], t)
  }

  function Runs(t: Tid, n: nat): seq<Step> { seq(n, _ => Run(t)) }

  lemma NoRuns(s: Monitor, trace: seq<Step>, t: Tid)
    ensures After(s, trace + Runs(t, 0)) == After(s, trace)
  {
    assert trace + Runs(t, 0) == trace;
  }

  lemma OneMoreRun(s: Monitor, trace: seq<Step>, t: Tid, n: nat)
    ensures After(s, trace + Runs(t, n + 1)) == Apply(After(s, trace + Runs(t, n)), Run(t))
  {
    AfterStep(s, trace + Runs(t, n), Run(t));
    assert trace + Runs(t, n + 1) == trace + Runs(t, n) + [Run(t)];
  }

  /** The first steps of an operation: its call and, when others have run, its try for the mutex. */
  function Entered(t: Tid, op: Op, others: seq<Step>): seq<Step> { [Call(t, op)] + (Others(others, t) + [Run(t)]) }

  function AfterLock(pc: Pc): Pc
    requires pc.Entering? || pc.Waking?
  {
    if pc.Entering? then Inside(pc.op) else Testing(pc.forever, pc.error)
  }

  /** What the scheduler does with a sleeping thread: others run, it wakes with `error` unless a
      broadcast woke it before, and others run until it tries the mutex. */
  datatype Wakeup = Wakeup(asleep: seq<Step>, error: int, awake: seq<Step>)

  datatype Outcome = Blocked | Returned(ok: bool)

  /** The state in which a call of `op` by `t` tries the mutex. */
  function AtTry(s: Monitor, t: Tid, op: Op, others: seq<Step>): Monitor {
    After(Apply(s, Call(t, op)), Others(others, t))
  }

  function Woken(s: Monitor, t: Tid, w: Wakeup): Monitor {
    Apply(After(Advance(s, t), Others(w.asleep, t)), Wake(t, w.error))
  }

  /** One turn of the loop of a wait, up to where the thread has the mutex again or cannot go on. */
  function AfterWakeup(s: Monitor, t: Tid, w: Wakeup): Monitor {
    var woken := Woken(s, t, w);
    if woken.PcOf(t).Asleep? then woken else Advance(After(woken, Others(w.awake, t)), t)
  }

  /** Where the loop of a wait ends: still testing when it is through, asleep or waking when not. */
  function LoopEnd(s: Monitor, t: Tid, wakeups: seq<Wakeup>): Monitor
    decreases |wakeups|
  {
    var pc := s.PcOf(t);
    if !pc.Testing? || s.signaled || pc.error != 0 then s
    else if wakeups == [] then Advance(s, t)
    else LoopEnd(AfterWakeup(s, t, wakeups[0]), t, wakeups[1..])
  }

  /** Where a wait stands past its loop, or where it is stuck. */
  function WaitEnd(s: Monitor, t: Tid, forever: bool, others: seq<Step>, wakeups: seq<Wakeup>): Monitor {
    LoopEnd(Advance(AtTry(s, t, WaitOp(forever), others), t), t, wakeups)
  }

  lemma EnteredIsTry(s: Monitor, t: Tid, op: Op, others: seq<Step>)
    ensures After(s, Entered(t, op, others)) == Advance(AtTry(s, t, op, others), t)
  {
    AfterBoth(s, [Call(t, op)], Others(others, t) + [Run(t)]);
    AfterStep(s, [], Call(t, op));
    assert [] + [Call(t, op)] == [Call(t, op)];
    AfterStep(Apply(s, Call(t, op)), Others(others, t), Run(t));
  }

  /** A wait that gets the mutex at once on a signaled event is through without sleeping, whatever the
      scheduler would have done with it. */
  lemma SignaledWaitEnds(s: Monitor, t: Tid, forever: bool, others: seq<Step>, wakeups: seq<Wakeup>)
    requires s.PcOf(t) == Idle
    requires var d := AtTry(s, t, WaitOp(forever), others); d.owner == None && d.signaled
    ensures WaitEnd(s, t, forever, others, wakeups).PcOf(t) == Testing(forever, 0)
  {
    OthersLeave(Apply(s, Call(t, WaitOp(forever))), Others(others, t), t);
  }

  lemma RelockEnds(d: Monitor, t: Tid)
    requires d.owner == None && d.PcOf(t).Waking?
    ensures var end := LoopEnd(Advance(d, t), t, []);
      if d.signaled || d.PcOf(t).error != 0
      then end.PcOf(t) == Testing(d.PcOf(t).forever, d.PcOf(t).error) && end.owner == Some(t)
      else end.PcOf(t).Asleep? && end.owner == None
  {
  }

  /** A sleeper that wakes and finds the mutex free is through with its loop, and has the mutex, exactly
      when the event is signaled by then or its wait has ended with an error, which is then the one it
      ends with; otherwise it sleeps again. */
  lemma WakeupEndsWait(s: Monitor, t: Tid, w: Wakeup)
    requires !s.signaled && s.PcOf(t).Testing? && s.PcOf(t).error == 0
    requires s.PcOf(t).forever ==> w.error == 0
    requires var d := After(Woken(s, t, w), Others(w.awake, t)); d.owner == None && d.PcOf(t).Waking?
    ensures var d, end := After(Woken(s, t, w), Others(w.awake, t)), LoopEnd(s, t, [w]);
      if d.signaled || d.PcOf(t).error != 0
      then end.PcOf(t) == Testing(d.PcOf(t).forever, d.PcOf(t).error) && end.owner == Some(t)
      else end.PcOf(t).Asleep? && end.owner == None
  {
    OthersLeave(Advance(s, t), Others(w.asleep, t), t);
    RelockEnds(After(Woken(s, t, w), Others(w.awake, t)), t);
    assert [w][1..] == [];
  }

  /** The class of event.cc, with the state of the mutex and of the threads beside its flag. Each
      method is run by a thread `t`; the other threads run where it waits. */
  class Event {
    const isManualReset: bool
    var eventStatus: bool
    var owner: Option<Tid>
    var pcs: map<Tid, Pc>
    var tally: Tally

    function View(): Monitor
      reads this
    {
      Monitor(isManualReset, eventStatus, owner, pcs, tally)
    }

    constructor (manualReset: bool, initiallySignaled: bool)
      ensures View() == Initial(manualReset, initiallySignaled) && Inv(View())
    {
      isManualReset, eventStatus, owner, pcs := manualReset, initiallySignaled, None, map[];
      tally := Tally(Bit(initiallySignaled), 0, 0, 0, 0, 0, 0);
      InitialInv(manualReset, initiallySignaled);
    }

    method RunOthers(t: Tid, steps: seq<Step>)
      requires Inv(View())
      modifies this
      ensures View() == After(old(View()), Others(steps, t)) && Inv(View())
      ensures View().PcOf(t) == old(View()).PcOf(t) || View().PcOf(t) == Awake(old(View()).PcOf(t))
    {
      var s := After(View(), Others(steps, t));
      RunKeeps(View(), Others(steps, t));
      RunGrows(View(), Others(steps, t));
      OthersLeave(View(), Others(steps, t), t);
      eventStatus, owner, pcs, tally := s.signaled, s.owner, s.pcs, s.tally;
    }

    method MutexLock(t: Tid, others: seq<Step>) returns (locked: bool)
      requires Inv(View()) && (View().PcOf(t).Entering? || View().PcOf(t).Waking?)
      modifies this
      ensures View() == Advance(After(old(View()), Others(others, t)), t) && Inv(View())
      ensures locked <==> After(old(View()), Others(others, t)).owner == None
      ensures locked ==> owner == Some(t) && View().PcOf(t) == AfterLock(old(View()).PcOf(t))
      ensures !locked ==> View().PcOf(t) == old(View()).PcOf(t)
    {
      RunOthers(t, others);
      StepKeeps(View(), Run(t));
      if owner.Some? {
        return false;
      }
      owner, pcs := Some(t), pcs[t := AfterLock(pcs[t])];
      locked := true;
    }

    method Announce(t: Tid, op: Op)
      requires Inv(View()) && View().PcOf(t) == Idle
      modifies this`tally, this`pcs
      ensures View() == Apply(old(View()), Call(t, op)) && View().PcOf(t) == Entering(op) && Inv(View())
    {
      StepKeeps(View(), Call(t, op));
      tally, pcs := tally.(sets := tally.sets + Bit(op.SetOp?)), pcs[t := Entering(op)];
    }

    /** A thread calls one of the operations, whose first line takes the mutex. */
    method Enter(t: Tid, op: Op, others: seq<Step>) returns (locked: bool)
      requires Inv(View()) && View().PcOf(t) == Idle
      modifies this
      ensures View() == After(old(View()), Entered(t, op, others)) && Inv(View())
      ensures locked <==> AtTry(old(View()), t, op, others).owner == None
      ensures locked ==> owner == Some(t) && View().PcOf(t) == Inside(op)
      ensures !locked ==> View().PcOf(t) == Entering(op)
    {
      EnteredIsTry(View(), t, op, others);
      Announce(t, op);
      locked := MutexLock(t, others);
    }

    method CondBroadcast(t: Tid)
      requires Inv(View()) && View().PcOf(t).Broadcasting?
      modifies this
      ensures View() == Apply(old(View()), Run(t)) && Inv(View())
      ensures View().PcOf(t) == Leaving(Done) && forall u: Tid :: !View().PcOf(u).Asleep?
      ensures eventStatus == old(eventStatus)
    {
      StepKeeps(View(), Run(t));
      pcs := AllAwake(pcs)[t := Leaving(Done)];
    }

    method MutexUnlock(t: Tid)
      requires Inv(View()) && View().PcOf(t).Leaving?
      modifies this
      ensures View() == Apply(old(View()), Run(t)) && View().PcOf(t) == Idle && owner == None && Inv(View())
      ensures eventStatus == old(eventStatus)
    {
      StepKeeps(View(), Run(t));
      var reply := pcs[t].reply;
      owner, pcs := None, pcs[t := Idle];
      tally := tally.(successes := tally.successes + Bit(reply.Waited? && reply.ok));
    }

    method Store(t: Tid)
      requires Inv(View()) && View().PcOf(t).Storing?
      modifies this
      ensures View() == Apply(old(View()), Run(t)) && Inv(View())
      ensures View().PcOf(t).Broadcasting? && eventStatus
    {
      StepKeeps(View(), Run(t));
      tally := tally.(stored := tally.stored + 1, merged := tally.merged + Bit(eventStatus));
      eventStatus, pcs := true, pcs[t := Broadcasting];
    }

    method Clear(t: Tid)
      requires Inv(View()) && View().PcOf(t).Clearing?
      modifies this
      ensures View() == Apply(old(View()), Run(t)) && Inv(View())
      ensures View().PcOf(t) == Leaving(Done) && !eventStatus
    {
      StepKeeps(View(), Run(t));
      tally := tally.(lost := tally.lost + Bit(eventStatus));
      eventStatus, pcs := false, pcs[t := Leaving(Done)];
    }

    /** Signals the event and wakes every sleeper. Not `done` when the mutex is taken at the try. */
    method Set(t: Tid, others: seq<Step>) returns (done: bool)
      requires Inv(View()) && View().PcOf(t) == Idle
      modifies this
      ensures Inv(View())
      ensures View() == After(old(View()), Entered(t, SetOp, others) + Runs(t, if done then 3 else 0))
      ensures done <==> AtTry(old(View()), t, SetOp, others).owner == None
      ensures done ==> eventStatus && forall u: Tid :: !View().PcOf(u).Asleep?
    {
      ghost var s, trace := View(), Entered(t, SetOp, others);
      NoRuns(s, trace, t);
      done := Enter(t, SetOp, others);
      if done {
        Store(t);
        OneMoreRun(s, trace, t, 0);
        CondBroadcast(t);
        OneMoreRun(s, trace, t, 1);
        MutexUnlock(t);
        OneMoreRun(s, trace, t, 2);
      }
    }

    method Reset(t: Tid, others: seq<Step>) returns (done: bool)
      requires Inv(View()) && View().PcOf(t) == Idle
      modifies this
      ensures Inv(View())
      ensures View() == After(old(View()), Entered(t, ResetOp, others) + Runs(t, if done then 2 else 0))
      ensures done <==> AtTry(old(View()), t, ResetOp, others).owner == None
      ensures done ==> !eventStatus
    {
      ghost var s, trace := View(), Entered(t, ResetOp, others);
      NoRuns(s, trace, t);
      done := Enter(t, ResetOp, others);
      if done {
        Clear(t);
        OneMoreRun(s, trace, t, 0);
        MutexUnlock(t);
        OneMoreRun(s, trace, t, 1);
      }
    }

    method Sleep(t: Tid)
      requires Inv(View()) && View().PcOf(t).Testing? && View().PcOf(t).error == 0 && !eventStatus
      modifies this`owner, this`pcs
      ensures View() == Apply(old(View()), Run(t)) && Inv(View())
      ensures View().PcOf(t) == Asleep(old(View()).PcOf(t).forever)
    {
      StepKeeps(View(), Run(t));
      owner, pcs := None, pcs[t := Asleep(pcs[t].forever)];
    }

    /** Releases the mutex and sleeps; `awake` when the thread has woken and has the mutex again. */
    method CondWait(t: Tid, wakeup: Wakeup) returns (awake: bool, error: int, ghost trace: seq<Step>)
      requires Inv(View()) && View().PcOf(t).Testing? && View().PcOf(t).error == 0 && !eventStatus
      modifies this
      ensures View() == After(old(View()), trace) && View() == AfterWakeup(old(View()), t, wakeup) && Inv(View())
      ensures awake <==> View().PcOf(t).Testing?
      ensures awake ==> owner == Some(t) && View().PcOf(t) == Testing(old(View()).PcOf(t).forever, error)
      ensures awake && error != 0 ==> error == wakeup.error && !old(View()).PcOf(t).forever
      ensures !awake ==> !View().PcOf(t).Holds() && InWait(View().PcOf(t))
    {
      ghost var s := View();
      var forever := View().PcOf(t).forever;
      trace := [Run(t)];
      AfterStep(s, [], Run(t));
      assert [] + [Run(t)] == [Run(t)];
      Sleep(t);
      AfterBoth(s, trace, Others(wakeup.asleep, t));
      RunOthers(t, wakeup.asleep);
      trace := trace + Others(wakeup.asleep, t);
      error := 0;
      if pcs[t].Asleep? {
        if forever && wakeup.error != 0 {
          return false, 0, trace;
        }
        error := wakeup.error;
        StepKeeps(View(), Wake(t, error));
        AfterStep(s, trace, Wake(t, error));
        pcs := pcs[t := Waking(forever, error)];
        trace := trace + [Wake(t, error)];
      }
      ghost var woken := View();
      assert woken == Woken(s, t, wakeup);
      AfterBoth(s, trace, Others(wakeup.awake, t) + [Run(t)]);
      AfterStep(woken, Others(wakeup.awake, t), Run(t));
      awake := MutexLock(t, wakeup.awake);
      trace := trace + (Others(wakeup.awake, t) + [Run(t)]);
    }

    method LeaveLoop(t: Tid, forever: bool, error: int)
      requires Inv(View()) && View().PcOf(t) == Testing(forever, error) && (eventStatus || error != 0)
      modifies this`pcs
      ensures View() == Apply(old(View()), Run(t)) && Inv(View())
      ensures View().PcOf(t) == Deciding(forever, error)
    {
      StepKeeps(View(), Run(t));
      pcs := pcs[t := Deciding(forever, error)];
    }

    /** Without an error the wait takes the signal of an automatic event. */
    method Decide(t: Tid, forever: bool, error: int)
      requires Inv(View()) && View().PcOf(t) == Deciding(forever, error)
      modifies this
      ensures View() == Apply(old(View()), Run(t)) && Inv(View())
      ensures View().PcOf(t) == Leaving(Waited(forever, error == 0))
      ensures eventStatus == if error == 0 then isManualReset else old(eventStatus)
    {
      StepKeeps(View(), Run(t));
      if error == 0 {
        tally := tally.(taken := tally.taken + 1);
        if !isManualReset {
          eventStatus := false;
        }
      }
      pcs := pcs[t := Leaving(Waited(forever, error == 0))];
    }

    /** The loop of a wait; `through` when it ended, signaled or with an error. */
    method AwaitSignal(t: Tid, forever: bool, wakeups: seq<Wakeup>)
      returns (through: bool, error: int, ghost trace: seq<Step>)
      requires Inv(View()) && View().PcOf(t) == Testing(forever, 0)
      modifies this
      ensures View() == After(old(View()), trace) && View() == LoopEnd(old(View()), t, wakeups) && Inv(View())
      ensures through <==> View().PcOf(t).Testing?
      ensures through ==> View().PcOf(t) == Testing(forever, error) && (eventStatus || error != 0)
      ensures through && error != 0 ==> !forever && exists w :: w in wakeups && w.error == error
      ensures !through ==> InWait(View().PcOf(t))
    {
      ghost var s := View();
      trace := [];
      error := 0;
      var i := 0;
      while !eventStatus && error == 0
        invariant Inv(View()) && View() == After(s, trace) && i <= |wakeups|
        invariant LoopEnd(s, t, wakeups) == LoopEnd(View(), t, wakeups[i..])
        invariant View().PcOf(t) == Testing(forever, error)
        invariant error != 0 ==> !forever && exists w :: w in wakeups && w.error == error
        decreases |wakeups| - i
      {
        if i == |wakeups| {
          AfterStep(s, trace, Run(t));
          Sleep(t);
          return false, 0, trace + [Run(t)];
        }
        var awake;
        ghost var more;
        awake, error, more := CondWait(t, wakeups[i]);
        AfterBoth(s, trace, more);
        trace := trace + more;
        if !awake {
          return false, 0, trace;
        }
        assert wakeups[i] in wakeups && wakeups[i..][1..] == wakeups[i + 1..];
        i := i + 1;
      }
      through := true;
    }

    /** What a wait does past its loop. */
    method Finish(t: Tid, forever: bool, error: int) returns (ghost last: Monitor)
      requires Inv(View()) && View().PcOf(t) == Testing(forever, error) && (eventStatus || error != 0)
      modifies this
      ensures View() == Advance(Advance(Advance(old(View()), t), t), t)
      ensures last == After(old(View()), Runs(t, 2)) && last.PcOf(t) == Leaving(Waited(forever, error == 0))
      ensures View() == Apply(last, Run(t)) && View().PcOf(t) == Idle && Inv(View())
      ensures eventStatus == if error == 0 then isManualReset else old(eventStatus)
    {
      ghost var s := View();
      NoRuns(s, [], t);
      LeaveLoop(t, forever, error);
      OneMoreRun(s, [], t, 0);
      Decide(t, forever, error);
      OneMoreRun(s, [], t, 1);
      assert [] + Runs(t, 2) == Runs(t, 2);
      last := View();
      MutexUnlock(t);
    }

    /** Waits until the event is signaled or an error ends the wait. It makes no step but those of
        the protocol; what it returns is the reply its thread leaves with, and on true it has taken the
        signal of an automatic event. It is `Blocked` if the scheduler does not let it get so far. */
    method Wait(t: Tid, forever: bool, others: seq<Step>, wakeups: seq<Wakeup>)
      returns (outcome: Outcome, ghost trace: seq<Step>, ghost last: Monitor)
      requires Inv(View()) && View().PcOf(t) == Idle
      modifies this
      ensures Inv(View()) && last == After(old(View()), trace)
      ensures
        var end := WaitEnd(old(View()), t, forever, others, wakeups);
        if end.PcOf(t).Testing?
        then outcome == Returned(end.PcOf(t).error == 0) && View() == Advance(Advance(Advance(end, t), t), t)
        else outcome == Blocked && View() == end
      ensures
        var try := AtTry(old(View()), t, WaitOp(forever), others);
        try.owner == None && try.signaled ==> outcome == Returned(true)
      ensures outcome.Blocked? ==> View() == last && InWait(last.PcOf(t))
      ensures outcome.Returned? ==>
        && last.PcOf(t) == Leaving(Waited(forever, outcome.ok))
        && View() == Apply(last, Run(t)) && View().PcOf(t) == Idle
        && (outcome.ok ==> eventStatus == isManualReset)
        && (!outcome.ok ==> !forever && exists w :: w in wakeups && w.error != 0)
    {
      ghost var s, try := View(), AtTry(View(), t, WaitOp(forever), others);
      trace := Entered(t, WaitOp(forever), others);
      EnteredIsTry(s, t, WaitOp(forever), others);
      if try.owner == None && try.signaled {
        SignaledWaitEnds(s, t, forever, others, wakeups);
      }
      var locked := Enter(t, WaitOp(forever), others);
      if !locked {
        return Blocked, trace, View();
      }
      ghost var more;
      var through, error;
      through, error, more := AwaitSignal(t, forever, wakeups);
      AfterBoth(s, trace, more);
      trace := trace + more;
      if !through {
        return Blocked, trace, View();
      }
      AfterBoth(s, trace, Runs(t, 2));
      trace := trace + Runs(t, 2);
      last := Finish(t, forever, error);
      outcome := Returned(error == 0);
    }
  }
}
