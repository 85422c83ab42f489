/** The scheduler as interleaved atomic steps of its processors: switching threads, waking, resuming
    and destroying suspended ones. */
module Scheduler {
  import opened ThreadStatus
  import opened Wrappers

  type Tid = nat
  type Op = nat

  datatype Thread = Thread(status: nat, alive: bool) {
    function State(): ThreadState { StateOf(status) }
  }

  datatype Action = NoAction | InsertReady | SetTimeout

  /** Where a processor is in `switch_current_thread_to` and `post_switch_handler`. */
  datatype Cpu =
    | Runs(cur: Tid)
    | Chosen(prev: Tid, next: Tid, target: ThreadState, action: Action)
    | OldSet(prev: Tid, next: Tid, action: Action)
    | NewSet(prev: Tid, next: Tid, action: Action)
    | Switched(cur: Tid, prev: Tid, action: Action)

  /** `waking` holds the threads made ready by an operation that has not yet queued them. */
  datatype State = State(threads: map<Tid, Thread>, idle: set<Tid>, cpus: seq<Cpu>, queue: seq<Tid>,
                         waking: map<Op, Tid>, refs: set<ThreadRef>)

  datatype Step =
    | FindNone(cpu: nat)
    | Choose(cpu: nat, skip: nat, target: ThreadState, action: Action)
    | SetOld(cpu: nat)
    | SetNew(cpu: nat)
    | Commit(cpu: nat)
    | PostSwitch(cpu: nat)
    | MakeFutureRef(cpu: nat)
    | Wake(op: Op, ref: ThreadRef)
    | Resume(op: Op, t: Tid)
    | Insert(op: Op)
    | Abandon(op: Op)
    | Destroy(t: Tid)
    | Kill(t: Tid)
    | Create(op: Op, t: Tid, ready: bool)

  /** The ways the kernel calls `switch_current_thread_to`. */
  predicate SwitchCall(target: ThreadState, action: Action) {
    match target
    case Ready => action == InsertReady
    case Suspended => action == NoAction || action == SetTimeout
    case Dead => action == NoAction
    case Running => false
  }

  predicate Runnable(s: State, t: Tid) { t in s.threads && s.threads[t].alive }

  /** When a step can happen. Resuming, destroying and referring need a capability to the thread or
      the thread's own system call, so they never concern the boot-time idle threads. */
  predicate Enabled(s: State, step: Step) {
    match step
    case FindNone(c) =>
      c < |s.cpus| && s.cpus[c].Runs? && forall i :: 0 <= i < |s.queue| ==> !Runnable(s, s.queue[i])
    case Choose(c, k, target, action) =>
      && c < |s.cpus| && s.cpus[c].Runs? && k < |s.queue| && SwitchCall(target, action)
      && (s.cpus[c].cur in s.idle ==> target == Ready)
      && (forall i :: 0 <= i < k ==> !Runnable(s, s.queue[i])) && Runnable(s, s.queue[k])
    case SetOld(c) => c < |s.cpus| && s.cpus[c].Chosen? && s.cpus[c].prev in s.threads
    case SetNew(c) => c < |s.cpus| && s.cpus[c].OldSet? && s.cpus[c].next in s.threads
    case Commit(c) => c < |s.cpus| && s.cpus[c].NewSet?
    case PostSwitch(c) =>
      && c < |s.cpus| && s.cpus[c].Switched?
      && var prev := s.cpus[c].prev;
         s.cpus[c].action == SetTimeout ==> prev in s.threads && NewRef(prev, s.threads[prev].status).Some?
    case MakeFutureRef(c) =>
      c < |s.cpus| && s.cpus[c].Runs? && s.cpus[c].cur in s.threads && s.cpus[c].cur !in s.idle
    case Wake(op, r) =>
      && op !in s.waking && r in s.refs && r.thread in s.threads
      && TryWake(r, s.threads[r.thread].status).Woken?
    case Resume(op, t) =>
      op !in s.waking && t in s.threads && t !in s.idle && Transition(s.threads[t].status, Suspended, Ready).Some?
    case Insert(op) => op in s.waking
    case Abandon(op) => op in s.waking
    case Destroy(t) => t in s.threads && t !in s.idle && Transition(s.threads[t].status, Suspended, Dead).Some?
    case Kill(t) => t in s.threads
    case Create(op, t, _) => op !in s.waking && t !in s.threads && t !in s.idle
  }

  function WithStatus(s: State, t: Tid, status: nat): State
    requires t in s.threads
  {
    s.(threads := s.threads[t := s.threads[t].(status := status)])
  }

  function WithCpu(s: State, c: nat, cpu: Cpu): State
    requires c < |s.cpus|
  {
    s.(cpus := s.cpus[c := cpu])
  }

  function Apply(s: State, step: Step): State
    requires Enabled(s, step)
  {
    match step
    case FindNone(c) => s.(queue := [])
    case Choose(c, k, target, action) =>
      WithCpu(s, c, Chosen(s.cpus[c].cur, s.queue[k], target, action)).(queue := s.queue[k + 1..])
    case SetOld(c) =>
      var cpu := s.cpus[c];
      WithCpu(WithStatus(s, cpu.prev, SetState(s.threads[cpu.prev].status, cpu.target)), c,
              OldSet(cpu.prev, cpu.next, cpu.action))
    case SetNew(c) =>
      var cpu := s.cpus[c];
      WithCpu(WithStatus(s, cpu.next, SetState(s.threads[cpu.next].status, Running)), c,
              NewSet(cpu.prev, cpu.next, cpu.action))
    case Commit(c) => WithCpu(s, c, Switched(s.cpus[c].next, s.cpus[c].prev, s.cpus[c].action))
    case PostSwitch(c) =>
      var cpu := s.cpus[c];
      var s' := WithCpu(s, c, Runs(cpu.cur));
      (match cpu.action
       case NoAction => s'
       case InsertReady => s'.(queue := s.queue + [cpu.prev])
       case SetTimeout => s'.(refs := s.refs + {NewRef(cpu.prev, s.threads[cpu.prev].status).value}))
    case MakeFutureRef(c) =>
      s.(refs := s.refs + {FutureRef(s.cpus[c].cur, s.threads[s.cpus[c].cur].status)})
    case Wake(op, r) =>
      WithStatus(s, r.thread, TryWake(r, s.threads[r.thread].status).status).(waking := s.waking[op := r.thread])
    case Resume(op, t) =>
      WithStatus(s, t, Transition(s.threads[t].status, Suspended, Ready).value).(waking := s.waking[op := t])
    case Insert(op) => s.(queue := s.queue + [s.waking[op]], waking := s.waking - {op})
    case Abandon(op) => s.(waking := s.waking - {op})
    case Destroy(t) => WithStatus(s, t, Transition(s.threads[t].status, Suspended, Dead).value)
    case Kill(t) => s.(threads := s.threads[t := s.threads[t].(alive := false)])
    case Create(op, t, ready) =>
      var first := SetState(2, if ready then Ready else Suspended);
      s.(threads := s.threads[t := Thread(first, true)], waking := if ready then s.waking[op := t] else s.waking)
  }

  /** The ready queue. */
  class ThreadMap {
    var ready: seq<Tid>

    /** Pops threads until one is alive: the steps `Choose` and `FindNone` in one. */
    method GetNextThread(s: State) returns (r: Option<Tid>, ghost k: nat)
      requires s.queue == ready
      modifies this
      ensures k <= |s.queue| && forall i :: 0 <= i < k ==> !Runnable(s, s.queue[i])
      ensures r.None? ==> k == |s.queue| && ready == []
      ensures r.Some? ==> k < |s.queue| && r.value == s.queue[k] && Runnable(s, r.value) && ready == s.queue[k + 1..]
      ensures forall c: nat :: r.None? && Enabled(s, FindNone(c)) ==> Apply(s, FindNone(c)).queue == ready
      ensures forall c: nat, target, action :: r.Some? && Enabled(s, Choose(c, k, target, action)) ==>
                var s' := Apply(s, Choose(c, k, target, action));
                s'.queue == ready && s'.cpus[c].next == r.value
    {
      k := 0;
      while true
        invariant k <= |s.queue| && ready == s.queue[k..]
        invariant forall i :: 0 <= i < k ==> !Runnable(s, s.queue[i])
        decreases |ready|
      {
        if ready == [] { return None, k; }
        var t := ready[0];
        ready := ready[1..];
        if Runnable(s, t) { return Some(t), k; }
        k := k + 1;
      }
    }
  }

  // ---------------------------------------------------------------------------
  // Places a thread can be
  // ---------------------------------------------------------------------------

  /** Held by a processor as its running thread, as the thread it is switching to, or as the thread it
      will put back in the queue; in a queue slot; or about to be queued by a waker. */
  datatype Place = Current(cpu: nat) | Incoming(cpu: nat) | Outgoing(cpu: nat) | Slot(i: nat) | Waking(op: Op)

  ghost function OnCpu(cpu: Cpu, p: Place): Option<Tid> {
    match p
    case Current(_) => (match cpu
      case Runs(cur) => Some(cur)
      case Chosen(prev, _, _, _) => Some(prev)
      case Switched(cur, _, _) => Some(cur)
      case _ => None)
    case Incoming(_) => (match cpu
      case Chosen(_, n, _, _) => Some(n)
      case OldSet(_, n, _) => Some(n)
      case NewSet(_, n, _) => Some(n)
      case _ => None)
    case Outgoing(_) => (match cpu
      case OldSet(prev, _, a) => if a == InsertReady then Some(prev) else None
      case NewSet(prev, _, a) => if a == InsertReady then Some(prev) else None
      case Switched(_, prev, a) => if a == InsertReady then Some(prev) else None
      case _ => None)
    case _ => None
  }

  ghost function ThreadAt(s: State, p: Place): Option<Tid> {
    match p
    case Slot(i) => if i < |s.queue| then Some(s.queue[i]) else None
    case Waking(op) => if op in s.waking then Some(s.waking[op]) else None
    case _ => if p.cpu < |s.cpus| then OnCpu(s.cpus[p.cpu], p) else None
  }

  /** The state a thread has at a place. A processor's boot thread runs with its initial status until
      its first switch. */
  ghost predicate StateFits(s: State, p: Place, t: Tid)
    requires ThreadAt(s, p) == Some(t)
  {
    && t in s.threads
    && match p
       case Current(_) => s.threads[t].State() == Running || (t in s.idle && s.threads[t].status == 2)
       case Incoming(c) => s.threads[t].State() == if s.cpus[c].NewSet? then Running else Ready
       case _ => s.threads[t].State() == Ready
  }

  /** No thread is at two places. */
  ghost predicate Exclusive(s: State) {
    forall p, q :: ThreadAt(s, p).Some? && ThreadAt(s, p) == ThreadAt(s, q) ==> p == q
  }

  ghost predicate StatesFit(s: State) {
    forall p :: ThreadAt(s, p).Some? ==> StateFits(s, p, ThreadAt(s, p).value)
  }

  /** References are to suspensions of threads other than the idle ones; the idle threads are never
      suspended again; the calls under way are ones the kernel makes. */
  ghost predicate Sane(s: State) {
    && (forall r :: r in s.refs ==> r.thread in s.threads && r.thread !in s.idle && StateOf(r.generation) == Suspended)
    && (forall c :: 0 <= c < |s.cpus| ==> CpuSane(s, s.cpus[c]))
    && s.idle <= s.threads.Keys
  }

  ghost predicate CpuSane(s: State, cpu: Cpu) {
    match cpu
    case Runs(_) => true
    case Chosen(prev, _, target, a) => SwitchCall(target, a) && (prev in s.idle ==> target == Ready)
    case OldSet(prev, _, a) => a == SetTimeout ==> prev !in s.idle
    case NewSet(prev, _, a) => a == SetTimeout ==> prev !in s.idle
    case Switched(_, prev, a) => a == SetTimeout ==> prev !in s.idle
  }

  ghost predicate Inv(s: State) { Exclusive(s) && StatesFit(s) && Sane(s) }

  /** At boot every processor runs its own idle thread, still with the status it was made with. */
  ghost predicate Boot(s: State) {
    && s.queue == [] && s.waking == map[] && s.refs == {}
    && s.idle == s.threads.Keys
    && (forall t :: t in s.threads ==> exists c :: 0 <= c < |s.cpus| && s.cpus[c] == Runs(t))
    && (forall c :: 0 <= c < |s.cpus| ==>
          s.cpus[c].Runs? && s.cpus[c].cur in s.idle && s.threads[s.cpus[c].cur].status == 2)
    && (forall c, d :: 0 <= c < d < |s.cpus| ==> s.cpus[c].cur != s.cpus[d].cur)
  }

  lemma {:induction false} BootInv(s: State)
    requires Boot(s)
    ensures Inv(s)
  {
    assert forall p :: ThreadAt(s, p).Some? ==> p.Current?;
    forall p, q | ThreadAt(s, p).Some? && ThreadAt(s, p) == ThreadAt(s, q) ensures p == q {}
  }

  // ---------------------------------------------------------------------------
  // Every step moves threads from place to place without copying them
  // ---------------------------------------------------------------------------

  /** Where the thread at `p` after the step was before it. */
  ghost function Origin(s: State, step: Step, p: Place): Place {
    match step
    case Choose(c, k, _, _) =>
      if p == Incoming(c) then Slot(k) else if p.Slot? then Slot(p.i + k + 1) else p
    case SetOld(c) => if p == Outgoing(c) then Current(c) else p
    case Commit(c) => if p == Current(c) then Incoming(c) else p
    case PostSwitch(c) => if p == Slot(|s.queue|) then Outgoing(c) else p
    case Insert(op) => if p == Slot(|s.queue|) then Waking(op) else p
    case _ => p
  }

  /** The place at which a step puts a thread that was nowhere. */
  ghost predicate Arrives(step: Step, p: Place) {
    match step
    case Wake(op, _) => p == Waking(op)
    case Resume(op, _) => p == Waking(op)
    case Create(op, _, ready) => ready && p == Waking(op)
    case _ => false
  }

  lemma {:induction false} OriginSpec(s: State, step: Step, p: Place)
    requires Enabled(s, step) && Sane(s) && ThreadAt(Apply(s, step), p).Some? && !Arrives(step, p)
    ensures ThreadAt(s, Origin(s, step, p)) == ThreadAt(Apply(s, step), p)
  {
    hide Enabled, Apply, Sane, ThreadAt, Origin, Arrives;
    if p.Slot? || p.Waking? {
      OriginWaiting(s, step, p);
    } else {
      OriginOnCpu(s, step, p);
    }
  }

  lemma {:induction false} OriginWaiting(s: State, step: Step, p: Place)
    requires Enabled(s, step) && ThreadAt(Apply(s, step), p).Some? && !Arrives(step, p) && (p.Slot? || p.Waking?)
    ensures ThreadAt(s, Origin(s, step, p)) == ThreadAt(Apply(s, step), p)
  {
    hide TryWake, Transition, SetState, NewRef, FutureRef, Runnable, StateOf;
  }

  lemma {:induction false} OriginOnCpu(s: State, step: Step, p: Place)
    requires Enabled(s, step) && Sane(s) && ThreadAt(Apply(s, step), p).Some? && !p.Slot? && !p.Waking?
    ensures ThreadAt(s, Origin(s, step, p)) == ThreadAt(Apply(s, step), p)
  {
    hide TryWake, Transition, SetState, NewRef, FutureRef, Runnable, StateOf;
  }

  lemma {:induction false} OriginInjective(s: State, step: Step, p: Place, q: Place)
    requires Enabled(s, step) && Sane(s) && ThreadAt(Apply(s, step), p).Some? && ThreadAt(Apply(s, step), q).Some?
    requires Origin(s, step, p) == Origin(s, step, q)
    ensures p == q
  {
    hide TryWake, Transition, SetState, NewRef, FutureRef, Runnable, StateOf;
  }

  /** A suspended or dead thread, other than an idle one before its first switch, is at no place. */
  lemma {:induction false} NowhereIfSuspended(s: State, t: Tid)
    requires StatesFit(s) && (t in s.threads ==> t !in s.idle && s.threads[t].State() in {Suspended, Dead})
    ensures forall p :: ThreadAt(s, p) != Some(t)
  {
    forall p | ThreadAt(s, p).Some? ensures ThreadAt(s, p) != Some(t) {
      assert StateFits(s, p, ThreadAt(s, p).value);
    }
  }

  lemma {:induction false} ArrivesFromNowhere(s: State, step: Step, p: Place)
    requires Enabled(s, step) && StatesFit(s) && Sane(s) && Arrives(step, p)
    ensures ThreadAt(Apply(s, step), p).Some?
    ensures forall q :: ThreadAt(s, q) != ThreadAt(Apply(s, step), p)
  {
    var t := ThreadAt(Apply(s, step), p).value;
    NowhereIfSuspended(s, t);
  }

  lemma {:induction false} StepExclusive(s: State, step: Step)
    requires Inv(s) && Enabled(s, step)
    ensures Exclusive(Apply(s, step))
  {
    var s' := Apply(s, step);
    hide Enabled, Apply, Sane, StatesFit, StateFits, ThreadAt, Origin, Arrives;
    forall p, q | ThreadAt(s', p).Some? && ThreadAt(s', p) == ThreadAt(s', q) ensures p == q {
      if Arrives(step, p) && Arrives(step, q) {
        ArriveOnce(step, p, q);
      } else if Arrives(step, p) {
        ArrivesFromNowhere(s, step, p);
        OriginSpec(s, step, q);
      } else if Arrives(step, q) {
        ArrivesFromNowhere(s, step, q);
        OriginSpec(s, step, p);
      } else {
        OriginSpec(s, step, p);
        OriginSpec(s, step, q);
        OriginInjective(s, step, p, q);
      }
    }
  }

  lemma {:induction false} ArriveOnce(step: Step, p: Place, q: Place)
    requires Arrives(step, p) && Arrives(step, q)
    ensures p == q
  {
  }

  /** The thread whose status word a step writes. */
  ghost function Touched(s: State, step: Step): Option<Tid>
    requires Enabled(s, step)
  {
    match step
    case SetOld(c) => Some(s.cpus[c].prev)
    case SetNew(c) => Some(s.cpus[c].next)
    case Wake(_, r) => Some(r.thread)
    case Resume(_, t) => Some(t)
    case Destroy(t) => Some(t)
    case _ => None
  }

  /** The state a touched thread gets. */
  ghost function NewState(s: State, step: Step): ThreadState
    requires Enabled(s, step) && Touched(s, step).Some?
  {
    match step
    case SetOld(c) => s.cpus[c].target
    case SetNew(_) => Running
    case Destroy(_) => Dead
    case _ => Ready
  }

  /** A step writes at most one existing status word, and then it moves it to the next generation. */
  lemma {:induction false} StatusAfter(s: State, step: Step, t: Tid)
    requires Enabled(s, step) && Sane(s) && t in s.threads
    ensures t in Apply(s, step).threads
    ensures Touched(s, step) != Some(t) ==> Apply(s, step).threads[t].status == s.threads[t].status
    ensures Touched(s, step) == Some(t) ==>
              && Apply(s, step).threads[t].State() == NewState(s, step)
              && Generation(Apply(s, step).threads[t].status) == Generation(s.threads[t].status) + 1
  {
    var st := s.threads[t].status;
    if Touched(s, step) == Some(t) {
      SetStateSpec(st, NewState(s, step));
      if step.Wake? { TryWakeSpec(step.ref, st); }
    }
    hide SetState, StateOf, Generation;
  }

  /** Steps on suspended threads touch a thread that is at no place. */
  lemma {:induction false} TouchedPlace(s: State, step: Step, p: Place)
    requires Enabled(s, step) && StatesFit(s) && Sane(s) && Touched(s, step).Some? && ThreadAt(s, p) == Touched(s, step)
    ensures step.SetOld? || step.SetNew?
  {
    if step.Wake? { TryWakeSpec(step.ref, s.threads[step.ref.thread].status); }
    if !step.SetOld? && !step.SetNew? { NowhereIfSuspended(s, Touched(s, step).value); }
  }

  lemma {:induction false} StepStatesFit(s: State, step: Step, p: Place)
    requires Inv(s) && Enabled(s, step) && ThreadAt(Apply(s, step), p).Some?
    ensures StateFits(Apply(s, step), p, ThreadAt(Apply(s, step), p).value)
  {
    hide SetState, Generation, TryWake, Transition, NewRef, FutureRef, Runnable;
    var s' := Apply(s, step);
    var t := ThreadAt(s', p).value;
    if Arrives(step, p) {
      ArrivesFromNowhere(s, step, p);
      if step.Create? { SetStateSpec(2, Ready); } else { StatusAfter(s, step, t); }
    } else {
      var q := Origin(s, step, p);
      OriginSpec(s, step, p);
      assert StateFits(s, q, t);
      StatusAfter(s, step, t);
      if Touched(s, step) == Some(t) {
        TouchedPlace(s, step, q);
        var home := if step.SetOld? then Current(step.cpu) else Incoming(step.cpu);
        assert ThreadAt(s, home) == Some(t);
      }
    }
  }

  lemma {:induction false} StepSane(s: State, step: Step)
    requires Inv(s) && Enabled(s, step)
    ensures Sane(Apply(s, step))
  {
    var s' := Apply(s, step);
    assert s'.idle == s.idle && s.threads.Keys <= s'.threads.Keys;
    if step.MakeFutureRef? { SetStateSpec(s.threads[s.cpus[step.cpu].cur].status, Suspended); }
    hide Exclusive, StatesFit, SetState, Generation, TryWake, Transition, Runnable;
    forall r | r in s'.refs && r !in s.refs
      ensures r.thread in s'.threads && r.thread !in s'.idle && StateOf(r.generation) == Suspended
    {
      assert step.MakeFutureRef? || step.PostSwitch?;
    }
    forall c | 0 <= c < |s'.cpus| ensures CpuSane(s', s'.cpus[c]) {
      assert CpuSane(s, s.cpus[c]);
    }
  }

  /** Every step keeps the invariant: no thread at two places, every place with its state. */
  lemma {:induction false} StepInv(s: State, step: Step)
    requires Inv(s) && Enabled(s, step)
    ensures Inv(Apply(s, step))
  {
    StepExclusive(s, step);
    StepSane(s, step);
    var s' := Apply(s, step);
    hide Exclusive, Sane, ThreadAt, StateFits, Enabled, Apply;
    forall p | ThreadAt(s', p).Some? ensures StateFits(s', p, ThreadAt(s', p).value) {
      StepStatesFit(s, step, p);
    }
  }

  // ---------------------------------------------------------------------------
  // Whole runs
  // ---------------------------------------------------------------------------

  /** A run: the states passed through and the steps between them. */
  datatype Run = Run(states: seq<State>, steps: seq<Step>)

  ghost predicate IsRun(r: Run) {
    && |r.states| == |r.steps| + 1
    && Boot(r.states[0])
    && forall i :: 0 <= i < |r.steps| ==>
         Enabled(r.states[i], r.steps[i]) && r.states[i + 1] == Apply(r.states[i], r.steps[i])
  }

  lemma {:induction false} RunInv(r: Run, i: nat)
    requires IsRun(r) && i < |r.states|
    ensures Inv(r.states[i])
  {
    if i == 0 {
      BootInv(r.states[0]);
    } else {
      RunInv(r, i - 1);
      StepInv(r.states[i - 1], r.steps[i - 1]);
    }
  }

  /** At every moment of every run, a thread is at no more than one of: running on a processor, being
      switched to, waiting to be put back, in one queue slot, with one waker. */
  lemma {:induction false} OnePlace(r: Run, i: nat, p: Place, q: Place)
    requires IsRun(r) && i < |r.states|
    requires ThreadAt(r.states[i], p).Some? && ThreadAt(r.states[i], p) == ThreadAt(r.states[i], q)
    ensures p == q
  {
    RunInv(r, i);
  }

  /** At every moment of every run, every queued thread is ready. */
  lemma {:induction false} QueuedIsReady(r: Run, i: nat, k: nat)
    requires IsRun(r) && i < |r.states| && k < |r.states[i].queue|
    ensures var t := r.states[i].queue[k]; t in r.states[i].threads && r.states[i].threads[t].State() == Ready
  {
    RunInv(r, i);
    var s := r.states[i];
    assert ThreadAt(s, Slot(k)) == Some(s.queue[k]);
    assert StateFits(s, Slot(k), s.queue[k]);
  }

  /** Generations never go back, and a status that changed never returns. */
  lemma {:induction false} GenerationsGrow(r: Run, i: nat, j: nat, t: Tid)
    requires IsRun(r) && i <= j < |r.states| && t in r.states[i].threads
    ensures t in r.states[j].threads
    ensures var (a, b) := (r.states[i].threads[t].status, r.states[j].threads[t].status);
            Generation(a) <= Generation(b) && (Generation(a) == Generation(b) ==> a == b)
    decreases j
  {
    if i < j {
      GenerationsGrow(r, i, j - 1, t);
      RunInv(r, j - 1);
      hide Inv, Enabled, Apply, Generation, Boot;
      StatusAfter(r.states[j - 1], r.steps[j - 1], t);
    }
  }

  /** Of all the wakes through references to one suspension, at most one in a run succeeds. */
  lemma {:induction false} WokenOnce(r: Run, i: nat, j: nat)
    requires IsRun(r) && i < |r.steps| && j < |r.steps|
    requires r.steps[i].Wake? && r.steps[j].Wake? && r.steps[i].ref == r.steps[j].ref
    ensures i == j
  {
    if i < j { WakeConsumes(r, i, j); }
    if j < i { WakeConsumes(r, j, i); }
  }

  lemma {:induction false} WakeConsumes(r: Run, i: nat, j: nat)
    requires IsRun(r) && i < |r.steps| && i < j < |r.states| && r.steps[i].Wake?
    ensures var t := r.steps[i].ref.thread;
            t in r.states[j].threads && TryWake(r.steps[i].ref, r.states[j].threads[t].status).Stale?
  {
    var ref := r.steps[i].ref;
    RunInv(r, i);
    StatusAfter(r.states[i], r.steps[i], ref.thread);
    GenerationsGrow(r, i + 1, j, ref.thread);
    TryWakeSpec(ref, r.states[i].threads[ref.thread].status);
    TryWakeSpec(ref, r.states[j].threads[ref.thread].status);
  }

  /** A reference that is stale stays stale. */
  lemma {:induction false} StaleForever(r: Run, i: nat, j: nat, ref: ThreadRef)
    requires IsRun(r) && i <= j < |r.states| && ref.thread in r.states[i].threads
    requires StateOf(ref.generation) == Suspended
    requires TryWake(ref, r.states[i].threads[ref.thread].status).Stale?
    ensures ref.thread in r.states[j].threads && TryWake(ref, r.states[j].threads[ref.thread].status).Stale?
  {
    var a := r.states[i].threads[ref.thread].status;
    GenerationsGrow(r, i, j, ref.thread);
    var b := r.states[j].threads[ref.thread].status;
    TryWakeSpec(ref, a);
    TryWakeSpec(ref, b);
  }

  // ---------------------------------------------------------------------------
  // A wake is not lost
  // ---------------------------------------------------------------------------

  /** The steps that end a suspension. */
  predicate EndsSuspension(step: Step, t: Tid) {
    match step
    case Wake(_, ref) => ref.thread == t
    case Resume(_, u) => u == t
    case Destroy(u) => u == t
    case _ => false
  }

  lemma {:induction false} OnlyEndedBy(s: State, step: Step, t: Tid)
    requires Inv(s) && Enabled(s, step) && t in s.threads && t !in s.idle && s.threads[t].State() == Suspended
    ensures EndsSuspension(step, t) <==> Touched(s, step) == Some(t)
  {
    NowhereIfSuspended(s, t);
    if step.SetOld? { assert ThreadAt(s, Current(step.cpu)) == Some(s.cpus[step.cpu].prev); }
    if step.SetNew? { assert ThreadAt(s, Incoming(step.cpu)) == Some(s.cpus[step.cpu].next); }
  }

  /** A suspended thread keeps its status until it is woken, resumed or destroyed. */
  lemma {:induction false} StaysSuspended(r: Run, m: nat, j: nat, t: Tid)
    requires IsRun(r) && m <= j < |r.states| && t in r.states[m].threads && t !in r.states[m].idle
    requires r.states[m].threads[t].State() == Suspended
    requires forall k :: m <= k < j ==> !EndsSuspension(r.steps[k], t)
    ensures t in r.states[j].threads && t !in r.states[j].idle
    ensures r.states[j].threads[t].status == r.states[m].threads[t].status
    decreases j
  {
    if m < j {
      StaysSuspended(r, m, j - 1, t);
      RunInv(r, j - 1);
      OnlyEndedBy(r.states[j - 1], r.steps[j - 1], t);
      StatusAfter(r.states[j - 1], r.steps[j - 1], t);
    }
  }

  /** `ref` is the reference that a running thread makes, at step `i`, to its coming suspension. */
  ghost predicate MadeAt(r: Run, i: nat, ref: ThreadRef)
    requires IsRun(r)
  {
    && i < |r.steps| && r.steps[i].MakeFutureRef?
    && var t := r.states[i].cpus[r.steps[i].cpu].cur;
       ref == FutureRef(t, r.states[i].threads[t].status)
  }

  /** A reference to a coming suspension waits as long as the thread has made no transition. */
  lemma {:induction false} FutureRefWaits(r: Run, i: nat, k: nat, ref: ThreadRef)
    requires IsRun(r) && MadeAt(r, i, ref) && i <= k < |r.states|
    ensures ref.thread in r.states[i].threads && ref.thread in r.states[k].threads
    ensures r.states[k].threads[ref.thread].status == r.states[i].threads[ref.thread].status <==>
            TryWake(ref, r.states[k].threads[ref.thread].status).Spin?
  {
    var st := r.states[i].threads[ref.thread].status;
    SetStateSpec(st, Suspended);
    GenerationsGrow(r, i, k, ref.thread);
    TryWakeSpec(ref, r.states[k].threads[ref.thread].status);
  }

  /** If the thread's next transition suspends it, it then has the status the reference names. */
  lemma {:induction false} BecomesRef(r: Run, i: nat, m: nat, ref: ThreadRef)
    requires IsRun(r) && MadeAt(r, i, ref) && i < m < |r.states|
    requires ref.thread in r.states[m - 1].threads && ref.thread in r.states[m].threads
    requires r.states[m - 1].threads[ref.thread].status == r.states[i].threads[ref.thread].status
    requires r.states[m].threads[ref.thread].status != r.states[i].threads[ref.thread].status
    requires r.states[m].threads[ref.thread].State() == Suspended
    ensures ref.thread !in r.states[m].idle && StateOf(ref.generation) == Suspended
    ensures r.states[m].threads[ref.thread].status == ref.generation
  {
    var t := ref.thread;
    SetStateSpec(r.states[i].threads[t].status, Suspended);
    assert t !in r.states[i].idle && StateOf(ref.generation) == Suspended;
    RunInv(r, m - 1);
    IdleFixed(r, i, m);
    hide Inv, Boot, Enabled, Apply, Generation, StateOf, SetState, TryWake;
    StatusAfter(r.states[m - 1], r.steps[m - 1], t);
    StatusUnique(r.states[m].threads[t].status, ref.generation);
  }

  /** If the thread's next transition suspends it, then from there on the reference wakes it, unless it
      already has or someone resumed or destroyed the thread. */
  lemma {:induction false} WakeNotLost(r: Run, i: nat, m: nat, j: nat, ref: ThreadRef)
    requires IsRun(r) && MadeAt(r, i, ref) && i < m <= j < |r.states|
    requires ref.thread in r.states[m - 1].threads && ref.thread in r.states[m].threads
    requires r.states[m - 1].threads[ref.thread].status == r.states[i].threads[ref.thread].status
    requires r.states[m].threads[ref.thread].status != r.states[i].threads[ref.thread].status
    requires r.states[m].threads[ref.thread].State() == Suspended
    requires forall k :: m <= k < j ==>
               r.steps[k] != Destroy(ref.thread) && !(r.steps[k].Resume? && r.steps[k].t == ref.thread)
    ensures ref.thread in r.states[j].threads
    ensures || TryWake(ref, r.states[j].threads[ref.thread].status).Woken?
            || exists k :: m <= k < j && r.steps[k].Wake? && r.steps[k].ref == ref
  {
    hide Inv, Boot, Enabled, Apply, Generation, StateOf, SetState, TryWake, MadeAt;
    BecomesRef(r, i, m, ref);
    WokenOrWakes(r, m, j, ref);
    TryWakeSpec(ref, r.states[j].threads[ref.thread].status);
  }

  lemma {:induction false} IdleFixed(r: Run, i: nat, j: nat)
    requires IsRun(r) && i <= j < |r.states|
    ensures r.states[i].idle == r.states[j].idle
    decreases j
  {
    if i < j {
      IdleFixed(r, i, j - 1);
      hide Inv, TryWake, Transition, SetState;
    }
  }

  lemma {:induction false} WokenOrWakes(r: Run, m: nat, j: nat, ref: ThreadRef)
    requires IsRun(r) && m <= j < |r.states| && ref.thread in r.states[m].threads && ref.thread !in r.states[m].idle
    requires r.states[m].threads[ref.thread].status == ref.generation && StateOf(ref.generation) == Suspended
    requires forall k :: m <= k < j ==>
               r.steps[k] != Destroy(ref.thread) && !(r.steps[k].Resume? && r.steps[k].t == ref.thread)
    ensures ref.thread in r.states[j].threads
    ensures || r.states[j].threads[ref.thread].status == ref.generation
            || exists k :: m <= k < j && r.steps[k].Wake? && r.steps[k].ref == ref
    decreases j
  {
    var t := ref.thread;
    GenerationsGrow(r, m, j, t);
    if k :| m <= k < j && EndsSuspension(r.steps[k], t) {
      FirstEnd(r, m, k, ref);
    } else {
      StaysSuspended(r, m, j, t);
    }
  }

  /** The first step that ends a suspension, if a wake, is a wake through a reference to it. */
  lemma {:induction false} FirstEnd(r: Run, m: nat, k: nat, ref: ThreadRef)
    requires IsRun(r) && m <= k < |r.steps| && ref.thread in r.states[m].threads && ref.thread !in r.states[m].idle
    requires r.states[m].threads[ref.thread].status == ref.generation && StateOf(ref.generation) == Suspended
    requires forall i :: m <= i <= k ==>
               r.steps[i] != Destroy(ref.thread) && !(r.steps[i].Resume? && r.steps[i].t == ref.thread)
    requires EndsSuspension(r.steps[k], ref.thread)
    ensures exists i :: m <= i <= k && r.steps[i].Wake? && r.steps[i].ref == ref
    decreases k
  {
    if i :| m <= i < k && EndsSuspension(r.steps[i], ref.thread) {
      FirstEnd(r, m, i, ref);
    } else {
      StaysSuspended(r, m, k, ref.thread);
      assert Enabled(r.states[k], r.steps[k]);
      assert r.steps[k].ref == ref;
    }
  }

  // ---------------------------------------------------------------------------
  // Between giving up the processor and having given it up
  // ---------------------------------------------------------------------------

  /** A thread that gave up its state to be suspended still has the status it then got exactly if nobody
      woke, resumed or destroyed it since; and then the reference made for its timeout after the switch,
      which must find it suspended, is to that very suspension. */
  lemma {:induction false} TimeoutRefMade(r: Run, i: nat, j: nat, t: Tid)
    requires IsRun(r) && i < j < |r.states| && r.steps[i].SetOld?
    requires var cpu := r.states[i].cpus[r.steps[i].cpu];
             cpu.target == Suspended && cpu.prev == t && t !in r.states[i].idle
    ensures t in r.states[i + 1].threads && t in r.states[j].threads
    ensures r.states[j].threads[t].status == r.states[i + 1].threads[t].status <==>
            forall k :: i < k < j ==> !EndsSuspension(r.steps[k], t)
    ensures r.states[j].threads[t].status == r.states[i + 1].threads[t].status ==>
              NewRef(t, r.states[j].threads[t].status) == Some(ThreadRef(t, r.states[i + 1].threads[t].status))
  {
    RunInv(r, i);
    StatusAfter(r.states[i], r.steps[i], t);
    IdleFixed(r, i, i + 1);
    GenerationsGrow(r, i + 1, j, t);
    if k :| i < k < j && EndsSuspension(r.steps[k], t) {
      EndChanges(r, i + 1, k, j, t);
    } else {
      StaysSuspended(r, i + 1, j, t);
    }
  }

  /** The step suspends the thread, on whichever processor it runs. */
  ghost predicate Suspends(s: State, step: Step, t: Tid) {
    && step.SetOld? && step.cpu < |s.cpus| && s.cpus[step.cpu].Chosen?
    && s.cpus[step.cpu].prev == t && s.cpus[step.cpu].target == Suspended
  }

  /** Step `k` suspends the thread, and nobody ends that suspension before `j`. */
  ghost predicate SuspendedSince(r: Run, k: nat, j: nat, t: Tid)
    requires k < j <= |r.steps| < |r.states|
  {
    Suspends(r.states[k], r.steps[k], t) && forall m :: k < m < j ==> !EndsSuspension(r.steps[m], t)
  }

  /** A thread that is suspended after having been suspended, awake, or both, in turns, was last suspended by
      some step. */
  lemma {:induction false} LastSuspended(r: Run, m: nat, j: nat, t: Tid) returns (k: nat)
    requires IsRun(r) && m < j < |r.states| && t in r.states[m].threads && Suspends(r.states[m], r.steps[m], t)
    requires t in r.states[j].threads && r.states[j].threads[t].State() == Suspended
    ensures m <= k < j && SuspendedSince(r, k, j, t)
    decreases j
  {
    var i := j - 1;
    GenerationsGrow(r, m, i, t);
    RunInv(r, i);
    assert Enabled(r.states[i], r.steps[i]);
    StatusAfter(r.states[i], r.steps[i], t);
    if Suspends(r.states[i], r.steps[i], t) {
      k := i;
    } else {
      StillSuspended(r.states[i], r.steps[i], t);
      k := LastSuspended(r, m, i, t);
    }
  }

  /** A step after which a thread is suspended, and which did not suspend it, left its suspension alone. */
  lemma {:induction false} StillSuspended(s: State, step: Step, t: Tid)
    requires Inv(s) && Enabled(s, step) && t in s.threads && t in Apply(s, step).threads
    requires Apply(s, step).threads[t].State() == Suspended && !Suspends(s, step, t)
    ensures s.threads[t].State() == Suspended && !EndsSuspension(step, t)
  {
    StatusAfter(s, step, t);
    hide StateOf, SetState, Generation, Apply;
  }

  /** What the reference for the timeout of a wait refers to, when it is made at `j`, for a wait that began at
      step `i`: the wait that the thread began last, which is that one or a later one; and none can be made, on
      which the kernel panics, exactly if the last wait was ended. */
  lemma {:induction false} TimeoutRefWhich(r: Run, i: nat, j: nat, t: Tid)
    requires IsRun(r) && i < j < |r.states| && Suspends(r.states[i], r.steps[i], t)
    ensures t in r.states[j].threads
    ensures NewRef(t, r.states[j].threads[t].status).Some? <==> exists k :: i <= k < j && SuspendedSince(r, k, j, t)
    ensures forall k :: i <= k < j && SuspendedSince(r, k, j, t) ==>
              && t in r.states[k + 1].threads
              && NewRef(t, r.states[j].threads[t].status) == Some(ThreadRef(t, r.states[k + 1].threads[t].status))
  {
    assert Enabled(r.states[i], r.steps[i]);
    GenerationsGrow(r, i, j, t);
    forall k | i <= k < j && SuspendedSince(r, k, j, t)
      ensures t in r.states[k + 1].threads
      ensures NewRef(t, r.states[j].threads[t].status) == Some(ThreadRef(t, r.states[k + 1].threads[t].status))
    {
      SinceRef(r, k, j, t);
    }
    if NewRef(t, r.states[j].threads[t].status).Some? { var k := LastSuspended(r, i, j, t); }
  }

  lemma {:induction false} SinceRef(r: Run, k: nat, j: nat, t: Tid)
    requires IsRun(r) && k < j < |r.states| && SuspendedSince(r, k, j, t)
    ensures t in r.states[k + 1].threads && t in r.states[j].threads
    ensures NewRef(t, r.states[j].threads[t].status) == Some(ThreadRef(t, r.states[k + 1].threads[t].status))
  {
    RunInv(r, k);
    var s, c := r.states[k], r.steps[k].cpu;
    assert Enabled(s, r.steps[k]) && CpuSane(s, s.cpus[c]);
    TimeoutRefMade(r, k, j, t);
  }

  lemma {:induction false} EndChanges(r: Run, m: nat, k: nat, j: nat, t: Tid)
    requires IsRun(r) && m <= k < j < |r.states| && t in r.states[m].threads && EndsSuspension(r.steps[k], t)
    ensures t in r.states[j].threads && r.states[j].threads[t].status != r.states[m].threads[t].status
  {
    GenerationsGrow(r, m, k, t);
    RunInv(r, k);
    assert Enabled(r.states[k], r.steps[k]) && Touched(r.states[k], r.steps[k]) == Some(t);
    hide Inv, Boot, Enabled, Apply, Touched;
    StatusAfter(r.states[k], r.steps[k], t);
    GenerationsGrow(r, k + 1, j, t);
  }

  /** The switch a processor is in the middle of has let go of a thread its own record still names as
      current. */
  ghost predicate LetGo(s: State, c: nat, t: Tid) {
    c < |s.cpus| && (s.cpus[c].OldSet? || s.cpus[c].NewSet?) && s.cpus[c].prev == t && s.cpus[c].action != InsertReady
  }

  ghost predicate Placed(s: State, t: Tid) { exists p :: ThreadAt(s, p) == Some(t) }

  /** The step wakes or resumes the thread. */
  predicate Takes(step: Step, t: Tid) { (step.Wake? && step.ref.thread == t) || (step.Resume? && step.t == t) }

  lemma {:induction false} PlacedStep(s: State, step: Step, t: Tid)
    requires Inv(s) && Enabled(s, step) && t in s.threads && !Placed(s, t)
    ensures Placed(Apply(s, step), t) <==> Takes(step, t)
    ensures t in Apply(s, step).threads
  {
    var s' := Apply(s, step);
    if Takes(step, t) {
      assert ThreadAt(s', Waking(step.op)) == Some(t);
    } else if p :| ThreadAt(s', p) == Some(t) {
      if !Arrives(step, p) { OriginSpec(s, step, p); }
    }
  }

  lemma {:induction false} StaysAway(r: Run, i: nat, j: nat, t: Tid)
    requires IsRun(r) && i <= j < |r.states| && t in r.states[i].threads && !Placed(r.states[i], t)
    requires forall k :: i <= k < j ==> !Takes(r.steps[k], t)
    ensures t in r.states[j].threads && !Placed(r.states[j], t)
    decreases j
  {
    if i < j {
      StaysAway(r, i, j - 1, t);
      RunInv(r, j - 1);
      PlacedStep(r.states[j - 1], r.steps[j - 1], t);
    }
  }

  /** From giving up the old thread's state to the end of the switch the record names that thread. */
  lemma {:induction false} LetGoUntilCommit(r: Run, i: nat, j: nat)
    requires IsRun(r) && i < j < |r.states| && r.steps[i].SetOld?
    requires r.states[i].cpus[r.steps[i].cpu].action != InsertReady
    requires forall k :: i < k < j ==> r.steps[k] != Commit(r.steps[i].cpu)
    ensures LetGo(r.states[j], r.steps[i].cpu, r.states[i].cpus[r.steps[i].cpu].prev)
    decreases j
  {
    var m := j - 1;
    assert Enabled(r.states[m], r.steps[m]) && r.states[j] == Apply(r.states[m], r.steps[m]);
    if i < m { LetGoUntilCommit(r, i, m); }
  }

  /** In every run, a thread whose processor gave up its state to suspend it or let it die comes to be
      somewhere again exactly if it is woken or resumed; as long as the switch has not ended, the processor
      still names it as its current thread then. */
  lemma {:induction false} LetGoTaken(r: Run, i: nat, j: nat, c: nat)
    requires IsRun(r) && i < j < |r.states| && r.steps[i] == SetOld(c) && r.states[i].cpus[c].target != Ready
    ensures var t := r.states[i].cpus[c].prev;
            && ((exists k :: i < k <= j && Placed(r.states[k], t)) <==> exists k :: i < k < j && Takes(r.steps[k], t))
            && ((forall k :: i < k < j ==> r.steps[k] != Commit(c)) ==> LetGo(r.states[j], c, t))
  {
    var t := r.states[i].cpus[c].prev;
    GivenUp(r, i, c);
    if forall k :: i < k < j ==> r.steps[k] != Commit(c) { LetGoUntilCommit(r, i, j); }
    if k :| i < k < j && Takes(r.steps[k], t) {
      TakenAt(r, k, t);
      assert Placed(r.states[k + 1], t);
    } else {
      forall k | i < k <= j ensures !Placed(r.states[k], t) { StaysAway(r, i + 1, k, t); }
    }
  }

  lemma {:induction false} TakenAt(r: Run, k: nat, t: Tid)
    requires IsRun(r) && k < |r.steps| && Takes(r.steps[k], t)
    ensures Placed(r.states[k + 1], t)
  {
    assert Enabled(r.states[k], r.steps[k]) && r.states[k + 1] == Apply(r.states[k], r.steps[k]);
    assert ThreadAt(r.states[k + 1], Waking(r.steps[k].op)) == Some(t);
  }

  lemma {:induction false} GivenUp(r: Run, i: nat, c: nat)
    requires IsRun(r) && i < |r.steps| && r.steps[i] == SetOld(c) && r.states[i].cpus[c].target != Ready
    ensures var cpu := r.states[i].cpus[c];
            && cpu.action != InsertReady && cpu.prev in r.states[i + 1].threads && !Placed(r.states[i + 1], cpu.prev)
  {
    RunInv(r, i);
    RunInv(r, i + 1);
    var s, cpu := r.states[i], r.states[i].cpus[c];
    assert CpuSane(s, cpu) && r.states[i + 1] == Apply(s, r.steps[i]);
    SetStateSpec(s.threads[cpu.prev].status, cpu.target);
    NowhereIfSuspended(r.states[i + 1], cpu.prev);
  }

  // ---------------------------------------------------------------------------
  // No thread is lost
  // ---------------------------------------------------------------------------

  /** Where the thread at `p` is after the step. */
  ghost function Destination(s: State, step: Step, p: Place): Option<Place> {
    match step
    case FindNone(_) => if p.Slot? then None else Some(p)
    case Choose(c, k, _, _) =>
      if !p.Slot? then Some(p)
      else if p.i < k then None
      else if p.i == k then Some(Incoming(c))
      else Some(Slot(p.i - k - 1))
    case SetOld(c) =>
      if p != Current(c) then Some(p)
      else if c < |s.cpus| && s.cpus[c].Chosen? && s.cpus[c].target == Ready then Some(Outgoing(c))
      else None
    case Commit(c) => if p == Incoming(c) then Some(Current(c)) else Some(p)
    case PostSwitch(c) => if p == Outgoing(c) then Some(Slot(|s.queue|)) else Some(p)
    case Insert(op) => if p == Waking(op) then Some(Slot(|s.queue|)) else Some(p)
    case Abandon(op) => if p == Waking(op) then None else Some(p)
    case _ => Some(p)
  }

  lemma {:induction false} DestinationSpec(s: State, step: Step, p: Place)
    requires Enabled(s, step) && Sane(s) && ThreadAt(s, p).Some? && Destination(s, step, p).Some?
    ensures ThreadAt(Apply(s, step), Destination(s, step, p).value) == ThreadAt(s, p)
  {
    hide TryWake, Transition, SetState, NewRef, FutureRef, Runnable, StateOf;
    if p.Slot? || p.Waking? {
      DestinationWaiting(s, step, p);
    } else {
      DestinationOnCpu(s, step, p);
    }
  }

  lemma {:induction false} DestinationWaiting(s: State, step: Step, p: Place)
    requires Enabled(s, step) && ThreadAt(s, p).Some? && Destination(s, step, p).Some? && (p.Slot? || p.Waking?)
    ensures ThreadAt(Apply(s, step), Destination(s, step, p).value) == ThreadAt(s, p)
  {
    hide TryWake, Transition, SetState, NewRef, FutureRef, Runnable, StateOf;
  }

  lemma {:induction false} DestinationOnCpu(s: State, step: Step, p: Place)
    requires Enabled(s, step) && Sane(s) && ThreadAt(s, p).Some? && Destination(s, step, p).Some?
    requires !p.Slot? && !p.Waking?
    ensures ThreadAt(Apply(s, step), Destination(s, step, p).value) == ThreadAt(s, p)
  {
    hide TryWake, Transition, SetState, NewRef, FutureRef, Runnable, StateOf;
  }

  /** The step takes the thread from where it is: its processor gives it up to suspend it or let it die, its
      waker gives up on it, or it is dead and queued before the thread that is chosen, or in a queue of dead
      threads. */
  ghost predicate Leaves(s: State, step: Step, t: Tid) {
    match step
    case SetOld(c) => c < |s.cpus| && s.cpus[c].Chosen? && s.cpus[c].prev == t && s.cpus[c].target != Ready
    case Abandon(op) => op in s.waking && s.waking[op] == t
    case Choose(_, k, _, _) => exists i :: 0 <= i < k && i < |s.queue| && s.queue[i] == t && !Runnable(s, t)
    case FindNone(_) => t in s.queue && !Runnable(s, t)
    case _ => false
  }

  lemma {:induction false} NoneLeaves(s: State, step: Step, p: Place)
    requires Enabled(s, step) && ThreadAt(s, p).Some?
    ensures Destination(s, step, p).None? ==> Leaves(s, step, ThreadAt(s, p).value)
  {
    hide TryWake, Transition, SetState, NewRef, FutureRef, StateOf;
  }

  lemma {:induction false} LeavesFrom(s: State, step: Step, t: Tid) returns (p: Place)
    requires Enabled(s, step) && Leaves(s, step, t)
    ensures ThreadAt(s, p) == Some(t) && Destination(s, step, p).None?
  {
    hide TryWake, Transition, SetState, NewRef, FutureRef, StateOf;
    match step
    case SetOld(c) => p := Current(c);
    case Abandon(op) => p := Waking(op);
    case Choose(_, k, _, _) =>
      var i :| 0 <= i < k && i < |s.queue| && s.queue[i] == t;
      p := Slot(i);
    case FindNone(_) =>
      var i :| 0 <= i < |s.queue| && s.queue[i] == t;
      p := Slot(i);
  }

  /** What is somewhere after a step, and did not arrive, came from where its origin says and goes on from there. */
  lemma {:induction false} OriginGoesOn(s: State, step: Step, p: Place)
    requires Enabled(s, step) && Sane(s) && ThreadAt(Apply(s, step), p).Some? && !Arrives(step, p)
    ensures Destination(s, step, Origin(s, step, p)).Some?
  {
    hide TryWake, Transition, SetState, NewRef, FutureRef, Runnable, StateOf;
  }

  /** A thread that is somewhere is somewhere after the step, exactly unless the step takes it away. */
  lemma {:induction false} KeptUnlessLeaves(s: State, step: Step, t: Tid)
    requires Inv(s) && Enabled(s, step) && Placed(s, t)
    ensures Placed(Apply(s, step), t) <==> !Leaves(s, step, t)
  {
    hide Enabled, Apply, ThreadAt, Destination, Leaves, Origin, Arrives, StatesFit, Sane;
    var p :| ThreadAt(s, p) == Some(t);
    NoneLeaves(s, step, p);
    if !Leaves(s, step, t) {
      DestinationSpec(s, step, p);
    } else if Placed(Apply(s, step), t) {
      var q :| ThreadAt(Apply(s, step), q) == Some(t);
      if Arrives(step, q) {
        ArrivesFromNowhere(s, step, q);
      } else {
        OriginSpec(s, step, q);
        OriginGoesOn(s, step, q);
        var u := LeavesFrom(s, step, t);
      }
    }
  }

  /** Some step before `n` gave up on queueing the thread. */
  ghost predicate Abandoned(r: Run, n: nat, t: Tid)
    requires n <= |r.steps| < |r.states|
  {
    exists i :: 0 <= i < n && r.steps[i].Abandon? && Leaves(r.states[i], r.steps[i], t)
  }

  /** The thread is running, or is alive and ready and was not given up. */
  ghost predicate Due(s: State, t: Tid) {
    t in s.threads && (s.threads[t].State() == Running || (s.threads[t].State() == Ready && s.threads[t].alive))
  }

  /** A thread that is due after a step was due before it and is not taken away, or is put somewhere by it. */
  lemma {:induction false} DueStep(s: State, step: Step, t: Tid)
    requires Inv(s) && Enabled(s, step) && Due(Apply(s, step), t)
    ensures Placed(Apply(s, step), t) || (Due(s, t) && (Leaves(s, step, t) ==> step.Abandon?))
  {
    var s' := Apply(s, step);
    if t !in s.threads {
      NewThread(s, step, t);
    } else if Touched(s, step) == Some(t) {
      PutByTouch(s, step, t);
    } else {
      StatusAfter(s, step, t);
      AliveBefore(s, step, t);
      if Leaves(s, step, t) { DeadOrTouched(s, step, t); }
    }
  }

  lemma {:induction false} NewThread(s: State, step: Step, t: Tid)
    requires Enabled(s, step) && t !in s.threads && Due(Apply(s, step), t)
    ensures Placed(Apply(s, step), t)
  {
    assert step.Create? && step.t == t;
    SetStateSpec(2, Suspended);
    assert ThreadAt(Apply(s, step), Waking(step.op)) == Some(t);
  }

  lemma {:induction false} PutByTouch(s: State, step: Step, t: Tid)
    requires Inv(s) && Enabled(s, step) && t in s.threads && Touched(s, step) == Some(t) && Due(Apply(s, step), t)
    ensures Placed(Apply(s, step), t)
  {
    var s' := Apply(s, step);
    StatusAfter(s, step, t);
    match step
    case SetOld(c) =>
      assert CpuSane(s, s.cpus[c]) && s.cpus[c].target == Ready;
      assert ThreadAt(s', Outgoing(c)) == Some(t);
    case SetNew(c) => assert ThreadAt(s', Incoming(c)) == Some(t);
    case Wake(op, _) => assert ThreadAt(s', Waking(op)) == Some(t);
    case Resume(op, _) => assert ThreadAt(s', Waking(op)) == Some(t);
    case Destroy(_) =>
  }

  /** A thread comes by being created, alive, and stays; it is alive until it is killed. */
  lemma {:induction false} AliveBefore(s: State, step: Step, t: Tid)
    requires Enabled(s, step)
    ensures t in Apply(s, step).threads <==> t in s.threads || (step.Create? && step.t == t)
    ensures t in Apply(s, step).threads ==>
              (Apply(s, step).threads[t].alive <==> step != Kill(t) && (t in s.threads ==> s.threads[t].alive))
  {
    hide TryWake, Transition, SetState, NewRef, FutureRef, StateOf, Runnable;
  }

  /** In the queue, the first thread that is alive is at `k`. */
  ghost predicate FirstAlive(s: State, k: nat) {
    && k < |s.queue| && (forall i :: 0 <= i <= k ==> s.queue[i] in s.threads)
    && s.threads[s.queue[k]].alive && forall i :: 0 <= i < k ==> !s.threads[s.queue[i]].alive
  }

  /** No processor is ever stuck. One that runs a thread can take up the first queued thread that is alive, and
      only that one, or finds none exactly when there is none; one that is switching can go on, except that setting
      a timeout for a thread that is no longer suspended fails. */
  lemma {:induction false} NoneStuck(s: State, c: nat)
    requires Inv(s) && c < |s.cpus|
    ensures s.cpus[c].Runs? ==> (Enabled(s, FindNone(c)) <==> !exists k: nat :: FirstAlive(s, k))
    ensures s.cpus[c].Runs? ==>
              forall k: nat ::
                && (Enabled(s, Choose(c, k, Ready, InsertReady)) <==> FirstAlive(s, k))
                && (s.cpus[c].cur !in s.idle ==>
                      && (Enabled(s, Choose(c, k, Suspended, NoAction)) <==> FirstAlive(s, k))
                      && (Enabled(s, Choose(c, k, Suspended, SetTimeout)) <==> FirstAlive(s, k))
                      && (Enabled(s, Choose(c, k, Dead, NoAction)) <==> FirstAlive(s, k)))
    ensures s.cpus[c].Chosen? ==> Enabled(s, SetOld(c))
    ensures s.cpus[c].OldSet? ==> Enabled(s, SetNew(c))
    ensures s.cpus[c].NewSet? ==> Enabled(s, Commit(c))
    ensures s.cpus[c].Switched? ==>
              (Enabled(s, PostSwitch(c)) <==>
                 (s.cpus[c].action == SetTimeout ==>
                    s.cpus[c].prev in s.threads && s.threads[s.cpus[c].prev].State() == Suspended))
  {
    forall i: nat | i < |s.queue| ensures s.queue[i] in s.threads { QueuedFits(s, i); }
    if s.cpus[c].Runs? {
      FirstOrNone(s, 0);
    } else {
      OnCpuKnown(s, c);
    }
    hide Inv;
  }

  lemma {:induction false} FirstOrNone(s: State, n: nat)
    requires n <= |s.queue| && forall i :: 0 <= i < |s.queue| ==> s.queue[i] in s.threads
    requires forall i :: 0 <= i < n ==> !s.threads[s.queue[i]].alive
    ensures (exists k: nat :: FirstAlive(s, k)) <==> exists i :: 0 <= i < |s.queue| && s.threads[s.queue[i]].alive
    decreases |s.queue| - n
  {
    if n < |s.queue| {
      if s.threads[s.queue[n]].alive { assert FirstAlive(s, n); } else { FirstOrNone(s, n + 1); }
    }
  }

  lemma {:induction false} OnCpuKnown(s: State, c: nat)
    requires Inv(s) && c < |s.cpus|
    ensures s.cpus[c].Chosen? ==> s.cpus[c].prev in s.threads
    ensures s.cpus[c].OldSet? ==> s.cpus[c].next in s.threads
  {
    assert ThreadAt(s, Current(c)).Some? ==> StateFits(s, Current(c), ThreadAt(s, Current(c)).value);
    assert ThreadAt(s, Incoming(c)).Some? ==> StateFits(s, Incoming(c), ThreadAt(s, Incoming(c)).value);
  }

  /** What can be done to a thread from outside: a woken one can be inserted or given up, any can be killed, one that
      is suspended can be resumed or destroyed, and one whose wait is the one a reference was made for can be
      woken. */
  lemma {:induction false} ThreadsReachable(s: State, t: Tid, op: Op, ref: ThreadRef)
    requires Inv(s)
    ensures op in s.waking ==> Enabled(s, Insert(op)) && Enabled(s, Abandon(op))
    ensures t in s.threads ==> Enabled(s, Kill(t))
    ensures t in s.threads && t !in s.idle ==> (Enabled(s, Destroy(t)) <==> s.threads[t].State() == Suspended)
    ensures t in s.threads && t !in s.idle && op !in s.waking ==>
              (Enabled(s, Resume(op, t)) <==> s.threads[t].State() == Suspended)
    ensures ref in s.refs && op !in s.waking ==>
              (Enabled(s, Wake(op, ref)) <==> ref.thread in s.threads && s.threads[ref.thread].status == ref.generation)
    ensures t !in s.threads && t !in s.idle && op !in s.waking ==>
              Enabled(s, Create(op, t, true)) && Enabled(s, Create(op, t, false))
  {
    hide SetState, StateOf;
  }

  /** A thread that is due leaves only by being suspended or given up. */
  lemma {:induction false} DeadOrTouched(s: State, step: Step, t: Tid)
    requires Inv(s) && Enabled(s, step) && t in s.threads && Leaves(s, step, t) && Due(s, t)
    ensures step.Abandon? || Touched(s, step) == Some(t)
  {
    if step.Choose? || step.FindNone? {
      var i :| 0 <= i < |s.queue| && s.queue[i] == t;
      QueuedFits(s, i);
    }
  }

  lemma {:induction false} QueuedFits(s: State, i: nat)
    requires StatesFit(s) && i < |s.queue|
    ensures s.queue[i] in s.threads && s.threads[s.queue[i]].State() == Ready
  {
    assert ThreadAt(s, Slot(i)) == Some(s.queue[i]);
    assert StateFits(s, Slot(i), s.queue[i]);
  }

  /** In every run, every thread that is running, or is alive and ready and was not given up by its waker, is at
      exactly one place: none is lost, and none is in two. */
  lemma {:induction false} NoneLost(r: Run, n: nat, t: Tid)
    requires IsRun(r) && n < |r.states| && Due(r.states[n], t) && !Abandoned(r, n, t)
    ensures Placed(r.states[n], t)
    ensures forall p, q :: ThreadAt(r.states[n], p) == Some(t) == ThreadAt(r.states[n], q) ==> p == q
    decreases n
  {
    RunInv(r, n);
    if n == 0 {
      BootDue(r.states[0], t);
    } else {
      var m := n - 1;
      RunInv(r, m);
      assert Enabled(r.states[m], r.steps[m]) && r.states[n] == Apply(r.states[m], r.steps[m]);
      DueStep(r.states[m], r.steps[m], t);
      hide Enabled, Apply, Due, Inv, Leaves, Placed;
      if !Placed(r.states[n], t) {
        NoneLost(r, m, t);
        KeptUnlessLeaves(r.states[m], r.steps[m], t);
      }
    }
  }

  /** At boot every thread is a processor's own. */
  lemma {:induction false} BootDue(s: State, t: Tid)
    requires Boot(s)
    ensures t in s.threads ==> Placed(s, t)
  {
    if t in s.threads {
      var c :| 0 <= c < |s.cpus| && s.cpus[c] == Runs(t);
      assert ThreadAt(s, Current(c)) == Some(t);
    }
  }

  /** The threads queued keep their order; only dead ones, and the one chosen, leave from the front, and at most
      one joins, at the end. */
  lemma {:induction false} QueueOrder(s: State, step: Step) returns (j: nat)
    requires Enabled(s, step)
    ensures j <= |s.queue| && s.queue[j..] <= Apply(s, step).queue && |Apply(s, step).queue| <= |s.queue| - j + 1
    ensures forall i :: 0 <= i < j ==>
              || !Runnable(s, s.queue[i])
              || (step.Choose? && i == j - 1 && Apply(s, step).cpus[step.cpu].next == s.queue[i])
    ensures j > 0 ==> step.Choose? || step.FindNone?
    ensures |Apply(s, step).queue| > |s.queue| - j ==> step.Insert? || step.PostSwitch?
  {
    j := if step.Choose? then step.skip + 1 else if step.FindNone? then |s.queue| else 0;
    hide TryWake, Transition, SetState, NewRef, FutureRef, StateOf;
  }

  // ---------------------------------------------------------------------------
  // A run in which a wake overtakes the switch
  // ---------------------------------------------------------------------------

  ghost function Extend(r: Run, step: Step): Run
    requires |r.states| > 0 && Enabled(r.states[|r.states| - 1], step)
  {
    Run(r.states + [Apply(r.states[|r.states| - 1], step)], r.steps + [step])
  }

  lemma {:induction false} ExtendRun(r: Run, step: Step)
    requires IsRun(r) && Enabled(r.states[|r.states| - 1], step)
    ensures IsRun(Extend(r, step))
  {
    hide Enabled, Apply, Boot;
  }

  /** Two processors, the second idle; thread 2 beside the idle threads 0 and 1. */
  ghost function Scene(idle0: nat, two: nat, cpu: Cpu, queue: seq<Tid>, waking: map<Op, Tid>,
                       refs: set<ThreadRef>): State {
    var threads := map[0 := Thread(idle0, true), 1 := Thread(2, true), 2 := Thread(two, true)];
    State(threads, {0, 1}, [cpu, Runs(1)], queue, waking, refs)
  }

  ghost function BootScene(): State {
    State(map[0 := Thread(2, true), 1 := Thread(2, true)], {0, 1}, [Runs(0), Runs(1)], [], map[], {})
  }

  lemma {:induction false} BootRun() returns (r: Run)
    ensures Ends(r, BootScene())
  {
    var s := BootScene();
    r := Run([s], []);
    assert s.cpus[0] == Runs(0) && s.cpus[1] == Runs(1);
    assert Boot(s);
  }

  ghost predicate Ends(r: Run, s: State) { IsRun(r) && r.states[|r.states| - 1] == s }

  /** Appends a step whose result is known. */
  lemma {:induction false} Then(r: Run, s: State, step: Step, s': State) returns (r': Run)
    requires Ends(r, s) && Enabled(s, step) && Apply(s, step) == s'
    ensures Ends(r', s') && |r'.states| == |r.states| + 1 && r'.states[..|r.states|] == r.states
    ensures r'.steps == r.steps + [step]
  {
    hide Enabled, Apply;
    r' := Extend(r, step);
    ExtendRun(r, step);
  }

  lemma {:induction false} Spawn() returns (r: Run)
    ensures Ends(r, Scene(2, 5, Chosen(0, 2, Ready, InsertReady), [], map[], {}))
  {
    var s := BootScene();
    r := BootRun();
    hide Ends, Boot;
    r := Then(r, s, Create(0, 2, true), Scene(2, 5, Runs(0), [], map[0 := 2], {}));
    s := Scene(2, 5, Runs(0), [], map[0 := 2], {});
    r := Then(r, s, Insert(0), Scene(2, 5, Runs(0), [2], map[], {}));
    s := Scene(2, 5, Runs(0), [2], map[], {});
    r := Then(r, s, Choose(0, 0, Ready, InsertReady), Scene(2, 5, Chosen(0, 2, Ready, InsertReady), [], map[], {}));
    s := Scene(2, 5, Chosen(0, 2, Ready, InsertReady), [], map[], {});
  }

  /** Thread 2 is switched to for the first time, on processor 0. */
  lemma {:induction false} FirstSwitch() returns (r: Run)
    ensures Ends(r, Scene(5, 8, NewSet(0, 2, InsertReady), [], map[], {}))
  {
    hide Ends;
    r := Spawn();
    var s := Scene(2, 5, Chosen(0, 2, Ready, InsertReady), [], map[], {});
    r := Then(r, s, SetOld(0), Scene(5, 5, OldSet(0, 2, InsertReady), [], map[], {}));
    s := Scene(5, 5, OldSet(0, 2, InsertReady), [], map[], {});
    r := Then(r, s, SetNew(0), Scene(5, 8, NewSet(0, 2, InsertReady), [], map[], {}));
  }

  /** It runs there, and refers to its coming suspension. */
  lemma {:induction false} RunAndRefer() returns (r: Run)
    ensures Ends(r, Scene(5, 8, Runs(2), [0], map[], {ThreadRef(2, 14)}))
  {
    hide Ends;
    r := FirstSwitch();
    var s := Scene(5, 8, NewSet(0, 2, InsertReady), [], map[], {});
    r := Then(r, s, Commit(0), Scene(5, 8, Switched(2, 0, InsertReady), [], map[], {}));
    s := Scene(5, 8, Switched(2, 0, InsertReady), [], map[], {});
    r := Then(r, s, PostSwitch(0), Scene(5, 8, Runs(2), [0], map[], {}));
    s := Scene(5, 8, Runs(2), [0], map[], {});
    r := Then(r, s, MakeFutureRef(0), Scene(5, 8, Runs(2), [0], map[], {ThreadRef(2, 14)}));
  }

  /** The wake can come between the two halves of the switch: thread 2 is then already with its waker
      while processor 0 still records it as current; and when the switch ends, the reference for its
      timeout finds it not suspended, on which the kernel panics. */
  lemma {:induction false} WakeOvertakesSwitch() returns (r: Run, i: nat, s: State)
    ensures IsRun(r) && i < |r.states| && LetGo(r.states[i], 0, 2) && ThreadAt(r.states[i], Waking(0)) == Some(2)
    ensures s == r.states[|r.states| - 1] && 2 in s.threads && NewRef(2, s.threads[2].status).None?
    ensures |s.cpus| == 2 && s.cpus[0] == Switched(0, 2, SetTimeout)
  {
    hide Ends;
    var j;
    r, j := SuspendAndWake();
    s := Both(5, 2, 17, OldSet(2, 0, SetTimeout), Runs(1), [], map[0 := 2], {ThreadRef(2, 14)});
    i := LastStep(r, s);
    assert LetGo(s, 0, 2) && ThreadAt(s, Waking(0)) == Some(2);
    r, s := Finish(r, i, s);
    var n := LastStep(r, s);
  }

  lemma {:induction false} Finish(r: Run, i: nat, s: State) returns (r': Run, s': State)
    requires Ends(r, s) && i == |r.states| - 1
    requires s == Both(5, 2, 17, OldSet(2, 0, SetTimeout), Runs(1), [], map[0 := 2], {ThreadRef(2, 14)})
    ensures Ends(r', s') && i < |r'.states| && r'.states[i] == s
    ensures s' == Both(8, 2, 17, Switched(0, 2, SetTimeout), Runs(1), [], map[0 := 2], {ThreadRef(2, 14)})
  {
    var n := LastStep(r, s);
    hide Ends;
    var refs := {ThreadRef(2, 14)};
    r' := Then(r, s, SetNew(0), Both(8, 2, 17, NewSet(2, 0, SetTimeout), Runs(1), [], map[0 := 2], refs));
    s' := Both(8, 2, 17, NewSet(2, 0, SetTimeout), Runs(1), [], map[0 := 2], refs);
    r' := Then(r', s', Commit(0), Both(8, 2, 17, Switched(0, 2, SetTimeout), Runs(1), [], map[0 := 2], refs));
    s' := Both(8, 2, 17, Switched(0, 2, SetTimeout), Runs(1), [], map[0 := 2], refs);
  }

  /** The same threads while both processors are at work. */
  ghost function Both(idle0: nat, idle1: nat, two: nat, cpu0: Cpu, cpu1: Cpu, queue: seq<Tid>, waking: map<Op, Tid>,
                      refs: set<ThreadRef>): State {
    State(map[0 := Thread(idle0, true), 1 := Thread(idle1, true), 2 := Thread(two, true)], {0, 1}, [cpu0, cpu1],
          queue, waking, refs)
  }

  /** Thread 2 is suspended on processor 0 with a timeout, and woken before the switch ends. */
  lemma {:induction false} SuspendAndWake() returns (r: Run, i: nat)
    ensures Ends(r, Both(5, 2, 17, OldSet(2, 0, SetTimeout), Runs(1), [], map[0 := 2], {ThreadRef(2, 14)}))
    ensures i < |r.steps| && r.steps[i] == SetOld(0) && Suspends(r.states[i], r.steps[i], 2)
    ensures r.states[i].cpus[0].action == SetTimeout
    ensures 2 in r.states[i + 1].threads && r.states[i + 1].threads[2].status == 14
  {
    hide Ends;
    var refs := {ThreadRef(2, 14)};
    r := BeginWait();
    var s := Both(5, 2, 8, Chosen(2, 0, Suspended, SetTimeout), Runs(1), [], map[], refs);
    i := LastStep(r, s);
    r := Then(r, s, SetOld(0), Both(5, 2, 14, OldSet(2, 0, SetTimeout), Runs(1), [], map[], refs));
    s := Both(5, 2, 14, OldSet(2, 0, SetTimeout), Runs(1), [], map[], refs);
    var n := LastStep(r, s);
    r := Then(r, s, Wake(0, ThreadRef(2, 14)),
              Both(5, 2, 17, OldSet(2, 0, SetTimeout), Runs(1), [], map[0 := 2], refs));
  }

  lemma {:induction false} BeginWait() returns (r: Run)
    ensures Ends(r, Both(5, 2, 8, Chosen(2, 0, Suspended, SetTimeout), Runs(1), [], map[], {ThreadRef(2, 14)}))
  {
    hide Ends;
    var refs := {ThreadRef(2, 14)};
    r := RunAndRefer();
    var s := Both(5, 2, 8, Runs(2), Runs(1), [0], map[], refs);
    assert Scene(5, 8, Runs(2), [0], map[], refs) == s;
    r := Then(r, s, Choose(0, 0, Suspended, SetTimeout),
              Both(5, 2, 8, Chosen(2, 0, Suspended, SetTimeout), Runs(1), [], map[], refs));
  }

  lemma {:induction false} LastStep(r: Run, s: State) returns (i: nat)
    requires Ends(r, s)
    ensures IsRun(r) && i == |r.steps| == |r.states| - 1 && r.states[i] == s
  {
    i := |r.steps|;
  }

  /** Meanwhile processor 1 takes it up. */
  lemma {:induction false} TakeUp(r: Run) returns (r': Run)
    requires Ends(r, Both(5, 2, 17, OldSet(2, 0, SetTimeout), Runs(1), [], map[0 := 2], {ThreadRef(2, 14)}))
    ensures Ends(r', Both(5, 5, 20, OldSet(2, 0, SetTimeout), NewSet(1, 2, InsertReady), [], map[], {ThreadRef(2, 14)}))
    ensures r.steps <= r'.steps && r.states <= r'.states
  {
    hide Ends;
    var refs, cpu := {ThreadRef(2, 14)}, OldSet(2, 0, SetTimeout);
    r' := r;
    var s := Both(5, 2, 17, cpu, Runs(1), [], map[0 := 2], refs);
    r' := Then(r', s, Insert(0), Both(5, 2, 17, cpu, Runs(1), [2], map[], refs));
    s := Both(5, 2, 17, cpu, Runs(1), [2], map[], refs);
    r' := Then(r', s, Choose(1, 0, Ready, InsertReady),
               Both(5, 2, 17, cpu, Chosen(1, 2, Ready, InsertReady), [], map[], refs));
    s := Both(5, 2, 17, cpu, Chosen(1, 2, Ready, InsertReady), [], map[], refs);
    r' := Then(r', s, SetOld(1), Both(5, 5, 17, cpu, OldSet(1, 2, InsertReady), [], map[], refs));
    s := Both(5, 5, 17, cpu, OldSet(1, 2, InsertReady), [], map[], refs);
    r' := Then(r', s, SetNew(1), Both(5, 5, 20, cpu, NewSet(1, 2, InsertReady), [], map[], refs));
  }

  /** There it suspends itself again, without a timeout. */
  lemma {:induction false} SuspendAgain(r: Run) returns (r': Run)
    requires Ends(r, Both(5, 5, 20, OldSet(2, 0, SetTimeout), NewSet(1, 2, InsertReady), [], map[], {ThreadRef(2, 14)}))
    ensures Ends(r', Both(5, 5, 26, OldSet(2, 0, SetTimeout), OldSet(2, 1, NoAction), [], map[], {ThreadRef(2, 14)}))
    ensures r.steps <= r'.steps && r.states <= r'.states
  {
    hide Ends;
    var refs, cpu := {ThreadRef(2, 14)}, OldSet(2, 0, SetTimeout);
    r' := r;
    var s := Both(5, 5, 20, cpu, NewSet(1, 2, InsertReady), [], map[], refs);
    r' := Then(r', s, Commit(1), Both(5, 5, 20, cpu, Switched(2, 1, InsertReady), [], map[], refs));
    s := Both(5, 5, 20, cpu, Switched(2, 1, InsertReady), [], map[], refs);
    r' := Then(r', s, PostSwitch(1), Both(5, 5, 20, cpu, Runs(2), [1], map[], refs));
    s := Both(5, 5, 20, cpu, Runs(2), [1], map[], refs);
    r' := Then(r', s, Choose(1, 0, Suspended, NoAction),
               Both(5, 5, 20, cpu, Chosen(2, 1, Suspended, NoAction), [], map[], refs));
    s := Both(5, 5, 20, cpu, Chosen(2, 1, Suspended, NoAction), [], map[], refs);
    r' := Then(r', s, SetOld(1), Both(5, 5, 26, cpu, OldSet(2, 1, NoAction), [], map[], refs));
  }

  /** The switch on processor 0 ends, and the reference for the timeout of the first wait is made. */
  lemma {:induction false} ReferLate(r: Run) returns (r': Run)
    requires Ends(r, Both(5, 5, 26, OldSet(2, 0, SetTimeout), OldSet(2, 1, NoAction), [], map[], {ThreadRef(2, 14)}))
    ensures Ends(r', Both(8, 5, 26, Runs(0), OldSet(2, 1, NoAction), [], map[], {ThreadRef(2, 14), ThreadRef(2, 26)}))
    ensures r.states <= r'.states && |r'.states| == |r'.steps| + 1
    ensures r.steps < r'.steps && r'.steps[|r'.steps| - 1] == PostSwitch(0)
    ensures r'.states[|r'.steps| - 1].refs == {ThreadRef(2, 14)}
  {
    hide Ends;
    var refs, cpu := {ThreadRef(2, 14)}, OldSet(2, 1, NoAction);
    r' := r;
    var s := Both(5, 5, 26, OldSet(2, 0, SetTimeout), cpu, [], map[], refs);
    r' := Then(r', s, SetNew(0), Both(8, 5, 26, NewSet(2, 0, SetTimeout), cpu, [], map[], refs));
    s := Both(8, 5, 26, NewSet(2, 0, SetTimeout), cpu, [], map[], refs);
    r' := Then(r', s, Commit(0), Both(8, 5, 26, Switched(0, 2, SetTimeout), cpu, [], map[], refs));
    s := Both(8, 5, 26, Switched(0, 2, SetTimeout), cpu, [], map[], refs);
    var n := LastStep(r', s);
    r' := Then(r', s, PostSwitch(0), Both(8, 5, 26, Runs(0), cpu, [], map[], {ThreadRef(2, 14), ThreadRef(2, 26)}));
  }

  /** The timeout of a wait that is over can refer to another wait: thread 2 waits with a timeout (status 14),
      is woken before its switch ends, waits again without a timeout on the other processor (status 26), and
      only then the reference for its timeout is made, to the second wait. */
  lemma {:induction false} TimeoutOfAnotherWait() returns (r: Run, i: nat)
    ensures IsRun(r) && i + 1 < |r.steps| && r.steps[i] == SetOld(0) && Suspends(r.states[i], r.steps[i], 2)
    ensures r.states[i].cpus[0].action == SetTimeout
    ensures 2 in r.states[i + 1].threads && r.states[i + 1].threads[2].status == 14
    ensures r.steps[|r.steps| - 1] == PostSwitch(0)
    ensures var s := r.states[|r.steps|];
            && 2 in s.threads && s.threads[2].status == 26 && ThreadRef(2, 26) in s.refs
            && ThreadRef(2, 26) !in r.states[|r.steps| - 1].refs
  {
    r, i := SuspendAndWake();
    r := TakeUp(r);
    r := SuspendAgain(r);
    r := ReferLate(r);
  }
}
