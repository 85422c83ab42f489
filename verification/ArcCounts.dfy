/** `Arc` and `Weak` as interleaved atomic steps on the strong and the weak count of one block. */
module ArcCounts {
  type Handle = nat
  type Op = nat

  const MAX_REFCOUNT: nat := 0x7fff_ffff_ffff_ffff

  /** A drop that took the strong count to zero has yet to drop the data, then the weak reference that
      all the `Arc`s own together. */
  datatype Phase = DropsData | DropsWeak

  /** An upgrade under way on a `Weak`, and the strong count it last saw. */
  datatype Upgrade = Upgrade(weak: Handle, seen: int)

  datatype State = State(strong: int, weak: int, arcs: set<Handle>, weaks: set<Handle>, upgrades: map<Op, Upgrade>,
                         dropping: map<Op, Phase>, freeing: set<Op>, dataDrops: nat, frees: nat)

  datatype Step =
    | CloneArc(arc: Handle, new_: Handle)
    | Downgrade(arc: Handle, new_: Handle)
    | CloneWeak(weak: Handle, new_: Handle)
    | DropArc(arc: Handle, op: Op)
    | DropData(op: Op)
    | DropOwnWeak(op: Op)
    | DropWeak(weak: Handle, op: Op)
    | Free(op: Op)
    | StartUpgrade(weak: Handle, op: Op)
    | TryUpgrade(op: Op, new_: Handle, spurious: bool)

  /** A handle is used only by its owner, and not dropped while an upgrade borrows it. A clone past the
      limit panics and is no step. The compare-exchange of an upgrade may fail spuriously. */
  predicate Enabled(s: State, step: Step) {
    match step
    case CloneArc(a, f) => a in s.arcs && f !in s.arcs && s.strong <= MAX_REFCOUNT
    case Downgrade(a, f) => a in s.arcs && f !in s.weaks
    case CloneWeak(w, f) => w in s.weaks && f !in s.weaks && s.weak <= MAX_REFCOUNT
    case DropArc(a, op) => a in s.arcs && op !in s.dropping
    case DropData(op) => op in s.dropping && s.dropping[op].DropsData?
    case DropOwnWeak(op) => op in s.dropping && s.dropping[op].DropsWeak? && op !in s.freeing
    case DropWeak(w, op) =>
      w in s.weaks && op !in s.freeing && forall o :: o in s.upgrades ==> s.upgrades[o].weak != w
    case Free(op) => op in s.freeing
    case StartUpgrade(w, op) => w in s.weaks && op !in s.upgrades
    case TryUpgrade(op, f, _) => op in s.upgrades && f !in s.arcs && s.upgrades[op].seen <= MAX_REFCOUNT
  }

  /** The compare-exchange of an upgrade goes through. */
  predicate Upgrades(s: State, op: Op, spurious: bool)
    requires op in s.upgrades
  {
    s.upgrades[op].seen != 0 && s.upgrades[op].seen == s.strong && !spurious
  }

  function Apply(s: State, step: Step): State
    requires Enabled(s, step)
  {
    match step
    case CloneArc(_, f) => s.(strong := s.strong + 1, arcs := s.arcs + {f})
    case Downgrade(_, f) => s.(weak := s.weak + 1, weaks := s.weaks + {f})
    case CloneWeak(_, f) => s.(weak := s.weak + 1, weaks := s.weaks + {f})
    case DropArc(a, op) =>
      s.(strong := s.strong - 1, arcs := s.arcs - {a},
         dropping := if s.strong == 1 then s.dropping[op := DropsData] else s.dropping)
    case DropData(op) => s.(dataDrops := s.dataDrops + 1, dropping := s.dropping[op := DropsWeak])
    case DropOwnWeak(op) =>
      s.(weak := s.weak - 1, dropping := s.dropping - {op},
         freeing := if s.weak == 1 then s.freeing + {op} else s.freeing)
    case DropWeak(w, op) =>
      s.(weak := s.weak - 1, weaks := s.weaks - {w}, freeing := if s.weak == 1 then s.freeing + {op} else s.freeing)
    case Free(op) => s.(frees := s.frees + 1, freeing := s.freeing - {op})
    case StartUpgrade(w, op) => s.(upgrades := s.upgrades[op := Upgrade(w, s.strong)])
    case TryUpgrade(op, f, spurious) =>
      if s.upgrades[op].seen == 0 then s.(upgrades := s.upgrades - {op})
      else if Upgrades(s, op, spurious) then
        s.(strong := s.strong + 1, arcs := s.arcs + {f}, upgrades := s.upgrades - {op})
      else s.(upgrades := s.upgrades[op := s.upgrades[op].(seen := s.strong)])
  }

  /** `Arc::new`. */
  ghost predicate Fresh(s: State) {
    && s.strong == 1 && s.weak == 1 && |s.arcs| == 1 && s.weaks == {} && s.upgrades == map[]
    && s.dropping == map[] && s.freeing == {} && s.dataDrops == 0 && s.frees == 0
  }

  /** The `Arc`s together still own a weak reference. */
  ghost predicate OwnWeakHeld(s: State) { s.strong > 0 || s.dropping != map[] }

  ghost predicate Inv(s: State) {
    && s.strong == |s.arcs|
    && s.weak == |s.weaks| + (if OwnWeakHeld(s) then 1 else 0)
    && (s.strong > 0 ==> s.dropping == map[])
    && (forall a, b :: a in s.dropping && b in s.dropping ==> a == b)
    && s.dataDrops == (if s.strong > 0 || (exists op :: op in s.dropping && s.dropping[op].DropsData?) then 0 else 1)
    && (s.freeing != {} ==> s.weak == 0)
    && (forall a, b :: a in s.freeing && b in s.freeing ==> a == b)
    && s.frees == (if s.weak > 0 || s.freeing != {} then 0 else 1)
    && (forall o :: o in s.upgrades ==> s.upgrades[o].weak in s.weaks)
    && (forall o :: o in s.upgrades && s.upgrades[o].seen == 0 ==> s.strong == 0)
  }

  lemma {:induction false} NonEmpty(hs: set<Handle>, h: Handle)
    ensures h in hs ==> |hs| > 0
  {
  }

  lemma {:induction false} CopyInv(s: State, step: Step)
    requires Inv(s) && Enabled(s, step) && (step.CloneArc? || step.StartUpgrade?)
    ensures Inv(Apply(s, step))
  {
    if step.CloneArc? { NonEmpty(s.arcs, step.arc); }
  }

  lemma {:induction false} NewWeakInv(s: State, step: Step)
    requires Inv(s) && Enabled(s, step) && (step.Downgrade? || step.CloneWeak?)
    ensures Inv(Apply(s, step))
  {
    if step.Downgrade? { NonEmpty(s.arcs, step.arc); }
  }

  lemma {:induction false} DropArcInv(s: State, step: Step)
    requires Inv(s) && Enabled(s, step) && (step.DropArc?)
    ensures Inv(Apply(s, step))
  {
    if s.strong == 1 {
      NonEmpty(s.arcs - {step.arc}, step.arc);
      assert step.op in Apply(s, step).dropping;
    }
  }

  lemma {:induction false} DropDataInv(s: State, step: Step)
    requires Inv(s) && Enabled(s, step) && (step.DropData?)
    ensures Inv(Apply(s, step))
  {
    var s' := Apply(s, step);
    assert step.op in s'.dropping && forall o :: o in s'.dropping ==> o == step.op;
  }

  lemma {:induction false} DropOwnWeakInv(s: State, step: Step)
    requires Inv(s) && Enabled(s, step) && (step.DropOwnWeak?)
    ensures Inv(Apply(s, step))
  {
    var s' := Apply(s, step);
    assert s'.dropping == map[];
  }

  lemma {:induction false} DropWeakInv(s: State, step: Step)
    requires Inv(s) && Enabled(s, step) && (step.DropWeak?)
    ensures Inv(Apply(s, step))
  {
    NonEmpty(s.weaks, step.weak);
  }

  lemma {:induction false} FreeInv(s: State, step: Step)
    requires Inv(s) && Enabled(s, step) && (step.Free?)
    ensures Inv(Apply(s, step))
  {
    assert Apply(s, step).freeing == {};
  }

  lemma {:induction false} TryUpgradeInv(s: State, step: Step)
    requires Inv(s) && Enabled(s, step) && (step.TryUpgrade?)
    ensures Inv(Apply(s, step))
  {
  }

  /** Every step keeps the counts equal to the handles that exist. */
  lemma {:induction false} StepInv(s: State, step: Step)
    requires Inv(s) && Enabled(s, step)
    ensures Inv(Apply(s, step))
  {
    hide Inv, Enabled, Apply;
    match step {
      case DropArc(_, _) => DropArcInv(s, step);
      case DropData(_) => DropDataInv(s, step);
      case DropOwnWeak(_) => DropOwnWeakInv(s, step);
      case DropWeak(_, _) => DropWeakInv(s, step);
      case Free(_) => FreeInv(s, step);
      case TryUpgrade(_, _, _) => TryUpgradeInv(s, step);
      case Downgrade(_, _) => NewWeakInv(s, step);
      case CloneWeak(_, _) => NewWeakInv(s, step);
      case _ => CopyInv(s, step);
    }
  }

  // ---------------------------------------------------------------------------
  // Whole runs
  // ---------------------------------------------------------------------------

  datatype Run = Run(states: seq<State>, steps: seq<Step>)

  ghost predicate IsRun(r: Run) {
    && |r.states| == |r.steps| + 1
    && Fresh(r.states[0])
    && forall i :: 0 <= i < |r.steps| ==>
         Enabled(r.states[i], r.steps[i]) && r.states[i + 1] == Apply(r.states[i], r.steps[i])
  }

  lemma {:induction false} RunInv(r: Run, i: nat)
    requires IsRun(r) && i < |r.states|
    ensures Inv(r.states[i])
  {
    if i > 0 {
      RunInv(r, i - 1);
      StepInv(r.states[i - 1], r.steps[i - 1]);
    }
  }

  /** While an `Arc` exists the data has not been dropped, nor has a drop of it begun. */
  lemma {:induction false} DataAlive(r: Run, i: nat, a: Handle)
    requires IsRun(r) && i < |r.states| && a in r.states[i].arcs
    ensures r.states[i].dataDrops == 0 && r.states[i].dropping == map[]
  {
    RunInv(r, i);
    NonEmpty(r.states[i].arcs, a);
  }

  /** While a handle of either kind exists, or an `Arc`'s drop is under way, the block has not been freed. */
  lemma {:induction false} BlockAlive(r: Run, i: nat, h: Handle)
    requires IsRun(r) && i < |r.states|
    requires h in r.states[i].arcs || h in r.states[i].weaks || h in r.states[i].dropping || h in r.states[i].upgrades
    ensures r.states[i].frees == 0 && r.states[i].freeing == {}
  {
    var s := r.states[i];
    RunInv(r, i);
    NonEmpty(s.arcs, h);
    NonEmpty(s.weaks, h);
    if h in s.upgrades { NonEmpty(s.weaks, s.upgrades[h].weak); }
  }

  /** The data is dropped by at most one step, with no `Arc` left; the block is freed by at most one
      step, after that and with no handle left. */
  lemma {:induction false} DropAndFreeOnce(r: Run, i: nat)
    requires IsRun(r) && i < |r.states|
    ensures r.states[i].dataDrops <= 1 && r.states[i].frees <= 1
    ensures r.states[i].dataDrops == 1 ==> r.states[i].arcs == {}
    ensures r.states[i].frees == 1 ==>
              r.states[i].dataDrops == 1 && r.states[i].weaks == {} && r.states[i].dropping == map[]
  {
    RunInv(r, i);
  }

  /** When every handle is gone and no operation is under way, both have happened exactly once. */
  lemma {:induction false} NothingLeaks(r: Run, i: nat)
    requires IsRun(r) && i < |r.states|
    requires var s := r.states[i]; s.arcs == {} && s.weaks == {} && s.dropping == map[] && s.freeing == {}
    ensures r.states[i].dataDrops == 1 && r.states[i].frees == 1
  {
    RunInv(r, i);
  }

  /** After the block is freed no operation on it is left. */
  lemma {:induction false} FreedIsFinal(r: Run, i: nat, step: Step)
    requires IsRun(r) && i < |r.states| && r.states[i].frees > 0
    ensures !Enabled(r.states[i], step)
  {
    RunInv(r, i);
  }

  /** Once the strong count has been zero it stays zero, so no upgrade tried later succeeds. */
  lemma {:induction false} ZeroIsFinal(r: Run, i: nat, j: nat)
    requires IsRun(r) && i <= j < |r.states| && r.states[i].strong == 0
    ensures r.states[j].strong == 0
    ensures j < |r.steps| && r.steps[j].TryUpgrade? ==> !Upgrades(r.states[j], r.steps[j].op, r.steps[j].spurious)
    decreases j
  {
    if i < j {
      ZeroIsFinal(r, i, j - 1);
      RunInv(r, j - 1);
      ZeroStays(r.states[j - 1], r.steps[j - 1]);
    }
  }

  lemma {:induction false} ZeroStays(s: State, step: Step)
    requires Inv(s) && Enabled(s, step) && s.strong == 0
    ensures Apply(s, step).strong == 0
  {
    assert s.arcs == {};
  }

  /** The strong count never gets past two to the 63, so that of the Arcs a word can count one half is never
      used. */
  lemma {:induction false} StrongBounded(r: Run, i: nat)
    requires IsRun(r) && i < |r.states|
    ensures 0 <= r.states[i].strong <= 0x8000_0000_0000_0000
  {
    RunInv(r, i);
    if i > 0 {
      StrongBounded(r, i - 1);
      RunInv(r, i - 1);
      StrongStep(r.states[i - 1], r.steps[i - 1]);
    }
  }

  lemma {:induction false} StrongStep(s: State, step: Step)
    requires Enabled(s, step) && s.strong <= 0x8000_0000_0000_0000
    ensures Apply(s, step).strong <= 0x8000_0000_0000_0000
  {
  }

  /** In every run, an upgrade goes on exactly when the count it saw was not zero and has changed since, or the
      exchange failed for no reason; otherwise it ends, with an `Arc` exactly if the data is still alive. */
  lemma {:induction false} UpgradeOutcome(r: Run, i: nat)
    requires IsRun(r) && i < |r.steps| && r.steps[i].TryUpgrade?
    ensures var s, s', op := r.states[i], r.states[i + 1], r.steps[i].op;
            && op in s.upgrades
            && (op in s'.upgrades <==>
                  s.upgrades[op].seen != 0 && (r.steps[i].spurious || s.upgrades[op].seen != s.strong))
            && (op !in s'.upgrades ==>
                  && (s.arcs != {} <==> s.strong != 0)
                  && s'.arcs == (if s.strong != 0 then s.arcs + {r.steps[i].new_} else s.arcs))
            && (op in s'.upgrades ==> s'.arcs == s.arcs && s'.upgrades[op].seen == s.strong)
  {
    RunInv(r, i);
    var s := r.states[i];
    assert Enabled(s, r.steps[i]) && r.states[i + 1] == Apply(s, r.steps[i]);
    EmptyCount(s.arcs);
  }

  lemma {:induction false} EmptyCount(hs: set<Handle>)
    ensures |hs| == 0 <==> hs == {}
  {
  }

  /** Whoever holds a handle can use it: an `Arc` can be dropped or downgraded, and cloned below the limit; a `Weak`
      can be upgraded, cloned below the limit and, while no upgrade reads it, dropped; and what is under way can go
      on, except an upgrade that saw a count past the limit. */
  lemma {:induction false} HandlesUsable(s: State, h: Handle, f: Handle, op: Op)
    requires Inv(s)
    ensures h in s.arcs && op !in s.dropping ==> Enabled(s, DropArc(h, op))
    ensures h in s.arcs && f !in s.weaks ==> Enabled(s, Downgrade(h, f))
    ensures h in s.arcs && f !in s.arcs ==> (Enabled(s, CloneArc(h, f)) <==> |s.arcs| < 0x8000_0000_0000_0000)
    ensures h in s.weaks && f !in s.weaks ==> (Enabled(s, CloneWeak(h, f)) <==> s.weak < 0x8000_0000_0000_0000)
    ensures h in s.weaks && op !in s.upgrades ==> Enabled(s, StartUpgrade(h, op))
    ensures h in s.weaks && op !in s.freeing ==>
              (Enabled(s, DropWeak(h, op)) <==> !exists o :: o in s.upgrades && s.upgrades[o].weak == h)
    ensures op in s.upgrades && f !in s.arcs ==>
              forall b :: Enabled(s, TryUpgrade(op, f, b)) <==> s.upgrades[op].seen < 0x8000_0000_0000_0000
    ensures op in s.dropping ==> Enabled(s, DropData(op)) || op in s.freeing || Enabled(s, DropOwnWeak(op))
    ensures op in s.freeing ==> Enabled(s, Free(op))
  {
  }

  /** Which handles a step makes. */
  predicate Makes(s: State, step: Step, h: Handle, strong: bool)
    requires Enabled(s, step)
  {
    match step
    case CloneArc(_, f) => strong && h == f
    case Downgrade(_, f) => !strong && h == f
    case CloneWeak(_, f) => !strong && h == f
    case TryUpgrade(op, f, spurious) =>
      strong && h == f && s.upgrades[op].seen != 0 && s.upgrades[op].seen == s.strong && !spurious
    case _ => false
  }

  /** Handles come and go only by being made and dropped. */
  lemma {:induction false} StepHandles(s: State, step: Step)
    requires Enabled(s, step)
    ensures var s' := Apply(s, step);
            && (forall h :: h in s'.arcs <==>
                  (h in s.arcs && !(step.DropArc? && step.arc == h)) || Makes(s, step, h, true))
            && (forall h :: h in s'.weaks <==>
                  (h in s.weaks && !(step.DropWeak? && step.weak == h)) || Makes(s, step, h, false))
  {
  }

  /** Each operation goes through its phases: the drop that takes the last `Arc` drops the data, then the weak
      reference of the `Arc`s; the one that takes the last weak reference frees the block. */
  lemma {:induction false} StepPhases(s: State, step: Step)
    requires Inv(s) && Enabled(s, step)
    ensures var s' := Apply(s, step);
            && (step.DropArc? ==> (step.op in s'.dropping <==> s'.arcs == {}))
            && (step.DropArc? && s'.arcs == {} ==> s'.dropping[step.op] == DropsData)
            && (step.DropData? ==> s'.dataDrops == s.dataDrops + 1 && s'.dropping == s.dropping[step.op := DropsWeak])
            && (step.DropOwnWeak? ==> step.op !in s'.dropping)
            && (step.DropOwnWeak? || step.DropWeak? ==>
                  (step.op in s'.freeing <==> s'.weaks == {} && s'.arcs == {} && s'.dropping == map[]))
            && (step.Free? ==> s'.frees == s.frees + 1 && step.op !in s'.freeing)
            && (step.StartUpgrade? ==> step.op in s'.upgrades && s'.upgrades[step.op] == Upgrade(step.weak, |s.arcs|))
  {
    var s' := Apply(s, step);
    StepInv(s, step);
    EmptyCount(s'.arcs);
    EmptyCount(s'.weaks);
  }

  /** What is left to do once every handle is gone. */
  ghost function Remaining(s: State): nat {
    (if exists op :: op in s.dropping && s.dropping[op].DropsData? then 3 else if s.dropping != map[] then 2 else 0) +
    if s.freeing != {} then 1 else 0
  }

  /** Once every handle is gone, either the block is freed or some operation can go on, and whichever does brings
      the end nearer. */
  lemma {:induction false} Finishes(s: State)
    requires Inv(s) && s.arcs == {} && s.weaks == {}
    ensures s.frees == 1 || exists step :: Enabled(s, step)
    ensures forall step :: Enabled(s, step) ==>
              && Apply(s, step).arcs == {} && Apply(s, step).weaks == {} && Remaining(Apply(s, step)) < Remaining(s)
  {
    if op :| op in s.dropping {
      if s.dropping[op].DropsData? { assert Enabled(s, DropData(op)); } else { assert Enabled(s, DropOwnWeak(op)); }
    } else if op :| op in s.freeing {
      assert Enabled(s, Free(op));
    }
    forall step | Enabled(s, step)
      ensures Apply(s, step).arcs == {} && Apply(s, step).weaks == {} && Remaining(Apply(s, step)) < Remaining(s)
    {
      FinishStep(s, step);
    }
  }

  lemma {:induction false} FinishStep(s: State, step: Step)
    requires Inv(s) && s.arcs == {} && s.weaks == {} && Enabled(s, step)
    ensures Apply(s, step).arcs == {} && Apply(s, step).weaks == {} && Remaining(Apply(s, step)) < Remaining(s)
  {
    var s' := Apply(s, step);
    StepInv(s, step);
    match step
    case DropData(op) => assert op in s.dropping && op in s'.dropping && forall o :: o in s'.dropping ==> o == op;
    case DropOwnWeak(op) => assert op in s.dropping && s'.dropping == map[];
    case Free(op) => assert s'.freeing == {};
  }
}
