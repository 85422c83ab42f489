/** The thread status word: the state in the low two bits, the generation above them. */
module ThreadStatus {
  import opened Wrappers

  datatype ThreadState = Running | Ready | Suspended | Dead {
    function Code(): nat {
      match this
      case Running => 0
      case Ready => 1
      case Suspended => 2
      case Dead => 3
    }
  }

  const GENERATION_STEP_SIZE: nat := 4

  function StateOf(status: nat): ThreadState {
    match status % 4
    case 0 => Running
    case 1 => Ready
    case 2 => Suspended
    case _ => Dead
  }

  function Generation(status: nat): nat { status / 4 }

  /** `to_status`: the state bits replaced, the generation kept. */
  function ToStatus(state: ThreadState, status: nat): nat { status - status % 4 + state.Code() }

  /** `set_state`. */
  function SetState(status: nat, state: ThreadState): nat { ToStatus(state, status) + GENERATION_STEP_SIZE }

  /** `transition_state`: only out of the expected state. */
  function Transition(status: nat, from: ThreadState, to: ThreadState): Option<nat> {
    if StateOf(status) == from then Some(SetState(status, to)) else None
  }

  lemma {:induction false} SetStateSpec(status: nat, state: ThreadState)
    ensures StateOf(SetState(status, state)) == state
    ensures Generation(SetState(status, state)) == Generation(status) + 1
  {
    var g := status / 4;
    assert status - status % 4 == 4 * g;
    assert SetState(status, state) == 4 * (g + 1) + state.Code();
  }

  /** A status word is determined by its generation and its state. */
  lemma {:induction false} StatusUnique(a: nat, b: nat)
    requires Generation(a) == Generation(b) && StateOf(a) == StateOf(b)
    ensures a == b
  {
  }

  datatype ThreadRef = ThreadRef(thread: nat, generation: nat)

  /** `ThreadRef::new`, which panics unless the thread is suspended. */
  function NewRef(t: nat, status: nat): Option<ThreadRef> {
    if StateOf(status) == Suspended then Some(ThreadRef(t, status)) else None
  }

  /** `ThreadRef::future_ref`: the status the thread will have if it suspends next. */
  function FutureRef(t: nat, status: nat): ThreadRef { ThreadRef(t, SetState(status, Suspended)) }

  datatype WakeResult = Woken(status: nat) | Spin | Stale

  /** One round of `get_thread_as_ready`. */
  function TryWake(r: ThreadRef, status: nat): WakeResult {
    if status == r.generation then Woken(SetState(r.generation, Ready))
    else if status - status % 4 >= r.generation - r.generation % 4 then Stale
    else Spin
  }

  /** What one round does is decided by comparing generations: before the reference's generation it
      waits, after it it fails, and in it it wakes exactly a suspended thread. */
  lemma {:induction false} TryWakeSpec(r: ThreadRef, status: nat)
    requires StateOf(r.generation) == Suspended
    ensures TryWake(r, status).Spin? <==> Generation(status) < Generation(r.generation)
    ensures TryWake(r, status).Woken? <==>
            Generation(status) == Generation(r.generation) && StateOf(status) == Suspended
    ensures TryWake(r, status).Woken? ==>
              && StateOf(TryWake(r, status).status) == Ready
              && Generation(TryWake(r, status).status) == Generation(status) + 1
  {
    SetStateSpec(r.generation, Ready);
    if Generation(status) == Generation(r.generation) && StateOf(status) == Suspended {
      StatusUnique(status, r.generation);
    }
  }
}
