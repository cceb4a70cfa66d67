/** The SPI bus shared by threads that call spi_transceive_managed, as interleaved steps: a recursive mutex, chip-select
    pins that are active low, one semaphore with a limit of 1, and END interrupts that may come late. */
module SpiBus {

  type Pin = nat

  /** The owning thread and how often it holds the lock. */
  datatype Mutex = Free | Owned(owner: nat, count: nat)

  /** Where a thread is in spi_transceive_managed. `locked` says whether it got the lock in this call. */
  datatype Pc =
    | Idle
    | Locking(pin: Pin)
    | Configuring(pin: Pin)
    | Selecting(pin: Pin)
    | Starting(pin: Pin)
    | Waiting(pin: Pin, transfer: nat)
    | Deselecting(pin: Pin, locked: bool)
    | Unlocking(pin: Pin, locked: bool)

  datatype Token = NoToken | From(transfer: nat)

  /** `low` are the pins held active, `token` is the semaphore with the transfer whose END gave it, `inFlight` are the
      transfers started whose END has not come, `next` numbers transfers, and `outer` counts the locks each thread
      took with spi_lock itself. */
  datatype State = State(mutex: Mutex, pcs: seq<Pc>, outer: seq<nat>, low: set<Pin>, token: Token,
                         inFlight: set<nat>, next: nat)

  datatype Action =
    | Call(t: nat, pin: Pin)    // spi_transceive_managed is called
    | Next(t: nat)              // the thread's next step, without an error
    | LockFails(t: nat)         // spi_lock times out
    | BadBuffer(t: nat)         // spi_transceive refuses the buffers
    | TimesOut(t: nat)          // no END within the timeout
    | SpiLock(t: nat)           // spi_lock called outside of a managed transfer
    | SpiUnlock(t: nat)
    | End(transfer: nat, more: bool)  // END interrupt; `more`: the callback starts a follow-up transfer instead

  function Holds(m: Mutex, t: nat): nat {
    if m.Owned? && m.owner == t then m.count else 0
  }

  predicate Lockable(m: Mutex, t: nat) {
    m.Free? || m.owner == t
  }

  function Lock(m: Mutex, t: nat): Mutex
    requires Lockable(m, t)
  {
    Owned(t, Holds(m, t) + 1)
  }

  /** k_mutex_unlock: an error without effect for a thread that is not the owner. */
  function Unlock(m: Mutex, t: nat): Mutex {
    if Holds(m, t) == 0 then m else if m.count == 1 then Free else Owned(t, m.count - 1)
  }

  /** The thread is in a call and not blocked. */
  predicate CanContinue(s: State, t: nat)
    requires t < |s.pcs|
  {
    match s.pcs[t]
    case Idle => false
    case Locking(_) => Lockable(s.mutex, t)
    case Waiting(_, _) => s.token != NoToken
    case _ => true
  }

  predicate Enabled(s: State, a: Action) {
    match a
    case Call(t, _) => t < |s.pcs| && s.pcs[t].Idle?
    case Next(t) => t < |s.pcs| && CanContinue(s, t)
    case LockFails(t) => t < |s.pcs| && s.pcs[t].Locking? && !(s.mutex.Owned? && s.mutex.owner == t)
    case BadBuffer(t) => t < |s.pcs| && s.pcs[t].Starting?
    case TimesOut(t) => t < |s.pcs| && s.pcs[t].Waiting? && s.token == NoToken
    case SpiLock(t) => t < |s.pcs| == |s.outer| && s.pcs[t].Idle? && Lockable(s.mutex, t)
    case SpiUnlock(t) => t < |s.pcs| == |s.outer| && s.pcs[t].Idle?
    case End(transfer, _) => transfer in s.inFlight
  }

  function NextStep(s: State, t: nat): State
    requires Enabled(s, Next(t))
  {
    var at := s.pcs[t];
    match at
    case Locking(pin) => s.(mutex := Lock(s.mutex, t), pcs := s.pcs[t := Configuring(pin)])
    case Configuring(pin) =>
      s.(pcs := s.pcs[t := if Holds(s.mutex, t) > 0 then Selecting(pin) else Deselecting(pin, true)])
    case Selecting(pin) => s.(low := s.low + {pin}, pcs := s.pcs[t := Starting(pin)])
    case Starting(pin) =>
      if Holds(s.mutex, t) > 0 then
        s.(inFlight := s.inFlight + {s.next}, next := s.next + 1, pcs := s.pcs[t := Waiting(pin, s.next)])
      else s.(pcs := s.pcs[t := Deselecting(pin, true)])
    case Waiting(pin, _) => s.(token := NoToken, pcs := s.pcs[t := Deselecting(pin, true)])
    case Deselecting(pin, locked) => s.(low := s.low - {pin}, pcs := s.pcs[t := Unlocking(pin, locked)])
    case Unlocking(_, _) => s.(mutex := Unlock(s.mutex, t), pcs := s.pcs[t := Idle])
  }

  function Step(s: State, a: Action): State
    requires Enabled(s, a)
  {
    match a
    case Call(t, pin) => s.(pcs := s.pcs[t := Locking(pin)])
    case Next(t) => NextStep(s, t)
    case LockFails(t) => s.(pcs := s.pcs[t := Deselecting(s.pcs[t].pin, false)])
    case BadBuffer(t) => s.(pcs := s.pcs[t := Deselecting(s.pcs[t].pin, true)])
    case TimesOut(t) => s.(pcs := s.pcs[t := Deselecting(s.pcs[t].pin, true)])
    case SpiLock(t) => s.(mutex := Lock(s.mutex, t), outer := s.outer[t := s.outer[t] + 1])
    case SpiUnlock(t) =>
      s.(mutex := Unlock(s.mutex, t),
         outer := s.outer[t := if Holds(s.mutex, t) > 0 && s.outer[t] > 0 then s.outer[t] - 1 else s.outer[t]])
    case End(transfer, more) =>
      if more then s
      else s.(inFlight := s.inFlight - {transfer}, token := if s.token == NoToken then From(transfer) else s.token)
  }

  /** Inside the part of the call that holds the lock. */
  predicate Inside(pc: Pc) {
    match pc
    case Idle => false
    case Locking(_) => false
    case Deselecting(_, locked) => locked
    case Unlocking(_, locked) => locked
    case _ => true
  }

  /** On the way out without having got the lock. */
  predicate Refused(pc: Pc) {
    (pc.Deselecting? || pc.Unlocking?) && !pc.locked
  }

  /** Between the write that activates the pin and the one that deactivates it. */
  predicate Selected(pc: Pc, pin: Pin) {
    || pc == Starting(pin)
    || (pc.Waiting? && pc.pin == pin)
    || pc == Deselecting(pin, true)
  }

  /** Every thread holds the lock exactly as often as it took it itself, plus once inside a managed transfer; only the
      owner's pin can be active. */
  ghost predicate Inv(s: State) {
    && |s.outer| == |s.pcs|
    && (s.mutex.Owned? ==> s.mutex.owner < |s.pcs| && s.mutex.count > 0)
    && (forall t :: 0 <= t < |s.pcs| ==> Holds(s.mutex, t) == s.outer[t] + (if Inside(s.pcs[t]) then 1 else 0))
    && (forall t :: 0 <= t < |s.pcs| && Refused(s.pcs[t]) ==> s.outer[t] == 0)
    && (forall p :: p in s.low ==> s.mutex.Owned? && Selected(s.pcs[s.mutex.owner], p))
    && (s.token.From? ==> s.token.transfer < s.next)
    && (forall i :: i in s.inFlight ==> i < s.next)
  }

  lemma StepKeepsInv(s: State, a: Action)
    requires Inv(s) && Enabled(s, a)
    ensures Inv(Step(s, a))
  {
    match a
    case Next(t) => NextKeepsInv(s, t);
    case Call(t, pin) => CallKeepsInv(s, t, pin);
    case LockFails(t) => FailureKeepsInv(s, a, t);
    case BadBuffer(t) => FailureKeepsInv(s, a, t);
    case TimesOut(t) => FailureKeepsInv(s, a, t);
    case SpiLock(t) => LockKeepsInv(s, t);
    case SpiUnlock(t) => UnlockKeepsInv(s, t);
    case End(transfer, more) => EndKeepsInv(s, transfer, more);
  }

  lemma OutsideNotSelected(s: State, t: nat)
    requires Inv(s) && t < |s.pcs|
    ensures forall p :: p in s.low && !Selected(s.pcs[t], p) ==> s.mutex.owner != t
    ensures Inside(s.pcs[t]) ==> Holds(s.mutex, t) == s.outer[t] + 1
    ensures !Inside(s.pcs[t]) ==> Holds(s.mutex, t) == s.outer[t]
    ensures s.mutex.Owned? && s.mutex.owner == t && !Inside(s.pcs[t]) ==> s.low == {}
  {
  }

  lemma CallKeepsInv(s: State, t: nat, pin: Pin)
    requires Inv(s) && Enabled(s, Call(t, pin))
    ensures Inv(Step(s, Call(t, pin)))
  {
    OutsideNotSelected(s, t);
  }

  lemma FailureKeepsInv(s: State, a: Action, t: nat)
    requires Inv(s) && Enabled(s, a) && (a == LockFails(t) || a == BadBuffer(t) || a == TimesOut(t))
    ensures Inv(Step(s, a))
  {
    OutsideNotSelected(s, t);
  }

  lemma LockKeepsInv(s: State, t: nat)
    requires Inv(s) && Enabled(s, SpiLock(t))
    ensures Inv(Step(s, SpiLock(t)))
  {
    OutsideNotSelected(s, t);
  }

  lemma UnlockKeepsInv(s: State, t: nat)
    requires Inv(s) && Enabled(s, SpiUnlock(t))
    ensures Inv(Step(s, SpiUnlock(t)))
  {
    OutsideNotSelected(s, t);
  }

  lemma EndKeepsInv(s: State, transfer: nat, more: bool)
    requires Inv(s) && Enabled(s, End(transfer, more))
    ensures Inv(Step(s, End(transfer, more)))
  {
  }

  lemma NextKeepsInv(s: State, t: nat)
    requires Inv(s) && Enabled(s, Next(t))
    ensures Inv(NextStep(s, t))
  {
    match s.pcs[t]
    case Locking(_) => MutexStepKeepsInv(s, t);
    case Unlocking(_, _) => MutexStepKeepsInv(s, t);
    case Selecting(_) => PinStepKeepsInv(s, t);
    case Deselecting(_, _) => PinStepKeepsInv(s, t);
    case _ => TransferStepKeepsInv(s, t);
  }

  lemma MutexStepKeepsInv(s: State, t: nat)
    requires Inv(s) && Enabled(s, Next(t)) && (s.pcs[t].Locking? || s.pcs[t].Unlocking?)
    ensures Inv(NextStep(s, t))
  {
    OutsideNotSelected(s, t);
  }

  lemma PinStepKeepsInv(s: State, t: nat)
    requires Inv(s) && Enabled(s, Next(t)) && (s.pcs[t].Selecting? || s.pcs[t].Deselecting?)
    ensures Inv(NextStep(s, t))
  {
    OutsideNotSelected(s, t);
    if s.pcs[t].Selecting? {
      assert s.mutex.owner == t;
    }
  }

  lemma TransferStepKeepsInv(s: State, t: nat)
    requires Inv(s) && Enabled(s, Next(t))
    requires s.pcs[t].Configuring? || s.pcs[t].Starting? || s.pcs[t].Waiting?
    ensures Inv(NextStep(s, t))
  {
    OutsideNotSelected(s, t);
  }

  /** No step of a thread, nor an interrupt, takes a lock away from another thread or gives it one. */
  lemma OthersKeepTheirLocks(s: State, a: Action, u: nat)
    requires Inv(s) && Enabled(s, a) && u < |s.pcs| && (a.End? || u != a.t)
    ensures Holds(Step(s, a).mutex, u) == Holds(s.mutex, u) && Step(s, a).outer[u] == s.outer[u]
  {
  }

  function Initial(threads: nat): State {
    State(Free, seq(threads, _ => Idle), seq(threads, _ => 0), {}, NoToken, {}, 0)
  }

  predicate CanRun(s: State, actions: seq<Action>)
    decreases |actions|
  {
    actions == [] || (Enabled(s, actions[0]) && CanRun(Step(s, actions[0]), actions[1..]))
  }

  function Run(s: State, actions: seq<Action>): State
    requires CanRun(s, actions)
    decreases |actions|
  {
    if actions == [] then s else Run(Step(s, actions[0]), actions[1..])
  }

  lemma {:induction false} RunKeepsInv(s: State, actions: seq<Action>)
    requires Inv(s) && CanRun(s, actions)
    ensures Inv(Run(s, actions)) && |Run(s, actions).pcs| == |s.pcs|
    decreases |actions|
  {
    if actions != [] {
      StepKeepsInv(s, actions[0]);
      RunKeepsInv(Step(s, actions[0]), actions[1..]);
    }
  }

  /** Chip-select exclusivity, for any number of threads and any run with lock failures, refused buffers, timeouts and
      late END interrupts: at most one pin is active, and only while the thread whose transfer it belongs to owns the
      lock; a thread that got the lock returns with its pin inactive, and one that did not can only find its pin active
      if the owner is transferring on that same pin; and outside of calls a thread holds exactly the locks it took. */
  lemma ChipSelectExclusive(threads: nat, actions: seq<Action>)
    requires CanRun(Initial(threads), actions)
    ensures var s := Run(Initial(threads), actions);
      && |s.pcs| == |s.outer| == threads
      && (forall p, q :: p in s.low && q in s.low ==> p == q)
      && (forall p :: p in s.low ==> s.mutex.Owned? && s.mutex.owner < threads && Selected(s.pcs[s.mutex.owner], p))
      && (forall t :: 0 <= t < threads && s.pcs[t].Unlocking? && s.pcs[t].pin in s.low ==>
            !s.pcs[t].locked && s.mutex.owner != t && Selected(s.pcs[s.mutex.owner], s.pcs[t].pin))
      && (forall t :: 0 <= t < threads && s.pcs[t].Idle? ==> Holds(s.mutex, t) == s.outer[t])
  {
    RunKeepsInv(Initial(threads), actions);
    var s := Run(Initial(threads), actions);
    forall t | 0 <= t < threads && s.pcs[t].Unlocking? && s.pcs[t].pin in s.low
      ensures !s.pcs[t].locked && s.mutex.owner != t
    {
      assert Selected(s.pcs[s.mutex.owner], s.pcs[t].pin);
      assert Holds(s.mutex, t) == s.outer[t] + (if Inside(s.pcs[t]) then 1 else 0);
    }
  }

  // ---- threads sharing a pin ----

  /** The pin of a transfer is active from its selection to its deselection. */
  ghost predicate PinsHeld(s: State) {
    forall t :: 0 <= t < |s.pcs| ==>
      (forall p :: Selected(s.pcs[t], p) ==> p in s.low)
  }

  /** A thread that failed to get the lock is about to deactivate a pin that another thread's transfer is using. */
  predicate Clash(s: State, a: Action) {
    && a.Next? && a.t < |s.pcs|
    && s.pcs[a.t].Deselecting? && !s.pcs[a.t].locked && s.pcs[a.t].pin in s.low
  }

  lemma InsideAlone(s: State, t: nat, u: nat)
    requires Inv(s) && t < |s.pcs| && u < |s.pcs|
    ensures Inside(s.pcs[t]) && Inside(s.pcs[u]) ==> t == u
  {
    OutsideNotSelected(s, t);
    OutsideNotSelected(s, u);
  }

  /** A step leaves every transfer's pin active exactly if it is not such a clash. */
  lemma StepKeepsPinsHeld(s: State, a: Action)
    requires Inv(s) && PinsHeld(s) && Enabled(s, a)
    ensures PinsHeld(Step(s, a)) <==> !Clash(s, a)
  {
    var s' := Step(s, a);
    if Clash(s, a) {
      var u := s.mutex.owner;
      assert Selected(s'.pcs[u], s.pcs[a.t].pin);
    } else {
      forall t, p | 0 <= t < |s'.pcs| && Selected(s'.pcs[t], p)
        ensures p in s'.low
      {
        assert Selected(s.pcs[t], p) || s.pcs[t] == Selecting(p);
        if a.Next? {
          InsideAlone(s, t, a.t);
        }
      }
    }
  }

  /** Two threads that use the same pin can get there: thread 1 fails to get the lock and deactivates the pin that
      thread 0 has just activated for its transfer. */
  lemma SharedPinDeselected(pin: Pin)
    ensures exists actions :: CanRun(Initial(2), actions)
                           && |Run(Initial(2), actions).pcs| == 2
                           && Run(Initial(2), actions).pcs[0] == Starting(pin)
                           && pin !in Run(Initial(2), actions).low
  {
    var s0 := Initial(2);
    var s1 := Step(s0, Call(0, pin));
    var s2 := Step(s1, Next(0));
    var s3 := Step(s2, Next(0));
    var s4 := Step(s3, Next(0));
    assert s4.pcs == [Starting(pin), Idle];
    var a4, s7 := Deselected(s4, pin);
    var a3 := Prepend(s3, Next(0), a4, s7);
    var a2 := Prepend(s2, Next(0), a3, s7);
    var a1 := Prepend(s1, Next(0), a2, s7);
    var a0 := Prepend(s0, Call(0, pin), a1, s7);
  }

  lemma Deselected(s4: State, pin: Pin) returns (actions: seq<Action>, s7: State)
    requires s4.pcs == [Starting(pin), Idle] && s4.mutex == Owned(0, 1)
    ensures CanRun(s4, actions) && s7 == Run(s4, actions)
    ensures |s7.pcs| == 2 && s7.pcs[0] == Starting(pin) && pin !in s7.low
  {
    var s5 := Step(s4, Call(1, pin));
    var s6 := Step(s5, LockFails(1));
    s7 := Step(s6, Next(1));
    var a6 := Prepend(s6, Next(1), [], s7);
    var a5 := Prepend(s5, LockFails(1), a6, s7);
    actions := Prepend(s4, Call(1, pin), a5, s7);
  }

  lemma Prepend(s: State, a: Action, rest: seq<Action>, last: State) returns (actions: seq<Action>)
    requires Enabled(s, a) && CanRun(Step(s, a), rest) && Run(Step(s, a), rest) == last
    ensures CanRun(s, actions) && Run(s, actions) == last
  {
    actions := [a] + rest;
    assert actions[1..] == rest;
  }

  /** Threads in calls at the same time use different pins. */
  ghost predicate DistinctPins(s: State) {
    forall t, u :: 0 <= t < u < |s.pcs| && !s.pcs[t].Idle? && !s.pcs[u].Idle? ==> s.pcs[t].pin != s.pcs[u].pin
  }

  /** Then nothing clashes, and every return leaves the caller's pin inactive. */
  lemma DistinctPinsNeverClash(s: State, t: nat)
    requires Inv(s) && DistinctPins(s) && t < |s.pcs|
    ensures !Clash(s, Next(t))
    ensures s.pcs[t].Unlocking? ==> s.pcs[t].pin !in s.low
  {
  }

  /** Along a run, threads in calls at the same time always use different pins. */
  ghost predicate DistinctPinsAlong(s: State, actions: seq<Action>)
    requires CanRun(s, actions)
    decreases |actions|
  {
    DistinctPins(s) && (actions == [] || DistinctPinsAlong(Step(s, actions[0]), actions[1..]))
  }

  lemma {:induction false} RunKeepsPinsHeld(s: State, actions: seq<Action>)
    requires Inv(s) && PinsHeld(s) && CanRun(s, actions) && DistinctPinsAlong(s, actions)
    ensures PinsHeld(Run(s, actions))
    decreases |actions|
  {
    if actions != [] {
      if actions[0].Next? {
        DistinctPinsNeverClash(s, actions[0].t);
      }
      StepKeepsInv(s, actions[0]);
      StepKeepsPinsHeld(s, actions[0]);
      RunKeepsPinsHeld(Step(s, actions[0]), actions[1..]);
    }
  }

  /** In every run in which threads in calls at the same time use different pins, every transfer's pin is active from
      its selection to its deselection. */
  lemma TransfersKeepTheirPins(threads: nat, actions: seq<Action>)
    requires CanRun(Initial(threads), actions) && DistinctPinsAlong(Initial(threads), actions)
    ensures PinsHeld(Run(Initial(threads), actions))
  {
    RunKeepsPinsHeld(Initial(threads), actions);
  }

  // ---- late END interrupts ----

  /** Thread t waits for transfer i, and the semaphore can only come from i's own END. */
  ghost predicate OnlyOwnEnd(s: State, t: nat, i: nat) {
    && t < |s.pcs| && i < s.next && Inv(s)
    && (s.pcs[t].Waiting? && s.pcs[t].transfer == i ==>
          && s.inFlight <= {i}
          && (s.token == NoToken || (s.token == From(i) && i !in s.inFlight)))
  }

  lemma StepKeepsOnlyOwnEnd(s: State, a: Action, t: nat, i: nat)
    requires OnlyOwnEnd(s, t, i) && Enabled(s, a)
    ensures OnlyOwnEnd(Step(s, a), t, i)
  {
    StepKeepsInv(s, a);
    if s.pcs[t].Waiting? && a.Next? && a.t != t {
      assert Holds(s.mutex, t) == s.outer[t] + 1;
      assert !Inside(s.pcs[a.t]);
    }
  }

  lemma {:induction false} RunKeepsOnlyOwnEnd(s: State, actions: seq<Action>, t: nat, i: nat)
    requires OnlyOwnEnd(s, t, i) && CanRun(s, actions)
    ensures OnlyOwnEnd(Run(s, actions), t, i)
    decreases |actions|
  {
    if actions != [] {
      StepKeepsOnlyOwnEnd(s, actions[0], t, i);
      RunKeepsOnlyOwnEnd(Step(s, actions[0]), actions[1..], t, i);
    }
  }

  /** In state s, t waiting for transfer i has the END of another transfer in the semaphore: it returns success
      although its own transfer may still be going on. */
  predicate Early(s: State, t: nat, i: nat) {
    && t < |s.pcs| && s.pcs[t].Waiting? && s.pcs[t].transfer == i
    && (s.token.From? && s.token.transfer != i)
  }

  /** A transfer can never end early, whatever happens while it waits, exactly if it starts with the semaphore empty and
      no END outstanding. */
  lemma NeverEarlyIff(s: State, t: nat)
    requires Inv(s) && t < |s.pcs| && s.pcs[t].Starting?
    ensures (forall actions :: CanRun(NextStep(s, t), actions) ==> !Early(Run(NextStep(s, t), actions), t, s.next))
        <==> s.token == NoToken && s.inFlight == {}
  {
    var s', i := NextStep(s, t), s.next;
    StepKeepsInv(s, Next(t));
    assert Holds(s.mutex, t) == s.outer[t] + 1;
    if s.token == NoToken && s.inFlight == {} {
      forall actions | CanRun(s', actions)
        ensures !Early(Run(s', actions), t, i)
      {
        RunKeepsOnlyOwnEnd(s', actions, t, i);
      }
    } else if s.token != NoToken {
      assert Early(Run(s', []), t, i);
    } else {
      var j :| j in s.inFlight;
      var late := [End(j, false)];
      assert late[1..] == [];
      assert CanRun(s', late);
      assert Early(Run(s', late), t, i);
    }
  }

  lemma {:induction false} RunConcat(s: State, a: seq<Action>, b: seq<Action>)
    requires CanRun(s, a) && CanRun(Run(s, a), b)
    ensures CanRun(s, a + b) && Run(s, a + b) == Run(Run(s, a), b)
    decreases |a|
  {
    if a == [] {
      assert a + b == b;
    } else {
      assert (a + b)[1..] == a[1..] + b;
      RunConcat(Step(s, a[0]), a[1..], b);
    }
  }

  /** A single thread's call, as far as the wait for its transfer. */
  lemma CallAndStart(s: State, pin: Pin) returns (actions: seq<Action>, s': State)
    requires s.pcs == [Idle] && s.mutex == Free
    ensures CanRun(s, actions) && s' == Run(s, actions)
    ensures s' == s.(mutex := Owned(0, 1), pcs := [Waiting(pin, s.next)], low := s.low + {pin},
                     inFlight := s.inFlight + {s.next}, next := s.next + 1)
  {
    var s1 := Step(s, Call(0, pin));
    var s2 := Step(s1, Next(0));
    var s3 := Step(s2, Next(0));
    var s4 := Step(s3, Next(0));
    s' := Step(s4, Next(0));
    var a4 := Prepend(s4, Next(0), [], s');
    var a3 := Prepend(s3, Next(0), a4, s');
    var a2 := Prepend(s2, Next(0), a3, s');
    var a1 := Prepend(s1, Next(0), a2, s');
    actions := Prepend(s, Call(0, pin), a1, s');
  }

  lemma TimeOutAndReturn(s: State, pin: Pin, transfer: nat) returns (actions: seq<Action>, s': State)
    requires s.pcs == [Waiting(pin, transfer)] && s.mutex == Owned(0, 1) && s.token == NoToken
    ensures CanRun(s, actions) && s' == Run(s, actions)
    ensures s' == s.(mutex := Free, pcs := [Idle], low := s.low - {pin})
  {
    var s1 := Step(s, TimesOut(0));
    var s2 := Step(s1, Next(0));
    s' := Step(s2, Next(0));
    var a2 := Prepend(s2, Next(0), [], s');
    var a1 := Prepend(s1, Next(0), a2, s');
    actions := Prepend(s, TimesOut(0), a1, s');
  }

  /** That does happen, with a single thread: its first transfer times out, and the END of that transfer comes while its
      second one waits. */
  lemma EarlyReachable(pin: Pin)
    ensures exists actions :: CanRun(Initial(1), actions) && Early(Run(Initial(1), actions), 0, 1)
  {
    var s0 := Initial(1);
    assert s0.pcs == [Idle];
    var a1, s1 := CallAndStart(s0, pin);
    var a2, s2 := TimeOutAndReturn(s1, pin, 0);
    var a3, s3 := CallAndStart(s2, pin);
    var s4 := Step(s3, End(0, false));
    var a4 := Prepend(s3, End(0, false), [], s4);
    RunConcat(s0, a1, a2);
    RunConcat(s0, a1 + a2, a3);
    RunConcat(s0, a1 + a2 + a3, a4);
  }

  // ---- runs without timeouts ----

  /** Whatever is in flight or in the semaphore belongs to the transfer that the owner of the lock waits for. */
  ghost predicate Tidy(s: State)
    requires Inv(s)
  {
    && (forall i :: i in s.inFlight ==> OwnerWaitsFor(s, i))
    && (s.token.From? ==> OwnerWaitsFor(s, s.token.transfer) && s.token.transfer !in s.inFlight)
  }

  ghost predicate OwnerWaitsFor(s: State, i: nat) {
    && s.mutex.Owned? && s.mutex.owner < |s.pcs|
    && s.pcs[s.mutex.owner].Waiting? && s.pcs[s.mutex.owner].transfer == i
  }

  lemma StepKeepsTidy(s: State, a: Action)
    requires Inv(s) && Tidy(s) && Enabled(s, a) && !a.TimesOut?
    ensures Inv(Step(s, a)) && Tidy(Step(s, a))
  {
    StepKeepsInv(s, a);
    if !a.End? {
      OutsideNotSelected(s, a.t);
      if s.mutex.Owned? {
        InsideAlone(s, s.mutex.owner, a.t);
      }
    }
  }

  lemma {:induction false} RunKeepsTidy(s: State, actions: seq<Action>)
    requires Inv(s) && Tidy(s) && CanRun(s, actions)
    requires forall i :: 0 <= i < |actions| ==> !actions[i].TimesOut?
    ensures Inv(Run(s, actions)) && Tidy(Run(s, actions))
    decreases |actions|
  {
    if actions != [] {
      StepKeepsTidy(s, actions[0]);
      RunKeepsTidy(Step(s, actions[0]), actions[1..]);
    }
  }

  /** The semaphore is given only by the END of a transfer whose callback starts no follow-up transfer. */
  lemma {:induction false} TokenWasGiven(s: State, actions: seq<Action>, i: nat)
    requires CanRun(s, actions) && Run(s, actions).token == From(i)
    ensures s.token == From(i) || End(i, false) in actions
    decreases |actions|
  {
    if actions != [] {
      TokenWasGiven(Step(s, actions[0]), actions[1..], i);
    }
  }

  /** In every run without timeouts each transfer starts with the semaphore empty and no END outstanding, and no thread
      ever has the END of another transfer in the semaphore: every success follows the transfer's own END. */
  lemma OrdinaryRunsNeverEarly(threads: nat, actions: seq<Action>, t: nat)
    requires CanRun(Initial(threads), actions) && t < threads
    requires forall i :: 0 <= i < |actions| ==> !actions[i].TimesOut?
    ensures var s := Run(Initial(threads), actions);
      && |s.pcs| == threads
      && (s.pcs[t].Starting? ==> s.token == NoToken && s.inFlight == {})
      && (s.pcs[t].Waiting? ==> !Early(s, t, s.pcs[t].transfer))
      && (s.pcs[t].Waiting? && Enabled(s, Next(t)) ==>
            s.pcs[t].transfer !in s.inFlight && End(s.pcs[t].transfer, false) in actions)
  {
    RunKeepsTidy(Initial(threads), actions);
    RunKeepsInv(Initial(threads), actions);
    var s := Run(Initial(threads), actions);
    OutsideNotSelected(s, t);
    if s.token.From? {
      TokenWasGiven(Initial(threads), actions, s.token.transfer);
    }
  }
}
