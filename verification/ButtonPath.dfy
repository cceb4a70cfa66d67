/** The two halves of a button's path joined: what the debounce service tells the buttons source, and which of it the
    button's queue accepts. */
module ButtonPath {
  import opened Gpio
  import opened Debounce
  import opened DebouncedPins
  import opened DebouncedLevels
  import Q = ToggleQueue

  /** The debounce service with what its users know, and the queue of one button. */
  datatype Path = Path(told: Told, queue: Q.Counters)

  datatype Input = Hardware(e: Event)  // an interrupt, a timer callback, or a call of the service
                 | Take                // the filler takes an event

  /** The button's queue after an event. Buttons are active low. */
  function QueueAfter(p: Path, pin: Pin, e: Event): Q.Counters {
    match e
    case SetEdgeCb(q, level) => if q == pin then Q.Counters(Q.Event(!level), Q.Event(!level)) else p.queue
    case PortInterrupt(levels, _) =>
      if pin in Reported(p.told.service, levels) then Q.PutC(p.queue, pin !in levels) else p.queue
    case _ => p.queue
  }

  function Advance(n: nat, p: Path, pin: Pin, i: Input): (p': Path)
    requires WellFormed(n, p.told)
    ensures WellFormed(n, p'.told)
  {
    match i
    case Hardware(e) => Path(Tell(n, p.told, e), QueueAfter(p, pin, e))
    case Take => p.(queue := Q.PopC(p.queue))
  }

  /** The newest event of the queue is the level the user was told, also when the queue refused it. */
  ghost predicate QueueKnows(p: Path, pin: Pin) {
    Q.Bit(p.queue.head) <==> pin !in p.told.high
  }

  lemma PutShowsEvent(c: Q.Counters, event: bool)
    ensures Q.Bit(Q.PutC(c, event).head) == event
    ensures Q.PutC(c, event) == c <==> Q.Bit(c.head) == event
  {
    Q.WrapKeepsParity(c.head + 1);
  }

  lemma AdvanceKeepsKnowledge(n: nat, p: Path, pin: Pin, i: Input)
    requires WellFormed(n, p.told) && QueueKnows(p, pin)
    ensures QueueKnows(Advance(n, p, pin, i), pin)
  {
    if i.Hardware? && i.e.PortInterrupt? {
      PutShowsEvent(p.queue, pin !in i.e.levels);
    }
  }

  /** An interrupt's toggle is accepted exactly if the pin was in step, and refused with -EINVAL otherwise. */
  lemma AcceptedIffInStep(p: Path, pin: Pin, levels: Pins, rearm: map<Pin, bool>)
    requires QueueKnows(p, pin) && pin in Reported(p.told.service, levels)
    ensures QueueAfter(p, pin, PortInterrupt(levels, rearm)) != p.queue <==> InStep(p.told, pin)
    ensures Q.StepC(p.queue, Q.Put(pin !in levels)).1 == -Q.EINVAL <==> !InStep(p.told, pin)
  {
    PutShowsEvent(p.queue, pin !in levels);
  }

  // ---- all runs ----

  /** From the buttons source's initialization, which finds the pin at `level`. */
  function After(n: nat, pin: Pin, level: bool, inputs: seq<Input>): (p: Path)
    requires n >= 1
    ensures WellFormed(n, p.told)
  {
    if inputs == [] then
      Advance(n, Path(Told(Initial(n), {}), Q.Counters(0, 0)), pin, Hardware(SetEdgeCb(pin, level)))
    else Advance(n, After(n, pin, level, inputs[..|inputs| - 1]), pin, inputs[|inputs| - 1])
  }

  lemma {:induction false} AlwaysKnows(n: nat, pin: Pin, level: bool, inputs: seq<Input>)
    requires n >= 1
    ensures QueueKnows(After(n, pin, level, inputs), pin)
  {
    if inputs != [] {
      AlwaysKnows(n, pin, level, inputs[..|inputs| - 1]);
      AdvanceKeepsKnowledge(n, After(n, pin, level, inputs[..|inputs| - 1]), pin, inputs[|inputs| - 1]);
    }
  }

  /** Over every run, through debounce and queue: the toggle of an interrupt is accepted exactly if the pin is in step,
      that is, armed from the level its user was last told. */
  lemma ToggleAccepted(n: nat, pin: Pin, level: bool, inputs: seq<Input>, levels: Pins, rearm: map<Pin, bool>)
    requires n >= 1 && pin in Reported(After(n, pin, level, inputs).told.service, levels)
    ensures var p := After(n, pin, level, inputs);
      && (QueueAfter(p, pin, PortInterrupt(levels, rearm)) != p.queue <==> InStep(p.told, pin))
      && (Q.StepC(p.queue, Q.Put(pin !in levels)).1 == -Q.EINVAL <==> !InStep(p.told, pin))
  {
    AlwaysKnows(n, pin, level, inputs);
    AcceptedIffInStep(After(n, pin, level, inputs), pin, levels, rearm);
  }

  /** This pin has settled whenever it is re-enabled. */
  ghost predicate Calm(n: nat, pin: Pin, level: bool, inputs: seq<Input>)
    requires n >= 1
  {
    inputs != [] ==>
      var before, last := inputs[..|inputs| - 1], inputs[|inputs| - 1];
      && Calm(n, pin, level, before)
      && (last.Hardware? ==> Settled(n, After(n, pin, level, before).told, last.e, pin))
  }

  lemma {:induction false} CalmStaysInStep(n: nat, pin: Pin, level: bool, inputs: seq<Input>)
    requires n >= 1 && Calm(n, pin, level, inputs)
    ensures InStep(After(n, pin, level, inputs).told, pin)
  {
    if inputs == [] {
      StepKeepsInStep(n, Told(Initial(n), {}), SetEdgeCb(pin, level), pin);
    } else {
      var before, last := inputs[..|inputs| - 1], inputs[|inputs| - 1];
      CalmStaysInStep(n, pin, level, before);
      if last.Hardware? {
        StepKeepsInStep(n, After(n, pin, level, before).told, last.e, pin);
      }
    }
  }

  /** While a pin settles before it is re-enabled, its queue accepts every toggle, whatever other pins do. */
  lemma CalmAcceptsAll(n: nat, pin: Pin, level: bool, inputs: seq<Input>, levels: Pins, rearm: map<Pin, bool>)
    requires n >= 1 && Calm(n, pin, level, inputs)
    requires pin in Reported(After(n, pin, level, inputs).told.service, levels)
    ensures QueueAfter(After(n, pin, level, inputs), pin, PortInterrupt(levels, rearm))
         != After(n, pin, level, inputs).queue
  {
    CalmStaysInStep(n, pin, level, inputs);
    ToggleAccepted(n, pin, level, inputs, levels, rearm);
  }

  /** A release that comes back within the debounce time is lost, and the next press is then refused: pressed, released
      before the pin is re-enabled, pressed again. */
  lemma NextPressRefused(pin: Pin)
    ensures var p := After(1, pin, true, [Hardware(PortInterrupt({}, map[])), Hardware(TimerExpiry({pin}))]);
      && pin in Reported(p.told.service, {})
      && Q.StepC(p.queue, Q.Put(true)).1 == -Q.EINVAL
  {
    var i1, i2 := Hardware(PortInterrupt({}, map[])), Hardware(TimerExpiry({pin}));
    assert [i1, i2][..1] == [i1] && [i1][..0] == [];
    var p0 := After(1, pin, true, []);
    assert Fired(p0.told.service.gpio, {}) == {pin} && pin in p0.told.service.debounced;
    var p1 := Advance(1, p0, pin, i1);
    assert After(1, pin, true, [i1]) == p1;
    assert p1.told.service.ring.cells[1] == {pin};
    var p2 := Advance(1, p1, pin, i2);
    assert After(1, pin, true, [i1, i2]) == p2;
    AlwaysKnows(1, pin, true, [i1, i2]);
    AcceptedIffInStep(p2, pin, {}, map[]);
  }
}
