/** What the users of the debounce service are told about their pins, and when it is the pin's level. */
module DebouncedLevels {
  import opened Gpio
  import opened Debounce
  import opened DebouncedPins

  /** The service, and the pins whose users were last told (or read themselves, when they set the callback) a high
      level. */
  datatype Told = Told(service: Service, high: Pins)

  predicate WellFormed(n: nat, t: Told) {
    n >= 1 && |t.service.ring.cells| == n + 1 && |t.service.gpio.sense| == NUM_PINS
  }

  /** The pins an interrupt reports to users of the service. */
  function Reported(s: Service, levels: Pins): Pins {
    Fired(s.gpio, levels) * s.debounced
  }

  /** The levels an event tells the users of some pins, over what they knew. */
  function Overwritten(high: Pins, pins: Pins, levels: Pins): Pins {
    (high - pins) + (pins * levels)
  }

  function Tell(n: nat, t: Told, e: Event): (t': Told)
    requires WellFormed(n, t)
    ensures WellFormed(n, t')
  {
    Told(Step(n, t.service, e),
         match e
         case SetEdgeCb(pin, level) => Overwritten(t.high, {pin}, Single(pin, level))
         case PortInterrupt(levels, _) => Overwritten(t.high, Reported(t.service, levels), levels)
         case _ => t.high)
  }

  /** The pin, if the service has armed it, waits for a change from the level its user knows. */
  ghost predicate InStep(t: Told, pin: Pin) {
    pin in t.service.gpio.enabled && pin in t.service.debounced ==>
      (pin in t.service.gpio.fromLevel <==> pin in t.high)
  }

  /** The pin, if it is re-enabled, is at the level its user knows. */
  ghost predicate Settled(n: nat, t: Told, e: Event, pin: Pin)
    requires WellFormed(n, t)
  {
    e.TimerExpiry? && t.service.ring.movesLeft > 0 && pin in t.service.ring.cells[1] ==>
      (pin in e.levels <==> pin in t.high)
  }

  /** An event keeps what is waited for in step with what the user knows, exactly unless it re-enables the pin at
      another level. Nothing is asked of other pins. */
  lemma StepKeepsInStep(n: nat, t: Told, e: Event, pin: Pin)
    requires WellFormed(n, t) && InStep(t, pin)
    ensures InStep(Tell(n, t, e), pin) <==> Settled(n, t, e, pin)
  {
    var t' := Tell(n, t, e);
    match e
    case PortInterrupt(levels, rearm) =>
      var fired := Fired(t.service.gpio, levels);
      assert pin in t.service.debounced ==>
        (pin in t'.service.gpio.enabled <==> pin in t.service.gpio.enabled && pin !in fired);
    case _ =>
  }

  /** While in step, every interrupt tells the user the opposite of what it was told before. */
  lemma CallsAlternate(n: nat, t: Told, levels: Pins, rearm: map<Pin, bool>, pin: Pin)
    requires WellFormed(n, t) && InStep(t, pin) && pin in Reported(t.service, levels)
    ensures pin in levels <==> pin !in t.high
    ensures pin in Tell(n, t, PortInterrupt(levels, rearm)).high <==> pin in levels
  {
  }

  /** The user of an armed pin without a pending interrupt knows the pin's level exactly if the pin is in step. */
  lemma QuietPinKnown(t: Told, levels: Pins, pin: Pin)
    requires pin in t.service.gpio.enabled && pin in t.service.debounced && pin !in Fired(t.service.gpio, levels)
    ensures (pin in levels <==> pin in t.high) <==> InStep(t, pin)
  {
  }

  // ---- all runs ----

  function TellAll(n: nat, events: seq<Event>): (t: Told)
    requires n >= 1
    ensures WellFormed(n, t) && t.service == Run(n, events)
  {
    if events == [] then Told(Initial(n), {})
    else Tell(n, TellAll(n, events[..|events| - 1]), events[|events| - 1])
  }

  /** Along a run, this pin has settled whenever it is re-enabled. */
  ghost predicate AlwaysSettled(n: nat, events: seq<Event>, pin: Pin)
    requires n >= 1
  {
    events != [] ==>
      && AlwaysSettled(n, events[..|events| - 1], pin)
      && Settled(n, TellAll(n, events[..|events| - 1]), events[|events| - 1], pin)
  }

  lemma {:induction false} RunInStep(n: nat, events: seq<Event>, pin: Pin)
    requires n >= 1 && AlwaysSettled(n, events, pin)
    ensures InStep(TellAll(n, events), pin)
  {
    if events != [] {
      RunInStep(n, events[..|events| - 1], pin);
      StepKeepsInStep(n, TellAll(n, events[..|events| - 1]), events[|events| - 1], pin);
    }
  }

  /** If a pin has settled at the level its user was told whenever it is re-enabled, then whatever other pins do, its
      user knows its level while it is armed and has no pending interrupt. */
  lemma LevelsKnown(n: nat, events: seq<Event>, levels: Pins, pin: Pin)
    requires n >= 1 && AlwaysSettled(n, events, pin)
    requires pin in Run(n, events).gpio.enabled && pin in Run(n, events).debounced
    requires pin !in Fired(Run(n, events).gpio, levels)
    ensures pin in levels <==> pin in TellAll(n, events).high
  {
    RunInStep(n, events, pin);
    QuietPinKnown(TellAll(n, events), levels, pin);
  }

  /** An edge followed by the opposite edge before the pin is re-enabled: the second is never reported. The pin is high
      again, armed, with no interrupt pending, and its user still believes it is low. */
  lemma SecondEdgeLost(pin: Pin)
    ensures var events := [SetEdgeCb(pin, true), PortInterrupt({}, map[]), TimerExpiry({pin})];
      && PinAllowed(1, events, pin)
      && pin in Run(1, events).gpio.enabled && pin in Run(1, events).debounced
      && pin !in Fired(Run(1, events).gpio, {pin})
      && pin !in TellAll(1, events).high
  {
    var e0, e1, e2 := SetEdgeCb(pin, true), PortInterrupt({}, map[]), TimerExpiry({pin});
    var events := [e0, e1, e2];
    assert events[..2] == [e0, e1] && [e0, e1][..1] == [e0] && [e0][..0] == [];
    var t0 := Told(Initial(1), {});
    assert TellAll(1, []) == t0;
    assert InNoCell(t0.service, pin);
    assert PinAllowed(1, [], pin) && PinAllowed(1, [e0], pin);
    var t1 := Tell(1, t0, e0);
    assert TellAll(1, [e0]) == t1;
    var t2 := Tell(1, t1, e1);
    assert TellAll(1, [e0, e1]) == t2;
    assert Fired(t1.service.gpio, {}) == {pin} && pin in t1.service.debounced;
    assert t2.service.ring.cells[1] == {pin};
    var t3 := Tell(1, t2, e2);
    assert TellAll(1, events) == t3;
  }
}
