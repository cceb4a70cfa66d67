/** Debounce and GPIO together: where a pin's readiness is at any moment. Pins of the debounce service share the GPIO
    driver with pins that have a GPIO callback of their own. */
module DebouncedPins {
  import opened Gpio
  import opened Debounce

  /** The GPIO driver, the shift register, the pins whose GPIO callback is debounce_gpio_cb, and the pins handed to the
      debounce service and not taken back. */
  datatype Service = Service(gpio: State, ring: Ring, debounced: Pins, managed: Pins)

  datatype Event =
    | SetEdgeCb(pin: Pin, level: bool)   // debounce_set_edge_cb, at the pin's current level
    | UnsetEdgeCb(pin: Pin)              // debounce_unset_edge_cb
    | SetDirect(pin: Pin, level: bool)   // gpio_set_edge_cb with a callback of the caller's own
    | UnsetDirect(pin: Pin)              // gpio_unset_edge_cb
    // an interrupt; a callback of a caller's own may arm its pin again, from the level given in `rearm`
    | PortInterrupt(levels: Pins, rearm: map<Pin, bool>)
    | TimerExpiry(levels: Pins)          // a timer callback

  function RequestAll(n: nat, r: Ring, pins: Pins): Ring
    requires |r.cells| == n + 1
  {
    if pins == {} then r else Ring(r.cells[n := r.cells[n] + pins], n, true)
  }

  /** The pins re-armed by callbacks other than debounce_gpio_cb. */
  function DirectRearms(rearm: map<Pin, bool>, debounced: Pins): map<Pin, bool> {
    map p | p in rearm && p !in debounced :: rearm[p]
  }

  function Single(pin: Pin, level: bool): Pins {
    if level then {pin} else {}
  }

  function Step(n: nat, s: Service, e: Event): (s': Service)
    requires n >= 1 && |s.ring.cells| == n + 1 && |s.gpio.sense| == NUM_PINS
    ensures |s'.ring.cells| == n + 1 && |s'.gpio.sense| == NUM_PINS
  {
    match e
    case SetEdgeCb(pin, level) =>
      Service(Armed(s.gpio, {pin}, Single(pin, level)), s.ring, s.debounced + {pin}, s.managed + {pin})
    case UnsetEdgeCb(pin) =>
      Service(Disarmed(s.gpio, {pin}), Cleared(n, s.ring, pin), s.debounced, s.managed - {pin})
    case SetDirect(pin, level) => s.(gpio := Armed(s.gpio, {pin}, Single(pin, level)), debounced := s.debounced - {pin})
    case UnsetDirect(pin) => s.(gpio := Disarmed(s.gpio, {pin}))
    case PortInterrupt(levels, rearm) =>
      s.(gpio := Interrupted(s.gpio, levels, DirectRearms(rearm, s.debounced)),
         ring := RequestAll(n, s.ring, Fired(s.gpio, levels) * s.debounced))
    case TimerExpiry(levels) =>
      if s.ring.movesLeft == 0 then s
      else s.(gpio := Armed(s.gpio, s.ring.cells[1], levels), ring := Ticked(n, s.ring),
              debounced := s.debounced + s.ring.cells[1])
  }

  ghost predicate InCell(s: Service, pin: Pin, i: nat) {
    i < |s.ring.cells| && pin in s.ring.cells[i]
  }

  ghost predicate InNoCell(s: Service, pin: Pin) {
    forall i: nat :: !InCell(s, pin, i)
  }

  /** The service's part of the state, whatever its users do. */
  ghost predicate Inv(n: nat, s: Service) {
    RingInv(n, s.ring) && Agreement(s.gpio)
  }

  /** A managed pin waits in exactly one place, in the GPIO driver (with debounce_gpio_cb) or in one cell; a pin that is
      not managed waits nowhere. */
  ghost predicate InOnePlace(s: Service, pin: Pin) {
    && (forall i: nat, j: nat :: InCell(s, pin, i) && InCell(s, pin, j) ==> i == j)
    && (pin in s.gpio.enabled ==> InNoCell(s, pin) && pin in s.debounced)
    && (pin in s.managed <==> pin in s.gpio.enabled || exists i: nat :: InCell(s, pin, i))
  }

  /** What keeps a pin in one place: its callback is not set while it waits in a cell, and nobody arms or disarms it
      past the service. Nothing is asked of other pins. */
  ghost predicate Allowed(s: Service, e: Event, pin: Pin) {
    match e
    case SetEdgeCb(p, _) => p == pin ==> InNoCell(s, pin)
    case SetDirect(p, _) => p != pin
    case UnsetDirect(p) => p == pin ==> pin !in s.gpio.enabled
    case _ => true
  }

  lemma RequestAllKeepsRing(n: nat, r: Ring, pins: Pins)
    requires RingInv(n, r)
    ensures RingInv(n, RequestAll(n, r, pins))
  {
  }

  lemma StepKeepsInv(n: nat, s: Service, e: Event)
    requires Inv(n, s)
    ensures Inv(n, Step(n, s, e))
  {
    match e
    case SetEdgeCb(pin, level) => StepKeepsAgreement(s.gpio, SetEdge({pin}, Single(pin, level)));
    case UnsetEdgeCb(pin) => StepKeepsAgreement(s.gpio, UnsetEdge({pin}));
    case SetDirect(pin, level) => StepKeepsAgreement(s.gpio, SetEdge({pin}, Single(pin, level)));
    case UnsetDirect(pin) => StepKeepsAgreement(s.gpio, UnsetEdge({pin}));
    case PortInterrupt(levels, rearm) =>
      StepKeepsAgreement(s.gpio, Interrupt(levels, DirectRearms(rearm, s.debounced)));
      RequestAllKeepsRing(n, s.ring, Fired(s.gpio, levels) * s.debounced);
    case TimerExpiry(levels) => StepKeepsAgreement(s.gpio, SetEdge(s.ring.cells[1], levels));
  }

  lemma SetKeepsPlace(n: nat, s: Service, e: Event, pin: Pin)
    requires Inv(n, s) && InOnePlace(s, pin) && (e.SetEdgeCb? || e.SetDirect? || e.UnsetDirect?)
    ensures InOnePlace(Step(n, s, e), pin) <==> Allowed(s, e, pin)
  {
    var s' := Step(n, s, e);
    assert forall i: nat :: InCell(s', pin, i) <==> InCell(s, pin, i);
  }

  lemma UnsetForgetsPin(n: nat, s: Service, p: Pin, pin: Pin)
    requires Inv(n, s)
    ensures forall i: nat :: InCell(Step(n, s, UnsetEdgeCb(p)), pin, i) <==> pin != p && InCell(s, pin, i)
  {
    var s' := Step(n, s, UnsetEdgeCb(p));
    forall i: nat
      ensures InCell(s', pin, i) <==> pin != p && InCell(s, pin, i)
    {
      if i <= n {
        UnsetForgets(n, s.ring, p, i);
      }
    }
  }

  lemma UnsetKeepsPlace(n: nat, s: Service, p: Pin, pin: Pin)
    requires Inv(n, s) && InOnePlace(s, pin)
    ensures InOnePlace(Step(n, s, UnsetEdgeCb(p)), pin)
  {
    UnsetForgetsPin(n, s, p, pin);
  }

  lemma InterruptKeepsPlace(n: nat, s: Service, levels: Pins, rearm: map<Pin, bool>, pin: Pin)
    requires Inv(n, s) && InOnePlace(s, pin)
    ensures InOnePlace(Step(n, s, PortInterrupt(levels, rearm)), pin)
  {
    var s' := Step(n, s, PortInterrupt(levels, rearm));
    var fired := Fired(s.gpio, levels);
    assert pin in s.debounced ==> (pin in s'.gpio.enabled <==> pin in s.gpio.enabled && pin !in fired);
    assert pin !in s.debounced ==> pin !in s'.gpio.enabled;
    forall i: nat
      ensures InCell(s', pin, i) <==> InCell(s, pin, i) || (pin in fired && i == n)
    {
    }
    if pin in fired {
      assert InCell(s', pin, n);
    }
  }

  lemma ExpiryKeepsPlace(n: nat, s: Service, levels: Pins, pin: Pin)
    requires Inv(n, s) && InOnePlace(s, pin) && s.ring.movesLeft > 0
    ensures InOnePlace(Step(n, s, TimerExpiry(levels)), pin)
  {
    var s' := Step(n, s, TimerExpiry(levels));
    forall i: nat
      ensures InCell(s', pin, i) <==> i > 0 && InCell(s, pin, i + 1)
    {
    }
    assert pin in s'.gpio.enabled <==> pin in s.gpio.enabled || InCell(s, pin, 1);
    if i: nat :| InCell(s, pin, i) {
      assert i > 0;
      if i > 1 {
        assert InCell(s', pin, i - 1);
      }
    }
  }

  /** One event keeps a pin in one place exactly when it is allowed for that pin. */
  lemma StepKeepsPlace(n: nat, s: Service, e: Event, pin: Pin)
    requires Inv(n, s) && InOnePlace(s, pin)
    ensures InOnePlace(Step(n, s, e), pin) <==> Allowed(s, e, pin)
  {
    match e
    case UnsetEdgeCb(p) => UnsetKeepsPlace(n, s, p, pin);
    case PortInterrupt(levels, rearm) => InterruptKeepsPlace(n, s, levels, rearm, pin);
    case TimerExpiry(levels) =>
      if s.ring.movesLeft > 0 {
        ExpiryKeepsPlace(n, s, levels, pin);
      }
    case _ => SetKeepsPlace(n, s, e, pin);
  }

  // ---- all runs ----

  function Initial(n: nat): Service {
    Service(GpioState({}, {}, seq(NUM_PINS, _ => NoSense)), Ring(seq(n + 1, _ => {}), 0, false), {}, {})
  }

  function Run(n: nat, events: seq<Event>): (s: Service)
    requires n >= 1
    ensures |s.ring.cells| == n + 1 && |s.gpio.sense| == NUM_PINS
  {
    if events == [] then Initial(n) else Step(n, Run(n, events[..|events| - 1]), events[|events| - 1])
  }

  lemma {:induction false} RunKeepsInv(n: nat, events: seq<Event>)
    requires n >= 1
    ensures Inv(n, Run(n, events))
  {
    if events != [] {
      RunKeepsInv(n, events[..|events| - 1]);
      StepKeepsInv(n, Run(n, events[..|events| - 1]), events[|events| - 1]);
    }
  }

  /** Along a run, everything done to this pin is allowed. */
  ghost predicate PinAllowed(n: nat, events: seq<Event>, pin: Pin)
    requires n >= 1
  {
    events != [] ==>
      && PinAllowed(n, events[..|events| - 1], pin)
      && Allowed(Run(n, events[..|events| - 1]), events[|events| - 1], pin)
  }

  /** In every reachable state a managed pin is armed or in exactly one cell, never both, as long as its own callback is
      not set while it waits in a cell and only the service arms it, whatever happens to other pins. */
  lemma {:induction false} ReachableInOnePlace(n: nat, events: seq<Event>, pin: Pin)
    requires n >= 1 && PinAllowed(n, events, pin)
    ensures Inv(n, Run(n, events)) && InOnePlace(Run(n, events), pin)
  {
    RunKeepsInv(n, events);
    if events == [] {
      assert InNoCell(Initial(n), pin);
    } else {
      var before := events[..|events| - 1];
      ReachableInOnePlace(n, before, pin);
      StepKeepsPlace(n, Run(n, before), events[|events| - 1], pin);
    }
  }

  /** After `debounce_unset_edge_cb`, and whatever happened before, the pin is armed nowhere and present in no cell. */
  lemma UnsetLeavesNothing(n: nat, events: seq<Event>, pin: Pin)
    requires n >= 1
    ensures var s := Step(n, Run(n, events), UnsetEdgeCb(pin));
      pin !in s.gpio.enabled && s.gpio.sense[pin] == NoSense && InNoCell(s, pin)
  {
    RunKeepsInv(n, events);
    UnsetForgetsPin(n, Run(n, events), pin, pin);
  }

  /** A pin never handed to the service, with a callback of its own or with none, is present in no cell. */
  lemma {:induction false} ForeignInNoCell(n: nat, events: seq<Event>, pin: Pin)
    requires n >= 1 && forall e :: e in events ==> !(e.SetEdgeCb? && e.pin == pin)
    ensures InNoCell(Run(n, events), pin) && pin !in Run(n, events).debounced
  {
    if events != [] {
      var before, e := events[..|events| - 1], events[|events| - 1];
      assert e in events && forall e' :: e' in before ==> e' in events;
      ForeignInNoCell(n, before, pin);
      RunKeepsInv(n, before);
      ForeignStaysOut(n, Run(n, before), e, pin);
    }
  }

  lemma ForeignStaysOut(n: nat, s: Service, e: Event, pin: Pin)
    requires Inv(n, s) && InNoCell(s, pin) && pin !in s.debounced && !(e.SetEdgeCb? && e.pin == pin)
    ensures InNoCell(Step(n, s, e), pin) && pin !in Step(n, s, e).debounced
  {
    var s' := Step(n, s, e);
    forall i: nat
      ensures !InCell(s', pin, i)
    {
      match e {
        case UnsetEdgeCb(p) => UnsetForgetsPin(n, s, p, pin);
        case TimerExpiry(levels) => assert !InCell(s, pin, i + 1) && !InCell(s, pin, i);
        case _ => assert !InCell(s, pin, i);
      }
    }
    assert !InCell(s, pin, 1);
  }

  /** A callback that sets its own pin again, as the mode button's does: for every n the pin is then armed and waits in
      a cell as well. */
  lemma RearmingCallbackSplitsPin(n: nat, pin: Pin, level: bool)
    requires n >= 1
    ensures var s := Run(n, [SetEdgeCb(pin, true), PortInterrupt({}, map[]), SetEdgeCb(pin, level)]);
      pin in s.gpio.enabled && InCell(s, pin, n) && !InOnePlace(s, pin)
  {
    var e0, e1, e2 := SetEdgeCb(pin, true), PortInterrupt({}, map[]), SetEdgeCb(pin, level);
    var events := [e0, e1, e2];
    assert events[..2] == [e0, e1] && [e0, e1][..1] == [e0] && [e0][..0] == [];
    var s1 := Step(n, Initial(n), e0);
    assert Run(n, [e0]) == Step(n, Run(n, []), e0) == s1;
    var s2 := Step(n, s1, e1);
    assert Run(n, [e0, e1]) == s2;
    assert Fired(s1.gpio, {}) == {pin} && pin in s1.debounced;
    assert pin in s2.ring.cells[n];
    assert Run(n, events) == Step(n, s2, e2);
    assert InCell(Step(n, s2, e2), pin, n);
  }

  // ---- the service over the two drivers ----

  class DebounceService {
    const gpio: GpioDriver
    const ring: ShiftRegister
    /** The pins whose entry in the GPIO driver's callback table is debounce_gpio_cb. */
    var debounced: Pins
    ghost var managed: Pins

    constructor (n: nat)
      requires n >= 1
      ensures Valid() && ring.n == n && Value() == Initial(n)
      ensures fresh(gpio) && fresh(ring) && fresh(ring.shiftarr)
    {
      gpio := new GpioDriver();
      ring := new ShiftRegister(n);
      debounced, managed := {}, {};
      new;
      assert gpio.State().sense == Initial(n).gpio.sense;
      assert ring.State().cells == Initial(n).ring.cells;
    }

    ghost predicate Valid()
      reads this, gpio, ring, ring.shiftarr
    {
      && ring.Valid() && |gpio.sense| == NUM_PINS
      && RingInv(ring.n, ring.State())
    }

    ghost function Value(): (s: Service)
      requires Valid()
      reads this, gpio, ring, ring.shiftarr
      ensures |s.ring.cells| == ring.n + 1 && |s.gpio.sense| == NUM_PINS
    {
      Service(gpio.State(), ring.State(), debounced, managed)
    }

    method SetEdge(pin: Pin, level: bool)
      requires Valid()
      modifies this, gpio
      ensures Valid() && Value() == Step(ring.n, old(Value()), SetEdgeCb(pin, level))
    {
      gpio.SetEdgeCbMask({pin}, if level then {pin} else {});
      debounced := debounced + {pin};
      managed := managed + {pin};
    }

    method UnsetEdge(pin: Pin)
      requires Valid()
      modifies this, gpio, ring.shiftarr
      ensures Valid() && Value() == Step(ring.n, old(Value()), UnsetEdgeCb(pin))
    {
      gpio.UnsetEdgeCbMask({pin});
      ring.Forget(pin);
      managed := managed - {pin};
    }

    /** The PORT interrupt: every served pin of the service asks the shift register to be re-enabled. Returns the calls
        made, in order, to the users' callbacks and to callbacks that are not the service's. */
    method HandlePortInterrupt(levels: Pins, rearm: map<Pin, bool>) returns (called: seq<(Pin, bool)>)
      requires Valid()
      modifies gpio, ring, ring.shiftarr
      ensures Valid() && Value() == Step(ring.n, old(Value()), PortInterrupt(levels, rearm))
      ensures Serves(called, Fired(old(Value()).gpio, levels), levels)
    {
      ghost var n, r0 := ring.n, ring.State();
      ghost var fired := Fired(gpio.State(), levels);
      called := gpio.GpioteIrqHandler(levels, DirectRearms(rearm, debounced));
      for i := 0 to |called|
        invariant Valid()
        invariant gpio.State() == Interrupted(old(gpio.State()), levels, DirectRearms(rearm, debounced))
        invariant ring.State() == RequestAll(n, r0, PinsOf(called[..i]) * debounced)
      {
        DispatchTo(called[i].0, r0, PinsOf(called[..i]));
        PinsOfNext(called, i);
      }
      assert called[..|called|] == called;
      ServedPins(called, fired, levels);
    }

    /** debounce_gpio_cb, if that is the pin's callback. */
    method DispatchTo(pin: Pin, ghost r0: Ring, ghost pins: Pins)
      requires Valid() && |r0.cells| == ring.n + 1 && ring.State() == RequestAll(ring.n, r0, pins * debounced)
      modifies ring, ring.shiftarr
      ensures Valid() && ring.State() == RequestAll(ring.n, r0, (pins + {pin}) * debounced)
    {
      if pin in debounced {
        ring.DebounceGpioCb(pin);
        RequestOneMore(ring.n, r0, pins * debounced, pin);
        assert (pins + {pin}) * debounced == pins * debounced + {pin};
      } else {
        assert (pins + {pin}) * debounced == pins * debounced;
      }
    }

    method HandleTimerExpiry(levels: Pins)
      requires Valid() && ring.timerRunning
      modifies this, gpio, ring, ring.shiftarr
      ensures Valid() && Value() == Step(ring.n, old(Value()), TimerExpiry(levels))
    {
      ghost var g0 := gpio.State();
      var served := ring.DebounceTimerCb();
      if served != {} {
        gpio.SetEdgeCbMask(served, levels);
        debounced := debounced + served;
      } else {
        RearmNothing(g0, levels);
        assert debounced + {} == debounced;
      }
    }
  }

  lemma PinsOfNext(called: seq<(Pin, bool)>, i: nat)
    requires i < |called|
    ensures PinsOf(called[..i + 1]) == PinsOf(called[..i]) + {called[i].0}
  {
    assert called[..i + 1] == called[..i] + [called[i]];
  }

  function PinsOf(called: seq<(Pin, bool)>): Pins {
    set c | c in called :: c.0
  }

  lemma RequestOneMore(n: nat, r: Ring, pins: Pins, pin: Pin)
    requires |r.cells| == n + 1
    ensures Requested(n, RequestAll(n, r, pins), pin) == RequestAll(n, r, pins + {pin})
  {
    var r1, r2 := Requested(n, RequestAll(n, r, pins), pin), RequestAll(n, r, pins + {pin});
    assert r.cells[n] + pins + {pin} == r.cells[n] + (pins + {pin});
    assert pins == {} ==> pins + {pin} == {pin};
    assert r1.cells == r2.cells;
  }

  lemma ServedPins(called: seq<(Pin, bool)>, fired: Pins, levels: Pins)
    requires Serves(called, fired, levels)
    ensures PinsOf(called) == fired
  {
    forall p | p in fired
      ensures p in PinsOf(called)
    {
      assert (p, p in levels) in called;
    }
  }

  lemma RearmNothing(g: State, levels: Pins)
    requires |g.sense| == NUM_PINS
    ensures Armed(g, {}, levels) == g
  {
    assert Armed(g, {}, levels).sense == g.sense;
    assert Armed(g, {}, levels).enabled == g.enabled;
    assert Armed(g, {}, levels).fromLevel == g.fromLevel;
  }
}
