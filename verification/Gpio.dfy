/** One-shot GPIO edge interrupts. A 32-bit mask is modelled as the set of its bit positions. */
module Gpio {

  const NUM_PINS := 32

  type Pin = p: int | 0 <= p < NUM_PINS

  type Pins = set<Pin>

  datatype Sense = NoSense | SenseLow | SenseHigh

  /** The lowest set bit, and the mask without it. */
  method GetNextBitPos(mask: Pins) returns (pos: Pin, rest: Pins)
    requires mask != {}
    ensures pos in mask && forall i :: i in mask ==> pos <= i
    ensures rest == mask - {pos}
  {
    var some :| some in mask;
    pos := 0;
    while pos !in mask
      invariant forall i :: i in mask ==> pos <= i
      decreases NUM_PINS - pos
    {
      assert pos < some;
      pos := pos + 1;
    }
    rest := mask - {pos};
  }

  // ---- the driver's state, as a value ----

  /** Enabled pins, the pins whose recorded from-level is high, and what the hardware senses. */
  datatype State = GpioState(enabled: Pins, fromLevel: Pins, sense: seq<Sense>)

  function SenseFor(fromHigh: bool): Sense {
    if fromHigh then SenseLow else SenseHigh
  }

  /** A pin is enabled exactly when its sense is configured, and then senses the opposite of its from-level. */
  ghost predicate Agreement(g: State) {
    && |g.sense| == NUM_PINS
    && forall p: Pin :: g.sense[p] == if p in g.enabled then SenseFor(p in g.fromLevel) else NoSense
  }

  function Armed(g: State, mask: Pins, fromLevel: Pins): State
    requires |g.sense| == NUM_PINS
  {
    GpioState(g.enabled + mask, (g.fromLevel - mask) + (fromLevel * mask),
              seq(NUM_PINS, p requires 0 <= p < NUM_PINS => if p in mask then SenseFor(p in fromLevel) else g.sense[p]))
  }

  function Disarmed(g: State, mask: Pins): State
    requires |g.sense| == NUM_PINS
  {
    GpioState(g.enabled - mask, g.fromLevel,
              seq(NUM_PINS, p requires 0 <= p < NUM_PINS => if p in mask then NoSense else g.sense[p]))
  }

  /** The pins an interrupt serves: enabled, and at another level than recorded. */
  function Fired(g: State, levels: Pins): Pins {
    set p | p in g.enabled && (p in levels) != (p in g.fromLevel)
  }

  /** An interrupt disarms the pins it serves; a callback may re-arm its own pin, from the level given in `rearm`. */
  function Interrupted(g: State, levels: Pins, rearm: map<Pin, bool>): State
    requires |g.sense| == NUM_PINS
  {
    var fired := Fired(g, levels);
    Armed(Disarmed(g, fired), set p | p in fired && p in rearm, set p | p in fired && p in rearm && rearm[p])
  }

  datatype Call = SetEdge(mask: Pins, fromLevel: Pins)
                | UnsetEdge(mask: Pins)
                | Interrupt(levels: Pins, rearm: map<Pin, bool>)

  function GpioStep(g: State, c: Call): (g': State)
    requires |g.sense| == NUM_PINS
    ensures |g'.sense| == NUM_PINS
  {
    match c
    case SetEdge(mask, fromLevel) => Armed(g, mask, fromLevel)
    case UnsetEdge(mask) => Disarmed(g, mask)
    case Interrupt(levels, rearm) => Interrupted(g, levels, rearm)
  }

  function GpioRun(g: State, calls: seq<Call>): (g': State)
    requires |g.sense| == NUM_PINS
    ensures |g'.sense| == NUM_PINS
  {
    if calls == [] then g else GpioStep(GpioRun(g, calls[..|calls| - 1]), calls[|calls| - 1])
  }

  lemma StepKeepsAgreement(g: State, c: Call)
    requires Agreement(g)
    ensures Agreement(GpioStep(g, c))
  {
    if c.Interrupt? {
      var fired := Fired(g, c.levels);
      var d := Disarmed(g, fired);
      forall p: Pin
        ensures d.sense[p] == if p in d.enabled then SenseFor(p in d.fromLevel) else NoSense
      {
      }
    }
  }

  /** Enabled bits, configured senses and from-levels agree after every API call and every interrupt. */
  lemma {:induction false} RunKeepsAgreement(g: State, calls: seq<Call>)
    requires Agreement(g)
    ensures Agreement(GpioRun(g, calls))
  {
    if calls != [] {
      RunKeepsAgreement(g, calls[..|calls| - 1]);
      StepKeepsAgreement(GpioRun(g, calls[..|calls| - 1]), calls[|calls| - 1]);
    }
  }

  /** What the hardware does: a pin raises the PORT event while it is at the level it senses. */
  predicate Raises(sense: Sense, high: bool) {
    match sense
    case NoSense => false
    case SenseLow => !high
    case SenseHigh => high
  }

  /** After any calls and interrupts, a pin raises the PORT event exactly if the handler would serve it: it is enabled,
      and at another level than it was armed from. So the event is raised exactly if there is a pin to serve. */
  lemma RaisedIffFired(g: State, calls: seq<Call>, levels: Pins)
    requires Agreement(g)
    ensures var g' := GpioRun(g, calls);
      && (forall p: Pin :: Raises(g'.sense[p], p in levels) <==> p in Fired(g', levels))
      && ((exists p: Pin :: Raises(g'.sense[p], p in levels)) <==> Fired(g', levels) != {})
  {
    RunKeepsAgreement(g, calls);
    var g' := GpioRun(g, calls);
    forall p: Pin
      ensures Raises(g'.sense[p], p in levels) <==> p in Fired(g', levels)
    {
    }
    if Fired(g', levels) != {} {
      var p :| p in Fired(g', levels);
      assert Raises(g'.sense[p], p in levels);
    }
  }

  /** Arming a pin from a level raises the event at the other level, whatever was set for it before. */
  lemma ArmedRaises(g: State, mask: Pins, fromLevel: Pins, levels: Pins, p: Pin)
    requires |g.sense| == NUM_PINS && p in mask
    ensures Raises(Armed(g, mask, fromLevel).sense[p], p in levels) <==> (p in levels) != (p in fromLevel)
  {
  }

  /** The calls made by one interrupt: exactly the served pins, once each, in ascending order, with their levels. */
  ghost predicate Serves(called: seq<(Pin, bool)>, fired: Pins, levels: Pins) {
    && (forall i, j :: 0 <= i < j < |called| ==> called[i].0 < called[j].0)
    && (forall i :: 0 <= i < |called| ==> called[i].0 in fired && called[i].1 == (called[i].0 in levels))
    && (forall p :: p in fired ==> (p, p in levels) in called)
  }

  /** The pins in `left` are still to be served; those before them have been. */
  ghost predicate Serving(called: seq<(Pin, bool)>, fired: Pins, left: Pins, levels: Pins) {
    && left <= fired
    && (forall p, q :: p in fired && p !in left && q in left ==> p < q)
    && Serves(called, fired - left, levels)
  }

  lemma ServingNext(called: seq<(Pin, bool)>, fired: Pins, left: Pins, levels: Pins, pin: Pin)
    requires Serving(called, fired, left, levels) && pin in left && forall p :: p in left ==> pin <= p
    ensures Serving(called + [(pin, pin in levels)], fired, left - {pin}, levels)
  {
    var all := called + [(pin, pin in levels)];
    assert fired - (left - {pin}) == (fired - left) + {pin};
    forall p | p in fired - (left - {pin})
      ensures (p, p in levels) in all
    {
      if p == pin {
        assert all[|called|] == (pin, pin in levels);
      } else {
        assert (p, p in levels) in called;
      }
    }
  }

  class GpioDriver {
    var intEnabled: Pins
    var intFromLevel: Pins
    var sense: seq<Sense>

    constructor ()
      ensures intEnabled == {} && intFromLevel == {} && Agreement(State())
    {
      intEnabled, intFromLevel := {}, {};
      sense := seq(NUM_PINS, _ => NoSense);
    }

    function State(): State
      reads this
    {
      GpioState(intEnabled, intFromLevel, sense)
    }

    /** Configure the sense of every pin in the mask, one bit at a time. */
    method ConfigureSenses(pinmask: Pins, fromLevel: Pins, enable: bool)
      requires |sense| == NUM_PINS
      modifies this`sense
      ensures |sense| == NUM_PINS
      ensures forall p: Pin ::
        sense[p] == if p !in pinmask then old(sense)[p] else if enable then SenseFor(p in fromLevel) else NoSense
    {
      var left := pinmask;
      while left != {}
        invariant left <= pinmask && |sense| == NUM_PINS
        invariant forall p: Pin ::
          sense[p] == if p !in pinmask || p in left then old(sense)[p]
                      else if enable then SenseFor(p in fromLevel) else NoSense
        decreases |left|
      {
        var pin;
        pin, left := GetNextBitPos(left);
        sense := sense[pin := if enable then SenseFor(pin in fromLevel) else NoSense];
      }
    }

    method SetEdgeCbMask(pinmask: Pins, fromLevel: Pins)
      requires |sense| == NUM_PINS
      modifies this
      ensures State() == Armed(old(State()), pinmask, fromLevel)
    {
      intEnabled := intEnabled + pinmask;
      intFromLevel := (intFromLevel - pinmask) + (fromLevel * pinmask);
      ConfigureSenses(pinmask, fromLevel, true);
      assert sense == Armed(old(State()), pinmask, fromLevel).sense;
    }

    method UnsetEdgeCbMask(pinmask: Pins)
      requires |sense| == NUM_PINS
      modifies this
      ensures State() == Disarmed(old(State()), pinmask)
    {
      intEnabled := intEnabled - pinmask;
      ConfigureSenses(pinmask, {}, false);
      assert sense == Disarmed(old(State()), pinmask).sense;
    }

    /** The PORT interrupt at the given pin levels; the callback of a pin in `rearm` arms its own pin again. */
    method GpioteIrqHandler(levels: Pins, rearm: map<Pin, bool>) returns (called: seq<(Pin, bool)>)
      requires |sense| == NUM_PINS
      modifies this
      ensures State() == Interrupted(old(State()), levels, rearm)
      ensures Serves(called, Fired(old(State()), levels), levels)
    {
      ghost var g0, fired := State(), Fired(State(), levels);
      var interruptsFrom: Pins := set p | p in intEnabled && (p in levels) != (p in intFromLevel);
      intEnabled := intEnabled - interruptsFrom;
      called := [];
      while interruptsFrom != {}
        invariant Serving(called, fired, interruptsFrom, levels)
        invariant HandledUpTo(State(), g0, fired, interruptsFrom, rearm)
        decreases |interruptsFrom|
      {
        ghost var left := interruptsFrom;
        var pin;
        pin, interruptsFrom := GetNextBitPos(interruptsFrom);
        ServingNext(called, fired, left, levels, pin);
        called := called + [(pin, pin in levels)];
        ServePin(pin, g0, fired, left, rearm);
      }
      HandledAll(State(), g0, fired, levels, rearm);
      assert fired - interruptsFrom == fired;
    }

    method ServePin(pin: Pin, ghost g0: State, ghost fired: Pins, ghost left: Pins, rearm: map<Pin, bool>)
      requires |sense| == NUM_PINS && pin in left && left <= fired && HandledUpTo(State(), g0, fired, left, rearm)
      modifies this
      ensures HandledUpTo(State(), g0, fired, left - {pin}, rearm)
    {
      sense := sense[pin := NoSense];
      if pin in rearm {
        SetEdgeCbMask({pin}, if rearm[pin] then {pin} else {});
      }
    }
  }

  /** Where the handler stands when the pins in `left` are still to be served. */
  ghost predicate HandledUpTo(g: State, g0: State, fired: Pins, left: Pins, rearm: map<Pin, bool>) {
    && |g.sense| == |g0.sense| == NUM_PINS
    && forall p: Pin ::
         var rearmed := p in fired && p !in left && p in rearm;
         && (p in g.enabled <==> (p in g0.enabled && p !in fired) || rearmed)
         && (p in g.fromLevel <==> if rearmed then rearm[p] else p in g0.fromLevel)
         && g.sense[p] == if rearmed then SenseFor(rearm[p])
                          else if p in fired && p !in left then NoSense else g0.sense[p]
  }

  lemma HandledAll(g: State, g0: State, fired: Pins, levels: Pins, rearm: map<Pin, bool>)
    requires HandledUpTo(g, g0, fired, {}, rearm) && fired == Fired(g0, levels)
    ensures g == Interrupted(g0, levels, rearm)
  {
    var g' := Interrupted(g0, levels, rearm);
    assert g.sense == g'.sense;
    assert g.enabled == g'.enabled;
    assert g.fromLevel == g'.fromLevel;
  }
}
