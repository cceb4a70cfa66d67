/** From pin to report: the debounce service, the buttons' queues, the collector and the sink in one run. Interrupts run
    to completion; the steps of the collector and of other threads come in between in any order. */
module ButtonReports {
  import opened Gpio
  import opened DebouncedPins
  import opened DebouncedLevels
  import B = Buttons
  import Collector
  import ButtonPath
  import Q = ToggleQueue

  /** The number of debounce shifts, the number of report sources, which of them the buttons are, and their pins. */
  datatype Setup = Setup(n: nat, sources: nat, source: nat, pins: seq<Pin>)

  /** `heard[k]` are the states (pressed or not) that interrupts told the source about button k. */
  datatype Joint = Joint(told: Told, app: B.State, heard: seq<seq<bool>>)

  datatype Input = Hardware(e: Event, calls: seq<nat>)  // with the buttons whose callbacks it runs, in order
                 | App(a: B.Action)                     // a step of the collector, another source or thread

  ghost predicate Valid(u: Setup, j: Joint) {
    && u.source < u.sources && WellFormed(u.n, j.told)
    && |j.app.buttons| == |j.heard| == |u.pins|
  }

  ghost predicate DistinctPins(u: Setup) {
    forall k, l :: 0 <= k < l < |u.pins| ==> u.pins[k] != u.pins[l]
  }

  /** Exactly the buttons whose pins the interrupt reports, each once. */
  ghost predicate AreCalls(u: Setup, t: Told, e: Event, calls: seq<nat>) {
    && (forall i, l :: 0 <= i < l < |calls| ==> calls[i] != calls[l])
    && (forall i :: 0 <= i < |calls| ==> calls[i] < |u.pins|)
    && (forall k :: 0 <= k < |u.pins| ==>
          (k in calls <==> e.PortInterrupt? && u.pins[k] in Reported(t.service, e.levels)))
  }

  /** Buttons are active low. */
  function Pressed(u: Setup, k: nat, levels: Pins): bool
    requires k < |u.pins|
  {
    u.pins[k] !in levels
  }

  function Toggles(u: Setup, levels: Pins, calls: seq<nat>): (acts: seq<B.Action>)
    requires forall i :: 0 <= i < |calls| ==> calls[i] < |u.pins|
    ensures |acts| == |calls|
  {
    if calls == [] then [] else [B.Toggle(calls[0], Pressed(u, calls[0], levels))] + Toggles(u, levels, calls[1..])
  }

  /** What an input does on the side of the application. */
  function Acts(u: Setup, i: Input): seq<B.Action>
    requires i.Hardware? ==> forall l :: 0 <= l < |i.calls| ==> i.calls[l] < |u.pins|
  {
    match i
    case App(a) => [a]
    case Hardware(e, calls) => if e.PortInterrupt? then Toggles(u, e.levels, calls) else []
  }

  ghost predicate Enabled(u: Setup, j: Joint, i: Input)
    requires Valid(u, j)
  {
    && (match i
        case App(a) => !a.Toggle?
        case Hardware(e, calls) => AreCalls(u, j.told, e, calls) && !(e.SetEdgeCb? && e.pin in u.pins))
    && B.CanRun(u.sources, u.source, j.app, Acts(u, i))
  }

  function HeardNow(u: Setup, heard: seq<seq<bool>>, i: Input): (h: seq<seq<bool>>)
    requires |heard| == |u.pins|
    ensures |h| == |heard|
  {
    seq(|heard|, k requires 0 <= k < |heard| =>
      if i.Hardware? && i.e.PortInterrupt? && k in i.calls then heard[k] + [Pressed(u, k, i.e.levels)] else heard[k])
  }

  ghost function Step(u: Setup, j: Joint, i: Input): (j': Joint)
    requires Valid(u, j) && Enabled(u, j, i)
    ensures Valid(u, j')
  {
    SameCount(u, j.app, Acts(u, i));
    Joint(if i.Hardware? then Tell(u.n, j.told, i.e) else j.told,
          B.Run(u.sources, u.source, j.app, Acts(u, i)),
          HeardNow(u, j.heard, i))
  }

  lemma {:induction false} SameCount(u: Setup, s: B.State, acts: seq<B.Action>)
    requires u.source < u.sources && B.CanRun(u.sources, u.source, s, acts)
    ensures |B.Run(u.sources, u.source, s, acts).buttons| == |s.buttons|
    decreases |acts|
  {
    if acts != [] {
      SameCount(u, B.Step(u.sources, u.source, s, acts[0]), acts[1..]);
    }
  }

  ghost predicate CanRun(u: Setup, j: Joint, inputs: seq<Input>)
    requires Valid(u, j)
    decreases |inputs|
  {
    inputs == [] || (Enabled(u, j, inputs[0]) && CanRun(u, Step(u, j, inputs[0]), inputs[1..]))
  }

  ghost function Run(u: Setup, j: Joint, inputs: seq<Input>): (j': Joint)
    requires Valid(u, j) && CanRun(u, j, inputs)
    ensures Valid(u, j')
    decreases |inputs|
  {
    if inputs == [] then j else Run(u, Step(u, j, inputs[0]), inputs[1..])
  }

  // ---- the application's part is a run of its own ----

  lemma {:induction false} AppRunConcat(u: Setup, s: B.State, a: seq<B.Action>, b: seq<B.Action>)
    requires u.source < u.sources && B.CanRun(u.sources, u.source, s, a)
    requires B.CanRun(u.sources, u.source, B.Run(u.sources, u.source, s, a), b)
    ensures B.CanRun(u.sources, u.source, s, a + b)
    ensures B.Run(u.sources, u.source, s, a + b)
         == B.Run(u.sources, u.source, B.Run(u.sources, u.source, s, a), b)
    decreases |a|
  {
    if a == [] {
      assert a + b == b;
    } else {
      assert (a + b)[1..] == a[1..] + b;
      AppRunConcat(u, B.Step(u.sources, u.source, s, a[0]), a[1..], b);
    }
  }

  lemma {:induction false} AppRuns(u: Setup, j: Joint, inputs: seq<Input>) returns (acts: seq<B.Action>)
    requires Valid(u, j) && CanRun(u, j, inputs)
    ensures B.CanRun(u.sources, u.source, j.app, acts)
    ensures B.Run(u.sources, u.source, j.app, acts) == Run(u, j, inputs).app
    decreases |inputs|
  {
    if inputs == [] {
      acts := [];
    } else {
      var rest := AppRuns(u, Step(u, j, inputs[0]), inputs[1..]);
      acts := Acts(u, inputs[0]) + rest;
      AppRunConcat(u, j.app, Acts(u, inputs[0]), rest);
    }
  }

  // ---- what the queues accept of what was heard ----

  /** The button's story is what was heard about it, repeats removed, and its queue ends in the last of it. */
  ghost predicate Follows(x: B.Button, heard: seq<bool>) {
    && B.Story(x) == B.Collapsed([x.initial] + heard)
    && Q.Bit(x.queue.head) == ([x.initial] + heard)[|heard|]
  }

  ghost predicate SameStory(x: B.Button, y: B.Button) {
    x.initial == y.initial && x.accepted == y.accepted && x.queue.head == y.queue.head
  }

  lemma OtherActKeepsStory(u: Setup, s: B.State, a: B.Action, k: nat)
    requires u.source < u.sources && B.Enabled(u.sources, u.source, s, a) && k < |s.buttons|
    requires a.Toggle? ==> a.k != k
    ensures var s' := B.Step(u.sources, u.source, s, a);
      |s'.buttons| == |s.buttons| && SameStory(s.buttons[k], s'.buttons[k])
  {
  }

  lemma OneAct(u: Setup, s: B.State, a: B.Action)
    requires u.source < u.sources && B.CanRun(u.sources, u.source, s, [a])
    ensures B.Enabled(u.sources, u.source, s, a)
    ensures B.Run(u.sources, u.source, s, [a]) == B.Step(u.sources, u.source, s, a)
  {
    assert [a][1..] == [];
  }

  lemma {:induction false} TogglesReach(u: Setup, s: B.State, levels: Pins, calls: seq<nat>, k: nat)
    requires u.source < u.sources && k < |u.pins| == |s.buttons|
    requires forall i :: 0 <= i < |calls| ==> calls[i] < |u.pins|
    requires forall i, l :: 0 <= i < l < |calls| ==> calls[i] != calls[l]
    requires B.CanRun(u.sources, u.source, s, Toggles(u, levels, calls))
    ensures var s' := B.Run(u.sources, u.source, s, Toggles(u, levels, calls));
      && |s'.buttons| == |s.buttons|
      && (if k in calls then SameStory(B.Put(s.buttons[k], Pressed(u, k, levels)), s'.buttons[k])
          else SameStory(s.buttons[k], s'.buttons[k]))
    decreases |calls|
  {
    if calls != [] {
      var acts := Toggles(u, levels, calls);
      var s1 := B.Step(u.sources, u.source, s, acts[0]);
      assert acts[1..] == Toggles(u, levels, calls[1..]);
      TogglesReach(u, s1, levels, calls[1..], k);
      if calls[0] != k {
        OtherActKeepsStory(u, s, acts[0], k);
        assert k in calls <==> k in calls[1..];
      } else {
        assert k !in calls[1..];
        assert SameStory(B.Put(s.buttons[k], Pressed(u, k, levels)), s1.buttons[k]);
      }
    }
  }

  /** A queue takes what it hears unless it is a repeat. */
  lemma PutFollows(x: B.Button, y: B.Button, heard: seq<bool>, event: bool)
    requires Follows(x, heard) && SameStory(B.Put(x, event), y)
    ensures Follows(y, heard + [event])
  {
    ButtonPath.PutShowsEvent(x.queue, event);
    B.CollapsedSnoc([x.initial] + heard, event);
    B.SnocAssociates(x.initial, heard, event);
    B.SnocAssociates(x.initial, x.accepted, event);
  }

  lemma StepFollows(u: Setup, j: Joint, i: Input, k: nat)
    requires Valid(u, j) && Enabled(u, j, i) && k < |u.pins| && Follows(j.app.buttons[k], j.heard[k])
    ensures Follows(Step(u, j, i).app.buttons[k], Step(u, j, i).heard[k])
    ensures Step(u, j, i).app.buttons[k].initial == j.app.buttons[k].initial
  {
    var j' := Step(u, j, i);
    if i.Hardware? && i.e.PortInterrupt? {
      TogglesReach(u, j.app, i.e.levels, i.calls, k);
      if k in i.calls {
        PutFollows(j.app.buttons[k], j'.app.buttons[k], j.heard[k], Pressed(u, k, i.e.levels));
      }
    } else if i.App? {
      OneAct(u, j.app, i.a);
      OtherActKeepsStory(u, j.app, i.a, k);
    }
  }

  lemma {:induction false} RunFollows(u: Setup, j: Joint, inputs: seq<Input>, k: nat)
    requires Valid(u, j) && CanRun(u, j, inputs) && k < |u.pins| && Follows(j.app.buttons[k], j.heard[k])
    ensures Follows(Run(u, j, inputs).app.buttons[k], Run(u, j, inputs).heard[k])
    ensures Run(u, j, inputs).app.buttons[k].initial == j.app.buttons[k].initial
    decreases |inputs|
  {
    if inputs != [] {
      StepFollows(u, j, inputs[0], k);
      RunFollows(u, Step(u, j, inputs[0]), inputs[1..], k);
    }
  }

  // ---- from pins to reports ----

  function Start(u: Setup, told: Told, states: seq<bool>, order: seq<nat>): Joint
    requires |states| == |u.pins|
  {
    Joint(told, B.Initial(states, order), seq(|u.pins|, _ => []))
  }

  /** In every run: the states reported for a button, after its initial state and with repeats removed, are a prefix of
      the states its interrupts told, with repeats removed, and all of them once the collector is blocked with the
      source enabled and no set_source_enabled call halfway. */
  lemma ReportsFollowInterrupts(u: Setup, told: Told, states: seq<bool>, order: seq<nat>, inputs: seq<Input>, k: nat)
    requires u.source < u.sources <= Collector.MAX_NUM_OF_HID_SOURCES && WellFormed(u.n, told)
    requires k < |states| == |u.pins| && forall i :: 0 <= i < |states| ==> i in order
    requires CanRun(u, Start(u, told, states, order), inputs)
    ensures var j := Run(u, Start(u, told, states, order), inputs);
      var x, heard := j.app.buttons[k], [states[k]] + j.heard[k];
      && B.Collapsed([states[k]] + x.log) <= B.Collapsed(heard)
      && (j.app.c.pc.Blocked? && u.source in j.app.c.enabled && j.app.c.setters == 0 ==>
            B.Collapsed([states[k]] + x.log) == B.Collapsed(heard))
  {
    var j0 := Start(u, told, states, order);
    var acts := AppRuns(u, j0, inputs);
    B.Delivery(u.sources, u.source, states, order, acts, k);
    assert [states[k]] + [] == [states[k]];
    assert Follows(j0.app.buttons[k], j0.heard[k]);
    RunFollows(u, j0, inputs, k);
  }

  // ---- calm runs ----

  /** Button k's pin has settled whenever it is re-enabled. */
  ghost predicate Calm(u: Setup, j: Joint, inputs: seq<Input>, k: nat)
    requires Valid(u, j) && CanRun(u, j, inputs) && k < |u.pins|
    decreases |inputs|
  {
    inputs != [] ==>
      && (inputs[0].Hardware? ==> Settled(u.n, j.told, inputs[0].e, u.pins[k]))
      && Calm(u, Step(u, j, inputs[0]), inputs[1..], k)
  }

  /** What was heard about button k alternates, and its last is what the service told. */
  ghost predicate Alternates(u: Setup, j: Joint, k: nat, initial: bool)
    requires k < |u.pins| == |j.heard|
  {
    var all := [initial] + j.heard[k];
    && InStep(j.told, u.pins[k])
    && B.Collapsed(all) == all
    && (all[|all| - 1] <==> u.pins[k] !in j.told.high)
  }

  /** One more state, the opposite of the last. */
  lemma OneMore(initial: bool, heard: seq<bool>, event: bool)
    requires B.Collapsed([initial] + heard) == [initial] + heard && ([initial] + heard)[|heard|] != event
    ensures B.Collapsed([initial] + (heard + [event])) == [initial] + (heard + [event])
  {
    B.CollapsedSnoc([initial] + heard, event);
    B.SnocAssociates(initial, heard, event);
  }

  lemma StepAlternates(u: Setup, j: Joint, i: Input, k: nat, initial: bool)
    requires Valid(u, j) && Enabled(u, j, i) && k < |u.pins| && Alternates(u, j, k, initial)
    requires i.Hardware? ==> Settled(u.n, j.told, i.e, u.pins[k])
    ensures Alternates(u, Step(u, j, i), k, initial)
  {
    if i.Hardware? {
      StepKeepsInStep(u.n, j.told, i.e, u.pins[k]);
      if i.e.PortInterrupt? && k in i.calls {
        CallsAlternate(u.n, j.told, i.e.levels, i.e.rearm, u.pins[k]);
        OneMore(initial, j.heard[k], Pressed(u, k, i.e.levels));
      }
    }
  }

  lemma {:induction false} CalmAlternates(u: Setup, j: Joint, inputs: seq<Input>, k: nat, initial: bool)
    requires Valid(u, j) && CanRun(u, j, inputs) && k < |u.pins|
    requires Calm(u, j, inputs, k) && Alternates(u, j, k, initial)
    ensures Alternates(u, Run(u, j, inputs), k, initial)
    decreases |inputs|
  {
    if inputs != [] {
      StepAlternates(u, j, inputs[0], k, initial);
      CalmAlternates(u, Step(u, j, inputs[0]), inputs[1..], k, initial);
    }
  }

  /** While button k's pin settles before it is re-enabled, whatever other pins do, the states reported for it are, with
      repeats removed, a prefix of its initial state and every state its interrupts told. */
  lemma CalmReportsFollowLevels(u: Setup, told: Told, states: seq<bool>, order: seq<nat>, inputs: seq<Input>, k: nat)
    requires u.source < u.sources <= Collector.MAX_NUM_OF_HID_SOURCES && WellFormed(u.n, told)
    requires k < |states| == |u.pins| && forall i :: 0 <= i < |states| ==> i in order
    requires InStep(told, u.pins[k]) && (states[k] <==> u.pins[k] !in told.high)
    requires CanRun(u, Start(u, told, states, order), inputs)
    requires Calm(u, Start(u, told, states, order), inputs, k)
    ensures var j := Run(u, Start(u, told, states, order), inputs);
      var x, heard := j.app.buttons[k], [states[k]] + j.heard[k];
      && B.Collapsed([states[k]] + x.log) <= heard
      && (j.app.c.pc.Blocked? && u.source in j.app.c.enabled && j.app.c.setters == 0 ==>
            B.Collapsed([states[k]] + x.log) == heard)
  {
    ReportsFollowInterrupts(u, told, states, order, inputs, k);
    assert [states[k]] + [] == [states[k]];
    CalmAlternates(u, Start(u, told, states, order), inputs, k, states[k]);
  }

  /** The buttons source's initialization, which finds the buttons in these states. */
  function Initialized(u: Setup, told: Told, states: seq<bool>): (t: Told)
    requires WellFormed(u.n, told) && |states| <= |u.pins|
    ensures WellFormed(u.n, t)
  {
    if states == [] then told
    else
      var k := |states| - 1;
      Tell(u.n, Initialized(u, told, states[..k]), SetEdgeCb(u.pins[k], !states[k]))
  }

  /** It brings about what the theorem starts from. */
  lemma {:induction false} InitializedKnown(u: Setup, told: Told, states: seq<bool>, k: nat)
    requires WellFormed(u.n, told) && DistinctPins(u) && k < |states| <= |u.pins|
    ensures var t := Initialized(u, told, states);
      InStep(t, u.pins[k]) && (states[k] <==> u.pins[k] !in t.high)
  {
    var l := |states| - 1;
    if k < l {
      InitializedKnown(u, told, states[..l], k);
      StepKeepsInStep(u.n, Initialized(u, told, states[..l]), SetEdgeCb(u.pins[l], !states[l]), u.pins[k]);
    }
  }
}
