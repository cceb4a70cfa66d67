/** The buttons source: pin interrupts put toggles into one queue per button, the collector's filler takes at most one
    toggle per button and round into the report. The filler's queue accesses and the interrupts interleave freely. */
module Buttons {
  import opened ToggleQueue
  import Collector

  type Mask = Collector.Mask

  /** One button. `queue` and `shown` (its bit in the report) are the firmware's; the rest is history: the toggles its
      queue accepted, how many of them the filler has taken, how many the sink has been given, and the states the sink
      was given in reports from the first round the buttons filler ran in. */
  datatype Button = Button(initial: bool, queue: Counters, shown: bool,
                           accepted: seq<bool>, taken: nat, logged: nat, log: seq<bool>)

  /** Where the filler is: about to read button k, about to check the j-th queue, about to notify, or done. */
  datatype Fill = NotFilling | Reading(k: nat) | Checking(j: nat) | Notifying | Finished

  /** Buttons are numbered in the order the filler reads them; `order` is the order of their queues in memory, in which
      the filler checks them. `readUpTo` buttons have been read in this round; `filled` once all have been read in some
      round. */
  datatype State = State(c: Collector.State, buttons: seq<Button>, order: seq<nat>, fill: Fill, readUpTo: nat,
                         filled: bool)

  datatype Action =
    | Toggle(k: nat, event: bool)       // hid_src_buttons_interrupt_cb
    | Other(a: Collector.Action)        // other sources and threads
    | Collect                           // the collector thread's next step

  /** Initial state followed by all accepted toggles. */
  function Story(x: Button): (t: seq<bool>)
    ensures |t| == |x.accepted| + 1
  {
    [x.initial] + x.accepted
  }

  function QueueEmpty(x: Button): bool {
    x.queue.tail == x.queue.head
  }

  function Put(x: Button, event: bool): Button {
    if Bit(x.queue.head) == event then x
    else x.(queue := PutC(x.queue, event), accepted := x.accepted + [event])
  }

  function Read(x: Button): Button {
    var q := PopC(x.queue);
    x.(queue := q, shown := Bit(q.tail), taken := if QueueEmpty(x) then x.taken else x.taken + 1)
  }

  function Sunk(x: Button): Button {
    x.(log := x.log + [x.shown], logged := x.taken)
  }

  predicate Enabled(n: nat, source: nat, s: State, action: Action) {
    match action
    case Toggle(k, event) => k < |s.buttons| && |s.buttons[k].accepted| < s.buttons[k].taken + TWO_32 - 1
    case Other(a) => a != Collector.Collect && a != Collector.Post(source) && Collector.Enabled(n, s.c, a)
    case Collect => !s.c.pc.Blocked?
  }

  ghost function FillerStep(n: nat, source: nat, s: State): State
    requires source < n
  {
    match s.fill
    case Reading(k) =>
      if k < |s.buttons| then
        s.(buttons := s.buttons[k := Read(s.buttons[k])], readUpTo := k + 1, fill := Reading(k + 1),
           filled := s.filled || k + 1 == |s.buttons|)
      else s.(fill := Checking(0))
    case Checking(j) =>
      if j < |s.order| then
        var k := s.order[j];
        s.(fill := if k < |s.buttons| && !QueueEmpty(s.buttons[k]) then Notifying else Checking(j + 1))
      else s.(fill := Finished)
    case Notifying => s.(c := Collector.Step(n, s.c, Collector.Post(source)), fill := Finished)
    case Finished => s.(c := Collector.CollectStep(n, s.c), fill := NotFilling)
    case NotFilling => s
  }

  /** hid_sink_impl, once the buttons have been filled in at all. */
  function GivenToSink(s: State): State {
    s.(buttons := if s.filled then seq(|s.buttons|, k requires 0 <= k < |s.buttons| => Sunk(s.buttons[k]))
                  else s.buttons,
       readUpTo := 0)
  }

  ghost function CollectorStep(n: nat, source: nat, s: State): State
    requires source < n
  {
    if s.c.pc.Running? && s.c.pc.source == source then FillerStep(n, source, s)
    else
      var s1 := if s.c.pc == Collector.Filling({}) then GivenToSink(s) else s;
      var c := Collector.CollectStep(n, s.c);
      s1.(c := c, fill := if c.pc.Running? && c.pc.source == source then Reading(0) else NotFilling)
  }

  ghost function Step(n: nat, source: nat, s: State, action: Action): State
    requires source < n && Enabled(n, source, s, action)
  {
    match action
    case Toggle(k, event) =>
      var x := Put(s.buttons[k], event);
      if x == s.buttons[k] then s
      else s.(buttons := s.buttons[k := x], c := Collector.Step(n, s.c, Collector.Post(source)))
    case Other(a) => s.(c := Collector.Step(n, s.c, a))
    case Collect => CollectorStep(n, source, s)
  }

  // ---- one button ----

  /** A sequence with immediate repeats removed. */
  function Collapsed(s: seq<bool>): (r: seq<bool>)
    ensures s == [] <==> r == []
    ensures s != [] ==> r[|r| - 1] == s[|s| - 1]
  {
    if |s| <= 1 then s
    else if s[|s| - 1] == s[|s| - 2] then Collapsed(s[..|s| - 1])
    else Collapsed(s[..|s| - 1]) + [s[|s| - 1]]
  }

  lemma CollapsedSnoc(s: seq<bool>, b: bool)
    requires s != []
    ensures Collapsed(s + [b]) == if b == s[|s| - 1] then Collapsed(s) else Collapsed(s) + [b]
  {
    assert (s + [b])[..|s|] == s;
  }

  ghost predicate Alternates(t: seq<bool>) {
    forall i :: 0 <= i < |t| - 1 ==> t[i] != t[i + 1]
  }

  /** The toggles alternate, the sink is at most one behind the filler, and it has seen the story so far. */
  ghost predicate StoryInv(x: Button) {
    && x.taken <= |x.accepted|
    && Alternates(Story(x))
    && x.logged <= x.taken <= x.logged + 1
    && Collapsed([x.initial] + x.log) == Story(x)[..x.logged + 1]
  }

  /** The queue the counters of a button stand for. */
  function Waiting(x: Button): Queue
    requires x.taken <= |x.accepted|
  {
    Queue(Story(x)[x.taken], x.accepted[x.taken..])
  }

  ghost predicate ButtonInv(x: Button) {
    StoryInv(x) && Represents(x.queue, Waiting(x))
  }

  lemma EmptyIffAllTaken(x: Button)
    requires ButtonInv(x)
    ensures QueueEmpty(x) <==> x.taken == |x.accepted|
  {
    NewestIsHeadBit(x.queue, Waiting(x));
  }

  lemma PutKeeps(x: Button, event: bool)
    requires ButtonInv(x) && |x.accepted| < x.taken + TWO_32 - 1
    ensures ButtonInv(Put(x, event))
    ensures Put(x, event) == x || Story(Put(x, event)) == Story(x) + [event]
  {
    if Bit(x.queue.head) != event {
      NewestIsHeadBit(x.queue, Waiting(x));
      PutRefines(x.queue, Waiting(x), event);
      AcceptedStory(x, event, Put(x, event));
    }
  }

  lemma AcceptedStory(x: Button, event: bool, y: Button)
    requires StoryInv(x) && y == x.(queue := y.queue, accepted := x.accepted + [event])
    requires Newest(Waiting(x)) != event
    ensures StoryInv(y) && Story(y) == Story(x) + [event]
    ensures Waiting(y) == PutQ(Waiting(x), event)
  {
    SnocAssociates(x.initial, x.accepted, event);
    SnocSlices(x.accepted, event, x.taken);
    SnocSlices(Story(x), event, x.logged + 1);
    NewestIsLast(x);
    AlternatingSnoc(Story(x), event);
  }

  lemma SnocSlices(t: seq<bool>, b: bool, k: nat)
    requires k <= |t|
    ensures (t + [b])[k..] == t[k..] + [b] && (t + [b])[..k] == t[..k]
  {
  }

  lemma NewestIsLast(x: Button)
    requires x.taken <= |x.accepted|
    ensures Newest(Waiting(x)) == Story(x)[|x.accepted|]
  {
  }

  lemma AlternatingSnoc(t: seq<bool>, b: bool)
    requires t != [] && t[|t| - 1] != b && Alternates(t)
    ensures Alternates(t + [b])
  {
  }

  lemma ReadKeeps(x: Button)
    requires ButtonInv(x) && x.taken == x.logged
    ensures ButtonInv(Read(x))
    ensures Read(x).shown == Story(x)[Read(x).taken]
  {
    EmptyIffAllTaken(x);
    PopRefines(x.queue, Waiting(x));
    if !QueueEmpty(x) {
      assert x.accepted[x.taken..][1..] == x.accepted[x.taken + 1..];
    }
  }

  lemma SunkKeeps(x: Button)
    requires ButtonInv(x) && x.shown == Story(x)[x.taken]
    ensures ButtonInv(Sunk(x))
  {
    SunkStory(x);
  }

  lemma SunkStory(x: Button)
    requires StoryInv(x) && x.shown == Story(x)[x.taken]
    ensures StoryInv(Sunk(x)) && Waiting(Sunk(x)) == Waiting(x)
  {
    SeenGrows(x.initial, x.log, x.shown, Story(x), x.logged, x.taken);
    assert Story(Sunk(x)) == Story(x);
  }

  lemma SeenGrows(initial: bool, log: seq<bool>, b: bool, story: seq<bool>, logged: nat, taken: nat)
    requires logged <= taken <= logged + 1 && taken < |story| && Alternates(story) && b == story[taken]
    requires Collapsed([initial] + log) == story[..logged + 1]
    ensures Collapsed([initial] + (log + [b])) == story[..taken + 1]
  {
    var shown := [initial] + log;
    CollapsedSnoc(shown, b);
    SnocAssociates(initial, log, b);
    ShownExtends(story, logged, taken, Collapsed(shown), shown[|shown| - 1], b);
  }

  lemma SnocAssociates(a: bool, t: seq<bool>, b: bool)
    ensures [a] + (t + [b]) == ([a] + t) + [b]
  {
  }

  /** What the sink has seen of a story grows with the state at `taken`. */
  lemma ShownExtends(story: seq<bool>, logged: nat, taken: nat, seen: seq<bool>, last: bool, b: bool)
    requires logged <= taken <= logged + 1 && taken < |story|
    requires Alternates(story)
    requires seen == story[..logged + 1] && last == seen[|seen| - 1] && b == story[taken]
    ensures (if b == last then seen else seen + [b]) == story[..taken + 1]
  {
    assert last == story[logged];
    if taken > logged {
      assert story[logged] != story[logged + 1];
      assert story[..taken + 1] == story[..logged + 1] + [story[taken]];
    }
  }

  // ---- the whole system ----

  /** A queue that still holds toggles will be seen: the bit is posted, the filler is due, or it is running and has
      not passed that queue's check. */
  ghost predicate Covered(source: nat, s: State, k: nat) {
    || source in s.c.word
    || source in Collector.Todo(s.c.pc)
    || s.fill.Reading? || s.fill.Notifying?
    || (s.fill.Checking? && exists i :: s.fill.j <= i < |s.order| && s.order[i] == k)
  }

  ghost predicate Rounds(source: nat, s: State) {
    && |s.buttons| >= 1
    && (forall k :: 0 <= k < |s.buttons| ==> k in s.order)
    && (s.fill.NotFilling? <==> !(s.c.pc.Running? && s.c.pc.source == source))
    && (s.c.pc.Running? && s.c.pc.source == source ==> source !in s.c.pc.todo)
    && (!s.c.pc.Filling? && !s.c.pc.Running? ==> s.readUpTo == 0)
    && (source in Collector.Todo(s.c.pc) ==> s.readUpTo == 0)
    && (s.fill.NotFilling? ==> s.readUpTo == 0 || s.readUpTo == |s.buttons|)
    && (s.fill.Reading? ==> s.readUpTo == s.fill.k <= |s.buttons|)
    && (s.fill.Checking? || s.fill.Notifying? || s.fill.Finished? ==> s.readUpTo == |s.buttons|)
    && (s.readUpTo == |s.buttons| ==> s.filled)
  }

  ghost predicate PerButton(source: nat, s: State, k: nat)
    requires k < |s.buttons|
  {
    var x := s.buttons[k];
    && ButtonInv(x)
    && (k >= s.readUpTo ==> x.taken == x.logged)
    && (s.filled || k < s.readUpTo ==> x.shown == Story(x)[x.taken])
    && (x.taken < |x.accepted| ==> Covered(source, s, k))
  }

  ghost predicate Inv(n: nat, source: nat, s: State) {
    && source < n && Collector.Inv(n, s.c)
    && Rounds(source, s)
    && forall k :: 0 <= k < |s.buttons| ==> PerButton(source, s, k)
  }

  lemma PostKeepsPc(s: Collector.State, bit: nat)
    ensures Collector.Todo(Collector.Posted(s, bit).pc) == Collector.Todo(s.pc)
    ensures Collector.Posted(s, bit).pc.Running? == s.pc.Running?
    ensures Collector.Posted(s, bit).pc.Filling? == s.pc.Filling?
    ensures s.pc.Running? ==> Collector.Posted(s, bit).pc == s.pc
    ensures Collector.Posted(s, bit).word == s.word + {bit}
  {
  }

  lemma ToggleKeepsInv(n: nat, source: nat, s: State, k: nat, event: bool)
    requires Inv(n, source, s) && Enabled(n, source, s, Toggle(k, event))
    ensures Inv(n, source, Step(n, source, s, Toggle(k, event)))
  {
    var x := s.buttons[k];
    assert PerButton(source, s, k);
    PutKeeps(x, event);
    if Put(x, event) != x {
      var s' := Step(n, source, s, Toggle(k, event));
      Collector.StepKeepsInv(n, s.c, Collector.Post(source));
      PostKeepsPc(s.c, source);
      forall j | 0 <= j < |s'.buttons|
        ensures PerButton(source, s', j)
      {
        assert PerButton(source, s, j);
        assert j == k ==> Story(s'.buttons[j])[x.taken] == Story(x)[x.taken];
      }
    }
  }

  lemma OtherKeepsInv(n: nat, source: nat, s: State, a: Collector.Action)
    requires Inv(n, source, s) && Enabled(n, source, s, Other(a))
    ensures Inv(n, source, Step(n, source, s, Other(a)))
  {
    var s' := Step(n, source, s, Other(a));
    Collector.StepKeepsInv(n, s.c, a);
    match a {
      case Post(i) => PostKeepsPc(s.c, i);
      case SetWrite(i, on) =>
      case SetPost => PostKeepsPc(s.c, Collector.CHANGED);
    }
    forall j | 0 <= j < |s'.buttons|
      ensures PerButton(source, s', j)
    {
      assert PerButton(source, s, j);
    }
  }

  lemma ReadingKeepsInv(n: nat, source: nat, s: State)
    requires Inv(n, source, s) && s.fill.Reading?
    ensures Inv(n, source, FillerStep(n, source, s))
  {
    var s' := FillerStep(n, source, s);
    forall j | 0 <= j < |s'.buttons|
      ensures PerButton(source, s', j)
    {
      assert PerButton(source, s, j);
      assert j in s.order;
      if j == s.fill.k {
        EmptyIffAllTaken(s.buttons[j]);
        ReadKeeps(s.buttons[j]);
      }
    }
  }

  lemma CheckingKeepsButton(n: nat, source: nat, s: State, k: nat)
    requires Inv(n, source, s) && s.fill.Checking? && k < |s.buttons|
    ensures PerButton(source, FillerStep(n, source, s), k)
  {
    assert PerButton(source, s, k);
    EmptyIffAllTaken(s.buttons[k]);
  }

  lemma CheckingKeepsInv(n: nat, source: nat, s: State)
    requires Inv(n, source, s) && s.fill.Checking?
    ensures Inv(n, source, FillerStep(n, source, s))
  {
    forall k | 0 <= k < |s.buttons|
      ensures PerButton(source, FillerStep(n, source, s), k)
    {
      CheckingKeepsButton(n, source, s, k);
    }
  }

  lemma FillerKeepsInv(n: nat, source: nat, s: State)
    requires Inv(n, source, s) && s.c.pc.Running? && s.c.pc.source == source
    ensures Inv(n, source, FillerStep(n, source, s))
  {
    match s.fill {
      case Reading(_) => ReadingKeepsInv(n, source, s);
      case Checking(_) => CheckingKeepsInv(n, source, s);
      case Notifying =>
        Collector.StepKeepsInv(n, s.c, Collector.Post(source));
        PostKeepsPc(s.c, source);
        EachButton(n, source, s, FillerStep(n, source, s));
      case Finished =>
        Collector.StepKeepsInv(n, s.c, Collector.Collect);
        EachButton(n, source, s, FillerStep(n, source, s));
    }
  }

  lemma EachButton(n: nat, source: nat, s: State, s': State)
    requires Inv(n, source, s) && (s.fill.Notifying? || s.fill.Finished?)
    requires s' == FillerStep(n, source, s)
    requires s.fill.Notifying? ==> source in s'.c.word
    requires s.fill.Finished? ==> s'.c.word == s.c.word
    ensures forall k :: 0 <= k < |s'.buttons| ==> PerButton(source, s', k)
  {
    forall k | 0 <= k < |s'.buttons|
      ensures PerButton(source, s', k)
    {
      assert PerButton(source, s, k);
    }
  }

  lemma CollectKeepsButton(n: nat, source: nat, s: State, k: nat)
    requires Inv(n, source, s) && Enabled(n, source, s, Collect) && k < |s.buttons|
    requires !(s.c.pc.Running? && s.c.pc.source == source)
    ensures PerButton(source, CollectorStep(n, source, s), k)
  {
    assert PerButton(source, s, k);
    if s.c.pc == Collector.Filling({}) && s.filled {
      SunkKeeps(s.buttons[k]);
    }
  }

  lemma CollectKeepsInv(n: nat, source: nat, s: State)
    requires Inv(n, source, s) && Enabled(n, source, s, Collect)
    requires !(s.c.pc.Running? && s.c.pc.source == source)
    ensures Inv(n, source, CollectorStep(n, source, s))
  {
    Collector.StepKeepsInv(n, s.c, Collector.Collect);
    forall k | 0 <= k < |s.buttons|
      ensures PerButton(source, CollectorStep(n, source, s), k)
    {
      CollectKeepsButton(n, source, s, k);
    }
  }

  lemma StepKeepsInv(n: nat, source: nat, s: State, action: Action)
    requires Inv(n, source, s) && Enabled(n, source, s, action)
    ensures Inv(n, source, Step(n, source, s, action))
  {
    match action
    case Toggle(k, event) => ToggleKeepsInv(n, source, s, k, event);
    case Other(a) => OtherKeepsInv(n, source, s, a);
    case Collect =>
      if s.c.pc.Running? && s.c.pc.source == source {
        FillerKeepsInv(n, source, s);
      } else {
        CollectKeepsInv(n, source, s);
      }
  }

  // ---- all interleavings ----

  function NewButton(initial: bool): Button {
    Button(initial, Counters(Event(initial), Event(initial)), false, [], 0, 0, [])
  }

  function Initial(states: seq<bool>, order: seq<nat>): State {
    State(Collector.Initial(), seq(|states|, k requires 0 <= k < |states| => NewButton(states[k])), order, NotFilling,
          0, false)
  }

  lemma InitialInv(n: nat, source: nat, states: seq<bool>, order: seq<nat>)
    requires source < n <= Collector.MAX_NUM_OF_HID_SOURCES && states != []
    requires forall k :: 0 <= k < |states| ==> k in order
    ensures Inv(n, source, Initial(states, order))
  {
    Collector.InitialInv(n);
  }

  ghost predicate CanRun(n: nat, source: nat, s: State, actions: seq<Action>)
    requires source < n
    decreases |actions|
  {
    actions == []
    || (Enabled(n, source, s, actions[0]) && CanRun(n, source, Step(n, source, s, actions[0]), actions[1..]))
  }

  ghost function Run(n: nat, source: nat, s: State, actions: seq<Action>): State
    requires source < n && CanRun(n, source, s, actions)
    decreases |actions|
  {
    if actions == [] then s else Run(n, source, Step(n, source, s, actions[0]), actions[1..])
  }

  lemma {:induction false} RunKeepsInv(n: nat, source: nat, s: State, actions: seq<Action>)
    requires Inv(n, source, s) && CanRun(n, source, s, actions)
    ensures Inv(n, source, Run(n, source, s, actions))
    decreases |actions|
  {
    if actions != [] {
      StepKeepsInv(n, source, s, actions[0]);
      RunKeepsInv(n, source, Step(n, source, s, actions[0]), actions[1..]);
    }
  }

  /** Delivery, in every interleaving of pin interrupts, other threads and collector steps with fewer than 2^32 toggles
      outstanding: a button's initial state and the states reported for it, repeats removed, are a prefix of its
      initial state and all its accepted toggles, and all of it once the collector is blocked with the source enabled
      and no set_source_enabled call is halfway. */
  lemma Delivery(n: nat, source: nat, states: seq<bool>, order: seq<nat>, actions: seq<Action>, k: nat)
    requires source < n <= Collector.MAX_NUM_OF_HID_SOURCES && k < |states|
    requires forall i :: 0 <= i < |states| ==> i in order
    requires CanRun(n, source, Initial(states, order), actions)
    ensures var s := Run(n, source, Initial(states, order), actions);
      && |s.buttons| == |states|
      && var x := s.buttons[k];
         && x.initial == states[k]
         && Collapsed([x.initial] + x.log) <= Story(x)
         && (s.c.pc.Blocked? && source in s.c.enabled && s.c.setters == 0 ==>
               Collapsed([x.initial] + x.log) == Story(x))
  {
    InitialInv(n, source, states, order);
    RunKeepsInv(n, source, Initial(states, order), actions);
    SameButtons(n, source, Initial(states, order), actions, k);
    var s := Run(n, source, Initial(states, order), actions);
    assert PerButton(source, s, k);
    var x := s.buttons[k];
    if s.c.pc.Blocked? && source in s.c.enabled && s.c.setters == 0 {
      WordEmptyWhenBlocked(n, s.c, source);
      assert Story(x)[..|x.accepted| + 1] == Story(x);
    }
  }

  lemma WordEmptyWhenBlocked(n: nat, c: Collector.State, source: nat)
    requires Collector.Inv(n, c) && c.pc.Blocked? && c.setters == 0 && source in c.enabled
    ensures source !in c.word
  {
    assert Collector.CHANGED in c.pc.mask;
    assert c.word * c.pc.mask == {};
  }

  lemma {:induction false} SameButtons(n: nat, source: nat, s: State, actions: seq<Action>, k: nat)
    requires Inv(n, source, s) && CanRun(n, source, s, actions) && k < |s.buttons|
    ensures |Run(n, source, s, actions).buttons| == |s.buttons|
    ensures Run(n, source, s, actions).buttons[k].initial == s.buttons[k].initial
    decreases |actions|
  {
    if actions != [] {
      StepKeepsInv(n, source, s, actions[0]);
      SameButtons(n, source, Step(n, source, s, actions[0]), actions[1..], k);
    }
  }

  // ---- the filler without interruption ----

  ghost function FillN(n: nat, source: nat, s: State, m: nat): State
    requires source < n
    decreases m
  {
    if m == 0 then s else FillN(n, source, FillerStep(n, source, s), m - 1)
  }

  /** A filler that nothing interrupts reads every button once, and posts its own bit exactly if a queue is then still
      not empty. */
  lemma FillerAlone(n: nat, source: nat, s: State)
    requires Inv(n, source, s) && s.fill == Reading(0)
    requires forall i :: 0 <= i < |s.order| ==> s.order[i] < |s.buttons|
    ensures exists m :: FillN(n, source, s, m).fill == Finished
                     && FillN(n, source, s, m).buttons == AllRead(s.buttons, 0)
                     && FillN(n, source, s, m).c.word
                        == if AllEmpty(AllRead(s.buttons, 0)) then s.c.word else s.c.word + {source}
  {
    var m1, s1 := ReadsAll(n, source, s, 0);
    var m2 := ChecksAll(n, source, s1, 0);
    FillNSum(n, source, s, m1, m2);
  }

  function AllRead(buttons: seq<Button>, k: nat): (r: seq<Button>)
    ensures |r| == |buttons|
  {
    seq(|buttons|, i requires 0 <= i < |buttons| => if i < k then buttons[i] else Read(buttons[i]))
  }

  predicate AllEmpty(buttons: seq<Button>) {
    forall k :: 0 <= k < |buttons| ==> QueueEmpty(buttons[k])
  }

  lemma {:induction false} FillNSum(n: nat, source: nat, s: State, a: nat, b: nat)
    requires source < n
    ensures FillN(n, source, s, a + b) == FillN(n, source, FillN(n, source, s, a), b)
    decreases a
  {
    if a > 0 {
      FillNSum(n, source, FillerStep(n, source, s), a - 1, b);
    }
  }

  lemma {:induction false} ReadsAll(n: nat, source: nat, s: State, k: nat) returns (m: nat, s': State)
    requires Inv(n, source, s) && s.fill == Reading(k) && k <= |s.buttons|
    ensures s' == FillN(n, source, s, m) && Inv(n, source, s') && s'.fill == Checking(0)
    ensures s'.buttons == AllRead(s.buttons, k) && s'.c == s.c && s'.order == s.order
    decreases |s.buttons| - k
  {
    var next := FillerStep(n, source, s);
    ReadingKeepsInv(n, source, s);
    if k == |s.buttons| {
      assert AllRead(s.buttons, k) == s.buttons;
      m, s' := 1, next;
      assert FillN(n, source, s, 1) == FillN(n, source, next, 0);
    } else {
      var m1;
      m1, s' := ReadsAll(n, source, next, k + 1);
      m := m1 + 1;
      assert AllRead(next.buttons, k + 1) == AllRead(s.buttons, k);
    }
  }

  lemma {:induction false} ChecksAll(n: nat, source: nat, s: State, j: nat) returns (m: nat)
    requires Inv(n, source, s) && s.fill == Checking(j) && j <= |s.order|
    requires forall i :: 0 <= i < |s.order| ==> s.order[i] < |s.buttons|
    requires forall i :: 0 <= i < j ==> QueueEmpty(s.buttons[s.order[i]])
    ensures FillN(n, source, s, m).fill == Finished && FillN(n, source, s, m).buttons == s.buttons
    ensures FillN(n, source, s, m).c.word == if AllEmpty(s.buttons) then s.c.word else s.c.word + {source}
    decreases |s.order| - j
  {
    var next := FillerStep(n, source, s);
    CheckingKeepsInv(n, source, s);
    if j == |s.order| {
      m := 1;
      assert FillN(n, source, s, 1) == FillN(n, source, next, 0);
      forall k | 0 <= k < |s.buttons|
        ensures QueueEmpty(s.buttons[k])
      {
        assert k in s.order;
      }
    } else if QueueEmpty(s.buttons[s.order[j]]) {
      var m1 := ChecksAll(n, source, next, j + 1);
      m := m1 + 1;
    } else {
      m := 2;
      var last := FillerStep(n, source, next);
      assert FillN(n, source, next, 1) == FillN(n, source, last, 0);
      PostKeepsPc(s.c, source);
    }
  }

  // ---- the reports alone ----

  lemma {:induction false} CollapsedCons(a: bool, s: seq<bool>)
    requires s != []
    ensures Collapsed([a] + s) == if s[0] == a then Collapsed(s) else [a] + Collapsed(s)
  {
    var k := |s| - 1;
    if k == 0 {
      CollapsedPair(a, s);
    } else {
      var t := s[..k];
      assert s == t + [s[k]] && t[0] == s[0];
      CollapsedCons(a, t);
      CollapsedConsStep(a, t, s[k], s);
    }
  }

  lemma CollapsedPair(a: bool, s: seq<bool>)
    requires |s| == 1
    ensures Collapsed([a] + s) == if s[0] == a then s else [a] + s
  {
    assert ([a] + s)[..1] == [a];
  }

  lemma CollapsedConsStep(a: bool, t: seq<bool>, b: bool, s: seq<bool>)
    requires t != [] && s == t + [b]
    requires Collapsed([a] + t) == if t[0] == a then Collapsed(t) else [a] + Collapsed(t)
    ensures Collapsed([a] + s) == if s[0] == a then Collapsed(s) else [a] + Collapsed(s)
  {
    var u := [a] + t;
    CollapsedSnoc(u, b);
    CollapsedSnoc(t, b);
    ConsSnoc(a, t, b, u);
    ConsSnoc(a, Collapsed(t), b, [a] + Collapsed(t));
  }

  lemma ConsSnoc(a: bool, t: seq<bool>, b: bool, u: seq<bool>)
    requires t != [] && u == [a] + t
    ensures [a] + (t + [b]) == u + [b] && u[|u| - 1] == t[|t| - 1] && (t + [b])[0] == t[0]
  {
  }

  lemma {:induction false} CollapsedFirst(s: seq<bool>)
    requires s != []
    ensures Collapsed(s)[0] == s[0]
  {
    if |s| > 1 {
      CollapsedFirst(s[..|s| - 1]);
    }
  }

  lemma FirstReportDecides(x: Button)
    requires ButtonInv(x) && x.log != []
    ensures Collapsed(x.log) <= Story(x) <==> x.log[0] == x.initial
  {
    CollapsedCons(x.initial, x.log);
    CollapsedFirst(x.log);
  }

  /** The step in which the filler reads button k. */
  predicate ReadsButton(s: State, action: Action, k: nat) {
    action.Collect? && s.c.pc.Running? && s.fill == Reading(k)
  }

  /** The state in which a run first reads button k; its last state if it never does. */
  ghost function AtFirstRead(n: nat, source: nat, s: State, actions: seq<Action>, k: nat): State
    requires source < n && CanRun(n, source, s, actions)
    decreases |actions|
  {
    if actions == [] || ReadsButton(s, actions[0], k) then s
    else AtFirstRead(n, source, Step(n, source, s, actions[0]), actions[1..], k)
  }

  /** Button k has not been read yet. */
  ghost predicate Unread(s: State, k: nat) {
    && k < |s.buttons| && s.buttons[k].taken == 0 && s.buttons[k].log == []
    && !s.filled && s.readUpTo <= k
  }

  /** What the first read of button k showed is in the report, and then first in the log. */
  ghost predicate ShownFirst(s: State, k: nat, v: bool) {
    && k < |s.buttons|
    && var x := s.buttons[k];
       if x.log == [] then k < s.readUpTo && x.shown == v else x.log[0] == v
  }

  lemma StepKeepsUnread(n: nat, source: nat, s: State, action: Action, k: nat)
    requires Inv(n, source, s) && Unread(s, k) && Enabled(n, source, s, action) && !ReadsButton(s, action, k)
    ensures Unread(Step(n, source, s, action), k)
  {
    assert PerButton(source, s, k);
  }

  lemma FirstReadShows(n: nat, source: nat, s: State, action: Action, k: nat)
    requires Inv(n, source, s) && Unread(s, k) && Enabled(n, source, s, action) && ReadsButton(s, action, k)
    ensures ShownFirst(Step(n, source, s, action), k, Read(s.buttons[k]).shown)
    ensures QueueEmpty(s.buttons[k]) <==> s.buttons[k].accepted == []
    ensures QueueEmpty(s.buttons[k]) <==> Read(s.buttons[k]).shown == s.buttons[k].initial
  {
    var x := s.buttons[k];
    assert PerButton(source, s, k);
    EmptyIffAllTaken(x);
    ReadKeeps(x);
  }

  lemma StepKeepsShownFirst(n: nat, source: nat, s: State, action: Action, k: nat, v: bool)
    requires Inv(n, source, s) && ShownFirst(s, k, v) && Enabled(n, source, s, action)
    ensures ShownFirst(Step(n, source, s, action), k, v)
  {
  }

  lemma {:induction false} RunKeepsShownFirst(n: nat, source: nat, s: State, actions: seq<Action>, k: nat, v: bool)
    requires Inv(n, source, s) && ShownFirst(s, k, v) && CanRun(n, source, s, actions)
    ensures ShownFirst(Run(n, source, s, actions), k, v)
    decreases |actions|
  {
    if actions != [] {
      StepKeepsInv(n, source, s, actions[0]);
      StepKeepsShownFirst(n, source, s, actions[0], k, v);
      RunKeepsShownFirst(n, source, Step(n, source, s, actions[0]), actions[1..], k, v);
    }
  }

  /** The first report shows button k as it was when the run first read it. */
  lemma {:induction false} FirstReportIsFirstRead(n: nat, source: nat, s: State, actions: seq<Action>, k: nat)
    requires Inv(n, source, s) && Unread(s, k) && CanRun(n, source, s, actions)
    requires k < |Run(n, source, s, actions).buttons| && Run(n, source, s, actions).buttons[k].log != []
    ensures var first := AtFirstRead(n, source, s, actions, k);
      && k < |first.buttons|
      && (QueueEmpty(first.buttons[k]) <==> first.buttons[k].accepted == [])
      && (QueueEmpty(first.buttons[k]) <==> Run(n, source, s, actions).buttons[k].log[0] == s.buttons[k].initial)
    decreases |actions|
  {
    if actions != [] {
      var s' := Step(n, source, s, actions[0]);
      StepKeepsInv(n, source, s, actions[0]);
      if ReadsButton(s, actions[0], k) {
        FirstReadShows(n, source, s, actions[0], k);
        RunKeepsShownFirst(n, source, s', actions[1..], k, Read(s.buttons[k]).shown);
      } else {
        StepKeepsUnread(n, source, s, actions[0], k);
        SameInitial(n, source, s, actions[0], k);
        FirstReportIsFirstRead(n, source, s', actions[1..], k);
      }
    }
  }

  lemma SameInitial(n: nat, source: nat, s: State, action: Action, k: nat)
    requires Inv(n, source, s) && Enabled(n, source, s, action) && k < |s.buttons|
    ensures |Step(n, source, s, action).buttons| == |s.buttons|
    ensures Step(n, source, s, action).buttons[k].initial == s.buttons[k].initial
  {
  }

  /** The reported states alone, without the initial state in front, are a prefix of the initial state and the accepted
      toggles exactly if button k's queue was still empty when the filler first read it; then nothing had been accepted
      yet. */
  lemma ReportsAlone(n: nat, source: nat, states: seq<bool>, order: seq<nat>, actions: seq<Action>, k: nat)
    requires source < n <= Collector.MAX_NUM_OF_HID_SOURCES && k < |states|
    requires forall i :: 0 <= i < |states| ==> i in order
    requires CanRun(n, source, Initial(states, order), actions)
    ensures var s, first := Run(n, source, Initial(states, order), actions),
                            AtFirstRead(n, source, Initial(states, order), actions, k);
      && |s.buttons| == |first.buttons| == |states|
      && (s.buttons[k].log != [] ==>
            && (Collapsed(s.buttons[k].log) <= Story(s.buttons[k]) <==> QueueEmpty(first.buttons[k]))
            && (QueueEmpty(first.buttons[k]) <==> first.buttons[k].accepted == []))
  {
    var s0 := Initial(states, order);
    InitialInv(n, source, states, order);
    RunKeepsInv(n, source, s0, actions);
    SameButtons(n, source, s0, actions, k);
    FirstReadButtons(n, source, s0, actions, k);
    var s := Run(n, source, s0, actions);
    assert PerButton(source, s, k);
    if s.buttons[k].log != [] {
      FirstReportIsFirstRead(n, source, s0, actions, k);
      FirstReportDecides(s.buttons[k]);
    }
  }

  lemma {:induction false} FirstReadButtons(n: nat, source: nat, s: State, actions: seq<Action>, k: nat)
    requires Inv(n, source, s) && CanRun(n, source, s, actions) && k < |s.buttons|
    ensures |AtFirstRead(n, source, s, actions, k).buttons| == |s.buttons|
    decreases |actions|
  {
    if actions != [] && !ReadsButton(s, actions[0], k) {
      StepKeepsInv(n, source, s, actions[0]);
      SameInitial(n, source, s, actions[0], k);
      FirstReadButtons(n, source, Step(n, source, s, actions[0]), actions[1..], k);
    }
  }

  lemma {:induction false} RunSnoc(n: nat, source: nat, s: State, actions: seq<Action>, action: Action)
    requires source < n && CanRun(n, source, s, actions) && Enabled(n, source, Run(n, source, s, actions), action)
    ensures CanRun(n, source, s, actions + [action])
    ensures Run(n, source, s, actions + [action]) == Step(n, source, Run(n, source, s, actions), action)
    decreases |actions|
  {
    if actions == [] {
      assert [] + [action] == [action];
      assert [action][1..] == [];
    } else {
      RunSnoc(n, source, Step(n, source, s, actions[0]), actions[1..], action);
      assert (actions + [action])[1..] == actions[1..] + [action];
    }
  }

  /** Successive states of the collector thread running alone. */
  ghost predicate CollectorSteps(n: nat, source: nat, states: seq<State>)
    requires source < n
  {
    forall i :: 0 <= i < |states| - 1 ==>
      !states[i].c.pc.Blocked? && states[i + 1] == CollectorStep(n, source, states[i])
  }

  lemma {:induction false} RunCollects(n: nat, source: nat, s: State, actions: seq<Action>, states: seq<State>)
    requires source < n && CanRun(n, source, s, actions)
    requires states != [] && states[0] == Run(n, source, s, actions)
    requires CollectorSteps(n, source, states)
    ensures exists more: seq<Action> ::
      CanRun(n, source, s, more) && Run(n, source, s, more) == states[|states| - 1]
    decreases |states|
  {
    if |states| > 1 {
      RunSnoc(n, source, s, actions, Collect);
      RunCollects(n, source, s, actions + [Collect], states[1..]);
    }
  }

  /** A reachable state in which the only report already shows the first toggle, so that the reports alone are no
      prefix of the initial state and the accepted toggles. */
  lemma FirstReportMayShowToggle()
    ensures exists actions: seq<Action> ::
      && CanRun(1, 0, Initial([false], [0]), actions)
      && var s := Run(1, 0, Initial([false], [0]), actions);
         |s.buttons| == 1 && s.buttons[0].log == [true] && !(Collapsed(s.buttons[0].log) <= Story(s.buttons[0]))
  {
    var s0 := Initial([false], [0]);
    var x := Button(false, Counters(1, 0), false, [true], 0, 0, []);
    var all := Collector.Sources(Collector.MAX_NUM_OF_HID_SOURCES);
    var s := State(Collector.State({0}, all, 0, Collector.Starting, {0}), [x], [0], NotFilling, 0, false);
    ToggleFirst(s0, x, s);
    RunSnoc(1, 0, s0, [], Toggle(0, true));
    var y := Button(false, Counters(1, 1), true, [true], 1, 0, []);
    var s6 := State(Collector.State({}, all * Collector.Sources(1), 0, Collector.Running(0, {}), {}),
                    [y], [0], Reading(1), 1, true);
    var s3 := s.(c := s.c.(enabled := s.c.enabled * Collector.Sources(1), pc := Collector.Returned({0})));
    var waited := WaitAfterToggle(s, s3);
    var read := ReadAfterToggle(x, s3, y, s6);
    var report := ReportAfterRead(y, s6);
    StepsJoin(1, 0, read, report);
    StepsJoin(1, 0, waited, read + report[1..]);
    RunCollects(1, 0, s0, [] + [Toggle(0, true)], waited + (read + report[1..])[1..]);
    ReportsAloneNoPrefix(Sunk(y));
  }

  lemma ToggleFirst(s0: State, x: Button, s: State)
    requires s0 == Initial([false], [0]) && x == Button(false, Counters(1, 0), false, [true], 0, 0, [])
    requires s == State(Collector.State({0}, Collector.Sources(Collector.MAX_NUM_OF_HID_SOURCES), 0,
                                        Collector.Starting, {0}), [x], [0], NotFilling, 0, false)
    ensures Enabled(1, 0, s0, Toggle(0, true)) && Step(1, 0, s0, Toggle(0, true)) == s
  {
    assert s0.buttons == [NewButton(false)];
    assert Put(NewButton(false), true) == x by {
      assert [] + [true] == [true];
    }
    assert s0.buttons[0 := x] == [x];
    assert {} + {0} == {0};
  }

  lemma StepsJoin(n: nat, source: nat, a: seq<State>, b: seq<State>)
    requires source < n && a != [] && b != [] && a[|a| - 1] == b[0]
    requires CollectorSteps(n, source, a) && CollectorSteps(n, source, b)
    ensures CollectorSteps(n, source, a + b[1..])
  {
    var all := a + b[1..];
    forall i | 0 <= i < |all| - 1
      ensures !all[i].c.pc.Blocked? && all[i + 1] == CollectorStep(n, source, all[i])
    {
      if i >= |a| - 1 {
        assert all[i] == b[i - (|a| - 1)] && all[i + 1] == b[i + 1 - (|a| - 1)];
      }
    }
  }

  /** The collector's steps of its first round, one by one: waiting ... */
  lemma WaitAfterToggle(s: State, s3: State) returns (states: seq<State>)
    requires s.c == Collector.State({0}, Collector.Sources(Collector.MAX_NUM_OF_HID_SOURCES), 0,
                                    Collector.Starting, {0})
    requires s.fill == NotFilling
    requires s3 == s.(c := s.c.(enabled := s.c.enabled * Collector.Sources(1), pc := Collector.Returned({0})))
    ensures |states| == 4 && states[0] == s && states[3] == s3 && CollectorSteps(1, 0, states)
  {
    var c := s3.c.(pc := Collector.Deciding);
    var mask := c.enabled + {Collector.CHANGED};
    assert {0} * mask == {0};
    states := [s, s.(c := c), s.(c := c.(pc := Collector.Waiting(mask))), s3];
  }

  /** ... starting the filler and reading the button ... */
  lemma ReadAfterToggle(x: Button, s3: State, y: Button, s6: State) returns (states: seq<State>)
    requires x == Button(false, Counters(1, 0), false, [true], 0, 0, [])
    requires y == Button(false, Counters(1, 1), true, [true], 1, 0, [])
    requires s3.buttons == [x] && s3.fill == NotFilling && s3.readUpTo == 0 && !s3.filled
    requires s3.c.pc == Collector.Returned({0}) && s3.c.word == s3.c.owed == {0}
    requires s6 == s3.(c := s3.c.(word := {}, owed := {}, pc := Collector.Running(0, {})),
                       buttons := [y], fill := Reading(1), readUpTo := 1, filled := true)
    ensures |states| == 4 && states[0] == s3 && states[3] == s6 && CollectorSteps(1, 0, states)
  {
    assert Collector.Lowest({0}) == 0;
    assert {0} - {0} == {};
    var s4 := s3.(c := s3.c.(word := {}, pc := Collector.Filling({0})));
    var s5 := s3.(c := s6.c, fill := Reading(0));
    assert CollectorStep(1, 0, s5) == s6 by {
      assert Read(x) == y;
      assert s5.buttons[0 := y] == [y];
    }
    states := [s3, s4, s5, s6];
  }

  /** ... and the check of the queue and the report to the sink. */
  lemma ReportAfterRead(y: Button, s6: State) returns (states: seq<State>)
    requires !y.initial && y.log == [] && y.shown && QueueEmpty(y)
    requires s6.buttons == [y] && s6.order == [0] && s6.fill == Reading(1) && s6.filled
    requires s6.c.pc == Collector.Running(0, {})
    ensures |states| == 6 && states[0] == s6 && CollectorSteps(1, 0, states)
    ensures states[5].buttons == [Sunk(y)] && Sunk(y).log == [true]
  {
    var s7 := s6.(fill := Checking(0));
    var s8 := s6.(fill := Checking(1));
    var s9 := s6.(fill := Finished);
    var s10 := s6.(c := s6.c.(pc := Collector.Filling({})), fill := NotFilling);
    var s11 := CollectorStep(1, 0, s10);
    assert GivenToSink(s10).buttons == [Sunk(y)];
    assert [] + [true] == [true];
    states := [s6, s7, s8, s9, s10, s11];
  }

  lemma ReportsAloneNoPrefix(x: Button)
    requires x.log == [true] && !x.initial
    ensures !(Collapsed(x.log) <= Story(x))
  {
    assert Collapsed(x.log)[0];
  }
}
