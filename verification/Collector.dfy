/** The HID collector thread and the event word it shares with interrupts and other threads, as interleaved steps:
    the collector's steps are split at every access to the event word and to the enabled-sources mask. Bit sets are
    sets of bit positions; n is the number of registered sources. */
module Collector {

  const MAX_NUM_OF_HID_SOURCES := 31
  /** The bit telling the collector that the mask of enabled sources has changed. */
  const CHANGED := MAX_NUM_OF_HID_SOURCES

  type Mask = set<nat>

  datatype Pc =
    | Starting                      // about to restrict the enabled sources to the existing ones
    | Deciding                      // about to read the enabled sources
    | Waiting(mask: Mask)           // about to call k_event_wait with this mask
    | Blocked(mask: Mask)           // inside k_event_wait
    | Returned(events: Mask)        // k_event_wait has returned these bits, none cleared yet
    | Filling(todo: Mask)           // their bits cleared, fillers of `todo` still to run
    | Running(source: nat, todo: Mask)  // a filler is running

  /** `setters` counts calls of set_source_enabled between their write and their post; `owed` holds the sources that
      posted since their filler last started. */
  datatype State = State(word: Mask, enabled: Mask, setters: nat, pc: Pc, owed: Mask)

  datatype Action =
    | Post(source: nat)                 // hid_collector_notify_data_available
    | SetWrite(source: nat, on: bool)   // first half of hid_collector_set_source_id_enabled
    | SetPost                           // second half
    | Collect                           // the collector thread's next step

  /** The lowest n bits. */
  function Sources(n: nat): (m: Mask)
    ensures forall i: nat :: i in m <==> i < n
  {
    if n == 0 then {} else Sources(n - 1) + {n - 1}
  }

  function Initial(): State {
    State({}, Sources(MAX_NUM_OF_HID_SOURCES), 0, Starting, {})
  }

  /** k_event_post: a waiter whose mask matches wakes up with the matching bits as they are now. */
  function Posted(s: State, bit: nat): State {
    var word := s.word + {bit};
    s.(word := word,
       pc := if s.pc.Blocked? && word * s.pc.mask != {} then Returned(word * s.pc.mask) else s.pc)
  }

  ghost function Lowest(m: Mask): (i: nat)
    requires m != {}
    ensures i in m && forall j :: j in m ==> i <= j
  {
    var k :| k in m;
    LowestExists(m, k);
    var i :| i in m && forall j :: j in m ==> i <= j;
    i
  }

  lemma {:induction false} LowestExists(m: Mask, k: nat)
    requires k in m
    ensures exists i :: i in m && forall j :: j in m ==> i <= j
    decreases k
  {
    if j :| j in m && j < k {
      LowestExists(m, j);
    }
  }

  ghost function CollectStep(n: nat, s: State): State {
    match s.pc
    case Starting => s.(enabled := s.enabled * Sources(n), pc := Deciding)
    case Deciding => s.(pc := Waiting(s.enabled + {CHANGED}))
    case Waiting(mask) => s.(pc := if s.word * mask != {} then Returned(s.word * mask) else Blocked(mask))
    case Blocked(_) => s
    case Returned(events) =>
      if CHANGED in events then s.(word := s.word - {CHANGED}, pc := Deciding)
      else s.(word := s.word - events, pc := Filling(events))
    case Filling(todo) =>
      if todo == {} then s.(pc := Deciding)  // the report goes to the sink here
      else s.(pc := Running(Lowest(todo), todo - {Lowest(todo)}), owed := s.owed - {Lowest(todo)})
    case Running(_, todo) => s.(pc := Filling(todo))
  }

  predicate Enabled(n: nat, s: State, a: Action) {
    match a
    case Post(i) => i < n
    case SetWrite(i, _) => i < MAX_NUM_OF_HID_SOURCES
    case SetPost => s.setters > 0
    case Collect => !s.pc.Blocked?
  }

  ghost function Step(n: nat, s: State, a: Action): State
    requires Enabled(n, s, a)
  {
    match a
    case Post(i) => Posted(s, i).(owed := s.owed + {i})
    case SetWrite(i, on) => s.(enabled := if on then s.enabled + {i} else s.enabled - {i}, setters := s.setters + 1)
    case SetPost => Posted(s, CHANGED).(setters := s.setters - 1)
    case Collect => CollectStep(n, s)
  }

  /** Sources whose filler this round is still going to start. */
  function Todo(pc: Pc): Mask {
    match pc
    case Filling(todo) => todo
    case Running(_, todo) => todo
    case _ => {}
  }

  /** The mask the collector waits with is current, or something is going to make it look again. */
  ghost predicate MaskCurrent(s: State, mask: Mask) {
    CHANGED in mask && (mask == s.enabled + {CHANGED} || CHANGED in s.word || s.setters > 0)
  }

  ghost predicate Inv(n: nat, s: State) {
    && n <= MAX_NUM_OF_HID_SOURCES
    && s.word <= Sources(n) + {CHANGED}
    && Todo(s.pc) <= Sources(n)
    && (s.pc.Waiting? ==> MaskCurrent(s, s.pc.mask))
    && (s.pc.Blocked? ==> MaskCurrent(s, s.pc.mask) && s.word * s.pc.mask == {})
    && (s.pc.Returned? ==> s.pc.events != {} && s.pc.events <= s.word)
    && (s.pc.Running? ==> s.pc.source < n)
    && s.owed <= s.word + Todo(s.pc) && s.owed <= Sources(n)
  }

  lemma InitialInv(n: nat)
    requires n <= MAX_NUM_OF_HID_SOURCES
    ensures Inv(n, Initial())
  {
  }

  /** Every step of an interrupt, of another thread and of the collector keeps the invariant. */
  lemma StepKeepsInv(n: nat, s: State, a: Action)
    requires Inv(n, s) && Enabled(n, s, a)
    ensures Inv(n, Step(n, s, a))
  {
    match a
    case Post(i) => PostKeepsInv(n, s, i);
    case SetWrite(i, on) =>
    case SetPost =>
      PostKeepsInv(n, s, CHANGED);
    case Collect =>
  }

  lemma PostKeepsInv(n: nat, s: State, bit: nat)
    requires Inv(n, s) && (bit < n || bit == CHANGED)
    ensures Inv(n, Posted(s, bit))
    ensures bit in Posted(s, bit).word
    ensures bit == CHANGED ==> !Posted(s, bit).pc.Blocked?
  {
    if s.pc.Blocked? && bit == CHANGED {
      assert CHANGED in (s.word + {bit}) * s.pc.mask;
    }
  }

  ghost function Run(n: nat, s: State, actions: seq<Action>): State
    requires CanRun(n, s, actions)
    decreases |actions|
  {
    if actions == [] then s else Run(n, Step(n, s, actions[0]), actions[1..])
  }

  ghost predicate CanRun(n: nat, s: State, actions: seq<Action>)
    decreases |actions|
  {
    actions == [] || (Enabled(n, s, actions[0]) && CanRun(n, Step(n, s, actions[0]), actions[1..]))
  }

  lemma {:induction false} RunKeepsInv(n: nat, s: State, actions: seq<Action>)
    requires Inv(n, s) && CanRun(n, s, actions)
    ensures Inv(n, Run(n, s, actions))
    decreases |actions|
  {
    if actions != [] {
      StepKeepsInv(n, s, actions[0]);
      RunKeepsInv(n, Step(n, s, actions[0]), actions[1..]);
    }
  }

  /** No lost wake-up, in every interleaving: whenever the collector is blocked and no set_source_enabled call is
      halfway, no enabled source has a posted bit and none is owed a run of its filler; and at any time a source that
      posted since its filler last started has its bit in the word or its filler yet to start in this round. */
  lemma NoLostWakeUp(n: nat, actions: seq<Action>)
    requires n <= MAX_NUM_OF_HID_SOURCES && CanRun(n, Initial(), actions)
    ensures var s := Run(n, Initial(), actions);
      && (s.pc.Blocked? && s.setters == 0 ==> s.word * s.enabled == {} && s.owed * s.enabled == {})
      && (forall i :: i in s.owed ==> i in s.word || i in Todo(s.pc))
      && (s.pc.Running? ==> s.pc.source < n)
  {
    InitialInv(n);
    RunKeepsInv(n, Initial(), actions);
    var s := Run(n, Initial(), actions);
    if s.pc.Blocked? && s.setters == 0 {
      assert CHANGED !in s.word by {
        assert CHANGED in s.pc.mask;
      }
      assert s.pc.mask == s.enabled + {CHANGED};
    }
  }

  // ---- how soon a post is served ----

  /** An upper bound on the collector steps until the filler of an enabled source starts that has a bit in the word
      or is among this round's. */
  ghost function Rank(n: nat, s: State, source: nat): nat {
    if source in Todo(s.pc) then 2 * |Todo(s.pc)| + (if s.pc.Running? then 1 else 0)
    else
      var again := 2 * n + 3;                                // from Deciding, with no change pending
      var look := if CHANGED in s.word then again + 3 else again;  // from Deciding
      match s.pc
      case Starting => look + 1
      case Deciding => look
      case Waiting(_) => look - 1
      case Blocked(_) => 0
      case Returned(events) =>
        if CHANGED in events then again + 1
        else if source in events then 2 * n + 1
        else again + 3 + 2 * n + 2
      case Filling(todo) => again + 3 + 2 * |todo| + 1
      case Running(_, todo) => again + 3 + 2 * |todo| + 2
  }

  /** A posted, enabled source that the collector is going to see: it waits with a mask that has the source, or will be
      woken by a posted change. That is so whenever no setter is halfway. */
  ghost predicate Due(n: nat, s: State, source: nat) {
    && Inv(n, s) && source in s.owed && source in s.enabled
    && (s.pc.Waiting? || s.pc.Blocked? ==> source in s.pc.mask || CHANGED in s.word)
  }

  lemma DueWithoutSetters(n: nat, s: State, source: nat)
    requires Inv(n, s) && s.setters == 0 && source in s.owed && source in s.enabled
    ensures Due(n, s, source)
  {
  }

  lemma SubsetSize(n: nat, m: Mask)
    requires m <= Sources(n)
    ensures |m| <= n
  {
    SourcesSize(n);
    SubsetCard(m, Sources(n));
  }

  lemma {:induction false} SourcesSize(n: nat)
    ensures |Sources(n)| == n
  {
    if n != 0 {
      SourcesSize(n - 1);
    }
  }

  lemma {:induction false} SubsetCard(a: Mask, b: Mask)
    requires a <= b
    ensures |a| <= |b|
  {
    if a != {} {
      var x :| x in a;
      SubsetCard(a - {x}, b - {x});
    }
  }

  lemma WaitLowersRank(n: nat, s: State, source: nat)
    requires Due(n, s, source) && s.pc.Waiting?
    ensures Due(n, CollectStep(n, s), source) && Rank(n, CollectStep(n, s), source) < Rank(n, s, source)
  {
    StepKeepsInv(n, s, Collect);
    assert CHANGED in s.pc.mask;
    if CHANGED in s.word {
      assert CHANGED in s.word * s.pc.mask;
    } else {
      assert source in s.word * s.pc.mask;
    }
  }

  lemma FillLowersRank(n: nat, s: State, source: nat)
    requires Due(n, s, source) && (s.pc.Filling? || s.pc.Running?)
    ensures source !in CollectStep(n, s).owed
         || (Due(n, CollectStep(n, s), source) && Rank(n, CollectStep(n, s), source) < Rank(n, s, source))
  {
    StepKeepsInv(n, s, Collect);
    if s.pc.Filling? && s.pc.todo != {} {
      assert |s.pc.todo - {Lowest(s.pc.todo)}| == |s.pc.todo| - 1;
    }
  }

  /** While a source is due, every collector step either starts its filler or lowers the rank. */
  lemma StepLowersRank(n: nat, s: State, source: nat)
    requires Due(n, s, source)
    ensures !s.pc.Blocked? && Inv(n, CollectStep(n, s))
    ensures source !in CollectStep(n, s).owed
         || (Due(n, CollectStep(n, s), source) && Rank(n, CollectStep(n, s), source) < Rank(n, s, source))
  {
    StepKeepsInv(n, s, Collect);
    NotBlocked(n, s, source);
    match s.pc
    case Waiting(_) => WaitLowersRank(n, s, source);
    case Returned(events) =>
      if CHANGED !in events {
        SubsetSize(n, events);
      }
    case Filling(_) => FillLowersRank(n, s, source);
    case Running(_, _) => FillLowersRank(n, s, source);
    case _ =>
  }

  /** The collector starts the filler of a source. */
  ghost predicate Starts(s: State, a: Action, source: nat) {
    a.Collect? && s.pc.Filling? && s.pc.todo != {} && Lowest(s.pc.todo) == source
  }

  ghost predicate StartsWithin(n: nat, s: State, actions: seq<Action>, source: nat)
    requires CanRun(n, s, actions)
    decreases |actions|
  {
    actions != [] &&
    (Starts(s, actions[0], source) || StartsWithin(n, Step(n, s, actions[0]), actions[1..], source))
  }

  /** The number of collector steps in a run. */
  function Collects(actions: seq<Action>): nat {
    if actions == [] then 0 else (if actions[0].Collect? then 1 else 0) + Collects(actions[1..])
  }

  lemma OnlyStartSettles(n: nat, s: State, source: nat)
    requires Due(n, s, source) && !Starts(s, Collect, source)
    ensures source in CollectStep(n, s).owed
  {
  }

  function SetPosts(actions: seq<Action>): nat {
    if actions == [] then 0 else (if actions[0].SetPost? then 1 else 0) + SetPosts(actions[1..])
  }

  lemma NotBlocked(n: nat, s: State, source: nat)
    requires Due(n, s, source)
    ensures !s.pc.Blocked?
  {
  }

  lemma PostKeepsRank(n: nat, s: State, i: nat, source: nat)
    requires Due(n, s, source) && i < n
    ensures Due(n, Step(n, s, Post(i)), source)
    ensures Rank(n, Step(n, s, Post(i)), source) == Rank(n, s, source)
  {
    StepKeepsInv(n, s, Post(i));
    NotBlocked(n, s, source);
  }

  lemma WriteKeepsRank(n: nat, s: State, i: nat, on: bool, source: nat)
    requires Due(n, s, source) && Enabled(n, s, SetWrite(i, on)) && (i == source ==> on)
    ensures Due(n, Step(n, s, SetWrite(i, on)), source)
    ensures Rank(n, Step(n, s, SetWrite(i, on)), source) == Rank(n, s, source)
  {
    StepKeepsInv(n, s, SetWrite(i, on));
  }

  lemma ChangeKeepsRank(n: nat, s: State, source: nat)
    requires Due(n, s, source) && Enabled(n, s, SetPost)
    ensures Due(n, Step(n, s, SetPost), source)
    ensures Rank(n, Step(n, s, SetPost), source) <= Rank(n, s, source) + 3
  {
    StepKeepsInv(n, s, SetPost);
    NotBlocked(n, s, source);
  }

  /** Posts and changes of enabled sources do not put it off, except that a posted change costs three steps, as long as
      the source itself stays enabled. */
  lemma OthersKeepRank(n: nat, s: State, a: Action, source: nat)
    requires Due(n, s, source) && Enabled(n, s, a) && !a.Collect? && a != SetWrite(source, false)
    ensures Due(n, Step(n, s, a), source)
    ensures Rank(n, Step(n, s, a), source) <= Rank(n, s, source) + if a.SetPost? then 3 else 0
  {
    match a
    case Post(i) => PostKeepsRank(n, s, i, source);
    case SetWrite(i, on) => WriteKeepsRank(n, s, i, on, source);
    case SetPost => ChangeKeepsRank(n, s, source);
  }

  /** In every interleaving a posted, enabled source is served within Rank collector steps, at most 6n + 9, plus three
      for every change of the enabled sources posted meanwhile, as long as it is not disabled itself. */
  lemma {:induction false} ServedSoon(n: nat, s: State, actions: seq<Action>, source: nat)
    requires Due(n, s, source) && CanRun(n, s, actions)
    requires forall i :: 0 <= i < |actions| ==> actions[i] != SetWrite(source, false)
    requires Collects(actions) >= Rank(n, s, source) + 3 * SetPosts(actions)
    ensures StartsWithin(n, s, actions, source)
    ensures Rank(n, s, source) <= 6 * n + 9
    decreases |actions|
  {
    RankBound(n, s, source);
    RankPositive(n, s, source);
    if !actions[0].Collect? {
      OthersKeepRank(n, s, actions[0], source);
      ServedSoon(n, Step(n, s, actions[0]), actions[1..], source);
    } else if !Starts(s, Collect, source) {
      OnlyStartSettles(n, s, source);
      StepLowersRank(n, s, source);
      ServedSoon(n, CollectStep(n, s), actions[1..], source);
    }
  }

  lemma RankPositive(n: nat, s: State, source: nat)
    requires Due(n, s, source)
    ensures Rank(n, s, source) >= 1
  {
    StepLowersRank(n, s, source);
    if source in Todo(s.pc) {
      assert |Todo(s.pc)| > 0;
    }
  }

  lemma RankBound(n: nat, s: State, source: nat)
    requires Due(n, s, source)
    ensures Rank(n, s, source) <= 6 * n + 9
  {
    SubsetSize(n, Todo(s.pc));
  }

  // ---- one round ----

  /** The order in which the machine starts the fillers of a round. */
  ghost function Order(todo: Mask): (order: seq<nat>)
    decreases |todo|
  {
    if todo == {} then [] else [Lowest(todo)] + Order(todo - {Lowest(todo)})
  }

  /** Every source of the round once, in ascending order. */
  lemma {:induction false} OrderAscends(todo: Mask)
    ensures forall i :: i in Order(todo) <==> i in todo
    ensures forall j, k :: 0 <= j < k < |Order(todo)| ==> Order(todo)[j] < Order(todo)[k]
    decreases |todo|
  {
    if todo != {} {
      var rest := todo - {Lowest(todo)};
      OrderAscends(rest);
      forall k | 0 < k < |Order(todo)|
        ensures Lowest(todo) < Order(todo)[k]
      {
        assert Order(todo)[k] == Order(rest)[k - 1] && Order(rest)[k - 1] in Order(rest);
      }
    }
  }

  method LowestBit(events: Mask) returns (source: nat)
    requires events != {} && forall i :: i in events ==> i < MAX_NUM_OF_HID_SOURCES
    ensures source == Lowest(events)
  {
    source := 0;
    ghost var some :| some in events;
    while source !in events
      invariant forall i :: i in events ==> source <= i
      decreases MAX_NUM_OF_HID_SOURCES - source
    {
      assert source < some;
      source := source + 1;
    }
  }

  /** The loop over the events of a round; a filler runs where `order` grows. */
  method RunFillers(events: Mask) returns (order: seq<nat>)
    requires forall i :: i in events ==> i < MAX_NUM_OF_HID_SOURCES
    ensures order == Order(events)
  {
    order := [];
    var left := events;
    while left != {}
      invariant left <= events && order + Order(left) == Order(events)
      decreases |left|
    {
      var source := LowestBit(left);
      order := order + [source];
      left := left - {source};
    }
  }

  /** k steps of the collector thread with nothing else happening. */
  ghost function CollectN(n: nat, s: State, k: nat): State
    decreases k
  {
    if k == 0 then s else CollectN(n, CollectStep(n, s), k - 1)
  }

  /** With nothing else happening, a round starts every filler once, settles what their sources were owed, and leaves
      word and mask alone. */
  lemma {:induction false} RoundAlone(n: nat, s: State, todo: Mask)
    requires s.pc == Filling(todo)
    ensures CollectN(n, s, 2 * |todo|) == s.(pc := Filling({}), owed := s.owed - todo)
    decreases |todo|
  {
    if todo == {} {
      assert s.owed - {} == s.owed;
    } else {
      var i := Lowest(todo);
      var s1 := CollectStep(n, s);
      var s2 := CollectStep(n, s1);
      RoundAlone(n, s2, todo - {i});
      assert CollectN(n, s, 2 * |todo|) == CollectN(n, s1, 2 * |todo| - 1) == CollectN(n, s2, 2 * |todo| - 2);
      assert s.owed - {i} - (todo - {i}) == s.owed - todo;
    }
  }

  // ---- which sources are enabled, in terms of what was done ----

  /** What the last set_source_enabled call said about a source; enabled if there was none. */
  function LastSet(actions: seq<Action>, i: nat): bool {
    if actions == [] then true
    else
      match actions[|actions| - 1]
      case SetWrite(j, on) => if j == i then on else LastSet(actions[..|actions| - 1], i)
      case _ => LastSet(actions[..|actions| - 1], i)
  }

  lemma {:induction false} RunSnoc(n: nat, s: State, actions: seq<Action>)
    requires actions != [] && CanRun(n, s, actions)
    ensures var k := |actions| - 1;
      && CanRun(n, s, actions[..k]) && Enabled(n, Run(n, s, actions[..k]), actions[k])
      && Run(n, s, actions) == Step(n, Run(n, s, actions[..k]), actions[k])
    decreases |actions|
  {
    var k := |actions| - 1;
    if k == 0 {
      assert actions[1..] == [] && actions[..0] == [];
    } else {
      RunSnoc(n, Step(n, s, actions[0]), actions[1..]);
      assert actions[1..][..k - 1] == actions[..k][1..];
    }
  }

  /** Over every run an existing source is enabled exactly if the last call about it said so, also if that came before
      the collector restricted the mask to the existing sources. */
  lemma {:induction false} EnabledAsSet(n: nat, actions: seq<Action>, i: nat)
    requires i < n <= MAX_NUM_OF_HID_SOURCES && CanRun(n, Initial(), actions)
    ensures i in Run(n, Initial(), actions).enabled <==> LastSet(actions, i)
    decreases |actions|
  {
    if actions != [] {
      RunSnoc(n, Initial(), actions);
      EnabledAsSet(n, actions[..|actions| - 1], i);
    }
  }

  // ---- disabled sources are left alone ----

  /** The collector's wait, or its round, does not include the source. */
  ghost predicate Noted(s: State, i: nat) {
    match s.pc
    case Waiting(mask) => i !in mask
    case Blocked(mask) => i !in mask
    case Returned(events) => i !in events
    case Filling(todo) => i !in todo
    case Running(_, todo) => i !in todo
    case _ => true
  }

  /** The collector reads the enabled sources in this step. */
  predicate Looks(s: State, a: Action) {
    a.Collect? && s.pc.Deciding?
  }

  /** Once the collector has looked at the enabled sources, no step starts the filler of the source. */
  ghost predicate QuietOnceLooked(n: nat, s: State, actions: seq<Action>, i: nat, looked: bool)
    requires CanRun(n, s, actions)
    decreases |actions|
  {
    actions == []
    || (&& !(looked && Starts(s, actions[0], i))
        && QuietOnceLooked(n, Step(n, s, actions[0]), actions[1..], i, looked || Looks(s, actions[0])))
  }

  lemma StepKeepsNoted(n: nat, s: State, a: Action, i: nat, looked: bool)
    requires Inv(n, s) && Enabled(n, s, a) && i < MAX_NUM_OF_HID_SOURCES && a != SetWrite(i, true)
    requires i !in s.enabled && (looked ==> Noted(s, i))
    ensures i !in Step(n, s, a).enabled
    ensures looked || Looks(s, a) ==> Noted(Step(n, s, a), i)
    ensures !(looked && Starts(s, a, i))
  {
  }

  lemma {:induction false} StaysQuiet(n: nat, s: State, actions: seq<Action>, i: nat, looked: bool)
    requires Inv(n, s) && CanRun(n, s, actions) && i < MAX_NUM_OF_HID_SOURCES
    requires i !in s.enabled && (looked ==> Noted(s, i))
    requires forall j :: 0 <= j < |actions| ==> actions[j] != SetWrite(i, true)
    ensures QuietOnceLooked(n, s, actions, i, looked)
    decreases |actions|
  {
    if actions != [] {
      StepKeepsInv(n, s, actions[0]);
      StepKeepsNoted(n, s, actions[0], i, looked);
      StaysQuiet(n, Step(n, s, actions[0]), actions[1..], i, looked || Looks(s, actions[0]));
    }
  }

  /** In every run: after a call that disables a source, and until one that enables it, its filler does not start once
      the collector has looked at the enabled sources again, whoever posts. */
  lemma DisabledStaysQuiet(n: nat, before: seq<Action>, i: nat, after: seq<Action>)
    requires n <= MAX_NUM_OF_HID_SOURCES && i < MAX_NUM_OF_HID_SOURCES
    requires CanRun(n, Initial(), before)
    requires CanRun(n, Step(n, Run(n, Initial(), before), SetWrite(i, false)), after)
    requires forall j :: 0 <= j < |after| ==> after[j] != SetWrite(i, true)
    ensures QuietOnceLooked(n, Step(n, Run(n, Initial(), before), SetWrite(i, false)), after, i, false)
  {
    InitialInv(n);
    RunKeepsInv(n, Initial(), before);
    var s := Run(n, Initial(), before);
    StepKeepsInv(n, s, SetWrite(i, false));
    StaysQuiet(n, Step(n, s, SetWrite(i, false)), after, i, false);
  }

  /** The collector is going to look: a change is posted, or it does not wait. */
  ghost predicate WillLook(n: nat, s: State) {
    Inv(n, s) && (s.pc.Waiting? || s.pc.Blocked? ==> CHANGED in s.word)
  }

  /** Collector steps up to and including the next look. */
  ghost function LookRank(s: State): nat {
    match s.pc
    case Starting => 2
    case Deciding => 1
    case Waiting(_) => 3
    case Blocked(_) => 0
    case Returned(events) => if CHANGED in events then 2 else 2 * |events| + 3
    case Filling(todo) => 2 * |todo| + 2
    case Running(_, todo) => 2 * |todo| + 3
  }

  ghost predicate LooksWithin(n: nat, s: State, actions: seq<Action>)
    requires CanRun(n, s, actions)
    decreases |actions|
  {
    actions != [] && (Looks(s, actions[0]) || LooksWithin(n, Step(n, s, actions[0]), actions[1..]))
  }

  lemma StepLowersLookRank(n: nat, s: State, a: Action)
    requires WillLook(n, s) && Enabled(n, s, a) && !Looks(s, a)
    ensures WillLook(n, Step(n, s, a))
    ensures LookRank(Step(n, s, a)) <= LookRank(s) - if a.Collect? then 1 else 0
    ensures 1 <= LookRank(s) <= 2 * n + 3
  {
    StepKeepsInv(n, s, a);
    WaitSeesChange(s);
    SubsetSize(n, Todo(s.pc));
    if s.pc.Filling? && s.pc.todo != {} {
      assert |s.pc.todo - {Lowest(s.pc.todo)}| == |s.pc.todo| - 1;
    }
    if s.pc.Returned? && CHANGED !in s.pc.events {
      SubsetSize(n, s.pc.events);
    }
  }

  lemma WaitSeesChange(s: State)
    ensures s.pc.Waiting? || s.pc.Blocked? ==>
      (CHANGED in s.pc.mask && CHANGED in s.word ==> CHANGED in s.word * s.pc.mask)
  {
  }

  /** In every interleaving a posted change is noticed: the collector looks at the enabled sources within 2n + 3 of its
      steps. */
  lemma {:induction false} ChangeNoticed(n: nat, s: State, actions: seq<Action>)
    requires WillLook(n, s) && CanRun(n, s, actions) && Collects(actions) >= LookRank(s) && actions != []
    ensures LooksWithin(n, s, actions)
    decreases |actions|
  {
    if !Looks(s, actions[0]) {
      StepLowersLookRank(n, s, actions[0]);
      var s' := Step(n, s, actions[0]);
      LookRankPositive(n, s');
      ChangeNoticed(n, s', actions[1..]);
    }
  }

  lemma LookRankPositive(n: nat, s: State)
    requires WillLook(n, s)
    ensures 1 <= LookRank(s) <= 2 * n + 3
  {
    SubsetSize(n, Todo(s.pc));
    WaitSeesChange(s);
    if s.pc.Returned? && CHANGED !in s.pc.events {
      SubsetSize(n, s.pc.events);
    }
  }

  // ---- every run of a filler was asked for ----

  function Posts(actions: seq<Action>, i: nat): nat {
    if actions == [] then 0 else (if actions[0] == Post(i) then 1 else 0) + Posts(actions[1..], i)
  }

  ghost function StartsOf(n: nat, s: State, actions: seq<Action>, i: nat): nat
    requires CanRun(n, s, actions)
    decreases |actions|
  {
    if actions == [] then 0
    else (if Starts(s, actions[0], i) then 1 else 0) + StartsOf(n, Step(n, s, actions[0]), actions[1..], i)
  }

  /** Runs of the filler still asked for: by the bit, and by this round. */
  function Asked(s: State, i: nat): nat {
    (if i in s.word then 1 else 0) + (if i in Todo(s.pc) then 1 else 0)
  }

  lemma StepKeepsAsked(n: nat, s: State, a: Action, i: nat)
    requires Inv(n, s) && Enabled(n, s, a) && i < MAX_NUM_OF_HID_SOURCES
    ensures Asked(Step(n, s, a), i) + (if Starts(s, a, i) then 1 else 0) <= Asked(s, i) + if a == Post(i) then 1 else 0
  {
  }

  lemma {:induction false} StartsWereAsked(n: nat, s: State, actions: seq<Action>, i: nat)
    requires Inv(n, s) && CanRun(n, s, actions) && i < MAX_NUM_OF_HID_SOURCES
    ensures StartsOf(n, s, actions, i) <= Posts(actions, i) + Asked(s, i)
    decreases |actions|
  {
    if actions != [] {
      StepKeepsInv(n, s, actions[0]);
      StepKeepsAsked(n, s, actions[0], i);
      StartsWereAsked(n, Step(n, s, actions[0]), actions[1..], i);
    }
  }

  /** In every run a source's filler runs at most once for each of its posts. */
  lemma NoSpuriousRuns(n: nat, actions: seq<Action>, i: nat)
    requires n <= MAX_NUM_OF_HID_SOURCES && i < MAX_NUM_OF_HID_SOURCES && CanRun(n, Initial(), actions)
    ensures StartsOf(n, Initial(), actions, i) <= Posts(actions, i)
  {
    InitialInv(n);
    StartsWereAsked(n, Initial(), actions, i);
  }
}
