/** The code of the buttons source: which queue belongs to a pin, the report filler and the interrupt callback. */
module ButtonsSource {
  import opened ToggleQueue
  import HidReport

  datatype Option<T> = None | Some(value: T)

  // ---- the queue of a pin ----

  function MinOf(pins: seq<uint32>): (m: uint32)
    requires pins != []
    ensures m in pins && forall p :: p in pins ==> m <= p
  {
    var k := |pins| - 1;
    assert pins == pins[..k] + [pins[k]];
    if k == 0 || pins[k] < MinOf(pins[..k]) then pins[k] else MinOf(pins[..k])
  }

  function MaxOf(pins: seq<uint32>): (m: uint32)
    requires pins != []
    ensures m in pins && forall p :: p in pins ==> p <= m
  {
    var k := |pins| - 1;
    assert pins == pins[..k] + [pins[k]];
    if k == 0 || pins[k] > MaxOf(pins[..k]) then pins[k] else MaxOf(pins[..k])
  }

  /** The first place of a pin in the table. */
  function FirstIndex(pins: seq<uint32>, pin: uint32): (r: Option<nat>)
    ensures r.None? <==> pin !in pins
    ensures r.Some? ==> r.value < |pins| && pins[r.value] == pin
  {
    if pins == [] then None
    else if pins[0] == pin then Some(0)
    else
      match FirstIndex(pins[1..], pin)
      case None => None
      case Some(i) => Some(i + 1)
  }

  function QueueIndex(pins: seq<uint32>, pin: uint32): Option<nat>
    requires pins != []
  {
    if MaxOf(pins) - MinOf(pins) == |pins| - 1 then
      if MinOf(pins) <= pin <= MaxOf(pins) then Some(pin - MinOf(pins)) else None
    else FirstIndex(pins, pin)
  }

  method MinAndMax(pins: seq<uint32>) returns (min: uint32, max: uint32)
    requires pins != []
    ensures min == MinOf(pins) && max == MaxOf(pins)
  {
    min, max := pins[0], pins[0];
    assert pins[..1] == [pins[0]];
    for i := 1 to |pins|
      invariant min == MinOf(pins[..i]) && max == MaxOf(pins[..i])
    {
      assert pins[..i + 1][..i] == pins[..i];
      if pins[i] < min {
        min := pins[i];
      }
      if pins[i] > max {
        max := pins[i];
      }
    }
    assert pins[..|pins|] == pins;
  }

  method QueueForPin(pins: seq<uint32>, pin: uint32) returns (r: Option<nat>)
    requires pins != []
    ensures r == QueueIndex(pins, pin)
  {
    var min, max := MinAndMax(pins);
    if max - min == |pins| - 1 {
      if min <= pin && pin <= max {
        return Some(pin - min);
      }
      return None;
    }
    for i := 0 to |pins|
      invariant pin !in pins[..i]
    {
      if pin == pins[i] {
        FirstIndexIs(pins, i);
        return Some(i);
      }
    }
    return None;
  }

  lemma {:induction false} FirstIndexIs(pins: seq<uint32>, i: nat)
    requires i < |pins| && pins[i] !in pins[..i]
    ensures FirstIndex(pins, pins[i]) == Some(i)
    decreases i
  {
    if i > 0 {
      assert pins[0] == pins[..i][0];
      assert pins[1..][..i - 1] == pins[..i][1..];
      FirstIndexIs(pins[1..], i - 1);
    }
  }

  ghost predicate Distinct(pins: seq<uint32>) {
    forall i, j :: 0 <= i < j < |pins| ==> pins[i] != pins[j]
  }

  function Range(lo: int, count: nat): (s: set<int>)
    ensures forall x :: x in s <==> lo <= x < lo + count
    ensures |s| == count
  {
    if count == 0 then {} else Range(lo, count - 1) + {lo + count - 1}
  }

  lemma {:induction false} ElementCount(pins: seq<uint32>, s: set<int>)
    requires Distinct(pins) && forall p :: p in s <==> p in pins
    ensures |s| == |pins|
    decreases |pins|
  {
    if pins == [] {
      assert forall p :: p !in s;
    } else {
      var last := pins[|pins| - 1];
      assert pins == pins[..|pins| - 1] + [last];
      ElementCount(pins[..|pins| - 1], s - {last});
    }
  }

  lemma SubsetOfSameSize(a: set<int>, b: set<int>)
    requires a <= b && |a| == |b|
    ensures a == b
  {
    assert b == a + (b - a);
    assert |b - a| == 0;
    assert b - a == {};
  }

  /** The pins of the table, and no others, have a queue, and different pins have different queues: when the numbers
      span exactly as many pins as there are, every pin in between is in the table. */
  lemma QueuePerPin(pins: seq<uint32>, pin: uint32, other: uint32)
    requires pins != [] && Distinct(pins)
    ensures QueueIndex(pins, pin).Some? <==> pin in pins
    ensures pin in pins ==> QueueIndex(pins, pin).value < |pins|
    ensures pin in pins && other in pins && pin != other ==> QueueIndex(pins, pin) != QueueIndex(pins, other)
  {
    if MaxOf(pins) - MinOf(pins) == |pins| - 1 {
      var s := set p: int | p in pins;
      ElementCount(pins, s);
      SubsetOfSameSize(s, Range(MinOf(pins), |pins|));
    }
  }

  /** Where a pin's queue is: at the pin's place in the table, or, when the pins are contiguous, in the order of their
      numbers. */
  lemma QueueOrder(pins: seq<uint32>, pin: uint32, other: uint32)
    requires pins != [] && Distinct(pins) && pin in pins && other in pins
    ensures QueueIndex(pins, pin).Some? && QueueIndex(pins, other).Some?
    ensures MaxOf(pins) - MinOf(pins) == |pins| - 1 ==>
      QueueIndex(pins, other).value - QueueIndex(pins, pin).value == other - pin
    ensures MaxOf(pins) - MinOf(pins) != |pins| - 1 ==>
      QueueIndex(pins, pin).value < |pins| && pins[QueueIndex(pins, pin).value] == pin
  {
    QueuePerPin(pins, pin, other);
    QueuePerPin(pins, other, pin);
  }

  // ---- the filler and the interrupt callback ----

  /** The queues of all buttons, one each. */
  ghost predicate Separate(queues: seq<ToggleQueue>) {
    forall i, j :: 0 <= i < j < |queues| ==> queues[i] != queues[j]
  }

  /** One button's event, or its last state, from its queue into bit b of the report. */
  method ReadButton(queues: seq<ToggleQueue>, pins: seq<uint32>, b: int, report: array<bv8>)
    requires |queues| == |pins| == 3 && Distinct(pins) && Separate(queues) && 0 <= b < 3
    requires report.Length == HidReport.REPORT_SIZE
    modifies queues, report
    ensures QueueIndex(pins, pins[b]).Some? && QueueIndex(pins, pins[b]).value < 3
    ensures var k := QueueIndex(pins, pins[b]).value;
      && queues[k].State() == PopC(old(queues[k].State()))
      && report[0] == HidReport.WithButton(old(report[0]), b, Bit(queues[k].tail))
      && forall i :: 0 <= i < 3 && i != k ==> queues[i].State() == old(queues[i].State())
    ensures forall i :: 1 <= i < report.Length ==> report[i] == old(report[i])
  {
    QueuePerPin(pins, pins[b], pins[b]);
    var k := QueueForPin(pins, pins[b]);
    var on := queues[k.value].GetOrLast();
    report[0] := HidReport.WithButton(report[0], b, on);
  }

  method AnyWaiting(queues: seq<ToggleQueue>) returns (notify: bool)
    ensures notify <==> exists i :: 0 <= i < |queues| && queues[i].tail != queues[i].head
  {
    for i := 0 to |queues|
      invariant forall j :: 0 <= j < i ==> queues[j].tail == queues[j].head
    {
      var len := queues[i].Len();
      if len != 0 {
        return true;
      }
    }
    return false;
  }

  ghost function IndexOf(pins: seq<uint32>, b: int): int
    requires |pins| == 3 && 0 <= b < 3
  {
    if QueueIndex(pins, pins[b]).Some? then QueueIndex(pins, pins[b]).value else -1
  }

  predicate OneOf(i: int, a: int, b: int, c: int) {
    i == a || i == b || i == c
  }

  lemma IndexesDiffer(pins: seq<uint32>)
    requires |pins| == 3 && Distinct(pins)
    ensures forall b :: 0 <= b < 3 ==> 0 <= IndexOf(pins, b) < 3
    ensures forall b, c :: 0 <= b < c < 3 ==> IndexOf(pins, b) != IndexOf(pins, c)
    ensures forall i :: 0 <= i < 3 ==> OneOf(i, IndexOf(pins, 0), IndexOf(pins, 1), IndexOf(pins, 2))
  {
    QueuePerPin(pins, pins[0], pins[1]);
    QueuePerPin(pins, pins[1], pins[2]);
    QueuePerPin(pins, pins[2], pins[0]);
  }

  lemma ThreeBits(r: bv8, r1: bv8, r2: bv8, r3: bv8, x: bool, y: bool, z: bool)
    requires r1 == HidReport.WithButton(r, 0, x) && r2 == HidReport.WithButton(r1, 1, y)
    requires r3 == HidReport.WithButton(r2, 2, z)
    ensures HidReport.ButtonBit(r3, 0) == x && HidReport.ButtonBit(r3, 1) == y && HidReport.ButtonBit(r3, 2) == z
    ensures forall c :: 3 <= c < 8 ==> HidReport.ButtonBit(r3, c) == HidReport.ButtonBit(r, c)
  {
    forall c | 0 <= c < 8
      ensures HidReport.ButtonBit(r3, c)
           == if c == 2 then z else if c == 1 then y else if c == 0 then x else HidReport.ButtonBit(r, c)
    {
      HidReport.WithButtonBits(r, 0, x, c);
      HidReport.WithButtonBits(r1, 1, y, c);
      HidReport.WithButtonBits(r2, 2, z, c);
    }
  }

  method ReadButtons(queues: seq<ToggleQueue>, pins: seq<uint32>, report: array<bv8>)
    requires |queues| == |pins| == 3 && Distinct(pins) && Separate(queues)
    requires report.Length == HidReport.REPORT_SIZE
    modifies queues, report
    ensures forall i :: 0 <= i < |queues| ==> queues[i].State() == PopC(old(queues[i].State()))
    ensures forall b :: 0 <= b < 3 ==> 0 <= IndexOf(pins, b) < 3
    ensures HidReport.ButtonBit(report[0], 0) == Bit(queues[IndexOf(pins, 0)].tail)
    ensures HidReport.ButtonBit(report[0], 1) == Bit(queues[IndexOf(pins, 1)].tail)
    ensures HidReport.ButtonBit(report[0], 2) == Bit(queues[IndexOf(pins, 2)].tail)
    ensures forall c :: 3 <= c < 8 ==> HidReport.ButtonBit(report[0], c) == HidReport.ButtonBit(old(report[0]), c)
    ensures forall i :: 1 <= i < report.Length ==> report[i] == old(report[i])
  {
    IndexesDiffer(pins);
    ghost var k0, k1, k2 := IndexOf(pins, 0), IndexOf(pins, 1), IndexOf(pins, 2);
    ghost var r := report[0];
    ReadButton(queues, pins, 0, report);
    ghost var r1 := report[0];
    ReadButton(queues, pins, 1, report);
    ghost var r2 := report[0];
    ReadButton(queues, pins, 2, report);
    ThreeBits(r, r1, r2, report[0], Bit(queues[k0].tail), Bit(queues[k1].tail), Bit(queues[k2].tail));
    assert forall i :: 0 <= i < 3 ==> OneOf(i, k0, k1, k2) && queues[i].State() == PopC(old(queues[i].State()));
  }

  /** Takes at most one event out of every queue into the report: button b, of pin pins[b], into bit b. Asks for another
      round exactly if a queue still holds an event. */
  method ReportFiller(queues: seq<ToggleQueue>, pins: seq<uint32>, report: array<bv8>) returns (notify: bool)
    requires |queues| == |pins| == 3 && Distinct(pins) && Separate(queues)
    requires report.Length == HidReport.REPORT_SIZE
    modifies queues, report
    ensures forall i :: 0 <= i < |queues| ==> queues[i].State() == PopC(old(queues[i].State()))
    ensures forall b :: 0 <= b < 3 ==>
      && 0 <= IndexOf(pins, b) < 3
      && HidReport.ButtonBit(report[0], b) == Bit(queues[IndexOf(pins, b)].tail)
    ensures forall c :: 3 <= c < 8 ==> HidReport.ButtonBit(report[0], c) == HidReport.ButtonBit(old(report[0]), c)
    ensures forall i :: 1 <= i < report.Length ==> report[i] == old(report[i])
    ensures notify <==> exists i :: 0 <= i < |queues| && queues[i].tail != queues[i].head
  {
    ReadButtons(queues, pins, report);
    notify := AnyWaiting(queues);
  }

  /** A pin's interrupt: the button is active low. Tells the collector exactly if the event was accepted. */
  method InterruptCb(queues: seq<ToggleQueue>, pins: seq<uint32>, pin: uint32, newLevel: bool) returns (notify: bool)
    requires |queues| == |pins| && Distinct(pins) && Separate(queues) && pin in pins
    modifies queues
    ensures QueueIndex(pins, pin).Some? && QueueIndex(pins, pin).value < |queues|
    ensures var k := QueueIndex(pins, pin).value;
      && queues[k].State() == PutC(old(queues[k].State()), !newLevel)
      && (notify <==> queues[k].State() != old(queues[k].State()))
      && forall i :: 0 <= i < |queues| && i != k ==> queues[i].State() == old(queues[i].State())
  {
    QueuePerPin(pins, pin, pin);
    var k := QueueForPin(pins, pin);
    var r := queues[k.value].Put(!newLevel);
    notify := r >= 0;
  }
}
