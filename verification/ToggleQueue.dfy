/** The queue of on/off events that is stored as two wrapping 32-bit counters: the lowest bit of `head` is the newest
    event put in, the lowest bit of `tail` the last one taken out. */
module ToggleQueue {

  const TWO_32 := 0x1_0000_0000
  const TWO_31 := 0x8000_0000

  type uint32 = x: int | 0 <= x < TWO_32

  const EINVAL := 22
  const ENODATA := 61

  datatype Counters = Counters(head: uint32, tail: uint32)

  function Bit(x: uint32): bool {
    x % 2 == 1
  }

  function Event(b: bool): int {
    if b then 1 else 0
  }

  function Next(x: uint32): uint32 {
    (x + 1) % TWO_32
  }

  function PutC(c: Counters, event: bool): Counters {
    if Bit(c.head) == event then c else c.(head := Next(c.head))
  }

  /** One event out, if there is one. */
  function PopC(c: Counters): Counters {
    if c.tail == c.head then c else c.(tail := Next(c.tail))
  }

  class ToggleQueue {
    var head: uint32
    var tail: uint32

    function State(): Counters
      reads this
    {
      Counters(head, tail)
    }

    constructor (initialState: bool)
      ensures State() == Counters(Event(initialState), Event(initialState))
    {
      head, tail := Event(initialState), Event(initialState);
    }

    /** toggle_queue_len: an unsigned difference, the wrong way round, read as a signed number. */
    method Len() returns (r: int)
      ensures -TWO_31 <= r < TWO_31 && r % TWO_32 == (tail - head) % TWO_32
    {
      var d := (tail - head) % TWO_32;
      r := if d < TWO_31 then d else d - TWO_32;
    }

    method Put(event: bool) returns (r: int)
      modifies this
      ensures State() == PutC(old(State()), event)
      ensures r == if Bit(old(head)) == event then -EINVAL else Event(event)
    {
      if Bit(head) == event {
        return -EINVAL;
      }
      head := Next(head);
      return Event(event);
    }

    method Get() returns (r: int)
      modifies this
      ensures State() == PopC(old(State()))
      ensures r == if old(tail) == old(head) then -ENODATA else Event(Bit(tail))
    {
      if tail == head {
        return -ENODATA;
      }
      tail := Next(tail);
      return Event(Bit(tail));
    }

    method GetOrLast() returns (r: bool)
      modifies this
      ensures State() == PopC(old(State()))
      ensures r == Bit(tail)
    {
      if tail != head {
        tail := Next(tail);
      }
      return Bit(tail);
    }
  }

  // ---- the queue the counters stand for ----

  /** The last event taken out and those still waiting, oldest first. */
  datatype Queue = Queue(last: bool, pending: seq<bool>)

  function Newest(q: Queue): bool {
    if q.pending == [] then q.last else q.pending[|q.pending| - 1]
  }

  function PutQ(q: Queue, event: bool): Queue {
    if Newest(q) == event then q else q.(pending := q.pending + [event])
  }

  function PopQ(q: Queue): Queue {
    if q.pending == [] then q else Queue(q.pending[0], q.pending[1..])
  }

  /** Every waiting event is the opposite of the one before it. */
  ghost predicate Alternating(q: Queue) {
    forall i :: 0 <= i < |q.pending| ==> q.pending[i] == (q.last == (i % 2 == 1))
  }

  ghost predicate Represents(c: Counters, q: Queue) {
    && |q.pending| < TWO_32
    && Bit(c.tail) == q.last
    && c.head == (c.tail + |q.pending|) % TWO_32
    && Alternating(q)
  }

  lemma WrapKeepsParity(x: nat)
    ensures (x % TWO_32) % 2 == x % 2
  {
  }

  lemma NewestIsHeadBit(c: Counters, q: Queue)
    requires Represents(c, q)
    ensures Newest(q) == Bit(c.head)
    ensures c.head == c.tail <==> q.pending == []
  {
    WrapKeepsParity(c.tail + |q.pending|);
  }

  lemma PutAlternates(q: Queue, event: bool)
    requires Alternating(q) && Newest(q) != event
    ensures Alternating(PutQ(q, event))
  {
    var n := |q.pending|;
    if n > 0 {
      assert q.pending[n - 1] == (q.last == ((n - 1) % 2 == 1));
    }
    forall i | 0 <= i <= n
      ensures PutQ(q, event).pending[i] == (q.last == (i % 2 == 1))
    {
      if i == n {
      } else {
        assert PutQ(q, event).pending[i] == q.pending[i];
      }
    }
  }

  lemma PopAlternates(q: Queue)
    requires Alternating(q) && q.pending != []
    ensures Alternating(PopQ(q)) && PopQ(q).last == !q.last
  {
    assert q.pending[0] == !q.last;
    var q' := PopQ(q);
    forall i | 0 <= i < |q'.pending|
      ensures q'.pending[i] == (q'.last == (i % 2 == 1))
    {
      assert q'.pending[i] == q.pending[i + 1];
    }
  }

  /** An accepted event joins the queue exactly as long as fewer than 2^32 - 1 wait; one more and the counters meet. */
  lemma PutRefines(c: Counters, q: Queue, event: bool)
    requires Represents(c, q)
    ensures Represents(PutC(c, event), PutQ(q, event)) <==> (Newest(q) == event || |q.pending| < TWO_32 - 1)
    ensures Newest(q) != event && |q.pending| == TWO_32 - 1 ==> PutC(c, event).head == PutC(c, event).tail
  {
    NewestIsHeadBit(c, q);
    if Newest(q) != event {
      PutAlternates(q, event);
    }
  }

  lemma PopRefines(c: Counters, q: Queue)
    requires Represents(c, q)
    ensures Represents(PopC(c), PopQ(q))
    ensures PopQ(q).last == Bit(PopC(c).tail)
  {
    NewestIsHeadBit(c, q);
    if q.pending != [] {
      WrapKeepsParity(c.tail + 1);
      PopAlternates(q);
      NextKeepsDistance(c.tail, |q.pending|);
    }
  }

  lemma NextKeepsDistance(tail: uint32, n: nat)
    requires n > 0
    ensures (tail + n) % TWO_32 == (Next(tail) + (n - 1)) % TWO_32
  {
  }

  /** What `Len` returns is the number of waiting events with the sign turned (as long as that fits a signed
      number), so it equals that number only when the queue is empty. */
  lemma LenIsNegated(c: Counters, q: Queue, r: int)
    requires Represents(c, q)
    requires -TWO_31 <= r < TWO_31 && r % TWO_32 == (c.tail - c.head) % TWO_32
    ensures |q.pending| <= TWO_31 ==> r == -|q.pending|
    ensures r == 0 <==> q.pending == []
    ensures r == |q.pending| <==> q.pending == []
  {
    var n := |q.pending|;
    assert (c.tail - c.head) % TWO_32 == (TWO_32 - n) % TWO_32;
  }

  // ---- whole runs ----

  datatype Op = Put(event: bool) | Get | GetOrLast

  function StepC(c: Counters, op: Op): (Counters, int) {
    match op
    case Put(event) => (PutC(c, event), if Bit(c.head) == event then -EINVAL else Event(event))
    case Get => (PopC(c), if c.tail == c.head then -ENODATA else Event(Bit(PopC(c).tail)))
    case GetOrLast => (PopC(c), Event(Bit(PopC(c).tail)))
  }

  function StepQ(q: Queue, op: Op): (Queue, int) {
    match op
    case Put(event) => (PutQ(q, event), if Newest(q) == event then -EINVAL else Event(event))
    case Get => (PopQ(q), if q.pending == [] then -ENODATA else Event(q.pending[0]))
    case GetOrLast => (PopQ(q), Event(if q.pending == [] then q.last else q.pending[0]))
  }

  function RunC(c: Counters, ops: seq<Op>): (seq<int>, Counters)
    decreases |ops|
  {
    if ops == [] then ([], c)
    else
      var (c', out) := StepC(c, ops[0]);
      var (outs, end) := RunC(c', ops[1..]);
      ([out] + outs, end)
  }

  function RunQ(q: Queue, ops: seq<Op>): (seq<int>, Queue)
    decreases |ops|
  {
    if ops == [] then ([], q)
    else
      var (q', out) := StepQ(q, ops[0]);
      var (outs, end) := RunQ(q', ops[1..]);
      ([out] + outs, end)
  }

  /** At most 2^32 - 1 events wait after every step of the run. */
  predicate Bounded(q: Queue, ops: seq<Op>)
    decreases |ops|
  {
    |q.pending| < TWO_32 && (ops == [] || Bounded(StepQ(q, ops[0]).0, ops[1..]))
  }

  /** Over every run that keeps fewer than 2^32 events waiting, the counters answer like the queue, wrap or no wrap. */
  lemma {:induction false} RunRefines(c: Counters, q: Queue, ops: seq<Op>)
    requires Represents(c, q) && Bounded(q, ops)
    ensures RunC(c, ops).0 == RunQ(q, ops).0
    ensures Represents(RunC(c, ops).1, RunQ(q, ops).1)
    decreases |ops|
  {
    if ops != [] {
      NewestIsHeadBit(c, q);
      match ops[0] {
        case Put(event) => PutRefines(c, q, event);
        case Get => PopRefines(c, q);
        case GetOrLast => PopRefines(c, q);
      }
      RunRefines(StepC(c, ops[0]).0, StepQ(q, ops[0]).0, ops[1..]);
    }
  }

  /** The events a run accepts, in order. */
  function Accepted(q: Queue, ops: seq<Op>): seq<bool>
    decreases |ops|
  {
    if ops == [] then []
    else
      (if ops[0].Put? && Newest(q) != ops[0].event then [ops[0].event] else [])
      + Accepted(StepQ(q, ops[0]).0, ops[1..])
  }

  /** The events a run takes out, in order. */
  function Taken(q: Queue, ops: seq<Op>): seq<bool>
    decreases |ops|
  {
    if ops == [] then []
    else
      (if !ops[0].Put? && q.pending != [] then [q.pending[0]] else [])
      + Taken(StepQ(q, ops[0]).0, ops[1..])
  }

  /** First in, first out, and nothing lost: what waited plus what was accepted is what came out plus what waits. */
  lemma {:induction false} Conservation(q: Queue, ops: seq<Op>)
    ensures q.pending + Accepted(q, ops) == Taken(q, ops) + RunQ(q, ops).1.pending
    decreases |ops|
  {
    if ops == [] {
      assert q.pending + [] == [] + q.pending;
    } else {
      var q' := StepQ(q, ops[0]).0;
      Conservation(q', ops[1..]);
      StepConserves(q, ops[0], Accepted(q', ops[1..]), Taken(q', ops[1..]), RunQ(q', ops[1..]).1.pending);
    }
  }

  lemma StepConserves(q: Queue, op: Op, accepted: seq<bool>, taken: seq<bool>, left: seq<bool>)
    requires StepQ(q, op).0.pending + accepted == taken + left
    ensures q.pending + ((if op.Put? && Newest(q) != op.event then [op.event] else []) + accepted)
         == (if !op.Put? && q.pending != [] then [q.pending[0]] else []) + taken + left
  {
    var q' := StepQ(q, op).0;
    if op.Put? {
      if Newest(q) != op.event {
        assert q.pending + ([op.event] + accepted) == q'.pending + accepted;
      }
      assert [] + taken + left == taken + left && [] + accepted == accepted;
    } else if q.pending != [] {
      assert q.pending + ([] + accepted) == [q.pending[0]] + (q'.pending + accepted);
      assert [q.pending[0]] + taken + left == [q.pending[0]] + (taken + left);
    }
  }
}
