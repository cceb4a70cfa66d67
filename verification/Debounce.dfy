/** The debounce service: a circular array of re-enable requests, shifted by a timer, on top of the one-shot
    GPIO interrupts. n is the number of shifts. */
module Debounce {
  import opened Gpio

  // ---- the shift register, as a value ----

  /** Logical cells 0 to n, the shifts still to do, and whether the timer runs. */
  datatype Ring = Ring(cells: seq<Pins>, movesLeft: nat, timer: bool)

  /** Cell 0 is empty, so is every cell above `movesLeft`, and the timer runs exactly when there are moves left. */
  ghost predicate RingInv(n: nat, r: Ring) {
    && n >= 1 && |r.cells| == n + 1
    && r.movesLeft <= n
    && r.cells[0] == {}
    && (forall i :: r.movesLeft < i <= n ==> r.cells[i] == {})
    && (r.timer <==> r.movesLeft > 0)
  }

  /** An edge asks for its pin to be re-enabled n shifts later. */
  function Requested(n: nat, r: Ring, pin: Pin): Ring
    requires |r.cells| == n + 1
  {
    Ring(r.cells[n := r.cells[n] + {pin}], n, true)
  }

  /** One timer period: everything moves down a cell, and what reaches cell 0 is served and forgotten. */
  function Ticked(n: nat, r: Ring): Ring
    requires n >= 1 && |r.cells| == n + 1 && r.movesLeft > 0
  {
    Ring([{}] + r.cells[2..] + [{}], r.movesLeft - 1, r.movesLeft > 1)
  }

  function Cleared(n: nat, r: Ring, pin: Pin): Ring
    requires |r.cells| == n + 1
  {
    r.(cells := seq(n + 1, i requires 0 <= i <= n => if 1 <= i <= r.movesLeft then r.cells[i] - {pin} else r.cells[i]))
  }

  datatype RingOp = Edge(pin: Pin) | Tick | Unset(pin: Pin)

  function RingStep(n: nat, r: Ring, op: RingOp): (r': Ring)
    requires n >= 1 && |r.cells| == n + 1
    ensures |r'.cells| == n + 1
  {
    match op
    case Edge(pin) => Requested(n, r, pin)
    case Tick => if r.movesLeft > 0 then Ticked(n, r) else r
    case Unset(pin) => Cleared(n, r, pin)
  }

  function RingRun(n: nat, r: Ring, ops: seq<RingOp>): (r': Ring)
    requires n >= 1 && |r.cells| == n + 1
    ensures |r'.cells| == n + 1
  {
    if ops == [] then r else RingStep(n, RingRun(n, r, ops[..|ops| - 1]), ops[|ops| - 1])
  }

  /** The timer callback runs only while the timer does. */
  predicate Runs(n: nat, r: Ring, ops: seq<RingOp>)
    requires n >= 1 && |r.cells| == n + 1
  {
    ops != [] ==>
      && Runs(n, r, ops[..|ops| - 1])
      && (ops[|ops| - 1].Tick? ==> RingRun(n, r, ops[..|ops| - 1]).timer)
  }

  lemma {:induction false} RunKeepsRingInv(n: nat, r: Ring, ops: seq<RingOp>)
    requires RingInv(n, r)
    ensures RingInv(n, RingRun(n, r, ops))
  {
    if ops != [] {
      RunKeepsRingInv(n, r, ops[..|ops| - 1]);
    }
  }

  function Ticks(ops: seq<RingOp>): nat {
    if ops == [] then 0 else Ticks(ops[..|ops| - 1]) + if ops[|ops| - 1].Tick? then 1 else 0
  }

  predicate Unsets(ops: seq<RingOp>, pin: Pin) {
    RingOp.Unset(pin) in ops
  }

  lemma UnsetsPrefix(ops: seq<RingOp>, pin: Pin)
    requires ops != [] && !Unsets(ops, pin)
    ensures !Unsets(ops[..|ops| - 1], pin) && ops[|ops| - 1] != RingOp.Unset(pin)
  {
    assert forall op :: op in ops[..|ops| - 1] ==> op in ops;
  }

  lemma StepShifts(n: nat, r: Ring, op: RingOp, pin: Pin, j: nat)
    requires RingInv(n, r) && 1 <= j <= n && op != RingOp.Unset(pin) && (op.Tick? ==> r.timer)
    ensures op.Tick? && j < n ==> RingStep(n, r, op).cells[j] == r.cells[j + 1]
    ensures !op.Tick? && (j < n || op != Edge(pin)) ==> (pin in RingStep(n, r, op).cells[j] <==> pin in r.cells[j])
    ensures !op.Tick? && pin in r.cells[j] ==> pin in RingStep(n, r, op).cells[j]
  {
  }

  lemma ShiftOnce(n: nat, mid: Ring, op: RingOp, pin: Pin, j: nat, cells: seq<Pins>, ticks: nat)
    requires RingInv(n, mid) && |cells| == n + 1 && op != RingOp.Unset(pin) && (op.Tick? ==> mid.timer)
    requires 1 <= j && j + ticks + (if op.Tick? then 1 else 0) <= n
    requires var i := if op.Tick? then j + 1 else j;
      && (i + ticks < n ==> (pin in mid.cells[i] <==> pin in cells[i + ticks]))
      && (pin in cells[i + ticks] ==> pin in mid.cells[i])
    ensures var now, i := RingStep(n, mid, op).cells[j], j + ticks + if op.Tick? then 1 else 0;
      && (i < n ==> (pin in now <==> pin in cells[i]))
      && (pin in cells[i] ==> pin in now)
  {
    StepShifts(n, mid, op, pin, j);
  }

  /** Over a run of at most n periods, a cell's request moves down one cell a period; requests made meanwhile stay
      behind it. */
  lemma {:induction false} CellsShift(n: nat, r: Ring, ops: seq<RingOp>, pin: Pin, j: nat)
    requires RingInv(n, r) && Runs(n, r, ops) && !Unsets(ops, pin)
    requires 1 <= j && j + Ticks(ops) <= n
    ensures j + Ticks(ops) < n ==> (pin in RingRun(n, r, ops).cells[j] <==> pin in r.cells[j + Ticks(ops)])
    ensures pin in r.cells[j + Ticks(ops)] ==> pin in RingRun(n, r, ops).cells[j]
  {
    if ops != [] {
      var before, op := ops[..|ops| - 1], ops[|ops| - 1];
      UnsetsPrefix(ops, pin);
      CellsShift(n, r, before, pin, if op.Tick? then j + 1 else j);
      RunKeepsRingInv(n, r, before);
      ShiftOnce(n, RingRun(n, r, before), op, pin, j, r.cells, Ticks(before));
    }
  }

  lemma {:induction false} TimerKeepsRunning(n: nat, r: Ring, ops: seq<RingOp>)
    requires RingInv(n, r) && Runs(n, r, ops)
    ensures r.movesLeft <= RingRun(n, r, ops).movesLeft + Ticks(ops)
  {
    if ops != [] {
      var before := ops[..|ops| - 1];
      TimerKeepsRunning(n, r, before);
      RunKeepsRingInv(n, r, before);
    }
  }

  /** A request placed by an edge is served by exactly the n-th following timer callback: the timer keeps running
      until then, that callback serves it, and (when the pin had no older request) no callback in between does. */
  lemma RequestServedAtNthTick(n: nat, r: Ring, pin: Pin, ops: seq<RingOp>)
    requires RingInv(n, r) && Runs(n, Requested(n, r, pin), ops) && !Unsets(ops, pin)
    requires Ticks(ops) < n
    ensures var now := RingRun(n, Requested(n, r, pin), ops);
      && now.timer
      && (Ticks(ops) == n - 1 ==> pin in now.cells[1])
      && (Ticks(ops) < n - 1 && (forall i :: 0 <= i <= n ==> pin !in r.cells[i]) ==> pin !in now.cells[1])
  {
    var start := Requested(n, r, pin);
    CellsShift(n, start, ops, pin, 1);
    TimerKeepsRunning(n, start, ops);
    RunKeepsRingInv(n, start, ops);
  }

  /** Clearing only cells 1 to `movesLeft` forgets the pin everywhere. */
  lemma UnsetForgets(n: nat, r: Ring, pin: Pin, i: nat)
    requires RingInv(n, r) && i <= n
    ensures pin !in Cleared(n, r, pin).cells[i]
  {
    assert Cleared(n, r, pin).cells[i] == if 1 <= i <= r.movesLeft then r.cells[i] - {pin} else r.cells[i];
  }

  // ---- the circular array ----

  /** circular_index_to_phys */
  function CircularIndex(n: nat, cell0: nat, index: nat): (phys: nat)
    ensures cell0 <= n && index <= n ==> phys <= n
  {
    if index + cell0 >= n + 1 then index + cell0 - (n + 1) else index + cell0
  }

  /** Advancing cell 0 by one renumbers every cell down by one, and the old cell 0 becomes the last. */
  lemma RotationRenumbers(n: nat, cell0: nat, i: nat)
    requires cell0 <= n && i <= n
    ensures CircularIndex(n, CircularIndex(n, cell0, 1), i) == CircularIndex(n, cell0, if i < n then i + 1 else 0)
  {
  }

  lemma TickedCells(n: nat, r: Ring)
    requires RingInv(n, r) && r.movesLeft > 0
    ensures (r.cells[1..] + [r.cells[0]])[0 := {}] == Ticked(n, r).cells
    ensures RingInv(n, Ticked(n, r))
  {
  }

  class ShiftRegister {
    const n: nat
    const shiftarr: array<Pins>
    var cell0Index: nat
    var movesLeft: nat
    var timerRunning: bool

    constructor (n: nat)
      requires n >= 1
      ensures Valid() && this.n == n && RingInv(n, State()) && movesLeft == 0
      ensures fresh(shiftarr)
    {
      this.n := n;
      shiftarr := new Pins[n + 1](_ => {});
      cell0Index, movesLeft, timerRunning := 0, 0, false;
    }

    ghost predicate Valid()
      reads this`cell0Index
    {
      n >= 1 && shiftarr.Length == n + 1 && cell0Index <= n
    }

    function Phys(index: nat): nat
      requires Valid()
      reads this`cell0Index
    {
      CircularIndex(n, cell0Index, index)
    }

    ghost function State(): (r: Ring)
      requires Valid()
      reads this, shiftarr
      ensures |r.cells| == n + 1
    {
      Ring(seq(n + 1, i requires 0 <= i <= n && Valid() reads this, shiftarr => shiftarr[Phys(i)]),
           movesLeft, timerRunning)
    }

    method DebounceGpioCb(pin: Pin)
      requires Valid() && RingInv(n, State())
      modifies this, shiftarr
      ensures Valid() && State() == Requested(n, old(State()), pin) && RingInv(n, State())
    {
      ghost var before := State();
      shiftarr[Phys(n)] := shiftarr[Phys(n)] + {pin};
      movesLeft := n;
      if !timerRunning {
        timerRunning := true;
      }
      assert State().cells == Requested(n, before, pin).cells;
    }

    /** Returns the pins to re-enable. */
    method DebounceTimerCb() returns (served: Pins)
      requires Valid() && RingInv(n, State()) && timerRunning
      modifies this, shiftarr
      ensures Valid() && State() == Ticked(n, old(State())) && RingInv(n, State())
      ensures served == old(State()).cells[1]
    {
      ghost var before := State();
      RotateBuffer();
      served := TakeCell0();
      movesLeft := movesLeft - 1;
      if movesLeft == 0 {
        timerRunning := false;
      }
      TickedCells(n, before);
      assert State().cells == Ticked(n, before).cells;
    }

    method TakeCell0() returns (served: Pins)
      requires Valid()
      modifies shiftarr
      ensures State().cells == old(State()).cells[0 := {}]
      ensures served == old(State()).cells[0]
    {
      ghost var before := State().cells;
      served := shiftarr[cell0Index];
      assert served == before[0];
      if served != {} {
        shiftarr[cell0Index] := {};
      }
      assert State().cells == before[0 := {}];
    }

    method RotateBuffer()
      requires Valid()
      modifies this`cell0Index
      ensures Valid()
      ensures State().cells == old(State()).cells[1..] + [old(State()).cells[0]]
    {
      ghost var before, c := State().cells, cell0Index;
      cell0Index := Phys(1);
      forall i | 0 <= i <= n
        ensures State().cells[i] == (before[1..] + [before[0]])[i]
      {
        RotationRenumbers(n, c, i);
      }
      assert State().cells == before[1..] + [before[0]];
    }

    method Forget(pin: Pin)
      requires Valid() && RingInv(n, State())
      modifies shiftarr
      ensures Valid() && State() == Cleared(n, old(State()), pin) && RingInv(n, State())
    {
      ghost var before := State();
      for i := 1 to movesLeft + 1
        invariant Valid()
        invariant forall j :: 0 <= j <= n ==>
          shiftarr[Phys(j)] == if 1 <= j < i then before.cells[j] - {pin} else before.cells[j]
      {
        shiftarr[Phys(i)] := shiftarr[Phys(i)] - {pin};
      }
      assert State().cells == Cleared(n, before, pin).cells;
    }
  }
}
