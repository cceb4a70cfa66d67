/** The mouse report: one byte of button states, the wheel, and two 12-bit deltas in three bytes. */
module HidReport {

  const REPORT_SIZE := 5
  /** The bytes of the report that keep their value from one report to the next: only the buttons. */
  const PERSISTENT_BYTES: bv8 := 0x01

  predicate IsPersistent(persistent: bv8, i: int)
    requires 0 <= i < 8
  {
    (persistent >> i) & 1 == 1
  }

  method ClearNonPersistentData(report: array<bv8>, persistent: bv8)
    requires report.Length <= 8
    modifies report
    ensures forall i :: 0 <= i < report.Length ==>
      report[i] == if IsPersistent(persistent, i) then old(report[i]) else 0
  {
    for i := 0 to report.Length
      invariant forall j :: 0 <= j < i ==> report[j] == if IsPersistent(persistent, j) then old(report[j]) else 0
      invariant forall j :: i <= j < report.Length ==> report[j] == old(report[j])
    {
      if !IsPersistent(persistent, i) {
        report[i] := 0;
      }
    }
  }

  /** Bit b of the buttons: 0 left, 1 right, 2 middle. */
  function ButtonBit(buttons: bv8, b: int): bool
    requires 0 <= b < 8
  {
    (buttons >> b) & 1 == 1
  }

  function WithButton(buttons: bv8, b: int, on: bool): bv8
    requires 0 <= b < 3
  {
    var mask: bv8 := if b == 0 then 1 else if b == 1 then 2 else 4;
    if on then buttons | mask else buttons & !mask
  }

  lemma WithButtonBits(buttons: bv8, b: int, on: bool, c: int)
    requires 0 <= b < 3 && 0 <= c < 8
    ensures ButtonBit(WithButton(buttons, b, on), c) == if c == b then on else ButtonBit(buttons, c)
  {
    match c
    case 0 =>
    case 1 =>
    case 2 =>
    case 3 =>
    case 4 =>
    case 5 =>
    case 6 =>
    case 7 =>
  }

  /** After a report was sent its buttons are kept and everything else is cleared. */
  method AfterReport(report: array<bv8>)
    requires report.Length == REPORT_SIZE
    modifies report
    ensures report[..] == [old(report[0]), 0, 0, 0, 0]
  {
    ClearNonPersistentData(report, PERSISTENT_BYTES);
    OnlyButtonsPersist();
  }

  lemma OnlyButtonsPersist()
    ensures forall i :: 0 <= i < REPORT_SIZE ==> (IsPersistent(PERSISTENT_BYTES, i) <==> i == 0)
  {
    assert IsPersistent(1, 0) && !IsPersistent(1, 1) && !IsPersistent(1, 2) && !IsPersistent(1, 3)
        && !IsPersistent(1, 4);
  }
}
