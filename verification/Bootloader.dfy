/** The AVR bootloader's SetReport handler: one report carries a little-endian page address and the page's bytes,
    delivered as endpoint packets. The page size n is any power of two from 2 on. */
module Bootloader {
  import opened HostFlashing
  import opened Paging

  const COMMAND_START_APPLICATION := 0xFFFF

  /** Bitwise AND of the low `width` bits of two numbers. */
  function And(a: nat, b: nat, width: nat): (r: nat) {
    if width == 0 then 0
    else (if a % 2 == 1 && b % 2 == 1 then 1 else 0) + 2 * And(a / 2, b / 2, width - 1)
  }

  function Pow2(k: nat): (r: nat)
    ensures r >= 1
  {
    if k == 0 then 1 else 2 * Pow2(k - 1)
  }

  /** Masking with 2^k - 1 takes the remainder. */
  lemma {:induction false} MaskIsRemainder(a: nat, k: nat, width: nat)
    requires k <= width
    ensures And(a, Pow2(k) - 1, width) == a % Pow2(k)
    decreases width
  {
    if k == 0 {
      AndZero(a, width);
    } else {
      MaskIsRemainder(a / 2, k - 1, width - 1);
      MaskStep(a, Pow2(k - 1), width);
    }
  }

  lemma {:induction false} AndZero(a: nat, width: nat)
    ensures And(a, 0, width) == 0
  {
    if width != 0 {
      AndZero(a / 2, width - 1);
    }
  }

  lemma MaskStep(a: nat, m: nat, width: nat)
    requires m >= 1 && width > 0 && And(a / 2, m - 1, width - 1) == (a / 2) % m
    ensures And(a, 2 * m - 1, width) == a % (2 * m)
  {
    HalfRemainder(a, m);
    assert (2 * m - 1) % 2 == 1 && (2 * m - 1) / 2 == m - 1;
  }

  lemma HalfRemainder(a: nat, m: nat)
    requires m >= 1
    ensures a % (2 * m) == 2 * ((a / 2) % m) + a % 2
  {
    var q, r := (a / 2) / m, (a / 2) % m;
    assert a / 2 == q * m + r;
    assert q * (2 * m) == 2 * (q * m);
    DivideUnique(a, 2 * m, q, 2 * r + a % 2);
  }

  /** Programming an erased cell stores the byte; programming can only clear bits. */
  function Programmed(cell: byte, value: byte): (r: byte)
    ensures cell == 0xFF ==> r == value
  {
    AndByte(cell, value);
    And(cell, value, 8)
  }

  lemma AndByte(cell: byte, value: byte)
    ensures And(cell, value, 8) < 256
    ensures And(0xFF, value, 8) == value
  {
    Pow2Eight();
    AndByteWide(cell, value, 8);
  }

  lemma Pow2Eight()
    ensures Pow2(8) == 256
  {
    assert Pow2(4) == 16 && Pow2(8) == 16 * Pow2(4);
  }

  lemma AndByteWide(cell: byte, value: byte, width: nat)
    requires Pow2(width) == 256
    ensures And(cell, value, width) < 256
    ensures And(0xFF, value, width) == value
  {
    AndBound(cell, value, width);
    AndOnes(value, width);
  }

  lemma {:induction false} AndBound(a: nat, b: nat, width: nat)
    ensures And(a, b, width) < Pow2(width)
  {
    if width != 0 {
      AndBound(a / 2, b / 2, width - 1);
    }
  }

  lemma {:induction false} AndOnes(b: nat, width: nat)
    ensures And(Pow2(width) - 1, b, width) == b % Pow2(width)
  {
    AndCommutes(Pow2(width) - 1, b, width);
    MaskIsRemainder(b, width, width);
  }

  lemma {:induction false} AndCommutes(a: nat, b: nat, width: nat)
    ensures And(a, b, width) == And(b, a, width)
  {
    if width != 0 {
      AndCommutes(a / 2, b / 2, width - 1);
    }
  }

  function Concat(banks: seq<seq<byte>>): seq<byte> {
    if banks == [] then [] else banks[0] + Concat(banks[1..])
  }

  lemma {:induction false} ConcatEven(banks: seq<seq<byte>>)
    requires Cut(banks)
    ensures |Concat(banks)| % 2 == 0 && (Concat(banks) == [] <==> banks == [])
  {
    if banks != [] {
      ConcatEven(banks[1..]);
    }
  }

  /** A report cut into endpoint packets, each non-empty and of even size. */
  ghost predicate Cut(banks: seq<seq<byte>>) {
    forall i :: 0 <= i < |banks| ==> banks[i] != [] && |banks[i]| % 2 == 0
  }

  /** Two bytes, least significant first. */
  function Word(low: byte, high: byte): (w: nat)
    ensures w < 0x10000 && w % 256 == low && w / 256 == high
  {
    low as int + 256 * (high as int)
  }

  /** The control OUT endpoint: the packet being read and those still to come. */
  class Endpoint {
    var bank: seq<byte>
    var queue: seq<seq<byte>>
    var stalled: bool

    constructor (banks: seq<seq<byte>>)
      ensures bank == [] && queue == banks && !stalled
    {
      bank, queue, stalled := [], banks, false;
    }

    ghost predicate Valid()
      reads this
    {
      |bank| % 2 == 0 && Cut(queue)
    }

    /** What the host has sent and the handler has not read. */
    ghost function Unread(): seq<byte>
      reads this
    {
      bank + Concat(queue)
    }

    /** Endpoint_ClearOUT and the wait for the next packet. */
    method NextBank()
      requires Valid() && bank == [] && Unread() != []
      modifies this
      ensures Valid() && bank != [] && Unread() == old(Unread()) && stalled == old(stalled)
    {
      bank, queue := queue[0], queue[1..];
    }

    method Read16LE() returns (w: nat)
      requires Valid() && bank != []
      modifies this
      ensures Valid() && stalled == old(stalled)
      ensures |old(Unread())| >= 2 && Unread() == old(Unread())[2..]
      ensures w == Word(old(Unread())[0], old(Unread())[1])
    {
      w := Word(bank[0], bank[1]);
      assert Unread()[2..] == bank[2..] + Concat(queue);
      bank := bank[2..];
    }

    method Stall()
      modifies this
      ensures stalled && bank == old(bank) && queue == old(queue)
    {
      stalled := true;
    }
  }

  /** The address in a report's first two bytes. */
  function Address(report: seq<byte>): nat
    requires |report| >= 2
  {
    Word(report[0], report[1])
  }

  /** The handler stores the page of such a report. */
  predicate Acceptable(n: nat, bootStart: nat, report: seq<byte>)
    requires n > 0
  {
    |report| >= 2 && Address(report) < bootStart && OffsetIn(Address(report), n) == 0
  }

  class Bootloader {
    const k: nat
    const n: nat        // SPM_PAGESIZE
    const bootStart: nat
    const flash: array<byte>
    const buffer: array<byte>  // the temporary page buffer
    var running: bool

    constructor (k: nat, bootPages: nat, image: seq<byte>)
      requires 1 <= k <= 8 && bootPages * Pow2(k) <= |image| && bootPages * Pow2(k) < 0xFFFF
      ensures Valid() && running && flash[..] == image
      ensures n == Pow2(k) && bootStart == bootPages * n
      ensures fresh(flash) && fresh(buffer)
    {
      this.k := k;
      n := Pow2(k);
      bootStart := bootPages * Pow2(k);
      flash := new byte[|image|](i requires 0 <= i < |image| => image[i]);
      buffer := new byte[Pow2(k)](_ => 0xFF);
      running := true;
      new;
      DivideUnique(bootStart, n, bootPages, 0);
      PageIsQuotient(bootStart, n);
    }

    ghost predicate Valid()
      reads this
    {
      && 1 <= k <= 8 && n == Pow2(k)
      && bootStart <= flash.Length && bootStart < 0xFFFF && OffsetIn(bootStart, n) == 0
      && buffer.Length == n && flash != buffer
    }

    method PageErase(address: nat)
      requires Valid() && address + n <= flash.Length
      modifies flash
      ensures flash[..] == Patch(old(flash[..]), address, seq(n, _ => 0xFF))
    {
      ghost var before := flash[..];
      forall i | address <= i < address + n {
        flash[i] := 0xFF;
      }
      assert flash[..] == Patch(before, address, seq(n, _ => 0xFF));
    }

    method PageFill(offset: nat, w: nat)
      requires Valid() && offset + 1 < n && w < 0x10000
      modifies buffer
      ensures buffer[..] == old(buffer[..])[offset := w % 256][offset + 1 := w / 256]
    {
      buffer[offset] := w % 256;
      buffer[offset + 1] := w / 256;
    }

    /** Program the page from the buffer; the buffer erases itself. */
    method PageWrite(address: nat)
      requires Valid() && address + n <= flash.Length
      modifies flash, buffer
      ensures forall i :: 0 <= i < flash.Length ==>
        flash[i] == if address <= i < address + n
                    then Programmed(old(flash[i]), old(buffer[i - address])) else old(flash[i])
    {
      forall i | address <= i < address + n {
        flash[i] := Programmed(flash[i], buffer[i - address]);
      }
      forall i | 0 <= i < n {
        buffer[i] := 0xFF;
      }
    }

    method FillWord(ep: Endpoint, offset: nat, ghost data: seq<byte>)
      requires Valid() && ep.Valid() && ep.bank != [] && offset + 1 < n && offset <= |data|
      requires ep.Unread() == data[offset..] && buffer[..offset] == data[..offset]
      modifies ep, buffer
      ensures ep.Valid() && ep.stalled == old(ep.stalled)
      ensures offset + 2 <= |data| && ep.Unread() == data[offset + 2..]
      ensures buffer[..offset + 2] == data[..offset + 2]
    {
      var w := ep.Read16LE();
      assert w % 256 == data[offset] && w / 256 == data[offset + 1];
      ghost var before := buffer[..];
      PageFill(offset, w);
      assert buffer[..offset] == before[..offset];
    }

    /** Reads n bytes from the endpoint into the page buffer, a word at a time, whatever the packet boundaries. Waits
        (forever, if the host sends nothing more) when the report is shorter. */
    method FillPage(ep: Endpoint) returns (waiting: bool)
      requires Valid() && ep.Valid()
      modifies ep, buffer
      ensures ep.Valid() && ep.stalled == old(ep.stalled)
      ensures waiting <==> |old(ep.Unread())| < n
      ensures !waiting ==> ep.Unread() == old(ep.Unread())[n..] && buffer[..] == old(ep.Unread())[..n]
    {
      ghost var data := ep.Unread();
      ConcatEven(ep.queue);
      assert n % 2 == 0 by { assert n == 2 * Pow2(k - 1); }
      var word := 0;
      while word < n / 2
        invariant 0 <= word <= n / 2 && 2 * word <= |data|
        invariant ep.Valid() && ep.stalled == old(ep.stalled)
        invariant ep.Unread() == data[2 * word..]
        invariant buffer[..2 * word] == data[..2 * word]
      {
        if ep.bank == [] {
          if ep.queue == [] {
            return true;
          }
          ep.NextBank();
        }
        FillWord(ep, 2 * word, data);
        word := word + 1;
      }
      assert buffer[..2 * word] == buffer[..];
      return false;
    }

    /** Erases, fills and writes one page. If the report is too short for the page, it stays erased. */
    method StorePage(ep: Endpoint, address: nat) returns (waiting: bool)
      requires Valid() && ep.Valid() && address + n <= flash.Length
      modifies ep, flash, buffer
      ensures ep.Valid() && ep.stalled == old(ep.stalled)
      ensures waiting <==> |old(ep.Unread())| < n
      ensures flash[..] == Patch(old(flash[..]), address,
                                 if waiting then seq(n, _ => 0xFF) else old(ep.Unread())[..n])
    {
      ghost var before := flash[..];
      PageErase(address);
      ghost var erased := flash[..];
      waiting := FillPage(ep);
      assert flash[..] == erased;
      if waiting {
        return;
      }
      ghost var data := buffer[..];
      PageWrite(address);
      forall i | 0 <= i < flash.Length
        ensures flash[i] == Patch(before, address, data)[i]
      {
      }
      assert flash[..] == Patch(before, address, data);
    }

    /** EVENT_USB_Device_ControlRequest, SetReport case. The handler waits for ever if nothing arrives, or less than the
        page of an acceptable address; bytes beyond the page are not looked at. */
    method SetReport(ep: Endpoint) returns (waiting: bool)
      requires Valid() && ep.Valid() && ep.bank == [] && !ep.stalled
      modifies this, ep, flash, buffer
      ensures Valid()
      ensures waiting <==> var report := old(ep.Unread());
                report == [] || (Acceptable(n, bootStart, report) && |report| < 2 + n)
      ensures running == (old(running) && !(old(ep.Unread()) != []
                                            && Address(old(ep.Unread())) == COMMAND_START_APPLICATION))
      ensures ep.stalled <==> var report := old(ep.Unread());
                && report != [] && !Acceptable(n, bootStart, report)
                && Address(report) != COMMAND_START_APPLICATION
      ensures var report := old(ep.Unread());
        if report == [] || !Acceptable(n, bootStart, report) then flash[..] == old(flash[..])
        else
          && Address(report) + n <= bootStart
          && flash[..] == Patch(old(flash[..]), Address(report),
                                if waiting then seq(n, _ => 0xFF) else report[2..2 + n])
    {
      ghost var report := ep.Unread();
      ConcatEven(ep.queue);
      if ep.queue == [] {
        return true;
      }
      ep.NextBank();
      var address := ep.Read16LE();
      var aligned := IsAligned(address);
      waiting := false;
      if address == COMMAND_START_APPLICATION {
        running := false;
      } else if !(address < bootStart && aligned) {
        ep.Stall();
      } else {
        PageBelow(address, bootStart, n);
        waiting := StorePage(ep, address);
        if !waiting {
          assert report[2..][..n] == report[2..2 + n];
        }
      }
    }

    method IsAligned(address: nat) returns (aligned: bool)
      requires Valid() && address < 0x10000
      ensures aligned <==> OffsetIn(address, n) == 0
    {
      aligned := And(address, n - 1, 16) == 0;
      MaskIsRemainder(address, k, 16);
      PageIsQuotient(address, n);
    }
  }

  /** A page that starts below a page boundary ends below it. */
  lemma PageBelow(address: nat, bound: nat, n: nat)
    requires n > 0 && address < bound && OffsetIn(address, n) == 0 && OffsetIn(bound, n) == 0
    ensures address + n <= bound
  {
    Decompose(address, n);
    Decompose(bound, n);
    var p, q := PageOf(address, n), PageOf(bound, n);
    if p < q {
      StartMonotone(p, q, n);
    } else {
      StartMonotone(q, p, n);
    }
  }
}
