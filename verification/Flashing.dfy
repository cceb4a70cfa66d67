/** Flashing end to end: segments on the host, page packets on the wire, bytes in the flash. */
module Flashing {
  import opened HostFlashing
  import opened Paging
  import opened Bootloader

  /** The report for one page: little-endian address (index times page size, see `StartIsProduct`), then the page. */
  function Packet(n: nat, page: (nat, seq<byte>)): (report: seq<byte>)
    requires Start(page.0, n) < 0x10000
    ensures |report| == 2 + |page.1|
    ensures Address(report) == Start(page.0, n) && report[2..] == page.1
  {
    var address := Start(page.0, n);
    [address % 256, address / 256] + page.1
  }

  /** Some way of cutting even-sized reports into non-empty even-sized endpoint packets. */
  ghost predicate Cutting(cut: seq<byte> -> seq<seq<byte>>) {
    forall report: seq<byte> :: |report| % 2 == 0 ==> Cut(cut(report)) && Concat(cut(report)) == report
  }

  /** Before a page whose address would not fit 16 bits comes one at or above the boot section whose address does. */
  ghost predicate Sendable(n: nat, bootStart: nat, items: seq<(nat, seq<byte>)>) {
    forall i :: 0 <= i < |items| && Start(items[i].0, n) >= 0x10000 ==>
      exists j :: 0 <= j < i && bootStart <= Start(items[j].0, n) < 0x10000
  }

  /** What flashing the pages of m leaves at address x of a flash that held `before`. */
  function FlashedByte(n: nat, bootStart: nat, m: PageMap, before: seq<byte>, x: nat): byte
    requires n > 0 && WellFormed(n, m) && x < |before|
  {
    if x < bootStart && PageOf(x, n) in m then m[PageOf(x, n)][OffsetIn(x, n)] else before[x]
  }

  /** The first `count` pages have been programmed, and nothing else has changed. */
  ghost predicate FlashedUpTo(n: nat, items: seq<(nat, seq<byte>)>, count: nat, before: seq<byte>, after: seq<byte>)
    requires n > 0 && count <= |items| && forall i :: 0 <= i < |items| ==> |items[i].1| == n
  {
    && |after| == |before|
    && (forall i, x: nat :: 0 <= i < count && x < |before| && PageOf(x, n) == items[i].0 ==>
          after[x] == items[i].1[OffsetIn(x, n)])
    && (forall x: nat :: x < |before| && (forall i :: 0 <= i < count ==> items[i].0 != PageOf(x, n)) ==>
          after[x] == before[x])
  }

  lemma FlashedNext(n: nat, items: seq<(nat, seq<byte>)>, count: nat,
                    before: seq<byte>, mid: seq<byte>, after: seq<byte>)
    requires n > 0 && count < |items| && forall i :: 0 <= i < |items| ==> |items[i].1| == n
    requires Ascending(items) && FlashedUpTo(n, items, count, before, mid)
    requires Start(items[count].0, n) + n <= |before|
    requires after == Patch(mid, Start(items[count].0, n), items[count].1)
    ensures FlashedUpTo(n, items, count + 1, before, after)
  {
    var p := items[count].0;
    forall x: nat | x < |before|
      ensures after[x] == if PageOf(x, n) == p then items[count].1[OffsetIn(x, n)] else mid[x]
    {
      InPage(x, p, n);
    }
    forall i, x: nat | 0 <= i < count + 1 && x < |before| && PageOf(x, n) == items[i].0
      ensures after[x] == items[i].1[OffsetIn(x, n)]
    {
      if i < count {
        assert items[i].0 < items[count].0;
      }
    }
    forall x: nat | x < |before| && forall i :: 0 <= i < count + 1 ==> items[i].0 != PageOf(x, n)
      ensures after[x] == before[x]
    {
      assert items[count].0 != PageOf(x, n);
    }
  }

  /** The first `count` pages lie below the boot section. */
  ghost predicate Below(n: nat, bootStart: nat, items: seq<(nat, seq<byte>)>, count: nat)
    requires count <= |items|
  {
    forall j :: 0 <= j < count ==> Start(items[j].0, n) + n <= bootStart
  }

  lemma BelowNext(n: nat, bootStart: nat, items: seq<(nat, seq<byte>)>, count: nat)
    requires count < |items| && Below(n, bootStart, items, count) && Start(items[count].0, n) + n <= bootStart
    ensures Below(n, bootStart, items, count + 1)
  {
  }

  lemma NextAddressFits(n: nat, bootStart: nat, items: seq<(nat, seq<byte>)>, i: nat)
    requires n > 0 && i < |items| && Below(n, bootStart, items, i) && Sendable(n, bootStart, items)
    ensures Start(items[i].0, n) < 0x10000
  {
  }

  /** Sends page after page, stopping at the first one the device refuses; returns how many it took. */
  method SendPages(bl: Bootloader, items: seq<(nat, seq<byte>)>, cut: seq<byte> -> seq<seq<byte>>) returns (count: nat)
    requires bl.Valid() && Ascending(items) && Cutting(cut)
    requires forall j :: 0 <= j < |items| ==> |items[j].1| == bl.n
    requires Sendable(bl.n, bl.bootStart, items)
    modifies bl, bl.flash, bl.buffer
    ensures bl.Valid() && bl.running == old(bl.running)
    ensures count <= |items| && FlashedUpTo(bl.n, items, count, old(bl.flash[..]), bl.flash[..])
    ensures Below(bl.n, bl.bootStart, items, count)
    ensures count < |items| ==> Start(items[count].0, bl.n) >= bl.bootStart
  {
    ghost var before := bl.flash[..];
    for i := 0 to |items|
      invariant bl.Valid() && bl.running == old(bl.running)
      invariant Below(bl.n, bl.bootStart, items, i)
      invariant FlashedUpTo(bl.n, items, i, before, bl.flash[..])
    {
      NextAddressFits(bl.n, bl.bootStart, items, i);
      var stalled := SendNext(bl, items, i, cut, before);
      if stalled {
        return i;
      }
      BelowNext(bl.n, bl.bootStart, items, i);
    }
    return |items|;
  }

  /** `BootloaderCommunicator::flash`: success means that the device took every page. */
  method Flash(bl: Bootloader, items: seq<(nat, seq<byte>)>, ghost m: PageMap, cut: seq<byte> -> seq<seq<byte>>)
    returns (ok: bool)
    requires bl.Valid() && WellFormed(bl.n, m) && SortedItems(m, items) && Cutting(cut)
    requires Sendable(bl.n, bl.bootStart, items)
    modifies bl, bl.flash, bl.buffer
    ensures bl.Valid() && bl.running == old(bl.running)
    ensures ok <==> forall p :: p in m ==> Start(p, bl.n) < bl.bootStart
    ensures forall x: nat :: x < bl.flash.Length ==>
              bl.flash[x] == FlashedByte(bl.n, bl.bootStart, m, old(bl.flash[..]), x)
  {
    ghost var before := bl.flash[..];
    var count := SendPages(bl, items, cut);
    StoppedAt(bl.n, bl.bootStart, m, items, count, before, bl.flash[..]);
    AllSent(bl.n, bl.bootStart, m, items, count);
    return count == |items|;
  }

  lemma AllSent(n: nat, bootStart: nat, m: PageMap, items: seq<(nat, seq<byte>)>, count: nat)
    requires n > 0 && SortedItems(m, items) && count <= |items|
    requires Below(n, bootStart, items, count)
    requires count < |items| ==> Start(items[count].0, n) >= bootStart
    ensures count == |items| <==> forall p :: p in m ==> Start(p, n) < bootStart
  {
    if count == |items| {
      forall p | p in m
        ensures Start(p, n) < bootStart
      {
        var i :| 0 <= i < |items| && items[i].0 == p;
      }
    } else {
      assert items[count].0 in m;
    }
  }

  method SendNext(bl: Bootloader, items: seq<(nat, seq<byte>)>, i: nat, cut: seq<byte> -> seq<seq<byte>>,
                  ghost before: seq<byte>)
    returns (stalled: bool)
    requires bl.Valid() && i < |items| && Ascending(items) && Cutting(cut)
    requires forall j :: 0 <= j < |items| ==> |items[j].1| == bl.n
    requires Start(items[i].0, bl.n) < 0x10000
    requires FlashedUpTo(bl.n, items, i, before, bl.flash[..])
    modifies bl, bl.flash, bl.buffer
    ensures bl.Valid() && bl.running == old(bl.running)
    ensures stalled <==> Start(items[i].0, bl.n) >= bl.bootStart
    ensures !stalled ==> Start(items[i].0, bl.n) + bl.n <= bl.bootStart
    ensures FlashedUpTo(bl.n, items, if stalled then i else i + 1, before, bl.flash[..])
  {
    ghost var mid := bl.flash[..];
    stalled := SendPage(bl, items[i], cut, Start(items[i].0, bl.n));
    if !stalled {
      FlashedNext(bl.n, items, i, before, mid, bl.flash[..]);
    }
  }

  /** One report, through an endpoint, into the bootloader. */
  method SendPage(bl: Bootloader, page: (nat, seq<byte>), cut: seq<byte> -> seq<seq<byte>>, ghost address: nat)
    returns (stalled: bool)
    requires bl.Valid() && |page.1| == bl.n && Cutting(cut)
    requires address == Start(page.0, bl.n) && address < 0x10000
    modifies bl, bl.flash, bl.buffer
    ensures bl.Valid() && bl.running == old(bl.running)
    ensures stalled <==> address >= bl.bootStart
    ensures stalled ==> bl.flash[..] == old(bl.flash[..])
    ensures !stalled ==> address + bl.n <= bl.bootStart
    ensures !stalled ==> bl.flash[..] == Patch(old(bl.flash[..]), address, page.1)
  {
    var report := Packet(bl.n, page);
    PageAddress(page.0, bl.k);
    stalled := SendReport(bl, report, cut);
  }

  method SendReport(bl: Bootloader, report: seq<byte>, cut: seq<byte> -> seq<seq<byte>>) returns (stalled: bool)
    requires bl.Valid() && |report| == 2 + bl.n && Cutting(cut)
    requires OffsetIn(Address(report), bl.n) == 0 && Address(report) != COMMAND_START_APPLICATION
    modifies bl, bl.flash, bl.buffer
    ensures bl.Valid() && bl.running == old(bl.running)
    ensures stalled <==> Address(report) >= bl.bootStart
    ensures stalled ==> bl.flash[..] == old(bl.flash[..])
    ensures !stalled ==> Address(report) + bl.n <= bl.bootStart
    ensures !stalled ==> bl.flash[..] == Patch(old(bl.flash[..]), Address(report), report[2..])
  {
    EvenPageSize(bl.k);
    var ep := new Endpoint(cut(report));
    assert ep.Unread() == report;
    var waiting := bl.SetReport(ep);
    assert !waiting;
    assert report[2..2 + bl.n] == report[2..];
    return ep.stalled;
  }

  lemma EvenPageSize(k: nat)
    requires k >= 1
    ensures Pow2(k) % 2 == 0 && (2 + Pow2(k)) % 2 == 0
  {
  }

  /** A page address is aligned, and no page address is the start command. */
  lemma PageAddress(p: nat, k: nat)
    requires k >= 1
    ensures var n := Pow2(k); OffsetIn(Start(p, n), n) == 0 && Start(p, n) != COMMAND_START_APPLICATION
  {
    var n := Pow2(k);
    EvenPageSize(k);
    Recompose(p, 0, n);
    StartEven(p, n);
  }

  lemma {:induction false} StartEven(p: nat, n: nat)
    requires n % 2 == 0
    ensures Start(p, n) % 2 == 0
  {
    if p != 0 {
      StartEven(p - 1, n);
    }
  }

  /** Ascending pages: once one is refused, those before it are all the acceptable ones. */
  lemma StoppedAt(n: nat, bootStart: nat, m: PageMap, items: seq<(nat, seq<byte>)>, i: nat,
                  before: seq<byte>, after: seq<byte>)
    requires n > 0 && WellFormed(n, m) && SortedItems(m, items) && i <= |items|
    requires Below(n, bootStart, items, i)
    requires i < |items| ==> Start(items[i].0, n) >= bootStart
    requires FlashedUpTo(n, items, i, before, after)
    ensures forall x: nat :: x < |before| ==> after[x] == FlashedByte(n, bootStart, m, before, x)
  {
    forall x: nat | x < |before|
      ensures after[x] == FlashedByte(n, bootStart, m, before, x)
    {
      var p := PageOf(x, n);
      InPage(x, p, n);
      if j :| 0 <= j < |items| && items[j].0 == p {
        if j < i {
          assert after[x] == items[j].1[OffsetIn(x, n)];
        } else {
          assert items[i].0 <= p;
          StartMonotone(items[i].0, p, n);
          assert forall j' :: 0 <= j' < i ==> items[j'].0 < items[i].0;
        }
      }
    }
  }

  // ---- segments to flash ----

  /** A segment that starts inside the flash and touches a page beyond 16 bits also touches the last page below. */
  lemma LastShortPage(n: nat, bootStart: nat, s: Segment, p: nat) returns (q: nat)
    requires n > 0 && OffsetIn(bootStart, n) == 0 && bootStart <= U16_MAX
    requires Touches(n, s.paddr, |s.data|, p) && s.paddr < FLASH_SIZE_BYTES && Start(p, n) >= 0x10000
    ensures q < p && Touches(n, s.paddr, |s.data|, q) && bootStart <= Start(q, n) < 0x10000
  {
    q := PageOf(U16_MAX, n);
    Decompose(U16_MAX, n);
    Decompose(bootStart, n);
    PageMonotone(bootStart, U16_MAX, n);
    PageMonotone(s.paddr, U16_MAX, n);
    StartMonotone(PageOf(bootStart, n), q, n);
    if p <= q {
      StartMonotone(p, q, n);
    }
  }

  lemma PagesSendable(n: nat, bootStart: nat, m: PageMap, segments: seq<Segment>, items: seq<(nat, seq<byte>)>)
    requires n > 0 && OffsetIn(bootStart, n) == 0 && bootStart <= U16_MAX
    requires Represents(n, m, segments) && SortedItems(m, items)
    requires forall s :: s in segments ==> Flashable(n, s)
    ensures Sendable(n, bootStart, items)
  {
    forall i | 0 <= i < |items| && Start(items[i].0, n) >= 0x10000
      ensures exists j :: 0 <= j < i && bootStart <= Start(items[j].0, n) < 0x10000
    {
      var p := items[i].0;
      assert PageTouched(n, segments, p);
      var s :| s in segments && Touches(n, s.paddr, |s.data|, p);
      var q := LastShortPage(n, bootStart, s, p);
      assert PageTouched(n, segments, q);
      var j :| 0 <= j < |items| && items[j].0 == q;
      assert j < i;
    }
  }

  lemma TouchedStartsBefore(n: nat, s: Segment, p: nat)
    requires n > 0 && Touches(n, s.paddr, |s.data|, p)
    ensures Start(p, n) < s.End()
  {
    var q := PageOf(s.End() - 1, n);
    StartMonotone(p, q, n);
    Decompose(s.End() - 1, n);
  }

  /** The pages all lie below the boot section exactly when every non-empty segment ends there. */
  lemma PagesBelowBoot(n: nat, bootStart: nat, m: PageMap, segments: seq<Segment>)
    requires n > 0 && OffsetIn(bootStart, n) == 0 && Represents(n, m, segments)
    ensures (forall p :: p in m ==> Start(p, n) < bootStart)
       <==> (forall s :: s in segments && s.data != [] ==> s.End() <= bootStart)
  {
    if forall s :: s in segments && s.data != [] ==> s.End() <= bootStart {
      forall p | p in m
        ensures Start(p, n) < bootStart
      {
        var s :| s in segments && Touches(n, s.paddr, |s.data|, p);
        TouchedStartsBefore(n, s, p);
      }
    }
    if forall p :: p in m ==> Start(p, n) < bootStart {
      forall s | s in segments && s.data != []
        ensures s.End() <= bootStart
      {
        LastPageBelow(n, bootStart, s);
        assert PageOf(s.End() - 1, n) in m;
      }
    }
  }

  lemma LastPageBelow(n: nat, bootStart: nat, s: Segment)
    requires n > 0 && OffsetIn(bootStart, n) == 0 && s.data != []
    ensures Touches(n, s.paddr, |s.data|, PageOf(s.End() - 1, n))
    ensures Start(PageOf(s.End() - 1, n), n) < bootStart ==> s.End() <= bootStart
  {
    var p := PageOf(s.End() - 1, n);
    PageMonotone(s.paddr, s.End() - 1, n);
    Decompose(s.End() - 1, n);
    Decompose(bootStart, n);
    var q := PageOf(bootStart, n);
    if p < q {
      StartMonotone(p, q, n);
    } else {
      StartMonotone(q, p, n);
    }
  }

  /** Below the boot section, touched pages hold the overlay of the segments; every other byte is as before. */
  ghost predicate HoldsOverlay(n: nat, bootStart: nat, segments: seq<Segment>, before: seq<byte>, after: seq<byte>)
    requires n > 0
  {
    && |after| == |before|
    && forall x: nat :: x < |before| ==>
         after[x] == if x < bootStart && PageTouched(n, segments, PageOf(x, n)) then OverlayByte(segments, x)
                     else before[x]
  }

  lemma FlashedIsOverlay(n: nat, bootStart: nat, m: PageMap, segments: seq<Segment>,
                         before: seq<byte>, after: seq<byte>)
    requires n > 0 && Represents(n, m, segments) && |after| == |before|
    requires forall x: nat :: x < |before| ==> after[x] == FlashedByte(n, bootStart, m, before, x)
    ensures HoldsOverlay(n, bootStart, segments, before, after)
  {
    forall x: nat | x < |before|
      ensures after[x] == if x < bootStart && PageTouched(n, segments, PageOf(x, n)) then OverlayByte(segments, x)
                          else before[x]
    {
      assert ByteAt(n, m, x) == OverlayByte(segments, x);
    }
  }

  method FlashRead(bl: Bootloader, segments: seq<Segment>, items: seq<(nat, seq<byte>)>, ghost m: PageMap,
                   cut: seq<byte> -> seq<seq<byte>>)
    returns (ok: bool)
    requires bl.Valid() && Cutting(cut) && Represents(bl.n, m, segments) && SortedItems(m, items)
    requires Sendable(bl.n, bl.bootStart, items)
    modifies bl, bl.flash, bl.buffer
    ensures bl.Valid()
    ensures ok <==> forall s :: s in segments && s.data != [] ==> s.End() <= bl.bootStart
    ensures HoldsOverlay(bl.n, bl.bootStart, segments, old(bl.flash[..]), bl.flash[..])
  {
    PagesBelowBoot(bl.n, bl.bootStart, m, segments);
    ghost var before := bl.flash[..];
    ok := Flash(bl, items, m, cut);
    FlashedIsOverlay(bl.n, bl.bootStart, m, segments, before, bl.flash[..]);
  }

  /** Segments below a boot section within the flash can be flashed. */
  lemma BelowBootFlashable(n: nat, bootStart: nat, s: Segment)
    requires n > 0 && bootStart <= 8192 && (s.data != [] ==> s.End() <= bootStart)
    ensures Flashable(n, s)
  {
    if s.data != [] {
      Decompose(s.End() - 1, n);
      StartAtLeast(PageOf(s.End() - 1, n), n);
    }
  }

  lemma AllFlashable(n: nat, bootStart: nat, segments: seq<Segment>)
    requires n > 0
    ensures bootStart <= 8192 && (forall s :: s in segments && s.data != [] ==> s.End() <= bootStart)
      ==> forall s :: s in segments ==> Flashable(n, s)
  {
    if bootStart <= 8192 && forall s :: s in segments && s.data != [] ==> s.End() <= bootStart {
      forall s | s in segments
        ensures Flashable(n, s)
      {
        BelowBootFlashable(n, bootStart, s);
      }
    }
  }

  lemma {:induction false} StartAtLeast(p: nat, n: nat)
    requires n > 0
    ensures Start(p, n) >= p
  {
    if p != 0 {
      StartAtLeast(p - 1, n);
    }
  }

  /** An ELF file's segments into the device. Whatever the segments (without bytes, or running beyond 16-bit addresses)
      and however reports are cut, the boot section is never written; every page below it that a segment touches ends
      up as the overlay of the segments; all other bytes stay. Flashing succeeds exactly when every non-empty segment
      ends at or below the boot section. */
  method FlashElf(bl: Bootloader, segments: seq<Segment>, cut: seq<byte> -> seq<seq<byte>>)
    returns (r: Result<bool, ReadError>)
    requires bl.Valid() && Cutting(cut)
    modifies bl, bl.flash, bl.buffer
    ensures bl.Valid()
    ensures r.Failure? <==>
      exists s :: s in segments && s.data != [] && (s.paddr >= 8192 || (s.End() - 1) / bl.n > 65533)
    ensures bl.bootStart <= 8192 && (forall s :: s in segments && s.data != [] ==> s.End() <= bl.bootStart)
      ==> r == Success(true)
    ensures r.Failure? ==> bl.flash[..] == old(bl.flash[..])
    ensures r.Success? ==>
      (r.value <==> forall s :: s in segments && s.data != [] ==> s.End() <= bl.bootStart)
    ensures r.Success? ==> HoldsOverlay(bl.n, bl.bootStart, segments, old(bl.flash[..]), bl.flash[..])
  {
    var read, m := ReadFlashData(bl.n, segments);
    AllFlashable(bl.n, bl.bootStart, segments);
    if read.Failure? {
      return Failure(read.error);
    }
    PagesSendable(bl.n, bl.bootStart, m, segments, read.value);
    var ok := FlashRead(bl, segments, read.value, m, cut);
    return Success(ok);
  }
}
