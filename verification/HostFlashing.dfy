/** Host side of AVR flashing: load segments are split at page boundaries and overlaid into a map of pages.
    The page size `n` stays symbolic. */
module HostFlashing {
  import opened Paging

  type byte = b: int | 0 <= b < 256

  datatype Result<+T, +E> = Success(value: T) | Failure(error: E)

  /** A load segment of the ELF file: physical address and file content. */
  datatype Segment = Segment(paddr: nat, data: seq<byte>) {
    function End(): nat { paddr + |data| }

    predicate Covers(x: nat) { paddr <= x < End() }
  }

  /** A page's worth of data, or part of one at an offset. */
  datatype PageContent = FullPage(data: seq<byte>) | PartPage(offset: nat, data: seq<byte>)

  type PageMap = map<nat, seq<byte>>

  const FLASH_SIZE_BYTES := 8192
  const U16_MAX := 0xFFFF

  datatype ReadError = OutsideFlash | PageIndexOverflow

  function Min(a: nat, b: nat): nat {
    if a <= b then a else b
  }

  predicate PieceFits(n: nat, c: PageContent) {
    match c
    case FullPage(data) => |data| == n
    case PartPage(offset, data) => offset + |data| <= n
  }

  function NewPageContent(n: nat, offset: nat, data: seq<byte>): (r: Result<PageContent, nat>)
    requires n > 0
    ensures r.Success? <==> offset + |data| <= n
    ensures r.Success? ==> PieceFits(n, r.value)
    ensures r.Success? && r.value.FullPage? ==> offset == 0 && r.value.data == data && |data| == n
    ensures r.Success? && r.value.PartPage? ==> r.value.data == data && r.value.offset == offset && |data| < n
  {
    var totalSize := offset + |data|;
    if totalSize > n then Failure(totalSize)
    else if |data| == n then Success(FullPage(data))
    else Success(PartPage(offset, data))
  }

  /** Chunks of n bytes, the last one possibly shorter, paired with consecutive page indices. */
  function ChunkPages(n: nat, index: nat, s: seq<byte>): seq<(nat, PageContent)>
    requires n > 0
    decreases |s|
  {
    if s == [] then []
    else
      var k := Min(n, |s|);
      [(index, NewPageContent(n, 0, s[..k]).value)] + ChunkPages(n, index + 1, s[k..])
  }

  function IterPageContent(n: nat, physAddr: nat, content: seq<byte>): seq<(nat, PageContent)>
    requires n > 0
  {
    SplitFrom(n, physAddr / n, physAddr % n, content)
  }

  /** The first page takes what fits behind `offset`, the following ones a page each. */
  function SplitFrom(n: nat, index: nat, offset: nat, content: seq<byte>): seq<(nat, PageContent)>
    requires offset < n
  {
    var k := Min(n - offset, |content|);
    [(index, NewPageContent(n, offset, content[..k]).value)] + ChunkPages(n, index + 1, content[k..])
  }

  // ---- splitting is a partition ----

  function Joined(pieces: seq<(nat, PageContent)>): seq<byte> {
    if pieces == [] then [] else pieces[0].1.data + Joined(pieces[1..])
  }

  function OffsetOf(p: PageContent): nat {
    if p.FullPage? then 0 else p.offset
  }

  /** Pieces that start at `offset` of page `index` and run on without a gap. */
  ghost predicate Contiguous(n: nat, index: nat, offset: nat, pieces: seq<(nat, PageContent)>)
    requires n > 0
  {
    && (forall j :: 0 <= j < |pieces| ==>
          && pieces[j].0 == index + j
          && pieces[j].1.data != []
          && OffsetOf(pieces[j].1) == (if j == 0 then offset else 0)
          && OffsetOf(pieces[j].1) + |pieces[j].1.data| <= n
          && (pieces[j].1.FullPage? <==> |pieces[j].1.data| == n))
    && (forall j :: 0 < j < |pieces| - 1 ==> pieces[j].1.FullPage?)
    && (|pieces| > 1 ==> offset + |pieces[0].1.data| == n)
  }

  lemma {:induction false} ChunksPartition(n: nat, index: nat, s: seq<byte>)
    requires n > 0
    ensures Joined(ChunkPages(n, index, s)) == s
    ensures Contiguous(n, index, 0, ChunkPages(n, index, s))
    decreases |s|
  {
    if s != [] {
      var k := Min(n, |s|);
      ChunksPartition(n, index + 1, s[k..]);
      var rest := ChunkPages(n, index + 1, s[k..]);
      var pieces := ChunkPages(n, index, s);
      assert pieces[1..] == rest;
      assert s[..k] + s[k..] == s;
      forall j | 0 < j < |pieces|
        ensures pieces[j] == rest[j - 1]
      {
      }
    }
  }

  /** The pieces of a segment join to the segment, lie on consecutive pages once each, fit their page, and only the
      first and the last can be partial. */
  lemma SplitIsPartition(n: nat, a: nat, s: seq<byte>)
    requires n > 0 && s != []
    ensures Joined(IterPageContent(n, a, s)) == s
    ensures Contiguous(n, a / n, a % n, IterPageContent(n, a, s))
  {
    SplitFromPartition(n, a / n, a % n, s);
  }

  lemma SplitFromPartition(n: nat, index: nat, offset: nat, s: seq<byte>)
    requires offset < n && s != []
    ensures Joined(SplitFrom(n, index, offset, s)) == s
    ensures Contiguous(n, index, offset, SplitFrom(n, index, offset, s))
  {
    var k := Min(n - offset, |s|);
    var piece := (index, NewPageContent(n, offset, s[..k]).value);
    var rest := ChunkPages(n, index + 1, s[k..]);
    ChunksPartition(n, index + 1, s[k..]);
    assert ([piece] + rest)[1..] == rest && s[..k] + s[k..] == s;
    ConsContiguous(n, index, offset, piece, rest);
  }

  lemma ConsContiguous(n: nat, index: nat, offset: nat, piece: (nat, PageContent), rest: seq<(nat, PageContent)>)
    requires n > 0 && Contiguous(n, index + 1, 0, rest)
    requires piece.0 == index && piece.1.data != [] && OffsetOf(piece.1) == offset
    requires offset + |piece.1.data| <= n && (piece.1.FullPage? <==> |piece.1.data| == n)
    requires rest != [] ==> offset + |piece.1.data| == n
    ensures Contiguous(n, index, offset, [piece] + rest)
  {
    var pieces := [piece] + rest;
    forall j | 0 < j < |pieces|
      ensures pieces[j] == rest[j - 1]
    {
    }
    if |rest| > 1 {
      assert rest[0].1.FullPage?;
    }
  }

  /** ... and they are as many as the pages the segment touches. */
  lemma SplitPageCount(n: nat, a: nat, s: seq<byte>)
    requires n > 0 && s != []
    ensures |IterPageContent(n, a, s)| == PageOf(a + |s| - 1, n) - PageOf(a, n) + 1
  {
    PageIsQuotient(a, n);
    Decompose(a, n);
    var p := PageOf(a, n);
    var k := Min(n - OffsetIn(a, n), |s|);
    ChunkCount(n, p + 1, s[k..]);
    if k == |s| {
      InPage(a + |s| - 1, p, n);
    } else {
      PageShift(p + 1, |s| - k - 1, n);
    }
  }

  lemma {:induction false} ChunkCount(n: nat, index: nat, s: seq<byte>)
    requires n > 0
    ensures |ChunkPages(n, index, s)| == if s == [] then 0 else PageOf(|s| - 1, n) + 1
    decreases |s|
  {
    if s != [] {
      ChunkCount(n, index + 1, s[Min(n, |s|)..]);
    }
  }

  lemma {:induction false} PageShift(p: nat, x: nat, n: nat)
    requires n > 0
    ensures PageOf(Start(p, n) + x, n) == p + PageOf(x, n)
  {
    if p != 0 {
      PageShift(p - 1, x, n);
      assert Start(p, n) + x - n == Start(p - 1, n) + x;
    }
  }

  // ---- overlaying ----

  predicate WellFormed(n: nat, m: PageMap) {
    forall p :: p in m ==> |m[p]| == n
  }

  /** Write `data` over `page` from `offset` on. */
  function Patch(page: seq<byte>, offset: nat, data: seq<byte>): (r: seq<byte>)
    requires offset + |data| <= |page|
    ensures |r| == |page|
    ensures forall i :: 0 <= i < |page| ==> r[i] == if offset <= i < offset + |data| then data[i - offset] else page[i]
  {
    page[..offset] + data + page[offset + |data|..]
  }

  function BlankPage(n: nat): (r: seq<byte>)
    ensures |r| == n
  {
    seq(n, _ => 0)
  }

  /** What one piece does to the map. */
  function Placed(n: nat, m: PageMap, piece: (nat, PageContent)): (r: PageMap)
    requires WellFormed(n, m) && PieceFits(n, piece.1)
    ensures WellFormed(n, r)
  {
    match piece.1
    case FullPage(data) => m[piece.0 := data]
    case PartPage(offset, data) =>
      m[piece.0 := Patch(if piece.0 in m then m[piece.0] else BlankPage(n), offset, data)]
  }

  ghost predicate Fits(n: nat, pieces: seq<(nat, PageContent)>) {
    forall j :: 0 <= j < |pieces| ==> PieceFits(n, pieces[j].1)
  }

  ghost function PlacedAll(n: nat, m: PageMap, pieces: seq<(nat, PageContent)>): (r: PageMap)
    requires WellFormed(n, m) && Fits(n, pieces)
    ensures WellFormed(n, r)
    decreases |pieces|
  {
    if pieces == [] then m else PlacedAll(n, Placed(n, m, pieces[0]), pieces[1..])
  }

  /** Some of the `len` bytes from address `a` on lie in page p. */
  predicate Touches(n: nat, a: nat, len: nat, p: nat)
    requires n > 0
  {
    len > 0 && PageOf(a, n) <= p <= PageOf(a + len - 1, n)
  }

  /** The byte of a page map at an address, 0 where the map has no page. */
  function ByteAt(n: nat, m: PageMap, x: nat): byte
    requires n > 0 && WellFormed(n, m)
  {
    PageByte(n, m, PageOf(x, n), OffsetIn(x, n))
  }

  function PageByte(n: nat, m: PageMap, p: nat, i: nat): byte
    requires WellFormed(n, m) && i < n
  {
    if p in m then m[p][i] else 0
  }

  /** m' is m with `s` written over it from address `a` on, byte by byte, untouched bytes of new pages being 0. */
  ghost predicate Overlaid(n: nat, m: PageMap, a: nat, s: seq<byte>, m': PageMap)
    requires n > 0
  {
    && WellFormed(n, m) && WellFormed(n, m')
    && (forall p: nat :: p in m' <==> p in m || Touches(n, a, |s|, p))
    && forall x: nat :: ByteAt(n, m', x) == if a <= x < a + |s| then s[x - a] else ByteAt(n, m, x)
  }

  lemma PlacedByte(n: nat, m: PageMap, index: nat, offset: nat, data: seq<byte>, m': PageMap, p: nat, i: nat)
    requires n > 0 && WellFormed(n, m) && offset + |data| <= n && i < n
    requires m' == Placed(n, m, (index, NewPageContent(n, offset, data).value))
    ensures p in m' <==> p in m || p == index
    ensures p in m' ==> |m'[p]| == n
    ensures p in m' && p == index && offset <= i < offset + |data| ==> m'[p][i] == data[i - offset]
    ensures p in m' && !(p == index && offset <= i < offset + |data|) ==>
      m'[p][i] == if p in m then m[p][i] else 0
  {
    var c := NewPageContent(n, offset, data).value;
    if c.FullPage? {
      assert m' == m[index := data];
    } else {
      var page := if index in m then m[index] else BlankPage(n);
      assert m' == m[index := Patch(page, offset, data)];
    }
  }

  lemma PieceByte(n: nat, m: PageMap, index: nat, offset: nat, data: seq<byte>, m': PageMap,
                  a: nat, x: nat, p: nat, i: nat)
    requires WellFormed(n, m) && WellFormed(n, m') && offset + |data| <= n && i < n
    requires m' == Placed(n, m, (index, NewPageContent(n, offset, data).value))
    requires a <= x < a + |data| <==> p == index && offset <= i < offset + |data|
    requires a <= x < a + |data| ==> x - a == i - offset
    ensures PageByte(n, m', p, i) == if a <= x < a + |data| then data[x - a] else PageByte(n, m, p, i)
  {
    PlacedByte(n, m, index, offset, data, m', p, i);
    if a <= x < a + |data| {
      assert m'[p][i] == data[i - offset];
    } else if p in m' {
      assert m'[p][i] == if p in m then m[p][i] else 0;
    }
  }

  lemma OverlayPiece(n: nat, m: PageMap, a: nat, index: nat, offset: nat, data: seq<byte>)
    requires n > 0 && WellFormed(n, m) && offset + |data| <= n && data != [] && a == Start(index, n) + offset
    ensures Overlaid(n, m, a, data, Placed(n, m, (index, NewPageContent(n, offset, data).value)))
  {
    var m' := Placed(n, m, (index, NewPageContent(n, offset, data).value));
    InPage(a, index, n);
    InPage(a + |data| - 1, index, n);
    forall p: nat
      ensures p in m' <==> p in m || Touches(n, a, |data|, p)
    {
      PlacedByte(n, m, index, offset, data, m', p, 0);
    }
    forall x: nat
      ensures ByteAt(n, m', x) == if a <= x < a + |data| then data[x - a] else ByteAt(n, m, x)
    {
      InPage(x, index, n);
      PieceByte(n, m, index, offset, data, m', a, x, PageOf(x, n), OffsetIn(x, n));
    }
  }

  /** Writing two adjacent runs is writing the joined run. */
  lemma OverlayJoin(n: nat, m: PageMap, m1: PageMap, m2: PageMap, a: nat, s: seq<byte>, t: seq<byte>, q: nat)
    requires n > 0 && s != [] && a + |s| == Start(q, n)
    requires Overlaid(n, m, a, s, m1) && Overlaid(n, m1, a + |s|, t, m2)
    ensures Overlaid(n, m, a, s + t, m2)
  {
    if t == [] {
      assert s + t == s;
    } else {
      var b := a + |s|;
      InPage(b, q, n);
      InPage(b - 1, q - 1, n);
      PageMonotone(a, b - 1, n);
      PageMonotone(b, b + |t| - 1, n);
      assert forall p: nat :: Touches(n, a, |s + t|, p) <==> Touches(n, a, |s|, p) || Touches(n, b, |t|, p);
    }
  }

  lemma PlacedCons(n: nat, m: PageMap, piece: (nat, PageContent), rest: seq<(nat, PageContent)>)
    requires WellFormed(n, m) && PieceFits(n, piece.1) && Fits(n, rest)
    ensures Fits(n, [piece] + rest)
    ensures PlacedAll(n, m, [piece] + rest) == PlacedAll(n, Placed(n, m, piece), rest)
  {
    var pieces := [piece] + rest;
    assert pieces[1..] == rest && pieces[0] == piece;
    forall j | 0 <= j < |pieces|
      ensures pieces[j] == if j == 0 then piece else rest[j - 1]
    {
    }
  }

  lemma {:induction false} OverlayChunks(n: nat, m: PageMap, a: nat, index: nat, s: seq<byte>)
    requires n > 0 && WellFormed(n, m) && a == Start(index, n)
    ensures Fits(n, ChunkPages(n, index, s))
    ensures Overlaid(n, m, a, s, PlacedAll(n, m, ChunkPages(n, index, s)))
    decreases |s|
  {
    if s != [] {
      var k := Min(n, |s|);
      var piece := (index, NewPageContent(n, 0, s[..k]).value);
      var m1 := Placed(n, m, piece);
      OverlayChunks(n, m1, a + n, index + 1, s[k..]);
      var rest := ChunkPages(n, index + 1, s[k..]);
      var m2 := PlacedAll(n, m1, rest);
      assert Fits(n, ChunkPages(n, index, s)) && PlacedAll(n, m, ChunkPages(n, index, s)) == m2 by {
        PlacedCons(n, m, piece, rest);
      }
      OverlayStep(n, m, m1, m2, a, index, 0, s, k);
    }
  }

  /** The first page's piece, then the rest of the segment from the next page on. */
  lemma OverlayStep(n: nat, m: PageMap, m1: PageMap, m2: PageMap, a: nat, index: nat, offset: nat, s: seq<byte>, k: nat)
    requires WellFormed(n, m) && s != [] && offset < n && k == Min(n - offset, |s|) && a == Start(index, n) + offset
    requires m1 == Placed(n, m, (index, NewPageContent(n, offset, s[..k]).value))
    requires Overlaid(n, m1, a - offset + n, s[k..], m2)
    ensures Overlaid(n, m, a, s, m2)
  {
    OverlayPiece(n, m, a, index, offset, s[..k]);
    assert s[..k] + s[k..] == s;
    if k == |s| {
      assert s[..k] == s && s[k..] == [];
      OverlayNothing(n, m1, a - offset + n, m2);
    } else {
      OverlayJoin(n, m, m1, m2, a, s[..k], s[k..], index + 1);
    }
  }

  lemma OverlayNothing(n: nat, m: PageMap, a: nat, m': PageMap)
    requires n > 0 && Overlaid(n, m, a, [], m')
    ensures m' == m
  {
    forall p | p in m
      ensures m'[p] == m[p]
    {
      forall i | 0 <= i < n
        ensures m'[p][i] == m[p][i]
      {
        Recompose(p, i, n);
        assert ByteAt(n, m', Start(p, n) + i) == ByteAt(n, m, Start(p, n) + i);
      }
    }
  }

  lemma OverlaySplit(n: nat, m: PageMap, a: nat, index: nat, offset: nat, s: seq<byte>)
    requires offset < n && s != [] && WellFormed(n, m) && a == Start(index, n) + offset
    ensures Fits(n, SplitFrom(n, index, offset, s))
    ensures Overlaid(n, m, a, s, PlacedAll(n, m, SplitFrom(n, index, offset, s)))
  {
    var k := Min(n - offset, |s|);
    var piece, rest := SplitIsCons(n, index, offset, s, k);
    PlacedCons(n, m, piece, rest);
    OverlayFrom(n, m, a, index, offset, s, k, Placed(n, m, piece), rest);
  }

  lemma SplitIsCons(n: nat, index: nat, offset: nat, s: seq<byte>, k: nat)
    returns (piece: (nat, PageContent), rest: seq<(nat, PageContent)>)
    requires offset < n && s != [] && k == Min(n - offset, |s|)
    ensures piece == (index, NewPageContent(n, offset, s[..k]).value) && PieceFits(n, piece.1)
    ensures rest == ChunkPages(n, index + 1, s[k..]) && Fits(n, rest)
    ensures SplitFrom(n, index, offset, s) == [piece] + rest
  {
    piece := (index, NewPageContent(n, offset, s[..k]).value);
    rest := ChunkPages(n, index + 1, s[k..]);
    OverlayChunksFits(n, index + 1, s[k..]);
  }

  lemma IterIsSplit(n: nat, a: nat, s: seq<byte>)
    requires n > 0
    ensures IterPageContent(n, a, s) == SplitFrom(n, PageOf(a, n), OffsetIn(a, n), s)
  {
    PageIsQuotient(a, n);
  }

  /** Splitting a segment and placing the pieces writes the segment over the map byte by byte. */
  lemma OverlaySegment(n: nat, m: PageMap, a: nat, s: seq<byte>)
    requires n > 0 && s != [] && WellFormed(n, m)
    ensures Fits(n, IterPageContent(n, a, s))
    ensures Overlaid(n, m, a, s, PlacedAll(n, m, IterPageContent(n, a, s)))
  {
    IterIsSplit(n, a, s);
    Decompose(a, n);
    OverlaySplit(n, m, a, PageOf(a, n), OffsetIn(a, n), s);
  }

  lemma {:induction false} OverlayChunksFits(n: nat, index: nat, s: seq<byte>)
    requires n > 0
    ensures Fits(n, ChunkPages(n, index, s))
    decreases |s|
  {
    if s != [] {
      OverlayChunksFits(n, index + 1, s[Min(n, |s|)..]);
    }
  }

  lemma OverlayFrom(n: nat, m: PageMap, a: nat, index: nat, offset: nat, s: seq<byte>, k: nat,
                    m1: PageMap, rest: seq<(nat, PageContent)>)
    requires offset < n && s != [] && WellFormed(n, m) && a == Start(index, n) + offset && k == Min(n - offset, |s|)
    requires rest == ChunkPages(n, index + 1, s[k..]) && Fits(n, rest)
    requires m1 == Placed(n, m, (index, NewPageContent(n, offset, s[..k]).value))
    ensures Overlaid(n, m, a, s, PlacedAll(n, m1, rest))
  {
    var next := a - offset + n;
    assert next == Start(index + 1, n);
    OverlayChunks(n, m1, next, index + 1, s[k..]);
    OverlayStep(n, m, m1, PlacedAll(n, m1, rest), a, index, offset, s, k);
  }

  // ---- reading all segments ----

  /** The page map the host builds. */
  class FlashMap {
    const n: nat
    var pages: PageMap

    constructor (n: nat)
      ensures this.n == n && pages == map[]
    {
      this.n := n;
      pages := map[];
    }

    method FillFlashMap(pieces: seq<(nat, PageContent)>)
      requires n > 0 && WellFormed(n, pages) && Fits(n, pieces)
      modifies this
      ensures WellFormed(n, pages) && pages == PlacedAll(n, old(pages), pieces)
    {
      for i := 0 to |pieces|
        invariant WellFormed(n, pages) && Fits(n, pieces[i..])
        invariant PlacedAll(n, pages, pieces[i..]) == PlacedAll(n, old(pages), pieces)
      {
        var (index, content) := pieces[i];
        assert pieces[i..][0] == pieces[i] && pieces[i..][1..] == pieces[i + 1..];
        match content {
          case FullPage(data) =>
            pages := pages[index := data];
          case PartPage(offset, data) =>
            var page := if index in pages then pages[index] else BlankPage(n);
            pages := pages[index := Patch(page, offset, data)];
        }
      }
    }
  }

  /** `data` of the last segment in the list that covers an address. */
  function LastCovering(segments: seq<Segment>, x: nat): (r: Result<byte, ()>)
    ensures r.Success? <==> exists s :: s in segments && s.Covers(x)
  {
    if segments == [] then Failure(())
    else
      var last := segments[|segments| - 1];
      if last.Covers(x) then
        assert last in segments;
        Success(last.data[x - last.paddr])
      else
        var r := LastCovering(segments[..|segments| - 1], x);
        assert forall s :: s in segments ==> s == last || s in segments[..|segments| - 1];
        r
  }

  function OverlayByte(segments: seq<Segment>, x: nat): byte {
    match LastCovering(segments, x)
    case Success(b) => b
    case Failure(_) => 0
  }

  /** Some segment has a byte in page p. */
  ghost predicate PageTouched(n: nat, segments: seq<Segment>, p: nat)
    requires n > 0
  {
    exists s :: s in segments && Touches(n, s.paddr, |s.data|, p)
  }

  /** The page map is the byte-addressed overlay of the segments: it has exactly the touched pages, and each byte is
      that of the last segment covering it, or 0. */
  ghost predicate Represents(n: nat, m: PageMap, segments: seq<Segment>)
    requires n > 0
  {
    && WellFormed(n, m)
    && (forall p: nat :: p in m <==> PageTouched(n, segments, p))
    && (forall x: nat :: ByteAt(n, m, x) == OverlayByte(segments, x))
  }

  lemma RepresentsSnoc(n: nat, m: PageMap, segments: seq<Segment>, s: Segment, m': PageMap)
    requires n > 0 && Represents(n, m, segments)
    requires if s.data == [] then m' == m else Overlaid(n, m, s.paddr, s.data, m')
    ensures Represents(n, m', segments + [s])
  {
    var all := segments + [s];
    assert all[..|all| - 1] == segments && all[|all| - 1] == s;
    assert forall t :: t in all <==> t in segments || t == s;
    forall p: nat
      ensures p in m' <==> PageTouched(n, all, p)
    {
      assert PageTouched(n, all, p) <==> PageTouched(n, segments, p) || Touches(n, s.paddr, |s.data|, p) by {
        assert s in all;
      }
    }
    forall x: nat
      ensures ByteAt(n, m', x) == OverlayByte(all, x)
    {
      assert OverlayByte(all, x) == if s.Covers(x) then s.data[x - s.paddr] else OverlayByte(segments, x);
    }
  }

  /** The 16-bit page indices suffice. The iterator of indices is asked for one more than the segment has pages, and
      then computes the one after that. */
  predicate IndicesFit(n: nat, s: Segment)
    requires n > 0 && s.data != []
  {
    PageOf(s.End() - 1, n) + 2 <= U16_MAX
  }

  predicate Flashable(n: nat, s: Segment)
    requires n > 0
  {
    s.data == [] || (s.paddr < FLASH_SIZE_BYTES && IndicesFit(n, s))
  }

  /** A segment can be flashed, in plain addresses. */
  lemma FlashableAddresses(n: nat, s: Segment)
    requires n > 0
    ensures Flashable(n, s) <==> s.data == [] || (s.paddr < 8192 && (s.End() - 1) / n <= 65533)
  {
    if s.data != [] {
      PageIsQuotient(s.End() - 1, n);
    }
  }

  /** `read_flash_data`: an error exactly when some non-empty segment starts outside the flash or has more pages than
      indices, else the overlay of all segments as pages in ascending order. */
  method ReadFlashData(n: nat, segments: seq<Segment>)
    returns (r: Result<seq<(nat, seq<byte>)>, ReadError>, ghost m: PageMap)
    requires n > 0
    ensures r.Success? <==> forall s :: s in segments ==> Flashable(n, s)
    ensures r.Failure? <==>
      exists s :: s in segments && s.data != [] && (s.paddr >= 8192 || (s.End() - 1) / n > 65533)
    ensures r.Success? ==> Represents(n, m, segments) && SortedItems(m, r.value)
  {
    forall s | s in segments
      ensures Flashable(n, s) <==> s.data == [] || (s.paddr < 8192 && (s.End() - 1) / n <= 65533)
    {
      FlashableAddresses(n, s);
    }
    var flashMap := new FlashMap(n);
    m := map[];
    for i := 0 to |segments|
      invariant flashMap.n == n && Represents(n, flashMap.pages, segments[..i])
      invariant forall s :: s in segments[..i] ==> Flashable(n, s)
    {
      var segment := segments[i];
      assert segments[..i + 1] == segments[..i] + [segment];
      ghost var before := flashMap.pages;
      if segment.data != [] {
        if segment.paddr >= FLASH_SIZE_BYTES {
          assert segment in segments && !Flashable(n, segment);
          return Failure(OutsideFlash), m;
        }
        if !IndicesFit(n, segment) {
          assert segment in segments && !Flashable(n, segment);
          return Failure(PageIndexOverflow), m;
        }
        OverlaySegment(n, flashMap.pages, segment.paddr, segment.data);
        flashMap.FillFlashMap(IterPageContent(n, segment.paddr, segment.data));
      }
      RepresentsSnoc(n, before, segments[..i], segment, flashMap.pages);
    }
    assert segments[..|segments|] == segments;
    m := flashMap.pages;
    var items := Sorted(flashMap.pages);
    return Success(items), m;
  }

  // ---- pages in ascending order ----

  ghost predicate Ascending(items: seq<(nat, seq<byte>)>) {
    forall i, j :: 0 <= i < j < |items| ==> items[i].0 < items[j].0
  }

  /** The items of the map, by ascending page index. */
  ghost predicate SortedItems(m: PageMap, items: seq<(nat, seq<byte>)>) {
    && Ascending(items)
    && (forall i :: 0 <= i < |items| ==> items[i].0 in m && items[i].1 == m[items[i].0])
    && (forall p :: p in m ==> exists i :: 0 <= i < |items| && items[i].0 == p)
  }

  /** Put an item with a new index in its place. */
  function Inserted(items: seq<(nat, seq<byte>)>, item: (nat, seq<byte>)): (r: seq<(nat, seq<byte>)>)
    requires Ascending(items) && forall i :: 0 <= i < |items| ==> items[i].0 != item.0
    ensures Ascending(r) && forall x :: x in r <==> x in items || x == item
  {
    if items == [] then [item]
    else if item.0 < items[0].0 then [item] + items
    else
      var rest := Inserted(items[1..], item);
      assert forall x :: x in items <==> x == items[0] || x in items[1..];
      assert forall i :: 0 <= i < |rest| ==> rest[i] in rest;
      [items[0]] + rest
  }

  /** Collect a hash map, whatever its iteration order, and sort. */
  method Sorted(m: PageMap) returns (items: seq<(nat, seq<byte>)>)
    ensures SortedItems(m, items)
  {
    items := [];
    var keys := m.Keys;
    while keys != {}
      invariant keys <= m.Keys && Ascending(items)
      invariant forall i :: 0 <= i < |items| ==>
        items[i].0 in m && items[i].0 !in keys && items[i].1 == m[items[i].0]
      invariant forall p :: p in m && p !in keys ==> (p, m[p]) in items
      decreases |keys|
    {
      var p :| p in keys;
      var before := items;
      items := Inserted(items, (p, m[p]));
      keys := keys - {p};
      forall i | 0 <= i < |items|
        ensures items[i].0 in m && items[i].0 !in keys && items[i].1 == m[items[i].0]
      {
        assert items[i] in items;
      }
    }
    forall p | p in m
      ensures exists i :: 0 <= i < |items| && items[i].0 == p
    {
      assert (p, m[p]) in items;
    }
  }
}
