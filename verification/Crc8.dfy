/** The CRC both SPI ends compute: the Dallas/Maxim iButton CRC-8, one byte at a time,
    least significant bit first, with the reflected polynomial 0x8C. */
module Crc8 {
  import opened Gf2Poly

  type byte = bv8

  /** One turn of the loop: shift out the low bit, subtract the polynomial when it was set. */
  function Step(x: byte): byte {
    if x & 1 != 0 then (x >> 1) ^ 0x8C else x >> 1
  }

  function Steps(x: byte, n: nat): byte {
    if n == 0 then x else Step(Steps(x, n - 1))
  }

  function Update(crc: byte, data: byte): byte {
    Steps(crc ^ data, 8)
  }

  /** The CRC of a byte sequence, starting from 0. */
  function Crc(m: seq<byte>): byte {
    if m == [] then 0 else Update(Crc(m[..|m| - 1]), m[|m| - 1])
  }

  method UpdateCrc(crc: byte, data: byte) returns (r: byte)
    ensures r == Update(crc, data)
  {
    r := crc ^ data;
    for i := 0 to 8
      invariant r == Steps(crc ^ data, i)
    {
      if r & 1 != 0 {
        r := (r >> 1) ^ 0x8C;
      } else {
        r := r >> 1;
      }
    }
  }

  lemma CrcSnoc(m: seq<byte>, b: byte)
    ensures Crc(m + [b]) == Update(Crc(m), b)
  {
    assert (m + [b])[..|m|] == m;
  }

  // ---- bytes as bits, in the order the CRC consumes them ----

  function Mask(i: nat): byte
    requires i < 8
  {
    if i == 0 then 1 else if i == 1 then 2 else if i == 2 then 4 else if i == 3 then 8
    else if i == 4 then 16 else if i == 5 then 32 else if i == 6 then 64 else 128
  }

  function Bit(b: byte, i: nat): bool
    requires i < 8
  {
    b & Mask(i) != 0
  }

  function Bits(b: byte): (s: Poly)
    ensures |s| == 8
  {
    seq(8, i requires 0 <= i < 8 => Bit(b, i))
  }

  function MessageBits(m: seq<byte>): (s: Poly)
    ensures |s| == 8 * |m|
  {
    if m == [] then [] else MessageBits(m[..|m| - 1]) + Bits(m[|m| - 1])
  }

  lemma BitsInjective(a: byte, b: byte)
    requires Bits(a) == Bits(b)
    ensures a == b
  {
    forall i: nat | i < 8
      ensures Bit(a, i) == Bit(b, i)
    {
      assert Bits(a)[i] == Bits(b)[i];
    }
    assert Bit(a, 0) == Bit(b, 0) && Bit(a, 1) == Bit(b, 1) && Bit(a, 2) == Bit(b, 2) && Bit(a, 3) == Bit(b, 3);
    assert Bit(a, 4) == Bit(b, 4) && Bit(a, 5) == Bit(b, 5) && Bit(a, 6) == Bit(b, 6) && Bit(a, 7) == Bit(b, 7);
  }

  lemma MaskXor(a: byte, b: byte, m: byte)
    ensures (a ^ b) & m == (a & m) ^ (b & m)
  {
  }

  lemma MaskIsOneBit(a: byte, i: nat)
    requires i < 8
    ensures a & Mask(i) == 0 || a & Mask(i) == Mask(i)
    ensures Mask(i) != 0
  {
  }

  lemma XorNonZero(x: byte, y: byte, m: byte)
    requires m != 0 && (x == 0 || x == m) && (y == 0 || y == m)
    ensures (x ^ y != 0) <==> ((x != 0) != (y != 0))
  {
  }

  lemma BitXor(a: byte, b: byte, i: nat)
    requires i < 8
    ensures Bit(a ^ b, i) == (Bit(a, i) != Bit(b, i))
  {
    MaskXor(a, b, Mask(i));
    MaskIsOneBit(a, i);
    MaskIsOneBit(b, i);
    XorNonZero(a & Mask(i), b & Mask(i), Mask(i));
  }

  lemma BitsXor(a: byte, b: byte)
    ensures Bits(a ^ b) == Xor(Bits(a), Bits(b))
  {
    forall i: nat | i < 8
      ensures Bits(a ^ b)[i] == Xor(Bits(a), Bits(b))[i]
    {
      BitXor(a, b, i);
    }
  }

  lemma BitsZero()
    ensures Bits(0) == Zeros(8)
  {
  }

  // ---- the shift register, as coefficients ----

  /** x^8 + x^5 + x^4 + 1 */
  function G(): (g: Poly)
    ensures |g| == 9 && g[0]
  {
    seq(9, i => i == 0 || i == 3 || i == 4 || i == 8)
  }

  /** Multiply by x and subtract the divisor when the leading coefficient falls out. */
  function Shift(r: Poly): (s: Poly)
    requires |r| == 8
    ensures |s| == 8
  {
    Xor(r[1..] + [false], if r[0] then G()[1..] else Zeros(8))
  }

  function Shifts(r: Poly, n: nat): (s: Poly)
    requires |r| == 8
    ensures |s| == 8
  {
    if n == 0 then r else Shift(Shifts(r, n - 1))
  }

  /** Feed one message bit into the register. */
  function FeedBit(r: Poly, b: bool): (s: Poly)
    requires |r| == 8
    ensures |s| == 8
  {
    Shift(r[0 := r[0] != b])
  }

  function Feed(r: Poly, m: Poly): (s: Poly)
    requires |r| == 8
    ensures |s| == 8
  {
    if m == [] then r else FeedBit(Feed(r, m[..|m| - 1]), m[|m| - 1])
  }

  lemma StepBit(x: byte, i: nat)
    requires i < 8
    ensures Bit(Step(x), i) == ((if i < 7 then Bit(x, i + 1) else false) != (Bit(x, 0) && G()[i + 1]))
  {
  }

  /** The C loop body is one shift of the coefficient register. */
  lemma StepIsShift(x: byte)
    ensures Bits(Step(x)) == Shift(Bits(x))
  {
    forall i: nat | i < 8
      ensures Bits(Step(x))[i] == Shift(Bits(x))[i]
    {
      StepBit(x, i);
    }
  }

  lemma {:induction false} StepsAreShifts(x: byte, n: nat)
    ensures Bits(Steps(x, n)) == Shifts(Bits(x), n)
  {
    if n != 0 {
      StepsAreShifts(x, n - 1);
      StepIsShift(Steps(x, n - 1));
    }
  }

  lemma ShiftLinear(r: Poly, s: Poly)
    requires |r| == |s| == 8
    ensures Shift(Xor(r, s)) == Xor(Shift(r), Shift(s))
  {
    forall i: nat | i < 8
      ensures Shift(Xor(r, s))[i] == Xor(Shift(r), Shift(s))[i]
    {
    }
  }

  /** Only the zero register shifts to zero. */
  lemma ShiftInjective(r: Poly)
    requires |r| == 8 && Shift(r) == Zeros(8)
    ensures r == Zeros(8)
  {
    assert Shift(r)[7] == r[0];
    forall j | 0 < j < 8
      ensures !r[j]
    {
      assert Shift(r)[j - 1] == r[j];
    }
    assert forall j | 0 <= j < 8 :: r[j] == Zeros(8)[j];
  }

  lemma ShiftZeroFirst(s: Poly)
    requires |s| == 7
    ensures Shift([false] + s) == s + [false]
  {
    assert ([false] + s)[1..] == s;
  }

  lemma XorFlip(u: Poly, b: bool, s: Poly)
    requires |u| == 8 && |s| == 7
    ensures var f := Xor(u, [b] + s); f[0 := f[0] != b] == Xor(u, [false] + s)
  {
  }

  /** Feeding the first of the bits a register misses. */
  lemma FeedPending(u: Poly, b: bool, left: Poly)
    requires |u| == 8 && |left| == 7
    ensures FeedBit(Xor(u, [b] + left), b) == Xor(Shift(u), left + [false])
  {
    XorFlip(u, b, left);
    ShiftLinear(u, [false] + left);
    ShiftZeroFirst(left);
  }

  /** Bits of a byte not yet fed are missing from the register by exactly their own pattern. */
  lemma {:induction false} FeedPrefix(r: Poly, d: Poly, n: nat)
    requires |r| == |d| == 8 && n <= 8
    ensures Feed(r, d[..n]) == Xor(Shifts(Xor(r, d), n), d[n..] + Zeros(n))
  {
    if n == 0 {
      assert d[..0] == [] && d[0..] + Zeros(0) == d;
    } else {
      var k := n - 1;
      FeedPrefix(r, d, k);
      assert d[..n][..k] == d[..k];
      var u := Shifts(Xor(r, d), k);
      var left := d[n..] + Zeros(k);
      assert d[k..] + Zeros(k) == [d[k]] + left;
      FeedPending(u, d[k], left);
      assert left + [false] == d[n..] + Zeros(n);
    }
  }

  /** One call of the C function feeds eight message bits, low bit first. */
  lemma UpdateIsFeed(c: byte, d: byte)
    ensures Bits(Update(c, d)) == Feed(Bits(c), Bits(d))
  {
    StepsAreShifts(c ^ d, 8);
    BitsXor(c, d);
    FeedPrefix(Bits(c), Bits(d), 8);
    assert Bits(d)[..8] == Bits(d);
  }

  lemma {:induction false} FeedConcat(r: Poly, s: Poly, t: Poly)
    requires |r| == 8
    ensures Feed(r, s + t) == Feed(Feed(r, s), t)
  {
    if t == [] {
      assert s + t == s;
    } else {
      assert (s + t)[..|s + t| - 1] == s + t[..|t| - 1];
      FeedConcat(r, s, t[..|t| - 1]);
    }
  }

  lemma {:induction false} CrcIsFeed(m: seq<byte>)
    ensures Bits(Crc(m)) == Feed(Zeros(8), MessageBits(m))
  {
    if m == [] {
      BitsZero();
    } else {
      var k := |m| - 1;
      CrcIsFeed(m[..k]);
      FeedConcat(Zeros(8), MessageBits(m[..k]), Bits(m[k]));
      UpdateIsFeed(Crc(m[..k]), m[k]);
    }
  }

  // ---- the register holds a polynomial remainder ----

  function LeadingBit(r: Poly): bool
    requires r != []
  {
    r[0]
  }

  /** The bits the register shifts out while dividing. */
  ghost function Quotient(s: Poly): (q: Poly)
    ensures |q| == |s|
  {
    if s == [] then []
    else Quotient(s[..|s| - 1]) + [LeadingBit(Feed(Zeros(8), s[..|s| - 1])) != s[|s| - 1]]
  }

  lemma {:induction false} RegisterDivides(s: Poly)
    ensures Divides(s + Zeros(8), G(), Quotient(s), Feed(Zeros(8), s))
  {
    if s == [] {
      assert Mul([], G()) == Zeros(8);
    } else {
      var k := |s| - 1;
      var s', q', r' := s[..k], Quotient(s[..k]), Feed(Zeros(8), s[..k]);
      RegisterDivides(s');
      var q, r := Quotient(s), Feed(Zeros(8), s);
      assert q[..k] == q';
      var p', p := Xor(Mul(q', G()), Zeros(k) + r'), Xor(Mul(q, G()), Zeros(k + 1) + r);
      forall j | 0 <= j < k + 9
        ensures (s + Zeros(8))[j] == p[j]
      {
        if j < k + 8 {
          assert (s' + Zeros(8))[j] == p'[j];
        }
      }
      assert s + Zeros(8) == p;
    }
  }

  /** The CRC is the remainder of M(x) * x^8 modulo x^8 + x^5 + x^4 + 1, and no other polynomial is. */
  lemma CrcIsRemainder(m: seq<byte>, r: Poly)
    ensures IsRemainder(MessageBits(m) + Zeros(8), G(), r) <==> r == Bits(Crc(m))
  {
    CrcIsFeed(m);
    RegisterDivides(MessageBits(m));
    if IsRemainder(MessageBits(m) + Zeros(8), G(), r) {
      RemainderUnique(MessageBits(m) + Zeros(8), G(), r, Bits(Crc(m)));
    }
  }
}
