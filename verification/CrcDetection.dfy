/** Which corruptions of a CRC-protected reply the check catches. */
module CrcDetection {
  import opened Gf2Poly
  import opened Crc8

  function XorBytes(a: seq<byte>, b: seq<byte>): (c: seq<byte>)
    requires |a| == |b|
    ensures |c| == |a|
  {
    seq(|a|, i requires 0 <= i < |a| => a[i] ^ b[i])
  }

  // ---- linearity ----

  lemma {:induction false} FeedLinear(r: Poly, r': Poly, m: Poly, m': Poly)
    requires |r| == |r'| == 8 && |m| == |m'|
    ensures Feed(Xor(r, r'), Xor(m, m')) == Xor(Feed(r, m), Feed(r', m'))
  {
    if m != [] {
      var k := |m| - 1;
      FeedLinear(r, r', m[..k], m'[..k]);
      assert Xor(m, m')[..k] == Xor(m[..k], m'[..k]);
      var f, f' := Feed(r, m[..k]), Feed(r', m'[..k]);
      var g, g' := f[0 := f[0] != m[k]], f'[0 := f'[0] != m'[k]];
      var x := Xor(f, f');
      assert x[0 := x[0] != Xor(m, m')[k]] == Xor(g, g');
      ShiftLinear(g, g');
    }
  }

  lemma XorConcat(a: Poly, s: Poly, b: Poly, t: Poly)
    requires |a| == |b| && |s| == |t|
    ensures Xor(a + s, b + t) == Xor(a, b) + Xor(s, t)
  {
  }

  lemma {:induction false} MessageBitsXor(a: seq<byte>, b: seq<byte>)
    requires |a| == |b|
    ensures MessageBits(XorBytes(a, b)) == Xor(MessageBits(a), MessageBits(b))
  {
    if a != [] {
      var k := |a| - 1;
      MessageBitsXor(a[..k], b[..k]);
      assert XorBytes(a, b)[..k] == XorBytes(a[..k], b[..k]);
      BitsXor(a[k], b[k]);
      XorConcat(MessageBits(a[..k]), Bits(a[k]), MessageBits(b[..k]), Bits(b[k]));
    }
  }

  /** The CRC of the XOR of two equally long messages is the XOR of their CRCs. */
  lemma CrcLinear(a: seq<byte>, b: seq<byte>)
    requires |a| == |b|
    ensures Crc(XorBytes(a, b)) == Crc(a) ^ Crc(b)
  {
    CrcIsFeed(a);
    CrcIsFeed(b);
    CrcIsFeed(XorBytes(a, b));
    MessageBitsXor(a, b);
    assert Xor(Zeros(8), Zeros(8)) == Zeros(8);
    FeedLinear(Zeros(8), Zeros(8), MessageBits(a), MessageBits(b));
    BitsXor(Crc(a), Crc(b));
    BitsInjective(Crc(XorBytes(a, b)), Crc(a) ^ Crc(b));
  }

  // ---- appending the CRC ----

  lemma {:induction false} ShiftsZero(r: Poly, n: nat)
    requires |r| == 8
    ensures Shifts(r, n) == Zeros(8) <==> r == Zeros(8)
  {
    if n != 0 {
      ShiftsZero(r, n - 1);
      if Shifts(r, n) == Zeros(8) {
        ShiftInjective(Shifts(r, n - 1));
      }
    }
  }

  lemma UpdateZero(c: byte, b: byte)
    ensures Update(c, b) == 0 <==> c ^ b == 0
  {
    StepsAreShifts(c ^ b, 8);
    ShiftsZero(Bits(c ^ b), 8);
    BitsZero();
    if Update(c, b) == 0 {
      BitsInjective(c ^ b, 0);
    } else if c ^ b == 0 {
      BitsInjective(Update(c, b), 0);
    }
  }

  /** A message with one more byte has CRC 0 exactly when that byte is the CRC of the rest. */
  lemma CrcAppended(m: seq<byte>, b: byte)
    ensures Crc(m + [b]) == 0 <==> b == Crc(m)
  {
    CrcSnoc(m, b);
    UpdateZero(Crc(m), b);
    XorIsDifference(Crc(m), b);
  }

  lemma XorIsDifference(a: byte, b: byte)
    ensures a ^ b == 0 <==> a == b
  {
  }

  /** What the receiver compares: the CRC of everything before the last byte with the last byte. */
  predicate Accepted(reply: seq<byte>)
    requires reply != []
  {
    Crc(reply[..|reply| - 1]) == reply[|reply| - 1]
  }

  lemma AcceptedIffZero(reply: seq<byte>)
    requires reply != []
    ensures Accepted(reply) <==> Crc(reply) == 0
  {
    var k := |reply| - 1;
    assert reply == reply[..k] + [reply[k]];
    CrcAppended(reply[..k], reply[k]);
  }

  /** A disturbed copy of an accepted reply is accepted exactly when the disturbance is itself a multiple
      of the polynomial. */
  lemma AcceptedIffErrorDivisible(reply: seq<byte>, e: seq<byte>)
    requires reply != [] && |e| == |reply| && Accepted(reply)
    ensures Accepted(XorBytes(reply, e)) <==> Crc(e) == 0
  {
    AcceptedIffZero(reply);
    AcceptedIffZero(XorBytes(reply, e));
    CrcLinear(reply, e);
    XorIsDifference(Crc(XorBytes(reply, e)), Crc(e));
  }

  // ---- an odd number of flipped bits ----

  /** True when an odd number of coefficients is set. */
  function Odd(s: Poly): bool {
    if s == [] then false else Odd(s[..|s| - 1]) != s[|s| - 1]
  }

  lemma {:induction false} OddXor(a: Poly, b: Poly)
    requires |a| == |b|
    ensures Odd(Xor(a, b)) == (Odd(a) != Odd(b))
  {
    if a != [] {
      var k := |a| - 1;
      OddXor(a[..k], b[..k]);
      assert Xor(a, b)[..k] == Xor(a[..k], b[..k]);
    }
  }

  lemma {:induction false} OddCons(b: bool, s: Poly)
    ensures Odd([b] + s) == (b != Odd(s))
  {
    if s == [] {
      assert [b] + s == [b];
      assert [b][..0] == [];
    } else {
      var k := |s| - 1;
      OddCons(b, s[..k]);
      assert ([b] + s)[..k + 1] == [b] + s[..k];
    }
  }

  lemma {:induction false} OddZeros(n: nat)
    ensures !Odd(Zeros(n))
  {
    if n != 0 {
      OddZeros(n - 1);
      assert Zeros(n)[..n - 1] == Zeros(n - 1);
    }
  }

  /** The divisor has an even number of terms, so x + 1 divides it. */
  lemma OddTail()
    ensures Odd(G()[1..])
  {
    var g := G()[1..];
    assert g == [false, false, true, true, false, false, false, true];
    assert g[..7] == [false, false, true, true, false, false, false];
    assert g[..7][..6] == [false, false, true, true, false, false];
    assert g[..7][..6][..5] == [false, false, true, true, false];
    OddCons(false, [false, true, true, false]);
    assert [false, false, true, true, false] == [false] + [false, true, true, false];
    OddCons(false, [true, true, false]);
    assert [false, true, true, false] == [false] + [true, true, false];
    OddCons(true, [true, false]);
    assert [true, true, false] == [true] + [true, false];
    OddCons(true, [false]);
    assert [true, false] == [true] + [false];
    OddZeros(1);
    assert [false] == Zeros(1);
  }

  lemma OddShift(r: Poly)
    requires |r| == 8
    ensures Odd(Shift(r)) == Odd(r)
  {
    OddXor(r[1..] + [false], if r[0] then G()[1..] else Zeros(8));
    OddTail();
    OddZeros(8);
    assert r == [r[0]] + r[1..];
    OddCons(r[0], r[1..]);
    assert (r[1..] + [false])[..7] == r[1..];
  }

  lemma OddFlip(r: Poly, b: bool)
    requires r != []
    ensures Odd(r[0 := r[0] != b]) == (Odd(r) != b)
  {
    assert r == [r[0]] + r[1..];
    assert r[0 := r[0] != b] == [r[0] != b] + r[1..];
    OddCons(r[0], r[1..]);
    OddCons(r[0] != b, r[1..]);
  }

  lemma {:induction false} OddFeed(r: Poly, m: Poly)
    requires |r| == 8
    ensures Odd(Feed(r, m)) == (Odd(r) != Odd(m))
  {
    if m != [] {
      var k := |m| - 1;
      OddFeed(r, m[..k]);
      var f := Feed(r, m[..k]);
      OddFlip(f, m[k]);
      OddShift(f[0 := f[0] != m[k]]);
    }
  }

  lemma OddErrorDetected(reply: seq<byte>, e: seq<byte>)
    requires reply != [] && |e| == |reply| && Accepted(reply)
    requires Odd(MessageBits(e))
    ensures !Accepted(XorBytes(reply, e))
  {
    AcceptedIffErrorDivisible(reply, e);
    CrcIsFeed(e);
    OddFeed(Zeros(8), MessageBits(e));
    OddZeros(8);
    BitsZero();
  }

  // ---- bursts ----

  lemma {:induction false} FeedZeros(r: Poly, n: nat)
    requires |r| == 8
    ensures Feed(r, Zeros(n)) == Shifts(r, n)
  {
    if n != 0 {
      FeedZeros(r, n - 1);
      assert Zeros(n)[..n - 1] == Zeros(n - 1);
      var f := Feed(r, Zeros(n - 1));
      assert f[0 := f[0] != false] == f;
    }
  }

  lemma XorZeros(w: Poly)
    ensures Xor(Zeros(|w|), w) == w == Xor(w, Zeros(|w|))
  {
  }

  lemma FeedWindow(w: Poly)
    requires |w| == 8
    ensures Feed(Zeros(8), w) == Shifts(w, 8)
  {
    FeedPrefix(Zeros(8), w, 8);
    XorZeros(w);
    assert w[..8] == w;
    assert w[8..] + Zeros(8) == Zeros(8);
    XorZeros(Shifts(w, 8));
  }

  /** e changes something, and only within the 8 bits from bit `at` on, in the CRC's order: each byte low bit first. */
  ghost predicate Burst(e: seq<byte>, at: nat) {
    && at + 8 <= 8 * |e|
    && (exists i :: at <= i < at + 8 && MessageBits(e)[i])
    && (forall i :: 0 <= i < 8 * |e| && MessageBits(e)[i] ==> at <= i < at + 8)
  }

  lemma BurstErrorDetected(reply: seq<byte>, e: seq<byte>, at: nat)
    requires reply != [] && |e| == |reply| && Accepted(reply)
    requires Burst(e, at)
    ensures !Accepted(XorBytes(reply, e))
  {
    AcceptedIffErrorDivisible(reply, e);
    CrcIsFeed(e);
    var m := MessageBits(e);
    var w := m[at..at + 8];
    var n := |m| - at - 8;
    assert m == Zeros(at) + w + Zeros(n);
    FeedConcat(Zeros(8), Zeros(at) + w, Zeros(n));
    FeedConcat(Zeros(8), Zeros(at), w);
    FeedZeros(Zeros(8), at);
    ShiftsZero(Zeros(8), at);
    FeedWindow(w);
    FeedZeros(Shifts(w, 8), n);
    var i :| at <= i < at + 8 && m[i];
    assert w[i - at] && w != Zeros(8);
    ShiftsZero(w, 8);
    ShiftsZero(Shifts(w, 8), n);
    BitsZero();
  }
}
