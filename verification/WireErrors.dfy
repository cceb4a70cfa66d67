/** Bursts in the order of the wire. Both ends of the link send the high bit of a byte first, while the CRC takes the
    low bit first, so a burst across a byte border is not a burst to the CRC. */
module WireErrors {
  import opened Crc8
  import opened CrcDetection

  /** Bit p of the bytes on the wire. */
  function WireBit(e: seq<byte>, p: nat): bool
    requires p < 8 * |e|
  {
    Bit(e[p / 8], 7 - p % 8)
  }

  /** All flipped bits lie within `len` consecutive bits on the wire, starting at bit `at`. */
  ghost predicate WireBurst(e: seq<byte>, at: nat, len: nat) {
    forall p: nat :: p < 8 * |e| && WireBit(e, p) ==> at <= p < at + len
  }

  ghost predicate AllZero(e: seq<byte>) {
    forall i :: 0 <= i < |e| ==> e[i] == 0
  }

  /** Only byte i and the one after it can be non-zero. */
  ghost predicate OnlyTwo(e: seq<byte>, i: nat) {
    forall j :: 0 <= j < |e| && j != i && j != i + 1 ==> e[j] == 0
  }

  // ---- the CRC of two bytes among zeros ----

  lemma {:induction false} CrcZeros(e: seq<byte>)
    requires AllZero(e)
    ensures Crc(e) == 0
  {
    if e != [] {
      CrcZeros(e[..|e| - 1]);
      UpdateZero(0, 0);
    }
  }

  /** Zero bytes behind a message do not change whether its CRC is 0. */
  lemma {:induction false} CrcTrailingZeros(e: seq<byte>, k: nat)
    requires k <= |e| && AllZero(e[k..])
    ensures Crc(e) == 0 <==> Crc(e[..k]) == 0
    decreases |e|
  {
    if k == |e| {
      assert e[..k] == e;
    } else {
      var e' := e[..|e| - 1];
      assert e[|e| - 1] == e[k..][|e| - 1 - k];
      assert forall j :: 0 <= j < |e'| - k ==> e'[k..][j] == e[k..][j];
      assert e'[..k] == e[..k];
      CrcTrailingZeros(e', k);
      UpdateZero(Crc(e'), 0);
      XorIsDifference(Crc(e'), 0);
    }
  }

  lemma CrcAfterZeros(zeros: seq<byte>, a: byte)
    requires AllZero(zeros)
    ensures Crc(zeros + [a]) == Update(0, a)
  {
    CrcZeros(zeros);
    CrcSnoc(zeros, a);
  }

  /** An error in two neighbouring bytes goes undetected exactly when the second is the CRC of the first. */
  lemma CrcOfTwo(e: seq<byte>, i: nat)
    requires i + 1 < |e| && OnlyTwo(e, i)
    ensures Crc(e) == 0 <==> e[i + 1] == Update(0, e[i])
  {
    var before := e[..i] + [e[i]];
    assert e[..i + 2] == before + [e[i + 1]];
    CrcTrailingZeros(e, i + 2);
    CrcAfterZeros(e[..i], e[i]);
    CrcAppended(before, e[i + 1]);
  }

  /** An error in a single byte is always detected. */
  lemma CrcOfOne(e: seq<byte>, i: nat)
    requires i < |e| && forall j :: 0 <= j < |e| && j != i ==> e[j] == 0
    ensures Crc(e) == 0 <==> e[i] == 0
  {
    CrcTrailingZeros(e, i + 1);
    CrcZeros(e[..i]);
    assert e[..i + 1] == e[..i] + [e[i]];
    CrcAppended(e[..i], e[i]);
  }

  // ---- which pairs of bytes ----

  /** The bits of a byte below bit `count`. */
  function LowMask(count: nat): byte
    requires count <= 8
  {
    if count == 0 then 0 else if count == 1 then 1 else if count == 2 then 3 else if count == 3 then 7
    else if count == 4 then 15 else if count == 5 then 31 else if count == 6 then 63
    else if count == 7 then 127 else 255
  }

  /** a has bits only below `count` and b only from `count` on: together they lie within eight bits on the wire. */
  predicate Adjoining(a: byte, b: byte, count: nat)
    requires count <= 8
  {
    a & !LowMask(count) == 0 && b & LowMask(count) == 0
  }

  /** The pairs of neighbouring bytes whose flips the CRC does not see. */
  predicate Unseen(a: byte, b: byte) {
    || (a == 0x2C && b == 0x80) || (a == 0x16 && b == 0x40) || (a == 0x0B && b == 0x20)
    || (a == 0x3A && b == 0xC0) || (a == 0x1D && b == 0x60)
    || (a == 0x02 && b == 0xBC) || (a == 0x01 && b == 0x5E)
  }

  function Eight(x: byte): byte {
    Step(Step(Step(Step(Step(Step(Step(Step(x))))))))
  }

  lemma UpdateIsEight(a: byte)
    ensures Update(0, a) == Eight(a)
  {
    assert 0 ^ a == a;
    var x1 := Step(a);
    var x2 := Step(x1);
    var x3 := Step(x2);
    var x4 := Step(x3);
    assert Steps(a, 1) == Step(Steps(a, 0)) && Steps(a, 2) == Step(Steps(a, 1)) && Steps(a, 3) == Step(Steps(a, 2));
    assert Steps(a, 4) == x4;
    assert Steps(a, 5) == Step(Steps(a, 4)) && Steps(a, 6) == Step(Steps(a, 5)) && Steps(a, 7) == Step(Steps(a, 6));
    assert Steps(a, 8) == Step(Steps(a, 7));
  }

  lemma UnseenPairs(a: byte, b: byte, count: nat)
    requires count <= 8 && Adjoining(a, b, count) && (a != 0 || b != 0)
    ensures b == Eight(a) <==> Unseen(a, b)
  {
    if count <= 4 {
      UnseenFewBits(a, b, count);
    } else {
      UnseenManyBits(a, b, count);
    }
  }

  lemma UnseenFewBits(a: byte, b: byte, count: nat)
    requires count <= 4 && Adjoining(a, b, count) && (a != 0 || b != 0)
    ensures b == Eight(a) <==> Unseen(a, b)
  {
    match count
    case 0 =>
    case 1 =>
    case 2 =>
    case 3 =>
    case 4 =>
  }

  lemma UnseenManyBits(a: byte, b: byte, count: nat)
    requires 4 < count <= 8 && Adjoining(a, b, count) && (a != 0 || b != 0)
    ensures b == Eight(a) <==> Unseen(a, b)
  {
    match count
    case 5 =>
    case 6 =>
    case 7 =>
    case 8 =>
  }

  // ---- bursts ----

  lemma BitsBelow(b: byte, count: nat)
    requires count <= 8 && forall t: nat :: t < count ==> !Bit(b, t)
    ensures b & LowMask(count) == 0
  {
    assert 0 < count ==> !Bit(b, 0);
    assert 1 < count ==> !Bit(b, 1);
    assert 2 < count ==> !Bit(b, 2);
    assert 3 < count ==> !Bit(b, 3);
    assert 4 < count ==> !Bit(b, 4);
    assert 5 < count ==> !Bit(b, 5);
    assert 6 < count ==> !Bit(b, 6);
    assert 7 < count ==> !Bit(b, 7);
  }

  lemma BitsFrom(a: byte, count: nat)
    requires count <= 8 && forall t: nat :: count <= t < 8 ==> !Bit(a, t)
    ensures a & !LowMask(count) == 0
  {
    assert count <= 0 ==> !Bit(a, 0);
    assert count <= 1 ==> !Bit(a, 1);
    assert count <= 2 ==> !Bit(a, 2);
    assert count <= 3 ==> !Bit(a, 3);
    assert count <= 4 ==> !Bit(a, 4);
    assert count <= 5 ==> !Bit(a, 5);
    assert count <= 6 ==> !Bit(a, 6);
    assert count <= 7 ==> !Bit(a, 7);
  }

  lemma BitOnWire(e: seq<byte>, j: nat, t: nat)
    requires j < |e| && t < 8
    ensures 8 * j + 7 - t < 8 * |e| && WireBit(e, 8 * j + 7 - t) == Bit(e[j], t)
  {
  }

  lemma ZeroOutside(e: seq<byte>, at: nat, j: nat)
    requires WireBurst(e, at, 8) && j < |e| && j != at / 8 && j != at / 8 + 1
    ensures e[j] == 0
  {
    forall t: nat | t < 8
      ensures !Bit(e[j], t)
    {
      BitOnWire(e, j, t);
    }
    BitsBelow(e[j], 8);
    assert e[j] & 255 == e[j];
  }

  /** Eight consecutive bits on the wire lie in two adjoining bytes. */
  lemma BurstAdjoins(e: seq<byte>, at: nat)
    requires WireBurst(e, at, 8) && at / 8 < |e|
    ensures OnlyTwo(e, at / 8)
    ensures Adjoining(e[at / 8], if at / 8 + 1 < |e| then e[at / 8 + 1] else 0, 8 - at % 8)
  {
    var i, count := at / 8, 8 - at % 8;
    forall j | 0 <= j < |e| && j != i && j != i + 1
      ensures e[j] == 0
    {
      ZeroOutside(e, at, j);
    }
    forall t: nat | count <= t < 8
      ensures !Bit(e[i], t)
    {
      BitOnWire(e, i, t);
    }
    BitsFrom(e[i], count);
    if i + 1 < |e| {
      var b := e[i + 1];
      forall t: nat | t < count
        ensures !Bit(b, t)
      {
        BitOnWire(e, i + 1, t);
      }
      BitsBelow(b, count);
    } else {
      assert 0 & LowMask(count) == 0;
    }
  }

  lemma BurstOfTwo(e: seq<byte>, at: nat)
    requires WireBurst(e, at, 8) && at / 8 + 1 < |e| && !AllZero(e)
    ensures Crc(e) == 0 <==> Unseen(e[at / 8], e[at / 8 + 1])
  {
    var i := at / 8;
    BurstAdjoins(e, at);
    CrcOfTwo(e, i);
    UpdateIsEight(e[i]);
    UnseenPairs(e[i], e[i + 1], 8 - at % 8);
  }

  lemma UnseenNonZero(a: byte, b: byte)
    requires Unseen(a, b)
    ensures a != 0 && b != 0
  {
  }

  /** A good reply whose flipped bits lie within eight consecutive bits on the wire is accepted exactly if two
      neighbouring bytes are disturbed by one of seven patterns. */
  lemma WireBurstAccepted(reply: seq<byte>, e: seq<byte>, at: nat)
    requires reply != [] && |e| == |reply| && Accepted(reply)
    requires WireBurst(e, at, 8) && !AllZero(e)
    ensures Accepted(XorBytes(reply, e)) <==> exists i :: 0 <= i < |e| - 1 && Unseen(e[i], e[i + 1])
  {
    AcceptedIffErrorDivisible(reply, e);
    var i := at / 8;
    if i >= |e| {
      forall j | 0 <= j < |e|
        ensures e[j] == 0
      {
        ZeroOutside(e, at, j);
      }
    }
    BurstAdjoins(e, at);
    if i + 1 < |e| {
      BurstOfTwo(e, at);
    } else {
      CrcOfOne(e, i);
    }
    forall j | 0 <= j < |e| - 1 && Unseen(e[j], e[j + 1])
      ensures j == i
    {
      UnseenNonZero(e[j], e[j + 1]);
    }
  }

  /** Flips within six consecutive bits on the wire are always detected ... */
  lemma ShortWireBurstDetected(reply: seq<byte>, e: seq<byte>, at: nat)
    requires reply != [] && |e| == |reply| && Accepted(reply)
    requires WireBurst(e, at, 6) && !AllZero(e)
    ensures !Accepted(XorBytes(reply, e))
  {
    WireBurstAccepted(reply, e, at);
    forall i | 0 <= i < |e| - 1
      ensures !Unseen(e[i], e[i + 1])
    {
      if Unseen(e[i], e[i + 1]) {
        var s, t := UnseenSpan(e[i], e[i + 1]);
        BitOnWire(e, i, s);
        BitOnWire(e, i + 1, t);
        assert false;
      }
    }
  }

  /** ... and so are flips within one byte. */
  lemma OneByteDetected(reply: seq<byte>, e: seq<byte>, i: nat)
    requires |e| == |reply| && i < |e| && Accepted(reply)
    requires e[i] != 0 && forall j :: 0 <= j < |e| && j != i ==> e[j] == 0
    ensures !Accepted(XorBytes(reply, e))
  {
    AcceptedIffErrorDivisible(reply, e);
    CrcOfOne(e, i);
  }

  /** The first and the last flipped bit of such a pair. */
  lemma UnseenSpan(a: byte, b: byte) returns (s: nat, t: nat)
    requires Unseen(a, b)
    ensures s < 8 && t < 8 && Bit(a, s) && Bit(b, t) && 8 + s - t >= 6
  {
    if a == 0x2C {
      s, t := 5, 7;
    } else if a == 0x16 {
      s, t := 4, 6;
    } else if a == 0x0B {
      s, t := 3, 5;
    } else if a == 0x3A {
      s, t := 5, 6;
    } else if a == 0x1D {
      s, t := 4, 5;
    } else if a == 0x02 {
      s, t := 1, 2;
    } else {
      s, t := 0, 1;
    }
  }

  /** Seven are too many: every good reply of two bytes passes the check with these seven neighbouring wire bits
      disturbed. */
  lemma SevenBitsUnseen(reply: seq<byte>)
    requires |reply| == 2 && Accepted(reply)
    ensures WireBurst([0x2C, 0x80], 2, 7)
    ensures Accepted(XorBytes(reply, [0x2C, 0x80]))
  {
    var e: seq<byte> := [0x2C, 0x80];
    forall p: nat | p < 16 && WireBit(e, p)
      ensures 2 <= p < 9
    {
      OnlyBitsSet(p);
    }
    assert e[0] != 0;
    assert Unseen(e[0], e[1]);
    WireBurstAccepted(reply, e, 2);
  }

  lemma OnlyBitsSet(p: nat)
    requires p < 16 && WireBit([0x2C, 0x80], p)
    ensures 2 <= p < 9
  {
  }
}
