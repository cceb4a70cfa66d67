/** The battery's charge level: the discharge curve, interpolated linearly with integer arithmetic. */
module Battery {

  /** Remaining life in 0.01 % and battery voltage in mV. */
  datatype Point = Point(points: int, voltage: int)

  /** A curve from the fullest point down to the empty one. */
  ghost predicate IsCurve(curve: seq<Point>) {
    && curve != []
    && (forall i, j :: 0 <= i < j < |curve| ==>
         curve[j].points < curve[i].points && curve[j].voltage < curve[i].voltage)
    && curve[|curve| - 1].points == 0
  }

  /** C's division, which truncates towards zero. */
  function TruncDiv(a: int, b: int): int
    requires b > 0
  {
    if a >= 0 then a / b else -(-a / b)
  }

  /** The value at mv of the line through two points. */
  ghost function Line(a: Point, b: Point, mv: int): real
    requires b.voltage < a.voltage
  {
    b.points as real + ((a.points - b.points) * (mv - b.voltage)) as real / (a.voltage - b.voltage) as real
  }

  /** The piecewise linear curve through the points, constant outside them. */
  ghost function Exact(curve: seq<Point>, mv: int): real
    requires IsCurve(curve)
  {
    if mv >= curve[0].voltage then curve[0].points as real
    else if |curve| == 1 then 0.0
    else if mv >= curve[1].voltage then Line(curve[0], curve[1], mv)
    else Exact(curve[1..], mv)
  }

  /** The charge level in percent. */
  ghost function Level(curve: seq<Point>, mv: int): int
    requires IsCurve(curve)
  {
    (Exact(curve, mv) / 100.0).Floor
  }

  method BatteryChargeLevel(curve: seq<Point>, mv: int) returns (level: int)
    requires IsCurve(curve)
    ensures level == Level(curve, mv)
  {
    var pb := 0;
    if mv >= curve[pb].voltage {
      FloorOfSum(curve[pb].points, 0, 1);
      return TruncDiv(curve[pb].points, 100);
    }
    while mv < curve[pb].voltage
      invariant 0 <= pb < |curve|
      invariant forall j :: 0 <= j < pb ==> mv < curve[j].voltage
      decreases |curve| - pb
    {
      if curve[pb].points > 0 {
        pb := pb + 1;
      } else {
        BelowLowest(curve, mv);
        return TruncDiv(curve[pb].points, 100);
      }
    }
    var pa := pb - 1;
    BetweenPoints(curve, mv, pb);
    var a, b := curve[pa], curve[pb];
    Product(a.points - b.points, mv - b.voltage);
    FloorOfSum(b.points, (a.points - b.points) * (mv - b.voltage), a.voltage - b.voltage);
    level := TruncDiv(b.points + TruncDiv((a.points - b.points) * (mv - b.voltage), a.voltage - b.voltage), 100);
  }

  lemma Product(x: int, y: int)
    requires x >= 0 && y >= 0
    ensures x * y >= 0
  {
  }

  lemma {:induction false} BelowLowest(curve: seq<Point>, mv: int)
    requires IsCurve(curve) && mv < curve[|curve| - 1].voltage
    ensures Exact(curve, mv) == 0.0
    decreases |curve|
  {
    if |curve| > 1 {
      BelowLowest(curve[1..], mv);
    }
  }

  lemma {:induction false} BetweenPoints(curve: seq<Point>, mv: int, k: nat)
    requires IsCurve(curve) && 0 < k < |curve|
    requires mv < curve[k - 1].voltage && mv >= curve[k].voltage
    ensures Exact(curve, mv) == Line(curve[k - 1], curve[k], mv)
    decreases k
  {
    if k > 1 {
      BetweenPoints(curve[1..], mv, k - 1);
    }
  }

  // ---- two truncating divisions are one ----

  lemma FloorOfQuotient(n: int, d: int)
    requires n >= 0 && d > 0
    ensures (n as real / d as real).Floor == n / d
  {
    var q, k := n as real / d as real, n / d;
    var kr, dr := k as real, d as real;
    assert q * dr == n as real;
    assert k * d <= n < k * d + d;
    assert kr * dr == (k * d) as real;
    if q < kr {
      Times(q, kr, dr);
      assert false;
    }
    if kr + 1.0 <= q {
      TimesWeak(kr + 1.0, q, dr);
      assert false;
    }
  }

  lemma Times(x: real, y: real, z: real)
    requires x < y && z > 0.0
    ensures x * z < y * z
  {
  }

  lemma TimesWeak(x: real, y: real, z: real)
    requires x <= y && z > 0.0
    ensures x * z <= y * z
  {
  }

  lemma FloorOfSum(p: int, n: int, d: int)
    requires p >= 0 && n >= 0 && d > 0
    ensures TruncDiv(p + TruncDiv(n, d), 100) == ((p as real + n as real / d as real) / 100.0).Floor
  {
    FloorOfQuotient(n, d);
    var q := n as real / d as real;
    var f := n / d;
    assert q.Floor == f;
  }

  // ---- the curve ----

  lemma LineBetween(a: Point, b: Point, mv: int)
    requires b.voltage <= mv <= a.voltage && b.voltage < a.voltage && b.points < a.points
    ensures b.points as real <= Line(a, b, mv) <= a.points as real
  {
    LineMonotone(a, b, b.voltage, mv);
    LineMonotone(a, b, mv, a.voltage);
  }

  lemma LineMonotone(a: Point, b: Point, mv: int, mv': int)
    requires mv <= mv' && b.voltage < a.voltage && b.points < a.points
    ensures Line(a, b, mv) <= Line(a, b, mv')
    ensures Line(a, b, b.voltage) == b.points as real && Line(a, b, a.voltage) == a.points as real
  {
    var x := (a.points - b.points) * (mv - b.voltage);
    var y := (a.points - b.points) * (mv' - b.voltage);
    Product(a.points - b.points, mv' - mv);
    assert x <= y;
    Quotients(x as real, y as real, (a.voltage - b.voltage) as real);
    WholeQuotient(a.points - b.points, a.voltage - b.voltage);
  }

  lemma Quotients(x: real, y: real, z: real)
    requires x <= y && z > 0.0
    ensures x / z <= y / z
  {
  }

  lemma WholeQuotient(x: int, z: int)
    requires z > 0
    ensures (x * z) as real / z as real == x as real
  {
    assert (x * z) as real == x as real * z as real;
  }

  lemma {:induction false} ExactBounds(curve: seq<Point>, mv: int)
    requires IsCurve(curve)
    ensures 0.0 <= Exact(curve, mv) <= curve[0].points as real
    decreases |curve|
  {
    if mv < curve[0].voltage && |curve| > 1 {
      if mv >= curve[1].voltage {
        LineBetween(curve[0], curve[1], mv);
      } else {
        ExactBounds(curve[1..], mv);
      }
    }
  }

  /** The curve goes through its points. */
  lemma {:induction false} ExactAtPoint(curve: seq<Point>, i: nat)
    requires IsCurve(curve) && i < |curve|
    ensures Exact(curve, curve[i].voltage) == curve[i].points as real
    decreases i
  {
    if i == 1 {
      LineMonotone(curve[0], curve[1], curve[1].voltage, curve[1].voltage);
    } else if i > 1 {
      ExactAtPoint(curve[1..], i - 1);
    }
  }

  lemma {:induction false} ExactMonotone(curve: seq<Point>, mv: int, mv': int)
    requires IsCurve(curve) && mv <= mv'
    ensures Exact(curve, mv) <= Exact(curve, mv')
    decreases |curve|
  {
    if mv' >= curve[0].voltage {
      ExactBounds(curve, mv);
    } else if |curve| > 1 {
      var a, b := curve[0], curve[1];
      if mv >= b.voltage {
        LineMonotone(a, b, mv, mv');
      } else if mv' >= b.voltage {
        ExactBounds(curve[1..], mv);
        LineBetween(a, b, mv');
      } else {
        ExactMonotone(curve[1..], mv, mv');
      }
    }
  }

  /** The reported level never falls as the voltage rises, across every breakpoint, and stays within the curve's. */
  lemma LevelMonotone(curve: seq<Point>, mv: int, mv': int)
    requires IsCurve(curve) && mv <= mv'
    ensures 0 <= Level(curve, mv) <= Level(curve, mv') <= curve[0].points / 100
  {
    ExactMonotone(curve, mv, mv');
    ExactBounds(curve, mv);
    ExactBounds(curve, mv');
  }

  function Capacity(): (curve: seq<Point>)
    ensures IsCurve(curve)
  {
    [Point(10000, 3950), Point(625, 3550), Point(0, 3100)]
  }

  /** The firmware's curve: 100 % exactly from 3950 mV, 0 % exactly below 3172 mV. */
  lemma CapacityEnds(mv: int)
    ensures 0 <= Level(Capacity(), mv) <= 100
    ensures Level(Capacity(), mv) == 100 <==> mv >= 3950
    ensures Level(Capacity(), mv) == 0 <==> mv < 3172
  {
    LevelMonotone(Capacity(), mv, mv);
    var c := Capacity();
    assert c[1..] == [Point(625, 3550), Point(0, 3100)];
    if mv <= 3171 {
      ExactMonotone(c, mv, 3171);
    } else {
      ExactMonotone(c, 3172, mv);
    }
    if mv < 3950 {
      ExactMonotone(c, mv, 3949);
    }
  }
}
