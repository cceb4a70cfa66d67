/** Polynomials over GF(2), written as their coefficients, highest degree first.
    Appending a coefficient `b` to `p` is therefore `p * x + b`. */
module Gf2Poly {

  type Poly = seq<bool>

  function Zeros(n: nat): (z: Poly)
    ensures |z| == n
  {
    seq(n, _ => false)
  }

  /** Addition (and subtraction) of polynomials. */
  function Xor(a: Poly, b: Poly): (c: Poly)
    requires |a| == |b|
    ensures |c| == |a|
  {
    seq(|a|, i requires 0 <= i < |a| => a[i] != b[i])
  }

  /** Product, by Horner's scheme on the first factor: (q * x + t) * g == (q * g) * x + t * g. */
  function Mul(q: Poly, g: Poly): (p: Poly)
    requires g != []
    ensures |p| == |q| + |g| - 1
  {
    if q == [] then Zeros(|g| - 1)
    else
      var k := |q| - 1;
      Xor(Mul(q[..k], g) + [false], Zeros(k) + (if q[k] then g else Zeros(|g|)))
  }

  /** r is what is left of p after subtracting the multiple q of g. */
  ghost predicate Divides(p: Poly, g: Poly, q: Poly, r: Poly)
    requires g != []
  {
    && |r| == |g| - 1
    && |p| == |q| + |r|
    && p == Xor(Mul(q, g), Zeros(|q|) + r)
  }

  /** r has degree below that of g and differs from p by a multiple of g. */
  ghost predicate IsRemainder(p: Poly, g: Poly, r: Poly)
    requires g != []
  {
    exists q: Poly :: Divides(p, g, q, r)
  }

  /** The leading coefficients of a multiple of a monic polynomial determine the factor. */
  lemma {:induction false} LeadingDeterminesFactor(q: Poly, q': Poly, g: Poly)
    requires g != [] && g[0]
    requires |q| == |q'| && Mul(q, g)[..|q|] == Mul(q', g)[..|q|]
    ensures q == q'
  {
    if q != [] {
      var k := |q| - 1;
      var p, p' := Mul(q, g), Mul(q', g);
      forall j | 0 <= j < k
        ensures Mul(q[..k], g)[j] == Mul(q'[..k], g)[j]
      {
        assert p[..|q|][j] == p'[..|q|][j];
      }
      assert Mul(q[..k], g)[..k] == Mul(q'[..k], g)[..k];
      LeadingDeterminesFactor(q[..k], q'[..k], g);
      assert p[..|q|][k] == p'[..|q|][k];
      assert q == q[..k] + [q[k]] && q' == q'[..k] + [q'[k]];
    }
  }

  /** Division by a monic polynomial leaves exactly one remainder. */
  lemma RemainderUnique(p: Poly, g: Poly, r: Poly, r': Poly)
    requires g != [] && g[0]
    requires IsRemainder(p, g, r) && IsRemainder(p, g, r')
    ensures r == r'
  {
    var q: Poly :| Divides(p, g, q, r);
    var q': Poly :| Divides(p, g, q', r');
    var n := |q|;
    forall j | 0 <= j < n
      ensures Mul(q, g)[j] == p[j] && Mul(q', g)[j] == p[j]
    {
    }
    assert Mul(q, g)[..n] == Mul(q', g)[..n];
    LeadingDeterminesFactor(q, q', g);
    forall i | 0 <= i < |r|
      ensures r[i] == r'[i]
    {
      assert p[n + i] == (Mul(q, g)[n + i] != r[i]);
      assert p[n + i] == (Mul(q, g)[n + i] != r'[i]);
    }
  }
}
