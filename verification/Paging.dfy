/** Addresses as page and offset, for a symbolic page size. The definitions recurse instead of dividing, so that
    facts about them need no non-linear arithmetic; `PageIsQuotient` ties them to division. */
module Paging {

  function PageOf(x: nat, n: nat): nat
    requires n > 0
  {
    if x < n then 0 else 1 + PageOf(x - n, n)
  }

  function OffsetIn(x: nat, n: nat): (i: nat)
    requires n > 0
    ensures i < n
  {
    if x < n then x else OffsetIn(x - n, n)
  }

  function Start(p: nat, n: nat): nat {
    if p == 0 then 0 else Start(p - 1, n) + n
  }

  lemma {:induction false} Decompose(x: nat, n: nat)
    requires n > 0
    ensures x == Start(PageOf(x, n), n) + OffsetIn(x, n)
  {
    if x >= n {
      Decompose(x - n, n);
    }
  }

  lemma {:induction false} Recompose(p: nat, i: nat, n: nat)
    requires i < n
    ensures PageOf(Start(p, n) + i, n) == p && OffsetIn(Start(p, n) + i, n) == i
  {
    if p != 0 {
      Recompose(p - 1, i, n);
      assert Start(p, n) + i - n == Start(p - 1, n) + i;
    }
  }

  lemma {:induction false} StartMonotone(p: nat, q: nat, n: nat)
    requires p <= q
    ensures Start(p, n) <= Start(q, n)
    ensures p < q ==> Start(p, n) + n <= Start(q, n)
    decreases q
  {
    if p < q {
      StartMonotone(p, q - 1, n);
    }
  }

  lemma PageMonotone(x: nat, y: nat, n: nat)
    requires n > 0 && x <= y
    ensures PageOf(x, n) <= PageOf(y, n)
  {
    Decompose(x, n);
    Decompose(y, n);
    var p, q := PageOf(y, n), PageOf(x, n);
    if p < q {
      StartMonotone(p, q, n);
    }
  }

  lemma {:induction false} StartIsProduct(p: nat, n: nat)
    ensures Start(p, n) == p * n
  {
    if p != 0 {
      StartIsProduct(p - 1, n);
      assert p * n == (p - 1) * n + n;
    }
  }

  lemma MulGrows(k: nat, n: nat)
    requires k >= 1
    ensures k * n >= n
  {
    assert k * n == (k - 1) * n + n;
  }

  lemma DivideUnique(x: nat, n: nat, q: nat, r: nat)
    requires n > 0 && r < n && x == q * n + r
    ensures x / n == q && x % n == r
  {
    var q', r' := x / n, x % n;
    assert x == q' * n + r';
    if q' < q {
      assert (q - q') * n == q * n - q' * n;
      MulGrows(q - q', n);
    } else if q' > q {
      assert (q' - q) * n == q' * n - q * n;
      MulGrows(q' - q, n);
    }
  }

  lemma PageIsQuotient(x: nat, n: nat)
    requires n > 0
    ensures PageOf(x, n) == x / n && OffsetIn(x, n) == x % n
  {
    Decompose(x, n);
    StartIsProduct(PageOf(x, n), n);
    DivideUnique(x, n, PageOf(x, n), OffsetIn(x, n));
  }

  /** The addresses of one page, from its start on. */
  lemma InPage(x: nat, p: nat, n: nat)
    requires n > 0
    ensures PageOf(x, n) == p <==> Start(p, n) <= x < Start(p, n) + n
    ensures PageOf(x, n) == p ==> OffsetIn(x, n) == x - Start(p, n)
  {
    Decompose(x, n);
    if Start(p, n) <= x < Start(p, n) + n {
      Recompose(p, x - Start(p, n), n);
    }
  }
}
