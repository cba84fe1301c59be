/** How evenly a round-robin index spreads: counts of a residue over a run of consecutive numbers. */
module RoundRobin {

  function One(hit: bool): (n: nat) {
    if hit then 1 else 0
  }

  /** How many `i` with `lo <= i < lo + n` have remainder `j` modulo `q`. */
  function Count(lo: nat, n: nat, q: nat, j: nat): (c: nat)
    requires q > 0
  {
    if n == 0 then 0 else Count(lo, n - 1, q, j) + One((lo + n - 1) % q == j)
  }

  lemma {:induction false} CountSplit(lo: nat, m: nat, n: nat, q: nat, j: nat)
    requires q > 0
    ensures Count(lo, m + n, q, j) == Count(lo, m, q, j) + Count(lo + m, n, q, j)
  {
    if n > 0 {
      CountSplit(lo, m, n - 1, q, j);
      assert lo + (m + n) - 1 == (lo + m) + n - 1;
    }
  }

  lemma {:induction false} CountBelow(n: nat, q: nat, j: nat)
    requires j < q && n <= q
    ensures Count(0, n, q, j) == One(j < n)
  {
    if n > 0 {
      CountBelow(n - 1, q, j);
      Small(n - 1, q);
    }
  }

  lemma Small(i: nat, q: nat)
    requires i < q
    ensures i % q == i
  {}

  lemma AtLeast(q: nat, k: nat)
    requires k >= 1
    ensures q * k >= q
  {
    assert q * k == q * (k - 1) + q;
  }

  /** Quotient and remainder are determined by the division equation. */
  lemma DivModIs(v: nat, q: nat, d: nat, r: nat)
    requires r < q && v == q * d + r
    ensures v / q == d && v % q == r
  {
    var e, s := v / q, v % q;
    assert q * e + s == q * d + r;
    assert q * d == q * e + q * (d - e);
    assert q * e == q * d + q * (e - d);
    if e < d {
      AtLeast(q, d - e);
    } else if e > d {
      AtLeast(q, e - d);
    }
  }

  lemma AddPeriod(i: nat, q: nat)
    requires q > 0
    ensures (i + q) % q == i % q && (i + q) / q == i / q + 1
  {
    assert q * (i / q + 1) == q * (i / q) + q;
    DivModIs(i + q, q, i / q + 1, i % q);
  }

  /** Any `q` consecutive numbers hit every residue exactly once. */
  lemma {:induction false} Window(lo: nat, q: nat, j: nat)
    requires j < q
    ensures Count(lo, q, q, j) == 1
  {
    if lo == 0 {
      CountBelow(q, q, j);
    } else {
      Window(lo - 1, q, j);
      CountSplit(lo - 1, 1, q, q, j);
      CountSplit(lo - 1, q, 1, q, j);
      AddPeriod(lo - 1, q);
      Single(lo - 1, q, j);
      Single(lo - 1 + q, q, j);
    }
  }

  lemma Single(lo: nat, q: nat, j: nat)
    requires q > 0
    ensures Count(lo, 1, q, j) == One(lo % q == j)
  {
    assert Count(lo, 0, q, j) == 0;
    assert lo + 1 - 1 == lo;
  }

  /** Over any run each residue is hit the floor or the ceiling of its even share. */
  lemma {:induction false} Fair(lo: nat, n: nat, q: nat, j: nat)
    requires j < q
    ensures n / q <= Count(lo, n, q, j) <= n / q + One(n % q != 0)
    decreases n
  {
    if n < q {
      SmallRun(n, q);
      Window(lo, q, j);
      CountSplit(lo, n, q - n, q, j);
      if n == 0 {
        assert Count(lo, 0, q, j) == 0;
      }
    } else {
      Window(lo, q, j);
      CountSplit(lo, q, n - q, q, j);
      Fair(lo + q, n - q, q, j);
      AddPeriod(n - q, q);
    }
  }

  lemma SmallRun(n: nat, q: nat)
    requires n < q
    ensures n / q == 0 && n % q == n
  {}
}
