/** Ring indices as 64-bit words that count forever and wrap around. */
module WordIndex {
  import RoundRobin

  const W: nat := 0x1_0000_0000_0000_0000

  function Word(n: nat): (w: nat)
    ensures w < W
  {
    n % W
  }

  /** Unsigned subtraction. */
  function Sub(a: nat, b: nat): (d: nat)
    ensures d < W
  {
    (a - b) % W
  }

  function Pow2(k: nat): (p: nat)
    ensures p > 0
  {
    if k == 0 then 1 else 2 * Pow2(k - 1)
  }

  /** A ring size: a power of two that a word can hold. */
  predicate Capacity(cap: nat) {
    exists k: nat :: k < 64 && cap == Pow2(k)
  }

  lemma {:induction false} Pow2Divides(k: nat, n: nat) returns (q: nat)
    requires k <= n
    ensures Pow2(n) == Pow2(k) * q && q > 0 && (k < n ==> q >= 2)
    decreases n
  {
    if k == n {
      q := 1;
    } else {
      var r := Pow2Divides(k, n - 1);
      q := 2 * r;
    }
  }

  lemma Pow2Of64()
    ensures Pow2(64) == W
  {
    assert Pow2(8) == 256 by { assert Pow2(4) == 16; }
    assert Pow2(16) == 65536 by { assert Pow2(12) == 16 * Pow2(8); }
    assert Pow2(32) == 65536 * Pow2(16) by { Step16(16); }
    assert Pow2(48) == 65536 * Pow2(32) by { Step16(32); }
    assert Pow2(64) == 65536 * Pow2(48) by { Step16(48); }
  }

  lemma Step16(k: nat)
    ensures Pow2(k + 16) == 65536 * Pow2(k)
  {
    Step4(k);
    Step4(k + 4);
    Step4(k + 8);
    Step4(k + 12);
  }

  lemma Step4(k: nat)
    ensures Pow2(k + 4) == 16 * Pow2(k)
  {
    assert Pow2(k + 2) == 4 * Pow2(k);
    assert Pow2(k + 3) == 2 * Pow2(k + 2);
  }

  /** A capacity divides the word range, which is what makes masking survive wrap-around. */
  lemma CapacityDivides(cap: nat) returns (q: nat)
    requires Capacity(cap)
    ensures 0 < cap < W && W == cap * q
  {
    var k: nat :| k < 64 && cap == Pow2(k);
    Pow2Of64();
    q := Pow2Divides(k, 64);
    assert cap * q >= cap * 2;
  }

  lemma WordOf(n: nat) returns (m: nat)
    ensures n == W * m + Word(n)
  {
    m := n / W;
  }

  /** The wrapped difference of two counters less than a word apart is their true difference. */
  lemma SubOf(p: nat, c: nat)
    requires c <= p < c + W
    ensures Sub(Word(p), Word(c)) == p - c
  {
    var a := WordOf(p);
    var b := WordOf(c);
    var d := Word(p) - Word(c);
    assert p - c == W * (a - b) + d;
    if d >= 0 {
      assert a == b;
    } else {
      assert a == b + 1;
      assert d % W == d + W;
    }
  }

  lemma SmallWord(n: nat)
    requires n < W
    ensures Word(n) == n
  {}

  lemma AddOf(p: nat, n: nat)
    ensures Word(Word(p) + n) == Word(p + n)
  {
    var a := WordOf(p);
    var b := WordOf(Word(p) + n);
    RoundRobin.DivModIs(p + n, W, a + b, Word(Word(p) + n));
  }

  /** Masking a wrapped counter selects the slot of the unwrapped one. */
  lemma SlotOf(n: nat, cap: nat)
    requires Capacity(cap)
    ensures 0 < cap && Word(n) % cap == n % cap
  {
    hide Capacity;
    var q := CapacityDivides(cap);
    var a := WordOf(n);
    var w := Word(n);
    var d, r := w / cap, w % cap;
    assert w == cap * d + r;
    assert W * a == cap * (q * a);
    assert n == cap * (q * a + d) + r;
    RoundRobin.DivModIs(n, cap, q * a + d, r);
  }

  lemma SlotAt(p: nat, i: nat, cap: nat)
    requires Capacity(cap)
    ensures 0 < cap && Word(Word(p) + i) % cap == (p + i) % cap
  {
    AddOf(p, i);
    SlotOf(p + i, cap);
  }

  /** Counters less than a lap apart use different slots. */
  lemma SlotsDiffer(a: nat, b: nat, cap: nat)
    requires b < a < b + cap
    ensures a % cap != b % cap
  {
    var d, e := a / cap, b / cap;
    assert a == cap * d + a % cap && b == cap * e + b % cap;
    assert cap * (d - e) == cap * d - cap * e;
    if a % cap == b % cap {
      if d > e {
        RoundRobin.AtLeast(cap, d - e);
      }
      assert false;
    }
  }
}
