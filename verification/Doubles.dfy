/** Double precision over the reals: which numbers are doubles, what rounding keeps, and
    round-half-even as one rounding that does. Overflow and subnormals are not represented. */
module Doubles {

  const TWO52: nat := 0x10_0000_0000_0000
  const TWO53: nat := 0x20_0000_0000_0000

  function Pow(e: int): (p: real)
    ensures p > 0.0
    decreases if e < 0 then -e else e
  {
    if e == 0 then 1.0 else if e > 0 then 2.0 * Pow(e - 1) else Pow(e + 1) / 2.0
  }

  lemma PowNext(e: int)
    ensures Pow(e + 1) == 2.0 * Pow(e)
  {}

  /** A significand fills 53 bits. */
  predicate Significand(k: nat) {
    TWO52 <= k < TWO53
  }

  function Scaled(k: nat, e: int): (x: real) {
    k as real * Pow(e)
  }

  /** Zero, or a significand times a power of two. */
  ghost predicate IsDouble(x: real) {
    x == 0.0 || exists k: nat, e: int :: Significand(k) && x == Scaled(k, e)
  }

  /** What every rounding direction of the hardware guarantees: order is kept, results are doubles,
      and doubles are left alone. */
  ghost predicate Rounding(fl: real -> real) {
    && (forall x, y :: x <= y ==> fl(x) <= fl(y))
    && (forall x :: x >= 0.0 ==> IsDouble(fl(x)))
    && (forall x :: IsDouble(x) ==> fl(x) == x)
  }

  lemma Ordered(fl: real -> real, x: real, y: real)
    requires Rounding(fl) && x <= y
    ensures fl(x) <= fl(y)
  {}

  lemma Fixed(fl: real -> real, x: real)
    requires Rounding(fl) && IsDouble(x)
    ensures fl(x) == x
  {}

  lemma Lands(fl: real -> real, x: real)
    requires Rounding(fl) && x >= 0.0
    ensures IsDouble(fl(x))
  {}

  /** The real product, before rounding. */
  function Times(x: real, y: real): (p: real) {
    x * y
  }

  // ---- Scaling ----

  lemma ScaledTwice(k: nat, e: int)
    ensures Scaled(k, e + 1) == 2.0 * Scaled(k, e)
  {
    PowNext(e);
  }

  lemma DoubleTwice(x: real)
    ensures IsDouble(x) <==> IsDouble(2.0 * x)
  {
    if IsDouble(x) && x != 0.0 {
      var k: nat, e: int :| Significand(k) && x == Scaled(k, e);
      ScaledTwice(k, e);
    }
    if IsDouble(2.0 * x) && x != 0.0 {
      var k: nat, e: int :| Significand(k) && 2.0 * x == Scaled(k, e);
      ScaledTwice(k, e - 1);
      assert x == Scaled(k, e - 1);
    }
  }

  /** The whole numbers a significand can count to, and one more, are doubles. */
  lemma {:induction false} SmallExact(n: nat)
    requires n <= TWO53
    ensures IsDouble(n as real)
    decreases TWO53 - n
  {
    if n == TWO53 {
      assert IsDouble(TWO52 as real) by {
        assert TWO52 as real == Scaled(TWO52, 0);
      }
      DoubleTwice(TWO52 as real);
    } else if n >= TWO52 {
      assert n as real == Scaled(n, 0);
    } else if n > 0 {
      SmallExact(2 * n);
      DoubleTwice(n as real);
    }
  }

  /** The next double up from `k * 2^e` is `(k + 1) * 2^e`. */
  lemma NextUp(k: nat, e: int)
    requires Significand(k)
    ensures IsDouble(Scaled(k + 1, e))
  {
    if k + 1 == TWO53 {
      ScaledTwice(TWO52, e);
      assert Scaled(k + 1, e) == Scaled(TWO52, e + 1);
    }
  }

  lemma PowOrdered(a: int, b: int)
    requires a <= b
    ensures Pow(a) <= Pow(b)
    decreases b - a
  {
    if a < b {
      PowOrdered(a, b - 1);
      PowNext(b - 1);
    }
  }

  lemma {:induction false} PowWhole(e: nat) returns (n: nat)
    ensures Pow(e) == n as real
  {
    if e == 0 {
      n := 1;
    } else {
      var half := PowWhole(e - 1);
      n := 2 * half;
    }
  }

  lemma Product(a: real, b: real)
    requires a >= 0.0 && b >= 0.0
    ensures a * b >= 0.0
  {}

  /** From 2^53 on, doubles are whole numbers. */
  lemma WholeAbove(x: real)
    requires IsDouble(x) && x >= TWO53 as real
    ensures x.Floor as real == x
  {
    var k: nat, e: int :| Significand(k) && x == Scaled(k, e);
    if e <= 0 {
      PowOrdered(e, 0);
      ScaledBelow(k, k, Pow(e), 1.0);
      assert false;
    }
    var n := PowWhole(e);
    assert x == (k * n) as real;
  }

  /** 2^-52, by how much the first double above one exceeds it. */
  function Ulp(): (u: real)
    ensures u * TWO52 as real == 1.0
  {
    1.0 / TWO52 as real
  }

  lemma PowUlp()
    ensures Pow(-52) == Ulp()
  {
    Shrink(-4); Shrink(-8); Shrink(-12); Shrink(-16); Shrink(-20); Shrink(-24); Shrink(-28);
    Shrink(-32); Shrink(-36); Shrink(-40); Shrink(-44); Shrink(-48); Shrink(-52);
  }

  lemma Shrink(e: int)
    ensures Pow(e + 4) == 16.0 * Pow(e)
  {
    PowNext(e);
    PowNext(e + 1);
    PowNext(e + 2);
    PowNext(e + 3);
  }

  lemma AboveOne(m: real)
    requires IsDouble(m) && m > 1.0
    ensures m >= 1.0 + Ulp()
  {
    hide Pow, IsDouble;
    var k, e := Parts(m);
    if e < -52 {
      ExponentTooLow(k, e);
      assert false;
    } else if e == -52 {
      FirstAboveOne(k);
    } else {
      ExponentHigher(k, e);
    }
  }

  lemma ExponentTooLow(k: nat, e: int)
    requires Significand(k) && e < -52
    ensures Scaled(k, e) <= 1.0
  {
    hide Pow;
    PowUlp();
    PowNext(-53);
    PowOrdered(e, -53);
    ScaledBelow(k, TWO53, Pow(e), Pow(-53));
  }

  lemma FirstAboveOne(k: nat)
    requires Significand(k) && Scaled(k, -52) > 1.0
    ensures Scaled(k, -52) >= 1.0 + Ulp()
  {
    hide Pow, Ulp;
    PowUlp();
    if k > TWO52 {
      ScaledBelow(TWO52 + 1, k, Ulp(), Ulp());
    }
  }

  lemma ExponentHigher(k: nat, e: int)
    requires Significand(k) && e > -52
    ensures Scaled(k, e) >= 1.0 + Ulp()
  {
    hide Pow;
    PowUlp();
    PowNext(-52);
    PowOrdered(-51, e);
    ScaledBelow(TWO52, k, Pow(-51), Pow(e));
  }

  lemma ScaledBelow(j: nat, k: nat, p: real, q: real)
    requires j <= k && 0.0 <= p <= q
    ensures j as real * p <= k as real * q
  {
    Product(j as real, q - p);
    Product((k - j) as real, q);
    assert j as real * q == j as real * p + j as real * (q - p);
    assert k as real * q == j as real * q + (k - j) as real * q;
  }

  // ---- Rounding and growing ----

  /** A number of at least one rounds to a double whose successor is no smaller than it. */
  lemma WithinOneStep(fl: real -> real, x: real) returns (k: nat, e: int)
    requires Rounding(fl) && x >= 1.0
    ensures Significand(k) && fl(x) == Scaled(k, e) && IsDouble(Scaled(k + 1, e)) && x <= Scaled(k + 1, e)
  {
    hide Rounding, IsDouble;
    SmallExact(1);
    Fixed(fl, 1.0);
    Ordered(fl, 1.0, x);
    Lands(fl, x);
    k, e := Parts(fl(x));
    NextUp(k, e);
    Fixed(fl, Scaled(k + 1, e));
    assert Scaled(k + 1, e) == Scaled(k, e) + Pow(e);
    if x > Scaled(k + 1, e) {
      Ordered(fl, Scaled(k + 1, e), x);
      assert false;
    }
  }

  lemma Parts(x: real) returns (k: nat, e: int)
    requires IsDouble(x) && x > 0.0
    ensures Significand(k) && x == Scaled(k, e)
  {
    k, e :| Significand(k) && x == Scaled(k, e);
  }

  /** Growing by a factor above one makes up for whatever rounding took off. */
  lemma GrowthWins(fl: real -> real, x: real, m: real)
    requires Rounding(fl) && x >= 1.0 && m >= 1.0 + Ulp()
    ensures fl(Times(fl(x), m)) >= x
  {
    hide Rounding, IsDouble;
    var k, e := WithinOneStep(fl, x);
    StepUp(k, e, m);
    Ordered(fl, Scaled(k + 1, e), Times(fl(x), m));
    Fixed(fl, Scaled(k + 1, e));
  }

  lemma StepUp(k: nat, e: int, m: real)
    requires Significand(k) && m >= 1.0 + Ulp()
    ensures Times(Scaled(k, e), m) >= Scaled(k + 1, e)
  {
    var p, u := Pow(e), Ulp();
    Product(k as real * p, m - 1.0 - u);
    Product((k - TWO52) as real * u, p);
    assert k as real * u == 1.0 + (k - TWO52) as real * u;
    assert k as real * p * m == k as real * p + k as real * u * p + k as real * p * (m - 1.0 - u);
    assert Scaled(k + 1, e) == k as real * p + p;
  }

  /** Rounding a whole number gives a whole number. */
  lemma WholeRounded(fl: real -> real, n: nat)
    requires Rounding(fl)
    ensures fl(n as real).Floor as real == fl(n as real) >= 0.0
  {
    hide Rounding, IsDouble;
    SmallExact(0);
    Fixed(fl, 0.0);
    Ordered(fl, 0.0, n as real);
    if n <= TWO53 {
      SmallExact(n);
      Fixed(fl, n as real);
    } else {
      SmallExact(TWO53);
      Fixed(fl, TWO53 as real);
      Ordered(fl, TWO53 as real, n as real);
      Lands(fl, n as real);
      WholeAbove(fl(n as real));
    }
  }

  /** Rounding twice is rounding once. */
  lemma RoundedOnce(fl: real -> real, x: real)
    requires Rounding(fl) && x >= 0.0
    ensures fl(fl(x)) == fl(x)
  {
    hide IsDouble;
    Lands(fl, x);
    Fixed(fl, fl(x));
  }

  // ---- Round half to even ----

  /** The nearest whole number, the even one of two equally near. */
  function Nearest(x: real): (n: int)
    ensures x.Floor <= n <= x.Floor + 1
    ensures x == x.Floor as real ==> n == x.Floor
  {
    var f := x.Floor;
    var r := x - f as real;
    if r < 0.5 || (r == 0.5 && f % 2 == 0) then f else f + 1
  }

  lemma NearestOrdered(x: real, y: real)
    requires x <= y
    ensures Nearest(x) <= Nearest(y)
  {}

  /** How far a number is from having its unit in the last place at one. */
  function Distance(x: real): (d: nat)
    requires x > 0.0
  {
    if x >= TWO53 as real then x.Floor
    else if x < TWO52 as real then Inverse(x)
    else 0
  }

  function Inverse(x: real): (d: nat)
    requires 0.0 < x < TWO52 as real
    ensures d as real <= TWO52 as real / x < d as real + 1.0 && d >= 1
  {
    Quotient(x);
    (TWO52 as real / x).Floor
  }

  lemma Quotient(x: real)
    requires 0.0 < x < TWO52 as real
    ensures TWO52 as real / x > 1.0
  {
    var q := TWO52 as real / x;
    assert q * x == TWO52 as real;
    assert (1.0 - q) * x == x - q * x;
    if q <= 1.0 {
      Product(1.0 - q, x);
      assert false;
    }
  }

  lemma Halved(x: real)
    requires 0.0 < x && 2.0 * x < TWO52 as real
    ensures Inverse(2.0 * x) < Inverse(x)
  {
    var q := TWO52 as real / x;
    assert TWO52 as real / (2.0 * x) == q / 2.0;
  }

  /** Double precision with ties to even; negative numbers do not occur and give zero. */
  function HalfEven(x: real): (r: real)
    decreases if x > 0.0 then Distance(x) else 0
  {
    if x <= 0.0 then 0.0
    else if x >= TWO53 as real then 2.0 * HalfEven(x / 2.0)
    else if x < TWO52 as real then
      if 2.0 * x < TWO52 as real then Halved(x); HalfEven(2.0 * x) / 2.0
      else HalfEven(2.0 * x) / 2.0
    else Nearest(x) as real
  }

  lemma HalfEvenTwice(x: real)
    ensures HalfEven(2.0 * x) == 2.0 * HalfEven(x)
  {
    assert 2.0 * x / 2.0 == x;
  }

  /** Moving towards the numbers with unit one shortens the distance. */
  lemma Closer(x: real)
    requires x > 0.0
    ensures x >= TWO53 as real ==> Distance(x / 2.0) < Distance(x)
    ensures x < TWO52 as real ==> Distance(2.0 * x) < Distance(x)
  {
    if 2.0 * x < TWO52 as real {
      Halved(x);
    }
  }

  lemma {:induction false} HalfEvenHigh(x: real)
    requires x >= TWO53 as real
    ensures HalfEven(x) >= TWO53 as real
    decreases Distance(x)
  {
    hide Distance;
    Closer(x);
    if x / 2.0 >= TWO53 as real {
      HalfEvenHigh(x / 2.0);
    }
  }

  lemma {:induction false} HalfEvenOrdered(x: real, y: real)
    requires 0.0 < x <= y
    ensures HalfEven(x) <= HalfEven(y)
    decreases Distance(x)
  {
    hide Distance, HalfEven;
    Closer(x);
    if x >= TWO53 as real {
      HalfEvenOrdered(x / 2.0, y / 2.0);
      HalfEvenTwice(x / 2.0);
      HalfEvenTwice(y / 2.0);
    } else if x < TWO52 as real {
      HalfEvenOrdered(2.0 * x, 2.0 * y);
      HalfEvenTwice(x);
      HalfEvenTwice(y);
    } else {
      AtUnit(x);
      if y < TWO53 as real {
        AtUnit(y);
        NearestOrdered(x, y);
      } else {
        HalfEvenHigh(y);
      }
    }
  }

  lemma AtUnit(x: real)
    requires TWO52 as real <= x < TWO53 as real
    ensures HalfEven(x) == Nearest(x) as real && TWO52 <= Nearest(x) <= TWO53
  {}

  lemma {:induction false} HalfEvenLands(x: real)
    requires x > 0.0
    ensures IsDouble(HalfEven(x)) && HalfEven(x) >= 0.0
    decreases Distance(x)
  {
    hide Distance, HalfEven, IsDouble;
    Closer(x);
    if x >= TWO53 as real {
      HalfEvenLands(x / 2.0);
      HalfEvenTwice(x / 2.0);
      DoubleTwice(HalfEven(x / 2.0));
    } else if x < TWO52 as real {
      HalfEvenLands(2.0 * x);
      HalfEvenTwice(x);
      DoubleTwice(HalfEven(x));
    } else {
      AtUnit(x);
      SmallExact(Nearest(x));
    }
  }

  lemma {:induction false} HalfEvenFixes(k: nat, e: int)
    requires Significand(k)
    ensures HalfEven(Scaled(k, e)) == Scaled(k, e)
    decreases if e < 0 then -e else e
  {
    hide HalfEven;
    if e == 0 {
      AtUnit(k as real);
    } else if e > 0 {
      HalfEvenFixes(k, e - 1);
      ScaledTwice(k, e - 1);
      HalfEvenTwice(Scaled(k, e - 1));
    } else {
      HalfEvenFixes(k, e + 1);
      ScaledTwice(k, e);
      HalfEvenTwice(Scaled(k, e));
    }
  }

  /** Ties-to-even is a rounding, so all that is said of roundings is said of it. */
  lemma HalfEvenRounds()
    ensures Rounding(HalfEven)
  {
    hide Scaled;
    forall x, y | x <= y ensures HalfEven(x) <= HalfEven(y) {
      if x > 0.0 {
        HalfEvenOrdered(x, y);
      } else if y > 0.0 {
        HalfEvenLands(y);
      }
    }
    forall x | x >= 0.0 ensures IsDouble(HalfEven(x)) {
      if x > 0.0 {
        HalfEvenLands(x);
      }
    }
    forall x | IsDouble(x) ensures HalfEven(x) == x {
      if x != 0.0 {
        var k: nat, e: int :| Significand(k) && x == Scaled(k, e);
        HalfEvenFixes(k, e);
      }
    }
  }

  /** The first whole number that is not a double is rounded down. */
  lemma HalfEvenFirst()
    ensures HalfEven((TWO53 + 1) as real) == TWO53 as real
  {
    var x := (TWO53 + 1) as real;
    assert x / 2.0 == TWO52 as real + 0.5;
    AtUnit(x / 2.0);
    assert Nearest(x / 2.0) == TWO52;
  }
}
