/** Exponential backoff: the delay sequence, its cap and its attempt budget. Times are whole
    milliseconds. Growth is computed in double precision, given as a rounding of the reals. */
module Backoff {
  import opened Basics
  import opened Options
  import opened Doubles

  const INT64_MAX: nat := 0x7FFF_FFFF_FFFF_FFFF
  const TWO63: real := 9223372036854775808.0

  /** `maxAttempts == 0` means no budget. */
  datatype Config = Config(initial: int, max: int, multiplier: real, jitter: real, maxAttempts: nat)

  /** The delays are 64-bit, the factor a double. */
  ghost predicate Representable(c: Config) {
    && c.initial <= INT64_MAX && c.max <= INT64_MAX && c.maxAttempts < WRAP32
    && (c.multiplier < 0.0 || IsDouble(c.multiplier))
  }

  /** What construction leaves of a configuration. */
  function Sanitized(c: Config): (r: Config)
    requires Representable(c)
    ensures Sane(r)
    ensures Sane(c) ==> r == c
    ensures r.initial == if c.initial >= 1 then c.initial else 100
    ensures r.max == if c.max >= r.initial then c.max else r.initial
    ensures r.multiplier == if c.multiplier >= 1.0 then c.multiplier else 2.0
    ensures r.jitter == if c.jitter < 0.0 then 0.0 else if c.jitter < 1.0 then c.jitter else 0.999
    ensures r.maxAttempts == c.maxAttempts
  {
    var initial := if c.initial <= 0 then 100 else c.initial;
    SmallExact(2);
    Config(initial,
           if c.max < initial then initial else c.max,
           if c.multiplier < 1.0 then 2.0 else c.multiplier,
           if c.jitter < 0.0 then 0.0 else if c.jitter >= 1.0 then 0.999 else c.jitter,
           c.maxAttempts)
  }

  ghost predicate Sane(c: Config) {
    Representable(c) && 0 < c.initial <= c.max && c.multiplier >= 1.0 && 0.0 <= c.jitter < 1.0
  }

  // ---- The base delay ----

  /** A product in double precision, truncated, saturated at 64 bits and cut at the cap. */
  function Cut(c: Config, scaled: real): (r: int) {
    Min(if scaled >= TWO63 then INT64_MAX else scaled.Floor, c.max)
  }

  function Grown(fl: real -> real, c: Config, base: int): (r: int) {
    Cut(c, fl(Times(fl(base as real), c.multiplier)))
  }

  /** The base delay after `n` attempts since the last reset. */
  function Base(fl: real -> real, c: Config, n: nat): (b: int) {
    if n == 0 then c.initial else Grown(fl, c, Base(fl, c, n - 1))
  }

  lemma BaseNext(fl: real -> real, c: Config, n: nat)
    ensures Base(fl, c, n + 1) == Grown(fl, c, Base(fl, c, n))
  {}

  lemma Scales(b: real, m: real)
    requires b >= 0.0 && m >= 1.0
    ensures Times(b, m) >= b
  {
    Product(b, m - 1.0);
    assert b * m == b + b * (m - 1.0);
  }

  /** A factor above one never shrinks a delay, whatever rounding does to it. */
  lemma GrownUp(fl: real -> real, c: Config, base: int)
    requires Rounding(fl) && Sane(c) && c.multiplier > 1.0 && 1 <= base <= c.max
    ensures base <= Grown(fl, c, base) <= c.max
  {
    hide Rounding, IsDouble, Times;
    AboveOne(c.multiplier);
    GrowthWins(fl, base as real, c.multiplier);
  }

  /** With factor one an advance only rounds. */
  lemma GrownOnce(fl: real -> real, c: Config, base: int)
    requires Rounding(fl) && Sane(c) && c.multiplier == 1.0 && base >= 0
    ensures Grown(fl, c, base) == Cut(c, fl(base as real))
  {
    hide Rounding, IsDouble;
    RoundedOnce(fl, base as real);
    assert Times(fl(base as real), 1.0) == fl(base as real);
  }

  /** Rounding up once is rounding up for good. */
  lemma ConstantKeepsUp(fl: real -> real, c: Config, base: int)
    requires Rounding(fl) && Sane(c) && c.multiplier == 1.0 && 1 <= base <= c.max
    requires fl(base as real) >= base as real
    ensures var g := Grown(fl, c, base); base <= g <= c.max && fl(g as real) >= g as real
  {
    hide Rounding, IsDouble, Grown;
    GrownOnce(fl, c, base);
    WholeRounded(fl, base);
    RoundedOnce(fl, base as real);
    Ordered(fl, base as real, c.max as real);
  }

  /** Where no rounding is needed and 64 bits suffice, a base grows by exactly the factor, the fraction
      dropped, and stops at the cap. */
  lemma GrowthExact(fl: real -> real, c: Config, base: int)
    requires Rounding(fl) && Sane(c) && base >= 0
    requires fl(base as real) == base as real
    requires var x := base as real * c.multiplier; fl(x) == x && x < TWO63
    ensures Grown(fl, c, base) == Min((base as real * c.multiplier).Floor, c.max)
  {
    hide Rounding, IsDouble;
    assert Times(base as real, c.multiplier) == base as real * c.multiplier;
  }

  /** Whether the code as written keeps the delays from shrinking. */
  predicate HoldsUp(fl: real -> real, c: Config) {
    c.multiplier != 1.0 || fl(c.initial as real) >= c.initial as real
  }

  lemma {:induction false} NeverShrinks(fl: real -> real, c: Config, n: nat)
    requires Rounding(fl) && Sane(c) && HoldsUp(fl, c)
    ensures c.initial <= Base(fl, c, n) <= Base(fl, c, n + 1) <= c.max
    ensures c.multiplier == 1.0 ==> fl(Base(fl, c, n) as real) >= Base(fl, c, n) as real
  {
    hide Rounding, IsDouble, Grown;
    if n > 0 {
      NeverShrinks(fl, c, n - 1);
    }
    var base := Base(fl, c, n);
    if c.multiplier == 1.0 {
      if n > 0 {
        ConstantKeepsUp(fl, c, Base(fl, c, n - 1));
      }
      ConstantKeepsUp(fl, c, base);
    } else {
      GrownUp(fl, c, base);
    }
  }

  /** The delays never shrink, at any cap, if and only if the factor is above one or the initial
      delay is not rounded down. */
  lemma BaseMonotone(fl: real -> real, c: Config)
    requires Rounding(fl) && Sane(c)
    ensures (forall n: nat :: Base(fl, c, n) <= Base(fl, c, n + 1)) <==> HoldsUp(fl, c)
  {
    hide Rounding, IsDouble, Grown;
    if HoldsUp(fl, c) {
      forall n: nat ensures Base(fl, c, n) <= Base(fl, c, n + 1) {
        NeverShrinks(fl, c, n);
      }
    } else {
      BaseNext(fl, c, 0);
      GrownOnce(fl, c, c.initial);
      assert Base(fl, c, 0) > Base(fl, c, 0 + 1);
    }
  }

  /** So a constant delay of 2^53 + 1 shrinks at the first advance when ties go to even. */
  lemma ConstantShrinks(c: Config)
    requires Sane(c) && c.multiplier == 1.0 && c.initial == TWO53 + 1
    ensures Rounding(HalfEven) && !HoldsUp(HalfEven, c)
    ensures Base(HalfEven, c, 1) == TWO53 < Base(HalfEven, c, 0)
  {
    hide Rounding, IsDouble, Grown, HalfEven;
    HalfEvenRounds();
    HalfEvenFirst();
    BaseNext(HalfEven, c, 0);
    GrownOnce(HalfEven, c, c.initial);
  }

  /** Doubling a double is exact. */
  lemma GrownTwice(fl: real -> real, c: Config, base: int)
    requires Rounding(fl) && Sane(c) && c.multiplier == 2.0 && base >= 0
    ensures Grown(fl, c, base) == Cut(c, 2.0 * fl(base as real))
  {
    hide Rounding, IsDouble;
    var b := fl(base as real);
    Lands(fl, base as real);
    DoubleTwice(b);
    Fixed(fl, 2.0 * b);
    assert Times(b, 2.0) == 2.0 * b;
  }

  /** `x` doubled `n` times. */
  function Twice(x: nat, n: nat): (r: nat)
    ensures r >= x
  {
    if n == 0 then x else 2 * Twice(x, n - 1)
  }

  /** Whether doubling from the initial delay meets no rounding before the cap. */
  predicate DoublesExactly(fl: real -> real, c: Config) {
    || fl(c.initial as real) == c.initial as real
    || (c.max <= 2 * c.initial && c.max as real <= 2.0 * fl(c.initial as real))
  }

  lemma CapStays(fl: real -> real, c: Config)
    requires Rounding(fl) && Sane(c) && c.multiplier == 2.0
    ensures Grown(fl, c, c.max) == c.max
  {
    hide Grown, Rounding, IsDouble;
    GrownUp(fl, c, c.max);
  }

  lemma {:induction false} TwiceDouble(x: nat, n: nat)
    requires IsDouble(x as real)
    ensures IsDouble(Twice(x, n) as real)
  {
    hide IsDouble;
    if n > 0 {
      TwiceDouble(x, n - 1);
      DoubleTwice(Twice(x, n - 1) as real);
      assert Twice(x, n) as real == 2.0 * Twice(x, n - 1) as real;
    }
  }

  lemma {:induction false} DoubledAt(fl: real -> real, c: Config, n: nat)
    requires Rounding(fl) && Sane(c) && c.multiplier == 2.0 && DoublesExactly(fl, c)
    ensures Base(fl, c, n) == Min(Twice(c.initial, n), c.max)
  {
    hide Grown, Rounding, IsDouble;
    if n > 0 {
      DoubledAt(fl, c, n - 1);
      BaseNext(fl, c, n - 1);
      var x := Twice(c.initial, n - 1);
      if x >= c.max {
        CapStays(fl, c);
      } else {
        GrownTwice(fl, c, x);
        if fl(c.initial as real) == c.initial as real {
          Lands(fl, c.initial as real);
          TwiceDouble(c.initial, n - 1);
          Fixed(fl, x as real);
        }
      }
    }
  }

  /** With the classic factor the base is the initial delay doubled at every attempt and cut at the
      cap, whatever the cap, if and only if that delay is a double or the cap is reached at once. */
  lemma DoublingExact(fl: real -> real, c: Config)
    requires Rounding(fl) && Sane(c) && c.multiplier == 2.0
    ensures (forall n: nat :: Base(fl, c, n) == Min(Twice(c.initial, n), c.max)) <==> DoublesExactly(fl, c)
  {
    hide Grown, Rounding, IsDouble, Base, Twice, DoublesExactly;
    if DoublesExactly(fl, c) {
      forall n: nat ensures Base(fl, c, n) == Min(Twice(c.initial, n), c.max) {
        DoubledAt(fl, c, n);
      }
    } else {
      FirstDoublingOff(fl, c);
    }
  }

  lemma FirstDoublingOff(fl: real -> real, c: Config)
    requires Rounding(fl) && Sane(c) && c.multiplier == 2.0 && !DoublesExactly(fl, c)
    ensures Base(fl, c, 1) != Min(Twice(c.initial, 1), c.max)
  {
    hide Grown, Rounding, IsDouble, Cut, Base, Twice, Representable;
    GrownTwice(fl, c, c.initial);
    WholeRounded(fl, c.initial);
    FirstBase(fl, c);
    CutElsewhere(c, fl(c.initial as real).Floor);
  }

  lemma CutElsewhere(c: Config, x: int)
    requires x >= 0 && c.initial <= c.max && x != c.initial && !(c.max <= 2 * c.initial && c.max <= 2 * x)
    ensures Cut(c, 2.0 * x as real) != Min(2 * c.initial, c.max)
  {
    assert 2.0 * x as real == (2 * x) as real;
  }

  lemma FirstBase(fl: real -> real, c: Config)
    requires Sane(c)
    ensures Base(fl, c, 1) == Grown(fl, c, c.initial) && Twice(c.initial, 1) == 2 * c.initial
  {
    hide Grown;
    BaseNext(fl, c, 0);
    assert Twice(c.initial, 0) == c.initial;
  }

  /** With factor one the delay is constant if and only if the initial delay is a double, or is
      rounded up with no room below the cap. */
  lemma ConstantExact(fl: real -> real, c: Config)
    requires Rounding(fl) && Sane(c) && c.multiplier == 1.0
    ensures (forall n: nat :: Base(fl, c, n) == c.initial) <==>
            fl(c.initial as real) == c.initial as real
            || (fl(c.initial as real) > c.initial as real && c.max == c.initial)
  {
    hide Grown, Rounding, IsDouble;
    var x := fl(c.initial as real);
    GrownOnce(fl, c, c.initial);
    WholeRounded(fl, c.initial);
    BaseNext(fl, c, 0);
    if Grown(fl, c, c.initial) == c.initial {
      forall n: nat ensures Base(fl, c, n) == c.initial {
        StaysThere(fl, c, n);
      }
    } else {
      assert Base(fl, c, 0 + 1) != c.initial;
    }
  }

  lemma {:induction false} StaysThere(fl: real -> real, c: Config, n: nat)
    requires Grown(fl, c, c.initial) == c.initial
    ensures Base(fl, c, n) == c.initial
  {
    hide Grown;
    if n > 0 {
      StaysThere(fl, c, n - 1);
    }
  }

  // ---- Jitter ----

  /** The ends of the jitter interval as the code computes them. */
  function Low(fl: real -> real, c: Config, base: int): (x: real) {
    fl(Times(fl(base as real), fl(1.0 - c.jitter)))
  }

  function High(fl: real -> real, c: Config, base: int): (x: real) {
    fl(Times(fl(base as real), fl(1.0 + c.jitter)))
  }

  /** The random number generator, asked for a number between two others. */
  type Draw = (real, real) -> real

  ghost predicate InRange(draw: Draw) {
    forall lo, hi :: lo <= hi ==> lo <= draw(lo, hi) <= hi
  }

  /** A delay drawn around `base`: itself without jitter, otherwise within the interval, truncated. */
  predicate Within(fl: real -> real, c: Config, base: int, delay: int) {
    if base <= 0 || c.jitter == 0.0 then delay == base
    else
      && 0 <= delay <= INT64_MAX && delay as real <= High(fl, c, base)
      && (Low(fl, c, base) - 1.0 < delay as real || delay == INT64_MAX)
  }

  /** The delay is what was drawn from the interval, less a fraction, and the largest there is when
      that does not fit 64 bits; the base itself without jitter. */
  predicate DrawnFrom(fl: real -> real, c: Config, base: int, draw: Draw, delay: int) {
    if base <= 0 || c.jitter == 0.0 then delay == base
    else
      var x := draw(Low(fl, c, base), High(fl, c, base));
      if x >= TWO63 then delay == INT64_MAX else delay as real <= x < delay as real + 1.0
  }

  /** Draw from the jitter interval, truncate, and saturate at 64 bits. */
  method ApplyJitter(fl: real -> real, c: Config, base: int, draw: Draw) returns (delay: int)
    requires Rounding(fl) && Sane(c) && InRange(draw)
    ensures DrawnFrom(fl, c, base, draw, delay)
    ensures Within(fl, c, base, delay)
  {
    hide Low, High, Rounding, IsDouble;
    if base <= 0 || c.jitter == 0.0 {
      return base;
    }
    var low, high := Low(fl, c, base), High(fl, c, base);
    Interval(fl, c, base);
    var sample := draw(low, high);
    if sample >= TWO63 {
      return INT64_MAX;
    }
    delay := sample.Floor;
  }

  /** The interval is one, and lies around the base if that is a double. */
  lemma Interval(fl: real -> real, c: Config, base: int)
    requires Rounding(fl) && Sane(c) && base >= 0
    ensures 0.0 <= Low(fl, c, base) <= High(fl, c, base)
    ensures fl(base as real) == base as real ==> Low(fl, c, base) <= base as real <= High(fl, c, base)
  {
    hide Rounding, Times, IsDouble;
    var b, l, h := fl(base as real), fl(1.0 - c.jitter), fl(1.0 + c.jitter);
    SmallExact(0);
    SmallExact(1);
    Fixed(fl, 0.0);
    Fixed(fl, 1.0);
    Ordered(fl, 0.0, base as real);
    Ordered(fl, 0.0, 1.0 - c.jitter);
    Ordered(fl, 1.0 - c.jitter, 1.0);
    Ordered(fl, 1.0, 1.0 + c.jitter);
    RoundedProducts(fl, b, l, h);
  }

  /** Where no rounding is needed the ends lie exactly the jitter factor below and above the base. */
  lemma IntervalExact(fl: real -> real, c: Config, base: int, low: real, high: real)
    requires fl(base as real) == base as real
    requires fl(1.0 - c.jitter) == 1.0 - c.jitter && fl(1.0 + c.jitter) == 1.0 + c.jitter
    requires low == base as real - base as real * c.jitter && fl(low) == low
    requires high == base as real + base as real * c.jitter && fl(high) == high
    ensures Low(fl, c, base) == low && High(fl, c, base) == high
  {
    Spelled(base as real, c.jitter, low, high);
    hide Times;
  }

  lemma Spelled(b: real, j: real, low: real, high: real)
    requires low == b - b * j && high == b + b * j
    ensures Times(b, 1.0 - j) == low && Times(b, 1.0 + j) == high
  {}

  lemma RoundedProducts(fl: real -> real, b: real, l: real, h: real)
    requires Rounding(fl) && b >= 0.0 && 0.0 <= l <= 1.0 <= h
    ensures 0.0 <= fl(Times(b, l)) <= fl(b) <= fl(Times(b, h))
  {
    hide Rounding, Times, IsDouble;
    Spread(b, l, h);
    SmallExact(0);
    Fixed(fl, 0.0);
    Ordered(fl, 0.0, Times(b, l));
    Ordered(fl, Times(b, l), b);
    Ordered(fl, b, Times(b, h));
  }

  lemma Spread(b: real, l: real, h: real)
    requires b >= 0.0 && 0.0 <= l <= 1.0 <= h
    ensures 0.0 <= Times(b, l) <= b <= Times(b, h)
  {
    Product(b, l);
    Product(b, 1.0 - l);
    assert b * (1.0 - l) == b - b * l;
    Scales(b, h);
  }

  // ---- The generator ----

  lemma CounterNext(n: nat)
    ensures (n % WRAP32 + 1) % WRAP32 == (n + 1) % WRAP32
    ensures n < WRAP32 ==> n % WRAP32 == n
  {
    var q, r := n / WRAP32, n % WRAP32;
    assert n == q * WRAP32 + r;
    if r + 1 == WRAP32 {
      assert n + 1 == (q + 1) * WRAP32;
    }
  }

  class ExponentialBackoff {
    const cfg: Config
    /** The rounding of the machine. */
    const fl: real -> real
    var base: int
    var attempts: nat
    /** Delays produced since the last reset, which the 32-bit counter may wrap. */
    ghost var produced: nat

    ghost predicate Valid()
      reads this
    {
      && Sane(cfg) && Rounding(fl)
      && base == Base(fl, cfg, produced)
      && attempts == produced % WRAP32
      && (cfg.maxAttempts != 0 ==> produced <= cfg.maxAttempts)
    }

    constructor (config: Config, rounding: real -> real)
      requires Representable(config) && Rounding(rounding)
      ensures Valid() && cfg == Sanitized(config) && fl == rounding && produced == 0
    {
      cfg := Sanitized(config);
      fl := rounding;
      base := Sanitized(config).initial;
      attempts := 0;
      produced := 0;
    }

    /** Exhaustion is absorbing: a refused call changes nothing. */
    method NextDelay(draw: Draw) returns (delay: Option<int>)
      requires Valid() && InRange(draw)
      modifies this
      ensures Valid()
      ensures delay.None? <==> cfg.maxAttempts != 0 && old(produced) == cfg.maxAttempts
      ensures delay.None? ==> produced == old(produced) && attempts == old(attempts) && base == old(base)
      ensures delay.Some? ==> produced == old(produced) + 1
                              && DrawnFrom(fl, cfg, Base(fl, cfg, old(produced)), draw, delay.value)
                              && Within(fl, cfg, Base(fl, cfg, old(produced)), delay.value)
    {
      hide Within, DrawnFrom, Grown, Base, Rounding, IsDouble, InRange;
      if cfg.maxAttempts != 0 && attempts >= cfg.maxAttempts {
        return None;
      }
      BaseNext(fl, cfg, produced);
      CounterNext(produced);
      var before := base;
      attempts := (attempts + 1) % WRAP32;
      produced := produced + 1;
      base := Grown(fl, cfg, base);
      var d := ApplyJitter(fl, cfg, before, draw);
      delay := Some(d);
    }

    method Reset()
      requires Valid()
      modifies this
      ensures Valid() && produced == 0
    {
      attempts := 0;
      base := cfg.initial;
      produced := 0;
    }
  }
}
