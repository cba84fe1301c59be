/** The Internet checksum (sections 1 and 2(B) of RFC 1071) in its two forms: the
    32-bit loop-folded sum over host-order words, and the two-step fold over
    network-order words of any size. */
module Checksum {
  import opened Bytes
  import RoundRobin

  const WORD: nat := 0x1_0000
  const WORD32: nat := 0x1_0000_0000
  const ONES: nat := 0xFFFF

  /** How a machine reads two adjacent octets as a 16-bit word. */
  datatype Order = Network | Host

  function Word(order: Order, a: byte, b: byte): (w: nat)
    ensures w < WORD
  {
    match order
    case Network => a as nat * 256 + b as nat
    case Host => b as nat * 256 + a as nat
  }

  /** The plain sum of the 16-bit words; an odd last octet is not summed. */
  function Sum(order: Order, d: seq<byte>): (s: nat)
  {
    if |d| < 2 then 0 else Word(order, d[0], d[1]) + Sum(order, d[2..])
  }

  // ---- The reference: one's complement addition, end-around carry at every step ----

  function OnesAdd(a: nat, b: nat): (r: nat)
    requires a < WORD && b < WORD
    ensures r < WORD
  {
    if a + b < WORD then a + b else a + b - WORD + 1
  }

  function OnesSum(order: Order, d: seq<byte>): (r: nat)
    ensures r < WORD
  {
    if |d| < 2 then 0 else OnesAdd(Word(order, d[0], d[1]), OnesSum(order, d[2..]))
  }

  predicate Verifies(order: Order, d: seq<byte>) {
    OnesSum(order, d) == ONES
  }

  /** The example of section 3 of RFC 1071. */
  lemma StandardExample(d: seq<byte>)
    requires d == [0x00, 0x01, 0xF2, 0x03, 0xF4, 0xF5, 0xF6, 0xF7]
    ensures OnesSum(Network, d) == 0xDDF2
    ensures OnesSum(Host, d) == 0xF2DD
  {
    hide OnesSum;
    var d1, d2, d3 := d[2..], d[4..], d[6..];
    assert d1[2..] == d2 && d2[2..] == d3 && d3[2..] == [];
    OneWord(Network, d);
    OneWord(Network, d1);
    OneWord(Network, d2);
    OneWord(Network, d3);
    OneWord(Host, d);
    OneWord(Host, d1);
    OneWord(Host, d2);
    OneWord(Host, d3);
  }

  lemma OneWord(order: Order, d: seq<byte>)
    requires |d| >= 2
    ensures OnesSum(order, d) == OnesAdd(Word(order, d[0], d[1]), OnesSum(order, d[2..]))
    ensures |d| == 2 ==> OnesSum(order, d[2..]) == 0
  {}

  // ---- Folding ----

  function Half(s: nat): (r: nat)
    ensures r == s <==> s < WORD
    ensures s >= WORD ==> r < s
  {
    s / WORD + s % WORD
  }

  function Fold(s: nat): (r: nat)
    ensures r < WORD
  {
    if s < WORD then s else Fold(Half(s))
  }

  /** Two numbers that one's complement arithmetic cannot tell apart. */
  predicate Same(a: nat, b: nat) {
    a % ONES == b % ONES && (a == 0 <==> b == 0)
  }

  lemma HalfSame(s: nat)
    ensures Same(Half(s), s)
  {
    var q := s / WORD;
    assert s == Half(s) + q * ONES;
    AddMultiple(Half(s), q, ONES);
  }

  lemma AddMultiple(a: nat, k: nat, m: nat)
    requires m > 0
    ensures (a + k * m) % m == a % m
  {
    var d, r := a / m, a % m;
    assert a + k * m == m * (d + k) + r;
    RoundRobin.DivModIs(a + k * m, m, d + k, r);
  }

  lemma {:induction false} FoldSame(s: nat)
    ensures Same(Fold(s), s)
  {
    if s >= WORD {
      HalfSame(s);
      FoldSame(Half(s));
    }
  }

  /** Each class of `Same` has one member below 2^16. */
  lemma Canonical(a: nat, b: nat)
    requires a < WORD && b < WORD && Same(a, b)
    ensures a == b
  {}

  lemma {:induction false} OnesSumSame(order: Order, d: seq<byte>)
    ensures Same(OnesSum(order, d), Sum(order, d))
  {
    if |d| >= 2 {
      OnesSumSame(order, d[2..]);
      var w, o, s := Word(order, d[0], d[1]), OnesSum(order, d[2..]), Sum(order, d[2..]);
      AddSame(w, o, s);
      assert OnesAdd(w, o) == w + o || OnesAdd(w, o) + ONES == w + o;
      AddMultiple(OnesAdd(w, o), 1, ONES);
    }
  }

  lemma AddSame(w: nat, a: nat, b: nat)
    requires Same(a, b)
    ensures Same(w + a, w + b)
  {
    var p, q := a / ONES, b / ONES;
    AddMultiple(w + a % ONES, p, ONES);
    AddMultiple(w + b % ONES, q, ONES);
    assert w + a == w + a % ONES + p * ONES;
    assert w + b == w + b % ONES + q * ONES;
  }

  /** Folding the plain sum at the end equals carrying around at every addition. */
  lemma FoldIsOnesSum(order: Order, d: seq<byte>)
    ensures Fold(Sum(order, d)) == OnesSum(order, d)
  {
    OnesSumSame(order, d);
    FoldSame(Sum(order, d));
    Canonical(Fold(Sum(order, d)), OnesSum(order, d));
  }

  lemma FoldEqual(a: nat, b: nat)
    ensures Fold(a) == Fold(b) <==> Same(a, b)
  {
    FoldSame(a);
    FoldSame(b);
    if Same(a, b) {
      Canonical(Fold(a), Fold(b));
    }
  }

  // ---- What dropping high bits costs ----

  /** Whether the low part of `x` below `m` stands for the same sum as `x`. */
  predicate Droppable(x: nat, m: nat)
    requires m > 0
  {
    (x / m) % ONES == 0 && (x % m == 0 ==> x == 0)
  }

  /** 2^16 and 2^32 both leave remainder 1, so each dropped carry loses exactly one. */
  lemma DropExact(x: nat, m: nat)
    requires m == WORD || m == WORD32
    ensures Fold(x % m) == Fold(x) <==> Droppable(x, m)
  {
    hide Fold, Droppable;
    DropSame(x, m);
    FoldEqual(x % m, x);
  }

  lemma DropSame(x: nat, m: nat)
    requires m == WORD || m == WORD32
    ensures Same(x % m, x) <==> Droppable(x, m)
  {
    var w, k, c := x % m, x / m, m / ONES;
    assert m == c * ONES + 1;
    assert x == w + k + (k * c) * ONES by {
      assert x == w + k * m;
      assert k * (c * ONES) == (k * c) * ONES;
    }
    AddMultiple(w + k, k * c, ONES);
    Shifted(w, k);
  }

  lemma Shifted(w: nat, k: nat)
    ensures (w + k) % ONES == w % ONES <==> k % ONES == 0
  {}

  lemma {:induction false} SumBound(order: Order, d: seq<byte>)
    ensures Sum(order, d) <= ONES * (|d| / 2)
  {
    if |d| >= 2 {
      SumBound(order, d[2..]);
    }
  }

  lemma {:induction false} SumAppend(order: Order, a: seq<byte>, b: seq<byte>)
    requires |a| % 2 == 0
    ensures Sum(order, a + b) == Sum(order, a) + Sum(order, b)
  {
    if a == [] {
      assert a + b == b;
    } else {
      assert (a + b)[2..] == a[2..] + b;
      SumAppend(order, a[2..], b);
    }
  }

  lemma SumStep(order: Order, d: seq<byte>, i: nat)
    requires 2 * i + 2 <= |d|
    ensures Sum(order, d[..2 * i + 2]) == Sum(order, d[..2 * i]) + Word(order, d[2 * i], d[2 * i + 1])
  {
    var last := d[2 * i..2 * i + 2];
    assert d[..2 * i + 2] == d[..2 * i] + last;
    SumAppend(order, d[..2 * i], last);
    assert Sum(order, last[2..]) == 0;
  }

  lemma WrapStep(x: nat, w: nat)
    ensures (x % WORD32 + w) % WORD32 == (x + w) % WORD32
  {
    var q := x / WORD32;
    assert x + w == x % WORD32 + w + q * WORD32;
    AddMultiple(x % WORD32 + w, q, WORD32);
  }

  lemma AccumulateStep(hdr: seq<byte>, i: nat)
    requires 2 * i + 2 <= |hdr|
    ensures Sum(Host, hdr[..2 * i + 2]) % WORD32
         == (Sum(Host, hdr[..2 * i]) % WORD32 + Word(Host, hdr[2 * i], hdr[2 * i + 1])) % WORD32
  {
    hide Word, Sum;
    SumStep(Host, hdr, i);
    WrapStep(Sum(Host, hdr[..2 * i]), Word(Host, hdr[2 * i], hdr[2 * i + 1]));
  }

  /** The summing loop of `ipv4_csum`: a 32-bit accumulator that wraps. */
  method Accumulate(hdr: seq<byte>) returns (sum: nat)
    ensures sum == Sum(Host, hdr) % WORD32
  {
    hide Word, Sum;
    sum := 0;
    var i := 0;
    NoWords(hdr[..0]);
    while i < |hdr| / 2
      invariant 0 <= i <= |hdr| / 2
      invariant sum == Sum(Host, hdr[..2 * i]) % WORD32
    {
      AccumulateStep(hdr, i);
      sum := (sum + Word(Host, hdr[2 * i], hdr[2 * i + 1])) % WORD32;
      i := i + 1;
    }
    OddTail(hdr, i);
  }

  lemma NoWords(d: seq<byte>)
    requires |d| < 2
    ensures Sum(Host, d) == 0
  {}

  lemma OddTail(hdr: seq<byte>, i: nat)
    requires i == |hdr| / 2
    ensures Sum(Host, hdr[..2 * i]) == Sum(Host, hdr)
  {
    hide Sum;
    assert hdr == hdr[..2 * i] + hdr[2 * i..];
    SumAppend(Host, hdr[..2 * i], hdr[2 * i..]);
    NoWords(hdr[2 * i..]);
  }

  /** The folding loop of `ipv4_csum`, which ends because every fold shrinks the sum. */
  method FoldCarries(sum: nat) returns (r: nat)
    requires sum < WORD32
    ensures r == Fold(sum)
  {
    r := sum;
    while r / WORD != 0
      invariant 0 <= r < WORD32
      invariant Fold(r) == Fold(sum)
      decreases r
    {
      r := r % WORD + r / WORD;
    }
  }

  /** `ipv4_csum` is the checksum exactly when the accumulator lost no carry that matters,
      and up to 65537 words it loses none. */
  method Ipv4Csum(hdr: seq<byte>) returns (c: nat)
    ensures c < WORD
    ensures c == ONES - OnesSum(Host, hdr) <==> Droppable(Sum(Host, hdr), WORD32)
    ensures |hdr| / 2 <= 65537 ==> c == ONES - OnesSum(Host, hdr)
  {
    var sum := Accumulate(hdr);
    sum := FoldCarries(sum);
    c := ONES - sum;
    FoldIsOnesSum(Host, hdr);
    DropExact(Sum(Host, hdr), WORD32);
    SumBound(Host, hdr);
  }

  /** The bound on the accumulator is sharp: one word more can lose a carry. */
  lemma OverflowAt65538(hdr: seq<byte>)
    requires |hdr| == 2 * 65538 && AllOnes(hdr)
    ensures !Droppable(Sum(Host, hdr), WORD32)
  {
    SumOfOnes(Host, hdr);
  }

  predicate AllOnes(d: seq<byte>) {
    forall i | 0 <= i < |d| :: d[i] == 0xFF
  }

  lemma OnesWord(order: Order)
    ensures Word(order, 0xFF, 0xFF) == ONES
  {}

  lemma {:induction false} SumOfOnes(order: Order, d: seq<byte>)
    requires AllOnes(d)
    ensures Sum(order, d) == ONES * (|d| / 2)
  {
    hide Word;
    if |d| >= 2 {
      SumOfOnes(order, d[2..]);
      OnesWord(order);
    }
  }

  function Padded(d: seq<byte>): (p: seq<byte>)
    ensures |p| % 2 == 0
  {
    if |d| % 2 == 1 then d + [0] else d
  }

  /** What two folds and a truncation keep of a sum. */
  lemma TwoFolds(total: nat)
    ensures var once := Half(total);
            (once + once / WORD) % WORD == Fold(total) <==> Droppable(Half(once), WORD)
  {
    hide Fold, Half, Droppable;
    var once := Half(total);
    LowHalf(once);
    HalfFold(total);
    HalfFold(once);
    LowFold(Half(once));
    DropExact(Half(once), WORD);
  }

  lemma LowHalf(s: nat)
    ensures (s + s / WORD) % WORD == Half(s) % WORD
  {
    var q := s / WORD;
    AddMultiple(Half(s), q, WORD);
    assert s + q == Half(s) + q * WORD;
  }

  lemma HalfFold(s: nat)
    ensures Fold(Half(s)) == Fold(s)
  {}

  lemma LowFold(s: nat)
    ensures Fold(s % WORD) == s % WORD
  {}

  lemma TwoFoldsSuffice(total: nat)
    requires total <= ONES * 65538
    ensures Droppable(Half(Half(total)), WORD)
  {}

  /** `checksum`: exactly two folds over an unbounded sum, then the low sixteen bits. */
  method TwoStepChecksum(d: seq<byte>) returns (c: nat)
    ensures c < WORD
    ensures var total := Sum(Network, Padded(d));
            c == ONES - OnesSum(Network, Padded(d)) <==> Droppable(Half(Half(total)), WORD)
    ensures |d| <= 2 * 65538 ==> c == ONES - OnesSum(Network, Padded(d))
  {
    hide Sum, OnesSum, Fold, Droppable;
    var p := Padded(d);
    var s := Sum(Network, p);
    TwoFolds(s);
    FoldIsOnesSum(Network, p);
    SumBound(Network, p);
    if |d| <= 2 * 65538 {
      TwoFoldsSuffice(s);
    }
    s := s / WORD + s % WORD;
    s := s + s / WORD;
    c := ONES - s % WORD;
  }

  /** The smallest sum two folds do not finish. */
  lemma TwoFoldsFirstFailure(total: nat)
    requires !Droppable(Half(Half(total)), WORD)
    ensures total >= 0x1_0000_FFFF
    ensures !Droppable(Half(Half(0x1_0000_FFFF)), WORD)
  {}

  /** That length is sharp too: one word more, of value one, and two folds leave a carry. */
  lemma TwoFoldsFailAt65539(d: seq<byte>)
    requires |d| == 2 * 65539 && AllOnes(d[..2 * 65538]) && d[2 * 65538] == 0 && d[2 * 65538 + 1] == 1
    ensures !Droppable(Half(Half(Sum(Network, Padded(d)))), WORD)
  {
    hide Word;
    SumStep(Network, d, 65538);
    SumOfOnes(Network, d[..2 * 65538]);
    assert d[..2 * 65538 + 2] == d;
    LastWord();
  }

  lemma LastWord()
    ensures Word(Network, 0, 1) == 1
  {}

  // ---- Byte order ----

  function Swap(w: nat): (r: nat)
    requires w < WORD
    ensures r < WORD
  {
    w % 256 * 256 + w / 256
  }

  lemma {:induction false} SumOrders(d: seq<byte>)
    ensures Same(Sum(Network, d), 256 * Sum(Host, d))
  {
    if |d| >= 2 {
      SumOrders(d[2..]);
      OrdersStep(d[0] as nat, d[1] as nat, Sum(Network, d[2..]), Sum(Host, d[2..]));
    }
  }

  lemma OrdersStep(a: nat, b: nat, n: nat, h: nat)
    requires Same(n, 256 * h)
    ensures Same(a * 256 + b + n, 256 * (b * 256 + a + h))
  {
    AddSame(a * 256 + b, n, 256 * h);
    AddMultiple(a * 256 + b + 256 * h, b, ONES);
    assert 256 * (b * 256 + a + h) == (a * 256 + b + 256 * h) + b * ONES;
  }

  /** Swapping the octets of a word is multiplying it by 256, and commutes with complement. */
  lemma SwapScales(h: nat)
    requires h < WORD
    ensures Same(Swap(h), 256 * h)
    ensures Swap(ONES - h) == ONES - Swap(h)
  {
    var a, b := h / 256, h % 256;
    assert 256 * h == Swap(h) + a * ONES;
    AddMultiple(Swap(h), a, ONES);
    RoundRobin.DivModIs(ONES - h, 256, 255 - a, 255 - b);
  }

  lemma ScaleSame(a: nat, b: nat)
    requires Same(a, b)
    ensures Same(256 * a, 256 * b)
  {
    var p, q, r := a / ONES, b / ONES, a % ONES;
    assert 256 * a == 256 * r + (256 * p) * ONES;
    assert 256 * b == 256 * r + (256 * q) * ONES;
    AddMultiple(256 * r, 256 * p, ONES);
    AddMultiple(256 * r, 256 * q, ONES);
  }

  /** Section 2(B) of RFC 1071: reading the words in the other order swaps the sum's octets. */
  lemma ByteOrderIndependent(d: seq<byte>)
    ensures OnesSum(Network, d) == Swap(OnesSum(Host, d))
    ensures ONES - OnesSum(Network, d) == Swap(ONES - OnesSum(Host, d))
    ensures Verifies(Network, d) <==> Verifies(Host, d)
  {
    hide Sum, OnesSum;
    var h := OnesSum(Host, d);
    OnesSumSame(Network, d);
    OnesSumSame(Host, d);
    SumOrders(d);
    ScaleSame(h, Sum(Host, d));
    SwapScales(h);
    Canonical(OnesSum(Network, d), Swap(h));
  }

  // ---- Filling in the field ----

  /** Store the word `v` at offset `k` in the given order. */
  function Put(order: Order, d: seq<byte>, k: nat, v: nat): (r: seq<byte>)
    requires k + 2 <= |d| && v < WORD
    ensures |r| == |d| && r == d[..k] + r[k..k + 2] + d[k + 2..]
  {
    var hi, lo := Octet(v / 256), Octet(v % 256);
    if order.Network? then d[k := hi][k + 1 := lo] else d[k := lo][k + 1 := hi]
  }

  lemma {:induction false} PutSum(order: Order, d: seq<byte>, k: nat, v: nat)
    requires k % 2 == 0 && k + 2 <= |d| && v < WORD && d[k] == 0 && d[k + 1] == 0
    ensures Sum(order, Put(order, d, k, v)) == Sum(order, d) + v
  {
    var r := Put(order, d, k, v);
    if k == 0 {
      assert r[2..] == d[2..];
    } else {
      PutSum(order, d[2..], k - 2, v);
      assert r[2..] == Put(order, d[2..], k - 2, v);
    }
  }

  /** Storing the complement of the sum at any even, zeroed offset makes the data verify,
      for a reader of either byte order. */
  lemma InsertVerifies(order: Order, d: seq<byte>, k: nat)
    requires k % 2 == 0 && k + 2 <= |d| && d[k] == 0 && d[k + 1] == 0
    ensures var r := Put(order, d, k, ONES - OnesSum(order, d));
            Verifies(Network, r) && Verifies(Host, r)
  {
    hide Put, Sum, OnesSum;
    var o := OnesSum(order, d);
    var r := Put(order, d, k, ONES - o);
    PutSum(order, d, k, ONES - o);
    OnesSumSame(order, d);
    OnesSumSame(order, r);
    AddSame(ONES - o, Sum(order, d), o);
    Canonical(OnesSum(order, r), ONES);
    ByteOrderIndependent(r);
  }
}
