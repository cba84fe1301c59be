/** The mock exchange's steady-rate pacing: each record waits for an absolute target time, so that
    lateness is never made up by a burst beyond the configured rate. */
module MockPacing {

  /** One record: when it was sent, the clock read after it, and when the loop went on. */
  datatype Tick = Tick(batch: nat, sentAt: real, now: real, wokeAt: real)

  datatype Pace = Pace(start: real, batchSize: nat, rate: nat, jitter: bool) {
    function Interval(): (i: real)
      requires rate > 0
    {
      batchSize as real / rate as real
    }

    /** The size of one record, drawn at random under jitter. */
    predicate BatchOk(batch: nat) {
      if jitter && batchSize > 1 then
        (if batchSize / 2 > 1 then batchSize / 2 else 1) <= batch <= batchSize * 2
      else batch == batchSize
    }

    /** The most a record can hold, in multiples of the batch size. */
    function Factor(): (f: nat) {
      if jitter && batchSize > 1 then 2 else 1
    }
  }

  /** Record number `r` of a run: sent no earlier than the loop went on, the clock monotone, and a
      sleep that lasts at least as long as asked. */
  predicate TickOk(p: Pace, run: seq<Tick>, r: nat)
    requires p.rate > 0 && r < |run|
  {
    var t := run[r];
    var target := p.start + (r + 1) as real * p.Interval();
    && p.BatchOk(t.batch)
    && (if r == 0 then p.start else run[r - 1].wokeAt) <= t.sentAt <= t.now
    && (if target > t.now then t.now + (target - t.now) else t.now) <= t.wokeAt
  }

  predicate Run(p: Pace, run: seq<Tick>)
    requires p.rate > 0
  {
    forall r | 0 <= r < |run| :: TickOk(p, run, r)
  }

  /** Messages sent up to time `t`. */
  function Sent(run: seq<Tick>, t: real): (n: nat) {
    if run == [] then 0
    else
      var last := run[|run| - 1];
      Sent(run[..|run| - 1], t) + if last.sentAt <= t then last.batch else 0
  }

  lemma SentNotBefore(p: Pace, run: seq<Tick>, r: nat)
    requires p.rate > 0 && Run(p, run) && r < |run|
    ensures run[r].sentAt >= p.start + r as real * p.Interval()
  {
    assert TickOk(p, run, r);
    if r > 0 {
      assert TickOk(p, run, r - 1);
    } else {
      assert 0 as real * p.Interval() == 0.0;
    }
  }

  lemma {:induction false} SentAtMost(p: Pace, run: seq<Tick>, t: real)
    requires p.rate > 0 && Run(p, run)
    ensures Sent(run, t) <= p.Factor() * p.batchSize * |run|
  {
    if run != [] {
      var n := |run|;
      PrefixRun(p, run, n - 1);
      SentAtMost(p, run[..n - 1], t);
      assert TickOk(p, run, n - 1);
      var cap := p.Factor() * p.batchSize;
      assert run[n - 1].batch <= cap;
      assert cap * n == cap * (n - 1) + cap;
    }
  }

  lemma PrefixRun(p: Pace, run: seq<Tick>, k: nat)
    requires p.rate > 0 && Run(p, run) && k <= |run|
    ensures Run(p, run[..k])
  {
    forall r | 0 <= r < k
      ensures TickOk(p, run[..k], r)
    {
      assert TickOk(p, run, r);
    }
  }

  lemma Scale(b: nat, rate: nat, r: nat, elapsed: real)
    requires rate > 0 && r as real * (b as real / rate as real) <= elapsed
    ensures b as real * r as real <= rate as real * elapsed
  {
    var x, y, z := b as real, rate as real, r as real;
    assert x / y * y == x;
    assert z * (x / y) * y == z * x;
    assert z * (x / y) * y <= elapsed * y;
  }

  /** One batch, and the rate times the time elapsed; doubled if batch sizes are random. */
  function Budget(p: Pace, elapsed: real): (m: real) {
    p.Factor() as real * (p.batchSize as real + p.rate as real * elapsed)
  }

  /** At every time of every run the messages sent stay within one batch of the configured rate;
      random batch sizes at most double the bound. */
  lemma {:induction false} RateBound(p: Pace, run: seq<Tick>, t: real)
    requires p.rate > 0 && Run(p, run)
    requires t >= p.start
    ensures Sent(run, t) as real <= Budget(p, t - p.start)
  {
    hide Budget, Run;
    if run == [] {
      Nonnegative(p, t - p.start);
    } else {
      var n := |run|;
      if run[n - 1].sentAt > t {
        PrefixRun(p, run, n - 1);
        RateBound(p, run[..n - 1], t);
      } else {
        SentByLast(p, run, t);
      }
    }
  }

  /** The run in which nothing is ever late: record `r` goes out `r` intervals after the start. */
  function Punctual(p: Pace, n: nat): (run: seq<Tick>)
    requires p.rate > 0
    ensures |run| == n
  {
    if n == 0 then []
    else Punctual(p, n - 1) + [Tick(p.batchSize, At(p, n - 1), At(p, n - 1), At(p, n))]
  }

  function At(p: Pace, r: nat): (t: real)
    requires p.rate > 0
  {
    p.start + r as real * p.Interval()
  }

  lemma Later(p: Pace, r: nat)
    requires p.rate > 0
    ensures p.start == At(p, 0) && At(p, r) <= At(p, r + 1)
  {
    assert 0 as real * p.Interval() == 0.0;
    assert p.Interval() >= 0.0;
    assert (r + 1) as real * p.Interval() == r as real * p.Interval() + p.Interval();
  }

  lemma {:induction false} PunctualAt(p: Pace, n: nat, r: nat)
    requires p.rate > 0 && r < n
    ensures Punctual(p, n)[r] == Tick(p.batchSize, At(p, r), At(p, r), At(p, r + 1))
  {
    if r < n - 1 {
      PunctualAt(p, n - 1, r);
    }
  }

  lemma {:induction false} PunctualSent(p: Pace, n: nat, k: nat)
    requires p.rate > 0 && n <= k + 1
    ensures Sent(Punctual(p, n), At(p, k)) == n * p.batchSize
  {
    hide At;
    if n > 0 {
      PunctualSent(p, n - 1, k);
      AtLeast(p, n - 1, k);
      assert Punctual(p, n)[..n - 1] == Punctual(p, n - 1);
      assert n * p.batchSize == (n - 1) * p.batchSize + p.batchSize;
    }
  }

  lemma {:induction false} AtLeast(p: Pace, r: nat, k: nat)
    requires p.rate > 0 && r <= k
    ensures At(p, r) <= At(p, k)
  {
    hide At;
    if r < k {
      AtLeast(p, r, k - 1);
      Later(p, k - 1);
    }
  }

  lemma PunctualRuns(p: Pace, n: nat)
    requires p.rate > 0 && p.BatchOk(p.batchSize)
    ensures Run(p, Punctual(p, n))
  {
    hide Punctual;
    var run := Punctual(p, n);
    forall r | 0 <= r < |run| ensures TickOk(p, run, r) {
      PunctualAt(p, n, r);
      Later(p, r);
      if r > 0 {
        PunctualAt(p, n, r - 1);
      }
    }
  }

  /** The bound is met: the loop can send at the configured rate, one batch ahead of the clock. */
  lemma RateAttained(p: Pace, n: nat)
    requires p.rate > 0 && p.BatchOk(p.batchSize)
    ensures var run, t := Punctual(p, n + 1), At(p, n);
            && Run(p, run)
            && Sent(run, t) as real == p.batchSize as real + p.rate as real * (t - p.start)
  {
    hide Run, Sent, Punctual;
    PunctualRuns(p, n + 1);
    PunctualSent(p, n + 1, n);
    AtRate(p.batchSize, p.rate, n);
  }

  lemma AtRate(b: nat, rate: nat, n: nat)
    requires rate > 0
    ensures ((n + 1) * b) as real == b as real + rate as real * (n as real * (b as real / rate as real))
  {
    var x, y, z := b as real, rate as real, n as real;
    assert y * (x / y) == x;
    assert y * (z * (x / y)) == z * (y * (x / y));
    assert ((n + 1) * b) as real == (n * b) as real + x;
    assert (n * b) as real == z * x;
  }

  lemma SentByLast(p: Pace, run: seq<Tick>, t: real)
    requires p.rate > 0 && Run(p, run) && run != [] && run[|run| - 1].sentAt <= t
    ensures Sent(run, t) as real <= Budget(p, t - p.start)
  {
    hide Sent, Run, Budget;
    var n := |run|;
    SentAtMost(p, run, t);
    SentNotBefore(p, run, n - 1);
    Scale(p.batchSize, p.rate, n - 1, t - p.start);
    Combine(p, n, Sent(run, t), t - p.start);
  }

  lemma Nonnegative(p: Pace, elapsed: real)
    requires elapsed >= 0.0
    ensures 0.0 <= Budget(p, elapsed)
  {
    assert p.rate as real * elapsed >= 0.0;
  }

  lemma Combine(p: Pace, n: nat, sent: nat, elapsed: real)
    requires n >= 1 && sent <= p.Factor() * p.batchSize * n
    requires p.batchSize as real * (n - 1) as real <= p.rate as real * elapsed
    ensures sent as real <= Budget(p, elapsed)
  {
    var f, b := p.Factor(), p.batchSize;
    assert f * b * n == f * (b + b * (n - 1));
    assert (b * (n - 1)) as real == b as real * (n - 1) as real;
    assert (f * (b + b * (n - 1))) as real == f as real * (b as real + b as real * (n - 1) as real);
  }
}
