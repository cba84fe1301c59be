/** Building the receive-side redirection table and rotating it. */
module Reta {
  import opened RoundRobin

  const GROUPS: nat := 8
  const GROUP: nat := 64
  const WRAP16: nat := 0x1_0000

  /** One group of sixty-four slots: which mask bits are set, and the queue of each slot. */
  datatype Entry = Entry(mask: set<nat>, queues: seq<nat>)

  predicate Shaped(t: seq<Entry>) {
    |t| == GROUPS && forall g | 0 <= g < GROUPS :: |t[g].queues| == GROUP
  }

  /** Whether the update writes slot `s`. */
  predicate Marked(t: seq<Entry>, s: nat)
    requires Shaped(t) && s < GROUPS * GROUP
  {
    s % GROUP in t[s / GROUP].mask
  }

  function QueueOf(t: seq<Entry>, s: nat): (q: nat)
    requires Shaped(t) && s < GROUPS * GROUP
  {
    t[s / GROUP].queues[s % GROUP]
  }

  /** The first `n` slots are marked and rotate over the queues; the others are clear. */
  ghost predicate Filled(t: seq<Entry>, n: nat, queues: nat, offset: nat)
    requires Shaped(t) && queues > 0
  {
    forall s | 0 <= s < GROUPS * GROUP ::
      && (Marked(t, s) <==> s < n)
      && QueueOf(t, s) == if s < n then (s + offset) % queues else 0
  }

  method Clear(t: array<Entry>)
    requires Shaped(t[..])
    modifies t
    ensures Shaped(t[..]) && forall g | 0 <= g < GROUPS :: t[g] == Entry({}, seq(GROUP, _ => 0))
  {
    for g := 0 to GROUPS
      invariant Shaped(t[..])
      invariant forall h | 0 <= h < g :: t[h] == Entry({}, seq(GROUP, _ => 0))
    {
      t[g] := Entry({}, seq(GROUP, _ => 0));
    }
  }

  method BuildReta(t: array<Entry>, size: nat, queues: nat, offset: nat)
    requires Shaped(t[..])
    requires size <= GROUPS * GROUP && queues > 0 && offset < WRAP16
    modifies t
    ensures Shaped(t[..]) && Filled(t[..], size, queues, offset)
  {
    Clear(t);
    for i := 0 to size
      invariant Shaped(t[..]) && Filled(t[..], i, queues, offset)
    {
      var g, bit := i / GROUP, i % GROUP;
      ghost var before := t[..];
      t[g] := Entry(t[g].mask + {bit}, t[g].queues[bit := (i + offset) % queues]);
      forall s | 0 <= s < GROUPS * GROUP
        ensures Marked(t[..], s) <==> Marked(before, s) || s == i
        ensures QueueOf(t[..], s) == if s == i then (i + offset) % queues else QueueOf(before, s)
      {
        SameSlot(s, i);
      }
    }
  }

  lemma SameSlot(s: nat, i: nat)
    ensures s / GROUP == i / GROUP && s % GROUP == i % GROUP <==> s == i
  {}

  // ---- Fairness ----

  /** How many of the first `n` slots go to queue `j`. */
  function Share(t: seq<Entry>, n: nat, j: nat): (c: nat)
    requires Shaped(t) && n <= GROUPS * GROUP
  {
    if n == 0 then 0 else Share(t, n - 1, j) + One(QueueOf(t, n - 1) == j)
  }

  lemma {:induction false} ShareIsCount(t: seq<Entry>, n: nat, size: nat, queues: nat, offset: nat, j: nat)
    requires Shaped(t) && n <= size <= GROUPS * GROUP && queues > 0
    requires Filled(t, size, queues, offset)
    ensures Share(t, n, j) == Count(offset, n, queues, j)
  {
    if n > 0 {
      ShareIsCount(t, n - 1, size, queues, offset, j);
      assert QueueOf(t, n - 1) == (offset + n - 1) % queues;
    }
  }

  /** Whatever the offset, every queue gets the floor or the ceiling of an even share. */
  lemma FairTable(t: seq<Entry>, size: nat, queues: nat, offset: nat, j: nat)
    requires Shaped(t) && size <= GROUPS * GROUP && j < queues
    requires Filled(t, size, queues, offset)
    ensures size / queues <= Share(t, size, j) <= size / queues + One(size % queues != 0)
  {
    ShareIsCount(t, size, size, queues, offset, j);
    Fair(offset, size, queues, j);
  }

  // ---- Rotation ----

  /** The 16-bit offset of iteration `k`; iteration 0 is the probe before the timed loop. */
  function Offset(k: nat): (offset: nat) {
    k % WRAP16
  }

  lemma OffsetStep(k: nat)
    ensures Offset(k + 1) == if Offset(k) == WRAP16 - 1 then 0 else Offset(k) + 1
  {}

  /** Whether the step from iteration `k` changes the remainder it is meant to change. */
  predicate Rotates(k: nat, queues: nat)
    requires queues > 0
  {
    queues >= 2 && (Offset(k) == WRAP16 - 1 ==> (WRAP16 - 1) % queues != 0)
  }

  /** Adding `d` to a number keeps its remainder exactly when `d` is a multiple of the modulus. */
  lemma SameRemainder(s: nat, d: nat, q: nat)
    requires q > 0
    ensures (s + d) % q == s % q <==> d % q == 0
  {
    Distribute(q, s / q, d / q);
    Carried(s + d, q, s / q + d / q, s % q, d % q);
  }

  lemma Distribute(q: nat, x: nat, y: nat)
    ensures q * (x + y) == q * x + q * y
  {}

  lemma Carried(v: nat, q: nat, m: nat, a: nat, b: nat)
    requires a < q && b < q && v == q * m + (a + b)
    ensures v % q == if a + b < q then a + b else a + b - q
  {
    if a + b < q {
      DivModIs(v, q, m, a + b);
    } else {
      Distribute(q, m, 1);
      DivModIs(v, q, m + 1, a + b - q);
    }
  }

  lemma SlotRotates(s: nat, k: nat, queues: nat)
    requires queues > 0
    ensures (s + Offset(k + 1)) % queues != (s + Offset(k)) % queues <==> Rotates(k, queues)
  {
    OffsetStep(k);
    if Offset(k) == WRAP16 - 1 {
      SameRemainder(s, WRAP16 - 1, queues);
      if queues == 1 {
        assert (WRAP16 - 1) % 1 == 0;
      }
    } else {
      SameRemainder(s + Offset(k), 1, queues);
      if queues == 1 {
        assert (s + Offset(k) + 1) % 1 == 0;
      } else {
        Small(1, queues);
      }
    }
  }

  /** Consecutive tables differ in every slot if the step rotates, and in no slot if it does
      not: with one queue, and at each wrap of the offset when the queue count divides 65535. */
  lemma EverySlotOrNone(a: seq<Entry>, b: seq<Entry>, size: nat, queues: nat, k: nat, s: nat)
    requires Shaped(a) && Shaped(b) && s < size <= GROUPS * GROUP && queues > 0
    requires Filled(a, size, queues, Offset(k)) && Filled(b, size, queues, Offset(k + 1))
    ensures QueueOf(a, s) != QueueOf(b, s) <==> Rotates(k, queues)
  {
    SlotRotates(s, k, queues);
  }

  /** A step that does not rotate rewrites the table it found: the same marks, the same queues. */
  lemma SameTable(a: seq<Entry>, b: seq<Entry>, size: nat, queues: nat, k: nat, s: nat)
    requires Shaped(a) && Shaped(b) && size <= GROUPS * GROUP && s < GROUPS * GROUP && queues > 0
    requires Filled(a, size, queues, Offset(k)) && Filled(b, size, queues, Offset(k + 1))
    requires !Rotates(k, queues)
    ensures (Marked(a, s) <==> Marked(b, s)) && QueueOf(a, s) == QueueOf(b, s)
  {
    SlotRotates(s, k, queues);
  }

  /** So it is with three queues at the wrap of the offset, from 65535 to 0. */
  lemma WrapWithThreeQueues(a: seq<Entry>, b: seq<Entry>, size: nat, s: nat)
    requires Shaped(a) && Shaped(b) && size <= GROUPS * GROUP && s < GROUPS * GROUP
    requires Filled(a, size, 3, 65535) && Filled(b, size, 3, 0)
    ensures (Marked(a, s) <==> Marked(b, s)) && QueueOf(a, s) == QueueOf(b, s)
  {
    hide Filled;
    assert Offset(65535) == 65535 && Offset(65536) == 0 && !Rotates(65535, 3);
    SameTable(a, b, size, 3, 65535, s);
  }
}
