/** The bounded single-producer single-consumer ring, as every interleaving of the two threads'
    atomic steps. Each side keeps a private copy of the other's index and reloads it only when the
    copy says full or empty. Indices are 64-bit words that wrap. Loads and stores interleave
    sequentially consistently; a slot is touched one element at a time. */
module BoundedQueue {
  import opened Basics
  import opened WordIndex

  datatype Producer<T> =
    | PIdle
    | PLoad(data: seq<T>)           // cached head says too full: must reload it
    | PWrite(data: seq<T>, i: nat)  // room found: `i` elements stored so far

  datatype Consumer<T> =
    | CIdle
    | CLoad(max: nat, peek: bool)                 // cached tail says empty: must reload it
    | CRead(n: nat, out: seq<T>, peek: bool)      // `n` elements to copy, `out` copied so far

  /** Machine words and slots, each thread's program point, and the history: everything published,
      everything consumed, and the true counters behind the two cached words. */
  datatype Queue<T> = Queue(
    tail: nat, shadowHead: nat, head: nat, shadowTail: nat, buffer: seq<T>,
    producer: Producer<T>, consumer: Consumer<T>,
    pushed: seq<T>, popped: seq<T>, seenHead: nat, seenTail: nat)

  datatype Step<T> =
    | StartPush(data: seq<T>) | LoadHead | WriteSlot | PublishTail
    | StartPop(max: nat, peek: bool) | LoadTail | ReadSlot | PublishHead

  function Init<T>(buffer: seq<T>): (q: Queue<T>) {
    Queue(0, 0, 0, 0, buffer, PIdle, CIdle, [], [], 0, 0)
  }

  predicate Enabled<T>(cap: nat, q: Queue<T>, s: Step<T>) {
    match s
    case StartPush(_) => q.producer.PIdle?
    case LoadHead => q.producer.PLoad?
    case WriteSlot => q.producer.PWrite? && q.producer.i < |q.producer.data| && 0 < cap == |q.buffer|
    case PublishTail => q.producer.PWrite? && q.producer.i == |q.producer.data|
    case StartPop(_, _) => q.consumer.CIdle?
    case LoadTail => q.consumer.CLoad?
    case ReadSlot => q.consumer.CRead? && |q.consumer.out| < q.consumer.n && 0 < cap == |q.buffer|
    case PublishHead => q.consumer.CRead? && |q.consumer.out| == q.consumer.n
  }

  /** Free slots as computed from some value of the head index. */
  function Free(cap: nat, tail: nat, head: nat): (n: nat) {
    Sub(cap, Sub(tail, head))
  }

  function Next<T>(cap: nat, q: Queue<T>, s: Step<T>): (r: Queue<T>)
    requires Enabled(cap, q, s)
  {
    match s
    case StartPush(data) =>
      if data == [] then q
      else if Free(cap, q.tail, q.shadowHead) < |data| then q.(producer := PLoad(data))
      else q.(producer := PWrite(data, 0))
    case LoadHead =>
      var data := q.producer.data;
      var r := q.(shadowHead := q.head, seenHead := |q.popped|);
      if Free(cap, q.tail, q.head) < |data| then r.(producer := PIdle) else r.(producer := PWrite(data, 0))
    case WriteSlot =>
      var PWrite(data, i) := q.producer;
      q.(buffer := q.buffer[Word(q.tail + i) % cap := data[i]], producer := PWrite(data, i + 1))
    case PublishTail =>
      var data := q.producer.data;
      q.(tail := Word(q.tail + |data|), pushed := q.pushed + data, producer := PIdle)
    case StartPop(max, peek) =>
      if max == 0 then q
      else
        var available := Sub(q.shadowTail, q.head);
        if available == 0 then q.(consumer := CLoad(max, peek))
        else q.(consumer := CRead(Min(available, max), [], peek))
    case LoadTail =>
      var CLoad(max, peek) := q.consumer;
      var r := q.(shadowTail := q.tail, seenTail := |q.pushed|);
      var available := Sub(q.tail, q.head);
      if available == 0 then r.(consumer := CIdle) else r.(consumer := CRead(Min(available, max), [], peek))
    case ReadSlot =>
      var CRead(n, out, peek) := q.consumer;
      q.(consumer := CRead(n, out + [q.buffer[Word(q.head + |out|) % cap]], peek))
    case PublishHead =>
      var CRead(n, out, peek) := q.consumer;
      if peek then q.(consumer := CIdle)
      else q.(head := Word(q.head + n), popped := q.popped + out, consumer := CIdle)
  }

  // ---------------------------------------------------------------- invariant

  ghost predicate Indices<T>(cap: nat, q: Queue<T>) {
    && Capacity(cap) && |q.buffer| == cap
    && |q.popped| <= |q.pushed| <= |q.popped| + cap
    && q.popped == q.pushed[..|q.popped|]
    && q.tail == Word(|q.pushed|) && q.head == Word(|q.popped|)
  }

  /** Each cached index is a past value of the real one: it can hide room or elements, never invent them. */
  ghost predicate Shadows<T>(cap: nat, q: Queue<T>) {
    && q.shadowHead == Word(q.seenHead) && q.shadowTail == Word(q.seenTail)
    && q.seenHead <= |q.popped| && |q.pushed| <= q.seenHead + cap
    && |q.popped| <= q.seenTail <= |q.pushed|
  }

  /** The slots from counter `lo` on hold `items`. */
  ghost predicate Holds<T>(cap: nat, buffer: seq<T>, lo: nat, items: seq<T>) {
    0 < cap == |buffer| && forall j: nat :: j < |items| ==> buffer[(lo + j) % cap] == items[j]
  }

  ghost predicate ProducerOk<T>(cap: nat, producer: Producer<T>, buffer: seq<T>, published: nat, seenHead: nat) {
    match producer
    case PIdle => true
    case PLoad(data) => data != []
    case PWrite(data, i) =>
      i <= |data| && published + |data| <= seenHead + cap && Holds(cap, buffer, published, data[..i])
  }

  ghost predicate ConsumerOk<T>(consumer: Consumer<T>, pushed: seq<T>, consumed: nat, seenTail: nat) {
    match consumer
    case CIdle => true
    case CLoad(max, _) => max > 0
    case CRead(n, out, _) =>
      && |out| <= n && consumed + n <= seenTail <= |pushed|
      && out == pushed[consumed..consumed + |out|]
  }

  ghost predicate Inv<T>(cap: nat, q: Queue<T>) {
    && Indices(cap, q) && cap > 0 && Shadows(cap, q)
    && Holds(cap, q.buffer, |q.popped|, q.pushed[|q.popped|..])
    && ProducerOk(cap, q.producer, q.buffer, |q.pushed|, q.seenHead)
    && ConsumerOk(q.consumer, q.pushed, |q.popped|, q.seenTail)
  }

  /** Storing past the end of a held run, less than a lap from its start, leaves the run alone. */
  lemma HoldsElsewhere<T>(cap: nat, buffer: seq<T>, lo: nat, items: seq<T>, at: nat, x: T)
    requires Holds(cap, buffer, lo, items) && lo + |items| <= at < lo + cap
    ensures Holds(cap, buffer[at % cap := x], lo, items)
  {
    forall j: nat | j < |items|
      ensures buffer[at % cap := x][(lo + j) % cap] == items[j]
    {
      SlotsDiffer(at, lo + j, cap);
    }
  }

  lemma HoldsExtended<T>(cap: nat, buffer: seq<T>, lo: nat, items: seq<T>, x: T)
    requires Holds(cap, buffer, lo, items) && |items| < cap
    ensures Holds(cap, buffer[(lo + |items|) % cap := x], lo, items + [x])
  {
    HoldsElsewhere(cap, buffer, lo, items, lo + |items|, x);
  }

  lemma HoldsJoined<T>(cap: nat, buffer: seq<T>, lo: nat, a: seq<T>, b: seq<T>)
    requires Holds(cap, buffer, lo, a) && Holds(cap, buffer, lo + |a|, b)
    ensures Holds(cap, buffer, lo, a + b)
  {
    forall j: nat | j < |a + b|
      ensures buffer[(lo + j) % cap] == (a + b)[j]
    {
      if j >= |a| {
        var i := j - |a|;
        assert buffer[(lo + |a| + i) % cap] == b[i];
      }
    }
  }

  lemma HoldsRest<T>(cap: nat, buffer: seq<T>, lo: nat, items: seq<T>, n: nat)
    requires Holds(cap, buffer, lo, items) && n <= |items|
    ensures Holds(cap, buffer, lo + n, items[n..])
  {
    forall j: nat | j < |items| - n
      ensures buffer[(lo + n + j) % cap] == items[n..][j]
    {
      assert buffer[(lo + (n + j)) % cap] == items[n + j];
    }
  }

  lemma InitInv<T>(cap: nat, buffer: seq<T>)
    requires Capacity(cap) && |buffer| == cap
    ensures Inv(cap, Init(buffer))
  {
    var _ := CapacityDivides(cap);
  }

  /** Subtraction of the cached or real head gives the true number of free slots behind it. */
  lemma FreeIs(cap: nat, p: nat, c: nat)
    requires Capacity(cap) && c <= p <= c + cap
    ensures Free(cap, Word(p), Word(c)) == c + cap - p
  {
    hide Word, Sub, Capacity;
    var _ := CapacityDivides(cap);
    SubOf(p, c);
    SubOf(cap, p - c);
    SmallWord(cap);
    SmallWord(p - c);
  }

  lemma StartPushInv<T>(cap: nat, q: Queue<T>, data: seq<T>)
    requires Inv(cap, q) && q.producer.PIdle?
    ensures Inv(cap, Next(cap, q, StartPush(data)))
  {
    hide Capacity;
    FreeIs(cap, |q.pushed|, q.seenHead);
  }

  lemma LoadHeadInv<T>(cap: nat, q: Queue<T>)
    requires Inv(cap, q) && q.producer.PLoad?
    ensures Inv(cap, Next(cap, q, LoadHead))
  {
    hide Capacity;
    FreeIs(cap, |q.pushed|, |q.popped|);
  }

  lemma WriteSlotInv<T>(cap: nat, q: Queue<T>)
    requires Inv(cap, q) && Enabled(cap, q, WriteSlot)
    ensures Inv(cap, Next(cap, q, WriteSlot))
  {
    hide Capacity, Holds, ConsumerOk, Word;
    var PWrite(data, i) := q.producer;
    var p, c := |q.pushed|, |q.popped|;
    SlotAt(p, i, cap);
    SlotWritten(cap, q.buffer, c, p, q.pushed[c..], data, i);
    assert Next(cap, q, WriteSlot) == q.(buffer := q.buffer[(p + i) % cap := data[i]], producer := PWrite(data, i + 1));
  }

  /** Storing the next element of a batch keeps what waits and extends what is written. */
  lemma SlotWritten<T>(cap: nat, buffer: seq<T>, c: nat, p: nat, waiting: seq<T>, data: seq<T>, i: nat)
    requires cap > 0 && Holds(cap, buffer, c, waiting) && c + |waiting| == p
    requires i < |data| && p + |data| <= c + cap && Holds(cap, buffer, p, data[..i])
    ensures var b := buffer[(p + i) % cap := data[i]];
            |b| == cap && Holds(cap, b, c, waiting) && Holds(cap, b, p, data[..i + 1])
  {
    hide Holds;
    BufferSize(cap, buffer, c, waiting);
    HoldsElsewhere(cap, buffer, c, waiting, p + i, data[i]);
    HoldsExtended(cap, buffer, p, data[..i], data[i]);
    assert data[..i + 1] == data[..i] + [data[i]];
  }

  lemma BufferSize<T>(cap: nat, buffer: seq<T>, lo: nat, items: seq<T>)
    requires Holds(cap, buffer, lo, items)
    ensures |buffer| == cap
  {}

  lemma PublishTailInv<T>(cap: nat, q: Queue<T>)
    requires Inv(cap, q) && Enabled(cap, q, PublishTail)
    ensures Inv(cap, Next(cap, q, PublishTail))
  {
    hide Capacity, Holds, Word;
    var data, p, c := q.producer.data, |q.pushed|, |q.popped|;
    AddOf(p, |data|);
    assert data[..|data|] == data;
    HoldsJoined(cap, q.buffer, c, q.pushed[c..], data);
    var all := q.pushed + data;
    assert all[c..] == q.pushed[c..] + data;
    assert all[..c] == q.pushed[..c];
    if q.consumer.CRead? {
      var n := |q.consumer.out|;
      assert all[c..c + n] == q.pushed[c..c + n];
    }
  }

  lemma StartPopInv<T>(cap: nat, q: Queue<T>, max: nat, peek: bool)
    requires Inv(cap, q) && q.consumer.CIdle?
    ensures Inv(cap, Next(cap, q, StartPop(max, peek)))
  {
    hide Capacity, Holds;
    Within(cap, q.seenTail, |q.popped|);
  }

  lemma LoadTailInv<T>(cap: nat, q: Queue<T>)
    requires Inv(cap, q) && q.consumer.CLoad?
    ensures Inv(cap, Next(cap, q, LoadTail))
  {
    hide Capacity, Holds;
    Within(cap, |q.pushed|, |q.popped|);
  }

  lemma Within(cap: nat, p: nat, c: nat)
    requires Capacity(cap) && c <= p <= c + cap
    ensures Sub(Word(p), Word(c)) == p - c
  {
    var _ := CapacityDivides(cap);
    SubOf(p, c);
  }

  lemma ReadSlotInv<T>(cap: nat, q: Queue<T>)
    requires Inv(cap, q) && Enabled(cap, q, ReadSlot)
    ensures Inv(cap, Next(cap, q, ReadSlot))
  {
    hide Capacity, ProducerOk, Word;
    var CRead(n, out, peek) := q.consumer;
    var c, at := |q.popped|, |q.popped| + |out|;
    SlotAt(c, |out|, cap);
    assert q.buffer[at % cap] == q.pushed[c..][|out|] == q.pushed[at];
    assert q.pushed[c..at + 1] == q.pushed[c..at] + [q.pushed[at]];
  }

  lemma PublishHeadInv<T>(cap: nat, q: Queue<T>)
    requires Inv(cap, q) && Enabled(cap, q, PublishHead)
    ensures Inv(cap, Next(cap, q, PublishHead))
  {
    hide Capacity, Holds, ProducerOk, Word;
    var CRead(n, out, peek) := q.consumer;
    var c := |q.popped|;
    AddOf(c, n);
    assert q.pushed[..c] + q.pushed[c..c + n] == q.pushed[..c + n];
    HoldsRest(cap, q.buffer, c, q.pushed[c..], n);
    assert q.pushed[c..][n..] == q.pushed[c + n..];
  }

  lemma NextInv<T>(cap: nat, q: Queue<T>, s: Step<T>)
    requires Inv(cap, q) && Enabled(cap, q, s)
    ensures Inv(cap, Next(cap, q, s))
  {
    match s
    case StartPush(data) => StartPushInv(cap, q, data);
    case LoadHead => LoadHeadInv(cap, q);
    case WriteSlot => WriteSlotInv(cap, q);
    case PublishTail => PublishTailInv(cap, q);
    case StartPop(max, peek) => StartPopInv(cap, q, max, peek);
    case LoadTail => LoadTailInv(cap, q);
    case ReadSlot => ReadSlotInv(cap, q);
    case PublishHead => PublishHeadInv(cap, q);
  }

  // -------------------------------------------------------------- whole runs

  /** `qs` is what the queue goes through when `steps` are taken in turn from an empty ring. */
  ghost predicate Execution<T>(cap: nat, buffer: seq<T>, steps: seq<Step<T>>, qs: seq<Queue<T>>) {
    && Capacity(cap) && |buffer| == cap
    && |qs| == |steps| + 1 && qs[0] == Init(buffer)
    && forall i | 0 <= i < |steps| :: Enabled(cap, qs[i], steps[i]) && qs[i + 1] == Next(cap, qs[i], steps[i])
  }

  lemma {:induction false} ExecutionInv<T>(cap: nat, buffer: seq<T>, steps: seq<Step<T>>, qs: seq<Queue<T>>, i: nat)
    requires Execution(cap, buffer, steps, qs) && i < |qs|
    ensures Inv(cap, qs[i])
    decreases i
  {
    hide Inv, Next, Enabled, Capacity;
    if i == 0 {
      InitInv(cap, buffer);
    } else {
      ExecutionInv(cap, buffer, steps, qs, i - 1);
      NextInv(cap, qs[i - 1], steps[i - 1]);
    }
  }

  /** In every state of every interleaving: consumed elements are the published ones in order from
      the first, none twice and none skipped; the ring never holds more than its capacity; and
      `size()` reports exactly the published and unconsumed elements. */
  lemma FifoSafety<T>(cap: nat, buffer: seq<T>, steps: seq<Step<T>>, qs: seq<Queue<T>>, i: nat)
    requires Execution(cap, buffer, steps, qs) && i < |qs|
    ensures var q := qs[i];
            && q.popped <= q.pushed
            && |q.pushed| - |q.popped| <= cap
            && Sub(q.tail, q.head) == |q.pushed| - |q.popped|
  {
    ExecutionInv(cap, buffer, steps, qs, i);
    Within(cap, |qs[i].pushed|, |qs[i].popped|);
  }

  /** The slot the producer is about to store and the slot the consumer is about to load never
      coincide, and a store never lands on a published element that is still unread. */
  lemma NoSlotRace<T>(cap: nat, buffer: seq<T>, steps: seq<Step<T>>, qs: seq<Queue<T>>, i: nat, k: nat)
    requires Execution(cap, buffer, steps, qs) && i < |qs|
    requires Enabled(cap, qs[i], WriteSlot)
    ensures var q := qs[i];
            var at := Word(q.tail + q.producer.i) % cap;
            && (|q.popped| <= k < |q.pushed| ==> k % cap != at)
            && (Enabled(cap, q, ReadSlot) ==> Word(q.head + |q.consumer.out|) % cap != at)
  {
    hide Capacity, Word, Holds;
    ExecutionInv(cap, buffer, steps, qs, i);
    var q := qs[i];
    var at := |q.pushed| + q.producer.i;
    SlotAt(|q.pushed|, q.producer.i, cap);
    if |q.popped| <= k < |q.pushed| {
      SlotsDiffer(at, k, cap);
    }
    if Enabled(cap, q, ReadSlot) {
      var from := |q.popped| + |q.consumer.out|;
      SlotAt(|q.popped|, |q.consumer.out|, cap);
      SlotsDiffer(at, from, cap);
    }
  }

  /** A push is refused if and only if, at the moment the head is loaded, the batch really does not
      fit; a pop finds nothing if and only if, when the tail is loaded, the ring really is empty. */
  lemma RefusalsExact<T>(cap: nat, buffer: seq<T>, steps: seq<Step<T>>, qs: seq<Queue<T>>, i: nat)
    requires Execution(cap, buffer, steps, qs) && i < |steps|
    ensures var q, r := qs[i], qs[i + 1];
            && (steps[i].LoadHead? ==>
                (r.producer.PIdle? <==> |q.pushed| - |q.popped| + |q.producer.data| > cap))
            && (steps[i].LoadTail? ==> (r.consumer.CIdle? <==> q.popped == q.pushed))
  {
    hide Capacity;
    ExecutionInv(cap, buffer, steps, qs, i);
    var q := qs[i];
    FreeIs(cap, |q.pushed|, |q.popped|);
    Within(cap, |q.pushed|, |q.popped|);
  }

  /** A cached index never grants what is not there: room taken on the fast path is real room, and
      elements taken on the fast path are published elements. */
  lemma FastPathSafe<T>(cap: nat, buffer: seq<T>, steps: seq<Step<T>>, qs: seq<Queue<T>>, i: nat)
    requires Execution(cap, buffer, steps, qs) && i < |steps|
    ensures var q, r := qs[i], qs[i + 1];
            && (steps[i].StartPush? && r.producer.PWrite? ==> |q.pushed| + |steps[i].data| <= |q.popped| + cap)
            && (steps[i].StartPop? && r.consumer.CRead? ==> |q.popped| + r.consumer.n <= |q.pushed|)
  {
    hide Capacity;
    ExecutionInv(cap, buffer, steps, qs, i);
    ExecutionInv(cap, buffer, steps, qs, i + 1);
    var q := qs[i];
    if steps[i].StartPush? {
      FreeIs(cap, |q.pushed|, q.seenHead);
    }
  }

  predicate Reads<T>(c: Consumer<T>, n: int, peek: bool) {
    c.CRead? && c.n == n && |c.out| == 0 && c.peek == peek
  }

  /** What a thread turns to when it starts, or has reloaded the other's index. */
  predicate SetsOut<T(==)>(cap: nat, q: Queue<T>, s: Step<T>, r: Queue<T>)
    requires Enabled(cap, q, s)
  {
    var c := |q.popped|;
    match s
    case StartPush(data) =>
      r.producer == if data == [] then PIdle
                    else if |q.pushed| + |data| <= q.seenHead + cap then PWrite(data, 0) else PLoad(data)
    case LoadHead => !r.producer.PIdle? ==> r.producer == PWrite(q.producer.data, 0)
    case StartPop(max, peek) =>
      if max == 0 then r.consumer == CIdle
      else if q.seenTail == c then r.consumer == CLoad(max, peek)
      else Reads(r.consumer, Min(q.seenTail - c, max), peek)
    case LoadTail =>
      !r.consumer.CIdle? ==> Reads(r.consumer, Min(|q.pushed| - c, q.consumer.max), q.consumer.peek)
    case _ => true
  }

  /** How much a pop sets out to take, and when either side turns to the other's real index: exactly
      as many as asked for or as its view of the other index shows, whichever is less. The cached view
      is used as long as it shows room enough, or anything to take. */
  lemma TakesExact<T>(cap: nat, buffer: seq<T>, steps: seq<Step<T>>, qs: seq<Queue<T>>, i: nat)
    requires Execution(cap, buffer, steps, qs) && i < |steps|
    ensures SetsOut(cap, qs[i], steps[i], qs[i + 1])
  {
    hide Capacity, Holds;
    ExecutionInv(cap, buffer, steps, qs, i);
    var q := qs[i];
    FreeIs(cap, |q.pushed|, q.seenHead);
    Within(cap, |q.pushed|, |q.popped|);
    Within(cap, q.seenTail, |q.popped|);
  }

  /** Batches are all or nothing: publishing the tail publishes the whole batch of the push in
      progress, publishing the head consumes exactly what the pop copied unless it only peeked, and no
      other step publishes or consumes anything. */
  lemma BatchesAtomic<T>(cap: nat, buffer: seq<T>, steps: seq<Step<T>>, qs: seq<Queue<T>>, i: nat)
    requires Execution(cap, buffer, steps, qs) && i < |steps|
    ensures var q, r := qs[i], qs[i + 1];
            && r.pushed == (if steps[i].PublishTail? then q.pushed + q.producer.data else q.pushed)
            && (steps[i].PublishTail? ==> r.producer.PIdle?)
            && (steps[i].PublishHead? ==> r.consumer.CIdle?)
            && if steps[i].PublishHead? && !q.consumer.peek
               then |r.popped| == |q.popped| + q.consumer.n && r.popped <= q.pushed else r.popped == q.popped
  {
    hide Capacity, Holds;
    ExecutionInv(cap, buffer, steps, qs, i);
    var q := qs[i];
    if steps[i].PublishHead? {
      var c, n := |q.popped|, q.consumer.n;
      assert q.pushed[..c + n] == q.pushed[..c] + q.pushed[c..c + n];
    }
  }

  lemma StepTaken<T>(cap: nat, buffer: seq<T>, steps: seq<Step<T>>, qs: seq<Queue<T>>, i: nat)
    requires Execution(cap, buffer, steps, qs) && i < |steps|
    ensures |qs| == |steps| + 1 && Enabled(cap, qs[i], steps[i]) && qs[i + 1] == Next(cap, qs[i], steps[i])
  {}

  /** The batch a push was started with is the one it is still working on. */
  lemma {:induction false} BatchKept<T>(cap: nat, buffer: seq<T>, steps: seq<Step<T>>, qs: seq<Queue<T>>,
                                        j: nat, m: nat)
    requires Execution(cap, buffer, steps, qs) && j < m < |qs| && steps[j].StartPush?
    requires forall k | j < k <= m :: !qs[k].producer.PIdle?
    ensures qs[m].producer.data == steps[j].data
    decreases m
  {
    hide Execution, Capacity, Word, Sub;
    if m > j + 1 {
      BatchKept(cap, buffer, steps, qs, j, m - 1);
      assert !qs[m - 1].producer.PIdle?;
    }
    LengthOf(cap, buffer, steps, qs);
    StepTaken(cap, buffer, steps, qs, m - 1);
  }

  lemma LengthOf<T>(cap: nat, buffer: seq<T>, steps: seq<Step<T>>, qs: seq<Queue<T>>)
    requires Execution(cap, buffer, steps, qs)
    ensures |qs| == |steps| + 1
  {}

  /** Run level: what a push publishes is, whole and in order, the batch it was started with. */
  lemma PushPublishesItsBatch<T>(cap: nat, buffer: seq<T>, steps: seq<Step<T>>, qs: seq<Queue<T>>, j: nat, m: nat)
    requires Execution(cap, buffer, steps, qs) && j < m < |steps|
    requires steps[j].StartPush? && steps[m].PublishTail? && forall k | j < k <= m :: !qs[k].producer.PIdle?
    ensures qs[m + 1].pushed == qs[m].pushed + steps[j].data
  {
    hide Execution;
    LengthOf(cap, buffer, steps, qs);
    BatchKept(cap, buffer, steps, qs, j, m);
    BatchesAtomic(cap, buffer, steps, qs, m);
  }

  lemma {:induction false} DemandKept<T>(cap: nat, buffer: seq<T>, steps: seq<Step<T>>, qs: seq<Queue<T>>,
                                         j: nat, m: nat)
    requires Execution(cap, buffer, steps, qs) && j < m < |qs| && steps[j].StartPop?
    requires forall k | j < k <= m :: !qs[k].consumer.CIdle?
    ensures var c := qs[m].consumer;
            && c.peek == steps[j].peek
            && steps[j].max >= 1
            && (c.CLoad? ==> c.max == steps[j].max) && (c.CRead? ==> 1 <= c.n <= steps[j].max)
    ensures qs[m].popped == qs[j].popped
    decreases m
  {
    hide Execution, Capacity, Word, Sub;
    if m > j + 1 {
      DemandKept(cap, buffer, steps, qs, j, m - 1);
      assert !qs[m - 1].consumer.CIdle?;
    }
    LengthOf(cap, buffer, steps, qs);
    StepTaken(cap, buffer, steps, qs, m - 1);
  }

  /** Run level: what a pop hands over is, in order, the first elements not consumed before it, at
      least one and at most as many as it asked for; they are consumed unless it was a peek. */
  lemma PopTakesFirst<T>(cap: nat, buffer: seq<T>, steps: seq<Step<T>>, qs: seq<Queue<T>>, j: nat, m: nat)
    requires Execution(cap, buffer, steps, qs) && j < m < |steps|
    requires steps[j].StartPop? && steps[m].PublishHead? && forall k | j < k <= m :: !qs[k].consumer.CIdle?
    ensures var c, out := |qs[j].popped|, qs[m].consumer.out;
            && 1 <= |out| <= steps[j].max && c + |out| <= |qs[m].pushed|
            && out == qs[m].pushed[c..c + |out|]
            && |qs[m + 1].popped| == if steps[j].peek then c else c + |out|
  {
    hide Execution, Indices, Shadows, Holds, ProducerOk, Next;
    LengthOf(cap, buffer, steps, qs);
    DemandKept(cap, buffer, steps, qs, j, m);
    ExecutionInv(cap, buffer, steps, qs, m);
    BatchesAtomic(cap, buffer, steps, qs, m);
    StepTaken(cap, buffer, steps, qs, m);
  }

  // ----------------------------------------------------------------- progress

  /** Steps of its own a thread still needs. */
  function ProducerLeft<T>(p: Producer<T>): (n: int) {
    match p
    case PIdle => 0
    case PLoad(data) => |data| + 2
    case PWrite(data, i) => |data| - i + 1
  }

  function ConsumerLeft<T>(c: Consumer<T>, cap: nat): (n: int) {
    match c
    case CIdle => 0
    case CLoad(_, _) => cap + 2
    case CRead(n, out, _) => n - |out| + 1
  }

  predicate OfProducer<T>(s: Step<T>) {
    s.StartPush? || s.LoadHead? || s.WriteSlot? || s.PublishTail?
  }

  /** Both operations are wait-free: a thread in the middle of one always has a step to take, every
      such step brings it nearer the end, and nothing the other thread does sets it back. */
  lemma WaitFree<T>(cap: nat, buffer: seq<T>, steps: seq<Step<T>>, qs: seq<Queue<T>>, i: nat)
    requires Execution(cap, buffer, steps, qs) && i < |steps|
    ensures var q, r, s := qs[i], qs[i + 1], steps[i];
            && (!q.producer.PIdle? ==>
                Enabled(cap, q, LoadHead) || Enabled(cap, q, WriteSlot) || Enabled(cap, q, PublishTail))
            && (!q.consumer.CIdle? ==>
                Enabled(cap, q, LoadTail) || Enabled(cap, q, ReadSlot) || Enabled(cap, q, PublishHead))
            && (if OfProducer(s) then r.consumer == q.consumer else r.producer == q.producer)
            && (OfProducer(s) && !q.producer.PIdle? ==> 0 <= ProducerLeft(r.producer) < ProducerLeft(q.producer))
            && (!OfProducer(s) && !q.consumer.CIdle? ==>
                0 <= ConsumerLeft(r.consumer, cap) < ConsumerLeft(q.consumer, cap))
  {
    hide Capacity, Holds, Execution;
    LengthOf(cap, buffer, steps, qs);
    ExecutionInv(cap, buffer, steps, qs, i);
    ExecutionInv(cap, buffer, steps, qs, i + 1);
    StepTaken(cap, buffer, steps, qs, i);
  }
}
