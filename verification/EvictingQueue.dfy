/** The evicting single-producer single-consumer ring: per-slot sequence locks over multi-word
    elements, as every interleaving of single-word stores and loads by the two threads. Loads and
    stores interleave sequentially consistently; words of an element are copied in any order. */
module EvictingQueue {

  /** Sequence word (global index shifted left, low bit set while locked) and the element's words. */
  datatype Slot<V> = Slot(seqno: nat, data: seq<V>)

  datatype Writer = WIdle | WWrite(done: set<nat>) | WPublish

  datatype Reader<V> =
    | RIdle
    | RSlot(idx: nat)                                             // global index loaded
    | RRead(idx: nat, k: nat, seq1: nat, got: map<nat, V>)        // slot `k` seen unlocked at `seq1`

  /** A value handed to the reader, the index it was pushed with, and whether it was only peeked at. */
  datatype Taken<V> = Taken(idx: nat, value: seq<V>, peek: bool)

  /** `history[i - 1]` is the value pushed with index `i`, the last one possibly still being written;
      `accepted` is what the reader has been given, in order. */
  datatype Queue<V> = Queue(
    global: nat, slots: seq<Slot<V>>, writer: Writer, reader: Reader<V>, last: nat,
    history: seq<seq<V>>, accepted: seq<Taken<V>>)

  datatype Step<V> =
    | Lock(value: seq<V>) | WriteWord(j: nat) | Unlock | PublishGlobal
    | LoadGlobal | LoadSeq1 | ReadWord(j: nat) | LoadSeq2(peek: bool)

  /** Ring size and words per element. */
  datatype Shape = Shape(cap: nat, words: nat)

  predicate Good(s: Shape) {
    s.cap > 0
  }

  function Init<V>(s: Shape, blank: seq<V>): (q: Queue<V>) {
    Queue(0, seq(s.cap, i => Slot(0, blank)), WIdle, RIdle, 0, [], [])
  }

  /** The index of the push in progress, or of the latest one. */
  function Current<V>(q: Queue<V>): (n: nat) {
    |q.history|
  }

  predicate Enabled<V>(s: Shape, q: Queue<V>, step: Step<V>)
    requires Good(s)
  {
    && |q.slots| == s.cap
    && match step
       case Lock(value) => q.writer.WIdle? && |value| == s.words
       case WriteWord(j) =>
         && q.writer.WWrite? && j < s.words && j !in q.writer.done && q.history != []
         && |q.slots[Current(q) % s.cap].data| == |q.history[Current(q) - 1]| == s.words
       case Unlock => q.writer.WWrite? && forall j: nat | j < s.words :: j in q.writer.done
       case PublishGlobal => q.writer.WPublish?
       case LoadGlobal => q.reader.RIdle?
       case LoadSeq1 => q.reader.RSlot?
       case ReadWord(j) =>
         && q.reader.RRead? && j < s.words && j !in q.reader.got
         && q.reader.k < s.cap && |q.slots[q.reader.k].data| == s.words
       case LoadSeq2(_) =>
         && q.reader.RRead? && q.reader.k < s.cap
         && forall j: nat | j < s.words :: j in q.reader.got
  }

  /** The element assembled from the words read. */
  function Assembled<V>(s: Shape, got: map<nat, V>): (v: seq<V>)
    requires forall j: nat | j < s.words :: j in got
  {
    seq(s.words, j requires 0 <= j < s.words => got[j])
  }

  function Next<V>(s: Shape, q: Queue<V>, step: Step<V>): (r: Queue<V>)
    requires Good(s) && Enabled(s, q, step)
  {
    var w := Current(q) % s.cap;
    match step
    case Lock(value) =>
      var n := Current(q) + 1;
      var k := n % s.cap;
      q.(slots := q.slots[k := q.slots[k].(seqno := 2 * n + 1)], writer := WWrite({}), history := q.history + [value])
    case WriteWord(j) =>
      var slot := q.slots[w];
      q.(slots := q.slots[w := slot.(data := slot.data[j := q.history[Current(q) - 1][j]])],
         writer := WWrite(q.writer.done + {j}))
    case Unlock =>
      q.(slots := q.slots[w := q.slots[w].(seqno := 2 * Current(q))], writer := WPublish)
    case PublishGlobal =>
      q.(global := Current(q), writer := WIdle)
    case LoadGlobal =>
      if q.global <= q.last then q else q.(reader := RSlot(q.global))
    case LoadSeq1 =>
      var k := q.reader.idx % s.cap;
      var seq1 := q.slots[k].seqno;
      if seq1 % 2 == 1 || seq1 / 2 <= q.last then q.(reader := RIdle)
      else q.(reader := RRead(q.reader.idx, k, seq1, map[]))
    case ReadWord(j) =>
      var k := q.reader.k;
      q.(reader := q.reader.(got := q.reader.got[j := q.slots[k].data[j]]))
    case LoadSeq2(peek) =>
      var RRead(_, k, seq1, got) := q.reader;
      if q.slots[k].seqno != seq1 then q.(reader := RIdle)
      else
        var taken := q.(reader := RIdle, accepted := q.accepted + [Taken(seq1 / 2, Assembled(s, got), peek)]);
        if peek then taken else taken.(last := seq1 / 2)
  }

  // ---------------------------------------------------------------- invariant

  /** Pushes whose slot has been unlocked. */
  function Completed<V>(q: Queue<V>): (n: int) {
    if q.writer.WWrite? then Current(q) - 1 else Current(q)
  }

  ghost predicate WriterOk<V>(s: Shape, q: Queue<V>) {
    && (q.writer.WIdle? ==> q.global == Current(q))
    && (!q.writer.WIdle? ==> q.history != [] && q.global == Current(q) - 1)
    && (q.writer.WWrite? ==> forall j <- q.writer.done :: j < s.words)
    && forall i | 0 <= i < |q.history| :: |q.history[i]| == s.words
  }

  /** An unlocked slot holds, whole, the latest completed push that maps to it. */
  ghost predicate Unlocked<V>(s: Shape, slot: Slot<V>, k: nat, history: seq<seq<V>>, completed: int)
    requires Good(s)
  {
    var a := slot.seqno / 2;
    && slot.seqno % 2 == 0 && a <= completed <= |history|
    && (a > 0 ==> a % s.cap == k && slot.data == history[a - 1])
    && forall i: nat :: 1 <= i <= completed && i % s.cap == k ==> i <= a
  }

  /** The slot under the writer's lock: odd, and new in the words stored so far. */
  ghost predicate Locked<V>(s: Shape, slot: Slot<V>, history: seq<seq<V>>, done: set<nat>) {
    && slot.seqno == 2 * |history| + 1 && history != []
    && |slot.data| == |history[|history| - 1]| == s.words
    && forall j: nat :: j in done && j < s.words ==> slot.data[j] == history[|history| - 1][j]
  }

  ghost predicate SlotsOk<V>(s: Shape, q: Queue<V>)
    requires Good(s)
  {
    && |q.slots| == s.cap
    && forall k: nat :: k < s.cap ==>
         && |q.slots[k].data| == s.words
         && if q.writer.WWrite? && k == Current(q) % s.cap then Locked(s, q.slots[k], q.history, q.writer.done)
            else Unlocked(s, q.slots[k], k, q.history, Completed(q))
  }

  /** While the slot still shows the sequence first seen, every word read is that push's word. */
  ghost predicate ReaderOk<V>(s: Shape, q: Queue<V>)
    requires Good(s) && |q.slots| == s.cap
  {
    match q.reader
    case RIdle => true
    case RSlot(idx) => q.last < idx <= q.global
    case RRead(idx, k, seq1, got) =>
      var a := seq1 / 2;
      && k < s.cap && seq1 == 2 * a && idx <= a && q.last < a <= Completed(q)
      && (q.slots[k].seqno == seq1 || q.slots[k].seqno > seq1 + 1)
      && (q.slots[k].seqno == seq1 ==>
          |q.history[a - 1]| == s.words && forall j: nat :: j in got && j < s.words ==> got[j] == q.history[a - 1][j])
  }

  /** Everything handed over is one push, whole, and newer than anything consumed before it. */
  ghost predicate AcceptedOk<V>(history: seq<seq<V>>, accepted: seq<Taken<V>>, last: nat) {
    && (forall i | 0 <= i < |accepted| ::
          1 <= accepted[i].idx <= |history| && accepted[i].value == history[accepted[i].idx - 1])
    && (forall i | 0 <= i < |accepted| :: !accepted[i].peek ==> accepted[i].idx <= last)
    && (forall i, j | 0 <= i < j < |accepted| :: !accepted[i].peek ==> accepted[i].idx < accepted[j].idx)
  }

  ghost predicate Inv<V>(s: Shape, q: Queue<V>)
    requires Good(s)
  {
    WriterOk(s, q) && SlotsOk(s, q) && ReaderOk(s, q) && AcceptedOk(q.history, q.accepted, q.last)
  }

  lemma InitInv<V>(s: Shape, blank: seq<V>)
    requires Good(s) && |blank| == s.words
    ensures Inv(s, Init(s, blank))
  {}

  lemma SlotBelow(n: nat, cap: nat)
    requires cap > 0
    ensures n % cap < cap
  {}

  lemma LockInv<V>(s: Shape, q: Queue<V>, value: seq<V>)
    requires Good(s) && Inv(s, q) && Enabled(s, q, Lock(value))
    ensures Inv(s, Next(s, q, Lock(value)))
  {
    var r := Next(s, q, Lock(value));
    var n := Current(q) + 1;
    assert forall i | 0 <= i < |q.history| :: r.history[i] == q.history[i];
    forall k: nat | k < s.cap
      ensures |r.slots[k].data| == s.words
      ensures if k == n % s.cap then Locked(s, r.slots[k], r.history, {})
              else Unlocked(s, r.slots[k], k, r.history, n - 1)
    {
      assert Unlocked(s, q.slots[k], k, q.history, n - 1);
    }
  }

  lemma WriteWordInv<V>(s: Shape, q: Queue<V>, j: nat)
    requires Good(s) && Inv(s, q) && Enabled(s, q, WriteWord(j))
    ensures Inv(s, Next(s, q, WriteWord(j)))
  {
    var r := Next(s, q, WriteWord(j));
    var w := Current(q) % s.cap;
    assert Locked(s, q.slots[w], q.history, q.writer.done);
    assert Locked(s, r.slots[w], q.history, q.writer.done + {j});
    forall k: nat | k < s.cap && k != w
      ensures r.slots[k] == q.slots[k]
    {}
  }

  lemma UnlockInv<V>(s: Shape, q: Queue<V>)
    requires Good(s) && Inv(s, q) && Enabled(s, q, Unlock)
    ensures Inv(s, Next(s, q, Unlock))
  {
    hide Unlocked, AcceptedOk;
    var r := Next(s, q, Unlock);
    var n := Current(q);
    var w := n % s.cap;
    SlotBelow(n, s.cap);
    UnlockedNow(s, q.slots[w], q.history, q.writer.done);
    forall k: nat | k < s.cap
      ensures Unlocked(s, r.slots[k], k, r.history, n)
    {
      if k != w {
        assert Unlocked(s, q.slots[k], k, q.history, n - 1);
        UnlockedLater(s, q.slots[k], k, q.history, n);
      }
    }
  }

  lemma UnlockedNow<V>(s: Shape, slot: Slot<V>, history: seq<seq<V>>, done: set<nat>)
    requires Good(s) && Locked(s, slot, history, done) && forall j: nat | j < s.words :: j in done
    ensures var n := |history|; Unlocked(s, slot.(seqno := 2 * n), n % s.cap, history, n)
  {
    assert slot.data == history[|history| - 1];
  }

  lemma UnlockedLater<V>(s: Shape, slot: Slot<V>, k: nat, history: seq<seq<V>>, n: nat)
    requires Good(s) && 1 <= n <= |history| && Unlocked(s, slot, k, history, n - 1) && n % s.cap != k
    ensures Unlocked(s, slot, k, history, n)
  {}

  lemma PublishGlobalInv<V>(s: Shape, q: Queue<V>)
    requires Good(s) && Inv(s, q) && Enabled(s, q, PublishGlobal)
    ensures Inv(s, Next(s, q, PublishGlobal))
  {
    var r := Next(s, q, PublishGlobal);
    assert Completed(r) == Completed(q);
  }

  /** What an even sequence says about its slot. */
  lemma EvenSlot<V>(s: Shape, q: Queue<V>, k: nat, idx: nat)
    requires Good(s) && SlotsOk(s, q) && k < s.cap && q.slots[k].seqno % 2 == 0
    ensures var a := q.slots[k].seqno / 2;
            && a <= Completed(q) <= |q.history|
            && (a > 0 ==> q.slots[k].data == q.history[a - 1] && |q.slots[k].data| == s.words)
            && (1 <= idx <= Completed(q) && idx % s.cap == k ==> idx <= a)
  {
    if q.writer.WWrite? && k == Current(q) % s.cap {
      assert Locked(s, q.slots[k], q.history, q.writer.done);
    } else {
      assert Unlocked(s, q.slots[k], k, q.history, Completed(q));
    }
  }

  lemma LoadSeq1Inv<V>(s: Shape, q: Queue<V>)
    requires Good(s) && Inv(s, q) && Enabled(s, q, LoadSeq1)
    ensures Inv(s, Next(s, q, LoadSeq1))
  {
    hide Locked, Unlocked, AcceptedOk;
    var k := q.reader.idx % s.cap;
    SlotBelow(q.reader.idx, s.cap);
    if q.slots[k].seqno % 2 == 0 {
      EvenSlot(s, q, k, q.reader.idx);
    }
  }

  lemma ReadWordInv<V>(s: Shape, q: Queue<V>, j: nat)
    requires Good(s) && Inv(s, q) && Enabled(s, q, ReadWord(j))
    ensures Inv(s, Next(s, q, ReadWord(j)))
  {
    hide Locked, Unlocked, AcceptedOk;
    var RRead(idx, k, seq1, got) := q.reader;
    if q.slots[k].seqno == seq1 {
      EvenSlot(s, q, k, 0);
    }
  }

  lemma LoadSeq2Inv<V>(s: Shape, q: Queue<V>, peek: bool)
    requires Good(s) && Inv(s, q) && Enabled(s, q, LoadSeq2(peek))
    ensures Inv(s, Next(s, q, LoadSeq2(peek)))
  {
    hide SlotsOk, AcceptedOk, Assembled;
    var RRead(idx, k, seq1, got) := q.reader;
    if q.slots[k].seqno == seq1 {
      GotAll(s, q, seq1 / 2);
      AcceptedNext(q.history, q.accepted, q.last, Taken(seq1 / 2, Assembled(s, got), peek));
    }
    SlotsKept(s, q, Next(s, q, LoadSeq2(peek)));
  }

  lemma SlotsKept<V>(s: Shape, q: Queue<V>, r: Queue<V>)
    requires Good(s) && SlotsOk(s, q) && r.slots == q.slots && r.writer == q.writer && r.history == q.history
    ensures SlotsOk(s, r)
  {}

  lemma AcceptedNext<V>(history: seq<seq<V>>, accepted: seq<Taken<V>>, last: nat, t: Taken<V>)
    requires AcceptedOk(history, accepted, last)
    requires last < t.idx <= |history| && t.value == history[t.idx - 1]
    ensures AcceptedOk(history, accepted + [t], if t.peek then last else t.idx)
  {}

  /** Words read from the slot of push `n`, all of them, are that push. */
  lemma GotAll<V>(s: Shape, q: Queue<V>, n: nat)
    requires Good(s) && |q.slots| == s.cap && ReaderOk(s, q) && q.reader.RRead?
    requires 0 < n <= |q.history| && q.reader.k < s.cap
    requires q.reader.seq1 == 2 * n && q.slots[q.reader.k].seqno == 2 * n
    requires forall j: nat | j < s.words :: j in q.reader.got
    ensures Assembled(s, q.reader.got) == q.history[n - 1]
  {}

  lemma NextInv<V>(s: Shape, q: Queue<V>, step: Step<V>)
    requires Good(s) && Inv(s, q) && Enabled(s, q, step)
    ensures Inv(s, Next(s, q, step))
  {
    match step
    case Lock(value) => LockInv(s, q, value);
    case WriteWord(j) => WriteWordInv(s, q, j);
    case Unlock => UnlockInv(s, q);
    case PublishGlobal => PublishGlobalInv(s, q);
    case LoadGlobal =>
    case LoadSeq1 => LoadSeq1Inv(s, q);
    case ReadWord(j) => ReadWordInv(s, q, j);
    case LoadSeq2(peek) => LoadSeq2Inv(s, q, peek);
  }

  // -------------------------------------------------------------- whole runs

  ghost predicate Execution<V>(s: Shape, blank: seq<V>, steps: seq<Step<V>>, qs: seq<Queue<V>>)
    requires Good(s)
  {
    && |blank| == s.words
    && |qs| == |steps| + 1 && qs[0] == Init(s, blank)
    && forall i | 0 <= i < |steps| :: Enabled(s, qs[i], steps[i]) && qs[i + 1] == Next(s, qs[i], steps[i])
  }

  lemma {:induction false} ExecutionInv<V>(s: Shape, blank: seq<V>, steps: seq<Step<V>>, qs: seq<Queue<V>>, i: nat)
    requires Good(s) && Execution(s, blank, steps, qs) && i < |qs|
    ensures Inv(s, qs[i])
    decreases i
  {
    hide Inv, Next, Enabled;
    if i == 0 {
      InitInv(s, blank);
    } else {
      ExecutionInv(s, blank, steps, qs, i - 1);
      NextInv(s, qs[i - 1], steps[i - 1]);
    }
  }

  /** In every state of every interleaving, each value the reader was handed is, in all its words, one
      value the writer pushed: never a mix of two. Whatever follows a consumed value is newer. */
  lemma NeverTorn<V>(s: Shape, blank: seq<V>, steps: seq<Step<V>>, qs: seq<Queue<V>>, i: nat)
    requires Good(s) && Execution(s, blank, steps, qs) && i < |qs|
    ensures var q := qs[i];
            && (forall t <- q.accepted :: 1 <= t.idx <= |q.history| && t.value == q.history[t.idx - 1])
            && (forall a, b | 0 <= a < b < |q.accepted| && !q.accepted[a].peek :: q.accepted[a].idx < q.accepted[b].idx)
  {
    hide SlotsOk, WriterOk, ReaderOk;
    ExecutionInv(s, blank, steps, qs, i);
  }

  /** A slot's sequence is odd exactly while the writer is between locking and unlocking that slot. */
  lemma OddIffWriting<V>(s: Shape, blank: seq<V>, steps: seq<Step<V>>, qs: seq<Queue<V>>, i: nat, k: nat)
    requires Good(s) && Execution(s, blank, steps, qs) && i < |qs| && k < s.cap
    ensures var q := qs[i];
            |q.slots| == s.cap && (q.slots[k].seqno % 2 == 1 <==> q.writer.WWrite? && k == Current(q) % s.cap)
  {
    hide AcceptedOk, ReaderOk, WriterOk;
    ExecutionInv(s, blank, steps, qs, i);
    var q := qs[i];
    if q.writer.WWrite? && k == Current(q) % s.cap {
      assert Locked(s, q.slots[k], q.history, q.writer.done);
    } else {
      assert Unlocked(s, q.slots[k], k, q.history, Completed(q));
    }
  }

  /** The reader goes on with the index it loaded until it is idle again. */
  lemma {:induction false} IndexKept<V>(s: Shape, blank: seq<V>, steps: seq<Step<V>>, qs: seq<Queue<V>>, j: nat, i: nat)
    requires Good(s) && Execution(s, blank, steps, qs) && j < i < |qs| && steps[j].LoadGlobal?
    requires forall k | j < k <= i :: !qs[k].reader.RIdle?
    ensures qs[i].reader.idx == qs[j].global
  {
    if i > j + 1 {
      IndexKept(s, blank, steps, qs, j, i - 1);
      assert !qs[i - 1].reader.RIdle?;
    }
    assert Enabled(s, qs[i - 1], steps[i - 1]) && qs[i] == Next(s, qs[i - 1], steps[i - 1]);
  }

  /** Whatever the interleaving, a value handed over is one pushed, whole, no older than the newest
      one published when its read began, and newer than anything consumed before. */
  lemma NeverStale<V>(s: Shape, blank: seq<V>, steps: seq<Step<V>>, qs: seq<Queue<V>>, j: nat, i: nat)
    requires Good(s) && Execution(s, blank, steps, qs) && j < i < |steps|
    requires steps[j].LoadGlobal? && steps[i].LoadSeq2? && forall k | j < k <= i :: !qs[k].reader.RIdle?
    requires |qs[i + 1].accepted| > |qs[i].accepted|
    ensures var t := qs[i + 1].accepted[|qs[i].accepted|];
            && qs[j].global <= t.idx && 1 <= t.idx <= |qs[i].history| && t.value == qs[i].history[t.idx - 1]
            && t.idx > qs[i].last
  {
    hide SlotsOk, WriterOk, Execution;
    StepTaken(s, blank, steps, qs, i);
    IndexKept(s, blank, steps, qs, j, i);
    ExecutionInv(s, blank, steps, qs, i);
    ExecutionInv(s, blank, steps, qs, i + 1);
  }

  lemma StepTaken<V>(s: Shape, blank: seq<V>, steps: seq<Step<V>>, qs: seq<Queue<V>>, i: nat)
    requires Good(s) && Execution(s, blank, steps, qs) && i < |steps|
    ensures |qs| == |steps| + 1 && Enabled(s, qs[i], steps[i]) && qs[i + 1] == Next(s, qs[i], steps[i])
  {}

  // ---------------------------------------------------------- pushes and progress

  /** The values of the pushes begun, in order. */
  function Begun<V>(steps: seq<Step<V>>): (vs: seq<seq<V>>) {
    if steps == [] then []
    else
      var last := steps[|steps| - 1];
      Begun(steps[..|steps| - 1]) + if last.Lock? then [last.value] else []
  }

  /** What counts as pushed is what the pushes were given, in order: none lost, changed or added. */
  lemma {:induction false} HistoryIsBegun<V>(s: Shape, blank: seq<V>, steps: seq<Step<V>>, qs: seq<Queue<V>>, i: nat)
    requires Good(s) && Execution(s, blank, steps, qs) && i < |qs|
    ensures qs[i].history == Begun(steps[..i])
    decreases i
  {
    hide Enabled;
    if i > 0 {
      HistoryIsBegun(s, blank, steps, qs, i - 1);
      assert steps[..i][..i - 1] == steps[..i - 1];
      assert Enabled(s, qs[i - 1], steps[i - 1]);
    }
  }

  /** The writer can begin to push `value`, or has a step of its push to take. */
  ghost predicate WriterCanGo<V>(s: Shape, q: Queue<V>, value: seq<V>)
    requires Good(s)
  {
    match q.writer
    case WIdle => Enabled(s, q, Lock(value))
    case WWrite(_) => Enabled(s, q, Unlock) || exists j: nat :: Enabled(s, q, WriteWord(j))
    case WPublish => Enabled(s, q, PublishGlobal)
  }

  ghost predicate ReaderCanGo<V>(s: Shape, q: Queue<V>)
    requires Good(s)
  {
    match q.reader
    case RIdle => Enabled(s, q, LoadGlobal)
    case RSlot(_) => Enabled(s, q, LoadSeq1)
    case RRead(_, _, _, _) => Enabled(s, q, LoadSeq2(true)) || exists j: nat :: Enabled(s, q, ReadWord(j))
  }

  /** Neither thread ever waits for the other: whatever the state, a thread in the middle of an
      operation has a step to take, and an idle one can begin. */
  lemma NeverBlocked<V>(s: Shape, blank: seq<V>, steps: seq<Step<V>>, qs: seq<Queue<V>>, i: nat, value: seq<V>)
    requires Good(s) && Execution(s, blank, steps, qs) && i < |qs| && |value| == s.words
    ensures WriterCanGo(s, qs[i], value) && ReaderCanGo(s, qs[i])
  {
    hide AcceptedOk, Execution;
    ExecutionInv(s, blank, steps, qs, i);
    var q := qs[i];
    if q.writer.WWrite? && exists j: nat :: j < s.words && j !in q.writer.done {
      var j: nat :| j < s.words && j !in q.writer.done;
      SlotBelow(Current(q), s.cap);
      SlotWords(s, q, Current(q) % s.cap);
      assert Enabled(s, q, WriteWord(j));
    }
    if q.reader.RRead? && exists j: nat :: j < s.words && j !in q.reader.got {
      var j: nat :| j < s.words && j !in q.reader.got;
      SlotWords(s, q, q.reader.k);
      assert Enabled(s, q, ReadWord(j));
    }
  }

  /** Steps of its own a thread still needs to end its operation. */
  function WriterLeft(s: Shape, w: Writer): (n: int) {
    match w
    case WIdle => 0
    case WWrite(done) => s.words - |done| + 2
    case WPublish => 1
  }

  function ReaderLeft<V>(s: Shape, r: Reader<V>): (n: int) {
    match r
    case RIdle => 0
    case RSlot(_) => s.words + 2
    case RRead(_, _, _, got) => s.words - |got| + 1
  }

  predicate OfWriter<V>(step: Step<V>) {
    step.Lock? || step.WriteWord? || step.Unlock? || step.PublishGlobal?
  }

  /** Both operations are wait-free: every step a thread takes in the middle of one brings it nearer the
      end, and nothing the other thread does sets it back. */
  lemma WaitFree<V>(s: Shape, blank: seq<V>, steps: seq<Step<V>>, qs: seq<Queue<V>>, i: nat)
    requires Good(s) && Execution(s, blank, steps, qs) && i < |steps|
    ensures var q, r, w := qs[i], qs[i + 1], OfWriter(steps[i]);
            && (w ==> r.reader == q.reader) && (!w ==> r.writer == q.writer)
            && (w && !q.writer.WIdle? ==> 0 <= WriterLeft(s, r.writer) < WriterLeft(s, q.writer))
            && (!w && !q.reader.RIdle? ==> 0 <= ReaderLeft(s, r.reader) < ReaderLeft(s, q.reader))
  {
    hide Execution, SlotsOk, ReaderOk, AcceptedOk;
    StepTaken(s, blank, steps, qs, i);
    NothingNegative(s, blank, steps, qs, i);
    NothingNegative(s, blank, steps, qs, i + 1);
  }

  lemma NothingNegative<V>(s: Shape, blank: seq<V>, steps: seq<Step<V>>, qs: seq<Queue<V>>, i: nat)
    requires Good(s) && Execution(s, blank, steps, qs) && i < |qs|
    ensures qs[i].writer.WWrite? ==> |qs[i].writer.done| <= s.words
    ensures qs[i].reader.RRead? ==> |qs[i].reader.got| <= s.words
  {
    hide Execution, SlotsOk, ReaderOk, AcceptedOk;
    ExecutionInv(s, blank, steps, qs, i);
    if qs[i].writer.WWrite? {
      FewerThan(qs[i].writer.done, s.words);
    }
    if qs[i].reader.RRead? {
      WordsRead(s, blank, steps, qs, i);
      FewerThan(qs[i].reader.got.Keys, s.words);
    }
  }

  /** Only words there are have been read. */
  lemma {:induction false} WordsRead<V>(s: Shape, blank: seq<V>, steps: seq<Step<V>>, qs: seq<Queue<V>>, i: nat)
    requires Good(s) && Execution(s, blank, steps, qs) && i < |qs| && qs[i].reader.RRead?
    ensures forall j <- qs[i].reader.got :: j < s.words
    decreases i
  {
    if i > 0 {
      assert Enabled(s, qs[i - 1], steps[i - 1]) && qs[i] == Next(s, qs[i - 1], steps[i - 1]);
      if qs[i - 1].reader.RRead? {
        WordsRead(s, blank, steps, qs, i - 1);
      }
    }
  }

  lemma {:induction false} FewerThan(xs: set<nat>, n: nat)
    requires forall x <- xs :: x < n
    ensures |xs| <= n
  {
    if n == 0 {
      assert xs == {};
    } else {
      FewerThan(xs - {n - 1}, n - 1);
    }
  }

  // ----------------------------------------------------------- peeking leaves unread

  /** The index of the value consumed last, peeks not counted; 0 when there is none. */
  function LastConsumed<V>(accepted: seq<Taken<V>>): (n: nat) {
    if accepted == [] then 0
    else
      var t := accepted[|accepted| - 1];
      if t.peek then LastConsumed(accepted[..|accepted| - 1]) else t.idx
  }

  lemma LastConsumedNext<V>(accepted: seq<Taken<V>>, t: Taken<V>)
    ensures LastConsumed(accepted + [t]) == if t.peek then LastConsumed(accepted) else t.idx
  {
    assert (accepted + [t])[..|accepted|] == accepted;
  }

  /** In every state of every interleaving the reader counts as read exactly what it consumed: a peek
      never moves its index, and nothing else does. */
  lemma {:induction false} LastIsConsumed<V>(s: Shape, blank: seq<V>, steps: seq<Step<V>>, qs: seq<Queue<V>>, i: nat)
    requires Good(s) && Execution(s, blank, steps, qs) && i < |qs|
    ensures qs[i].last == LastConsumed(qs[i].accepted)
    decreases i
  {
    hide Enabled, LastConsumed, Execution;
    StartsEmpty(s, blank, steps, qs);
    if i > 0 {
      LastIsConsumed(s, blank, steps, qs, i - 1);
      StepTaken(s, blank, steps, qs, i - 1);
      LastNext(s, qs[i - 1], steps[i - 1]);
    }
  }

  lemma StartsEmpty<V>(s: Shape, blank: seq<V>, steps: seq<Step<V>>, qs: seq<Queue<V>>)
    requires Good(s) && Execution(s, blank, steps, qs)
    ensures |qs| == |steps| + 1 && qs[0].last == LastConsumed(qs[0].accepted)
  {}

  lemma LastNext<V>(s: Shape, q: Queue<V>, step: Step<V>)
    requires Good(s) && Enabled(s, q, step) && q.last == LastConsumed(q.accepted)
    ensures Next(s, q, step).last == LastConsumed(Next(s, q, step).accepted)
  {
    hide LastConsumed, Assembled;
    if step.LoadSeq2? {
      var RRead(_, k, seq1, got) := q.reader;
      LastConsumedNext(q.accepted, Taken(seq1 / 2, Assembled(s, got), step.peek));
    }
  }

  /** From step `j` to before step `m` no push begins and nothing is consumed. */
  ghost predicate OnlyPeeks<V>(steps: seq<Step<V>>, j: nat, m: nat) {
    j <= m <= |steps| && forall k | j <= k < m :: !steps[k].Lock? && (steps[k].LoadSeq2? ==> steps[k].peek)
  }

  /** The reader is on its way to the newest value, with no writer about. */
  ghost predicate OnNewest<V>(s: Shape, q: Queue<V>, n: nat, history: seq<seq<V>>, last: nat)
    requires Good(s)
  {
    && q.writer.WIdle? && q.global == n && q.history == history && q.last == last && last < n == |history|
    && |q.slots| == s.cap
    && (q.reader.RSlot? ==> q.reader.idx == n)
    && (q.reader.RRead? ==> q.reader.k == n % s.cap && q.reader.seq1 == 2 * n && q.slots[n % s.cap].seqno == 2 * n)
  }

  /** With no writer about, the newest push's slot shows its index. */
  lemma NewestSlot<V>(s: Shape, q: Queue<V>)
    requires Good(s) && Inv(s, q) && q.writer.WIdle? && q.global > 0
    ensures var n := q.global;
            n == |q.history| && |q.slots| == s.cap && q.slots[n % s.cap].seqno == 2 * n
  {
    var n := q.global;
    SlotBelow(n, s.cap);
    assert Unlocked(s, q.slots[n % s.cap], n % s.cap, q.history, n);
  }

  lemma OnNewestNext<V>(s: Shape, q: Queue<V>, step: Step<V>, n: nat, history: seq<seq<V>>, last: nat)
    requires Good(s) && Inv(s, q) && Enabled(s, q, step) && OnNewest(s, q, n, history, last)
    requires !step.Lock? && (step.LoadSeq2? ==> step.peek)
    ensures OnNewest(s, Next(s, q, step), n, history, last)
  {
    hide SlotsOk, WriterOk, ReaderOk, AcceptedOk;
    NewestSlot(s, q);
    SlotBelow(n, s.cap);
  }

  lemma {:induction false} StaysOnNewest<V>(s: Shape, blank: seq<V>, steps: seq<Step<V>>, qs: seq<Queue<V>>,
                                            j: nat, m: nat)
    requires Good(s) && Execution(s, blank, steps, qs) && OnlyPeeks(steps, j, m) && m < |qs|
    requires qs[j].writer.WIdle? && qs[j].reader.RIdle? && qs[j].last < qs[j].global
    ensures OnNewest(s, qs[m], qs[j].global, qs[j].history, qs[j].last)
    decreases m
  {
    hide Inv, Next, Enabled, Execution;
    if m == j {
      ExecutionInv(s, blank, steps, qs, j);
      BeginsOnNewest(s, qs[j]);
    } else {
      StaysOnNewest(s, blank, steps, qs, j, m - 1);
      ExecutionInv(s, blank, steps, qs, m - 1);
      StepTaken(s, blank, steps, qs, m - 1);
      OnNewestNext(s, qs[m - 1], steps[m - 1], qs[j].global, qs[j].history, qs[j].last);
    }
  }

  lemma BeginsOnNewest<V>(s: Shape, q: Queue<V>)
    requires Good(s) && Inv(s, q) && q.writer.WIdle? && q.reader.RIdle? && q.last < q.global
    ensures OnNewest(s, q, q.global, q.history, q.last)
  {}

  /** Run level: while no push begins and nothing is consumed, however often the newest value was
      peeked at, every read that begins goes on to the end and hands over that very value again. */
  lemma PeeksLeaveUnread<V>(s: Shape, blank: seq<V>, steps: seq<Step<V>>, qs: seq<Queue<V>>, j: nat, m: nat)
    requires Good(s) && Execution(s, blank, steps, qs) && OnlyPeeks(steps, j, m) && m < |steps|
    requires qs[j].writer.WIdle? && qs[j].reader.RIdle? && qs[j].last < qs[j].global
    ensures var n, r := qs[j].global, qs[m + 1];
            && (steps[m].LoadGlobal? ==> r.reader == RSlot(n))
            && (steps[m].LoadSeq1? ==> r.reader.RRead?)
            && (steps[m].LoadSeq2? ==>
                n <= |qs[j].history| &&
                r.accepted == qs[m].accepted + [Taken(n, qs[j].history[n - 1], steps[m].peek)])
  {
    hide Inv, Execution, ReaderOk, Assembled;
    StepTaken(s, blank, steps, qs, m);
    StaysOnNewest(s, blank, steps, qs, j, m);
    ExecutionInv(s, blank, steps, qs, m);
    var n := qs[j].global;
    NewestSlot(s, qs[m]);
    SlotBelow(n, s.cap);
    if steps[m].LoadSeq2? {
      ReaderPart(s, qs[m]);
      GotAll(s, qs[m], n);
    }
  }

  lemma ReaderPart<V>(s: Shape, q: Queue<V>)
    requires Good(s) && Inv(s, q)
    ensures |q.slots| == s.cap && ReaderOk(s, q)
  {
    hide ReaderOk, AcceptedOk;
  }

  // ------------------------------------------------- a read left in peace succeeds

  /** The words read so far with no writer about: the first `m` of slot `k`. */
  function ReadSome<V>(s: Shape, q: Queue<V>, m: nat): (r: Queue<V>)
    requires Good(s) && |q.slots| == s.cap && q.reader.RRead? && q.reader.k < s.cap
    requires |q.slots[q.reader.k].data| == s.words && m <= s.words && q.reader.got == map[]
    ensures r == q.(reader := r.reader) && r.reader.RRead? && r.reader == q.reader.(got := r.reader.got)
    ensures forall j: nat :: j in r.reader.got <==> j < m
  {
    if m == 0 then q
    else
      var p := ReadSome(s, q, m - 1);
      Next(s, p, ReadWord(m - 1))
  }

  /** With no push in progress and something unread, a read that no push interrupts hands over
      exactly the newest value pushed. */
  lemma UncontendedRead<V>(s: Shape, q: Queue<V>, peek: bool)
    requires Good(s) && Inv(s, q) && q.writer.WIdle? && q.reader.RIdle? && q.global > q.last
    ensures var a := Next(s, q, LoadGlobal);
            && Enabled(s, a, LoadSeq1)
            && var b := Next(s, a, LoadSeq1);
            && b.reader.RRead? && b.reader.k < s.cap && b.reader.got == map[] && |b.slots| == s.cap
            && |b.slots[b.reader.k].data| == s.words
            && var c := ReadSome(s, b, s.words);
            && Enabled(s, c, LoadSeq2(peek))
            && Next(s, c, LoadSeq2(peek)).accepted == q.accepted + [Taken(q.global, q.history[q.global - 1], peek)]
  {
    hide SlotsOk, WriterOk, ReaderOk, AcceptedOk, Assembled;
    var n := q.global;
    SlotBelow(n, s.cap);
    NewestSlot(s, q);
    var a := Next(s, q, LoadGlobal);
    NextInv(s, q, LoadGlobal);
    var b := Next(s, a, LoadSeq1);
    NextInv(s, a, LoadSeq1);
    SlotWords(s, b, n % s.cap);
    ReadSomeInv(s, b, s.words);
    var c := ReadSome(s, b, s.words);
    GotAll(s, c, n);
  }

  lemma SlotWords<V>(s: Shape, q: Queue<V>, k: nat)
    requires Good(s) && SlotsOk(s, q) && k < s.cap
    ensures |q.slots| == s.cap && |q.slots[k].data| == s.words
  {}

  lemma {:induction false} ReadSomeInv<V>(s: Shape, q: Queue<V>, m: nat)
    requires Good(s) && Inv(s, q) && q.reader.RRead? && q.reader.k < s.cap
    requires |q.slots| == s.cap && |q.slots[q.reader.k].data| == s.words && m <= s.words && q.reader.got == map[]
    ensures Inv(s, ReadSome(s, q, m))
  {
    hide Inv, Next;
    if m > 0 {
      ReadSomeInv(s, q, m - 1);
      ReadWordInv(s, ReadSome(s, q, m - 1), m - 1);
    }
  }
}
