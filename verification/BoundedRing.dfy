/** The bounded queue as an object: its batch operations run to completion one at a time, over the
    same wrapped indices, cached copies and slots as the interleaved steps. */
module BoundedRing {
  import opened Basics
  import opened WordIndex
  import opened BoundedQueue

  class Ring<T(0)> {
    const buffer: array<T>
    var tail: nat
    var shadowHead: nat
    var head: nat
    var shadowTail: nat
    // History: everything pushed and popped, and the counters behind the cached words.
    ghost var pushed: seq<T>
    ghost var consumed: nat
    ghost var seenHead: nat
    ghost var seenTail: nat

    ghost predicate Valid()
      reads this, buffer
    {
      var cap, p := buffer.Length, |pushed|;
      && Capacity(cap) && consumed <= p <= consumed + cap
      && tail == Word(p) && head == Word(consumed)
      && shadowHead == Word(seenHead) && seenHead <= consumed && p <= seenHead + cap
      && shadowTail == Word(seenTail) && consumed <= seenTail <= p
      && Holds(cap, buffer[..], consumed, pushed[consumed..])
    }

    /** The elements waiting in the queue. */
    ghost function Contents(): (s: seq<T>)
      requires Valid()
      reads this, buffer
    {
      pushed[consumed..]
    }

    constructor (cap: nat)
      requires Capacity(cap)
      ensures Valid() && fresh(buffer) && buffer.Length == cap && Contents() == []
      ensures seenTail == consumed == 0
    {
      buffer := new T[cap];
      tail, shadowHead, head, shadowTail := 0, 0, 0, 0;
      pushed, consumed, seenHead, seenTail := [], 0, 0, 0;
      new;
      var _ := CapacityDivides(cap);
    }

    /** All of `data` or none of it. */
    method TryPushN(data: seq<T>) returns (ok: bool)
      requires Valid()
      modifies this, buffer
      ensures Valid() && consumed == old(consumed) && seenTail == old(seenTail)
      ensures ok <==> |old(Contents())| + |data| <= buffer.Length
      ensures Contents() == if ok then old(Contents()) + data else old(Contents())
    {
      hide Capacity, Holds, Word;
      if data == [] {
        ok := true;
        return;
      }
      ghost var cap, p := buffer.Length, |pushed|;
      FreeIs(cap, p, seenHead);
      if Free(buffer.Length, tail, shadowHead) < |data| {
        FreeIs(cap, p, consumed);
        shadowHead, seenHead := head, consumed;
        if Free(buffer.Length, tail, head) < |data| {
          ok := false;
          return;
        }
      }
      StoreAll(data);
      AddOf(p, |data|);
      tail, pushed, ok := Word(tail + |data|), pushed + data, true;
      assert pushed[consumed..] == old(pushed[consumed..]) + data;
      assert Holds(cap, buffer[..], consumed, pushed[consumed..]);
    }

    /** The copy loop of a push that has found room. */
    method StoreAll(data: seq<T>)
      requires Valid() && |pushed| + |data| <= consumed + buffer.Length
      modifies buffer
      ensures Valid() && Holds(buffer.Length, buffer[..], consumed, pushed[consumed..] + data)
    {
      hide Capacity, Holds, Word;
      ghost var cap, p := buffer.Length, |pushed|;
      ghost var waiting := pushed[consumed..];
      var i := 0;
      assert waiting + data[..0] == waiting;
      while i < |data|
        invariant 0 <= i <= |data|
        invariant Valid()
        invariant Holds(cap, buffer[..], consumed, waiting + data[..i])
      {
        SlotAt(p, i, cap);
        ghost var items := waiting + data[..i];
        HoldsExtended(cap, buffer[..], consumed, items, data[i]);
        HoldsElsewhere(cap, buffer[..], consumed, waiting, p + i, data[i]);
        assert consumed + |items| == p + i;
        ghost var was := buffer[..];
        buffer[Word(tail + i) % buffer.Length] := data[i];
        assert buffer[..] == was[(p + i) % cap := data[i]];
        assert items + [data[i]] == waiting + data[..i + 1];
        i := i + 1;
      }
      assert data[..i] == data;
    }

    /** The number of elements a pop sees: those up to the cached tail while there are any,
        otherwise those up to the real one. */
    ghost function Visible(): (n: nat)
      requires Valid()
      reads this, buffer
      ensures n <= |Contents()|
    {
      if seenTail > consumed then seenTail - consumed else |Contents()|
    }

    /** Up to `max` of the elements the pop can see, from the front. */
    method TryPopN(max: nat) returns (out: seq<T>)
      requires Valid()
      modifies this
      ensures Valid() && pushed == old(pushed)
      ensures |out| == Min(max, old(Visible()))
      ensures out + Contents() == old(Contents())
      ensures seenTail == if old(seenTail) > old(consumed) || max == 0 then old(seenTail) else |pushed|
    {
      hide Capacity, Word, Sub, Holds, Valid;
      out := [];
      if max == 0 {
        return;
      }
      var available := Available();
      if available == 0 {
        Reload();
        available := Available();
        if available == 0 {
          return;
        }
      }
      out := CopyOut(Min(available, max));
      Advance(Min(available, max));
    }

    /** The distance from the head to the cached tail. */
    method Available() returns (n: nat)
      requires Valid()
      ensures consumed <= seenTail <= |pushed|
      ensures n == seenTail - consumed
    {
      hide Capacity, Holds;
      Within(buffer.Length, seenTail, consumed);
      n := Sub(shadowTail, head);
    }

    method Reload()
      requires Valid()
      modifies this`shadowTail, this`seenTail
      ensures Valid() && seenTail == |pushed|
    {
      hide Capacity, Holds;
      shadowTail, seenTail := tail, |pushed|;
    }

    /** Publish `n` elements as consumed. */
    method Advance(n: nat)
      requires Valid() && consumed + n <= seenTail <= |pushed|
      modifies this`head, this`consumed
      ensures Valid() && consumed == old(consumed) + n
      ensures pushed[old(consumed)..consumed] + Contents() == old(Contents())
    {
      hide Capacity, Word, Holds;
      ghost var c := consumed;
      AddOf(c, n);
      HoldsRest(buffer.Length, buffer[..], c, pushed[c..], n);
      head, consumed := Word(head + n), consumed + n;
      assert pushed[c..][n..] == pushed[c + n..];
    }

    method CopyOut(n: nat) returns (out: seq<T>)
      requires Valid() && consumed + n <= |pushed|
      ensures out == pushed[consumed..consumed + n]
    {
      hide Capacity, Word;
      out := [];
      for i := 0 to n
        invariant out == pushed[consumed..consumed + i]
      {
        SlotAt(consumed, i, buffer.Length);
        assert buffer[..][(consumed + i) % buffer.Length] == pushed[consumed..][i];
        out := out + [buffer[Word(head + i) % buffer.Length]];
      }
    }

    /** "Consume everything visible at call time": it empties the queue if and only if the cached
        tail is exhausted or up to date when it is called. */
    method TryConsumeAll() returns (out: seq<T>)
      requires Valid()
      modifies this
      ensures Valid() && out + Contents() == old(Contents()) && |out| == old(Visible())
      ensures Contents() == [] <==> old(shadowTail == head || shadowTail == tail)
    {
      hide Capacity, Holds;
      ghost var c, p := consumed, |pushed|;
      Within(buffer.Length, seenTail, c);
      Within(buffer.Length, p, c);
      WithinTail(buffer.Length, p, seenTail);
      out := TryPopN(buffer.Length);
    }
  }

  lemma WithinTail(cap: nat, p: nat, t: nat)
    requires Capacity(cap) && t <= p <= t + cap
    ensures Word(t) == Word(p) <==> t == p
  {
    Within(cap, p, t);
    if Word(t) == Word(p) {
      assert Sub(Word(p), Word(t)) == 0;
    }
  }

  /** Push two, pop one, push one, drain: the drain takes one element of the two waiting. */
  method DrainFallsShort() returns (q: Ring<int>, rest: seq<int>)
    ensures fresh(q) && q.Valid() && rest == [2] && q.Contents() == [3]
  {
    assert Pow2(1) == 2 && Capacity(2);
    hide Capacity, Holds, Word;
    q := new Ring<int>(2);
    var ok := q.TryPushN([1, 2]);
    var one := q.TryPopN(1);
    assert one == [1] && q.Contents() == [2];
    ok := q.TryPushN([3]);
    assert q.Contents() == [2, 3] && q.Visible() == 1;
    rest := q.TryConsumeAll();
    assert rest == ([2, 3])[..1] && q.Contents() == ([2, 3])[1..];
  }
}
