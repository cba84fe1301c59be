/** A stream's receive path: socket chunks into a bounded reassembly buffer, the codec
    run over it until it wants more octets, messages out and auto-responses back. */
module WsStream {
  import opened Bytes
  import opened Options
  import opened WsFrame
  import opened WsCodec

  /** Room for one auto-response per decode call. */
  const RESPONSE_CAP: nat := 1024

  /** `delivered` and `sent` are the messages handed up and the responses written so far;
      `keysUsed` counts masking keys drawn. A closed stream keeps the reason. */
  datatype Stream = Stream(codec: State, buf: seq<byte>, delivered: seq<seq<byte>>,
                           sent: seq<seq<byte>>, keysUsed: nat, closed: Option<Error>)

  const Fresh: Stream := Stream(State([], 0), [], [], [], 0, None)

  /** The masking keys in the order the key pool will hand them out. */
  type Keys = nat -> Key

  function Record(s: Stream, r: Step): (t: Stream) {
    s.(codec := r.state,
       buf := if r.outcome.Rejected? || r.consumed > |s.buf| then s.buf else s.buf[r.consumed..],
       delivered := if r.outcome.Message? && r.outcome.payload != []
                    then s.delivered + [r.outcome.payload] else s.delivered,
       sent := if r.out != [] then s.sent + [r.out] else s.sent,
       keysUsed := if r.drew then s.keysUsed + 1 else s.keysUsed,
       closed := if r.outcome.Rejected? then Some(r.outcome.error) else s.closed)
  }

  function DecodeHead(cfg: Config, keys: Keys, s: Stream): (r: Step)
    ensures r.consumed <= |s.buf|
    ensures r.outcome.Message? ==> 2 <= r.consumed
    ensures r.outcome != Rejected(ReasmOverflow)
  {
    Decode(cfg, s.codec, s.buf, RESPONSE_CAP, keys(s.keysUsed))
  }

  /** Run the codec over the buffer until it closes the stream or consumes nothing. */
  function Drain(cfg: Config, keys: Keys, s: Stream): (t: Stream)
    decreases |s.buf|
  {
    if s.closed.Some? || s.buf == [] then s
    else
      var r := DecodeHead(cfg, keys, s);
      if r.outcome.Rejected? || r.consumed == 0 then Record(s, r)
      else Drain(cfg, keys, Record(s, r))
  }

  /** One readiness event: drain what is left over, then take `chunk` from the socket and drain. */
  function Poll(cfg: Config, keys: Keys, cap: nat, s: Stream, chunk: seq<byte>): (t: Stream) {
    var d := Drain(cfg, keys, s);
    if d.closed.Some? then d
    else if |d.buf| >= cap then d.(closed := Some(ReasmOverflow))
    else Drain(cfg, keys, d.(buf := d.buf + chunk))
  }

  function Run(cfg: Config, keys: Keys, cap: nat, s: Stream, chunks: seq<seq<byte>>): (t: Stream)
    decreases |chunks|
  {
    if chunks == [] then s
    else Run(cfg, keys, cap, Poll(cfg, keys, cap, s, chunks[0]), chunks[1..])
  }

  /** What an observer of the stream sees: once closed, unread octets are gone. */
  function View(s: Stream): (v: Stream) {
    if s.closed.Some? then s.(buf := []) else s
  }

  // -------------------------------------------------- how the stream is cut

  /** The codec has nothing to do until more octets arrive. */
  predicate Quiet(s: Stream) {
    s.closed.None? && DecodeFrame(s.buf, false) == Failed(Incomplete)
  }

  lemma QuietDrain(cfg: Config, keys: Keys, s: Stream)
    requires Quiet(s)
    ensures Drain(cfg, keys, s) == s
  {
    if s.buf != [] {
      assert s.buf[0..] == s.buf;
    }
  }

  lemma {:induction false} DrainEndsQuiet(cfg: Config, keys: Keys, s: Stream)
    ensures var t := Drain(cfg, keys, s); t.closed.Some? || Quiet(t)
    decreases |s.buf|
  {
    if s.closed.None? && s.buf != [] {
      var r := DecodeHead(cfg, keys, s);
      WaitsIffIncomplete(cfg, s.codec, s.buf, RESPONSE_CAP, keys(s.keysUsed));
      if r.outcome.Rejected? {
      } else if r.consumed == 0 {
        assert s.buf[0..] == s.buf;
      } else {
        DrainEndsQuiet(cfg, keys, Record(s, r));
      }
    }
  }

  /** Draining, then appending and draining again, is draining it all at once. */
  lemma {:induction false} DrainAppend(cfg: Config, keys: Keys, s: Stream, x: seq<byte>)
    requires s.closed.None?
    ensures var d := Drain(cfg, keys, s);
            View(Drain(cfg, keys, s.(buf := s.buf + x))) ==
            if d.closed.Some? then View(d) else View(Drain(cfg, keys, d.(buf := d.buf + x)))
    decreases |s.buf|
  {
    hide DecodeFrame, Apply;
    if DecodeFrame(s.buf, false) == Failed(Incomplete) {
      QuietDrain(cfg, keys, s);
    } else {
      var u := s.(buf := s.buf + x);
      var r := DecodeHead(cfg, keys, s);
      DecodeStepStable(cfg, s.codec, s.buf, x, RESPONSE_CAP, keys(s.keysUsed));
      WaitsIffIncomplete(cfg, s.codec, s.buf, RESPONSE_CAP, keys(s.keysUsed));
      assert DecodeHead(cfg, keys, u) == r;
      if !r.outcome.Rejected? {
        var next := Record(s, r);
        assert u.buf[r.consumed..] == s.buf[r.consumed..] + x;
        assert Record(u, r) == next.(buf := next.buf + x);
        DrainAppend(cfg, keys, next, x);
      }
    }
  }

  lemma {:induction false} RunClosed(cfg: Config, keys: Keys, cap: nat, s: Stream, chunks: seq<seq<byte>>)
    requires s.closed.Some?
    ensures Run(cfg, keys, cap, s, chunks) == s
    decreases |chunks|
  {
    if chunks != [] {
      RunClosed(cfg, keys, cap, s, chunks[1..]);
    }
  }

  /** A run that is not dropped for overflow is one drain of all its octets. */
  lemma {:induction false} RunIsDrain(cfg: Config, keys: Keys, cap: nat, s: Stream, chunks: seq<seq<byte>>)
    requires Quiet(s)
    requires Run(cfg, keys, cap, s, chunks).closed != Some(ReasmOverflow)
    ensures View(Run(cfg, keys, cap, s, chunks)) == View(Drain(cfg, keys, s.(buf := s.buf + Concat(chunks))))
    decreases |chunks|
  {
    hide Drain;
    QuietDrain(cfg, keys, s);
    if chunks == [] {
      assert s.buf + [] == s.buf;
    } else if |s.buf| >= cap {
      RunClosed(cfg, keys, cap, Poll(cfg, keys, cap, s, chunks[0]), chunks[1..]);
    } else {
      var u, x := s.(buf := s.buf + chunks[0]), Concat(chunks[1..]);
      var p := Drain(cfg, keys, u);
      assert s.buf + Concat(chunks) == u.buf + x;
      DrainAppend(cfg, keys, u, x);
      DrainEndsQuiet(cfg, keys, u);
      if p.closed.Some? {
        RunClosed(cfg, keys, cap, p, chunks[1..]);
      } else {
        RunIsDrain(cfg, keys, cap, p, chunks[1..]);
      }
    }
  }

  // ------------------------------------------- when the bounded buffer fills

  /** A full buffer's worth of `b` is still not a frame. */
  predicate Stuck(b: seq<byte>, cap: nat) {
    |b| >= cap && DecodeFrame(b[..cap], false) == Failed(Incomplete)
  }

  /** No frame the stream gets to read, finished or not, outgrows a buffer of `cap` octets. Octets
      after a frame that closes the stream do not matter. */
  predicate Fits(cfg: Config, keys: Keys, s: Stream, cap: nat)
    decreases |s.buf|
  {
    && !Stuck(s.buf, cap)
    && (s.closed.None? ==>
        var r := DecodeHead(cfg, keys, s);
        !r.outcome.Rejected? && r.consumed > 0 ==> Fits(cfg, keys, Record(s, r), cap))
  }

  /** `recv` never returns more octets than the free space it was given. */
  predicate RecvRespectsSpace(cfg: Config, keys: Keys, cap: nat, s: Stream, chunks: seq<seq<byte>>)
    decreases |chunks|
  {
    chunks == [] ||
    (var d := Drain(cfg, keys, s);
     && (d.closed.None? && |d.buf| < cap ==> |d.buf| + |chunks[0]| <= cap)
     && RecvRespectsSpace(cfg, keys, cap, Poll(cfg, keys, cap, s, chunks[0]), chunks[1..]))
  }

  lemma QuietFit(cfg: Config, keys: Keys, s: Stream, x: seq<byte>, cap: nat)
    requires Quiet(s) && Fits(cfg, keys, s.(buf := s.buf + x), cap)
    ensures |s.buf| < cap
  {
    if |s.buf| >= cap {
      assert (s.buf + x)[..cap] == s.buf[..cap];
      assert s.buf == s.buf[..cap] + s.buf[cap..];
      if DecodeFrame(s.buf[..cap], false) != Failed(Incomplete) {
        DecodeStable(s.buf[..cap], s.buf[cap..], false);
      }
      assert false;
    }
  }

  /** Draining consumes whole frames, so what remains fits exactly when the whole did; and a
      stream that closes within the buffer fits whatever comes after. */
  lemma {:induction false} DrainKeepsFit(cfg: Config, keys: Keys, s: Stream, x: seq<byte>, cap: nat)
    requires s.closed.None?
    ensures var d, all := Drain(cfg, keys, s), s.(buf := s.buf + x);
            && d.closed != Some(ReasmOverflow)
            && (d.closed.Some? && |s.buf| <= cap ==> Fits(cfg, keys, all, cap))
            && (d.closed.None? ==>
                && (Fits(cfg, keys, all, cap) ==> Fits(cfg, keys, d.(buf := d.buf + x), cap))
                && (|s.buf| <= cap && Fits(cfg, keys, d.(buf := d.buf + x), cap) ==> Fits(cfg, keys, all, cap)))
    decreases |s.buf|
  {
    hide DecodeFrame, Apply, Stuck;
    if DecodeFrame(s.buf, false) == Failed(Incomplete) {
      QuietDrain(cfg, keys, s);
    } else {
      var u := s.(buf := s.buf + x);
      var r := DecodeHead(cfg, keys, s);
      WaitsIffIncomplete(cfg, s.codec, s.buf, RESPONSE_CAP, keys(s.keysUsed));
      DecodeStepStable(cfg, s.codec, s.buf, x, RESPONSE_CAP, keys(s.keysUsed));
      assert DecodeHead(cfg, keys, u) == r;
      if |s.buf| <= cap {
        NotStuck(s.buf, x, cap);
      }
      if !r.outcome.Rejected? {
        var next := Record(s, r);
        assert u.buf[r.consumed..] == next.buf + x;
        assert Record(u, r) == next.(buf := next.buf + x);
        DrainKeepsFit(cfg, keys, next, x, cap);
      }
    }
  }

  lemma NotStuck(b: seq<byte>, x: seq<byte>, cap: nat)
    requires |b| <= cap && DecodeFrame(b, false) != Failed(Incomplete)
    ensures !Stuck(b + x, cap)
  {
    if |b + x| >= cap {
      var rest := x[..cap - |b|];
      assert (b + x)[..cap] == b + rest;
      DecodeStable(b, rest, false);
    }
  }

  /** For every cut the socket can make, the stream ends up dropped for overflow, or with a full
      buffer that the next poll drops, if and only if it gets to a frame that outgrows the buffer.
      It does not matter whether the codec would go on to close the stream by itself. */
  lemma {:induction false} OverflowExact(cfg: Config, keys: Keys, cap: nat, s: Stream, chunks: seq<seq<byte>>)
    requires Quiet(s) && |s.buf| <= cap
    requires RecvRespectsSpace(cfg, keys, cap, s, chunks)
    ensures var t := Run(cfg, keys, cap, s, chunks);
            && (t.closed == Some(ReasmOverflow) || (t.closed.None? && |t.buf| == cap) <==>
                !Fits(cfg, keys, s.(buf := s.buf + Concat(chunks)), cap))
            && (t.closed.None? ==> Quiet(t) && |t.buf| <= cap)
    decreases |chunks|
  {
    hide Drain, DecodeFrame;
    QuietDrain(cfg, keys, s);
    if chunks == [] {
      assert s.buf + [] == s.buf;
      assert s.buf[..|s.buf|] == s.buf;
      WaitsIffIncomplete(cfg, s.codec, s.buf, RESPONSE_CAP, keys(s.keysUsed));
    } else if |s.buf| >= cap {
      RunClosed(cfg, keys, cap, Poll(cfg, keys, cap, s, chunks[0]), chunks[1..]);
      if Fits(cfg, keys, s.(buf := s.buf + Concat(chunks)), cap) {
        QuietFit(cfg, keys, s, Concat(chunks), cap);
      }
    } else {
      var u, x := s.(buf := s.buf + chunks[0]), Concat(chunks[1..]);
      var p := Drain(cfg, keys, u);
      assert s.buf + Concat(chunks) == u.buf + x;
      DrainEndsQuiet(cfg, keys, u);
      DrainKeepsFit(cfg, keys, u, x, cap);
      DrainShrinks(cfg, keys, u);
      if p.closed.Some? {
        RunClosed(cfg, keys, cap, p, chunks[1..]);
      } else {
        OverflowExact(cfg, keys, cap, p, chunks[1..]);
      }
    }
  }

  /** However the octets are cut into socket reads, the same messages are delivered, the same
      responses sent, the same keys drawn, the same error raised and the same octets left over as
      by one drain of all of them, whenever no frame reached outgrows the buffer; and after one
      more readiness event this is so only then. */
  lemma ChunkingIrrelevant(cfg: Config, keys: Keys, cap: nat, s: Stream, chunks: seq<seq<byte>>)
    requires Quiet(s) && |s.buf| <= cap
    requires RecvRespectsSpace(cfg, keys, cap, s, chunks)
    ensures var all := s.(buf := s.buf + Concat(chunks));
            var t, d := Run(cfg, keys, cap, s, chunks), Drain(cfg, keys, all);
            && (Fits(cfg, keys, all, cap) ==> View(t) == View(d))
            && (View(Poll(cfg, keys, cap, t, [])) == View(d) <==> Fits(cfg, keys, all, cap))
  {
    hide Drain, Run, Fits, RecvRespectsSpace, DecodeFrame;
    var all := s.(buf := s.buf + Concat(chunks));
    var t := Run(cfg, keys, cap, s, chunks);
    OverflowExact(cfg, keys, cap, s, chunks);
    DrainKeepsFit(cfg, keys, all, [], cap);
    if t.closed.Some? {
      ClosedDrain(cfg, keys, t);
    } else {
      QuietDrain(cfg, keys, t);
      assert t.buf + [] == t.buf;
    }
    if t.closed != Some(ReasmOverflow) {
      RunIsDrain(cfg, keys, cap, s, chunks);
    }
  }

  lemma ClosedDrain(cfg: Config, keys: Keys, s: Stream)
    requires s.closed.Some?
    ensures Drain(cfg, keys, s) == s
  {}

  lemma {:induction false} DrainShrinks(cfg: Config, keys: Keys, s: Stream)
    ensures |Drain(cfg, keys, s).buf| <= |s.buf|
    decreases |s.buf|
  {
    if s.closed.None? && s.buf != [] {
      var r := DecodeHead(cfg, keys, s);
      if !r.outcome.Rejected? && r.consumed > 0 {
        DrainShrinks(cfg, keys, Record(s, r));
      }
    }
  }
}
