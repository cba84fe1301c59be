/** The receive path against a reference that knows nothing of codec state, buffers or octets: it
    hears frames one after another, legal or not, and says what must come of them. */
module WsReference {
  import opened Bytes
  import opened Options
  import opened WsFrame
  import opened WsVerdict
  import opened WsCodec
  import opened WsStream
  import opened WsOutcomes
  import WsScript

  type FrameSpec = WsScript.FrameSpec

  /** What came of some frames: messages handed up, control frames to send back with their opcodes,
      the octets of the message still in flight, and the error that ended it all. */
  datatype Heard = Heard(messages: seq<seq<byte>>, replies: seq<(byte, seq<byte>)>,
                         flight: Option<seq<byte>>, closed: Option<Error>)

  function Reply(send: bool, opcode: byte, payload: seq<byte>): (rs: seq<(byte, seq<byte>)>) {
    if send then [(opcode, payload)] else []
  }

  function Hear(cfg: Config, flight: Option<seq<byte>>, f: FrameSpec): (h: Heard) {
    if !Admitted(f.opcode, f.fin, |f.payload|) then Heard([], [], flight, Some(WsFrameBad))
    else if f.opcode == PING then Heard([], Reply(cfg.autoPong, PONG, f.payload), flight, None)
    else if f.opcode == PONG then Heard([], [], flight, None)
    else if f.opcode == CLOSE then
      Heard([], Reply(cfg.autoCloseAck, CLOSE, ToBigEndian(AckCode(f.payload), 2)), flight, Some(WsCloseReceived))
    else if f.opcode == CONTINUATION && flight.None? then Heard([], [], flight, Some(WsFrameBad))
    else
      var whole := (if f.opcode == CONTINUATION then flight.value else []) + f.payload;
      if |whole| > cfg.maxMessageSize then Heard([], [], None, Some(CodecOverflow))
      else if f.fin then Heard(WsScript.NonEmpty(whole), [], None, None)
      else Heard([], [], Some(whole), None)
  }

  function Play(cfg: Config, flight: Option<seq<byte>>, fs: seq<FrameSpec>): (h: Heard)
    decreases |fs|
  {
    if fs == [] then Heard([], [], flight, None)
    else
      var first := Hear(cfg, flight, fs[0]);
      if first.closed.Some? then first
      else
        var rest := Play(cfg, first.flight, fs[1..]);
        Heard(first.messages + rest.messages, first.replies + rest.replies, rest.flight, rest.closed)
  }

  /** The replies as sent, each under the next masking key. */
  function Encoded(replies: seq<(byte, seq<byte>)>, keys: Keys, n: nat): (fs: seq<seq<byte>>) {
    if replies == [] then []
    else [EncodeFrame(replies[0].0, replies[0].1, true, keys(n))] + Encoded(replies[1..], keys, n + 1)
  }

  lemma {:induction false} EncodedAppend(a: seq<(byte, seq<byte>)>, b: seq<(byte, seq<byte>)>, keys: Keys, n: nat)
    ensures Encoded(a + b, keys, n) == Encoded(a, keys, n) + Encoded(b, keys, n + |a|)
  {
    hide EncodeFrame;
    if a == [] {
      assert a + b == b;
    } else {
      assert (a + b)[1..] == a[1..] + b;
      EncodedAppend(a[1..], b, keys, n + 1);
    }
  }

  lemma EncodedOne(opcode: byte, payload: seq<byte>, keys: Keys, n: nat)
    ensures Encoded([], keys, n) == []
    ensures Encoded([(opcode, payload)], keys, n) == [EncodeFrame(opcode, payload, true, keys(n))]
  {
    hide EncodeFrame;
    assert [(opcode, payload)][1..] == [];
  }

  /** A frame that can be spelled at all. */
  predicate Spellable(f: FrameSpec) {
    f.opcode <= 0x0F && |f.payload| <= MAX_PAYLOAD
  }

  function Spelling(f: FrameSpec): (w: seq<byte>) {
    Wire(f.opcode, f.fin, f.payload, f.mask)
  }

  // ------------------------------------------------------------------ one frame

  /** What one decode of the head did is what the reference heard. */
  ghost predicate Agrees(keys: Keys, s: Stream, r: Step, more: seq<byte>, h: Heard) {
    var t := Record(s, r);
    && t.delivered == s.delivered + h.messages
    && t.sent == s.sent + Encoded(h.replies, keys, s.keysUsed)
    && t.keysUsed == s.keysUsed + |h.replies|
    && (h.closed.Some? ==> r.outcome == Rejected(h.closed.value))
    && (h.closed.None? ==>
        !r.outcome.Rejected? && r.consumed > 0 && t.closed == s.closed && t.buf == more && Flight(t.codec) == h.flight)
  }

  lemma HeadAgrees(cfg: Config, keys: Keys, s: Stream, f: FrameSpec, more: seq<byte>)
    requires s.closed.None? && Spellable(f) && s.buf == Spelling(f) + more
    ensures DecodeFrame(s.buf, false) != Failed(Incomplete)
    ensures Agrees(keys, s, DecodeHead(cfg, keys, s), more, Hear(cfg, Flight(s.codec), f))
  {
    hide Wire, DecodeFrame, Admitted, Legal, Apply, Encoded, AckCode, EncodeFrame, OpcodeError;
    EncodedOne(0, [], keys, s.keysUsed);
    assert s.delivered + [] == s.delivered && s.sent + [] == s.sent;
    WireRead(f.opcode, f.fin, f.payload, f.mask, more);
    NotWaiting(f.opcode, f.fin, |f.payload|);
    LegalIsAdmitted(f.opcode, f.fin, |f.payload|);
    if Admitted(f.opcode, f.fin, |f.payload|) {
      DecodeOfWire(f.opcode, f.fin, f.payload, f.mask, more, false);
      var w := Spelling(f);
      assert s.buf[|w|..] == more;
      AppliedAgrees(cfg, keys, s, f);
    } else {
      LegalIs(f);
    }
  }

  lemma LegalIs(f: FrameSpec)
    requires Spellable(f) && !Legal(f.opcode, f.fin, |f.payload|)
    ensures OpcodeError(f.opcode, f.fin, |f.payload|).Some?
  {}

  /** The same of the codec alone. */
  lemma AppliedAgrees(cfg: Config, keys: Keys, s: Stream, f: FrameSpec)
    requires Admitted(f.opcode, f.fin, |f.payload|)
    ensures var h, n := Hear(cfg, Flight(s.codec), f), s.keysUsed;
            var a := Apply(cfg, s.codec, f.opcode, f.fin, f.mask.Some?, f.payload, RESPONSE_CAP, keys(n));
            && (if h.replies == [] then a.out == [] && !a.drew
                else |h.replies| == 1 && a.drew && [a.out] == Encoded(h.replies, keys, n) && a.out != [])
            && (h.closed.Some? ==> a.outcome == Rejected(h.closed.value) && h.messages == [])
            && (h.closed.None? ==>
                && a.trim && !a.outcome.Rejected? && Flight(a.state) == h.flight
                && h.messages == if a.outcome.Message? then WsScript.NonEmpty(a.outcome.payload) else [])
  {
    hide Encoded, EncodeFrame, AckCode, ToBigEndian;
    assert [] + f.payload == f.payload;
    var key := keys(s.keysUsed);
    if f.opcode == PING {
      ReplySize(PONG, f.payload, key);
      EncodedOne(PONG, f.payload, keys, s.keysUsed);
    } else if f.opcode == CLOSE {
      var code := ToBigEndian(AckCode(f.payload), 2);
      ReplySize(CLOSE, code, key);
      EncodedOne(CLOSE, code, keys, s.keysUsed);
    }
  }

  // ------------------------------------------------------------------ any frames

  /** A drained stream ended as the reference says of the frames it was given. */
  ghost predicate Ended(keys: Keys, s: Stream, t: Stream, rest: seq<byte>, h: Heard) {
    && t.delivered == s.delivered + h.messages
    && t.sent == s.sent + Encoded(h.replies, keys, s.keysUsed)
    && t.closed == h.closed
    && (h.closed.None? ==> t.buf == rest && Flight(t.codec) == h.flight)
  }

  lemma EndedAtOnce(cfg: Config, keys: Keys, s: Stream, rest: seq<byte>)
    requires s.closed.None? && s.buf == rest && DecodeFrame(rest, false) == Failed(Incomplete)
    ensures Ended(keys, s, Drain(cfg, keys, s), rest, Heard([], [], Flight(s.codec), None))
  {
    hide DecodeFrame, Encoded;
    EncodedOne(0, [], keys, s.keysUsed);
    QuietDrain(cfg, keys, s);
    assert s.delivered + [] == s.delivered && s.sent + [] == s.sent;
  }

  lemma EndedByHead(keys: Keys, s: Stream, r: Step, more: seq<byte>, h: Heard, rest: seq<byte>)
    requires Agrees(keys, s, r, more, h) && h.closed.Some?
    ensures Ended(keys, s, Record(s, r), rest, h)
  {
    hide Encoded, Flight;
  }

  lemma EndedLater(keys: Keys, s: Stream, r: Step, more: seq<byte>, first: Heard, t: Stream, rest: seq<byte>,
                   later: Heard)
    requires Agrees(keys, s, r, more, first) && first.closed.None? && Ended(keys, Record(s, r), t, rest, later)
    ensures Ended(keys, s, t, rest, Heard(first.messages + later.messages, first.replies + later.replies,
                                          later.flight, later.closed))
  {
    hide Encoded, Flight, Record;
    EncodedAppend(first.replies, later.replies, keys, s.keysUsed);
    var u := Record(s, r);
    assert s.delivered + (first.messages + later.messages) == u.delivered + later.messages;
  }

  lemma DrainHead(cfg: Config, keys: Keys, s: Stream)
    requires s.closed.None? && DecodeFrame(s.buf, false) != Failed(Incomplete)
    ensures var r := DecodeHead(cfg, keys, s);
            Drain(cfg, keys, s) ==
            if r.outcome.Rejected? || r.consumed == 0 then Record(s, r) else Drain(cfg, keys, Record(s, r))
  {
    hide Record;
    NotEmpty(s.buf);
  }

  /** For every sequence of frames, legal or not, and whatever the codec holds: draining their octets
      delivers the messages, sends the replies and ends with the error that the reference gives. */
  lemma {:induction false} AnyFrames(cfg: Config, keys: Keys, s: Stream, fs: seq<FrameSpec>, rest: seq<byte>)
    requires s.closed.None? && s.buf == WsScript.FrameBytes(fs) + rest
    requires (forall f <- fs :: Spellable(f)) && DecodeFrame(rest, false) == Failed(Incomplete)
    ensures Ended(keys, s, Drain(cfg, keys, s), rest, Play(cfg, Flight(s.codec), fs))
    decreases |fs|
  {
    hide DecodeFrame, Wire, Hear, Encoded, Ended, Drain, DecodeHead, Record, Flight;
    if fs == [] {
      assert s.buf == rest;
      EndedAtOnce(cfg, keys, s, rest);
    } else {
      var f, more := fs[0], WsScript.FrameBytes(fs[1..]) + rest;
      assert s.buf == Spelling(f) + more;
      HeadAgrees(cfg, keys, s, f, more);
      DrainHead(cfg, keys, s);
      var r, first := DecodeHead(cfg, keys, s), Hear(cfg, Flight(s.codec), f);
      if first.closed.None? {
        var u := Record(s, r);
        AnyFrames(cfg, keys, u, fs[1..], rest);
        EndedLater(keys, s, r, more, first, Drain(cfg, keys, u), rest, Play(cfg, first.flight, fs[1..]));
      } else {
        EndedByHead(keys, s, r, more, first, rest);
      }
    }
  }

  lemma NotEmpty(b: seq<byte>)
    requires DecodeFrame(b, false) != Failed(Incomplete)
    ensures b != []
  {}

  /** Frames no longer than the buffer fit it, legal or not. */
  lemma {:induction false} FramesFit(cfg: Config, keys: Keys, s: Stream, fs: seq<FrameSpec>, rest: seq<byte>, cap: nat)
    requires s.closed.None? && s.buf == WsScript.FrameBytes(fs) + rest
    requires forall f <- fs :: Spellable(f) && |Spelling(f)| <= cap
    requires DecodeFrame(rest, false) == Failed(Incomplete) && |rest| < cap
    ensures Fits(cfg, keys, s, cap)
    decreases |fs|
  {
    hide DecodeFrame, Wire, Hear, Encoded, Stuck;
    if fs == [] {
      assert s.buf == rest;
      RestFits(cfg, keys, s, cap);
    } else {
      var f, more := fs[0], WsScript.FrameBytes(fs[1..]) + rest;
      assert s.buf == Spelling(f) + more;
      HeadAgrees(cfg, keys, s, f, more);
      WireRead(f.opcode, f.fin, f.payload, f.mask, []);
      NotWaiting(f.opcode, f.fin, |f.payload|);
      assert Spelling(f) + [] == Spelling(f);
      NotStuck(Spelling(f), more, cap);
      var r := DecodeHead(cfg, keys, s);
      if !r.outcome.Rejected? {
        FramesFit(cfg, keys, Record(s, r), fs[1..], rest, cap);
      }
    }
  }

  lemma RestFits(cfg: Config, keys: Keys, s: Stream, cap: nat)
    requires s.closed.None? && |s.buf| < cap && DecodeFrame(s.buf, false) == Failed(Incomplete)
    ensures Fits(cfg, keys, s, cap)
  {
    hide DecodeFrame;
  }

  /** And so for every way the socket cuts those octets, into any buffer that holds each frame. */
  lemma AnyFramesAnyCut(cfg: Config, keys: Keys, cap: nat, fs: seq<FrameSpec>, rest: seq<byte>, chunks: seq<seq<byte>>)
    requires Concat(chunks) == WsScript.FrameBytes(fs) + rest
    requires forall f <- fs :: Spellable(f) && |Spelling(f)| <= cap
    requires DecodeFrame(rest, false) == Failed(Incomplete) && |rest| < cap
    requires RecvRespectsSpace(cfg, keys, cap, Fresh, chunks)
    ensures var t, h := Run(cfg, keys, cap, Fresh, chunks), Play(cfg, None, fs);
            && t.delivered == h.messages && t.sent == Encoded(h.replies, keys, 0) && t.closed == h.closed
            && (h.closed.None? ==> t.buf == rest && Flight(t.codec) == h.flight)
  {
    hide DecodeFrame, Drain, Run, Play, Encoded, RecvRespectsSpace, Fits, Wire;
    var all := Fresh.(buf := WsScript.FrameBytes(fs) + rest);
    assert Fresh.buf + Concat(chunks) == all.buf;
    AnyFrames(cfg, keys, all, fs, rest);
    FramesFit(cfg, keys, all, fs, rest, cap);
    WsScript.NothingDecodes();
    ChunkingIrrelevant(cfg, keys, cap, Fresh, chunks);
    var h := Play(cfg, None, fs);
    assert Fresh.delivered + h.messages == h.messages;
    assert Fresh.sent + Encoded(h.replies, keys, 0) == Encoded(h.replies, keys, 0);
  }
}
