/** What a well-behaved peer sends and what the application must therefore receive. */
module WsScript {
  import opened Bytes
  import opened Options
  import opened WsFrame
  import opened WsCodec
  import opened WsStream

  datatype Control = Ping(payload: seq<byte>, mask: Option<Key>) | Pong(payload: seq<byte>, mask: Option<Key>)

  /** One data frame of a message and the control frames the peer slips in after it. */
  datatype Fragment = Fragment(payload: seq<byte>, mask: Option<Key>, after: seq<Control>)

  /** A text or binary message in one or more fragments. */
  datatype Message = Message(opcode: byte, fragments: seq<Fragment>)

  /** The close the peer ends with, status code and reason in its payload. */
  datatype Close = Close(payload: seq<byte>, mask: Option<Key>)

  /** Everything a peer sends: control frames, then messages, then perhaps a close. */
  datatype Script = Script(lead: seq<Control>, messages: seq<Message>, close: Option<Close>)

  datatype FrameSpec = FrameSpec(opcode: byte, fin: bool, payload: seq<byte>, mask: Option<Key>)

  // ------------------------------------------------------------ the sender

  function ControlFrame(c: Control): (f: FrameSpec) {
    FrameSpec(if c.Ping? then PING else PONG, true, c.payload, c.mask)
  }

  function ControlFrames(cs: seq<Control>): (fs: seq<FrameSpec>) {
    if cs == [] then [] else [ControlFrame(cs[0])] + ControlFrames(cs[1..])
  }

  /** The frames of a message from some fragment on: the first carries `opcode`, the rest are
      continuations, and only the last is final. */
  function FragmentFrames(opcode: byte, fragments: seq<Fragment>): (fs: seq<FrameSpec>) {
    if fragments == [] then []
    else
      [FrameSpec(opcode, |fragments| == 1, fragments[0].payload, fragments[0].mask)]
      + ControlFrames(fragments[0].after)
      + FragmentFrames(CONTINUATION, fragments[1..])
  }

  function MessageFrames(ms: seq<Message>): (fs: seq<FrameSpec>) {
    if ms == [] then [] else FragmentFrames(ms[0].opcode, ms[0].fragments) + MessageFrames(ms[1..])
  }

  function CloseFrames(close: Option<Close>): (fs: seq<FrameSpec>) {
    if close.None? then [] else [FrameSpec(CLOSE, true, close.value.payload, close.value.mask)]
  }

  function ScriptFrames(sc: Script): (fs: seq<FrameSpec>) {
    ControlFrames(sc.lead) + MessageFrames(sc.messages) + CloseFrames(sc.close)
  }

  function FrameBytes(fs: seq<FrameSpec>): (b: seq<byte>) {
    if fs == [] then []
    else Wire(fs[0].opcode, fs[0].fin, fs[0].payload, fs[0].mask) + FrameBytes(fs[1..])
  }

  predicate LegalControls(cs: seq<Control>) {
    forall c <- cs :: |c.payload| <= MAX_CONTROL
  }

  /** A message the protocol admits and the receiver's size limit allows. */
  predicate LegalMessage(cfg: Config, m: Message) {
    && (m.opcode == TEXT || m.opcode == BINARY)
    && m.fragments != []
    && (forall f <- m.fragments :: LegalControls(f.after))
    && |Payload(m.fragments)| <= cfg.maxMessageSize
    && cfg.maxMessageSize <= MAX_PAYLOAD
  }

  predicate LegalScript(cfg: Config, sc: Script) {
    && LegalControls(sc.lead)
    && (forall m <- sc.messages :: LegalMessage(cfg, m))
    && (sc.close.Some? ==> Legal(CLOSE, true, |sc.close.value.payload|))
  }

  // ---------------------------------------------------------- the receiver

  function Payload(fragments: seq<Fragment>): (p: seq<byte>) {
    if fragments == [] then [] else fragments[0].payload + Payload(fragments[1..])
  }

  /** The messages the application is handed: every non-empty one, whole and in order. */
  function Expected(ms: seq<Message>): (ps: seq<seq<byte>>) {
    if ms == [] then [] else NonEmpty(Payload(ms[0].fragments)) + Expected(ms[1..])
  }

  function NonEmpty(p: seq<byte>): (ps: seq<seq<byte>>) {
    if p == [] then [] else [p]
  }

  /** The payloads of the pings to be answered, in the order they were sent. */
  function PingsIn(cfg: Config, cs: seq<Control>): (ps: seq<seq<byte>>) {
    if cs == [] then []
    else (if cs[0].Ping? && cfg.autoPong then [cs[0].payload] else []) + PingsIn(cfg, cs[1..])
  }

  function PingsOf(cfg: Config, fragments: seq<Fragment>): (ps: seq<seq<byte>>) {
    if fragments == [] then [] else PingsIn(cfg, fragments[0].after) + PingsOf(cfg, fragments[1..])
  }

  function Pings(cfg: Config, ms: seq<Message>): (ps: seq<seq<byte>>) {
    if ms == [] then [] else PingsOf(cfg, ms[0].fragments) + Pings(cfg, ms[1..])
  }

  /** One masked pong per ping, under the keys drawn from position `n` on. */
  function Pongs(pings: seq<seq<byte>>, keys: Keys, n: nat): (fs: seq<seq<byte>>) {
    if pings == [] then []
    else [EncodeFrame(PONG, pings[0], true, keys(n))] + Pongs(pings[1..], keys, n + 1)
  }

  function ScriptPings(cfg: Config, sc: Script): (ps: seq<seq<byte>>) {
    PingsIn(cfg, sc.lead) + Pings(cfg, sc.messages)
  }

  /** The one acknowledgement of a close, under key number `n`. */
  function Acks(cfg: Config, close: Option<Close>, keys: Keys, n: nat): (fs: seq<seq<byte>>) {
    if close.None? || !cfg.autoCloseAck then []
    else [EncodeFrame(CLOSE, ToBigEndian(AckCode(close.value.payload), 2), true, keys(n))]
  }

  // --------------------------------------------------- frame by frame effect

  /** A stream that has accepted some octets: `buf` still to read, `pings` answered since `n`. */
  ghost predicate Progress(cfg: Config, keys: Keys, s: Stream, t: Stream, rest: seq<byte>,
                           delivered: seq<seq<byte>>, pings: seq<seq<byte>>)
  {
    && t.closed.None? && t.buf == rest
    && t.delivered == s.delivered + delivered
    && t.sent == s.sent + Pongs(pings, keys, s.keysUsed)
    && t.keysUsed == s.keysUsed + |pings|
    && Drain(cfg, keys, s) == Drain(cfg, keys, t)
  }

  lemma {:induction false} PongsAppend(a: seq<seq<byte>>, b: seq<seq<byte>>, keys: Keys, n: nat)
    ensures Pongs(a + b, keys, n) == Pongs(a, keys, n) + Pongs(b, keys, n + |a|)
  {
    if a == [] {
      assert a + b == b;
    } else {
      assert (a + b)[1..] == a[1..] + b;
      PongsAppend(a[1..], b, keys, n + 1);
    }
  }

  lemma ProgressTrans(cfg: Config, keys: Keys, s: Stream, t: Stream, u: Stream, r1: seq<byte>, r2: seq<byte>,
                      d1: seq<seq<byte>>, d2: seq<seq<byte>>, p1: seq<seq<byte>>, p2: seq<seq<byte>>)
    requires Progress(cfg, keys, s, t, r1, d1, p1) && Progress(cfg, keys, t, u, r2, d2, p2)
    ensures Progress(cfg, keys, s, u, r2, d1 + d2, p1 + p2)
  {
    hide Drain, Pongs;
    PongsAppend(p1, p2, keys, s.keysUsed);
  }

  /** One accepted frame leaves the buffer and the codec exactly as `Apply` says. */
  lemma AcceptFrame(cfg: Config, keys: Keys, s: Stream, f: FrameSpec, rest: seq<byte>) returns (t: Stream)
    requires s.closed.None?
    requires Legal(f.opcode, f.fin, |f.payload|)
    requires s.buf == Wire(f.opcode, f.fin, f.payload, f.mask) + rest
    requires var a := Apply(cfg, s.codec, f.opcode, f.fin, f.mask.Some?, f.payload, RESPONSE_CAP, keys(s.keysUsed));
             a.trim && !a.outcome.Rejected?
    ensures var a := Apply(cfg, s.codec, f.opcode, f.fin, f.mask.Some?, f.payload, RESPONSE_CAP, keys(s.keysUsed));
            && t == s.(codec := a.state, buf := rest,
                       delivered := if a.outcome.Message? && a.outcome.payload != []
                                    then s.delivered + [a.outcome.payload] else s.delivered,
                       sent := if a.out != [] then s.sent + [a.out] else s.sent,
                       keysUsed := if a.drew then s.keysUsed + 1 else s.keysUsed)
            && Drain(cfg, keys, s) == Drain(cfg, keys, t)
  {
    hide DecodeFrame, Apply, Wire;
    var w := Wire(f.opcode, f.fin, f.payload, f.mask);
    DecodeOfWire(f.opcode, f.fin, f.payload, f.mask, rest, false);
    var r := DecodeHead(cfg, keys, s);
    assert r.consumed == |w| > 0;
    t := Record(s, r);
    assert s.buf[|w|..] == rest;
  }

  // ------------------------------------------------- control frames, messages

  lemma {:induction false} FrameBytesAppend(a: seq<FrameSpec>, b: seq<FrameSpec>)
    ensures FrameBytes(a + b) == FrameBytes(a) + FrameBytes(b)
  {
    hide Wire;
    if a == [] {
      assert a + b == b;
    } else {
      assert (a + b)[1..] == a[1..] + b;
      FrameBytesAppend(a[1..], b);
    }
  }

  lemma PingAction(cfg: Config, st: State, payload: seq<byte>, masked: bool, key: Key)
    requires |payload| <= MAX_CONTROL
    ensures var a := Apply(cfg, st, PING, true, masked, payload, RESPONSE_CAP, key);
            if cfg.autoPong then
              a == Action(st, true, EncodeFrame(PONG, payload, true, key), true, NoMessage) && a.out != []
            else a == Action(st, true, [], false, NoMessage)
  {}

  lemma AcceptControl(cfg: Config, keys: Keys, s: Stream, c: Control, rest: seq<byte>) returns (t: Stream)
    requires s.closed.None? && |c.payload| <= MAX_CONTROL
    requires s.buf == FrameBytes([ControlFrame(c)]) + rest
    ensures Progress(cfg, keys, s, t, rest, [], PingsIn(cfg, [c])) && t.codec == s.codec
  {
    hide Drain, Wire, EncodeFrame;
    var f := ControlFrame(c);
    OneFrame(f);
    if c.Ping? {
      PingAction(cfg, s.codec, c.payload, c.mask.Some?, keys(s.keysUsed));
    }
    t := AcceptFrame(cfg, keys, s, f, rest);
    assert PingsIn(cfg, [c]) == (if c.Ping? && cfg.autoPong then [c.payload] else []) + PingsIn(cfg, []);
    assert Pongs([c.payload], keys, s.keysUsed) == [EncodeFrame(PONG, c.payload, true, keys(s.keysUsed))];
    assert s.delivered + [] == s.delivered && s.sent + [] == s.sent;
  }

  lemma {:induction false} AcceptControls(cfg: Config, keys: Keys, s: Stream, cs: seq<Control>, rest: seq<byte>)
    returns (t: Stream)
    requires s.closed.None? && LegalControls(cs)
    requires s.buf == FrameBytes(ControlFrames(cs)) + rest
    ensures Progress(cfg, keys, s, t, rest, [], PingsIn(cfg, cs)) && t.codec == s.codec
    decreases |cs|
  {
    hide Drain, Wire, EncodeFrame;
    if cs == [] {
      t := s;
      assert [] + rest == rest;
    } else {
      var f, fs := ControlFrame(cs[0]), ControlFrames(cs[1..]);
      FrameBytesAppend([f], fs);
      assert s.buf == FrameBytes([f]) + (FrameBytes(fs) + rest);
      var u := AcceptControl(cfg, keys, s, cs[0], FrameBytes(fs) + rest);
      t := AcceptControls(cfg, keys, u, cs[1..], rest);
      ProgressTrans(cfg, keys, s, u, t, FrameBytes(fs) + rest, rest, [], [],
                    PingsIn(cfg, [cs[0]]), PingsIn(cfg, cs[1..]));
      assert PingsIn(cfg, [cs[0]]) + PingsIn(cfg, cs[1..]) == PingsIn(cfg, cs) by {
        assert [cs[0]][1..] == [];
      }
    }
  }

  /** The rest of a message whose first fragments, `sofar` together, are already held. */
  lemma {:induction false} AcceptTail(cfg: Config, keys: Keys, s: Stream, fragments: seq<Fragment>, rest: seq<byte>)
    returns (t: Stream)
    requires s.closed.None? && fragments != [] && s.codec.fragOpcode != 0
    requires forall f <- fragments :: LegalControls(f.after)
    requires |s.codec.fragBuf + Payload(fragments)| <= cfg.maxMessageSize <= MAX_PAYLOAD
    requires s.buf == FrameBytes(FragmentFrames(CONTINUATION, fragments)) + rest
    ensures Progress(cfg, keys, s, t, rest, NonEmpty(s.codec.fragBuf + Payload(fragments)), PingsOf(cfg, fragments))
    ensures t.codec.fragOpcode == 0
    decreases |fragments|
  {
    hide Drain, Wire, EncodeFrame, Pongs;
    var head, more := fragments[0], fragments[1..];
    var held := s.codec.fragBuf + head.payload;
    assert fragments == [head] + more;
    var u := AcceptData(cfg, keys, s, CONTINUATION, head, more, rest);
    var r := FrameBytes(FragmentFrames(CONTINUATION, more)) + rest;
    if more == [] {
      assert Payload(fragments) == head.payload + [] == head.payload;
      assert PingsOf(cfg, fragments) == PingsIn(cfg, head.after) + PingsOf(cfg, []) == PingsIn(cfg, head.after);
      assert r == rest;
      t := u;
    } else {
      assert held + Payload(more) == s.codec.fragBuf + Payload(fragments);
      t := AcceptTail(cfg, keys, u, more, rest);
      ProgressTrans(cfg, keys, s, u, t, r, rest, [], NonEmpty(held + Payload(more)),
                    PingsIn(cfg, head.after), PingsOf(cfg, more));
      assert [] + NonEmpty(held + Payload(more)) == NonEmpty(held + Payload(more));
    }
  }

  /** What the codec holds before the first fragment of a message, or between fragments. */
  function Held(st: State, opcode: byte): (b: seq<byte>) {
    if opcode == CONTINUATION then st.fragBuf else []
  }

  /** One fragment and the control frames after it. */
  lemma AcceptData(cfg: Config, keys: Keys, s: Stream, opcode: byte, head: Fragment, more: seq<Fragment>,
                   rest: seq<byte>)
    returns (t: Stream)
    requires s.closed.None? && LegalControls(head.after)
    requires opcode == TEXT || opcode == BINARY || (opcode == CONTINUATION && s.codec.fragOpcode != 0)
    requires |Held(s.codec, opcode) + head.payload| <= cfg.maxMessageSize <= MAX_PAYLOAD
    requires s.buf == FrameBytes(FragmentFrames(opcode, [head] + more)) + rest
    ensures var held, last := Held(s.codec, opcode) + head.payload, more == [];
            && Progress(cfg, keys, s, t, FrameBytes(FragmentFrames(CONTINUATION, more)) + rest,
                        if last then NonEmpty(held) else [], PingsIn(cfg, head.after))
            && (last ==> t.codec.fragOpcode == 0)
            && (!last ==> t.codec.fragOpcode != 0 && t.codec.fragBuf == held)
  {
    hide Drain, Wire, Pongs, Apply, FrameBytes;
    var last := more == [];
    var f := FrameSpec(opcode, last, head.payload, head.mask);
    var r1 := FrameBytes(FragmentFrames(CONTINUATION, more)) + rest;
    var r0 := FrameBytes(ControlFrames(head.after)) + r1;
    assert ([head] + more)[1..] == more;
    FragmentBytes(opcode, [head] + more, rest);
    DataAction(cfg, s.codec, opcode, last, head.mask.Some?, head.payload, keys(s.keysUsed));
    var u := AcceptFrame(cfg, keys, s, f, r0);
    t := AcceptControls(cfg, keys, u, head.after, r1);
    var d := if last then NonEmpty(Held(s.codec, opcode) + head.payload) else [];
    assert Progress(cfg, keys, s, u, r0, d, []) by {
      NoPongs(keys, s.keysUsed);
      assert s.sent + [] == s.sent && s.delivered + [] == s.delivered;
    }
    ProgressTrans(cfg, keys, s, u, t, r0, r1, d, [], [], PingsIn(cfg, head.after));
    assert d + [] == d && [] + PingsIn(cfg, head.after) == PingsIn(cfg, head.after);
  }

  /** A data frame within the size limit is accepted: held until the last, delivered then. */
  lemma DataAction(cfg: Config, st: State, opcode: byte, fin: bool, masked: bool, payload: seq<byte>, key: Key)
    requires opcode == TEXT || opcode == BINARY || (opcode == CONTINUATION && st.fragOpcode != 0)
    requires |Held(st, opcode) + payload| <= cfg.maxMessageSize <= MAX_PAYLOAD
    ensures Legal(opcode, fin, |payload|)
    ensures var a, held := Apply(cfg, st, opcode, fin, masked, payload, RESPONSE_CAP, key), Held(st, opcode) + payload;
            && a.trim && a.out == [] && !a.drew
            && a.outcome == (if fin then WsCodec.Message(held) else NoMessage)
            && (fin ==> a.state.fragOpcode == 0)
            && (!fin ==> a.state.fragOpcode != 0 && a.state.fragBuf == held)
  {
    assert [] + payload == payload;
  }

  lemma FragmentBytes(opcode: byte, fragments: seq<Fragment>, rest: seq<byte>)
    requires fragments != []
    ensures FrameBytes(FragmentFrames(opcode, fragments)) + rest
         == Wire(opcode, |fragments| == 1, fragments[0].payload, fragments[0].mask)
            + (FrameBytes(ControlFrames(fragments[0].after))
               + (FrameBytes(FragmentFrames(CONTINUATION, fragments[1..])) + rest))
  {
    hide Wire, FrameBytes;
    var f := FrameSpec(opcode, |fragments| == 1, fragments[0].payload, fragments[0].mask);
    var cs, more := ControlFrames(fragments[0].after), FragmentFrames(CONTINUATION, fragments[1..]);
    FrameBytesAppend([f] + cs, more);
    FrameBytesAppend([f], cs);
    OneFrame(f);
    Regroup(FrameBytes([f]), FrameBytes(cs), FrameBytes(more), rest);
  }

  lemma OneFrame(f: FrameSpec)
    ensures FrameBytes([f]) == Wire(f.opcode, f.fin, f.payload, f.mask)
  {
    hide Wire;
    assert [f][1..] == [];
    assert FrameBytes([f]) == Wire(f.opcode, f.fin, f.payload, f.mask) + FrameBytes([]);
  }

  lemma Regroup(a: seq<byte>, b: seq<byte>, c: seq<byte>, d: seq<byte>)
    ensures a + b + c + d == a + (b + (c + d))
  {}

  lemma NoPongs(keys: Keys, n: nat)
    ensures Pongs([], keys, n) == []
  {}

  lemma AcceptMessage(cfg: Config, keys: Keys, s: Stream, m: Message, rest: seq<byte>) returns (t: Stream)
    requires s.closed.None? && LegalMessage(cfg, m)
    requires s.buf == FrameBytes(FragmentFrames(m.opcode, m.fragments)) + rest
    ensures Progress(cfg, keys, s, t, rest, NonEmpty(Payload(m.fragments)), PingsOf(cfg, m.fragments))
    ensures t.codec.fragOpcode == 0
  {
    hide Drain, Wire, Pongs, FrameBytes;
    var head, more := m.fragments[0], m.fragments[1..];
    assert [] + head.payload == head.payload;
    assert m.fragments == [head] + more;
    var u := AcceptData(cfg, keys, s, m.opcode, head, more, rest);
    var r := FrameBytes(FragmentFrames(CONTINUATION, more)) + rest;
    if more == [] {
      assert Payload(m.fragments) == head.payload + Payload([]) == head.payload;
      assert PingsOf(cfg, m.fragments) == PingsIn(cfg, head.after) + PingsOf(cfg, []) == PingsIn(cfg, head.after);
      NoFrames();
      assert r == rest;
      t := u;
    } else {
      t := AcceptTail(cfg, keys, u, more, rest);
      ProgressTrans(cfg, keys, s, u, t, r, rest, [], NonEmpty(Payload(m.fragments)),
                    PingsIn(cfg, head.after), PingsOf(cfg, more));
      assert [] + NonEmpty(Payload(m.fragments)) == NonEmpty(Payload(m.fragments));
    }
  }

  lemma NoFrames()
    ensures FrameBytes([]) == []
  {}

  lemma {:induction false} AcceptMessages(cfg: Config, keys: Keys, s: Stream, ms: seq<Message>, rest: seq<byte>)
    returns (t: Stream)
    requires s.closed.None? && s.codec.fragOpcode == 0
    requires forall m <- ms :: LegalMessage(cfg, m)
    requires s.buf == FrameBytes(MessageFrames(ms)) + rest
    ensures Progress(cfg, keys, s, t, rest, Expected(ms), Pings(cfg, ms)) && t.codec.fragOpcode == 0
    decreases |ms|
  {
    hide Drain, Wire, LegalMessage;
    if ms == [] {
      t := s;
      assert [] + rest == rest;
    } else {
      var fs, more := FragmentFrames(ms[0].opcode, ms[0].fragments), MessageFrames(ms[1..]);
      var r := FrameBytes(more) + rest;
      FrameBytesAppend(fs, more);
      assert s.buf == FrameBytes(fs) + r;
      var u := AcceptMessage(cfg, keys, s, ms[0], r);
      t := AcceptMessages(cfg, keys, u, ms[1..], rest);
      ProgressTrans(cfg, keys, s, u, t, r, rest, NonEmpty(Payload(ms[0].fragments)), Expected(ms[1..]),
                    PingsOf(cfg, ms[0].fragments), Pings(cfg, ms[1..]));
    }
  }

  lemma AcceptScript(cfg: Config, keys: Keys, s: Stream, sc: Script, rest: seq<byte>) returns (t: Stream)
    requires s.closed.None? && s.codec.fragOpcode == 0 && LegalScript(cfg, sc)
    requires s.buf == FrameBytes(ScriptFrames(sc)) + rest
    ensures Progress(cfg, keys, s, t, FrameBytes(CloseFrames(sc.close)) + rest,
                     Expected(sc.messages), ScriptPings(cfg, sc))
  {
    hide Drain, Wire, FrameBytes, LegalMessage, Pongs;
    var a, b, c := ControlFrames(sc.lead), MessageFrames(sc.messages), CloseFrames(sc.close);
    FrameBytesAppend(a + b, c);
    FrameBytesAppend(a, b);
    Regroup(FrameBytes(a), FrameBytes(b), FrameBytes(c), rest);
    var r := FrameBytes(c) + rest;
    var u := AcceptControls(cfg, keys, s, sc.lead, FrameBytes(b) + r);
    t := AcceptMessages(cfg, keys, u, sc.messages, r);
    ProgressTrans(cfg, keys, s, u, t, FrameBytes(b) + r, r, [], Expected(sc.messages),
                  PingsIn(cfg, sc.lead), Pings(cfg, sc.messages));
    assert [] + Expected(sc.messages) == Expected(sc.messages);
  }

  /** A close ends the stream at once: one acknowledgement, and what follows it is never read. */
  lemma AcceptClose(cfg: Config, keys: Keys, s: Stream, close: Close, rest: seq<byte>)
    requires s.closed.None? && Legal(CLOSE, true, |close.payload|)
    requires s.buf == Wire(CLOSE, true, close.payload, close.mask) + rest
    ensures var t := Drain(cfg, keys, s);
            && t.closed == Some(WsCloseReceived) && t.delivered == s.delivered
            && t.sent == s.sent + Acks(cfg, Some(close), keys, s.keysUsed)
  {
    hide Wire, DecodeFrame, AckCode, EncodeFrame, ToBigEndian;
    DecodeOfWire(CLOSE, true, close.payload, close.mask, rest, false);
    AckFits(AckCode(close.payload), keys(s.keysUsed));
    assert s.sent + [] == s.sent;
    assert s.buf != [];
  }

  lemma AckFits(code: nat, key: Key)
    ensures 0 < |EncodeFrame(CLOSE, ToBigEndian(code, 2), true, key)| <= RESPONSE_CAP
  {}

  // ----------------------------------------------------------- the two theorems

  /** However the peer fragments its messages, masks its frames and mixes in pings and pongs, the
      application gets every non-empty message whole and in order, and every ping its pong; a
      close is acknowledged once, after all of that, and ends the stream. */
  lemma Reassembly(cfg: Config, keys: Keys, s: Stream, sc: Script, rest: seq<byte>)
    requires s.closed.None? && s.buf == [] && s.codec.fragOpcode == 0 && LegalScript(cfg, sc)
    requires sc.close.Some? || DecodeFrame(rest, false) == Failed(Incomplete)
    ensures var t, pings := Drain(cfg, keys, s.(buf := FrameBytes(ScriptFrames(sc)) + rest)), ScriptPings(cfg, sc);
            && t.delivered == s.delivered + Expected(sc.messages)
            && t.sent == s.sent + Pongs(pings, keys, s.keysUsed) + Acks(cfg, sc.close, keys, s.keysUsed + |pings|)
            && (sc.close.Some? ==> t.closed == Some(WsCloseReceived))
            && (sc.close.None? ==> t.closed.None? && t.buf == rest)
  {
    hide Drain, Wire, FrameBytes, LegalScript, Pongs, DecodeFrame, Acks, ScriptPings;
    var u := s.(buf := FrameBytes(ScriptFrames(sc)) + rest);
    var t := AcceptScript(cfg, keys, u, sc, rest);
    if sc.close.Some? {
      OneFrame(CloseFrames(sc.close)[0]);
      CloseLegal(cfg, sc);
      AcceptClose(cfg, keys, t, sc.close.value, rest);
    } else {
      NoFrames();
      assert [] + rest == rest;
      QuietDrain(cfg, keys, t);
      NoAcks(cfg, keys, t.keysUsed);
      assert t.sent + [] == t.sent;
    }
  }

  lemma CloseLegal(cfg: Config, sc: Script)
    requires LegalScript(cfg, sc) && sc.close.Some?
    ensures Legal(CLOSE, true, |sc.close.value.payload|)
  {}

  lemma NoAcks(cfg: Config, keys: Keys, n: nat)
    ensures Acks(cfg, None, keys, n) == []
  {}

  predicate WiresFit(fs: seq<FrameSpec>, cap: nat) {
    forall i | 0 <= i < |fs| :: |Wire(fs[i].opcode, fs[i].fin, fs[i].payload, fs[i].mask)| <= cap
  }

  predicate LegalFrames(fs: seq<FrameSpec>) {
    forall i | 0 <= i < |fs| :: Legal(fs[i].opcode, fs[i].fin, |fs[i].payload|)
  }

  /** Frames no longer than the buffer fit it, whatever state the codec is in. */
  lemma {:induction false} WiresFitStream(cfg: Config, keys: Keys, s: Stream, fs: seq<FrameSpec>,
                                          rest: seq<byte>, cap: nat)
    requires s.closed.None? && s.buf == FrameBytes(fs) + rest
    requires WiresFit(fs, cap) && LegalFrames(fs)
    requires (fs != [] && fs[|fs| - 1].opcode == CLOSE) ||
             (|rest| < cap && DecodeFrame(rest, false) == Failed(Incomplete))
    ensures Fits(cfg, keys, s, cap)
    decreases |fs|
  {
    hide DecodeFrame, Wire, Legal, Respond, Append;
    if fs == [] {
      assert s.buf == rest;
    } else {
      var f, more := fs[0], FrameBytes(fs[1..]) + rest;
      var w := Wire(f.opcode, f.fin, f.payload, f.mask);
      assert s.buf == w + more;
      DecodeOfWire(f.opcode, f.fin, f.payload, f.mask, more, false);
      DecodeOfWire(f.opcode, f.fin, f.payload, f.mask, [], false);
      assert w + [] == w;
      NotStuck(w, more, cap);
      var r := DecodeHead(cfg, keys, s);
      WaitsOnlyUnread(cfg, s.codec, f.opcode, f.fin, f.mask.Some?, f.payload, RESPONSE_CAP, keys(s.keysUsed));
      if !r.outcome.Rejected? {
        CloseRejects(cfg, s.codec, f.opcode, f.fin, f.mask.Some?, f.payload, keys(s.keysUsed));
        assert s.buf[|w|..] == more;
        WiresFitStream(cfg, keys, Record(s, r), fs[1..], rest, cap);
      }
    }
  }

  lemma CloseRejects(cfg: Config, st: State, opcode: byte, fin: bool, masked: bool, payload: seq<byte>, key: Key)
    requires !Apply(cfg, st, opcode, fin, masked, payload, RESPONSE_CAP, key).outcome.Rejected?
    ensures opcode != CLOSE
  {}

  lemma NothingDecodes()
    ensures DecodeFrame([], false) == Failed(Incomplete)
  {}

  lemma {:induction false} ControlFramesLegal(cs: seq<Control>)
    requires LegalControls(cs)
    ensures LegalFrames(ControlFrames(cs))
  {
    if cs != [] {
      ControlFramesLegal(cs[1..]);
    }
  }

  lemma {:induction false} FragmentFramesLegal(opcode: byte, fragments: seq<Fragment>)
    requires opcode <= BINARY
    requires forall f <- fragments :: LegalControls(f.after)
    requires |Payload(fragments)| <= MAX_PAYLOAD
    ensures LegalFrames(FragmentFrames(opcode, fragments))
  {
    if fragments != [] {
      ControlFramesLegal(fragments[0].after);
      FragmentFramesLegal(CONTINUATION, fragments[1..]);
    }
  }

  lemma {:induction false} MessageFramesLegal(cfg: Config, ms: seq<Message>)
    requires forall m <- ms :: LegalMessage(cfg, m)
    ensures LegalFrames(MessageFrames(ms))
  {
    if ms != [] {
      assert LegalMessage(cfg, ms[0]);
      FragmentFramesLegal(ms[0].opcode, ms[0].fragments);
      MessageFramesLegal(cfg, ms[1..]);
    }
  }

  lemma ScriptFramesLegal(cfg: Config, sc: Script)
    requires LegalScript(cfg, sc)
    ensures LegalFrames(ScriptFrames(sc))
    ensures sc.close.Some? ==> var fs := ScriptFrames(sc); fs != [] && fs[|fs| - 1].opcode == CLOSE
  {
    hide LegalMessage, Legal;
    ControlFramesLegal(sc.lead);
    MessageFramesLegal(cfg, sc.messages);
  }

  /** The whole receive path: any such script, cut into socket reads in any way, into any buffer
      that holds its longest frame. Nothing after a close is read; without one, the octets of an
      unfinished frame stay buffered. */
  lemma EndToEnd(cfg: Config, keys: Keys, cap: nat, sc: Script, rest: seq<byte>, chunks: seq<seq<byte>>)
    requires cap > 0 && LegalScript(cfg, sc) && WiresFit(ScriptFrames(sc), cap)
    requires sc.close.Some? || (|rest| < cap && DecodeFrame(rest, false) == Failed(Incomplete))
    requires Concat(chunks) == FrameBytes(ScriptFrames(sc)) + rest
    requires RecvRespectsSpace(cfg, keys, cap, Fresh, chunks)
    ensures var t, pings := Run(cfg, keys, cap, Fresh, chunks), ScriptPings(cfg, sc);
            && t.delivered == Expected(sc.messages)
            && t.sent == Pongs(pings, keys, 0) + Acks(cfg, sc.close, keys, |pings|)
            && (sc.close.Some? ==> t.closed == Some(WsCloseReceived))
            && (sc.close.None? ==> t.closed.None? && t.buf == rest)
  {
    hide Drain, Run, Poll, RecvRespectsSpace, WiresFit, LegalFrames, LegalScript, Fits, FrameBytes, Pongs,
         DecodeFrame, Acks, ScriptPings, ScriptFrames, Expected;
    NothingDecodes();
    Reassembly(cfg, keys, Fresh, sc, rest);
    ScriptFramesLegal(cfg, sc);
    var all := Fresh.(buf := FrameBytes(ScriptFrames(sc)) + rest);
    assert Fresh.buf + Concat(chunks) == all.buf;
    WiresFitStream(cfg, keys, all, ScriptFrames(sc), rest, cap);
    ChunkingIrrelevant(cfg, keys, cap, Fresh, chunks);
    assert Fresh.delivered + Expected(sc.messages) == Expected(sc.messages);
    assert Fresh.sent + Pongs(ScriptPings(cfg, sc), keys, 0) == Pongs(ScriptPings(cfg, sc), keys, 0);
  }
}
