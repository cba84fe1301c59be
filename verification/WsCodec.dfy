/** The stateful WebSocket codec: control frames answered, fragments reassembled
    (sections 5.4 and 5.5 of RFC 6455), permessage-deflate not negotiated. */
module WsCodec {
  import opened Bytes
  import opened Options
  import opened WsFrame

  const NORMAL: nat := 1000
  const PROTOCOL_ERROR: nat := 1002

  datatype Config = Config(maxMessageSize: nat, autoPong: bool, autoCloseAck: bool)

  datatype Error = WsFrameBad | CodecOverflow | WsCloseReceived | BufferFull | ReasmOverflow

  /** `fragOpcode` is the opcode of the fragmented message in flight, 0 when there is none. */
  datatype State = State(fragBuf: seq<byte>, fragOpcode: byte)

  datatype Outcome = Message(payload: seq<byte>) | NoMessage | Rejected(error: Error)

  /** What one frame does: the next state, whether its octets leave the view, the
      auto-response, and whether a masking key was drawn for it. */
  datatype Action = Action(state: State, trim: bool, out: seq<byte>, drew: bool, outcome: Outcome)

  datatype Step = Step(state: State, consumed: nat, out: seq<byte>, drew: bool, outcome: Outcome)

  predicate IsValidCloseCode(code: nat) {
    1000 <= code <= 1003 || 1007 <= code <= 1011 || 3000 <= code <= 4999
  }

  /** The status code a close-ack carries for a peer's close payload: the peer's own code
      whenever that may be sent, never one that may not. */
  function AckCode(payload: seq<byte>): (code: nat)
    ensures IsValidCloseCode(code)
    ensures |payload| >= 2 && IsValidCloseCode(BigEndian(payload[..2])) ==> code == BigEndian(payload[..2])
    ensures payload == [] ==> code == 1000
    ensures |payload| == 1 || (|payload| >= 2 && !IsValidCloseCode(BigEndian(payload[..2]))) ==> code == 1002
  {
    if payload == [] then NORMAL
    else
      var code := if |payload| < 2 then 0 else BigEndian(payload[..2]);
      if IsValidCloseCode(code) then code else PROTOCOL_ERROR
  }

  /** Encode an auto-response and append it to an output buffer with `cap` octets free. */
  function Respond(st: State, opcode: byte, payload: seq<byte>, cap: nat, key: Key, outcome: Outcome): (a: Action) {
    var frame := EncodeFrame(opcode, payload, true, key);
    if |frame| > cap then Action(st, false, [], true, Rejected(BufferFull))
    else Action(st, true, frame, true, outcome)
  }

  /** Append one data fragment to the message in flight. */
  function Append(cfg: Config, st: State, fin: bool, payload: seq<byte>): (a: Action) {
    var whole := st.fragBuf + payload;
    if |whole| > cfg.maxMessageSize then Action(st.(fragBuf := []), true, [], false, Rejected(CodecOverflow))
    else if !fin then Action(st.(fragBuf := whole), true, [], false, NoMessage)
    else Action(State(whole, 0), true, [], false, Message(whole))
  }

  function Apply(cfg: Config, st: State, opcode: byte, fin: bool, masked: bool, payload: seq<byte>, cap: nat,
                 key: Key): (a: Action)
  {
    if opcode == PING then
      if cfg.autoPong then Respond(st, PONG, payload, cap, key, NoMessage)
      else Action(st, true, [], false, NoMessage)
    else if opcode == PONG then Action(st, true, [], false, NoMessage)
    else if opcode == CLOSE then
      if cfg.autoCloseAck then
        Respond(st, CLOSE, ToBigEndian(AckCode(payload), 2), cap, key, Rejected(WsCloseReceived))
      else Action(st, true, [], false, Rejected(WsCloseReceived))
    else if opcode != CONTINUATION then
      // A new message drops whatever an unfinished one had left behind.
      if !fin then Append(cfg, State([], opcode), fin, payload)
      else if |payload| > cfg.maxMessageSize then Action(State([], 0), true, [], false, Rejected(CodecOverflow))
      else Action(State(if masked then payload else [], 0), true, [], false, Message(payload))
    else if st.fragOpcode == 0 then Action(st, false, [], false, Rejected(WsFrameBad))
    else Append(cfg, st, fin, payload)
  }

  function Decode(cfg: Config, st: State, view: seq<byte>, cap: nat, key: Key): (r: Step)
    ensures r.consumed <= |view|
    ensures r.outcome.Message? ==> 2 <= r.consumed
    ensures r.outcome != Rejected(ReasmOverflow)
  {
    match DecodeFrame(view, false)
    case Failed(Incomplete) => Step(st, 0, [], false, NoMessage)
    case Failed(_) => Step(st, 0, [], false, Rejected(WsFrameBad))
    case Complete(f) =>
      var a := Apply(cfg, st, f.opcode, f.fin, f.mask.Some?, f.Payload(), cap, key);
      Step(a.state, if a.trim then f.totalLen else 0, a.out, a.drew, a.outcome)
  }

  /** "Nothing yet" with nothing consumed says exactly that the frame is not all there. */
  lemma WaitsIffIncomplete(cfg: Config, st: State, view: seq<byte>, cap: nat, key: Key)
    ensures var r := Decode(cfg, st, view, cap, key);
            r.outcome.NoMessage? && r.consumed == 0 <==> DecodeFrame(view, false) == Failed(Incomplete)
  {
    var d := DecodeFrame(view, false);
    if d.Complete? {
      var f := d.frame;
      WaitsOnlyUnread(cfg, st, f.opcode, f.fin, f.mask.Some?, f.Payload(), cap, key);
    }
  }

  lemma WaitsOnlyUnread(cfg: Config, st: State, opcode: byte, fin: bool, masked: bool, payload: seq<byte>,
                        cap: nat, key: Key)
    ensures var a := Apply(cfg, st, opcode, fin, masked, payload, cap, key);
            a.outcome.Rejected? || a.trim
  {}

  lemma DecodeStepStable(cfg: Config, st: State, view: seq<byte>, x: seq<byte>, cap: nat, key: Key)
    requires DecodeFrame(view, false) != Failed(Incomplete)
    ensures Decode(cfg, st, view + x, cap, key) == Decode(cfg, st, view, cap, key)
  {
    DecodeStable(view, x, false);
  }

  /** `out` starts with one final frame masked by `key`, and nothing else. */
  ghost predicate IsReply(out: seq<byte>, opcode: byte, payload: seq<byte>, key: Key) {
    forall rest: seq<byte> ::
      DecodeFrame(out + rest, false) == Complete(Frame(opcode, true, false, Some(key), Masked(payload, key), |out|))
  }

  lemma RespondIsReply(st: State, opcode: byte, payload: seq<byte>, cap: nat, key: Key, outcome: Outcome)
    requires cap >= 131 && |payload| <= MAX_CONTROL && Legal(opcode, true, |payload|)
    ensures var a := Respond(st, opcode, payload, cap, key, outcome);
            a.outcome == outcome && |a.out| <= 131 && IsReply(a.out, opcode, payload, key)
  {
    var frame := EncodeFrame(opcode, payload, true, key);
    assert frame == Wire(opcode, true, payload, Some(key));
    forall rest: seq<byte>
      ensures DecodeFrame(frame + rest, false) ==
              Complete(Frame(opcode, true, false, Some(key), Masked(payload, key), |frame|))
    {
      DecodeOfWire(opcode, true, payload, Some(key), rest, false);
    }
  }

  /** A ping is answered by one pong echoing its payload, and the answer always fits 131 octets. */
  lemma PongEchoesPing(cfg: Config, st: State, view: seq<byte>, cap: nat, key: Key)
    requires cap >= 131 && cfg.autoPong
    requires DecodeFrame(view, false).Complete? && DecodeFrame(view, false).frame.opcode == PING
    ensures var f, r := DecodeFrame(view, false).frame, Decode(cfg, st, view, cap, key);
            && r.state == st && r.outcome == NoMessage && r.consumed == f.totalLen
            && |r.out| <= 131 && IsReply(r.out, PONG, f.Payload(), key)
  {
    WireOfDecode(view);
    RespondIsReply(st, PONG, DecodeFrame(view, false).frame.Payload(), cap, key, NoMessage);
  }

  /** A close is answered by one close whose status code may legally be sent, whatever the peer sent. */
  lemma CloseAckIsSendable(cfg: Config, st: State, view: seq<byte>, cap: nat, key: Key)
    requires cap >= 131 && cfg.autoCloseAck
    requires DecodeFrame(view, false).Complete? && DecodeFrame(view, false).frame.opcode == CLOSE
    ensures var r := Decode(cfg, st, view, cap, key);
            var code := AckCode(DecodeFrame(view, false).frame.Payload());
            && r.state == st && r.outcome == Rejected(WsCloseReceived)
            && IsReply(r.out, CLOSE, ToBigEndian(code, 2), key)
            && BigEndian(ToBigEndian(code, 2)) == code
            && IsValidCloseCode(code)
  {
    var code := AckCode(DecodeFrame(view, false).frame.Payload());
    FieldWidths();
    BigEndianOfTo(code, 2);
    RespondIsReply(st, CLOSE, ToBigEndian(code, 2), cap, key, Rejected(WsCloseReceived));
  }

  /** With 131 octets free no response is ever refused for space. */
  lemma NeverBufferFull(cfg: Config, st: State, view: seq<byte>, cap: nat, key: Key)
    requires cap >= 131
    ensures Decode(cfg, st, view, cap, key).outcome != Rejected(BufferFull)
  {
    var d := DecodeFrame(view, false);
    if d.Complete? && d.frame.opcode == PING && cfg.autoPong {
      PongEchoesPing(cfg, st, view, cap, key);
    } else if d.Complete? && d.frame.opcode == CLOSE && cfg.autoCloseAck {
      CloseAckIsSendable(cfg, st, view, cap, key);
    }
  }
}
