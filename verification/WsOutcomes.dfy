/** When the codec gives each of its answers, as conditions on the frame at the head of the view and
    on the message in flight; and what every run therefore delivers. */
module WsOutcomes {
  import opened Bytes
  import opened Options
  import opened WsFrame
  import opened WsVerdict
  import opened WsCodec
  import opened WsStream

  /** A whole frame stands at the head of the view. */
  predicate Whole(view: seq<byte>) {
    DecodeFrame(view, false).Complete?
  }

  function HeadFrame(view: seq<byte>): (f: Frame)
    requires Whole(view)
  {
    DecodeFrame(view, false).frame
  }

  predicate IsData(view: seq<byte>) {
    Whole(view) && HeadFrame(view).opcode in {CONTINUATION, TEXT, BINARY}
  }

  predicate IsKind(view: seq<byte>, opcode: byte) {
    Whole(view) && HeadFrame(view).opcode == opcode
  }

  /** The octets of the message in flight that the frame at the head continues. */
  function Carried(st: State, view: seq<byte>): (b: seq<byte>) {
    if IsKind(view, CONTINUATION) then st.fragBuf else []
  }

  /** A data frame that may be taken: a continuation needs a fragmented message in flight. */
  predicate Takes(st: State, view: seq<byte>) {
    IsData(view) && (IsKind(view, CONTINUATION) ==> st.fragOpcode != 0)
  }

  lemma WholeIsAdmitted(view: seq<byte>)
    requires Whole(view)
    ensures Admitted(HeadFrame(view).opcode, HeadFrame(view).fin, |HeadFrame(view).raw|)
  {
    hide DecodeFrame, Wire, Legal, Admitted;
    WireOfDecode(view);
    LegalIsAdmitted(HeadFrame(view).opcode, HeadFrame(view).fin, |HeadFrame(view).raw|);
  }

  lemma ReplySize(opcode: byte, payload: seq<byte>, key: Key)
    requires |payload| <= MAX_CONTROL
    ensures |EncodeFrame(opcode, payload, true, key)| == 6 + |payload|
  {}

  /** A message is delivered exactly when a final data frame that may be taken completes it within the
      size limit, and it is the octets held and those of the frame. */
  lemma MessageIff(cfg: Config, st: State, view: seq<byte>, cap: nat, key: Key, m: seq<byte>)
    ensures Decode(cfg, st, view, cap, key).outcome == Message(m) <==>
            && Takes(st, view) && HeadFrame(view).fin
            && m == Carried(st, view) + HeadFrame(view).Payload() && |m| <= cfg.maxMessageSize
  {
    hide DecodeFrame, EncodeFrame, AckCode;
    if Whole(view) {
      WholeIsAdmitted(view);
      assert [] + HeadFrame(view).Payload() == HeadFrame(view).Payload();
    }
  }

  /** The limit is enforced exactly when a data frame that may be taken would exceed it. */
  lemma OverflowIff(cfg: Config, st: State, view: seq<byte>, cap: nat, key: Key)
    ensures Decode(cfg, st, view, cap, key).outcome == Rejected(CodecOverflow) <==>
            Takes(st, view) && |Carried(st, view)| + |HeadFrame(view).raw| > cfg.maxMessageSize
  {
    hide DecodeFrame, EncodeFrame, AckCode;
    if Whole(view) {
      WholeIsAdmitted(view);
    }
  }

  /** A frame is bad exactly when the decoder refuses it or it continues no message in flight. */
  lemma FrameBadIff(cfg: Config, st: State, view: seq<byte>, cap: nat, key: Key)
    ensures Decode(cfg, st, view, cap, key).outcome == Rejected(WsFrameBad) <==>
            || (DecodeFrame(view, false).Failed? && DecodeFrame(view, false).error != Incomplete)
            || (IsKind(view, CONTINUATION) && st.fragOpcode == 0)
  {
    hide DecodeFrame, EncodeFrame, AckCode;
    if Whole(view) {
      WholeIsAdmitted(view);
    }
  }

  /** The frame at the head calls for an answer. */
  predicate Answered(cfg: Config, view: seq<byte>) {
    (IsKind(view, PING) && cfg.autoPong) || (IsKind(view, CLOSE) && cfg.autoCloseAck)
  }

  function AnswerSize(view: seq<byte>): (n: nat)
    requires Whole(view)
  {
    if IsKind(view, PING) then 6 + |HeadFrame(view).raw| else 8
  }

  /** What is written back, when a close ends the stream and when there is no room to answer. */
  lemma AnswersExact(cfg: Config, st: State, view: seq<byte>, cap: nat, key: Key)
    ensures var r := Decode(cfg, st, view, cap, key);
            && (r.out != [] <==> Answered(cfg, view) && AnswerSize(view) <= cap)
            && (r.drew <==> Answered(cfg, view))
            && (r.outcome == Rejected(BufferFull) <==> Answered(cfg, view) && AnswerSize(view) > cap)
            && (r.outcome == Rejected(WsCloseReceived) <==>
                IsKind(view, CLOSE) && (cfg.autoCloseAck ==> cap >= 8))
  {
    hide DecodeFrame, EncodeFrame, AckCode, ToBigEndian;
    if Whole(view) {
      WholeIsAdmitted(view);
      var payload := HeadFrame(view).Payload();
      if IsKind(view, PING) {
        ReplySize(PONG, payload, key);
      } else if IsKind(view, CLOSE) {
        ReplySize(CLOSE, ToBigEndian(AckCode(payload), 2), key);
      }
    }
  }

  /** The codes section 7.4 of RFC 6455 lets an endpoint send, one by one. */
  lemma SendableCodes(code: nat)
    ensures IsValidCloseCode(code) <==>
            code in {1000, 1001, 1002, 1003, 1007, 1008, 1009, 1010, 1011} || code / 1000 in {3, 4}
  {}

  /** The acknowledgement on the wire: a masked close of eight octets whose code is the peer's when that
      may be sent, 1000 when the peer gave none, and 1002 otherwise. */
  lemma AckExact(cfg: Config, st: State, view: seq<byte>, cap: nat, key: Key)
    requires cfg.autoCloseAck && IsKind(view, CLOSE) && cap >= 8
    ensures var peer := HeadFrame(view).Payload();
            var code := if peer == [] then 1000
                        else if |peer| >= 2 && IsValidCloseCode(BigEndian(peer[..2])) then BigEndian(peer[..2])
                        else 1002;
            Decode(cfg, st, view, cap, key).out == Wire(CLOSE, true, ToBigEndian(code, 2), Some(key))
  {
    hide DecodeFrame, Wire, ToBigEndian, BigEndian, IsValidCloseCode;
    WholeIsAdmitted(view);
    var peer := HeadFrame(view).Payload();
    CloseWire(ToBigEndian(AckCode(peer), 2), key);
  }

  lemma CloseWire(payload: seq<byte>, key: Key)
    requires |payload| == 2
    ensures EncodeFrame(CLOSE, payload, true, key) == Wire(CLOSE, true, payload, Some(key))
    ensures |Wire(CLOSE, true, payload, Some(key))| == 8
  {}

  /** Octets leave the view unless nothing was decided, the frame was bad or there was no room. */
  lemma ConsumedExact(cfg: Config, st: State, view: seq<byte>, cap: nat, key: Key)
    ensures var r := Decode(cfg, st, view, cap, key);
            r.consumed ==
            if Whole(view) && r.outcome != Rejected(WsFrameBad) && r.outcome != Rejected(BufferFull)
            then HeadFrame(view).totalLen else 0
  {
    hide DecodeFrame, EncodeFrame, AckCode;
  }

  /** The message in flight: its octets, or nothing. */
  function Flight(st: State): (b: Option<seq<byte>>) {
    if st.fragOpcode == 0 then None else Some(st.fragBuf)
  }

  /** A message is in flight from its first fragment that is not final to its final one. Control frames
      and refused frames leave it alone; an overflow drops its octets. */
  lemma FlightExact(cfg: Config, st: State, view: seq<byte>, cap: nat, key: Key)
    ensures var r := Decode(cfg, st, view, cap, key);
            && (!Takes(st, view) ==> r.state == st)
            && (Takes(st, view) && r.outcome != Rejected(CodecOverflow) ==>
                Flight(r.state) ==
                if HeadFrame(view).fin then None else Some(Carried(st, view) + HeadFrame(view).Payload()))
            && (r.outcome == Rejected(CodecOverflow) ==>
                Flight(r.state) == if HeadFrame(view).fin && !IsKind(view, CONTINUATION) then None else Some([]))
  {
    hide DecodeFrame, EncodeFrame, AckCode;
    if Whole(view) {
      WholeIsAdmitted(view);
    }
  }

  // ---------------------------------------------------------------- what a run delivers

  predicate AllWithin(ms: seq<seq<byte>>, limit: nat) {
    forall i | 0 <= i < |ms| :: 0 < |ms[i]| <= limit
  }

  lemma RecordWithin(cfg: Config, keys: Keys, s: Stream)
    requires AllWithin(s.delivered, cfg.maxMessageSize)
    ensures AllWithin(Record(s, DecodeHead(cfg, keys, s)).delivered, cfg.maxMessageSize)
  {
    hide Decode;
    var r := DecodeHead(cfg, keys, s);
    if r.outcome.Message? {
      MessageIff(cfg, s.codec, s.buf, RESPONSE_CAP, keys(s.keysUsed), r.outcome.payload);
    }
  }

  lemma {:induction false} DrainWithin(cfg: Config, keys: Keys, s: Stream)
    requires AllWithin(s.delivered, cfg.maxMessageSize)
    ensures AllWithin(Drain(cfg, keys, s).delivered, cfg.maxMessageSize)
    decreases |s.buf|
  {
    hide AllWithin, Decode;
    if s.closed.None? && s.buf != [] {
      RecordWithin(cfg, keys, s);
      var r := DecodeHead(cfg, keys, s);
      if !r.outcome.Rejected? && r.consumed > 0 {
        DrainWithin(cfg, keys, Record(s, r));
      }
    }
  }

  /** Whatever octets arrive and however they are cut, no message delivered exceeds the limit. */
  lemma {:induction false} RunWithin(cfg: Config, keys: Keys, cap: nat, s: Stream, chunks: seq<seq<byte>>)
    requires AllWithin(s.delivered, cfg.maxMessageSize)
    ensures AllWithin(Run(cfg, keys, cap, s, chunks).delivered, cfg.maxMessageSize)
    decreases |chunks|
  {
    hide AllWithin, Drain;
    if chunks != [] {
      var d := Drain(cfg, keys, s);
      DrainWithin(cfg, keys, s);
      DrainWithin(cfg, keys, d.(buf := d.buf + chunks[0]));
      RunWithin(cfg, keys, cap, Poll(cfg, keys, cap, s, chunks[0]), chunks[1..]);
    }
  }
}
