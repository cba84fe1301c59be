/** The receive path as it runs: a linear reassembly buffer, a codec object and a stream that
    drives one from the other, each proved to do what `WsStream` says on values. */
module WsEndpoint {
  import opened Bytes
  import opened Options
  import opened WsFrame
  import opened WsMask
  import WsCodec
  import WsStream

  /** Octets received and not yet decoded: `store[head..tail]`. */
  class ReassemblyBuffer {
    const store: array<byte>
    var head: nat
    var tail: nat

    ghost predicate Valid()
      reads this
    {
      head <= tail <= store.Length
    }

    function Contents(): (s: seq<byte>)
      requires Valid()
      reads this, store
      ensures |s| == tail - head
    {
      store[head..tail]
    }

    constructor (cap: nat)
      ensures Valid() && fresh(store) && store.Length == cap && Contents() == []
    {
      store := new byte[cap];
      head, tail := 0, 0;
    }

    /** Receive `chunk`, as much of it as there is room for, at the tail. */
    method CommitWrite(chunk: seq<byte>)
      requires Valid()
      modifies this`tail, store
      ensures Valid()
      ensures var room := store.Length - old(tail);
              Contents() == old(Contents()) + (if |chunk| > room then chunk[..room] else chunk)
    {
      var room := store.Length - tail;
      var n := if |chunk| > room then room else |chunk|;
      forall i | 0 <= i < n {
        store[tail + i] := chunk[i];
      }
      assert store[head..tail] == old(store[head..tail]);
      assert store[tail..tail + n] == chunk[..n];
      assert store[head..tail + n] == store[head..tail] + store[tail..tail + n];
      tail := tail + n;
      assert chunk[..|chunk|] == chunk;
    }

    method Consume(n: nat)
      requires Valid()
      modifies this
      ensures Valid()
      ensures Contents() == old(Contents())[if n > |old(Contents())| then |old(Contents())| else n..]
    {
      head := if head + n < tail then head + n else tail;
      if head == tail {
        head, tail := 0, 0;
      }
    }

    /** Move the unread octets to the front so that the tail can grow again. */
    method Compact()
      requires Valid()
      modifies this, store
      ensures Valid() && head == 0
      ensures Contents() == old(Contents())
    {
      if head == 0 {
        return;
      }
      var n := tail - head;
      forall i | 0 <= i < n {
        store[i] := store[head + i];
      }
      assert store[0..n] == old(store[head..tail]);
      head, tail := 0, n;
    }
  }

  // ------------------------------------------------------------------ frames

  /** `v` shifted right by `n` octets. */
  function Shifted(v: nat, n: nat): (r: nat) {
    if n == 0 then v else Shifted(v, n - 1) / 256
  }

  /** The shift-and-mask loop over a length field, most significant octet first. */
  method BigEndianOctets(v: nat, width: nat) returns (s: seq<byte>)
    ensures s == ToBigEndian(v, width)
  {
    s := [];
    var i := width;
    while i > 0
      invariant 0 <= i <= width
      invariant s == ToBigEndian(Shifted(v, i), width - i)
    {
      i := i - 1;
      s := s + [Octet(Shifted(v, i) % 256)];
    }
  }

  /** The length read back octet by octet, most significant first. */
  method ReadBigEndian(b: seq<byte>) returns (v: nat)
    ensures v == BigEndian(b)
  {
    v := 0;
    for i := 0 to |b|
      invariant v == BigEndian(b[..i])
    {
      assert b[..i + 1][..i] == b[..i];
      v := v * 256 + b[i] as int;
    }
    assert b[..|b|] == b;
  }

  method ReadLengthOctets(b: seq<byte>) returns (r: Length)
    requires |b| >= 2
    ensures r == ReadLength(b)
  {
    var short := b[1] & 0x7F;
    if short < 126 {
      r := Length(short as int, 2);
    } else if short == 126 {
      if |b| < 4 {
        return BadLength(Incomplete);
      }
      var n := ReadBigEndian(b[2..4]);
      r := if n < 126 then BadLength(InvalidLengthEncoding) else Length(n, 4);
    } else {
      if |b| < 10 {
        return BadLength(Incomplete);
      }
      var n := ReadBigEndian(b[2..10]);
      r := if n > MAX_PAYLOAD || n <= 65535 then BadLength(InvalidLengthEncoding) else Length(n, 10);
    }
  }

  /** The decoder's second half: key, payload and the checks on the opcode. */
  method BodyOctets(b: seq<byte>, n: nat, at: nat) returns (r: Decoded)
    requires 2 <= at <= |b|
    ensures r == ReadBody(b, n, at)
  {
    hide OpcodeError;
    var pos, mask := at, None;
    if b[1] & 0x80 != 0 {
      if |b| < pos + 4 {
        return Failed(Incomplete);
      }
      mask := Some(b[pos..pos + 4]);
      pos := pos + 4;
    }
    if n > |b| - pos {
      return Failed(Incomplete);
    }
    var fin, opcode := b[0] & 0x80 != 0, b[0] & 0x0F;
    var e := OpcodeError(opcode, fin, n);
    if e.Some? {
      return Failed(e.value);
    }
    r := Complete(Frame(opcode, fin, b[0] & 0x40 != 0, mask, b[pos..pos + n], pos + n));
  }

  /** The decoder with its moving position, field by field. */
  method DecodeOctets(b: seq<byte>, allowRsv1: bool) returns (r: Decoded)
    ensures r == DecodeFrame(b, allowRsv1)
  {
    hide ReadLength, ReadBody;
    if |b| < 2 {
      return Failed(Incomplete);
    }
    if b[0] & (if allowRsv1 then 0x30 else 0x70) != 0 {
      return Failed(ReservedBits);
    }
    var len := ReadLengthOctets(b);
    if len.BadLength? {
      return Failed(len.error);
    }
    r := BodyOctets(b, len.value, len.pos);
  }

  /** First octet, then mask bit and length in its shortest form, appended in order. */
  method HeaderOctets(opcode: byte, n: nat, fin: bool, bit: byte) returns (header: seq<byte>)
    ensures header == [FirstByte(fin, opcode)] + LengthField(n, bit)
  {
    header := [FirstByte(fin, opcode)];
    if n < 126 {
      header := header + [bit | Octet(n)];
    } else if n <= 65535 {
      var ext := BigEndianOctets(n, 2);
      header := header + ([bit | 126] + ext);
    } else {
      var ext := BigEndianOctets(n, 8);
      header := header + ([bit | 127] + ext);
    }
  }

  /** Header, key, then the payload copied and masked in a single pass. */
  method EncodeInto(out: array<byte>, opcode: byte, payload: seq<byte>, fin: bool, key: Key) returns (n: nat)
    requires out.Length >= 14 + |payload|
    modifies out
    ensures n == |EncodeFrame(opcode, payload, fin, key)|
    ensures out[..n] == EncodeFrame(opcode, payload, fin, key)
  {
    hide Masked, LengthField, FirstByte;
    if !ValidPayloadLen(opcode, |payload|) {
      return 0;
    }
    var header := HeaderOctets(opcode, |payload|, fin, 0x80);
    assert |header| <= 10;
    StoreBlock(out, 0, header + key);
    ghost var stored := out[..];
    assert stored[..|header| + 4] == header + key;
    MaskedCopy(out, |header| + 4, payload, key);
    n := |header| + 4 + |payload|;
    assert out[..n] == header + key + Masked(payload, key);
    assert header + key + Masked(payload, key) == header + (key + Masked(payload, key));
  }

  /** A payload copied out of the view with its mask removed in place. */
  method UnmaskedCopy(f: Frame) returns (p: seq<byte>)
    ensures p == f.Payload()
  {
    hide Masked;
    if f.mask.Some? {
      var copy := new byte[|f.raw|](i requires 0 <= i < |f.raw| => f.raw[i]);
      assert copy[..] == f.raw;
      assert copy[0..] == copy[..] && copy[..0] == [];
      ApplyMask(copy, 0, f.mask.value);
      p := copy[..];
    } else {
      p := f.raw;
    }
  }

  // ------------------------------------------------------------------- codec

  class Codec {
    const cfg: WsCodec.Config
    var fragBuf: seq<byte>
    var fragOpcode: byte

    function State(): (s: WsCodec.State)
      reads this
    {
      WsCodec.State(fragBuf, fragOpcode)
    }

    constructor (cfg: WsCodec.Config)
      ensures this.cfg == cfg && State() == WsCodec.State([], 0)
    {
      this.cfg := cfg;
      fragBuf, fragOpcode := [], 0;
    }

    /** Encode an auto-response through a stack scratch buffer. */
    method Respond(opcode: byte, payload: seq<byte>, cap: nat, key: Key) returns (ok: bool, out: seq<byte>)
      ensures var frame := EncodeFrame(opcode, payload, true, key);
              ok == (|frame| <= cap) && out == if ok then frame else []
    {
      var scratch := new byte[14 + |payload|];
      var n := EncodeInto(scratch, opcode, payload, true, key);
      ok := n <= cap;
      out := if ok then scratch[..n] else [];
    }

    /** Append a fragment to the message in flight, within the size limit. */
    method Append(f: Frame) returns (outcome: WsCodec.Outcome)
      modifies this
      ensures var a := WsCodec.Append(cfg, old(State()), f.fin, f.Payload());
              State() == a.state && outcome == a.outcome
    {
      var payload := UnmaskedCopy(f);
      if |fragBuf| + |payload| > cfg.maxMessageSize {
        fragBuf := [];
        return WsCodec.Rejected(WsCodec.CodecOverflow);
      }
      fragBuf := fragBuf + payload;
      if !f.fin {
        return WsCodec.NoMessage;
      }
      fragOpcode := 0;
      outcome := WsCodec.Message(fragBuf);
    }

    /** A text, binary or continuation frame. */
    method Data(f: Frame) returns (trim: bool, outcome: WsCodec.Outcome)
      requires f.opcode != PING && f.opcode != PONG && f.opcode != CLOSE
      modifies this
      ensures forall cap: nat, key: Key ::
                (WsCodec.Apply(cfg, old(State()), f.opcode, f.fin, f.mask.Some?, f.Payload(), cap, key) ==
                 WsCodec.Action(State(), trim, [], false, outcome))
    {
      hide Masked;
      trim := true;
      if f.opcode != CONTINUATION {
        fragBuf := [];
        fragOpcode := if f.fin then 0 else f.opcode;
        if f.fin {
          if |f.raw| > cfg.maxMessageSize {
            return true, WsCodec.Rejected(WsCodec.CodecOverflow);
          }
          var payload := UnmaskedCopy(f);
          if f.mask.Some? {
            fragBuf := payload;
          }
          return true, WsCodec.Message(payload);
        }
      } else if fragOpcode == 0 {
        return false, WsCodec.Rejected(WsCodec.WsFrameBad);
      }
      outcome := Append(f);
    }

    method Decode(view: seq<byte>, cap: nat, key: Key)
      returns (consumed: nat, out: seq<byte>, drew: bool, outcome: WsCodec.Outcome)
      modifies this
      ensures WsCodec.Step(State(), consumed, out, drew, outcome) == WsCodec.Decode(cfg, old(State()), view, cap, key)
    {
      hide DecodeFrame, EncodeFrame, Masked;
      consumed, out, drew, outcome := 0, [], false, WsCodec.NoMessage;
      var d := DecodeOctets(view, false);
      assert State() == old(State());
      if d.Failed? {
        if d.error != Incomplete {
          outcome := WsCodec.Rejected(WsCodec.WsFrameBad);
        }
        return;
      }
      var f := d.frame;
      if (f.opcode == PING && cfg.autoPong) || (f.opcode == CLOSE && cfg.autoCloseAck) {
        var payload := UnmaskedCopy(f);
        var ok;
        if f.opcode == PING {
          ok, out := Respond(PONG, payload, cap, key);
        } else {
          ok, out := Respond(CLOSE, ToBigEndian(WsCodec.AckCode(payload), 2), cap, key);
        }
        drew := true;
        if !ok {
          outcome := WsCodec.Rejected(WsCodec.BufferFull);
          return;
        }
      }
      if f.opcode == PING || f.opcode == PONG {
        consumed := f.totalLen;
      } else if f.opcode == CLOSE {
        consumed, outcome := f.totalLen, WsCodec.Rejected(WsCodec.WsCloseReceived);
      } else {
        var trim;
        trim, outcome := Data(f);
        consumed := if trim then f.totalLen else 0;
      }
    }
  }

  // ------------------------------------------------------------------ stream

  class TcpStream {
    const codec: Codec
    const rx: ReassemblyBuffer
    const keys: WsStream.Keys
    var delivered: seq<seq<byte>>
    var sent: seq<seq<byte>>
    var keysUsed: nat
    var closed: Option<WsCodec.Error>

    ghost predicate Valid()
      reads this, rx
    {
      rx.Valid()
    }

    /** The stream as a value of the model. */
    ghost function Model(): (s: WsStream.Stream)
      requires Valid()
      reads this, codec, rx, rx.store
    {
      WsStream.Stream(codec.State(), rx.Contents(), delivered, sent, keysUsed, closed)
    }

    constructor (cfg: WsCodec.Config, cap: nat, keys: WsStream.Keys)
      ensures Valid() && fresh(codec) && fresh(rx) && fresh(rx.store)
      ensures codec.cfg == cfg && rx.store.Length == cap && this.keys == keys && Model() == WsStream.Fresh
    {
      codec := new Codec(cfg);
      rx := new ReassemblyBuffer(cap);
      this.keys := keys;
      delivered, sent, keysUsed, closed := [], [], 0, None;
    }

    /** One codec call over the unread octets; true while it makes progress. */
    method DecodeOnce() returns (more: bool)
      requires Valid() && closed.None? && rx.Contents() != []
      modifies this, codec, rx
      ensures Valid()
      ensures var r := WsStream.DecodeHead(codec.cfg, keys, old(Model()));
              && Model() == WsStream.Record(old(Model()), r)
              && more == (!r.outcome.Rejected? && r.consumed > 0)
    {
      hide WsCodec.Decode, WsStream.Record;
      ghost var was := Model();
      var consumed, out, drew, outcome := codec.Decode(rx.Contents(), WsStream.RESPONSE_CAP, keys(keysUsed));
      ghost var r := WsCodec.Step(codec.State(), consumed, out, drew, outcome);
      assert r == WsStream.DecodeHead(codec.cfg, keys, was);
      RecordState(was, r);
      more := Note(consumed, out, drew, outcome);
    }

    /** Account for one codec call: replies, keys, octets consumed, a message, or the error. */
    method Note(consumed: nat, out: seq<byte>, drew: bool, outcome: WsCodec.Outcome) returns (more: bool)
      requires Valid() && closed.None? && consumed <= |rx.Contents()|
      modifies this, rx
      ensures Valid()
      ensures Model() == WsStream.Record(old(Model()), WsCodec.Step(codec.State(), consumed, out, drew, outcome))
      ensures more == (!outcome.Rejected? && consumed > 0)
    {
      Reply(out, drew);
      if outcome.Rejected? {
        closed := Some(outcome.error);
        return false;
      }
      rx.Consume(consumed);
      if outcome.Message? {
        Deliver(outcome.payload);
      }
      more := consumed > 0;
    }

    method Reply(out: seq<byte>, drew: bool)
      modifies this`sent, this`keysUsed
      ensures sent == if out != [] then old(sent) + [out] else old(sent)
      ensures keysUsed == if drew then old(keysUsed) + 1 else old(keysUsed)
    {
      if out != [] {
        sent := sent + [out];
      }
      if drew {
        keysUsed := keysUsed + 1;
      }
    }

    method Deliver(payload: seq<byte>)
      modifies this`delivered
      ensures delivered == if payload != [] then old(delivered) + [payload] else old(delivered)
    {
      if payload != [] {
        delivered := delivered + [payload];
      }
    }

    /** Feed buffered octets through the codec until it closes the stream or needs more. */
    method DrainCodec()
      requires Valid()
      modifies this, codec, rx
      ensures Valid()
      ensures Model() == WsStream.Drain(codec.cfg, keys, old(Model()))
    {
      hide WsStream.DecodeHead, WsStream.Record;
      if closed.Some? {
        return;
      }
      var more := true;
      while more && rx.head < rx.tail
        invariant Valid()
        invariant more ==> closed.None?
        invariant more ==> WsStream.Drain(codec.cfg, keys, Model()) == WsStream.Drain(codec.cfg, keys, old(Model()))
        invariant !more ==> Model() == WsStream.Drain(codec.cfg, keys, old(Model()))
        decreases more, rx.tail - rx.head
      {
        ghost var before := Model();
        more := DecodeOnce();
        Advance(codec.cfg, keys, before);
      }
    }

    /** A readiness event. `available` is what the socket holds; `taken` octets of it are read. */
    method PollOnce(available: seq<byte>) returns (taken: nat)
      requires Valid()
      modifies this, codec, rx, rx.store
      ensures Valid() && taken <= |available|
      ensures var cap := rx.store.Length;
              && Model() == WsStream.Poll(codec.cfg, keys, cap, old(Model()), available[..taken])
              && WsStream.RecvRespectsSpace(codec.cfg, keys, cap, old(Model()), [available[..taken]])
    {
      hide WsStream.Drain;
      taken := 0;
      assert [available[..0]][1..] == [];
      DrainCodec();
      if closed.Some? {
        return;
      }
      rx.Compact();
      if rx.tail == rx.store.Length {
        closed := Some(WsCodec.ReasmOverflow);
        return;
      }
      var room := rx.store.Length - rx.tail;
      taken := if |available| < room then |available| else room;
      assert [available[..taken]][1..] == [];
      rx.CommitWrite(available[..taken]);
      DrainCodec();
    }
  }

  /** The codec state a step started from does not matter to what is recorded. */
  lemma RecordState(s: WsStream.Stream, r: WsCodec.Step)
    ensures WsStream.Record(s.(codec := r.state), r) == WsStream.Record(s, r)
  {}

  lemma Advance(cfg: WsCodec.Config, keys: WsStream.Keys, s: WsStream.Stream)
    requires s.closed.None? && s.buf != []
    ensures var r := WsStream.DecodeHead(cfg, keys, s);
            var t := WsStream.Record(s, r);
            && (!r.outcome.Rejected? && r.consumed > 0 ==>
                && t.closed.None? && |t.buf| < |s.buf|
                && WsStream.Drain(cfg, keys, s) == WsStream.Drain(cfg, keys, t))
            && (r.outcome.Rejected? || r.consumed == 0 ==> WsStream.Drain(cfg, keys, s) == t)
  {
    hide WsCodec.Decode;
  }
}
