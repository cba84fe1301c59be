/** The mock exchange's own WebSocket framing: an unmasked text encoder, a lenient decoder and the
    reader loop over socket chunks, set against the client's frame format. */
module MockServer {
  import opened Bytes
  import opened Options
  import opened WsFrame
  import opened WsMask
  import opened WsEndpoint

  datatype Read = Read(payloads: seq<seq<byte>>, rest: seq<byte>)

  const LIMIT: nat := 0x1_0000_0000_0000_0000

  /** Payload length and where the length field ends, or nothing while the field is cut short. */
  function LengthOf(b: seq<byte>): (r: Option<(nat, nat)>)
    requires |b| >= 2
    ensures r.Some? ==> 2 <= r.value.1 <= |b|
  {
    var short := b[1] & 0x7F;
    if short == 126 then if |b| < 4 then None else Some((BigEndian(b[2..4]), 4))
    else if short == 127 then if |b| < 10 then None else Some((BigEndian(b[2..10]), 10))
    else Some((short as int, 2))
  }

  /** The frame whose `n` payload octets follow a length field ending at `pos`. */
  function Take(b: seq<byte>, n: nat, pos: nat): (r: Option<(seq<byte>, nat)>)
    requires 2 <= pos <= |b|
    ensures r.Some? ==> 2 <= r.value.1 <= |b|
  {
    var masked := b[1] & 0x80 != 0;
    var start := if masked then pos + 4 else pos;
    if |b| < start + n then None
    else
      var mask := if masked then Some(b[pos..start]) else None;
      Some((Unmask(b[start..start + n], mask), start + n))
  }

  /** The payload and the octets it took, or nothing while the frame is incomplete. */
  function Decode(b: seq<byte>): (r: Option<(seq<byte>, nat)>)
    ensures r.Some? ==> 2 <= r.value.1 <= |b|
  {
    if |b| < 2 || LengthOf(b).None? then None
    else Take(b, LengthOf(b).value.0, LengthOf(b).value.1)
  }

  function EncodeHead(n: nat): (s: seq<byte>)
    ensures |s| >= 2
  {
    if n < 126 then [0x81, Octet(n)]
    else if n < 65536 then [0x81, 126] + ToBigEndian(n, 2)
    else [0x81, 127] + ToBigEndian(n, 8)
  }

  function Encode(payload: seq<byte>): (s: seq<byte>) {
    EncodeHead(|payload|) + payload
  }

  lemma NoFringe(raw: seq<byte>, mask: Key)
    ensures raw[..0] + Masked(raw, mask) + raw[|raw|..] == Masked(raw, mask)
  {
    hide Masked;
  }

  method UnmaskBytes(raw: seq<byte>, mask: Key) returns (p: seq<byte>)
    ensures p == Masked(raw, mask)
  {
    hide Masked, Written;
    var payload := new byte[|raw|](i requires 0 <= i < |raw| => raw[i]);
    assert payload[..] == raw;
    WrittenAll(raw, 0, raw, mask);
    Tail(payload, raw, 0, raw, mask, 0);
    p := payload[..];
    NoFringe(raw, mask);
  }

  /** The decoder's byte loop over a private copy of the payload. */
  method DecodeFrameBytes(b: seq<byte>) returns (r: Option<(seq<byte>, nat)>)
    ensures r == Decode(b)
  {
    hide Masked;
    if |b| < 2 {
      return None;
    }
    var len := LengthOf(b);
    if len.None? {
      return None;
    }
    var (n, pos) := len.value;
    if b[1] & 0x80 != 0 {
      if |b| < pos + 4 + n {
        return None;
      }
      var payload := UnmaskBytes(b[pos + 4..pos + 4 + n], b[pos..pos + 4]);
      r := Some((payload, pos + 4 + n));
    } else {
      if |b| < pos + n {
        return None;
      }
      r := Some((b[pos..pos + n], pos + n));
    }
  }

  // ------------------------------------------------- against the client's format

  lemma EncodeIsWire(payload: seq<byte>)
    ensures Encode(payload) == Wire(TEXT, true, payload, None)
  {
    if |payload| < 126 {
      LengthBits(0x00, |payload|);
    }
    assert EncodeHead(|payload|) == Head(TEXT, true, |payload|, None);
    assert [] + payload == payload;
  }

  /** On every input: where the client's decoder finds a frame the server finds the same payload and
      length, and where the client waits for octets so does the server. */
  lemma DecodersAgree(b: seq<byte>)
    ensures var d := DecodeFrame(b, false);
            && (d.Complete? ==> Decode(b) == Some((d.frame.Payload(), d.frame.totalLen)))
            && (d == Failed(Incomplete) ==> Decode(b) == None)
  {
    hide Masked;
    if |b| >= 2 && b[0] & 0x70 == 0 {
      LengthsAgree(b);
    }
  }

  lemma LengthsAgree(b: seq<byte>)
    requires |b| >= 2
    ensures var len := ReadLength(b);
            && (len.Length? ==> LengthOf(b) == Some((len.value, len.pos)))
            && (len == BadLength(Incomplete) ==> LengthOf(b) == None)
  {
    assert b[1] & 0x7F <= 127;
  }

  // ------------------------------------------------------- what the lenient decoder takes

  /** Any of the three length forms, the shortest or not. */
  function LooseLength(n: nat, width: nat, bit: byte): (s: seq<byte>)
    requires LooseFits(n, width)
  {
    if width == 0 then [bit | Octet(n)]
    else [bit | if width == 2 then 126 else 127] + ToBigEndian(n, width)
  }

  predicate LooseFits(n: nat, width: nat) {
    (width == 0 && n < 126) || (width == 2 && n < 65536) || (width == 8 && n < LIMIT)
  }

  /** A frame with any first octet and any length form that holds its length. */
  function Loose(first: byte, width: nat, payload: seq<byte>, mask: Option<Key>): (s: seq<byte>)
    requires LooseFits(|payload|, width)
  {
    [first] + LooseLength(|payload|, width, MaskBit(mask)) + (KeyOctets(mask) + Unmask(payload, mask))
  }

  lemma LooseRead(head: seq<byte>, n: nat, width: nat, bit: byte, rest: seq<byte>)
    requires LooseFits(n, width) && (bit == 0x00 || bit == 0x80)
    requires |head| >= 2 && head[1..] == LooseLength(n, width, bit)
    ensures LengthOf(head + rest) == Some((n, |head|))
    ensures head[1] & 0x80 == bit
  {
    var s := head + rest;
    assert s[1] == head[1] == LooseLength(n, width, bit)[0];
    FieldWidths();
    if width == 0 {
      LengthBits(bit, n);
      Below126(Octet(n));
    } else if width == 2 {
      assert s[2..4] == head[1..][1..] == ToBigEndian(n, 2);
      BigEndianOfTo(n, 2);
    } else {
      assert s[2..10] == head[1..][1..] == ToBigEndian(n, 8);
      BigEndianOfTo(n, 8);
    }
  }

  lemma LenientReads(first: byte, width: nat, payload: seq<byte>, mask: Option<Key>, rest: seq<byte>)
    requires LooseFits(|payload|, width)
    ensures var w := Loose(first, width, payload, mask); Decode(w + rest) == Some((payload, |w|))
  {
    hide LengthOf, LooseLength, Masked, LooseFits;
    var bit := MaskBit(mask);
    var field := LooseLength(|payload|, width, bit);
    LooseNotEmpty(|payload|, width, bit);
    var head, raw := [first] + field, Unmask(payload, mask);
    var body := KeyOctets(mask) + raw;
    assert head[1..] == field;
    LooseRead(head, |payload|, width, bit, body + rest);
    assert head + body + rest == head + (body + rest);
    Slices(head, KeyOctets(mask), raw, rest);
    UnmaskTwice(payload, mask);
  }

  lemma LooseNotEmpty(n: nat, width: nat, bit: byte)
    requires LooseFits(n, width)
    ensures LooseLength(n, width, bit) != []
  {}

  lemma LooseOf(b: seq<byte>) returns (width: nat)
    requires |b| >= 2 && LengthOf(b).Some?
    ensures LooseFits(LengthOf(b).value.0, width)
    ensures LooseLength(LengthOf(b).value.0, width, b[1] & 0x80) == b[1..LengthOf(b).value.1]
  {
    hide BigEndian, ToBigEndian, Octet;
    var bit, short := b[1] & 0x80, b[1] & 0x7F;
    assert bit | short == b[1];
    Below126(short);
    FieldWidths();
    if short == 126 {
      width := 2;
      BigEndianBound(b[2..4]);
      ToOfBigEndian(b[2..4]);
      assert b[1..4] == [b[1]] + b[2..4];
    } else if short == 127 {
      width := 8;
      BigEndianBound(b[2..10]);
      ToOfBigEndian(b[2..10]);
      assert b[1..10] == [b[1]] + b[2..10];
    } else {
      width := 0;
      SevenBits(b[1]);
      OctetOf(short);
      assert b[1..2] == [b[1]];
    }
  }

  lemma SevenBits(b: byte)
    ensures b & 0x7F < 126 || b & 0x7F == 126 || b & 0x7F == 127
  {}

  lemma LooseSpelled(b: seq<byte>) returns (width: nat, mask: Option<Key>)
    requires Decode(b).Some?
    ensures var (p, k) := Decode(b).value;
            LooseFits(|p|, width) && Loose(b[0], width, p, mask) == b[..k]
  {
    hide LooseLength, LooseFits, LengthOf, Unmask;
    width := LooseOf(b);
    var (n, pos) := LengthOf(b).value;
    var start := if b[1] & 0x80 != 0 then pos + 4 else pos;
    mask := MaskAt(b, pos);
    SeventhBit(b[1]);
    UnmaskTwice(b[start..start + n], mask);
    assert b[..pos] == [b[0]] + b[1..pos];
    Rejoin(b, pos, start, start + n);
  }

  ghost predicate BeginsLoosely(b: seq<byte>, payload: seq<byte>, k: nat) {
    exists first, width, mask ::
      LooseFits(|payload|, width) && Loose(first, width, payload, mask) <= b &&
      |Loose(first, width, payload, mask)| == k
  }

  /** The server takes exactly the octets that begin with a frame, whatever its first octet and
      whichever of the length forms it uses, and takes just that frame. */
  lemma LenientIff(b: seq<byte>, payload: seq<byte>, k: nat)
    ensures Decode(b) == Some((payload, k)) <==> BeginsLoosely(b, payload, k)
  {
    hide Decode, Loose, LooseFits;
    if Decode(b) == Some((payload, k)) {
      var width, mask := LooseSpelled(b);
      assert |Loose(b[0], width, payload, mask)| == k;
    } else if BeginsLoosely(b, payload, k) {
      var first, width, mask :|
        LooseFits(|payload|, width) && Loose(first, width, payload, mask) <= b &&
        |Loose(first, width, payload, mask)| == k;
      LooselyTaken(b, first, width, payload, mask);
      assert false;
    }
  }

  lemma LooselyTaken(b: seq<byte>, first: byte, width: nat, payload: seq<byte>, mask: Option<Key>)
    requires LooseFits(|payload|, width) && Loose(first, width, payload, mask) <= b
    ensures Decode(b) == Some((payload, |Loose(first, width, payload, mask)|))
  {
    hide Decode, Loose, LooseFits;
    var w := Loose(first, width, payload, mask);
    LenientReads(first, width, payload, mask, b[|w|..]);
    assert w + b[|w|..] == b;
  }

  lemma LengthOfHead(n: nat, tail: seq<byte>)
    requires n < LIMIT
    ensures LengthOf(EncodeHead(n) + tail) == Some((n, |EncodeHead(n)|))
    ensures EncodeHead(n)[1] & 0x80 == 0
  {
    var s := EncodeHead(n) + tail;
    FieldWidths();
    if n < 126 {
      LengthBits(0x00, n);
      Below126(Octet(n));
    } else if n < 65536 {
      BigEndianOfTo(n, 2);
      assert s[2..4] == ToBigEndian(n, 2);
    } else {
      BigEndianOfTo(n, 8);
      assert s[2..10] == ToBigEndian(n, 8);
    }
  }

  /** Decode of encode for every payload a 64-bit length can describe, whatever follows. */
  lemma RoundTrip(payload: seq<byte>, rest: seq<byte>)
    requires |payload| < LIMIT
    ensures Decode(Encode(payload) + rest) == Some((payload, |Encode(payload)|))
  {
    hide LengthOf, EncodeHead;
    var head := EncodeHead(|payload|);
    LengthOfHead(|payload|, payload + rest);
    assert head + payload + rest == head + (payload + rest);
    Slices(head, [], payload, rest);
    assert [] + payload == payload;
  }

  /** The client accepts the server's frame exactly when the length leaves its top bit clear. */
  lemma ClientAcceptsIff(payload: seq<byte>, rest: seq<byte>)
    requires |payload| < LIMIT
    ensures DecodeFrame(Encode(payload) + rest, false).Complete? <==> |payload| <= MAX_PAYLOAD
  {
    EncodeIsWire(payload);
    if |payload| <= MAX_PAYLOAD {
      DecodeOfWire(TEXT, true, payload, None, rest, false);
    } else {
      var s := Encode(payload) + rest;
      assert s[1] == 127 && s[2..10] == ToBigEndian(|payload|, 8);
      FieldWidths();
      BigEndianOfTo(|payload|, 8);
    }
  }

  // ------------------------------------------------------------- the reader loop

  /** All complete frames at the front of `b`, and the octets after the last of them. */
  function Frames(b: seq<byte>): (r: Read)
    decreases |b|
  {
    match Decode(b)
    case None => Read([], b)
    case Some((payload, n)) =>
      var r := Frames(b[n..]);
      Read([payload] + r.payloads, r.rest)
  }

  lemma DecodeExtends(b: seq<byte>, x: seq<byte>)
    requires Decode(b).Some?
    ensures Decode(b + x) == Decode(b)
  {
    hide LengthOf, Take;
    LengthExtends(b, x);
    TakeExtends(b, x, LengthOf(b).value.0, LengthOf(b).value.1);
  }

  lemma LengthExtends(b: seq<byte>, x: seq<byte>)
    requires |b| >= 2 && LengthOf(b).Some?
    ensures LengthOf(b + x) == LengthOf(b)
  {
    assert (b + x)[1] == b[1];
    if |b| >= 4 {
      PrefixSlice(b, x, 2, 4);
    }
    if |b| >= 10 {
      PrefixSlice(b, x, 2, 10);
    }
  }

  lemma TakeExtends(b: seq<byte>, x: seq<byte>, n: nat, pos: nat)
    requires 2 <= pos <= |b| && Take(b, n, pos).Some?
    ensures Take(b + x, n, pos) == Take(b, n, pos)
  {
    hide Masked;
    assert (b + x)[1] == b[1];
    var start := if b[1] & 0x80 != 0 then pos + 4 else pos;
    PrefixSlice(b, x, pos, start);
    PrefixSlice(b, x, start, start + n);
  }

  lemma {:induction false} FramesAppend(b: seq<byte>, x: seq<byte>)
    ensures var r := Frames(b);
            var t := Frames(r.rest + x);
            Frames(b + x) == Read(r.payloads + t.payloads, t.rest)
    decreases |b|
  {
    hide Decode;
    match Decode(b)
    case None =>
      assert [] + Frames(b + x).payloads == Frames(b + x).payloads;
    case Some((payload, n)) =>
      DecodeExtends(b, x);
      assert (b + x)[n..] == b[n..] + x;
      FramesAppend(b[n..], x);
      var r := Frames(b[n..]);
      var t := Frames(r.rest + x);
      assert [payload] + (r.payloads + t.payloads) == [payload] + r.payloads + t.payloads;
  }

  /** The reader thread: append each chunk, take every complete frame, keep the tail.
      However the octets were cut, it has read exactly the frames of the whole. */
  method Reader(chunks: seq<seq<byte>>) returns (payloads: seq<seq<byte>>, buf: seq<byte>)
    ensures Read(payloads, buf) == Frames(Concat(chunks))
  {
    hide Decode;
    payloads, buf := [], [];
    var i := 0;
    while i < |chunks|
      invariant i <= |chunks|
      invariant Frames(buf).payloads == []
      invariant Frames(Concat(chunks[..i])) == Read(payloads, buf)
    {
      ghost var sofar, before := Concat(chunks[..i]), buf;
      assert chunks[..i + 1] == chunks[..i] + [chunks[i]];
      ConcatAppend(chunks[..i], [chunks[i]]);
      assert [chunks[i]][1..] == [];
      assert Concat([chunks[i]]) == chunks[i] + Concat([]) == chunks[i];
      FramesAppend(sofar, chunks[i]);
      var got;
      got, buf := TakeFrames(buf + chunks[i]);
      payloads := payloads + got;
      i := i + 1;
    }
    assert chunks[..i] == chunks;
  }

  /** The inner loop: every success removes at least two octets, so it ends. */
  method TakeFrames(b: seq<byte>) returns (payloads: seq<seq<byte>>, rest: seq<byte>)
    ensures Read(payloads, rest) == Frames(b)
    ensures Frames(rest) == Read([], rest)
  {
    hide Decode;
    payloads, rest := [], b;
    while true
      invariant Frames(b) == Read(payloads + Frames(rest).payloads, Frames(rest).rest)
      decreases |rest|
    {
      var r := DecodeFrameBytes(rest);
      if r.None? {
        assert payloads + [] == payloads;
        return;
      }
      ghost var t := Frames(rest[r.value.1..]);
      assert payloads + ([r.value.0] + t.payloads) == payloads + [r.value.0] + t.payloads;
      payloads, rest := payloads + [r.value.0], rest[r.value.1..];
    }
  }

  // ------------------------------------------------------------------ interop

  datatype Sent = Sent(opcode: byte, payload: seq<byte>, key: Key)

  /** The octets of several client frames. */
  function ClientBytes(frames: seq<Sent>): (b: seq<byte>) {
    if frames == [] then []
    else EncodeFrame(frames[0].opcode, frames[0].payload, true, frames[0].key) + ClientBytes(frames[1..])
  }

  function Payloads(frames: seq<Sent>): (ps: seq<seq<byte>>) {
    if frames == [] then [] else [frames[0].payload] + Payloads(frames[1..])
  }

  predicate Sendable(f: Sent) {
    Legal(f.opcode, true, |f.payload|) && ValidPayloadLen(f.opcode, |f.payload|)
  }

  /** Client frames followed by an unfinished one: the server reads every payload, once and in
      order, and is left holding exactly the unfinished octets. */
  lemma {:induction false} ServerReadsClient(frames: seq<Sent>, tail: seq<byte>)
    requires forall f <- frames :: Sendable(f)
    requires Decode(tail) == None
    ensures Frames(ClientBytes(frames) + tail) == Read(Payloads(frames), tail)
    decreases |frames|
  {
    hide Decode, Wire, DecodeFrame;
    if frames == [] {
      assert [] + tail == tail;
    } else {
      var f := frames[0];
      var w, rest := EncodeFrame(f.opcode, f.payload, true, f.key), ClientBytes(frames[1..]) + tail;
      assert ClientBytes(frames) + tail == w + rest;
      assert Sendable(f);
      DecodeOfWire(f.opcode, true, f.payload, Some(f.key), rest, false);
      DecodersAgree(w + rest);
      assert (w + rest)[|w|..] == rest;
      ServerReadsClient(frames[1..], tail);
    }
  }

  /** However the octets of client frames and of an unfinished one are cut into chunks, the reader
      thread takes every payload, once and in order, and keeps exactly the unfinished octets. */
  method ReadClient(ghost frames: seq<Sent>, ghost tail: seq<byte>, chunks: seq<seq<byte>>)
    returns (payloads: seq<seq<byte>>, buf: seq<byte>)
    requires forall f <- frames :: Sendable(f)
    requires Decode(tail) == None && Concat(chunks) == ClientBytes(frames) + tail
    ensures payloads == Payloads(frames) && buf == tail
  {
    ServerReadsClient(frames, tail);
    payloads, buf := Reader(chunks);
  }

  // --------------------------------------------- the benchmark's second encoder

  /** The benchmark's payload: the alphabet over and over. */
  function Alphabet(n: nat): (p: seq<byte>)
    ensures |p| == n
  {
    if n == 0 then [] else Alphabet(n - 1) + [Octet(97 + (n - 1) % 26)]
  }

  /** Header and payload pushed octet by octet: at every length, 125/126 and 65535/65536
      included, the same octets as the server's encoder. */
  method BuildServerText(n: nat) returns (wire: seq<byte>)
    ensures wire == Encode(Alphabet(n))
  {
    hide Wire;
    wire := HeaderOctets(TEXT, n, true, 0x00);
    assert wire == Head(TEXT, true, n, None);
    ghost var head := wire;
    for i := 0 to n
      invariant wire == head + Alphabet(i)
    {
      wire := wire + [Octet(97 + i % 26)];
    }
    EncodeIsWire(Alphabet(n));
    WireUnmasked(Alphabet(n));
  }

  lemma WireUnmasked(p: seq<byte>)
    ensures Wire(TEXT, true, p, None) == Head(TEXT, true, |p|, None) + p
  {
    assert [] + p == p;
  }
}
