/** One WebSocket frame on the wire (sections 5.2, 5.3 and 5.5 of RFC 6455):
    the client encoder, the strict decoder, and what each undoes of the other. */
module WsFrame {
  import opened Bytes
  import opened Options

  const CONTINUATION: byte := 0x0
  const TEXT: byte := 0x1
  const BINARY: byte := 0x2
  const CLOSE: byte := 0x8
  const PING: byte := 0x9
  const PONG: byte := 0xA

  const MAX_PAYLOAD: nat := 0x7FFF_FFFF_FFFF_FFFF
  const MAX_CONTROL: nat := 125

  /** Apply the mask, if any; applying it again removes it. */
  function Unmask(s: seq<byte>, mask: Option<Key>): (r: seq<byte>)
    ensures |r| == |s|
  {
    if mask.Some? then Masked(s, mask.value) else s
  }

  lemma UnmaskTwice(s: seq<byte>, mask: Option<Key>)
    ensures Unmask(Unmask(s, mask), mask) == s
  {
    if mask.Some? {
      MaskedTwice(s, mask.value);
    }
  }

  datatype DecodeError =
    | Incomplete
    | ReservedBits
    | FragmentedControl
    | ControlPayloadTooLarge
    | InvalidOpcode
    | InvalidLengthEncoding
    | InvalidCloseFrame

  /** A decoded frame; `raw` is the payload as it stands in the buffer, mask still applied. */
  datatype Frame = Frame(opcode: byte, fin: bool, rsv1: bool, mask: Option<Key>, raw: seq<byte>, totalLen: nat) {
    function Payload(): (p: seq<byte>)
      ensures |p| == |raw|
    {
      Unmask(raw, mask)
    }
  }

  datatype Decoded = Complete(frame: Frame) | Failed(error: DecodeError)

  datatype Length = Length(value: nat, pos: nat) | BadLength(error: DecodeError)

  // ---------------------------------------------------------------- encoder

  /** Mask bit and payload length in the shortest of the three forms. */
  function LengthField(n: nat, bit: byte): (s: seq<byte>)
    ensures |s| == 1 || |s| == 3 || |s| == 9
  {
    if n < 126 then [bit | Octet(n)]
    else if n <= 65535 then [bit | 126] + ToBigEndian(n, 2)
    else [bit | 127] + ToBigEndian(n, 8)
  }

  function FirstByte(fin: bool, opcode: byte): (b: byte) {
    (if fin then 0x80 else 0x00) | (opcode & 0x0F)
  }

  function MaskBit(mask: Option<Key>): (bit: byte) {
    if mask.Some? then 0x80 else 0x00
  }

  function Head(opcode: byte, fin: bool, n: nat, mask: Option<Key>): (s: seq<byte>)
    ensures |s| >= 2
  {
    [FirstByte(fin, opcode)] + LengthField(n, MaskBit(mask))
  }

  function KeyOctets(mask: Option<Key>): (s: seq<byte>) {
    if mask.Some? then mask.value else []
  }

  /** The octets of one frame, masked when a key is given. */
  function Wire(opcode: byte, fin: bool, payload: seq<byte>, mask: Option<Key>): (s: seq<byte>) {
    Head(opcode, fin, |payload|, mask) + (KeyOctets(mask) + Unmask(payload, mask))
  }

  predicate ValidPayloadLen(opcode: byte, n: nat) {
    n <= MAX_PAYLOAD && (opcode & 0x08 != 0 ==> n <= MAX_CONTROL)
  }

  /** The client encoder: the empty result is its "0 bytes written". */
  function EncodeFrame(opcode: byte, payload: seq<byte>, fin: bool, key: Key): (s: seq<byte>) {
    if ValidPayloadLen(opcode, |payload|) then Wire(opcode, fin, payload, Some(key)) else []
  }

  // ---------------------------------------------------------------- decoder

  function ReadLength(b: seq<byte>): (r: Length)
    requires |b| >= 2
    ensures r.Length? ==> 2 <= r.pos <= |b|
  {
    var short := b[1] & 0x7F;
    if short < 126 then Length(short as int, 2)
    else if short == 126 then
      if |b| < 4 then BadLength(Incomplete)
      else if BigEndian(b[2..4]) < 126 then BadLength(InvalidLengthEncoding)
      else Length(BigEndian(b[2..4]), 4)
    else
      if |b| < 10 then BadLength(Incomplete)
      else
        var n := BigEndian(b[2..10]);
        if n > MAX_PAYLOAD || n <= 65535 then BadLength(InvalidLengthEncoding)
        else Length(n, 10)
  }

  /** What the opcode forbids once the whole frame is present. */
  function OpcodeError(opcode: byte, fin: bool, n: nat): (e: Option<DecodeError>) {
    if 0x3 <= opcode <= 0x7 || 0xB <= opcode <= 0xF then Some(InvalidOpcode)
    else if opcode & 0x08 != 0 then
      if !fin then Some(FragmentedControl)
      else if n > MAX_CONTROL then Some(ControlPayloadTooLarge)
      else if opcode == CLOSE && n == 1 then Some(InvalidCloseFrame)
      else None
    else None
  }

  /** The frame whose `n` payload octets follow a length field ending at `pos`. */
  function ReadBody(b: seq<byte>, n: nat, pos: nat): (r: Decoded)
    requires 2 <= pos <= |b|
    ensures r.Complete? ==> 2 <= r.frame.totalLen <= |b| && |r.frame.raw| < r.frame.totalLen
  {
    var masked := b[1] & 0x80 != 0;
    var start := if masked then pos + 4 else pos;
    if |b| < start || n > |b| - start then Failed(Incomplete)
    else
      var fin, opcode := b[0] & 0x80 != 0, b[0] & 0x0F;
      match OpcodeError(opcode, fin, n)
      case Some(e) => Failed(e)
      case None =>
        var mask := if masked then Some(b[pos..start]) else None;
        Complete(Frame(opcode, fin, b[0] & 0x40 != 0, mask, b[start..start + n], start + n))
  }

  function DecodeFrame(b: seq<byte>, allowRsv1: bool): (r: Decoded)
    ensures r.Complete? ==> 2 <= r.frame.totalLen <= |b| && |r.frame.raw| < r.frame.totalLen
  {
    if |b| < 2 then Failed(Incomplete)
    else if b[0] & (if allowRsv1 then 0x30 else 0x70) != 0 then Failed(ReservedBits)
    else
      match ReadLength(b)
      case BadLength(e) => Failed(e)
      case Length(n, pos) => ReadBody(b, n, pos)
  }

  // ------------------------------------------------- decoder against stream

  /** More octets never change a verdict once there is one. */
  lemma DecodeStable(b: seq<byte>, x: seq<byte>, allowRsv1: bool)
    requires DecodeFrame(b, allowRsv1) != Failed(Incomplete)
    ensures DecodeFrame(b + x, allowRsv1) == DecodeFrame(b, allowRsv1)
  {
    assert (b + x)[0] == b[0];
    if b[0] & (if allowRsv1 then 0x30 else 0x70) == 0 {
      ReadLengthStable(b, x);
      var len := ReadLength(b);
      if len.Length? {
        ReadBodyStable(b, x, len.value, len.pos);
      }
    }
  }

  lemma ReadBodyStable(b: seq<byte>, x: seq<byte>, n: nat, pos: nat)
    requires 2 <= pos <= |b| && ReadBody(b, n, pos) != Failed(Incomplete)
    ensures ReadBody(b + x, n, pos) == ReadBody(b, n, pos)
  {
    hide OpcodeError;
    assert (b + x)[0] == b[0] && (b + x)[1] == b[1];
    var start := if b[1] & 0x80 != 0 then pos + 4 else pos;
    PrefixSlice(b, x, pos, start);
    PrefixSlice(b, x, start, start + n);
  }

  lemma ReadLengthStable(b: seq<byte>, x: seq<byte>)
    requires |b| >= 2 && ReadLength(b) != BadLength(Incomplete)
    ensures ReadLength(b + x) == ReadLength(b)
  {
    var c := b + x;
    assert c[1] == b[1];
    if |b| >= 4 { assert c[2..4] == b[2..4]; }
    if |b| >= 10 { assert c[2..10] == b[2..10]; }
  }

  // ------------------------------------------------------------ round trips

  lemma LengthBits(bit: byte, v: nat)
    requires bit == 0x00 || bit == 0x80
    requires v < 128
    ensures (bit | Octet(v)) & 0x7F == Octet(v)
    ensures (bit | Octet(v)) & 0x80 == bit
  {
    Below128(Octet(v));
  }

  lemma Below128(b: byte)
    requires b as int < 128
    ensures b < 0x80
  {}

  lemma Below126(b: byte)
    ensures b < 126 <==> b as int < 126
  {}

  /** The length field read back, for every length the decoder admits and any octets after it. */
  lemma ReadLengthField(head: seq<byte>, n: nat, bit: byte, rest: seq<byte>)
    requires n <= MAX_PAYLOAD
    requires bit == 0x00 || bit == 0x80
    requires |head| >= 2 && head[1..] == LengthField(n, bit)
    ensures ReadLength(head + rest) == Length(n, |head|)
    ensures head[1] & 0x80 == bit
  {
    var s := head + rest;
    assert s[1] == head[1] == LengthField(n, bit)[0];
    FieldWidths();
    if n < 126 {
      LengthBits(bit, n);
      Below126(Octet(n));
    } else if n <= 65535 {
      assert s[2..4] == head[1..][1..] == ToBigEndian(n, 2);
      BigEndianOfTo(n, 2);
    } else {
      assert s[2..10] == head[1..][1..] == ToBigEndian(n, 8);
      BigEndianOfTo(n, 8);
    }
  }

  /** A frame the protocol admits. */
  predicate Legal(opcode: byte, fin: bool, n: nat) {
    opcode <= 0x0F && n <= MAX_PAYLOAD && OpcodeError(opcode, fin, n) == None
  }

  /** Decoding what was encoded, with any octets following, gives the payload and the exact length. */
  lemma DecodeOfWire(opcode: byte, fin: bool, payload: seq<byte>, mask: Option<Key>, rest: seq<byte>, allowRsv1: bool)
    requires Legal(opcode, fin, |payload|)
    ensures var w := Wire(opcode, fin, payload, mask);
            var d := DecodeFrame(w + rest, allowRsv1);
            && d == Complete(Frame(opcode, fin, false, mask, Unmask(payload, mask), |w|))
            && d.frame.Payload() == payload
  {
    hide ReadLength, ReadBody, LengthField, Masked;
    var head, raw := Head(opcode, fin, |payload|, mask), Unmask(payload, mask);
    var body := KeyOctets(mask) + raw;
    assert head + body + rest == head + (body + rest);
    FirstByteBits(fin, opcode);
    ReadLengthField(head, |payload|, MaskBit(mask), body + rest);
    ReadBodyOfRaw(head, raw, mask, rest);
    UnmaskTwice(payload, mask);
  }

  lemma ReadBodyOfRaw(head: seq<byte>, raw: seq<byte>, mask: Option<Key>, rest: seq<byte>)
    requires |head| >= 2
    requires head[1] & 0x80 == MaskBit(mask)
    requires OpcodeError(head[0] & 0x0F, head[0] & 0x80 != 0, |raw|) == None
    ensures var body := KeyOctets(mask) + raw;
            ReadBody(head + body + rest, |raw|, |head|) ==
            Complete(Frame(head[0] & 0x0F, head[0] & 0x80 != 0, head[0] & 0x40 != 0, mask, raw, |head| + |body|))
  {
    Slices(head, KeyOctets(mask), raw, rest);
  }

  lemma FirstByteBits(fin: bool, opcode: byte)
    requires opcode <= 0x0F
    ensures FirstByte(fin, opcode) & 0x70 == 0 && FirstByte(fin, opcode) & 0x30 == 0
    ensures FirstByte(fin, opcode) & 0x40 == 0
    ensures FirstByte(fin, opcode) & 0x0F == opcode
    ensures FirstByte(fin, opcode) & 0x80 != 0 <==> fin
  {}

  /** Every strict prefix of a frame is reported as incomplete, never as an error or a frame. */
  lemma PrefixIncomplete(opcode: byte, fin: bool, payload: seq<byte>, mask: Option<Key>, k: nat, allowRsv1: bool)
    requires Legal(opcode, fin, |payload|)
    requires k < |Wire(opcode, fin, payload, mask)|
    ensures DecodeFrame(Wire(opcode, fin, payload, mask)[..k], allowRsv1) == Failed(Incomplete)
  {
    hide DecodeFrame, Wire;
    var w := Wire(opcode, fin, payload, mask);
    DecodeOfWire(opcode, fin, payload, mask, [], allowRsv1);
    assert w + [] == w == w[..k] + w[k..];
    if DecodeFrame(w[..k], allowRsv1) != Failed(Incomplete) {
      DecodeStable(w[..k], w[k..], allowRsv1);
      assert false;
    }
  }

  lemma {:induction false} ToOfBigEndian(s: seq<byte>)
    ensures ToBigEndian(BigEndian(s), |s|) == s
  {
    if s != [] {
      var init, last := s[..|s| - 1], s[|s| - 1];
      ToOfBigEndian(init);
      OctetOf(last);
      Digit(BigEndian(init), last as int);
      assert s == init + [last];
    }
  }

  lemma Digit(v: nat, d: nat)
    requires d < 256
    ensures (v * 256 + d) / 256 == v && (v * 256 + d) % 256 == d
  {}

  lemma OctetOf(b: byte)
    ensures b as int < 256 && Octet(b as int) == b
  {
    SameValue(b, Octet(b as int));
  }

  lemma SameValue(a: byte, b: byte)
    requires a as int == b as int
    ensures a == b
  {}

  /** The strict decoder accepts one spelling per frame: re-encoding gives back the very octets read. */
  lemma WireOfDecode(b: seq<byte>)
    requires DecodeFrame(b, false).Complete?
    ensures var f := DecodeFrame(b, false).frame;
            Legal(f.opcode, f.fin, |f.raw|) && Wire(f.opcode, f.fin, f.Payload(), f.mask) == b[..f.totalLen]
  {
    ReadLengthCanonical(b);
    FirstByteOf(b[0]);
    WireOfBody(b, ReadLength(b).value, ReadLength(b).pos);
  }

  lemma WireOfBody(b: seq<byte>, n: nat, pos: nat)
    requires 2 <= pos <= |b| && ReadBody(b, n, pos).Complete?
    requires LengthField(n, b[1] & 0x80) == b[1..pos]
    requires FirstByte(b[0] & 0x80 != 0, b[0] & 0x0F) == b[0]
    ensures var f := ReadBody(b, n, pos).frame;
            |f.raw| == n && Wire(f.opcode, f.fin, f.Payload(), f.mask) == b[..f.totalLen]
  {
    hide OpcodeError, LengthField, FirstByte, Unmask, Wire;
    WireOfOctets(b, n, pos);
  }

  /** The mask of a frame whose length field ends at `pos`. */
  function MaskAt(b: seq<byte>, pos: nat): (mask: Option<Key>)
    requires 2 <= pos <= |b| && (b[1] & 0x80 != 0 ==> pos + 4 <= |b|)
  {
    if b[1] & 0x80 != 0 then Some(b[pos..pos + 4]) else None
  }

  /** Octets behind a canonical length field spell a frame, whatever its opcode. */
  lemma WireOfOctets(b: seq<byte>, n: nat, pos: nat)
    requires 2 <= pos <= |b| && (if b[1] & 0x80 != 0 then pos + 4 else pos) + n <= |b|
    requires LengthField(n, b[1] & 0x80) == b[1..pos]
    requires FirstByte(b[0] & 0x80 != 0, b[0] & 0x0F) == b[0]
    ensures var start, mask := if b[1] & 0x80 != 0 then pos + 4 else pos, MaskAt(b, pos);
            Wire(b[0] & 0x0F, b[0] & 0x80 != 0, Unmask(b[start..start + n], mask), mask) == b[..start + n]
  {
    hide LengthField, FirstByte, Unmask, Head;
    var start, mask := if b[1] & 0x80 != 0 then pos + 4 else pos, MaskAt(b, pos);
    SeventhBit(b[1]);
    HeadOf(b, pos, b[0] & 0x0F, b[0] & 0x80 != 0, n, mask);
    UnmaskTwice(b[start..start + n], mask);
    Rejoin(b, pos, start, start + n);
  }

  lemma HeadOf(b: seq<byte>, pos: nat, opcode: byte, fin: bool, n: nat, mask: Option<Key>)
    requires 2 <= pos <= |b|
    requires FirstByte(fin, opcode) == b[0] && LengthField(n, MaskBit(mask)) == b[1..pos]
    ensures Head(opcode, fin, n, mask) == b[..pos]
  {
    assert b[..pos] == [b[0]] + b[1..pos];
  }

  lemma SeventhBit(b: byte)
    ensures b & 0x80 == 0 || b & 0x80 == 0x80
  {}

  lemma FirstByteOf(b: byte)
    requires b & 0x70 == 0
    ensures FirstByte(b & 0x80 != 0, b & 0x0F) == b
    ensures b & 0x0F <= 0x0F
  {}

  lemma ReadLengthCanonical(b: seq<byte>)
    requires |b| >= 2 && ReadLength(b).Length?
    ensures ReadLength(b).value <= MAX_PAYLOAD
    ensures LengthField(ReadLength(b).value, b[1] & 0x80) == b[1..ReadLength(b).pos]
  {
    var n := ReadLength(b).value;
    var bit, short := b[1] & 0x80, b[1] & 0x7F;
    assert bit | short == b[1];
    Below126(short);
    if short < 126 {
      OctetOf(short);
    } else if short == 126 {
      BigEndianBound(b[2..4]);
      FieldWidths();
      ToOfBigEndian(b[2..4]);
      assert b[1..4] == [b[1]] + b[2..4];
    } else {
      ToOfBigEndian(b[2..10]);
      assert short == 127;
      assert b[1..10] == [b[1]] + b[2..10];
    }
  }
}
