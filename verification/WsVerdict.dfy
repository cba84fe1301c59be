/** Every verdict of the frame decoder, told from the wire format alone: which octets it accepts,
    which it waits on, and which error it gives for the rest. */
module WsVerdict {
  import opened Bytes
  import opened Options
  import opened WsFrame

  const CONTROLS: set<byte> := {0x8, 0x9, 0xA}
  const OPCODES: set<byte> := {0x0, 0x1, 0x2} + CONTROLS

  /** What sections 5.2 and 5.5 of RFC 6455 admit. */
  predicate Admitted(opcode: byte, fin: bool, n: nat) {
    && opcode in OPCODES && n <= 0x7FFF_FFFF_FFFF_FFFF
    && (opcode in CONTROLS ==> fin && n <= 125)
    && (opcode == 0x8 ==> n != 1)
  }

  lemma LegalIsAdmitted(opcode: byte, fin: bool, n: nat)
    ensures Legal(opcode, fin, n) <==> Admitted(opcode, fin, n)
  {
    OpcodeErrors(opcode, fin, n);
  }

  lemma OpcodeErrors(opcode: byte, fin: bool, n: nat)
    ensures opcode in OPCODES ==> opcode <= 0x0F
    ensures opcode <= 0x0F ==>
              var e := OpcodeError(opcode, fin, n);
              && (e == Some(InvalidOpcode) <==> opcode !in OPCODES)
              && (e == Some(FragmentedControl) <==> opcode in CONTROLS && !fin)
              && (e == Some(ControlPayloadTooLarge) <==> opcode in CONTROLS && fin && n > 125)
              && (e == Some(InvalidCloseFrame) <==> opcode == 0x8 && fin && n == 1)
              && (e.Some? ==> e.value in {InvalidOpcode, FragmentedControl, ControlPayloadTooLarge, InvalidCloseFrame})
  {
    Bits(opcode);
  }

  lemma Bits(opcode: byte)
    ensures opcode in OPCODES ==> opcode <= 0x0F
    ensures opcode <= 0x0F ==>
              && (opcode !in OPCODES <==> 0x3 <= opcode <= 0x7 || 0xB <= opcode <= 0xF)
              && (opcode in OPCODES ==> (opcode & 0x08 != 0 <==> opcode in CONTROLS))
  {}

  /** The octets begin with the spelling of an admitted frame. */
  ghost predicate BeginsWithFrame(b: seq<byte>) {
    exists opcode, fin, payload, mask ::
      Wire(opcode, fin, payload, mask) <= b && Admitted(opcode, fin, |payload|)
  }

  /** The decoder accepts exactly the octets that begin with an admitted frame. */
  lemma AcceptsIff(b: seq<byte>)
    ensures DecodeFrame(b, false).Complete? <==> BeginsWithFrame(b)
  {
    hide DecodeFrame, Wire, Admitted, Legal;
    if DecodeFrame(b, false).Complete? {
      WireOfDecode(b);
      var f := DecodeFrame(b, false).frame;
      LegalIsAdmitted(f.opcode, f.fin, |f.raw|);
      assert Wire(f.opcode, f.fin, f.Payload(), f.mask) <= b;
    } else if BeginsWithFrame(b) {
      var opcode, fin, payload, mask :|
        Wire(opcode, fin, payload, mask) <= b && Admitted(opcode, fin, |payload|);
      FrameAccepted(b, opcode, fin, payload, mask);
      assert false;
    }
  }

  lemma FrameAccepted(b: seq<byte>, opcode: byte, fin: bool, payload: seq<byte>, mask: Option<Key>)
    requires Wire(opcode, fin, payload, mask) <= b && Admitted(opcode, fin, |payload|)
    ensures DecodeFrame(b, false).Complete?
  {
    hide DecodeFrame, Wire, Admitted, Legal;
    var w := Wire(opcode, fin, payload, mask);
    LegalIsAdmitted(opcode, fin, |payload|);
    DecodeOfWire(opcode, fin, payload, mask, b[|w|..], false);
    assert w + b[|w|..] == b;
  }

  /** The verdict on the spelling of any frame, admitted or not, whatever follows it. */
  lemma WireVerdict(opcode: byte, fin: bool, payload: seq<byte>, mask: Option<Key>, rest: seq<byte>)
    requires opcode <= 0x0F && |payload| <= MAX_PAYLOAD
    ensures var d, n := DecodeFrame(Wire(opcode, fin, payload, mask) + rest, false), |payload|;
            && (d.Complete? <==> Admitted(opcode, fin, n))
            && (d == Failed(InvalidOpcode) <==> opcode !in OPCODES)
            && (d == Failed(FragmentedControl) <==> opcode in CONTROLS && !fin)
            && (d == Failed(ControlPayloadTooLarge) <==> opcode in CONTROLS && fin && n > 125)
            && (d == Failed(InvalidCloseFrame) <==> opcode == 0x8 && fin && n == 1)
  {
    hide DecodeFrame, Wire, OpcodeError, OPCODES, CONTROLS;
    OpcodeErrors(opcode, fin, |payload|);
    LegalIsAdmitted(opcode, fin, |payload|);
    WireRead(opcode, fin, payload, mask, rest);
  }

  lemma WireRead(opcode: byte, fin: bool, payload: seq<byte>, mask: Option<Key>, rest: seq<byte>)
    requires opcode <= 0x0F && |payload| <= MAX_PAYLOAD
    ensures var e := OpcodeError(opcode, fin, |payload|);
            var d := DecodeFrame(Wire(opcode, fin, payload, mask) + rest, false);
            if e.None? then d.Complete? else d == Failed(e.value)
  {
    hide ReadLength, LengthField, Masked, OpcodeError;
    var head, raw := Head(opcode, fin, |payload|, mask), Unmask(payload, mask);
    var body := KeyOctets(mask) + raw;
    assert head + body + rest == head + (body + rest);
    FirstByteBits(fin, opcode);
    ReadLengthField(head, |payload|, MaskBit(mask), body + rest);
  }

  // ------------------------------------------------------------------ waiting

  /** How many octets hold the first octet and the length field. */
  function HeaderLen(second: byte): (n: nat) {
    if second & 0x7F == 126 then 4 else if second & 0x7F == 127 then 10 else 2
  }

  /** The first octet spells some opcode and no reserved bit. */
  ghost predicate PlainFirst(b: seq<byte>) {
    b != [] && exists fin, opcode: byte :: FirstByte(fin, opcode) == b[0] && opcode <= 0x0F
  }

  lemma PlainFirstIs(b: seq<byte>)
    requires b != []
    ensures PlainFirst(b) <==> b[0] & 0x70 == 0
  {
    hide FirstByte;
    if b[0] & 0x70 == 0 {
      FirstByteOf(b[0]);
    }
    forall fin, opcode: byte | FirstByte(fin, opcode) == b[0] && opcode <= 0x0F ensures b[0] & 0x70 == 0 {
      FirstByteBits(fin, opcode);
    }
  }

  /** The length field is the shortest spelling of `n`. */
  ghost predicate Spells(b: seq<byte>, n: nat)
    requires |b| >= 2
  {
    n <= MAX_PAYLOAD && LengthField(n, b[1] & 0x80) <= b[1..]
  }

  ghost predicate ShortestLength(b: seq<byte>)
    requires |b| >= 2
  {
    exists n: nat :: Spells(b, n)
  }

  lemma ShortestIs(b: seq<byte>)
    requires |b| >= 2 && |b| >= HeaderLen(b[1])
    ensures ShortestLength(b) <==> ReadLength(b).Length?
  {
    hide ReadLength, Spells;
    if ReadLength(b).Length? {
      CanonicalSpells(b);
    } else if ShortestLength(b) {
      var n: nat :| Spells(b, n);
      SpellsReads(b, n);
      assert false;
    }
  }

  lemma CanonicalSpells(b: seq<byte>)
    requires |b| >= 2 && ReadLength(b).Length?
    ensures Spells(b, ReadLength(b).value)
  {
    hide ReadLength, LengthField;
    ReadLengthCanonical(b);
  }

  lemma SpellsReads(b: seq<byte>, n: nat)
    requires |b| >= 2 && Spells(b, n)
    ensures ReadLength(b).Length?
  {
    hide ReadLength, LengthField;
    var field := LengthField(n, b[1] & 0x80);
    var head := [b[0]] + field;
    SeventhBit(b[1]);
    assert head[1..] == field;
    ReadLengthField(head, n, b[1] & 0x80, b[|head|..]);
    assert head + b[|head|..] == b;
  }

  lemma ReadLengthShape(b: seq<byte>)
    requires |b| >= 2 && |b| >= HeaderLen(b[1])
    ensures ReadLength(b).Length? ==> ReadLength(b).pos == HeaderLen(b[1])
    ensures !ReadLength(b).Length? ==> ReadLength(b) == BadLength(InvalidLengthEncoding)
  {}

  /** The octets are the beginning of some frame, not yet whole. */
  ghost predicate InsideFrame(b: seq<byte>) {
    exists opcode, fin, payload, mask ::
      b < Wire(opcode, fin, payload, mask) && opcode <= 0x0F && |payload| <= MAX_PAYLOAD
  }

  /** The decoder waits exactly for a second octet, for the rest of the length field, and for the
      rest of a frame whose length field is the shortest. */
  lemma WaitsIff(b: seq<byte>)
    ensures DecodeFrame(b, false) == Failed(Incomplete) <==>
            |b| < 2 || (PlainFirst(b) && (|b| < HeaderLen(b[1]) || InsideFrame(b)))
  {
    hide HeaderLen, PlainFirst, InsideFrame, DecodeFrame;
    if |b| >= 2 {
      PlainFirstIs(b);
      if b[0] & 0x70 != 0 {
        ReservedFails(b);
      } else if |b| < HeaderLen(b[1]) {
        ShortField(b);
      } else {
        WaitsInside(b);
      }
    } else {
      TooShort(b);
    }
  }

  lemma TooShort(b: seq<byte>)
    requires |b| < 2
    ensures DecodeFrame(b, false) == Failed(Incomplete)
  {}

  lemma ReservedFails(b: seq<byte>)
    ensures DecodeFrame(b, false) == Failed(ReservedBits) <==> |b| >= 2 && b[0] & 0x70 != 0
  {
    hide ReadBody;
    if |b| >= 2 && b[0] & 0x70 == 0 && ReadLength(b).Length? {
      BodyErrors(b, ReadLength(b).value, ReadLength(b).pos);
    }
  }

  lemma BodyErrors(b: seq<byte>, n: nat, pos: nat)
    requires 2 <= pos <= |b|
    ensures ReadBody(b, n, pos) != Failed(ReservedBits) && ReadBody(b, n, pos) != Failed(InvalidLengthEncoding)
  {}

  lemma ShortField(b: seq<byte>)
    requires 2 <= |b| < HeaderLen(b[1]) && b[0] & 0x70 == 0
    ensures DecodeFrame(b, false) == Failed(Incomplete)
  {}

  lemma WaitsInside(b: seq<byte>)
    requires |b| >= 2 && HeaderLen(b[1]) <= |b| && b[0] & 0x70 == 0
    ensures DecodeFrame(b, false) == Failed(Incomplete) <==> InsideFrame(b)
  {
    hide DecodeFrame, Wire, ReadLength;
    if DecodeFrame(b, false) == Failed(Incomplete) {
      var opcode, fin, payload, mask := WaitingIsInside(b);
      assert b < Wire(opcode, fin, payload, mask);
    } else if InsideFrame(b) {
      var opcode, fin, payload, mask :|
        b < Wire(opcode, fin, payload, mask) && opcode <= 0x0F && |payload| <= MAX_PAYLOAD;
      InsideWaits(b, opcode, fin, payload, mask);
      assert false;
    }
  }

  lemma InsideWaits(b: seq<byte>, opcode: byte, fin: bool, payload: seq<byte>, mask: Option<Key>)
    requires opcode <= 0x0F && |payload| <= MAX_PAYLOAD && b < Wire(opcode, fin, payload, mask)
    ensures DecodeFrame(b, false) == Failed(Incomplete)
  {
    hide ReadLength, LengthField, Masked, OpcodeError;
    var w, head := Wire(opcode, fin, payload, mask), Head(opcode, fin, |payload|, mask);
    var body := KeyOctets(mask) + Unmask(payload, mask);
    FirstByteBits(fin, opcode);
    ReadLengthField(head, |payload|, MaskBit(mask), body);
    assert w == b + w[|b|..] == head + body;
    if |b| >= 2 && ReadLength(b) != BadLength(Incomplete) {
      ReadLengthStable(b, w[|b|..]);
      assert b[0] == w[0] == head[0] && b[1] == w[1] == head[1];
    }
  }

  /** What is waited on can be filled up to a whole frame. */
  lemma WaitingIsInside(b: seq<byte>)
    returns (opcode: byte, fin: bool, payload: seq<byte>, mask: Option<Key>)
    requires |b| >= 2 && HeaderLen(b[1]) <= |b| && b[0] & 0x70 == 0
    requires DecodeFrame(b, false) == Failed(Incomplete)
    ensures opcode <= 0x0F && |payload| <= MAX_PAYLOAD && b < Wire(opcode, fin, payload, mask)
  {
    hide Wire, LengthField, OpcodeError, Unmask, ReadLength, HeaderLen;
    ReadLengthShape(b);
    ReadLengthCanonical(b);
    var n, pos := ReadLength(b).value, ReadLength(b).pos;
    var start := if b[1] & 0x80 != 0 then pos + 4 else pos;
    NotWaiting(b[0] & 0x0F, b[0] & 0x80 != 0, n);
    var x := Zeros(start + n - |b|);
    var c := b + x;
    assert c[0] == b[0] && c[1] == b[1] && c[1..pos] == b[1..pos];
    FirstByteOf(b[0]);
    WireOfOctets(c, n, pos);
    mask := MaskAt(c, pos);
    opcode, fin, payload := c[0] & 0x0F, c[0] & 0x80 != 0, Unmask(c[start..start + n], mask);
    assert c[..start + n] == c;
  }

  function Zeros(n: nat): (s: seq<byte>)
    ensures |s| == n
  {
    seq(n, _ => 0)
  }

  /** Whatever has arrived, some octets end the wait: no peer can make the decoder wait for ever
      for octets it could never accept. */
  lemma WaitEnds(b: seq<byte>) returns (x: seq<byte>)
    ensures DecodeFrame(b + x, false) != Failed(Incomplete)
  {
    hide DecodeFrame, InsideFrame, Wire;
    var c := b + Zeros(10);
    WaitsIff(c);
    if DecodeFrame(c, false) == Failed(Incomplete) {
      PlainFirstIs(c);
      var opcode, fin, payload, mask := WaitingIsInside(c);
      var w := Wire(opcode, fin, payload, mask);
      x := w[|b|..];
      assert b + x == w == w + [] by {
        assert w[..|c|] == c;
        assert w[..|b|] == b;
      }
      WireRead(opcode, fin, payload, mask, []);
      NotWaiting(opcode, fin, |payload|);
    } else {
      x := Zeros(10);
    }
  }

  lemma NotWaiting(opcode: byte, fin: bool, n: nat)
    ensures OpcodeError(opcode, fin, n) != Some(Incomplete)
  {}

  /** The two errors that need no whole frame: a reserved bit, and a length not in its shortest form. */
  lemma EarlyErrors(b: seq<byte>)
    ensures var d := DecodeFrame(b, false);
            && (d == Failed(ReservedBits) <==> |b| >= 2 && !PlainFirst(b))
            && (d == Failed(InvalidLengthEncoding) <==>
                |b| >= 2 && PlainFirst(b) && |b| >= HeaderLen(b[1]) && !ShortestLength(b))
  {
    hide HeaderLen, PlainFirst, ShortestLength, DecodeFrame;
    ReservedFails(b);
    if |b| < 2 {
      TooShort(b);
    } else {
      PlainFirstIs(b);
      if b[0] & 0x70 == 0 {
        if |b| < HeaderLen(b[1]) {
          ShortField(b);
        } else {
          ShortestIs(b);
          ReadLengthShape(b);
          LengthFails(b);
        }
      }
    }
  }

  lemma LengthFails(b: seq<byte>)
    requires |b| >= 2 && b[0] & 0x70 == 0
    ensures DecodeFrame(b, false) == Failed(InvalidLengthEncoding) <==>
            ReadLength(b) == BadLength(InvalidLengthEncoding)
  {
    hide ReadBody;
    if ReadLength(b).Length? {
      BodyErrors(b, ReadLength(b).value, ReadLength(b).pos);
    }
  }

  /** The encoder refuses exactly what no decoder would take for its size, and spells the rest. */
  lemma EncoderRefuses(opcode: byte, payload: seq<byte>, fin: bool, key: Key)
    requires opcode <= 0x0F
    ensures var s, tooLong := EncodeFrame(opcode, payload, fin, key),
                              |payload| > 0x7FFF_FFFF_FFFF_FFFF || (opcode >= 8 && |payload| > 125);
            s == if tooLong then [] else Wire(opcode, fin, payload, Some(key))
  {
    hide Wire;
    assert opcode & 0x08 != 0 <==> opcode >= 8;
  }

  // --------------------------------------------------------------- the first reserved bit

  function WithRsv1(d: Decoded): (r: Decoded) {
    if d.Complete? then Complete(d.frame.(rsv1 := true)) else d
  }

  /** Where the first reserved bit is allowed it is reported and changes nothing else. */
  lemma Rsv1Alone(b: seq<byte>)
    requires b != []
    ensures DecodeFrame(b, true) ==
            if b[0] & 0x40 == 0 then DecodeFrame(b, false) else WithRsv1(DecodeFrame(b[0 := b[0] & 0xBF], false))
  {
    hide ReadBody, ReadLength;
    Rsv1Bits(b[0]);
    var c := b[0 := b[0] & 0xBF];
    if |b| >= 2 && b[0] & 0x40 != 0 {
      SameLength(b, c);
      var len := ReadLength(b);
      if len.Length? {
        SameBody(b, c, len.value, len.pos);
      }
    }
  }

  lemma Rsv1Bits(b: byte)
    ensures b & 0xBF & 0x40 == 0 && b & 0xBF & 0x0F == b & 0x0F && b & 0xBF & 0x80 == b & 0x80
    ensures b & 0xBF & 0x70 == b & 0x30
    ensures b & 0x40 == 0 ==> b & 0x70 == b & 0x30
  {}

  lemma SameLength(b: seq<byte>, c: seq<byte>)
    requires |b| == |c| >= 2 && c == b[0 := c[0]]
    ensures ReadLength(b) == ReadLength(c)
  {
    if |b| >= 4 { assert c[2..4] == b[2..4]; }
    if |b| >= 10 { assert c[2..10] == b[2..10]; }
  }

  lemma SameBody(b: seq<byte>, c: seq<byte>, n: nat, pos: nat)
    requires |b| == |c| && 2 <= pos <= |b| && c == b[0 := c[0]]
    requires b[0] & 0x40 != 0 && c[0] & 0x40 == 0 && c[0] & 0x0F == b[0] & 0x0F && c[0] & 0x80 == b[0] & 0x80
    ensures ReadBody(b, n, pos) == WithRsv1(ReadBody(c, n, pos))
  {
    hide OpcodeError, ReadBody;
    var start := if b[1] & 0x80 != 0 then pos + 4 else pos;
    if start + n <= |b| {
      WholeBody(b, n, pos);
      WholeBody(c, n, pos);
      SameSlice(b, c, pos, start);
      SameSlice(b, c, start, start + n);
    } else {
      CutBody(b, n, pos);
      CutBody(c, n, pos);
    }
  }

  lemma WholeBody(b: seq<byte>, n: nat, pos: nat)
    requires 2 <= pos <= |b| && (if b[1] & 0x80 != 0 then pos + 4 else pos) + n <= |b|
    ensures var start, e := if b[1] & 0x80 != 0 then pos + 4 else pos, OpcodeError(b[0] & 0x0F, b[0] & 0x80 != 0, n);
            ReadBody(b, n, pos) ==
            if e.Some? then Failed(e.value)
            else Complete(Frame(b[0] & 0x0F, b[0] & 0x80 != 0, b[0] & 0x40 != 0, MaskAt(b, pos),
                                b[start..start + n], start + n))
  {
    hide OpcodeError;
  }

  lemma CutBody(b: seq<byte>, n: nat, pos: nat)
    requires 2 <= pos <= |b| < (if b[1] & 0x80 != 0 then pos + 4 else pos) + n
    ensures ReadBody(b, n, pos) == Failed(Incomplete)
  {
    hide OpcodeError;
  }

  lemma SameSlice(b: seq<byte>, c: seq<byte>, i: nat, j: nat)
    requires 1 <= i <= j <= |b| == |c| && c == b[0 := c[0]]
    ensures c[i..j] == b[i..j]
  {}

  // ----------------------------------------------------------------- the examples of the standard

  lemma OctetIs(v: nat, b: byte)
    requires v < 256 && b as int == v
    ensures Octet(v) == b
  {
    SameValue(Octet(v), b);
  }

  /** The examples of section 5.7 of RFC 6455. */
  lemma StandardExamples(hello: seq<byte>, key: Key)
    requires hello == [0x48, 0x65, 0x6C, 0x6C, 0x6F] && key == [0x37, 0xFA, 0x21, 0x3D]
    ensures Wire(TEXT, true, hello, None) == [0x81, 0x05] + hello
    ensures Wire(TEXT, true, hello, Some(key)) == [0x81, 0x85] + key + [0x7F, 0x9F, 0x4D, 0x51, 0x58]
    ensures Wire(PONG, true, hello, Some(key)) == [0x8A, 0x85] + key + [0x7F, 0x9F, 0x4D, 0x51, 0x58]
    ensures Wire(TEXT, false, hello[..3], None) == [0x01, 0x03] + hello[..3]
    ensures Wire(CONTINUATION, true, hello[3..], None) == [0x80, 0x02] + hello[3..]
    ensures Wire(PING, true, hello, None) == [0x89, 0x05] + hello
  {
    hide Octet;
    OctetIs(5, 0x05);
    OctetIs(3, 0x03);
    OctetIs(2, 0x02);
    MaskedHello(hello, key);
  }

  lemma MaskedHello(hello: seq<byte>, key: Key)
    requires hello == [0x48, 0x65, 0x6C, 0x6C, 0x6F] && key == [0x37, 0xFA, 0x21, 0x3D]
    ensures Masked(hello, key) == [0x7F, 0x9F, 0x4D, 0x51, 0x58]
  {
    hide Masked;
    MaskedAt(hello, key, 0);
    MaskedAt(hello, key, 1);
    MaskedAt(hello, key, 2);
    MaskedAt(hello, key, 3);
    MaskedAt(hello, key, 4);
  }

  /** And its two longer ones: 256 octets and 64 KiB of binary data. */
  lemma LongExamples(payload: seq<byte>)
    ensures |payload| == 256 ==> Wire(BINARY, true, payload, None) == [0x82, 0x7E, 0x01, 0x00] + payload
    ensures |payload| == 65536 ==>
              Wire(BINARY, true, payload, None) == [0x82, 0x7F, 0, 0, 0, 0, 0, 1, 0, 0] + payload
  {
    hide Octet, ToBigEndian;
    Spelled();
    assert payload == [] + payload;
  }

  lemma Spelled()
    ensures ToBigEndian(256, 2) == [1, 0]
    ensures ToBigEndian(65536, 8) == [0, 0, 0, 0, 0, 1, 0, 0]
  {
    hide Octet;
    OctetIs(0, 0);
    OctetIs(1, 1);
    assert ToBigEndian(0, 1) == ToBigEndian(0, 0) + [0] == [0];
    assert ToBigEndian(0, 2) == ToBigEndian(0, 1) + [0] == [0, 0];
    assert ToBigEndian(0, 3) == ToBigEndian(0, 2) + [0] == [0, 0, 0];
    assert ToBigEndian(0, 4) == ToBigEndian(0, 3) + [0] == [0, 0, 0, 0];
    assert ToBigEndian(0, 5) == ToBigEndian(0, 4) + [0] == [0, 0, 0, 0, 0];
    assert ToBigEndian(1, 6) == ToBigEndian(0, 5) + [1] == [0, 0, 0, 0, 0, 1];
    assert ToBigEndian(256, 7) == ToBigEndian(1, 6) + [0] == [0, 0, 0, 0, 0, 1, 0];
    assert ToBigEndian(65536, 8) == ToBigEndian(256, 7) + [0];
    assert ToBigEndian(1, 1) == ToBigEndian(0, 0) + [1] == [1];
    assert ToBigEndian(256, 2) == ToBigEndian(1, 1) + [0];
  }
}
