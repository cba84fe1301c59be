/** The packets the two queue probes send: a DNS query crafted in place in a frame
    buffer, and a raw TCP SYN. Both carry a checksum filled in after the fact. */
module ProbePackets {
  import opened Bytes
  import opened Options
  import opened Checksum

  const ETHER: nat := 14
  const IP: nat := 20
  const UDP: nat := 8

  /** An IPv4 header for a UDP datagram, checksum field still zero. */
  function IpHeader(total: nat, src: nat, dst: nat): (h: seq<byte>)
    ensures |h| == IP && h[10] == 0 && h[11] == 0
  {
    [0x45, 0] + ToBigEndian(total, 2) + [0, 0, 0, 0, 64, 17, 0, 0] + ToBigEndian(src, 4) + ToBigEndian(dst, 4)
  }

  function UdpHeader(src: nat, dst: nat, length: nat): (h: seq<byte>)
    ensures |h| == UDP
  {
    ToBigEndian(src, 2) + ToBigEndian(dst, 2) + ToBigEndian(length, 2) + [0, 0]
  }

  function EtherHeader(dst: seq<byte>, src: seq<byte>): (h: seq<byte>) {
    dst + src + [0x08, 0x00]
  }

  /** The header as a little-endian machine stores it: the sum complemented, low octet first. */
  function Sealed(h: seq<byte>): (r: seq<byte>)
    requires |h| == IP
    ensures |r| == IP
  {
    Put(Host, h, 10, ONES - OnesSum(Host, h))
  }

  lemma SealedIs(h: seq<byte>, c: nat)
    requires |h| == IP && h[10] == 0 && h[11] == 0 && c == ONES - OnesSum(Host, h)
    ensures Sealed(h) == h[..10] + [Octet(c % 256), Octet(c / 256)] + h[12..]
    ensures Verifies(Network, Sealed(h))
  {
    hide OnesSum, Octet, Verifies;
    InsertVerifies(Host, h, 10);
  }

  method Store(d: array<byte>, at: nat, s: seq<byte>)
    requires at + |s| <= d.Length
    modifies d
    ensures forall i | 0 <= i < d.Length ::
              d[i] == if at <= i < at + |s| then s[i - at] else old(d[i])
  {
    for i := 0 to |s|
      invariant forall j | 0 <= j < d.Length ::
                  d[j] == if at <= j < at + i then s[j - at] else old(d[j])
    {
      d[at + i] := s[i];
    }
  }

  /** The fields of the IPv4 header, written into zeroed octets. */
  method CraftFields(d: array<byte>, at: nat, total: nat, src: nat, dst: nat)
    requires at + IP <= d.Length
    requires forall i | at <= i < at + IP :: d[i] == 0
    modifies d
    ensures d[at..at + IP] == IpHeader(total, src, dst)
    ensures forall i | 0 <= i < d.Length && !(at <= i < at + IP) :: d[i] == old(d[i])
  {
    hide ToBigEndian;
    d[at] := 0x45;
    Store(d, at + 2, ToBigEndian(total, 2));
    d[at + 8], d[at + 9] := 64, 17;
    Store(d, at + 12, ToBigEndian(src, 4));
    Store(d, at + 16, ToBigEndian(dst, 4));
  }

  lemma FieldStored(was: seq<byte>, now: seq<byte>, at: nat, h: seq<byte>, field: seq<byte>)
    requires |was| == |now| && at + IP <= |was| && h == was[at..at + IP] && |field| == 2
    requires forall i | 0 <= i < |was| ::
               now[i] == if at + 10 <= i < at + 10 + |field| then field[i - (at + 10)] else was[i]
    ensures now[at..at + IP] == h[..10] + field + h[12..]
  {
    var r := h[..10] + field + h[12..];
    forall i | 0 <= i < IP ensures now[at + i] == r[i] {
      assert h[i] == was[at + i];
    }
  }

  /** The IPv4 part of `craft`: the header is summed in host order and the sum stored in
      host order. A big-endian reader still verifies it. */
  method CraftIp(d: array<byte>, at: nat, total: nat, src: nat, dst: nat)
    requires at + IP <= d.Length
    requires forall i | at <= i < at + IP :: d[i] == 0
    modifies d
    ensures d[at..at + IP] == Sealed(IpHeader(total, src, dst))
    ensures Verifies(Network, d[at..at + IP])
    ensures forall i | 0 <= i < d.Length && !(at <= i < at + IP) :: d[i] == old(d[i])
  {
    hide IpHeader, OnesSum, Octet, Sealed, Verifies;
    CraftFields(d, at, total, src, dst);
    var h := d[at..at + IP];
    var c := Ipv4Csum(h);
    SealedIs(h, c);
    ghost var was := d[..];
    var field := [Octet(c % 256), Octet(c / 256)];
    Store(d, at + 10, field);
    FieldStored(was, d[..], at, h, field);
  }

  /** Octets that stand in `s` from `at` on. */
  predicate StandsAt(s: seq<byte>, at: nat, part: seq<byte>) {
    at + |part| <= |s| && forall i | 0 <= i < |part| :: s[at + i] == part[i]
  }

  lemma FourParts(s: seq<byte>, a: seq<byte>, b: seq<byte>, c: seq<byte>, d: seq<byte>)
    requires |s| == |a| + |b| + |c| + |d|
    requires StandsAt(s, 0, a) && StandsAt(s, |a|, b) && StandsAt(s, |a| + |b|, c) && StandsAt(s, |a| + |b| + |c|, d)
    ensures s == a + b + c + d
  {
    var t := a + b + c + d;
    forall i | 0 <= i < |s| ensures s[i] == t[i] {
      if i < |a| {
        assert s[0 + i] == a[i];
      } else if i < |a| + |b| {
        assert s[|a| + (i - |a|)] == b[i - |a|];
      } else if i < |a| + |b| + |c| {
        assert s[|a| + |b| + (i - |a| - |b|)] == c[i - |a| - |b|];
      } else {
        assert s[|a| + |b| + |c| + (i - |a| - |b| - |c|)] == d[i - |a| - |b| - |c|];
      }
    }
  }

  /** `craft`, part by part into the zeroed frame. */
  method CraftParts(d: array<byte>, ether: seq<byte>, udpHeader: seq<byte>, dns: seq<byte>, src: nat, dst: nat)
    returns (length: nat)
    requires |ether| == ETHER && |udpHeader| == UDP && ETHER + IP + UDP + |dns| <= d.Length
    modifies d
    ensures length == ETHER + IP + UDP + |dns|
    ensures d[..length] == ether + Sealed(IpHeader(IP + UDP + |dns|, src, dst)) + udpHeader + dns
    ensures Verifies(Network, d[ETHER..ETHER + IP])
    ensures d[length..] == old(d[length..])
  {
    hide IpHeader, Sealed, Verifies;
    var udpLen := UDP + |dns|;
    var ipLen := IP + udpLen;
    length := ETHER + ipLen;
    Store(d, 0, seq(length, _ => 0));
    Store(d, 0, ether);
    CraftIp(d, ETHER, ipLen, src, dst);
    ghost var ip := d[ETHER..ETHER + IP];
    Store(d, ETHER + IP, udpHeader);
    Store(d, ETHER + ipLen - udpLen + UDP, dns);
    assert d[ETHER..ETHER + IP] == ip;
    FourParts(d[..length], ether, ip, udpHeader, dns);
  }

  /** `craft`: the whole frame, with both length fields counting what really follows. */
  method Craft(d: array<byte>, dstMac: seq<byte>, srcMac: seq<byte>,
               src: nat, dst: nat, srcPort: nat, dstPort: nat, dns: seq<byte>)
    returns (length: nat)
    requires |dstMac| == 6 && |srcMac| == 6 && ETHER + IP + UDP + |dns| <= d.Length
    modifies d
    ensures length == ETHER + IP + UDP + |dns|
    ensures d[..length] == EtherHeader(dstMac, srcMac) + Sealed(IpHeader(IP + UDP + |dns|, src, dst))
                           + UdpHeader(srcPort, dstPort, UDP + |dns|) + dns
    ensures Verifies(Network, d[ETHER..ETHER + IP])
    ensures length - ETHER < WORD ==>
              && BigEndian(d[ETHER + 2..ETHER + 4]) == length - ETHER
              && BigEndian(d[ETHER + IP + 4..ETHER + IP + 6]) == length - ETHER - IP
    ensures d[length..] == old(d[length..])
  {
    hide IpHeader, Sealed, Verifies, BigEndian, UdpHeader;
    var udpLen := UDP + |dns|;
    var ether := EtherHeader(dstMac, srcMac);
    length := CraftParts(d, ether, UdpHeader(srcPort, dstPort, udpLen), dns, src, dst);
    if IP + udpLen < WORD {
      LengthFields(IP + udpLen, udpLen, src, dst, srcPort, dstPort);
      FieldSlices(d[..length], ether, Sealed(IpHeader(IP + udpLen, src, dst)),
                  UdpHeader(srcPort, dstPort, udpLen), dns);
      assert d[..length][ETHER + 2..ETHER + 4] == d[ETHER + 2..ETHER + 4];
      assert d[..length][ETHER + IP + 4..ETHER + IP + 6] == d[ETHER + IP + 4..ETHER + IP + 6];
    }
  }

  lemma FieldSlices(s: seq<byte>, ether: seq<byte>, ip: seq<byte>, udp: seq<byte>, dns: seq<byte>)
    requires |ether| == ETHER && |ip| == IP && |udp| == UDP && s == ether + ip + udp + dns
    ensures s[ETHER + 2..ETHER + 4] == ip[2..4]
    ensures s[ETHER + IP + 4..ETHER + IP + 6] == udp[4..6]
  {}

  /** The two length fields read back as the lengths they were given, the checksum notwithstanding. */
  lemma LengthFields(ipLen: nat, udpLen: nat, src: nat, dst: nat, srcPort: nat, dstPort: nat)
    requires udpLen <= ipLen < WORD
    ensures BigEndian(Sealed(IpHeader(ipLen, src, dst))[2..4]) == ipLen
    ensures BigEndian(UdpHeader(srcPort, dstPort, udpLen)[4..6]) == udpLen
  {
    hide ToBigEndian, OnesSum, Octet, BigEndian;
    FieldWidths();
    BigEndianOfTo(ipLen, 2);
    BigEndianOfTo(udpLen, 2);
    var h := IpHeader(ipLen, src, dst);
    assert Sealed(h)[2..4] == h[2..4] == ToBigEndian(ipLen, 2);
    assert UdpHeader(srcPort, dstPort, udpLen)[4..6] == ToBigEndian(udpLen, 2);
  }

  /** Reading a crafted frame at the offsets the standards give: addresses, ports, protocol and payload
      are those asked for, whatever checksum was stored. */
  lemma FrameReadsBack(s: seq<byte>, dstMac: seq<byte>, srcMac: seq<byte>, src: nat, dst: nat,
                       srcPort: nat, dstPort: nat, dns: seq<byte>)
    requires |dstMac| == 6 && |srcMac| == 6
    requires src < WORD32 && dst < WORD32 && srcPort < WORD && dstPort < WORD
    requires s == EtherHeader(dstMac, srcMac) + Sealed(IpHeader(IP + UDP + |dns|, src, dst))
                  + UdpHeader(srcPort, dstPort, UDP + |dns|) + dns
    ensures s[..6] == dstMac && s[6..12] == srcMac && s[12..14] == [0x08, 0x00]
    ensures s[14] == 0x45 && s[22] == 64 && s[23] == 17
    ensures BigEndian(s[26..30]) == src && BigEndian(s[30..34]) == dst
    ensures BigEndian(s[34..36]) == srcPort && BigEndian(s[36..38]) == dstPort
    ensures s[42..] == dns
  {
    hide ToBigEndian, OnesSum, Octet, BigEndian, IpHeader, Sealed, UdpHeader;
    var ip, udp := Sealed(IpHeader(IP + UDP + |dns|, src, dst)), UdpHeader(srcPort, dstPort, UDP + |dns|);
    var ether := EtherHeader(dstMac, srcMac);
    IpFields(IP + UDP + |dns|, src, dst);
    UdpFields(srcPort, dstPort, UDP + |dns|);
    PartSlices(s, ether, ip, udp, dns);
  }

  lemma PartSlices(s: seq<byte>, ether: seq<byte>, ip: seq<byte>, udp: seq<byte>, dns: seq<byte>)
    requires |ether| == ETHER && |ip| == IP && |udp| == UDP && s == ether + ip + udp + dns
    ensures s[..6] == ether[..6] && s[6..12] == ether[6..12] && s[12..14] == ether[12..14]
    ensures s[14] == ip[0] && s[22] == ip[8] && s[23] == ip[9]
    ensures s[26..30] == ip[12..16] && s[30..34] == ip[16..20]
    ensures s[34..36] == udp[..2] && s[36..38] == udp[2..4] && s[42..] == dns
  {}

  lemma IpFields(total: nat, src: nat, dst: nat)
    requires src < WORD32 && dst < WORD32
    ensures var h := Sealed(IpHeader(total, src, dst));
            && h[0] == 0x45 && h[8] == 64 && h[9] == 17
            && BigEndian(h[12..16]) == src && BigEndian(h[16..20]) == dst
  {
    hide ToBigEndian, OnesSum, Octet, BigEndian;
    FourOctets();
    BigEndianOfTo(src, 4);
    BigEndianOfTo(dst, 4);
    var h := IpHeader(total, src, dst);
    assert Sealed(h)[12..16] == h[12..16] == ToBigEndian(src, 4);
    assert Sealed(h)[16..20] == h[16..20] == ToBigEndian(dst, 4);
  }

  lemma FourOctets()
    ensures Pow256(4) == WORD32
  {
    assert Pow256(3) == 256 * Pow256(2);
    assert Pow256(4) == 256 * Pow256(3);
  }

  lemma UdpFields(srcPort: nat, dstPort: nat, length: nat)
    requires srcPort < WORD && dstPort < WORD
    ensures var h := UdpHeader(srcPort, dstPort, length);
            BigEndian(h[..2]) == srcPort && BigEndian(h[2..4]) == dstPort
  {
    hide ToBigEndian, BigEndian;
    FieldWidths();
    BigEndianOfTo(srcPort, 2);
    BigEndianOfTo(dstPort, 2);
    var h := UdpHeader(srcPort, dstPort, length);
    assert h[..2] == ToBigEndian(srcPort, 2) && h[2..4] == ToBigEndian(dstPort, 2);
  }

  /** A SYN segment with data offset five and the checksum field still zero. */
  function Syn(srcPort: nat, dstPort: nat, seqno: nat): (t: seq<byte>)
    ensures |t| == 20 && t[16] == 0 && t[17] == 0
  {
    ToBigEndian(srcPort, 2) + ToBigEndian(dstPort, 2) + ToBigEndian(seqno, 4) + ToBigEndian(0, 4)
    + [0x50, 0x02, 0xFF, 0xFF, 0, 0, 0, 0]
  }

  /** The segment read at the offsets of section 3.1 of RFC 9293: the ports and sequence number asked
      for, nothing acknowledged, no options, SYN alone, the whole window. */
  lemma SynFields(srcPort: nat, dstPort: nat, seqno: nat)
    requires srcPort < WORD && dstPort < WORD && seqno < WORD32
    ensures var t := Syn(srcPort, dstPort, seqno);
            && BigEndian(t[..2]) == srcPort && BigEndian(t[2..4]) == dstPort
            && BigEndian(t[4..8]) == seqno && BigEndian(t[8..12]) == 0
            && t[12] == 0x50 && t[13] == 0x02 && BigEndian(t[14..16]) == 65535 && t[18..] == [0, 0]
  {
    hide ToBigEndian, BigEndian;
    FieldWidths();
    FourOctets();
    BigEndianOfTo(srcPort, 2);
    BigEndianOfTo(dstPort, 2);
    BigEndianOfTo(seqno, 4);
    BigEndianOfTo(0, 4);
    var t := Syn(srcPort, dstPort, seqno);
    assert t[..2] == ToBigEndian(srcPort, 2) && t[2..4] == ToBigEndian(dstPort, 2);
    assert t[4..8] == ToBigEndian(seqno, 4) && t[8..12] == ToBigEndian(0, 4);
    FullWindow(t[14..16]);
  }

  lemma FullWindow(w: seq<byte>)
    requires w == [0xFF, 0xFF]
    ensures BigEndian(w) == 65535
  {
    assert BigEndian(w[..1]) == BigEndian(w[..1][..0]) * 256 + w[..1][0] as int;
  }

  lemma PseudoFields(src: seq<byte>, dst: seq<byte>, length: nat)
    requires |src| == 4 && |dst| == 4 && length < WORD
    ensures var p := Pseudo(src, dst, length);
            && p[..4] == src && p[4..8] == dst && p[8] == 0 && p[9] == 6 && BigEndian(p[10..12]) == length
  {
    hide ToBigEndian, BigEndian;
    FieldWidths();
    BigEndianOfTo(length, 2);
    assert Pseudo(src, dst, length)[10..12] == ToBigEndian(length, 2);
  }

  /** The pseudo-header of section 3.1 of RFC 9293. */
  function Pseudo(src: seq<byte>, dst: seq<byte>, length: nat): (p: seq<byte>)
    ensures |p| == |src| + |dst| + 4
  {
    src + dst + [0, 6] + ToBigEndian(length, 2)
  }

  /** `build_syn`: packing refuses a port above sixteen bits; every segment built verifies. */
  method BuildSyn(src: seq<byte>, srcPort: nat, dst: seq<byte>, dstPort: nat, seqno: nat)
    returns (r: Option<seq<byte>>)
    requires |src| == 4 && |dst| == 4
    ensures r.None? <==> srcPort > 0xFFFF || dstPort > 0xFFFF
    ensures r.Some? ==>
              && |r.value| == 20
              && Verifies(Network, Pseudo(src, dst, 20) + r.value)
              && r.value[..16] == Syn(srcPort, dstPort, seqno)[..16]
              && r.value[18..] == Syn(srcPort, dstPort, seqno)[18..]
  {
    if srcPort > 0xFFFF || dstPort > 0xFFFF {
      return None;
    }
    hide Syn, Pseudo, OnesSum, Verifies;
    var tcp := Syn(srcPort, dstPort, seqno);
    var pseudo := Pseudo(src, dst, |tcp|);
    var csum := TwoStepChecksum(pseudo + tcp);
    r := Some(tcp[..16] + ToBigEndian(csum, 2) + tcp[18..]);
    SynVerifies(pseudo, tcp, csum);
  }

  lemma TwoOctets(v: nat)
    requires v < WORD
    ensures ToBigEndian(v, 2) == [Octet(v / 256), Octet(v % 256)]
  {
    hide Octet;
    LastOctet(v, 2);
    LastOctet(v / 256, 1);
    assert v / 256 % 256 == v / 256;
    assert ToBigEndian(v / 256 / 256, 0) == [];
  }

  lemma LastOctet(v: nat, width: nat)
    requires width > 0
    ensures ToBigEndian(v, width) == ToBigEndian(v / 256, width - 1) + [Octet(v % 256)]
  {
    hide Octet;
  }

  lemma SynVerifies(pseudo: seq<byte>, tcp: seq<byte>, csum: nat)
    requires |pseudo| == 12 && |tcp| == 20 && tcp[16] == 0 && tcp[17] == 0
    requires csum == ONES - OnesSum(Network, pseudo + tcp)
    ensures Verifies(Network, pseudo + (tcp[..16] + ToBigEndian(csum, 2) + tcp[18..]))
  {
    hide OnesSum, Verifies, Octet, ToBigEndian;
    var whole := pseudo + tcp;
    InsertVerifies(Network, whole, 28);
    TwoOctets(csum);
    assert pseudo + (tcp[..16] + ToBigEndian(csum, 2) + tcp[18..]) == Put(Network, whole, 28, csum);
  }
}
