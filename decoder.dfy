/**
  The frame decoding that Sniffer::processPacket (src/sniffer.cpp) performs,
  as a function from the captured bytes to the Packet value those bytes
  describe. The C++ code prints each field as it reads it; here the fields
  are returned instead, in the Packet/header value types of src/packet.hpp.

  Layers: an Ethernet II header at offset 0 (destination MAC, source MAC,
  EtherType); for EtherType 0x0800 an IPv4 header at offset 14 laid out as
  in section 3.1 of RFC 791; and at offset 14 + IHL*4 a transport header
  chosen by the IPv4 protocol number: TCP (section 3.1 of RFC 793), UDP
  (RFC 768) or ICMP (RFC 792, recorded as a marker only).

  Unlike the C++ code, which dereferences offsets 0, 14 and 14 + IHL*4
  without comparing them with the captured length, every layer here is
  decoded only when the bytes the C++ code reads from it were captured
  (14 for Ethernet, 20 for IPv4, the first 14 of a TCP header, the first 6
  of a UDP header, none for ICMP); otherwise that layer and every layer
  above it are absent.
 */
module Decoder {
  import opened Wrappers
  import opened Bytes
  import opened Text
  import opened Headers

  /** What libpcap's packet header reports: capture time, captured length and wire length. */
  datatype CaptureHeader = CaptureHeader(ts: Timestamp, caplen: uint32, len: uint32)

  const EthernetHeaderSize: nat := 14
  const IPv4MinHeaderSize: nat := 20
  const TCPHeaderSize: nat := 20
  const UDPHeaderSize: nat := 8

  /** The bytes processPacket reads from each transport header: TCP up to the flags octet, UDP up to the length, ICMP none. */
  const TCPBytesRead: nat := 14
  const UDPBytesRead: nat := 6
  const ICMPBytesRead: nat := 0

  const EtherTypeIPv4: uint16 := 0x0800
  const ProtocolICMP: uint8 := 1
  const ProtocolTCP: uint8 := 6
  const ProtocolUDP: uint8 := 17

  // ----- Address rendering -----

  /** Each octet as two lower-case hex digits (`hex << setw(2) << setfill('0')`). */
  function HexOctets(b: seq<uint8>): (parts: seq<string>)
    ensures |parts| == |b|
  {
    seq(|b|, i requires 0 <= i < |b| => HexPad(b[i] as nat, 2))
  }

  /** Each octet in decimal, as inet_ntoa writes it. */
  function DecOctets(b: seq<uint8>): (parts: seq<string>)
    ensures |parts| == |b|
  {
    seq(|b|, i requires 0 <= i < |b| => Dec(b[i] as nat))
  }

  /** A MAC address: six two-digit hex octets separated by ':'. */
  function MacString(b: seq<uint8>): string
    requires |b| == 6
  {
    Join(HexOctets(b), ':')
  }

  /** An IPv4 address in dotted-quad form, octets in network order. */
  function DottedQuad(b: seq<uint8>): string
    requires |b| == 4
  {
    Join(DecOctets(b), '.')
  }

  /** Reads `n` octets separated by `sep`, each written in `base` with at most `width` digits. */
  function ParseOctets(s: string, sep: char, n: nat, base: nat, width: nat): Option<seq<uint8>>
  {
    var parts := Split(s, sep);
    if |parts| == n && forall i :: 0 <= i < n ==> OctetText(parts[i], base, width) then
      Some(seq(n, i requires 0 <= i < n && OctetText(parts[i], base, width) =>
        ParseNum(parts[i], base).value as uint8))
    else None
  }

  predicate OctetText(part: string, base: nat, width: nat)
  {
    1 <= |part| <= width && ParseNum(part, base).Some? && ParseNum(part, base).value < 0x100
  }

  /** Reads text of the MacString form back into six octets. */
  function ParseMac(s: string): Option<seq<uint8>>
  {
    ParseOctets(s, ':', 6, 16, 2)
  }

  /** Reads text of the DottedQuad form back into four octets. */
  function ParseQuad(s: string): Option<seq<uint8>>
  {
    ParseOctets(s, '.', 4, 10, 3)
  }

  lemma HexOctetsText(b: seq<uint8>)
    ensures forall i :: 0 <= i < |b| ==>
      OctetText(HexOctets(b)[i], 16, 2) && ParseNum(HexOctets(b)[i], 16) == Some(b[i] as nat)
      && ':' !in HexOctets(b)[i]
  {
    assert Pow(16, 2) == 0x100;
    forall i | 0 <= i < |b|
      ensures OctetText(HexOctets(b)[i], 16, 2) && ParseNum(HexOctets(b)[i], 16) == Some(b[i] as nat)
      ensures ':' !in HexOctets(b)[i]
    {
      HexPadRoundTrip(b[i] as nat, 2);
      DigitsHaveNoSep(HexOctets(b)[i], 16, ':');
    }
  }

  lemma DecOctetsText(b: seq<uint8>)
    ensures forall i :: 0 <= i < |b| ==>
      OctetText(DecOctets(b)[i], 10, 3) && ParseNum(DecOctets(b)[i], 10) == Some(b[i] as nat)
      && '.' !in DecOctets(b)[i]
  {
    assert Pow(10, 3) == 1000;
    forall i | 0 <= i < |b|
      ensures OctetText(DecOctets(b)[i], 10, 3) && ParseNum(DecOctets(b)[i], 10) == Some(b[i] as nat)
      ensures '.' !in DecOctets(b)[i]
    {
      DecRoundTrip(b[i] as nat);
      DigitsWidth(b[i] as nat, 10, 3);
      DigitsHaveNoSep(DecOctets(b)[i], 10, '.');
    }
  }

  /** A rendered MAC address is 17 characters long and reads back as the six octets it was made from. */
  lemma MacRoundTrip(b: seq<uint8>)
    requires |b| == 6
    ensures |MacString(b)| == 17
    ensures ParseMac(MacString(b)) == Some(b)
  {
    HexOctetsText(b);
    var parts := HexOctets(b);
    SplitJoin(parts, ':');
    JoinLength(parts, ':', 2);
    var r := ParseMac(MacString(b));
    assert r.Some?;
    assert forall i :: 0 <= i < 6 ==> r.value[i] == b[i];
    assert |r.value| == 6;
    assert r.value == b;
  }

  /** A rendered IPv4 address reads back as the four octets it was made from. */
  lemma QuadRoundTrip(b: seq<uint8>)
    requires |b| == 4
    ensures ParseQuad(DottedQuad(b)) == Some(b)
  {
    DecOctetsText(b);
    SplitJoin(DecOctets(b), '.');
    var r := ParseQuad(DottedQuad(b));
    assert r.Some?;
    assert forall i :: 0 <= i < 4 ==> r.value[i] == b[i];
    assert |r.value| == 4;
    assert r.value == b;
  }

  lemma {:induction false} JoinLength(parts: seq<string>, sep: char, w: nat)
    requires |parts| >= 1 && forall i :: 0 <= i < |parts| ==> |parts[i]| == w
    ensures |Join(parts, sep)| == |parts| * (w + 1) - 1
    decreases |parts|
  {
    if |parts| > 1 {
      JoinLength(parts[1..], sep, w);
    }
  }

  // ----- Decoding, layer by layer -----

  /** The Ethernet II header: destination MAC in bytes 0-5, source MAC in 6-11, EtherType in 12-13. */
  function DecodeEthernet(frame: seq<uint8>): (r: Option<EthernetHeader>)
    ensures r.Some? <==> |frame| >= EthernetHeaderSize
  {
    if |frame| < EthernetHeaderSize then None
    else Some(EthernetHeader(MacString(frame[6..12]), MacString(frame[0..6]), BE16(frame[12], frame[13])))
  }

  /** The IHL field: the low nibble of the first IPv4 octet, the header length in 32-bit words. */
  function IHL(frame: seq<uint8>): (ihl: nat)
    requires |frame| > EthernetHeaderSize
    ensures ihl < 16
  {
    frame[EthernetHeaderSize] as nat % 16
  }

  /** Where the transport header starts: after the Ethernet header and IHL*4 bytes of IPv4 header. */
  function TransportOffset(frame: seq<uint8>): nat
    requires |frame| > EthernetHeaderSize
  {
    EthernetHeaderSize + IHL(frame) * 4
  }

  /**
    The IPv4 header at offset 14, when its 20 fixed bytes were captured:
    version in the high nibble of byte 0, identification in bytes 4-5, TTL
    in byte 8, protocol in byte 9, source address in bytes 12-15 and
    destination address in bytes 16-19.
   */
  function DecodeIPv4(frame: seq<uint8>): (r: Option<IPHeader>)
    ensures r.Some? <==> |frame| >= EthernetHeaderSize + IPv4MinHeaderSize
    ensures r.Some? ==> r.value.IPv4Header?
  {
    if |frame| < EthernetHeaderSize + IPv4MinHeaderSize then None
    else
      var ip := frame[EthernetHeaderSize..];
      Some(IPv4Header(
        DottedQuad(ip[12..16]), DottedQuad(ip[16..20]),
        ip[9], ip[8],
        (ip[0] as int / 16) as uint8,
        BE16(ip[4], ip[5])))
  }

  /** Whether the `size` bytes of a header starting at `off` were all captured. */
  predicate Fits(frame: seq<uint8>, off: nat, size: nat)
  {
    off + size <= |frame|
  }

  /**
    The transport header at `off`, chosen by the IPv4 protocol number: TCP
    ports at +0 and +2, sequence and acknowledgment numbers at +4 and +8,
    flags at +13; UDP ports at +0 and +2 and length at +4, passed through
    as declared; ICMP with no fields, so it needs no captured byte at all.
    Any other protocol gives no layer.
   */
  function DecodeTransport(frame: seq<uint8>, protocol: uint8, off: nat): (r: Option<TransportHeader>)
    ensures r.Some? ==> protocol in {ProtocolTCP, ProtocolUDP, ProtocolICMP}
    ensures r.Some? && r.value.TCPHeader? <==> protocol == ProtocolTCP && Fits(frame, off, TCPBytesRead)
    ensures r.Some? && r.value.UDPHeader? <==> protocol == ProtocolUDP && Fits(frame, off, UDPBytesRead)
    ensures r.Some? && r.value.ICMPHeader? <==> protocol == ProtocolICMP
  {
    if protocol == ProtocolTCP then
      if !Fits(frame, off, TCPBytesRead) then None
      else
        var t := frame[off..];
        Some(TCPHeader(BE16(t[0], t[1]), BE16(t[2], t[3]),
                       BE32(t[4], t[5], t[6], t[7]), BE32(t[8], t[9], t[10], t[11]), t[13]))
    else if protocol == ProtocolUDP then
      if !Fits(frame, off, UDPBytesRead) then None
      else
        var u := frame[off..];
        Some(UDPHeader(BE16(u[0], u[1]), BE16(u[2], u[3]), BE16(u[4], u[5])))
    else if protocol == ProtocolICMP then
      Some(ICMPHeader)
    else None
  }

  /**
    processPacket as a function. Each layer is decoded only on top of the
    one below it: IPv4 only for EtherType 0x0800 (IPv6, ARP and every other
    type stop after Ethernet), and a transport layer only over IPv4.
   */
  function Decode(h: CaptureHeader, frame: seq<uint8>): (p: PacketValue)
    requires |frame| == h.caplen as int
    ensures p.timestamp == h.ts && p.capturedLength == h.caplen && p.actualLength == h.len
    ensures p.rawData == frame
    ensures p.ethernet.Some? <==> |frame| >= EthernetHeaderSize
    ensures p.ip.Some? <==> p.ethernet.Some? && p.ethernet.value.etherType == EtherTypeIPv4
                            && |frame| >= EthernetHeaderSize + IPv4MinHeaderSize
    ensures p.transport.Some? ==> p.ip.Some? && p.ip.value.IPv4Header?
  {
    var eth := DecodeEthernet(frame);
    var ip := if eth.Some? && eth.value.etherType == EtherTypeIPv4 then DecodeIPv4(frame) else None;
    var transport := if ip.Some? then DecodeTransport(frame, ip.value.protocol, TransportOffset(frame)) else None;
    PacketValue(h.ts, h.caplen, h.len, eth, ip, transport, frame)
  }

  // ----- What the decoded fields are -----

  /** A frame too short for an Ethernet header decodes to a packet with no layers at all. */
  lemma ShortFrameHasNoLayers(h: CaptureHeader, frame: seq<uint8>)
    requires |frame| == h.caplen as int && |frame| < EthernetHeaderSize
    ensures var p := Decode(h, frame); p.ethernet.None? && p.ip.None? && p.transport.None?
  {
  }

  /**
    The decoded Ethernet addresses read back as bytes 0-5 (destination) and
    6-11 (source), and the EtherType is the big-endian value of bytes 12-13.
   */
  lemma EthernetFields(h: CaptureHeader, frame: seq<uint8>)
    requires |frame| == h.caplen as int && |frame| >= EthernetHeaderSize
    ensures var e := Decode(h, frame).ethernet.value;
      && ParseMac(e.dstMac) == Some(frame[0..6])
      && ParseMac(e.srcMac) == Some(frame[6..12])
      && Octets16(e.etherType) == frame[12..14]
  {
    MacRoundTrip(frame[0..6]);
    MacRoundTrip(frame[6..12]);
    BE16Octets(frame[12], frame[13]);
  }

  /**
    The decoded IPv4 fields: addresses read back as IP bytes 12-15 and
    16-19, TTL is IP byte 8, protocol IP byte 9, and version the high
    nibble of IP byte 0.
   */
  lemma IPv4Fields(h: CaptureHeader, frame: seq<uint8>)
    requires |frame| == h.caplen as int
    requires Decode(h, frame).ip.Some?
    ensures var ip := Decode(h, frame).ip.value;
      && ParseQuad(ip.srcIP) == Some(frame[26..30])
      && ParseQuad(ip.dstIP) == Some(frame[30..34])
      && ip.ttl == frame[22] && ip.protocol == frame[23]
      && ip.version as int == frame[14] as int / 16
      && Octets16(ip.identification) == frame[18..20]
  {
    var ipb := frame[14..];
    assert ipb[12..16] == frame[26..30] && ipb[16..20] == frame[30..34];
    QuadRoundTrip(frame[26..30]);
    QuadRoundTrip(frame[30..34]);
    BE16Octets(frame[18], frame[19]);
  }

  /**
    Protocol dispatch: a transport layer is present exactly when the IPv4
    protocol is 6 or 17 and the 14 or 6 bytes processPacket reads were
    captured at offset 14 + IHL*4, or the protocol is 1, whatever was
    captured; its kind follows the protocol number.
   */
  lemma TransportDispatch(h: CaptureHeader, frame: seq<uint8>)
    requires |frame| == h.caplen as int
    requires Decode(h, frame).ip.Some?
    ensures var p := Decode(h, frame);
      var proto, off := p.ip.value.protocol, TransportOffset(frame);
      && (p.transport.Some? && p.transport.value.TCPHeader? <==> proto == 6 && off + 14 <= |frame|)
      && (p.transport.Some? && p.transport.value.UDPHeader? <==> proto == 17 && off + 6 <= |frame|)
      && (p.transport.Some? && p.transport.value.ICMPHeader? <==> proto == 1)
      && (proto !in {1, 6, 17} ==> p.transport.None?)
  {
  }

  /**
    The decoded TCP fields, relative to offset 14 + IHL*4: ports are the
    big-endian values at +0 and +2, sequence and acknowledgment numbers at
    +4 and +8, and the flags octet is byte +13.
   */
  lemma TCPFields(h: CaptureHeader, frame: seq<uint8>)
    requires |frame| == h.caplen as int
    requires Decode(h, frame).transport.Some? && Decode(h, frame).transport.value.TCPHeader?
    ensures var t, off := Decode(h, frame).transport.value, TransportOffset(frame);
      && off + 14 <= |frame|
      && Octets16(t.srcPort) == frame[off..off + 2]
      && Octets16(t.dstPort) == frame[off + 2..off + 4]
      && Octets32(t.seqNumber) == frame[off + 4..off + 8]
      && Octets32(t.ackNumber) == frame[off + 8..off + 12]
      && t.flags == frame[off + 13]
  {
    var off := TransportOffset(frame);
    var t := Decode(h, frame).transport.value;
    assert t.srcPort == BE16(frame[off], frame[off + 1]) && t.dstPort == BE16(frame[off + 2], frame[off + 3]);
    assert t.seqNumber == BE32(frame[off + 4], frame[off + 5], frame[off + 6], frame[off + 7]);
    assert t.ackNumber == BE32(frame[off + 8], frame[off + 9], frame[off + 10], frame[off + 11]);
    Field16(frame, off);
    Field16(frame, off + 2);
    Field32(frame, off + 4);
    Field32(frame, off + 8);
  }

  /**
    The decoded UDP fields, relative to offset 14 + IHL*4: ports at +0 and
    +2 and the declared length at +4, not compared with the captured length.
   */
  lemma UDPFields(h: CaptureHeader, frame: seq<uint8>)
    requires |frame| == h.caplen as int
    requires Decode(h, frame).transport.Some? && Decode(h, frame).transport.value.UDPHeader?
    ensures var u, off := Decode(h, frame).transport.value, TransportOffset(frame);
      && off + 6 <= |frame|
      && Octets16(u.srcPort) == frame[off..off + 2]
      && Octets16(u.dstPort) == frame[off + 2..off + 4]
      && Octets16(u.length) == frame[off + 4..off + 6]
  {
    var off := TransportOffset(frame);
    var u := Decode(h, frame).transport.value;
    assert u.srcPort == BE16(frame[off], frame[off + 1]) && u.dstPort == BE16(frame[off + 2], frame[off + 3]);
    assert u.length == BE16(frame[off + 4], frame[off + 5]);
    Field16(frame, off);
    Field16(frame, off + 2);
    Field16(frame, off + 4);
  }

  /** The 16-bit field read at `i`, written back, is the two bytes it was read from. */
  lemma Field16(frame: seq<uint8>, i: nat)
    requires i + 2 <= |frame|
    ensures Octets16(BE16(frame[i], frame[i + 1])) == frame[i..i + 2]
  {
    BE16Octets(frame[i], frame[i + 1]);
  }

  /** The 32-bit field read at `i`, written back, is the four bytes it was read from. */
  lemma Field32(frame: seq<uint8>, i: nat)
    requires i + 4 <= |frame|
    ensures Octets32(BE32(frame[i], frame[i + 1], frame[i + 2], frame[i + 3])) == frame[i..i + 4]
  {
    BE32Octets(frame[i], frame[i + 1], frame[i + 2], frame[i + 3]);
  }

  // ----- Building frames: the partner of Decode -----

  /** An Ethernet II header carrying the given addresses and EtherType. */
  function EthernetBytes(dst: seq<uint8>, src: seq<uint8>, etherType: uint16): (b: seq<uint8>)
    requires |dst| == 6 && |src| == 6
    ensures |b| == EthernetHeaderSize
  {
    dst + src + Octets16(etherType)
  }

  /**
    An IPv4 header of `ihl` 32-bit words, version 4, with the given
    identification, TTL, protocol and addresses; type of service, total
    length, fragment fields, checksum and options are zero.
   */
  function IPv4Bytes(ihl: nat, id: uint16, ttl: uint8, protocol: uint8, src: seq<uint8>, dst: seq<uint8>): (b: seq<uint8>)
    requires 5 <= ihl < 16 && |src| == 4 && |dst| == 4
    ensures |b| == ihl * 4
  {
    [(0x40 + ihl) as uint8, 0, 0, 0] + Octets16(id) + [0, 0, ttl, protocol, 0, 0] + src + dst
      + seq((ihl - 5) * 4, _ => 0)
  }

  /** A 20-byte TCP header (data offset 5, no options) with the given ports, numbers and flags octet. */
  function TCPBytes(srcPort: uint16, dstPort: uint16, seqNumber: uint32, ackNumber: uint32, flags: uint8): (b: seq<uint8>)
    ensures |b| == TCPHeaderSize
  {
    Octets16(srcPort) + Octets16(dstPort) + Octets32(seqNumber) + Octets32(ackNumber)
      + [0x50, flags, 0, 0, 0, 0, 0, 0]
  }

  /** An 8-byte UDP header with the given ports and declared length, checksum zero. */
  function UDPBytes(srcPort: uint16, dstPort: uint16, length: uint16): (b: seq<uint8>)
    ensures |b| == UDPHeaderSize
  {
    Octets16(srcPort) + Octets16(dstPort) + Octets16(length) + [0, 0]
  }

  /** Decoding a transport header only looks at the bytes from its offset on. */
  lemma DecodeTransportShift(frame: seq<uint8>, protocol: uint8, off: nat)
    requires off <= |frame|
    ensures DecodeTransport(frame, protocol, off) == DecodeTransport(frame[off..], protocol, 0)
  {
    assert frame[off..][0..] == frame[off..];
  }

  /** An encoded TCP header, whatever follows it, decodes to the fields it was built from. */
  lemma TCPBytesDecode(srcPort: uint16, dstPort: uint16, seqNumber: uint32, ackNumber: uint32, flags: uint8, payload: seq<uint8>)
    ensures DecodeTransport(TCPBytes(srcPort, dstPort, seqNumber, ackNumber, flags) + payload, ProtocolTCP, 0)
         == Some(TCPHeader(srcPort, dstPort, seqNumber, ackNumber, flags))
  {
    var b := TCPBytes(srcPort, dstPort, seqNumber, ackNumber, flags) + payload;
    var s, d, q, a := Octets16(srcPort), Octets16(dstPort), Octets32(seqNumber), Octets32(ackNumber);
    assert b[0] == s[0] && b[1] == s[1] && b[2] == d[0] && b[3] == d[1];
    assert b[4] == q[0] && b[5] == q[1] && b[6] == q[2] && b[7] == q[3];
    assert b[8] == a[0] && b[9] == a[1] && b[10] == a[2] && b[11] == a[3];
    assert b[13] == flags;
  }

  /** An encoded UDP header, whatever follows it, decodes to the fields it was built from. */
  lemma UDPBytesDecode(srcPort: uint16, dstPort: uint16, length: uint16, payload: seq<uint8>)
    ensures DecodeTransport(UDPBytes(srcPort, dstPort, length) + payload, ProtocolUDP, 0)
         == Some(UDPHeader(srcPort, dstPort, length))
  {
    var b := UDPBytes(srcPort, dstPort, length) + payload;
    var s, d, l := Octets16(srcPort), Octets16(dstPort), Octets16(length);
    assert b[0] == s[0] && b[1] == s[1] && b[2] == d[0] && b[3] == d[1] && b[4] == l[0] && b[5] == l[1];
  }

  /** An Ethernet frame with EtherType 0x0800 carrying an IPv4 header of `ihl` words, then `rest`. */
  function IPv4Frame(dst: seq<uint8>, src: seq<uint8>, ihl: nat, id: uint16, ttl: uint8, protocol: uint8,
                     srcIP: seq<uint8>, dstIP: seq<uint8>, rest: seq<uint8>): (f: seq<uint8>)
    requires |dst| == 6 && |src| == 6 && 5 <= ihl < 16 && |srcIP| == 4 && |dstIP| == 4
    ensures |f| == EthernetHeaderSize + ihl * 4 + |rest|
  {
    EthernetBytes(dst, src, EtherTypeIPv4) + (IPv4Bytes(ihl, id, ttl, protocol, srcIP, dstIP) + rest)
  }

  /** Where an encoded Ethernet header puts its fields: it decodes to them, and what follows starts at byte 14. */
  lemma EthernetBytesDecode(dst: seq<uint8>, src: seq<uint8>, etherType: uint16, rest: seq<uint8>)
    requires |dst| == 6 && |src| == 6
    ensures var f := EthernetBytes(dst, src, etherType) + rest;
      && DecodeEthernet(f) == Some(EthernetHeader(MacString(src), MacString(dst), etherType))
      && f[EthernetHeaderSize..] == rest
  {
    var f := EthernetBytes(dst, src, etherType) + rest;
    var t := Octets16(etherType);
    assert f[0..6] == dst && f[6..12] == src;
    assert f[12] == t[0] && f[13] == t[1];
  }

  /**
    Where an encoded IPv4 header puts its fields: version and IHL in byte
    0, identification in bytes 4-5, TTL in byte 8, protocol in byte 9 and the
    addresses in bytes 12-19; what follows starts at byte IHL*4.
   */
  lemma IPv4BytesFields(ihl: nat, id: uint16, ttl: uint8, protocol: uint8, srcIP: seq<uint8>, dstIP: seq<uint8>,
                        rest: seq<uint8>)
    requires 5 <= ihl < 16 && |srcIP| == 4 && |dstIP| == 4
    ensures var b := IPv4Bytes(ihl, id, ttl, protocol, srcIP, dstIP) + rest;
      && b[0] as int == 0x40 + ihl && BE16(b[4], b[5]) == id && b[8] == ttl && b[9] == protocol
      && b[12..16] == srcIP && b[16..20] == dstIP && b[ihl * 4..] == rest
  {
    var ip := IPv4Bytes(ihl, id, ttl, protocol, srcIP, dstIP);
    var b := ip + rest;
    var o := Octets16(id);
    assert b[4] == o[0] && b[5] == o[1];
    assert ip[12..16] == srcIP && ip[16..20] == dstIP;
    assert b[12..16] == ip[12..16] && b[16..20] == ip[16..20];
  }

  /**
    After any 14-byte Ethernet header, an encoded IPv4 header of any IHL
    from 5 to 15 decodes to the fields it was built from, with version 4,
    and the transport offset is the first byte after it.
   */
  lemma IPv4BytesDecode(e: seq<uint8>, ihl: nat, id: uint16, ttl: uint8, protocol: uint8,
                        srcIP: seq<uint8>, dstIP: seq<uint8>, rest: seq<uint8>)
    requires |e| == EthernetHeaderSize && 5 <= ihl < 16 && |srcIP| == 4 && |dstIP| == 4
    ensures var f := e + (IPv4Bytes(ihl, id, ttl, protocol, srcIP, dstIP) + rest);
      && DecodeIPv4(f) == Some(IPv4Header(DottedQuad(srcIP), DottedQuad(dstIP), protocol, ttl, 4, id))
      && TransportOffset(f) == EthernetHeaderSize + ihl * 4
      && f[TransportOffset(f)..] == rest
  {
    var b := IPv4Bytes(ihl, id, ttl, protocol, srcIP, dstIP) + rest;
    var f := e + b;
    assert f[14..] == b;
    IPv4BytesFields(ihl, id, ttl, protocol, srcIP, dstIP, rest);
    assert (b[0] as int / 16) as uint8 == 4;
    assert f[14] == b[0];
    assert f[14 + ihl * 4..] == b[ihl * 4..];
  }

  /**
    An Ethernet/IPv4 frame with any IHL from 5 to 15 decodes to the
    addresses and fields it was built from, with version 4, and its
    transport layer is decoded from exactly the bytes after the
    IHL*4-byte IP header.
   */
  lemma IPv4FrameDecode(h: CaptureHeader, dst: seq<uint8>, src: seq<uint8>, ihl: nat, id: uint16, ttl: uint8,
                        protocol: uint8, srcIP: seq<uint8>, dstIP: seq<uint8>, rest: seq<uint8>)
    requires |dst| == 6 && |src| == 6 && 5 <= ihl < 16 && |srcIP| == 4 && |dstIP| == 4
    requires |IPv4Frame(dst, src, ihl, id, ttl, protocol, srcIP, dstIP, rest)| == h.caplen as int
    ensures var frame := IPv4Frame(dst, src, ihl, id, ttl, protocol, srcIP, dstIP, rest);
      var p := Decode(h, frame);
      && p.ethernet == Some(EthernetHeader(MacString(src), MacString(dst), EtherTypeIPv4))
      && p.ip == Some(IPv4Header(DottedQuad(srcIP), DottedQuad(dstIP), protocol, ttl, 4, id))
      && TransportOffset(frame) == EthernetHeaderSize + ihl * 4
      && p.transport == DecodeTransport(rest, protocol, 0)
  {
    var frame := IPv4Frame(dst, src, ihl, id, ttl, protocol, srcIP, dstIP, rest);
    EthernetBytesDecode(dst, src, EtherTypeIPv4, IPv4Bytes(ihl, id, ttl, protocol, srcIP, dstIP) + rest);
    IPv4BytesDecode(EthernetBytes(dst, src, EtherTypeIPv4), ihl, id, ttl, protocol, srcIP, dstIP, rest);
    DecodeTransportShift(frame, protocol, TransportOffset(frame));
  }

  /**
    Decoding inverts encoding for an Ethernet/IPv4/TCP frame, whatever the
    IHL and the payload: every layer comes back with the fields it was built
    from, and the raw bytes and metadata are kept.
   */
  lemma TCPFrameRoundTrip(h: CaptureHeader, dst: seq<uint8>, src: seq<uint8>, ihl: nat, id: uint16, ttl: uint8,
                          srcIP: seq<uint8>, dstIP: seq<uint8>, srcPort: uint16, dstPort: uint16,
                          seqNumber: uint32, ackNumber: uint32, flags: uint8, payload: seq<uint8>)
    requires |dst| == 6 && |src| == 6 && 5 <= ihl < 16 && |srcIP| == 4 && |dstIP| == 4
    requires |IPv4Frame(dst, src, ihl, id, ttl, ProtocolTCP, srcIP, dstIP,
                        TCPBytes(srcPort, dstPort, seqNumber, ackNumber, flags) + payload)| == h.caplen as int
    ensures var frame := IPv4Frame(dst, src, ihl, id, ttl, ProtocolTCP, srcIP, dstIP,
                                   TCPBytes(srcPort, dstPort, seqNumber, ackNumber, flags) + payload);
      Decode(h, frame) == PacketValue(h.ts, h.caplen, h.len,
        Some(EthernetHeader(MacString(src), MacString(dst), EtherTypeIPv4)),
        Some(IPv4Header(DottedQuad(srcIP), DottedQuad(dstIP), ProtocolTCP, ttl, 4, id)),
        Some(TCPHeader(srcPort, dstPort, seqNumber, ackNumber, flags)),
        frame)
  {
    var rest := TCPBytes(srcPort, dstPort, seqNumber, ackNumber, flags) + payload;
    IPv4FrameDecode(h, dst, src, ihl, id, ttl, ProtocolTCP, srcIP, dstIP, rest);
    TCPBytesDecode(srcPort, dstPort, seqNumber, ackNumber, flags, payload);
  }

  /**
    Decoding inverts encoding for an Ethernet/IPv4/UDP frame, whatever the
    IHL and the payload; the declared UDP length comes back as written.
   */
  lemma UDPFrameRoundTrip(h: CaptureHeader, dst: seq<uint8>, src: seq<uint8>, ihl: nat, id: uint16, ttl: uint8,
                          srcIP: seq<uint8>, dstIP: seq<uint8>, srcPort: uint16, dstPort: uint16,
                          length: uint16, payload: seq<uint8>)
    requires |dst| == 6 && |src| == 6 && 5 <= ihl < 16 && |srcIP| == 4 && |dstIP| == 4
    requires |IPv4Frame(dst, src, ihl, id, ttl, ProtocolUDP, srcIP, dstIP,
                        UDPBytes(srcPort, dstPort, length) + payload)| == h.caplen as int
    ensures var frame := IPv4Frame(dst, src, ihl, id, ttl, ProtocolUDP, srcIP, dstIP,
                                   UDPBytes(srcPort, dstPort, length) + payload);
      Decode(h, frame) == PacketValue(h.ts, h.caplen, h.len,
        Some(EthernetHeader(MacString(src), MacString(dst), EtherTypeIPv4)),
        Some(IPv4Header(DottedQuad(srcIP), DottedQuad(dstIP), ProtocolUDP, ttl, 4, id)),
        Some(UDPHeader(srcPort, dstPort, length)),
        frame)
  {
    var rest := UDPBytes(srcPort, dstPort, length) + payload;
    IPv4FrameDecode(h, dst, src, ihl, id, ttl, ProtocolUDP, srcIP, dstIP, rest);
    UDPBytesDecode(srcPort, dstPort, length, payload);
  }

  /**
    A UDP datagram from port 53 to port 12345 with declared length 8 behind
    a 24-byte IPv4 header (IHL 6): the transport layer is found at offset
    38, not 34, and carries those ports and that length.
   */
  lemma UDPBehindIPOptions(h: CaptureHeader, dst: seq<uint8>, src: seq<uint8>, srcIP: seq<uint8>, dstIP: seq<uint8>)
    requires |dst| == 6 && |src| == 6 && |srcIP| == 4 && |dstIP| == 4
    requires h.caplen == 46 && h.len == 46
    ensures var frame := IPv4Frame(dst, src, 6, 0, 64, ProtocolUDP, srcIP, dstIP, UDPBytes(53, 12345, 8));
      && TransportOffset(frame) == 38
      && Decode(h, frame).capturedLength == Decode(h, frame).actualLength
      && Decode(h, frame).transport == Some(UDPHeader(53, 12345, 8))
  {
    var u := UDPBytes(53, 12345, 8);
    assert u + [] == u;
    UDPFrameRoundTrip(h, dst, src, 6, 0, 64, srcIP, dstIP, 53, 12345, 8, []);
  }

  /**
    A transport header cut short by the capture is still decoded from the
    bytes that were captured: an ICMP marker with no byte after the IPv4
    header, and TCP from a segment captured only up to its flags octet.
   */
  lemma TruncatedTransport(h: CaptureHeader, dst: seq<uint8>, src: seq<uint8>, ihl: nat, id: uint16, ttl: uint8,
                           srcIP: seq<uint8>, dstIP: seq<uint8>, srcPort: uint16, dstPort: uint16,
                           seqNumber: uint32, ackNumber: uint32, flags: uint8)
    requires |dst| == 6 && |src| == 6 && 5 <= ihl < 16 && |srcIP| == 4 && |dstIP| == 4
    requires h.caplen as int == EthernetHeaderSize + ihl * 4
    ensures Decode(h, IPv4Frame(dst, src, ihl, id, ttl, ProtocolICMP, srcIP, dstIP, [])).transport
         == Some(ICMPHeader)
    ensures var segment := TCPBytes(srcPort, dstPort, seqNumber, ackNumber, flags)[..TCPBytesRead];
      var h' := h.(caplen := h.caplen + TCPBytesRead as uint32);
      Decode(h', IPv4Frame(dst, src, ihl, id, ttl, ProtocolTCP, srcIP, dstIP, segment)).transport
        == Some(TCPHeader(srcPort, dstPort, seqNumber, ackNumber, flags))
  {
    IPv4FrameDecode(h, dst, src, ihl, id, ttl, ProtocolICMP, srcIP, dstIP, []);
    var segment := TCPBytes(srcPort, dstPort, seqNumber, ackNumber, flags)[..TCPBytesRead];
    var h' := h.(caplen := h.caplen + TCPBytesRead as uint32);
    IPv4FrameDecode(h', dst, src, ihl, id, ttl, ProtocolTCP, srcIP, dstIP, segment);
    var full := TCPBytes(srcPort, dstPort, seqNumber, ackNumber, flags);
    TCPBytesDecode(srcPort, dstPort, seqNumber, ackNumber, flags, []);
    assert full + [] == full;
    assert forall i :: 0 <= i < TCPBytesRead ==> segment[i] == full[i];
  }

  /** An Ethernet frame whose EtherType is not 0x0800 (IPv6, ARP or any other) decodes to Ethernet only. */
  lemma NonIPv4StopsAtEthernet(h: CaptureHeader, dst: seq<uint8>, src: seq<uint8>, etherType: uint16, rest: seq<uint8>)
    requires |dst| == 6 && |src| == 6 && etherType != EtherTypeIPv4
    requires |EthernetBytes(dst, src, etherType) + rest| == h.caplen as int
    ensures var p := Decode(h, EthernetBytes(dst, src, etherType) + rest);
      && p.ethernet == Some(EthernetHeader(MacString(src), MacString(dst), etherType))
      && p.ip.None? && p.transport.None?
  {
    EthernetBytesDecode(dst, src, etherType, rest);
  }

  // ----- The version read as written -----

  /**
    The version as src/sniffer.cpp computes it: `ip_hl` is the 4-bit IHL
    bitfield (the low nibble of the first IPv4 octet), and shifting it right
    by four before masking with 0x0F leaves nothing.
   */
  function VersionAsWritten(frame: seq<uint8>): nat
    requires |frame| > EthernetHeaderSize
  {
    (IHL(frame) / 16) % 16
  }

  /**
    The version read as written is 0 for every frame, while the decoder
    above, reading the high nibble, finds 4 in every IPv4 header it builds.
   */
  lemma VersionAsWrittenIsZero(frame: seq<uint8>, ihl: nat, id: uint16, ttl: uint8, protocol: uint8,
                               srcIP: seq<uint8>, dstIP: seq<uint8>, rest: seq<uint8>)
    requires |frame| > EthernetHeaderSize
    requires 5 <= ihl < 16 && |srcIP| == 4 && |dstIP| == 4
    ensures VersionAsWritten(frame) == 0
    ensures var f := seq(14, _ => 0) + IPv4Bytes(ihl, id, ttl, protocol, srcIP, dstIP) + rest;
      VersionAsWritten(f) == 0 && (f[14] as int) / 16 == 4
  {
  }
}
