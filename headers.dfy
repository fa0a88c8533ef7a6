/**
  The header classes of src/packet.hpp as values. The C++ classes are
  immutable once constructed (every member is a const getter), and the IP
  and transport hierarchies are closed, so each hierarchy becomes one
  datatype with a constructor per subclass; a constructor stores its
  arguments and the datatype's destructors are the getters.
 */
module Headers {
  import opened Bytes
  import opened Wrappers

  /** EthernetHeader: both addresses already rendered as text, and the EtherType. */
  datatype EthernetHeader = EthernetHeader(srcMac: string, dstMac: string, etherType: uint16)

  /** IPHeader and its two subclasses, IPv4Header and IPv6Header. */
  datatype IPHeader =
    | IPv4Header(srcIP: string, dstIP: string, protocol: uint8, ttl: uint8,
                 version: uint8, identification: uint16)
    | IPv6Header(srcIP: string, dstIP: string, protocol: uint8, ttl: uint8)
  {
    /** getVersionString, one answer per subclass. */
    function VersionString(): (s: string)
      ensures s == "IPv4" <==> IPv4Header?
      ensures s == "IPv6" <==> IPv6Header?
    {
      match this
      case IPv4Header(_, _, _, _, _, _) => "IPv4"
      case IPv6Header(_, _, _, _) => "IPv6"
    }
  }

  /** The TCP control bits as masks over the flags octet. */
  const FIN: bv8 := 0x01
  const SYN: bv8 := 0x02
  const RST: bv8 := 0x04
  const PSH: bv8 := 0x08
  const ACK: bv8 := 0x10
  const URG: bv8 := 0x20

  /** The six control bits together. */
  const ControlBits: bv8 := 0x3F

  /** `flags & mask` converted to bool, as the C++ predicates return it. */
  predicate FlagSet(flags: uint8, mask: bv8)
  {
    (flags as bv8) & mask != 0
  }

  /** TransportHeader and its three subclasses. ICMPHeader has no fields of its own. */
  datatype TransportHeader =
    | TCPHeader(srcPort: uint16, dstPort: uint16, seqNumber: uint32,
                ackNumber: uint32, flags: uint8)
    | UDPHeader(srcPort: uint16, dstPort: uint16, length: uint16)
    | ICMPHeader
  {
    /** getSrcPort; the ICMP constructor passes 0 to the base class. */
    function SrcPort(): uint16
    {
      if ICMPHeader? then 0 else srcPort
    }

    /** getDstPort; the ICMP constructor passes 0 to the base class. */
    function DstPort(): uint16
    {
      if ICMPHeader? then 0 else dstPort
    }

    /** getProtocolName, one answer per subclass. */
    function ProtocolName(): (s: string)
      ensures s == "TCP" <==> TCPHeader?
      ensures s == "UDP" <==> UDPHeader?
      ensures s == "ICMP" <==> ICMPHeader?
    {
      match this
      case TCPHeader(_, _, _, _, _) => "TCP"
      case UDPHeader(_, _, _) => "UDP"
      case ICMPHeader => "ICMP"
    }

    predicate HasFIN() requires TCPHeader? { FlagSet(flags, FIN) }
    predicate HasSYN() requires TCPHeader? { FlagSet(flags, SYN) }
    predicate HasRST() requires TCPHeader? { FlagSet(flags, RST) }
    predicate HasPUSH() requires TCPHeader? { FlagSet(flags, PSH) }
    predicate HasACK() requires TCPHeader? { FlagSet(flags, ACK) }
    predicate HasURG() requires TCPHeader? { FlagSet(flags, URG) }
  }

  /** A timespec: seconds and nanoseconds, as the C++ struct holds them. */
  datatype Timestamp = Timestamp(sec: int, nsec: int)

  /**
    The contents of a Packet object: its metadata, its three optional layers
    (a null unique_ptr is None) and its raw bytes.
   */
  datatype PacketValue = PacketValue(
    timestamp: Timestamp,
    capturedLength: uint32,
    actualLength: uint32,
    ethernet: Option<EthernetHeader>,
    ip: Option<IPHeader>,
    transport: Option<TransportHeader>,
    rawData: seq<uint8>)

  /** The two ports of an ICMP header are always 0. */
  lemma ICMPPortsZero(h: TransportHeader)
    requires h.ICMPHeader?
    ensures h.SrcPort() == 0 && h.DstPort() == 0
  {
  }

  /**
    Each flag predicate tests exactly its own bit: it holds iff that bit is
    set, whatever the other seven bits are. In particular bits 0x40 and 0x80
    (ECE and CWR in later RFCs) affect none of them.
   */
  lemma FlagPredicatesAreBits(h: TransportHeader)
    requires h.TCPHeader?
    ensures h.HasFIN() <==> (h.flags as bv8) & 0x01 == 0x01
    ensures h.HasSYN() <==> (h.flags as bv8) & 0x02 == 0x02
    ensures h.HasRST() <==> (h.flags as bv8) & 0x04 == 0x04
    ensures h.HasPUSH() <==> (h.flags as bv8) & 0x08 == 0x08
    ensures h.HasACK() <==> (h.flags as bv8) & 0x10 == 0x10
    ensures h.HasURG() <==> (h.flags as bv8) & 0x20 == 0x20
  {
  }

  /** Two TCP headers whose flags agree on the six control bits agree on every flag predicate. */
  lemma FlagPredicatesIgnoreHighBits(h: TransportHeader, g: TransportHeader)
    requires h.TCPHeader? && g.TCPHeader?
    requires (h.flags as bv8) & ControlBits == (g.flags as bv8) & ControlBits
    ensures h.HasFIN() == g.HasFIN() && h.HasSYN() == g.HasSYN()
    ensures h.HasRST() == g.HasRST() && h.HasPUSH() == g.HasPUSH()
    ensures h.HasACK() == g.HasACK() && h.HasURG() == g.HasURG()
  {
  }
}
