# PacketSniffer core in Dafny

This project models the decoding and packet-model core of PacketSniffer, a
libpcap packet sniffer written in C++ with a Qt front end. It covers three
parts:

- **Frame decoding** (`Sniffer::processPacket`). A captured link-layer
  frame is decoded into its layers:
  - the Ethernet II header;
  - for EtherType 0x0800, the IPv4 header (section 3.1 of RFC 791);
  - the TCP header (section 3.1 of RFC 793), the UDP header (RFC 768) or an
    ICMP marker (RFC 792). The transport header starts at offset
    14 + IHL×4, and the IPv4 protocol number picks which one it is.

  The C++ code prints each field as it reads it. Here `Decoder.Decode` is a
  function that returns the decoded packet instead.
- **The packet model and its renderers** (src/packet.hpp, src/packet.cpp):
  - the header classes, modelled as datatypes;
  - the six TCP flag predicates;
  - the mutable `Packet` container, modelled as a class whose setters
    change one field;
  - EtherType classification and the flag string;
  - each header's `toString`, the one-line summary and the detailed
    report.
- **Device selection** (`Sniffer::selectDeviceInteractive`): the numbered
  menu of capture devices, and the mapping from a typed number to the
  device name.

Modules, one per file:

- `Bytes`: uint8/16/32, and network-order reads and writes.
- `Text`: decimal and zero-padded hex rendering, split and join, each with
  its parser.
- `Headers`: the header and packet value types, and the flag predicates.
- `Render`: everything in src/packet.cpp.
- `Decoder`: the frame decoder, a frame builder that is its partner, and
  the round-trip lemmas between the two.
- `PacketObject`: the `Packet` class.
- `Devices`: the device menu and the choice mapping.
- `Wrappers`: `Option`.

These rendered values have a parser beside them, and the lemmas prove
that reading back what was rendered gives the value:
- MAC and dotted-quad addresses;
- the hex EtherType;
- the IP, TCP and UDP texts;
- the flag string, up to the two bits it does not show;
- the menu numbers.

The ICMP text, the metadata block, the summary and the detailed report
have no parser. Lemmas state instead how they are laid out.

Decoding a frame built from given fields gives those fields back, for any
IHL from 5 to 15 and any payload.

## Model

| member | source | states |
|---|---|---|
| Bytes.BE16 | src/sniffer.cpp:79 | the big-endian value of two octets: dividing by 256 gives the first octet and the remainder gives the second |
| Bytes.Octets16 | src/sniffer.cpp:79 | writing a 16-bit value as two octets, which read back as that value |
| Bytes.BE32 | src/sniffer.cpp:110-111 | the big-endian value of four octets: its high and low halves are the big-endian values of the first and last two octets |
| Bytes.Octets32 | src/sniffer.cpp:110-111 | writing a 32-bit value as four octets, which read back as that value |
| Bytes.BE16Octets | src/sniffer.cpp:79 | reading two octets and writing the value back gives the same octets |
| Bytes.BE32Octets | src/sniffer.cpp:110-111 | reading four octets and writing the value back gives the same octets |
| Text.HexPadRoundTrip | src/sniffer.cpp:66-69 | `hex << setw(w) << setfill('0')` of a value below 16^w has exactly w digits, and they parse back to the value |
| Text.DecRoundTrip | src/packet.cpp:71-74 | a number printed in decimal parses back to the same number |
| Text.DigitsNoLeadingZero | src/packet.cpp:71-74 | a printed number starts with '0' iff it is 0, so there is no leading zero |
| Headers.IPHeader.VersionString | src/packet.hpp:67-78 | "IPv4" exactly for IPv4 headers and "IPv6" exactly for IPv6 headers |
| Headers.TransportHeader.ProtocolName | src/packet.hpp:125-150 | "TCP", "UDP" and "ICMP", each exactly for its own header kind |
| Headers.ICMPPortsZero | src/packet.hpp:148 | an ICMP header reports source and destination ports 0 |
| Headers.FlagPredicatesAreBits | src/packet.hpp:117-122 | hasFIN, hasSYN, hasRST, hasPUSH, hasACK and hasURG each hold exactly when bit 0x01, 0x02, 0x04, 0x08, 0x10 or 0x20 is set |
| Headers.FlagPredicatesIgnoreHighBits | src/packet.hpp:117-122 | two flag octets that agree on the low six bits agree on all six predicates, so bits 0x40 and 0x80 affect none of them |
| Render.EtherTypeString | src/packet.cpp:8-15 | "IPv4" iff 0x0800, "ARP" iff 0x0806, "IPv6" iff 0x86DD, and "Desconhecido" iff the type is none of those |
| Render.FlagNamesMembers | src/packet.cpp:56-61 | each of FIN, SYN, RST, PUSH, ACK and URG is listed iff its flag predicate holds |
| Render.FlagNamesEmptyIff | src/packet.cpp:56-63 | no flag name is listed iff flags & 0x3F is 0 |
| Render.FlagsStringIsJoin | src/packet.cpp:52-66 | the `first`-threaded flag string is the set flags' names joined by single spaces (so no leading or trailing space), or "NENHUMA" when none is set |
| Render.FlagsStringWords | src/packet.cpp:56-63 | splitting the flag string on spaces gives the set flags' names in FIN, SYN, RST, PUSH, ACK, URG order, or the single word "NENHUMA" |
| Render.FlagsStringRoundTrip | src/packet.cpp:56-61 | reading the names in the flag string back as bits gives exactly flags & 0x3F |
| Render.FlagsStringNoneIff | src/packet.cpp:63 | the flag string is "NENHUMA" iff flags & 0x3F is 0 |
| Render.FlagsStringDeterminesControlBits | src/packet.cpp:56-63 | two flag octets have the same flag string iff they agree on flags & 0x3F |
| Render.FlagsStringExamples | src/packet.cpp:52-66 | 0x02 gives "SYN", 0x12 gives "SYN ACK" and 0xC0 gives "NENHUMA" |
| Render.EthernetTextType | src/packet.cpp:22-23 | the Ethernet text ends with "0x", then the type as exactly four lower-case hex digits that parse back to the type, then its classification in parentheses |
| Render.TCPTextRoundTrip | src/packet.cpp:68-77 | the TCP text reads back as the same header, with its flags reduced to the six control bits |
| Render.UDPTextRoundTrip | src/packet.cpp:80-87 | the UDP text reads back as the same header |
| Render.IPTextRoundTrip | src/packet.cpp:28-49 | the IPv4 or IPv6 text of a header whose addresses hold no line break reads back as the version it shows (the stored one for IPv4, 6 for IPv6), both addresses, the TTL and the protocol |
| Render.SummaryNoHeadersIff | src/packet.cpp:98-118 | the summary is "Pacote sem headers identificados" iff there is neither an Ethernet nor an IP layer |
| Render.SummaryEndsWithTag | src/packet.cpp:102-112 | when some layer is reported, the summary ends with the reported protocol in brackets: the transport name with IP and transport, the IP version with IP only, and the EtherType class otherwise |
| Render.SummaryIgnoresTransportWithoutIP | src/packet.cpp:102-112 | without an IP layer, removing the transport layer does not change the summary |
| Render.SummaryStartsWithSource | src/packet.cpp:102-106 | with IP and transport layers, the summary starts with "srcIP:srcPort -> " |
| Render.LayerTextsOrder | src/packet.cpp:130-143 | one text per present layer, in order: the Ethernet text first when present, the IP text right after it, the transport text last |
| Render.DetailedInfoLayout | src/packet.cpp:120-148 | the report is the banner, then the metadata, then one section per present layer in that order, then the footer |
| Render.DetailedInfoIPSection | src/packet.cpp:135-138 | adding an IP layer inserts exactly a blank line, the IP text and a line break into the report, after the Ethernet section and before the transport section and footer |
| Decoder.MacRoundTrip | src/sniffer.cpp:65-77 | a rendered MAC address is 17 characters long and reads back as its six octets |
| Decoder.QuadRoundTrip | src/sniffer.cpp:91-92 | a dotted-quad address reads back as its four octets |
| Decoder.DecodeEthernet | src/sniffer.cpp:62-79 | an Ethernet header is decoded iff the frame holds its 14 bytes |
| Decoder.DecodeIPv4 | src/sniffer.cpp:87-95 | an IPv4 header is decoded iff the 20 fixed bytes after the Ethernet header were captured |
| Decoder.DecodeTransport | src/sniffer.cpp:102-138 | a TCP layer is decoded iff the protocol is 6 and the 14 bytes read up to the flags octet were captured; UDP iff 17 and the 6 bytes up to the length were captured; ICMP iff 1, whatever was captured; no other protocol gives a layer |
| Decoder.Decode | src/sniffer.cpp:55-153 | metadata and raw bytes pass through; Ethernet is present iff 14 bytes were captured; IP is present iff the EtherType is 0x0800 and 34 bytes were captured; a transport layer only ever sits on IPv4 |
| Decoder.ShortFrameHasNoLayers | src/sniffer.cpp:62 | a frame shorter than an Ethernet header has no layers |
| Decoder.EthernetFields | src/sniffer.cpp:62-79 | the decoded destination and source MACs read back as bytes 0-5 and 6-11, and the EtherType is written as bytes 12-13 |
| Decoder.IPv4Fields | src/sniffer.cpp:87-95 | the decoded addresses read back as frame bytes 26-29 and 30-33; TTL is byte 22 and protocol is byte 23; version is the high nibble of byte 14; identification is written as bytes 18-19 |
| Decoder.TransportDispatch | src/sniffer.cpp:99-138 | over IPv4, TCP iff protocol 6 and 14 bytes at 14+IHL×4; UDP iff protocol 17 and 6 bytes there; ICMP iff protocol 1; any other protocol gives no layer |
| Decoder.TCPFields | src/sniffer.cpp:105-120 | relative to 14+IHL×4: ports are big-endian at +0 and +2, sequence and acknowledgment numbers at +4 and +8, and flags are byte +13 |
| Decoder.UDPFields | src/sniffer.cpp:126-131 | relative to 14+IHL×4: ports at +0 and +2, and the length at +4, not compared with the captured length |
| Decoder.DecodeTransportShift | src/sniffer.cpp:105 | the transport header depends only on the bytes from its offset on |
| Decoder.TCPBytesDecode | src/sniffer.cpp:108-120 | an encoded TCP header decodes to the fields it was built from, whatever follows it |
| Decoder.UDPBytesDecode | src/sniffer.cpp:129-131 | an encoded UDP header decodes to the fields it was built from, whatever follows it |
| Decoder.EthernetBytesDecode | src/sniffer.cpp:62-79 | an encoded Ethernet header decodes to the MACs and EtherType it was built from, and what follows it starts at byte 14 |
| Decoder.IPv4BytesFields | src/sniffer.cpp:87-99 | an encoded IPv4 header puts version and IHL in byte 0, identification in 4-5, TTL in 8, protocol in 9 and addresses in 12-19; what follows starts at IHL×4 |
| Decoder.IPv4BytesDecode | src/sniffer.cpp:87-105 | after a 14-byte Ethernet header, an encoded IPv4 header of any IHL decodes to its fields with version 4, and the transport offset is the first byte after it |
| Decoder.IPv4FrameDecode | src/sniffer.cpp:83-105 | an Ethernet/IPv4 frame with any IHL from 5 to 15 decodes to its MACs, addresses, TTL, protocol, identification and version 4; its transport layer is decoded from exactly the bytes after the IHL×4-byte header |
| Decoder.TCPFrameRoundTrip | src/sniffer.cpp:83-120 | decoding an encoded Ethernet/IPv4/TCP frame gives back every field of every layer, with the raw bytes and the metadata |
| Decoder.UDPFrameRoundTrip | src/sniffer.cpp:83-131 | decoding an encoded Ethernet/IPv4/UDP frame gives back every field of every layer, with the raw bytes and the metadata |
| Decoder.UDPBehindIPOptions | src/sniffer.cpp:99-131 | behind a 24-byte IPv4 header (IHL 6), a UDP datagram from port 53 to port 12345 with length 8 is found at offset 38 with those ports and that length |
| Decoder.TruncatedTransport | src/sniffer.cpp:102-134 | an ICMP layer is reported with no byte captured after the IPv4 header, and a TCP segment captured only up to its flags octet decodes to all its fields |
| Decoder.NonIPv4StopsAtEthernet | src/sniffer.cpp:140-150 | with any EtherType other than 0x0800 (IPv6, ARP or unknown), decoding stops after Ethernet |
| Decoder.VersionAsWrittenIsZero | src/sniffer.cpp:90 | the version computed as written is 0 for every frame, while an IPv4 header's high nibble is 4 |
| PacketObject.Packet.constructor | src/packet.hpp:172-176 | a new packet has zero lengths, a zero timestamp, no layers and no raw bytes, so no has* holds |
| PacketObject.Packet.SetEthernetHeader | src/packet.hpp:179-182 | replaces the Ethernet layer and changes nothing else; afterwards the getter returns it and hasEthernetHeader holds iff it is non-null |
| PacketObject.Packet.SetIPHeader | src/packet.hpp:184-187 | replaces the IP layer and changes nothing else; afterwards the getter returns it and hasIPHeader holds iff it is non-null |
| PacketObject.Packet.SetTransportHeader | src/packet.hpp:189-192 | replaces the transport layer and changes nothing else; afterwards the getter returns it and hasTransportHeader holds iff it is non-null |
| PacketObject.Packet.SetTimestamp | src/packet.hpp:194 | replaces the timestamp and changes nothing else |
| PacketObject.Packet.SetCapturedLength | src/packet.hpp:195 | replaces the captured length and changes nothing else |
| PacketObject.Packet.SetActualLength | src/packet.hpp:196 | replaces the wire length and changes nothing else |
| PacketObject.Packet.SetRawData | src/packet.hpp:197-199 | the raw bytes become exactly the first len bytes of the buffer, and nothing else changes |
| Devices.SelectDevice | src/sniffer.cpp:223-233 | an empty list gives "" whatever is typed; otherwise 0 gives "any", 1..n give the name of device choice-1, and anything else gives "" |
| Devices.MenuChoiceSelects | src/sniffer.cpp:200-214 | the number shown on a device's menu line reads back as i+1 and selects that device; the "[0]" line's number selects "any" |
| Devices.SelectDeviceRange | src/sniffer.cpp:223-233 | every selection is "any", "" or the name of a listed device |

## Left out

- libpcap: opening, looping over and closing a capture, and `pcap_findalldevs`. The device list is a parameter of `SelectDevice`, and the frame and its capture header are parameters of `Decode`.
- The capture thread, the stop flag, `captureLoop` and the Qt signal `packetCaptured`. These are concurrency and UI.
- The GUI and the style sheets.
- All console output and `cin >> choice`. The decoder returns the fields it would print, and the typed choice is an integer parameter. The numbered device menu lines are kept, as `Devices.MenuLine`, because they are what gives `SelectDevice`'s numbers their meaning: `MenuChoiceSelects` proves that the number on a line selects that line's device.
- `buildPacket`, `parseEthernetHeader`, `parseIPHeader` and `parseTransportHeader`. They are declared in src/sniffer.hpp but have no definition.
- IPv6 and ARP payloads. The C++ code does not decode them; those frames stop after Ethernet. IPv6Header is modelled as a value, because src/packet.hpp has it.
- Decoder.Decode: bounds checks are an addition. The C++ code reads offsets 0, 14 and 14+IHL×4 without comparing them with the captured length. Here a layer is absent when a byte the C++ code reads from it was not captured, and so is every layer above it. Those bytes are 14 for Ethernet, 20 for IPv4, 14 for TCP (up to the flags octet), 6 for UDP (up to the length) and none for ICMP. What the C++ code prints from bytes beyond the capture is not modelled.
- Decoder.Decode: an IHL below 5 is not rejected, as in the C++ code. The transport offset is still 14+IHL×4, which then lies inside the fixed IPv4 header.
- Decoder.DecodeIPv4: the version is the high nibble of the first IPv4 octet (RFC 791), not the expression at src/sniffer.cpp:90. That expression always gives 0 (see Findings).
- Decoder.DecodeIPv4: the identification field (IPv4 bytes 4-5) fills IPv4Header's identification. The C++ decoder never reads it.
- Render.MetadataText: the timestamp is printed from the seconds and nanoseconds it holds. The C++ decoder prints `tv_usec` of the pcap header; converting that to a timespec is not modelled, and `Decode` passes the timestamp through as given.
- Render.TCPTextRoundTrip: the flags come back reduced to the six control bits, because the flag string does not show bits 0x40 and 0x80.
- PacketObject.Packet: each getter returns the stored value, not a pointer, so the model does not capture aliasing between a returned pointer and the object.

## Findings

| source | as written | input that shows it | evidently intended | confidence | as-written member | corrected member |
|---|---|---|---|---|---|---|
| src/sniffer.cpp:90 | the version is `(ip_hl >> 4) & 0x0F`, where `ip_hl` is the 4-bit IHL bitfield, so the shift leaves 0 | any IPv4 frame, e.g. first IPv4 octet 0x45: as written it gives 0, while the header says version 4 | the high nibble of the first IPv4 octet (`ip_v`), 4 for IPv4 | high; not executed | Decoder.VersionAsWrittenIsZero | Decoder.IPv4FrameDecode |
