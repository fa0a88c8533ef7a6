/**
  The text renderers of src/packet.cpp: the EtherType classification, the
  TCP flag string, each header's toString, and the packet summary and
  detailed report. Every C++ function here fills a local ostringstream
  from fields it only reads, so each becomes a function that concatenates
  strings.
 */
module Render {
  import opened Wrappers
  import opened Bytes
  import opened Text
  import opened Headers

  // ----- EtherType classification (EthernetHeader::getEtherTypeString) -----

  const Unknown: string := "Desconhecido"

  function EtherTypeString(t: uint16): (s: string)
    ensures s == "IPv4" <==> t == 0x0800
    ensures s == "ARP" <==> t == 0x0806
    ensures s == "IPv6" <==> t == 0x86DD
    ensures s == Unknown <==> t !in {0x0800, 0x0806, 0x86DD}
  {
    if t == 0x0800 then "IPv4"
    else if t == 0x0806 then "ARP"
    else if t == 0x86DD then "IPv6"
    else Unknown
  }

  // ----- TCP flag string (TCPHeader::getFlagsString) -----

  const NoFlags: string := "NENHUMA"

  /**
    One of the six `if (hasX()) { ... }` steps: the accumulated text and
    the `first` flag go in, and the name is appended, preceded by a space
    unless it is the first name written.
   */
  function AppendFlag(acc: (string, bool), isSet: bool, name: string): (string, bool)
  {
    if !isSet then acc
    else ((if acc.1 then acc.0 else acc.0 + " ") + name, false)
  }

  function FlagsString(flags: uint8): string
  {
    var a := AppendFlag(("", true), FlagSet(flags, FIN), "FIN");
    var a := AppendFlag(a, FlagSet(flags, SYN), "SYN");
    var a := AppendFlag(a, FlagSet(flags, RST), "RST");
    var a := AppendFlag(a, FlagSet(flags, PSH), "PUSH");
    var a := AppendFlag(a, FlagSet(flags, ACK), "ACK");
    var a := AppendFlag(a, FlagSet(flags, URG), "URG");
    if a.1 then a.0 + NoFlags else a.0
  }

  function NameIf(isSet: bool, name: string): seq<string>
  {
    if isSet then [name] else []
  }

  /** Reference definition: the names of the set control bits, in FIN..URG order. */
  function FlagNames(flags: uint8): seq<string>
  {
    NameIf(FlagSet(flags, FIN), "FIN") + NameIf(FlagSet(flags, SYN), "SYN")
    + NameIf(FlagSet(flags, RST), "RST") + NameIf(FlagSet(flags, PSH), "PUSH")
    + NameIf(FlagSet(flags, ACK), "ACK") + NameIf(FlagSet(flags, URG), "URG")
  }

  /** Each flag name is listed exactly when its flag predicate holds. */
  lemma FlagNamesMembers(flags: uint8)
    ensures "FIN" in FlagNames(flags) <==> FlagSet(flags, FIN)
    ensures "SYN" in FlagNames(flags) <==> FlagSet(flags, SYN)
    ensures "RST" in FlagNames(flags) <==> FlagSet(flags, RST)
    ensures "PUSH" in FlagNames(flags) <==> FlagSet(flags, PSH)
    ensures "ACK" in FlagNames(flags) <==> FlagSet(flags, ACK)
    ensures "URG" in FlagNames(flags) <==> FlagSet(flags, URG)
  {
    var n1 := NameIf(FlagSet(flags, FIN), "FIN");
    var n2 := NameIf(FlagSet(flags, SYN), "SYN");
    var n3 := NameIf(FlagSet(flags, RST), "RST");
    var n4 := NameIf(FlagSet(flags, PSH), "PUSH");
    var n5 := NameIf(FlagSet(flags, ACK), "ACK");
    var n6 := NameIf(FlagSet(flags, URG), "URG");
    assert FlagNames(flags) == n1 + n2 + n3 + n4 + n5 + n6;
    assert AllNames == ["FIN", "SYN", "RST", "PUSH", "ACK", "URG"];
    NamesDistinct();
  }

  /** The six flag names are pairwise different. */
  lemma NamesDistinct()
    ensures forall i, j :: 0 <= i < j < |AllNames| ==> AllNames[i] != AllNames[j]
  {
    forall i, j | 0 <= i < j < |AllNames|
      ensures AllNames[i] != AllNames[j]
    {
      assert AllNames[i][0] != AllNames[j][0] || AllNames[i][1] != AllNames[j][1];
    }
  }

  /** No name is listed exactly when none of the six control bits is set. */
  lemma FlagNamesEmptyIff(flags: uint8)
    ensures FlagNames(flags) == [] <==> (flags as bv8) & ControlBits == 0
  {
    ControlBitsOfTests(flags as bv8);
  }

  /** The bit a flag name stands for; any other word stands for none. */
  function NameBit(name: string): bv8
  {
    if name == "FIN" then FIN
    else if name == "SYN" then SYN
    else if name == "RST" then RST
    else if name == "PUSH" then PSH
    else if name == "ACK" then ACK
    else if name == "URG" then URG
    else 0
  }

  function BitsOfNames(names: seq<string>): bv8
    decreases |names|
  {
    if names == [] then 0 else NameBit(names[0]) | BitsOfNames(names[1..])
  }

  /** Reads a flag string back: the bits named by its space-separated words. */
  function ParseFlags(s: string): bv8
  {
    BitsOfNames(Split(s, ' '))
  }

  /** The state AppendFlag keeps, for a list of names already written. */
  function Written(names: seq<string>): (string, bool)
  {
    if names == [] then ("", true) else (Join(names, ' '), false)
  }

  lemma AppendFlagWritten(names: seq<string>, isSet: bool, name: string)
    ensures AppendFlag(Written(names), isSet, name) == Written(names + NameIf(isSet, name))
  {
    if isSet && names != [] {
      JoinSnoc(names, name, ' ');
    }
    if !isSet {
      assert names + NameIf(isSet, name) == names;
    }
    if isSet && names == [] {
      assert names + NameIf(isSet, name) == [name];
      assert "" + name == name;
    }
  }

  /** The flag string is the set flags' names joined by single spaces, or NENHUMA when there are none. */
  lemma {:induction false} FlagsStringIsJoin(flags: uint8)
    ensures FlagsString(flags) ==
      (if FlagNames(flags) == [] then NoFlags else Join(FlagNames(flags), ' '))
  {
    var n1 := NameIf(FlagSet(flags, FIN), "FIN");
    var n2 := NameIf(FlagSet(flags, SYN), "SYN");
    var n3 := NameIf(FlagSet(flags, RST), "RST");
    var n4 := NameIf(FlagSet(flags, PSH), "PUSH");
    var n5 := NameIf(FlagSet(flags, ACK), "ACK");
    var n6 := NameIf(FlagSet(flags, URG), "URG");
    assert Written([]) == ("", true);
    AppendFlagWritten([], FlagSet(flags, FIN), "FIN");
    assert [] + n1 == n1;
    AppendFlagWritten(n1, FlagSet(flags, SYN), "SYN");
    AppendFlagWritten(n1 + n2, FlagSet(flags, RST), "RST");
    AppendFlagWritten(n1 + n2 + n3, FlagSet(flags, PSH), "PUSH");
    AppendFlagWritten(n1 + n2 + n3 + n4, FlagSet(flags, ACK), "ACK");
    AppendFlagWritten(n1 + n2 + n3 + n4 + n5, FlagSet(flags, URG), "URG");
    assert FlagNames(flags) == n1 + n2 + n3 + n4 + n5 + n6;
    assert NoFlags == "" + NoFlags;
  }

  lemma {:induction false} BitsOfNamesAppend(a: seq<string>, b: seq<string>)
    ensures BitsOfNames(a + b) == BitsOfNames(a) | BitsOfNames(b)
    decreases |a|
  {
    if a == [] {
      assert a + b == b;
    } else {
      assert (a + b)[1..] == a[1..] + b;
      BitsOfNamesAppend(a[1..], b);
    }
  }

  /** Every word FlagNames produces is one of the six flag names. */
  lemma FlagNamesAreNames(flags: uint8)
    ensures forall n :: n in FlagNames(flags) ==> n in AllNames
  {
    var n1 := NameIf(FlagSet(flags, FIN), "FIN");
    var n2 := NameIf(FlagSet(flags, SYN), "SYN");
    var n3 := NameIf(FlagSet(flags, RST), "RST");
    var n4 := NameIf(FlagSet(flags, PSH), "PUSH");
    var n5 := NameIf(FlagSet(flags, ACK), "ACK");
    var n6 := NameIf(FlagSet(flags, URG), "URG");
    assert FlagNames(flags) == n1 + n2 + n3 + n4 + n5 + n6;
  }

  const AllNames: seq<string> := ["FIN", "SYN", "RST", "PUSH", "ACK", "URG"]

  lemma FlagNamesAvoid(flags: uint8, c: char)
    requires c == ' ' || c == '\n'
    ensures forall i :: 0 <= i < |FlagNames(flags)| ==> c !in FlagNames(flags)[i]
  {
    FlagNamesAreNames(flags);
    var names := FlagNames(flags);
    forall i | 0 <= i < |names|
      ensures c !in names[i]
    {
      assert names[i] in names;
      NameAvoids(names[i], c);
    }
  }

  lemma NameAvoids(name: string, c: char)
    requires name in AllNames && (c == ' ' || c == '\n')
    ensures c !in name
  {
    var k :| 0 <= k < 6 && AllNames[k] == name;
  }

  /** Splitting the flag string on spaces gives the set flags' names in order, or the single word NENHUMA. */
  lemma FlagsStringWords(flags: uint8)
    ensures Split(FlagsString(flags), ' ') ==
      (if (flags as bv8) & ControlBits == 0 then [NoFlags] else FlagNames(flags))
  {
    FlagsStringIsJoin(flags);
    FlagNamesEmptyIff(flags);
    if FlagNames(flags) == [] {
      SplitJoin([NoFlags], ' ');
    } else {
      FlagNamesAvoid(flags, ' ');
      SplitJoin(FlagNames(flags), ' ');
    }
  }

  lemma BitsOfNameIf(isSet: bool, name: string)
    ensures BitsOfNames(NameIf(isSet, name)) == if isSet then NameBit(name) else 0
  {
    if isSet {
      assert NameIf(isSet, name)[1..] == [];
    }
  }

  /** The six control bits, each tested and put back, make up `b & ControlBits`. */
  lemma ControlBitsOfTests(b: bv8)
    ensures (if b & FIN != 0 then FIN else 0) | (if b & SYN != 0 then SYN else 0)
          | (if b & RST != 0 then RST else 0) | (if b & PSH != 0 then PSH else 0)
          | (if b & ACK != 0 then ACK else 0) | (if b & URG != 0 then URG else 0)
          == b & ControlBits
  {
  }

  /** The bits named by FlagNames are exactly the six control bits of the octet. */
  lemma BitsOfFlagNames(flags: uint8)
    ensures BitsOfNames(FlagNames(flags)) == (flags as bv8) & ControlBits
  {
    var n1 := NameIf(FlagSet(flags, FIN), "FIN");
    var n2 := NameIf(FlagSet(flags, SYN), "SYN");
    var n3 := NameIf(FlagSet(flags, RST), "RST");
    var n4 := NameIf(FlagSet(flags, PSH), "PUSH");
    var n5 := NameIf(FlagSet(flags, ACK), "ACK");
    var n6 := NameIf(FlagSet(flags, URG), "URG");
    BitsOfNameIf(FlagSet(flags, FIN), "FIN");
    BitsOfNameIf(FlagSet(flags, SYN), "SYN");
    BitsOfNameIf(FlagSet(flags, RST), "RST");
    BitsOfNameIf(FlagSet(flags, PSH), "PUSH");
    BitsOfNameIf(FlagSet(flags, ACK), "ACK");
    BitsOfNameIf(FlagSet(flags, URG), "URG");
    BitsOfNamesAppend(n1, n2);
    BitsOfNamesAppend(n1 + n2, n3);
    BitsOfNamesAppend(n1 + n2 + n3, n4);
    BitsOfNamesAppend(n1 + n2 + n3 + n4, n5);
    BitsOfNamesAppend(n1 + n2 + n3 + n4 + n5, n6);
    assert FlagNames(flags) == n1 + n2 + n3 + n4 + n5 + n6;
    NameBitValues();
    ControlBitsOfTests(flags as bv8);
  }

  lemma NameBitValues()
    ensures NameBit("FIN") == FIN && NameBit("SYN") == SYN && NameBit("RST") == RST
    ensures NameBit("PUSH") == PSH && NameBit("ACK") == ACK && NameBit("URG") == URG
    ensures NameBit(NoFlags) == 0
  {
  }

  /** Reading the flag string back gives exactly the six control bits of the flags octet. */
  lemma FlagsStringRoundTrip(flags: uint8)
    ensures ParseFlags(FlagsString(flags)) == (flags as bv8) & ControlBits
  {
    FlagsStringWords(flags);
    if (flags as bv8) & ControlBits == 0 {
      NameBitValues();
      assert BitsOfNames([NoFlags]) == NameBit(NoFlags) | BitsOfNames([]);
    } else {
      BitsOfFlagNames(flags);
    }
  }

  /** The flag string is NENHUMA exactly when none of the six control bits is set. */
  lemma FlagsStringNoneIff(flags: uint8)
    ensures FlagsString(flags) == NoFlags <==> (flags as bv8) & ControlBits == 0
  {
    FlagsStringRoundTrip(flags);
    if FlagsString(flags) == NoFlags {
      SplitJoin([NoFlags], ' ');
      assert BitsOfNames([NoFlags]) == NameBit(NoFlags) | BitsOfNames([]);
    }
    FlagsStringIsJoin(flags);
  }

  /** The flag string determines the six control bits: bits 0x40 and 0x80 are the only ones it loses. */
  lemma FlagsStringDeterminesControlBits(f: uint8, g: uint8)
    ensures FlagsString(f) == FlagsString(g) <==>
      (f as bv8) & ControlBits == (g as bv8) & ControlBits
  {
    FlagsStringRoundTrip(f);
    FlagsStringRoundTrip(g);
    if (f as bv8) & ControlBits == (g as bv8) & ControlBits {
      SameControlBitsSameTests(f, g);
    }
  }

  lemma SameControlBitsSameTests(f: uint8, g: uint8)
    requires (f as bv8) & ControlBits == (g as bv8) & ControlBits
    ensures FlagSet(f, FIN) == FlagSet(g, FIN) && FlagSet(f, SYN) == FlagSet(g, SYN)
    ensures FlagSet(f, RST) == FlagSet(g, RST) && FlagSet(f, PSH) == FlagSet(g, PSH)
    ensures FlagSet(f, ACK) == FlagSet(g, ACK) && FlagSet(f, URG) == FlagSet(g, URG)
  {
  }

  lemma FlagsStringExamples()
    ensures FlagsString(0x02) == "SYN"
    ensures FlagsString(0x12) == "SYN ACK"
    ensures FlagsString(0xC0) == NoFlags
  {
    FlagsStringOfSYN();
    FlagsStringOfSYNACK();
    FlagsStringNoneIff(0xC0);
  }

  lemma FlagsStringOfSYN()
    ensures FlagsString(0x02) == "SYN"
  {
    FlagsStringIsJoin(0x02);
    assert !FlagSet(0x02, FIN) && FlagSet(0x02, SYN) && !FlagSet(0x02, RST);
    assert !FlagSet(0x02, PSH) && !FlagSet(0x02, ACK) && !FlagSet(0x02, URG);
    assert FlagNames(0x02) == ["SYN"];
  }

  lemma FlagsStringOfSYNACK()
    ensures FlagsString(0x12) == "SYN ACK"
  {
    FlagsStringIsJoin(0x12);
    assert !FlagSet(0x12, FIN) && FlagSet(0x12, SYN) && !FlagSet(0x12, RST);
    assert !FlagSet(0x12, PSH) && FlagSet(0x12, ACK) && !FlagSet(0x12, URG);
    assert FlagNames(0x12) == ["SYN", "ACK"];
    assert Join(["SYN", "ACK"], ' ') == "SYN" + " " + "ACK";
  }

  // ----- toString of each header -----

  /** EthernetHeader::toString. */
  function EthernetText(e: EthernetHeader): string
  {
    "--- Ethernet Header ---\n"
    + "MAC Origem: " + e.srcMac + "\n"
    + "MAC Destino: " + e.dstMac + "\n"
    + "Tipo: 0x" + HexPad(e.etherType as nat, 4) + " (" + EtherTypeString(e.etherType) + ")"
  }

  /**
    IPv4Header::toString and IPv6Header::toString, which differ only in the
    version line: IPv4 prints its stored version number, IPv6 a literal 6.
   */
  function IPText(h: IPHeader): string
  {
    "--- IP Header ---\n"
    + "Versão: IPv" + VersionText(h) + "\n"
    + "IP Origem: " + h.srcIP + "\n"
    + "IP Destino: " + h.dstIP + "\n"
    + "TTL: " + Dec(h.ttl as nat) + "\n"
    + "Protocolo: " + Dec(h.protocol as nat)
  }

  /** What follows "IPv" on the version line of the IP text. */
  function VersionText(h: IPHeader): string
  {
    match h
    case IPv4Header(_, _, _, _, ver, _) => Dec(ver as nat)
    case IPv6Header(_, _, _, _) => "6"
  }

  /** TCPHeader::toString, UDPHeader::toString and ICMPHeader::toString. */
  function TransportText(t: TransportHeader): string
  {
    match t
    case TCPHeader(src, dst, sq, ack, flags) =>
      "--- TCP Header ---\n"
      + "Porta Origem: " + Dec(src as nat) + "\n"
      + "Porta Destino: " + Dec(dst as nat) + "\n"
      + "Sequence Number: " + Dec(sq as nat) + "\n"
      + "Acknowledgment Number: " + Dec(ack as nat) + "\n"
      + "Flags: " + FlagsString(flags)
    case UDPHeader(src, dst, len) =>
      "--- UDP Header ---\n"
      + "Porta Origem: " + Dec(src as nat) + "\n"
      + "Porta Destino: " + Dec(dst as nat) + "\n"
      + "Tamanho: " + Dec(len as nat) + " bytes"
    case ICMPHeader =>
      "--- ICMP Header ---\n"
      + "Protocolo: ICMP"
  }

  /** The Ethernet text ends with the type as exactly four hex digits that read back as the type, then its class. */
  lemma EthernetTextType(e: EthernetHeader)
    ensures var hex := HexPad(e.etherType as nat, 4);
      var tail := "0x" + hex + " (" + EtherTypeString(e.etherType) + ")";
      && |hex| == 4
      && ParseNum(hex, 16) == Some(e.etherType as nat)
      && |tail| <= |EthernetText(e)|
      && EthernetText(e)[|EthernetText(e)| - |tail|..] == tail
  {
    assert Pow(16, 4) == 0x1_0000;
    HexPadRoundTrip(e.etherType as nat, 4);
    var tail := "0x" + HexPad(e.etherType as nat, 4) + " (" + EtherTypeString(e.etherType) + ")";
    var head := "--- Ethernet Header ---\n" + "MAC Origem: " + e.srcMac + "\n"
      + "MAC Destino: " + e.dstMac + "\n" + "Tipo: ";
    assert EthernetText(e) == head + tail;
    assert (head + tail)[|head + tail| - |tail|..] == tail;
  }

  // ----- Reading the TCP and UDP texts back -----

  /** The number after `caption` on a line that starts with `caption`. */
  function FieldValue(line: string, caption: string): Option<nat>
  {
    if caption <= line then ParseNum(line[|caption|..], 10) else None
  }

  /** Reads the text of a TCP or UDP header back into a header. */
  function ReadTransportText(s: string): Option<TransportHeader>
  {
    var lines := Split(s, '\n');
    if |lines| == 6 && lines[0] == "--- TCP Header ---" then
      var src := FieldValue(lines[1], "Porta Origem: ");
      var dst := FieldValue(lines[2], "Porta Destino: ");
      var sq := FieldValue(lines[3], "Sequence Number: ");
      var ack := FieldValue(lines[4], "Acknowledgment Number: ");
      if src.Some? && src.value < 0x1_0000 && dst.Some? && dst.value < 0x1_0000
        && sq.Some? && sq.value < 0x1_0000_0000 && ack.Some? && ack.value < 0x1_0000_0000
        && "Flags: " <= lines[5]
      then
        Some(TCPHeader(src.value as uint16, dst.value as uint16, sq.value as uint32,
                       ack.value as uint32, ParseFlags(lines[5][7..]) as uint8))
      else None
    else if |lines| == 4 && lines[0] == "--- UDP Header ---" && |lines[3]| >= 6
      && " bytes" <= lines[3][|lines[3]| - 6 ..] then
      var src := FieldValue(lines[1], "Porta Origem: ");
      var dst := FieldValue(lines[2], "Porta Destino: ");
      var len := FieldValue(lines[3][..|lines[3]| - 6], "Tamanho: ");
      if src.Some? && src.value < 0x1_0000 && dst.Some? && dst.value < 0x1_0000
        && len.Some? && len.value < 0x1_0000
      then Some(UDPHeader(src.value as uint16, dst.value as uint16, len.value as uint16))
      else None
    else None
  }

  lemma DecNoControl(n: nat)
    ensures '\n' !in Dec(n) && ' ' !in Dec(n)
  {
    DigitsHaveNoSep(Dec(n), 10, '\n');
    DigitsHaveNoSep(Dec(n), 10, ' ');
  }

  lemma FlagsStringOneLine(flags: uint8)
    ensures '\n' !in FlagsString(flags)
  {
    FlagsStringIsJoin(flags);
    if FlagNames(flags) != [] {
      FlagNamesAvoid(flags, '\n');
      JoinAvoids(FlagNames(flags), ' ', '\n');
    }
  }

  lemma {:induction false} JoinAvoids(parts: seq<string>, sep: char, c: char)
    requires |parts| >= 1 && c != sep
    requires forall i :: 0 <= i < |parts| ==> c !in parts[i]
    ensures c !in Join(parts, sep)
    decreases |parts|
  {
    if |parts| > 1 {
      JoinAvoids(parts[1..], sep, c);
    }
  }

  lemma DecField(caption: string, n: nat)
    ensures FieldValue(caption + Dec(n), caption) == Some(n)
  {
    assert caption <= caption + Dec(n);
    assert (caption + Dec(n))[|caption|..] == Dec(n);
    DecRoundTrip(n);
  }

  lemma JoinSixLines(h: string, p1: string, v1: string, p2: string, v2: string, p3: string, v3: string,
                     p4: string, v4: string, p5: string, v5: string)
    ensures (h + "\n") + p1 + v1 + "\n" + p2 + v2 + "\n" + p3 + v3 + "\n" + p4 + v4 + "\n" + p5 + v5
         == Join([h, p1 + v1, p2 + v2, p3 + v3, p4 + v4, p5 + v5], '\n')
  {
    var x1, x2, x3, x4, x5 := p1 + v1, p2 + v2, p3 + v3, p4 + v4, p5 + v5;
    assert Join([x4, x5], '\n') == x4 + "\n" + x5 by {
      assert [x4, x5][1..] == [x5];
    }
    assert Join([x3, x4, x5], '\n') == x3 + "\n" + (x4 + "\n" + x5) by {
      assert [x3, x4, x5][1..] == [x4, x5];
    }
    assert Join([x2, x3, x4, x5], '\n') == x2 + "\n" + (x3 + "\n" + (x4 + "\n" + x5)) by {
      assert [x2, x3, x4, x5][1..] == [x3, x4, x5];
    }
    assert Join([x1, x2, x3, x4, x5], '\n') == x1 + "\n" + (x2 + "\n" + (x3 + "\n" + (x4 + "\n" + x5))) by {
      assert [x1, x2, x3, x4, x5][1..] == [x2, x3, x4, x5];
    }
    assert [h, x1, x2, x3, x4, x5][1..] == [x1, x2, x3, x4, x5];
  }

  lemma JoinFourLines(h: string, p1: string, v1: string, p2: string, v2: string, p3: string, v3: string,
                      s3: string)
    ensures (h + "\n") + p1 + v1 + "\n" + p2 + v2 + "\n" + p3 + v3 + s3
         == Join([h, p1 + v1, p2 + v2, p3 + v3 + s3], '\n')
  {
    var x1, x2, x3 := p1 + v1, p2 + v2, p3 + v3 + s3;
    assert Join([x2, x3], '\n') == x2 + "\n" + x3 by {
      assert [x2, x3][1..] == [x3];
    }
    assert Join([x1, x2, x3], '\n') == x1 + "\n" + (x2 + "\n" + x3) by {
      assert [x1, x2, x3][1..] == [x2, x3];
    }
    assert [h, x1, x2, x3][1..] == [x1, x2, x3];
  }

  /** The text of a TCP header reads back as the same header, its flags reduced to the six control bits. */
  lemma TCPTextRoundTrip(t: TransportHeader)
    requires t.TCPHeader?
    ensures ReadTransportText(TransportText(t)) ==
      Some(t.(flags := ((t.flags as bv8) & ControlBits) as uint8))
  {
    TCPTextLines(t);
    DecField("Porta Origem: ", t.srcPort as nat);
    DecField("Porta Destino: ", t.dstPort as nat);
    DecField("Sequence Number: ", t.seqNumber as nat);
    DecField("Acknowledgment Number: ", t.ackNumber as nat);
    FlagsStringRoundTrip(t.flags);
    ReadTCPLines(TransportText(t), Dec(t.srcPort as nat), Dec(t.dstPort as nat), Dec(t.seqNumber as nat),
                 Dec(t.ackNumber as nat), FlagsString(t.flags), t);
  }

  /** The lines of the TCP text, one per field. */
  function TCPLines(t: TransportHeader): seq<string>
    requires t.TCPHeader?
  {
    ["--- TCP Header ---", "Porta Origem: " + Dec(t.srcPort as nat), "Porta Destino: " + Dec(t.dstPort as nat),
     "Sequence Number: " + Dec(t.seqNumber as nat), "Acknowledgment Number: " + Dec(t.ackNumber as nat),
     "Flags: " + FlagsString(t.flags)]
  }

  lemma TCPTextLines(t: TransportHeader)
    requires t.TCPHeader?
    ensures Split(TransportText(t), '\n') == TCPLines(t)
  {
    var d1, d2 := Dec(t.srcPort as nat), Dec(t.dstPort as nat);
    var d3, d4 := Dec(t.seqNumber as nat), Dec(t.ackNumber as nat);
    var fs := FlagsString(t.flags);
    var h := "--- TCP Header ---";
    assert "--- TCP Header ---\n" == h + "\n";
    JoinSixLines(h, "Porta Origem: ", d1, "Porta Destino: ", d2, "Sequence Number: ", d3,
                 "Acknowledgment Number: ", d4, "Flags: ", fs);
    assert TransportText(t) == Join(TCPLines(t), '\n');
    TCPLinesOneLine(t);
    SplitJoin(TCPLines(t), '\n');
  }

  lemma TCPLinesOneLine(t: TransportHeader)
    requires t.TCPHeader?
    ensures forall i :: 0 <= i < |TCPLines(t)| ==> '\n' !in TCPLines(t)[i]
  {
    DecNoControl(t.srcPort as nat);
    DecNoControl(t.dstPort as nat);
    DecNoControl(t.seqNumber as nat);
    DecNoControl(t.ackNumber as nat);
    FlagsStringOneLine(t.flags);
    var lines := TCPLines(t);
    TCPCaptionsOneLine();
    NoNewlineAppend("Porta Origem: ", Dec(t.srcPort as nat));
    NoNewlineAppend("Porta Destino: ", Dec(t.dstPort as nat));
    NoNewlineAppend("Sequence Number: ", Dec(t.seqNumber as nat));
    NoNewlineAppend("Acknowledgment Number: ", Dec(t.ackNumber as nat));
    NoNewlineAppend("Flags: ", FlagsString(t.flags));
    assert '\n' !in lines[0];
  }

  lemma TCPCaptionsOneLine()
    ensures '\n' !in "--- TCP Header ---" && '\n' !in "Porta Origem: " && '\n' !in "Porta Destino: "
    ensures '\n' !in "Sequence Number: " && '\n' !in "Acknowledgment Number: " && '\n' !in "Flags: "
  {
    OneLine("--- TCP Header ---");
    OneLine("Porta Origem: ");
    OneLine("Porta Destino: ");
    OneLine("Sequence Number: ");
    OneLine("Acknowledgment Number: ");
    OneLine("Flags: ");
  }

  /** A line free of control characters has no line break. */
  lemma OneLine(s: string)
    requires forall i :: 0 <= i < |s| ==> ' ' <= s[i]
    ensures '\n' !in s
  {
  }

  lemma NoNewlineAppend(a: string, b: string)
    requires '\n' !in a && '\n' !in b
    ensures '\n' !in a + b
  {
  }

  lemma ReadTCPLines(s: string, d1: string, d2: string, d3: string, d4: string, fs: string,
                     t: TransportHeader)
    requires t.TCPHeader?
    requires Split(s, '\n') == ["--- TCP Header ---", "Porta Origem: " + d1, "Porta Destino: " + d2,
                                "Sequence Number: " + d3, "Acknowledgment Number: " + d4, "Flags: " + fs]
    requires FieldValue("Porta Origem: " + d1, "Porta Origem: ") == Some(t.srcPort as nat)
    requires FieldValue("Porta Destino: " + d2, "Porta Destino: ") == Some(t.dstPort as nat)
    requires FieldValue("Sequence Number: " + d3, "Sequence Number: ") == Some(t.seqNumber as nat)
    requires FieldValue("Acknowledgment Number: " + d4, "Acknowledgment Number: ") == Some(t.ackNumber as nat)
    ensures ReadTransportText(s) == Some(t.(flags := ParseFlags(fs) as uint8))
  {
    var l5 := "Flags: " + fs;
    assert "Flags: " <= l5 && l5[7..] == fs;
  }

  /** The text of a UDP header reads back as the same header. */
  lemma UDPTextRoundTrip(t: TransportHeader)
    requires t.UDPHeader?
    ensures ReadTransportText(TransportText(t)) == Some(t)
  {
    var d1, d2, d3 := Dec(t.srcPort as nat), Dec(t.dstPort as nat), Dec(t.length as nat);
    DecNoControl(t.srcPort as nat);
    DecNoControl(t.dstPort as nat);
    DecNoControl(t.length as nat);
    var h := "--- UDP Header ---";
    assert "--- UDP Header ---\n" == h + "\n";
    JoinFourLines(h, "Porta Origem: ", d1, "Porta Destino: ", d2, "Tamanho: ", d3, " bytes");
    var lines := [h, "Porta Origem: " + d1, "Porta Destino: " + d2, "Tamanho: " + d3 + " bytes"];
    assert TransportText(t) == Join(lines, '\n');
    SplitJoin(lines, '\n');
    DecField("Porta Origem: ", t.srcPort as nat);
    DecField("Porta Destino: ", t.dstPort as nat);
    DecField("Tamanho: ", t.length as nat);
    ReadUDPLines(TransportText(t), d1, d2, d3, t);
  }

  lemma ReadUDPLines(s: string, d1: string, d2: string, d3: string, t: TransportHeader)
    requires t.UDPHeader?
    requires Split(s, '\n') == ["--- UDP Header ---", "Porta Origem: " + d1, "Porta Destino: " + d2,
                                "Tamanho: " + d3 + " bytes"]
    requires FieldValue("Porta Origem: " + d1, "Porta Origem: ") == Some(t.srcPort as nat)
    requires FieldValue("Porta Destino: " + d2, "Porta Destino: ") == Some(t.dstPort as nat)
    requires FieldValue("Tamanho: " + d3, "Tamanho: ") == Some(t.length as nat)
    ensures ReadTransportText(s) == Some(t)
  {
    var l3 := "Tamanho: " + d3 + " bytes";
    assert l3[|l3| - 6..] == " bytes";
    assert l3[..|l3| - 6] == "Tamanho: " + d3;
  }

  // ----- Reading the IP text back -----

  /** What the IP text shows: the version number, both addresses, the TTL and the protocol number. */
  datatype IPReading = IPReading(version: nat, srcIP: string, dstIP: string, ttl: uint8, protocol: uint8)

  /** The text after `caption` on a line that starts with `caption`. */
  function TextValue(line: string, caption: string): Option<string>
  {
    if caption <= line then Some(line[|caption|..]) else None
  }

  /** Reads the text of an IPv4 or IPv6 header back into the fields it shows. */
  function ReadIPText(s: string): Option<IPReading>
  {
    var lines := Split(s, '\n');
    if |lines| == 6 && lines[0] == "--- IP Header ---" then
      var ver := FieldValue(lines[1], "Versão: IPv");
      var src := TextValue(lines[2], "IP Origem: ");
      var dst := TextValue(lines[3], "IP Destino: ");
      var ttl := FieldValue(lines[4], "TTL: ");
      var proto := FieldValue(lines[5], "Protocolo: ");
      if ver.Some? && src.Some? && dst.Some? && ttl.Some? && ttl.value < 0x100 && proto.Some? && proto.value < 0x100
      then Some(IPReading(ver.value, src.value, dst.value, ttl.value as uint8, proto.value as uint8))
      else None
    else None
  }

  /** The version number the IP text shows: the stored version for IPv4, 6 for IPv6. */
  function ShownVersion(h: IPHeader): nat
  {
    if h.IPv4Header? then h.version as nat else 6
  }

  /** The lines of the IP text, one per field. */
  function IPLines(h: IPHeader): seq<string>
  {
    ["--- IP Header ---", "Versão: IPv" + VersionText(h), "IP Origem: " + h.srcIP,
     "IP Destino: " + h.dstIP, "TTL: " + Dec(h.ttl as nat), "Protocolo: " + Dec(h.protocol as nat)]
  }

  lemma IPTextLines(h: IPHeader)
    requires '\n' !in h.srcIP && '\n' !in h.dstIP
    ensures Split(IPText(h), '\n') == IPLines(h)
  {
    IPTextIsJoin(h);
    IPLinesOneLine(h);
    SplitJoin(IPLines(h), '\n');
  }

  lemma IPTextIsJoin(h: IPHeader)
    ensures IPText(h) == Join(IPLines(h), '\n')
  {
    assert "--- IP Header ---\n" == "--- IP Header ---" + "\n";
    JoinSixLines("--- IP Header ---", "Versão: IPv", VersionText(h), "IP Origem: ", h.srcIP, "IP Destino: ", h.dstIP,
                 "TTL: ", Dec(h.ttl as nat), "Protocolo: ", Dec(h.protocol as nat));
  }

  lemma IPLinesOneLine(h: IPHeader)
    requires '\n' !in h.srcIP && '\n' !in h.dstIP
    ensures forall i :: 0 <= i < |IPLines(h)| ==> '\n' !in IPLines(h)[i]
  {
    ShownVersionText(h);
    DecNoControl(ShownVersion(h));
    DecNoControl(h.ttl as nat);
    DecNoControl(h.protocol as nat);
    OneLine("--- IP Header ---");
    OneLine("Versão: IPv");
    OneLine("IP Origem: ");
    OneLine("IP Destino: ");
    OneLine("TTL: ");
    OneLine("Protocolo: ");
    NoNewlineAppend("Versão: IPv", VersionText(h));
    NoNewlineAppend("IP Origem: ", h.srcIP);
    NoNewlineAppend("IP Destino: ", h.dstIP);
    NoNewlineAppend("TTL: ", Dec(h.ttl as nat));
    NoNewlineAppend("Protocolo: ", Dec(h.protocol as nat));
  }

  /** The version line shows the version number in decimal. */
  lemma ShownVersionText(h: IPHeader)
    ensures VersionText(h) == Dec(ShownVersion(h))
  {
    if h.IPv6Header? {
      assert Dec(6) == "6";
    }
  }

  lemma TextField(caption: string, v: string)
    ensures TextValue(caption + v, caption) == Some(v)
  {
    assert caption <= caption + v;
    assert (caption + v)[|caption|..] == v;
  }

  /**
    The text of an IP header whose addresses fit on one line reads back as
    the version it shows (the stored one for IPv4, 6 for IPv6), both
    addresses, the TTL and the protocol.
   */
  lemma IPTextRoundTrip(h: IPHeader)
    requires '\n' !in h.srcIP && '\n' !in h.dstIP
    ensures ReadIPText(IPText(h)) == Some(IPReading(ShownVersion(h), h.srcIP, h.dstIP, h.ttl, h.protocol))
  {
    IPTextLines(h);
    ShownVersionText(h);
    DecField("Versão: IPv", ShownVersion(h));
    TextField("IP Origem: ", h.srcIP);
    TextField("IP Destino: ", h.dstIP);
    DecField("TTL: ", h.ttl as nat);
    DecField("Protocolo: ", h.protocol as nat);
  }

  // ----- Packet::getSummary and Packet::getDetailedInfo -----

  const NoHeaders: string := "Pacote sem headers identificados"

  function Summary(p: PacketValue): string
  {
    if p.ip.Some? && p.transport.Some? then
      p.ip.value.srcIP + ":" + Dec(p.transport.value.SrcPort() as nat)
      + " -> "
      + p.ip.value.dstIP + ":" + Dec(p.transport.value.DstPort() as nat)
      + " [" + p.transport.value.ProtocolName() + "]"
    else if p.ip.Some? then
      p.ip.value.srcIP + " -> " + p.ip.value.dstIP
      + " [" + p.ip.value.VersionString() + "]"
    else if p.ethernet.Some? then
      p.ethernet.value.srcMac + " -> " + p.ethernet.value.dstMac
      + " [" + EtherTypeString(p.ethernet.value.etherType) + "]"
    else NoHeaders
  }

  /** The protocol the summary names in brackets: that of the highest layer the summary reports. */
  function SummaryTag(p: PacketValue): string
    requires p.ethernet.Some? || p.ip.Some?
  {
    if p.ip.Some? then
      if p.transport.Some? then p.transport.value.ProtocolName() else p.ip.value.VersionString()
    else EtherTypeString(p.ethernet.value.etherType)
  }

  /** The summary is the fixed no-headers text exactly when neither an Ethernet nor an IP layer is present. */
  lemma SummaryNoHeadersIff(p: PacketValue)
    ensures Summary(p) == NoHeaders <==> p.ethernet.None? && p.ip.None?
  {
    var s := Summary(p);
    if p.ethernet.Some? || p.ip.Some? {
      assert s[|s| - 1] == ']';
      assert NoHeaders[|NoHeaders| - 1] == 's';
    }
  }

  /** When some layer is reported, the summary ends with the reported protocol in brackets. */
  lemma SummaryEndsWithTag(p: PacketValue)
    requires p.ethernet.Some? || p.ip.Some?
    ensures var tail := " [" + SummaryTag(p) + "]";
      |tail| <= |Summary(p)| && Summary(p)[|Summary(p)| - |tail|..] == tail
  {
  }

  /** Without an IP layer a transport layer is not reported: the summary falls back to Ethernet. */
  lemma SummaryIgnoresTransportWithoutIP(p: PacketValue)
    requires p.ip.None?
    ensures Summary(p) == Summary(p.(transport := None))
  {
  }

  /** With IP and transport layers the summary starts with the source address and source port. */
  lemma SummaryStartsWithSource(p: PacketValue)
    requires p.ip.Some? && p.transport.Some?
    ensures var head := p.ip.value.srcIP + ":" + Dec(p.transport.value.SrcPort() as nat) + " -> ";
      |head| <= |Summary(p)| && Summary(p)[..|head|] == head
  {
  }

  const Banner: string := "\n========== PACOTE CAPTURADO ==========\n"
  const Footer: string := "======================================\n"

  /** The metadata block: timestamp, captured length and wire length. */
  function MetadataText(p: PacketValue): string
  {
    "Timestamp: " + IntString(p.timestamp.sec) + "." + IntString(p.timestamp.nsec) + "\n"
    + "Tamanho capturado: " + Dec(p.capturedLength as nat) + " bytes\n"
    + "Tamanho real: " + Dec(p.actualLength as nat) + " bytes\n"
  }

  /** A layer's section: its text on lines of its own, after a blank line; nothing for an absent layer. */
  function Section(present: bool, text: string): string
  {
    if present then "\n" + text + "\n" else ""
  }

  function DetailedInfo(p: PacketValue): string
  {
    Banner + MetadataText(p)
    + Section(p.ethernet.Some?, if p.ethernet.Some? then EthernetText(p.ethernet.value) else "")
    + Section(p.ip.Some?, if p.ip.Some? then IPText(p.ip.value) else "")
    + Section(p.transport.Some?, if p.transport.Some? then TransportText(p.transport.value) else "")
    + Footer
  }

  /** The toString texts of the layers present, bottom layer first. */
  function LayerTexts(p: PacketValue): (texts: seq<string>)
    ensures |texts| == (if p.ethernet.Some? then 1 else 0) + (if p.ip.Some? then 1 else 0)
                       + (if p.transport.Some? then 1 else 0)
  {
    (if p.ethernet.Some? then [EthernetText(p.ethernet.value)] else [])
    + (if p.ip.Some? then [IPText(p.ip.value)] else [])
    + (if p.transport.Some? then [TransportText(p.transport.value)] else [])
  }

  /**
    One text per layer present, in Ethernet, IP, transport order: the
    Ethernet text first when there is one, the IP text right after it, and
    the transport text last.
   */
  lemma LayerTextsOrder(p: PacketValue)
    ensures var texts := LayerTexts(p);
      && (p.ethernet.Some? ==> texts[0] == EthernetText(p.ethernet.value))
      && (p.ip.Some? ==> texts[if p.ethernet.Some? then 1 else 0] == IPText(p.ip.value))
      && (p.transport.Some? ==> texts[|texts| - 1] == TransportText(p.transport.value))
  {
  }

  /** The sections of a list of texts, one after the other. */
  function Sections(texts: seq<string>): string
    decreases |texts|
  {
    if texts == [] then "" else Section(true, texts[0]) + Sections(texts[1..])
  }

  lemma {:induction false} SectionsAppend(a: seq<string>, b: seq<string>)
    ensures Sections(a + b) == Sections(a) + Sections(b)
    decreases |a|
  {
    if a == [] {
      assert a + b == b;
    } else {
      assert (a + b)[1..] == a[1..] + b;
      SectionsAppend(a[1..], b);
    }
  }

  lemma SectionsOfOptional(present: bool, text: string)
    ensures Sections(if present then [text] else []) == Section(present, text)
  {
    if present {
      assert [text][1..] == [];
    }
  }

  /**
    The detailed report is the banner and metadata, then one section for
    each layer present (and none for an absent one), Ethernet first, then
    IP, then transport, then the closing line.
   */
  lemma DetailedInfoLayout(p: PacketValue)
    ensures DetailedInfo(p) == Banner + MetadataText(p) + Sections(LayerTexts(p)) + Footer
  {
    var et := if p.ethernet.Some? then EthernetText(p.ethernet.value) else "";
    var it := if p.ip.Some? then IPText(p.ip.value) else "";
    var tt := if p.transport.Some? then TransportText(p.transport.value) else "";
    SectionsOfThree(p.ethernet.Some?, et, p.ip.Some?, it, p.transport.Some?, tt);
    AppendRegroup(Banner + MetadataText(p), Section(p.ethernet.Some?, et), Section(p.ip.Some?, it),
                  Section(p.transport.Some?, tt), Footer);
  }

  /**
    Adding an IP layer to a packet inserts exactly one section into its
    report, between everything up to the Ethernet section and the transport
    section with the closing line: a blank line, the IP text, a line break.
   */
  lemma DetailedInfoIPSection(p: PacketValue)
    requires p.ip.Some?
    ensures var before := Banner + MetadataText(p)
                          + Section(p.ethernet.Some?, if p.ethernet.Some? then EthernetText(p.ethernet.value) else "");
      var after := Section(p.transport.Some?, if p.transport.Some? then TransportText(p.transport.value) else "")
                   + Footer;
      && DetailedInfo(p.(ip := None)) == before + after
      && DetailedInfo(p) == before + ("\n" + IPText(p.ip.value) + "\n") + after
  {
    var q := p.(ip := None);
    var a := Banner + MetadataText(p);
    assert MetadataText(q) == MetadataText(p);
    var e := Section(p.ethernet.Some?, if p.ethernet.Some? then EthernetText(p.ethernet.value) else "");
    var t := Section(p.transport.Some?, if p.transport.Some? then TransportText(p.transport.value) else "");
    var i := "\n" + IPText(p.ip.value) + "\n";
    assert DetailedInfo(q) == a + e + "" + t + Footer;
    assert DetailedInfo(p) == a + e + i + t + Footer;
    AppendRegroup2(a + e, t, Footer);
    AppendRegroup2(a + e + i, t, Footer);
  }

  lemma AppendRegroup2(a: string, x: string, b: string)
    ensures a + "" + x + b == a + (x + b) && a + x + b == a + (x + b)
  {
  }

  lemma AppendRegroup(a: string, x: string, y: string, z: string, b: string)
    ensures a + x + y + z + b == a + (x + y + z) + b
  {
  }

  lemma SectionsOfThree(pe: bool, et: string, pi: bool, it: string, pt: bool, tt: string)
    ensures Sections((if pe then [et] else []) + (if pi then [it] else []) + (if pt then [tt] else []))
         == Section(pe, et) + Section(pi, it) + Section(pt, tt)
  {
    var e := if pe then [et] else [];
    var i := if pi then [it] else [];
    var t := if pt then [tt] else [];
    SectionsAppend(e + i, t);
    SectionsAppend(e, i);
    SectionsOfOptional(pe, et);
    SectionsOfOptional(pi, it);
    SectionsOfOptional(pt, tt);
  }
}
