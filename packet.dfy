/**
  The Packet class of src/packet.hpp: a mutable container whose setters
  overwrite one field in place. A null unique_ptr layer is None; a setter
  given a null pointer clears its layer, as `std::move` of a null pointer
  does. The contents of the object at any time are the PacketValue that
  Value() returns, and the renderers of src/packet.cpp read that value.
 */
module PacketObject {
  import opened Wrappers
  import opened Bytes
  import opened Headers
  import Render

  class Packet {
    var timestamp: Timestamp
    var capturedLength: uint32
    var actualLength: uint32
    var ethernetHeader: Option<EthernetHeader>
    var ipHeader: Option<IPHeader>
    var transportHeader: Option<TransportHeader>
    var rawData: seq<uint8>

    /** Everything the object holds, as one value. */
    function Value(): PacketValue
      reads this
    {
      PacketValue(timestamp, capturedLength, actualLength, ethernetHeader, ipHeader, transportHeader, rawData)
    }

    /** A fresh packet: zero lengths, a zero timestamp, no layers and no raw bytes. */
    constructor ()
      ensures Value() == PacketValue(Timestamp(0, 0), 0, 0, None, None, None, [])
      ensures !HasEthernetHeader() && !HasIPHeader() && !HasTransportHeader()
    {
      timestamp := Timestamp(0, 0);
      capturedLength := 0;
      actualLength := 0;
      ethernetHeader := None;
      ipHeader := None;
      transportHeader := None;
      rawData := [];
    }

    method SetEthernetHeader(header: Option<EthernetHeader>)
      modifies this
      ensures Value() == old(Value()).(ethernet := header)
      ensures GetEthernetHeader() == header && (HasEthernetHeader() <==> header.Some?)
    {
      ethernetHeader := header;
    }

    method SetIPHeader(header: Option<IPHeader>)
      modifies this
      ensures Value() == old(Value()).(ip := header)
      ensures GetIPHeader() == header && (HasIPHeader() <==> header.Some?)
    {
      ipHeader := header;
    }

    method SetTransportHeader(header: Option<TransportHeader>)
      modifies this
      ensures Value() == old(Value()).(transport := header)
      ensures GetTransportHeader() == header && (HasTransportHeader() <==> header.Some?)
    {
      transportHeader := header;
    }

    method SetTimestamp(ts: Timestamp)
      modifies this
      ensures Value() == old(Value()).(timestamp := ts)
    {
      timestamp := ts;
    }

    method SetCapturedLength(len: uint32)
      modifies this
      ensures Value() == old(Value()).(capturedLength := len)
    {
      capturedLength := len;
    }

    method SetActualLength(len: uint32)
      modifies this
      ensures Value() == old(Value()).(actualLength := len)
    {
      actualLength := len;
    }

    /** `rawData.assign(data, data + len)`: the caller's buffer must hold at least `len` bytes. */
    method SetRawData(data: seq<uint8>, len: uint32)
      requires len as int <= |data|
      modifies this
      ensures Value() == old(Value()).(rawData := data[..len])
      ensures |rawData| == len as int
      ensures forall i :: 0 <= i < len as int ==> rawData[i] == data[i]
    {
      rawData := data[..len];
    }

    function GetEthernetHeader(): Option<EthernetHeader> reads this { ethernetHeader }
    function GetIPHeader(): Option<IPHeader> reads this { ipHeader }
    function GetTransportHeader(): Option<TransportHeader> reads this { transportHeader }
    function GetTimestamp(): Timestamp reads this { timestamp }
    function GetCapturedLength(): uint32 reads this { capturedLength }
    function GetActualLength(): uint32 reads this { actualLength }
    function GetRawData(): seq<uint8> reads this { rawData }

    predicate HasEthernetHeader() reads this { ethernetHeader.Some? }
    predicate HasIPHeader() reads this { ipHeader.Some? }
    predicate HasTransportHeader() reads this { transportHeader.Some? }

    /** getSummary, on the object's current contents. */
    function Summary(): string
      reads this
    {
      Render.Summary(Value())
    }

    /** getDetailedInfo, on the object's current contents. */
    function DetailedInfo(): string
      reads this
    {
      Render.DetailedInfo(Value())
    }
  }
}
