/**
  Interactive device selection in Sniffer::selectDeviceInteractive
  (src/sniffer.cpp): the menu of capture devices, one numbered line per
  device plus the "[0]" line for every device at once, and the mapping from
  the number the user types to the device name handed to the capture.
 */
module Devices {
  import opened Wrappers
  import opened Text

  /** NetworkDevice of src/sniffer.hpp. */
  datatype NetworkDevice = NetworkDevice(name: string, description: string, hasAddress: bool)

  /** The pseudo-device that captures on every interface. */
  const AnyDevice: string := "any"

  /** The description listAvailableDevices records when libpcap reports none. */
  const NoDescription: string := "Sem descrição"

  /** What an empty list or an out-of-range choice yields. */
  const NoDevice: string := ""

  /**
    The device chosen by `choice`: an empty list yields no device whatever
    is typed; otherwise 0 is every device, 1 to n name the devices in list
    order, and any other number yields no device.
   */
  function SelectDevice(devices: seq<NetworkDevice>, choice: int): (name: string)
    ensures devices == [] ==> name == NoDevice
    ensures devices != [] && choice == 0 ==> name == AnyDevice
    ensures devices != [] && 1 <= choice <= |devices| ==> name == devices[choice - 1].name
    ensures choice < 0 || choice > |devices| ==> name == NoDevice
  {
    if devices == [] then NoDevice
    else if choice == 0 then AnyDevice
    else if 0 < choice <= |devices| then devices[choice - 1].name
    else NoDevice
  }

  /**
    The menu line for the device at list position `i`: its number i+1 in
    brackets and its name, then its description unless it is empty or the
    placeholder, then a note when the device has an address configured.
   */
  function MenuLine(i: nat, d: NetworkDevice): string
  {
    "[" + Dec(i + 1) + "]" + DeviceText(d)
  }

  /** What follows the bracketed number on a device's menu line. */
  function DeviceText(d: NetworkDevice): string
  {
    " " + d.name
      + (if d.description != [] && d.description != NoDescription then " - " + d.description else "")
      + (if d.hasAddress then " (com IP configurado)" else "")
  }

  /** The line offering every device at once. */
  const AnyLine: string := "[0]" + AnyText
  const AnyText: string := " Capturar de todos os dispositivos (any)"

  /** The number shown between the leading '[' and the first ']' of a menu line. */
  function MenuNumber(line: string): Option<nat>
  {
    if |line| >= 1 && line[0] == '[' then ParseNum(Split(line[1..], ']')[0], 10) else None
  }

  /** The number a line starts with, in brackets, is read back from it whatever follows. */
  lemma MenuNumberOf(n: nat, rest: string)
    ensures MenuNumber("[" + Dec(n) + "]" + rest) == Some(n)
  {
    var line := "[" + Dec(n) + "]" + rest;
    assert line[1..] == Dec(n) + ("]" + rest);
    DigitsHaveNoSep(Dec(n), 10, ']');
    SplitPrefix(Dec(n), "]" + rest, ']');
    assert Split("]" + rest, ']')[0] == [];
    assert Dec(n) + [] == Dec(n);
    DecRoundTrip(n);
  }

  /**
    Typing the number shown on a device's menu line selects that device, and
    typing the number of the "[0]" line selects every device.
   */
  lemma MenuChoiceSelects(devices: seq<NetworkDevice>, i: nat)
    requires i < |devices|
    ensures MenuNumber(MenuLine(i, devices[i])) == Some(i + 1)
    ensures SelectDevice(devices, i + 1) == devices[i].name
    ensures MenuNumber(AnyLine) == Some(0) && SelectDevice(devices, 0) == AnyDevice
  {
    MenuNumberOf(i + 1, DeviceText(devices[i]));
    assert "[" + Dec(0) + "]" == "[0]";
    MenuNumberOf(0, AnyText);
  }

  /** Every name SelectDevice yields is "any", no device, or the name of a listed device. */
  lemma SelectDeviceRange(devices: seq<NetworkDevice>, choice: int)
    ensures var name := SelectDevice(devices, choice);
      name == AnyDevice || name == NoDevice || exists k :: 0 <= k < |devices| && devices[k].name == name
  {
    if devices != [] && 1 <= choice <= |devices| {
      assert devices[choice - 1].name == SelectDevice(devices, choice);
    }
  }
}
