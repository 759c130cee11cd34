/** A neighbor seen on the local segment, and the identity key it is tracked under. */
module Devices {

  /** One neighbor-table record: `Device` in the source. Constructing a value
      of this datatype is `Device::new`. */
  datatype Device = Device(ipAddress: string, macAddress: string, interface: string)

  /** The identity the presence tracker keys its map on. */
  type Key = string

  /** `Device::key`: the IP address and the MAC address joined by a dash. */
  function KeyOf(d: Device): Key {
    d.ipAddress + "-" + d.macAddress
  }

  /** The key is the address, a dash and the MAC, in that order. */
  lemma KeyOfShape(d: Device)
    ensures var k := KeyOf(d);
      |k| == |d.ipAddress| + 1 + |d.macAddress| &&
      k[..|d.ipAddress|] == d.ipAddress && k[|d.ipAddress|] == '-' &&
      k[|d.ipAddress| + 1..] == d.macAddress
  {
  }

  /** The interface is not part of the identity: the same address pair seen on
      two interfaces is one device. */
  lemma KeyIgnoresInterface(d1: Device, d2: Device)
    requires d1.ipAddress == d2.ipAddress && d1.macAddress == d2.macAddress
    ensures KeyOf(d1) == KeyOf(d2)
  {
  }

  /** When no IP address holds a dash (as no textual IPv4 or IPv6 address
      does), equal keys mean equal address pairs. */
  lemma KeyDeterminesAddresses(d1: Device, d2: Device)
    requires '-' !in d1.ipAddress && '-' !in d2.ipAddress
    requires KeyOf(d1) == KeyOf(d2)
    ensures d1.ipAddress == d2.ipAddress && d1.macAddress == d2.macAddress
  {
    var n1, n2 := |d1.ipAddress|, |d2.ipAddress|;
    var k := KeyOf(d1);
    KeyOfShape(d1);
    KeyOfShape(d2);
    assert d1.ipAddress == k[..n1] == d2.ipAddress;
  }

  /** Without that condition the key is ambiguous: two different address pairs
      can produce the same key. */
  lemma KeyAmbiguous()
    ensures exists d1: Device, d2: Device :: KeyOf(d1) == KeyOf(d2) && d1.ipAddress != d2.ipAddress
  {
    var d1 := Device("fe80-1", "aa", "eth0");
    var d2 := Device("fe80", "1-aa", "eth0");
    assert KeyOf(d1) == "fe80-1-aa" == KeyOf(d2);
  }
}
