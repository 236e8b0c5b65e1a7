/**
 * `subnet_calculator` of ip_calculator.py: validates a `A.B.C.D/P` address and, when it is
 * accepted, derives every figure the calculator prints from it. The printed lines are
 * gathered into one report instead.
 */
module Subnet {
  import opened Text
  import opened Binary
  import opened IpCalculator
  import opened IpProperties

  /** The seven figures `subnet_calculator` prints, in the order it prints them. */
  datatype Report = Report(
    netAddress: Views,
    netClass: Option<NetClass>,
    netMask: Views,
    broadcastAddress: Views,
    minHost: Views,
    maxHost: Views,
    hostsNumber: int)

  /**
   * The report of an address with octets ip and prefix p, stated over octet values: the
   * network and broadcast addresses, the class of the network's first octet, the octets of the
   * /p mask, the minimum host of the network, the broadcast with its (odd) last octet
   * decremented, and 2^(32 - p) - 2 hosts.
   */
  function Expected(ip: seq<nat>, p: nat): (r: Report)
    requires IsOctets(ip) && p <= 32
  {
    var net, broadcast := NetOctets(ip, p), BroadcastOctets(ip, p);
    BroadcastLastOctetOdd(ip, p);
    Report(Render(net), ClassOfFirstOctet(net[0]), Render(MaskOctets(p)), Render(broadcast),
           MinHostOfNetwork(net), Render(broadcast[3 := broadcast[3] - 1]), Pow2(32 - p) - 2)
  }

  /** The fields of `Expected`, one by one. */
  lemma ExpectedFields(ip: seq<nat>, p: nat)
    requires IsOctets(ip) && p <= 32
    ensures BroadcastOctets(ip, p)[3] >= 1
    ensures Expected(ip, p) ==
      Report(Render(NetOctets(ip, p)), ClassOfFirstOctet(NetOctets(ip, p)[0]), Render(MaskOctets(p)),
             Render(BroadcastOctets(ip, p)), MinHostOfNetwork(NetOctets(ip, p)),
             Render(BroadcastOctets(ip, p)[3 := BroadcastOctets(ip, p)[3] - 1]), Pow2(32 - p) - 2)
  {
    BroadcastLastOctetOdd(ip, p);
  }

  /**
   * The string functions `subnet_calculator` calls, applied to the views of the network and
   * broadcast addresses, give the report of the octets.
   */
  lemma Pipeline(ip: seq<nat>, p: nat)
    requires IsOctets(ip) && p <= 32
    ensures Split(Render(NetOctets(ip, p)).bin, '.')[0] != []
    ensures Over(Render(NetOctets(ip, p)).bin, {'0', '1', '.'})
    ensures Over(Render(BroadcastOctets(ip, p)).bin, {'0', '1', '.'})
    ensures IsBinary(TakeLast(Render(BroadcastOctets(ip, p)).bin, 8))
    ensures FromBinary(TakeLast(Render(BroadcastOctets(ip, p)).bin, 8)) >= 1
    ensures Expected(ip, p) ==
      Report(Render(NetOctets(ip, p)), GetNetClass(Render(NetOctets(ip, p)).bin), GetNetMask(p),
             Render(BroadcastOctets(ip, p)), GetMinHost(Render(NetOctets(ip, p)).bin, p),
             GetMaxHost(Render(BroadcastOctets(ip, p)).bin), GetHostsNumber(GetNetMask(p).bin))
  {
    NetClassOfAddress(NetOctets(ip, p));
    NetworkMinHost(ip, p);
    MinHostOfOctets(NetOctets(ip, p));
    NetMaskOfOctets(p);
    BroadcastMaxHost(ip, p);
    HostsNumberOfMask(p);
    ExpectedFields(ip, p);
  }

  /**
   * `subnet_calculator(address)`: nothing for an address `validate` rejects, and the report of
   * its octets and prefix for one it accepts.
   */
  method SubnetCalculator(address: string) returns (r: Option<Report>)
    requires HasPrefixField(address)
    ensures r.None? <==> !IsCidr(address)
    ensures r.Some? ==> IsCidr(address) && r.value == Expected(Octets(address), MaskShort(address))
  {
    var addressCorrect := Validate(address);
    if !addressCorrect {
      return None;
    }
    var ip := Octets(address);
    var maskShort := MaskShort(address);

    var netAddress := GetNetAddress(address);
    var broadcastAddress := GetBroadcastAddress(address);
    Pipeline(ip, maskShort);
    var netClass := GetNetClass(netAddress.bin);
    var netMask := GetNetMask(maskShort);
    var minHost := GetMinHost(netAddress.bin, maskShort);
    var maxHost := GetMaxHost(broadcastAddress.bin);
    var hostsNumber := GetHostsNumber(netMask.bin);
    r := Some(Report(netAddress, netClass, netMask, broadcastAddress, minHost, maxHost, hostsNumber));
  }
}
