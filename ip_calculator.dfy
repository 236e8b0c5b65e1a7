/**
 * The IPv4 subnet calculator of ip_calculator.py. Addresses travel as text: the input is
 * `A.B.C.D/P`, and every derived address is a pair of dotted strings, one of 8-bit binary
 * octets and one of decimal octets. The functions here follow the source's string
 * manipulation step by step, quirks included; ip_properties.dfy states what they compute.
 */
module IpCalculator {
  import opened Text
  import opened Binary

  datatype Option<T> = None | Some(value: T)

  /** The dictionaries `{'bin': ..., 'dec': ...}` the address functions return. */
  datatype Views = Views(bin: string, dec: string)

  /** The classes `get_net_class` can name. */
  datatype NetClass = A | B | C | D | E

  /** Four octet values, each in 0..255. */
  predicate IsOctets(o: seq<nat>) {
    |o| == 4 && forall i :: 0 <= i < 4 ==> o[i] < 256
  }

  lemma Pow2Of8()
    ensures Pow2(8) == 256
  {
    assert Pow2(4) == 16;
  }

  // ---------------------------------------------------------------- validate

  /** `ip = address.split('/')` has a second field, and `int(ip[1])` reads it as a decimal number. */
  predicate HasPrefixField(address: string) {
    var ip := Split(address, '/');
    |ip| >= 2 && IsDigits(ip[1])
  }

  /** `address.split('/')[0].split('.')`. */
  function AddressParts(address: string): (parts: seq<string>) {
    Split(Split(address, '/')[0], '.')
  }

  /** `int(address.split('/')[1])`, the mask length. */
  function MaskShort(address: string): (maskShort: nat)
    requires HasPrefixField(address)
  {
    DecimalValue(Split(address, '/')[1])
  }

  /** One address part passes both per-part checks of `validate`. */
  predicate PartInRange(part: string) {
    IsDigits(part) && DecimalValue(part) <= 255
  }

  /**
   * The addresses `validate` accepts: four dot-separated parts, each numeric and in
   * [0, 255], and a mask length in [0, 32].
   */
  predicate IsCidr(address: string) {
    HasPrefixField(address) &&
    var parts := AddressParts(address);
    |parts| == 4 &&
    (forall i :: 0 <= i < |parts| ==> PartInRange(parts[i])) &&
    MaskShort(address) <= 32
  }

  /** `validate`: runs every check, clearing the flag on each failure, and returns the flag. */
  method Validate(address: string) returns (addressCorrect: bool)
    requires HasPrefixField(address)
    ensures addressCorrect <==> IsCidr(address)
  {
    var ip := Split(address, '/');
    addressCorrect := true;
    var ipParts := Split(ip[0], '.');
    for i := 0 to |ipParts|
      invariant addressCorrect <==> forall k :: 0 <= k < i ==> PartInRange(ipParts[k])
    {
      if !IsDigits(ipParts[i]) {
        addressCorrect := false;
      } else if !(0 <= DecimalValue(ipParts[i]) <= 255) {
        addressCorrect := false;
      }
    }
    if |ipParts| != 4 {
      addressCorrect := false;
    }
    var maskShort := DecimalValue(ip[1]);
    if maskShort < 0 || maskShort > 32 {
      addressCorrect := false;
    }
  }

  /** `[int(part) for part in address.split('/')[0].split('.')]` on an address `validate` accepts. */
  function Octets(address: string): (o: seq<nat>)
    requires IsCidr(address)
    ensures IsOctets(o)
  {
    var parts := AddressParts(address);
    seq(4, i requires 0 <= i < 4 => DecimalValue(parts[i]))
  }

  // ------------------------------------------- get_net_address, get_broadcast_address

  /** `math.ceil(mask_short / 8)`: the 1-based number of the octet the mask ends in (0 for /0). */
  function OctetNumber(maskShort: nat): (octetNumber: nat) {
    (maskShort + 7) / 8
  }

  /** `octet_number - 1` as a Python list index into four octets: -1 is the last octet. */
  function OctetIndex(maskShort: nat): (index: nat)
    requires maskShort <= 32
    ensures index < 4
  {
    if OctetNumber(maskShort) == 0 then 3 else OctetNumber(maskShort) - 1
  }

  /** The value the host octets are overwritten with: 0 for the network, 255 for the broadcast. */
  function HostFill(pad: char): (fill: nat) {
    if pad == '0' then 0 else 255
  }

  /**
   * `octet_net_part_dec`: the octet with its first netBytes bits kept and the other
   * 8 - netBytes bits set to pad, i.e. the octet rounded down to a multiple of
   * 2^(8 - netBytes), plus 2^(8 - netBytes) - 1 when the pad is '1'.
   */
  function NetPart(octet: nat, netBytes: nat, pad: char): (v: nat)
    requires octet < 256 && netBytes < 8 && (pad == '0' || pad == '1')
    ensures v < 256
  {
    NetPartBound(octet, netBytes, pad);
    (octet / Pow2(8 - netBytes)) * Pow2(8 - netBytes) + (if pad == '1' then Pow2(8 - netBytes) - 1 else 0)
  }

  /** The filled block of an octet is again an octet. */
  lemma NetPartBound(octet: nat, netBytes: nat, pad: char)
    requires octet < 256 && netBytes < 8 && (pad == '0' || pad == '1')
    ensures 0 <= (octet / Pow2(8 - netBytes)) * Pow2(8 - netBytes)
    ensures (octet / Pow2(8 - netBytes)) * Pow2(8 - netBytes) + (if pad == '1' then Pow2(8 - netBytes) - 1 else 0) < 256
  {
    Pow2Of8();
    Pow2Add(netBytes, 8 - netBytes);
    FilledBlockBound(octet, Pow2(8 - netBytes), Pow2(netBytes));
  }

  /**
   * The source's string steps for `octet_net_part_dec`: render the octet with
   * `dec2binary(..., 8)`, keep its first netBytes characters, right-pad with pad to 8 and
   * read back in base 2. The result is the octet's block of width 2^(8 - netBytes), filled
   * with pad.
   */
  lemma NetPartString(octet: nat, netBytes: nat, pad: char)
    requires octet < 256 && netBytes < 8 && (pad == '0' || pad == '1')
    ensures |ToBinary(octet, 8)| == 8
    ensures IsBinary(PadRight(ToBinary(octet, 8)[..netBytes], 8, pad))
    ensures FromBinary(PadRight(ToBinary(octet, 8)[..netBytes], 8, pad)) ==
      (octet / Pow2(8 - netBytes)) * Pow2(8 - netBytes) + (if pad == '1' then Pow2(8 - netBytes) - 1 else 0)
    ensures FromBinary(PadRight(ToBinary(octet, 8)[..netBytes], 8, pad)) < 256
  {
    NetPartHead(octet, netBytes);
    PadRightValue(ToBinary(octet, 8)[..netBytes], 8, pad);
    NetPartBound(octet, netBytes, pad);
  }

  /** The first netBytes characters of the 8-bit rendering read as the octet divided by 2^(8 - netBytes). */
  lemma NetPartHead(octet: nat, netBytes: nat)
    requires octet < 256 && netBytes < 8
    ensures |ToBinary(octet, 8)| == 8
    ensures IsBinary(ToBinary(octet, 8)[..netBytes]) && |ToBinary(octet, 8)[..netBytes]| == netBytes
    ensures FromBinary(ToBinary(octet, 8)[..netBytes]) == octet / Pow2(8 - netBytes)
  {
    Pow2Of8();
    ToBinaryValue(octet, 8);
    var bits := ToBinary(octet, 8);
    SplitValue(bits, netBytes);
    DivOfBlock(octet, FromBinary(bits[..netBytes]), FromBinary(bits[netBytes..]), Pow2(8 - netBytes));
  }

  /**
   * Octet i of what `get_net_address` (pad '0') and `get_broadcast_address` (pad '1') build:
   * the octets from octet_number on become the host fill, the octet at index
   * octet_number - 1 becomes its net part, the others are copied.
   */
  function OverwrittenOctet(ip: seq<nat>, maskShort: nat, pad: char, i: nat): (v: nat)
    requires IsOctets(ip) && maskShort <= 32 && (pad == '0' || pad == '1') && i < 4
    ensures v < 256
  {
    if i >= OctetNumber(maskShort) then HostFill(pad)
    else if i == OctetIndex(maskShort) then NetPart(ip[i], maskShort % 8, pad)
    else ip[i]
  }

  function Overwritten(ip: seq<nat>, maskShort: nat, pad: char): (o: seq<nat>)
    requires IsOctets(ip) && maskShort <= 32 && (pad == '0' || pad == '1')
    ensures IsOctets(o)
  {
    seq(4, i requires 0 <= i < 4 => OverwrittenOctet(ip, maskShort, pad, i))
  }

  function NetOctets(ip: seq<nat>, maskShort: nat): (o: seq<nat>)
    requires IsOctets(ip) && maskShort <= 32
    ensures IsOctets(o)
  {
    Overwritten(ip, maskShort, '0')
  }

  function BroadcastOctets(ip: seq<nat>, maskShort: nat): (o: seq<nat>)
    requires IsOctets(ip) && maskShort <= 32
    ensures IsOctets(o)
  {
    Overwritten(ip, maskShort, '1')
  }

  /**
   * Four octets that hold the host fill from octet_number on, the source's string-built
   * boundary octet at index octet_number - 1 and the input elsewhere are `Overwritten`.
   */
  lemma OverwrittenByLoop(ip: seq<nat>, maskShort: nat, pad: char, o: seq<nat>)
    requires IsOctets(ip) && maskShort <= 32 && (pad == '0' || pad == '1') && |o| == 4
    requires forall k :: 0 <= k < 4 ==>
      o[k] == (if OctetNumber(maskShort) <= k then HostFill(pad)
               else if k == OctetIndex(maskShort) then FromBinary(PadRight(ToBinary(ip[k], 8)[..maskShort % 8], 8, pad))
               else ip[k])
    ensures o == Overwritten(ip, maskShort, pad)
  {
    var index := OctetIndex(maskShort);
    NetPartString(ip[index], maskShort % 8, pad);
    forall k | 0 <= k < 4
      ensures o[k] == Overwritten(ip, maskShort, pad)[k]
    {
    }
  }

  /** The views of four octets: each octet through `dec2binary(part, 8)` and through `str(part)`. */
  function Render(o: seq<nat>): (r: Views)
    requires IsOctets(o)
  {
    Views(Join(seq(4, i requires 0 <= i < 4 => ToBinary(o[i], 8)), '.'),
          Join(seq(4, i requires 0 <= i < 4 => ToDecimal(o[i])), '.'))
  }

  /** `get_net_address`: clone the octets, overwrite the boundary octet, zero the host octets. */
  method GetNetAddress(address: string) returns (r: Views)
    requires IsCidr(address)
    ensures r == Render(NetOctets(Octets(address), MaskShort(address)))
  {
    var ipDecList := Octets(address);
    var maskShort := MaskShort(address);
    var netBytes := maskShort % 8;
    var octetNumber := (maskShort + 7) / 8;
    var index := if octetNumber == 0 then 3 else octetNumber - 1;
    Pow2Of8();
    var octetBin := Dec2Binary(ipDecList[index], 8);
    var octetNetPartBin := PadRight(octetBin[..netBytes], 8, '0');
    var octetNetPartDec := FromBinary(octetNetPartBin);
    var netAddress := ipDecList;
    netAddress := netAddress[index := octetNetPartDec];
    for i := octetNumber to 4
      invariant |netAddress| == 4
      invariant forall k :: 0 <= k < 4 ==>
        netAddress[k] == (if octetNumber <= k < i then 0 else if k == index then octetNetPartDec else ipDecList[k])
    {
      netAddress := netAddress[i := 0];
    }
    assert netAddress == NetOctets(ipDecList, maskShort) by {
      OverwrittenByLoop(ipDecList, maskShort, '0', netAddress);
    }
    r := Render(netAddress);
  }

  /** `get_broadcast_address`: as `get_net_address`, padding with '1' and filling with 255. */
  method GetBroadcastAddress(address: string) returns (r: Views)
    requires IsCidr(address)
    ensures r == Render(BroadcastOctets(Octets(address), MaskShort(address)))
  {
    var ipDecList := Octets(address);
    var maskShort := MaskShort(address);
    var netBytes := maskShort % 8;
    var octetNumber := (maskShort + 7) / 8;
    var index := if octetNumber == 0 then 3 else octetNumber - 1;
    Pow2Of8();
    var octetBin := Dec2Binary(ipDecList[index], 8);
    var octetNetPartBin := PadRight(octetBin[..netBytes], 8, '1');
    var octetNetPartDec := FromBinary(octetNetPartBin);
    var broadcastAddress := ipDecList;
    broadcastAddress := broadcastAddress[index := octetNetPartDec];
    for i := octetNumber to 4
      invariant |broadcastAddress| == 4
      invariant forall k :: 0 <= k < 4 ==>
        broadcastAddress[k] == (if octetNumber <= k < i then 255 else if k == index then octetNetPartDec else ipDecList[k])
    {
      broadcastAddress := broadcastAddress[i := 255];
    }
    assert broadcastAddress == BroadcastOctets(ipDecList, maskShort) by {
      OverwrittenByLoop(ipDecList, maskShort, '1', broadcastAddress);
    }
    r := Render(broadcastAddress);
  }

  // ---------------------------------------------------------------- get_net_class

  /**
   * `get_net_class`: tests the leading bits of the first binary octet in the source's order.
   * The '01' test comes after the '0' test, so class B is never named.
   */
  function GetNetClass(netAddressBin: string): (c: Option<NetClass>)
    requires Split(netAddressBin, '.')[0] != []
    ensures c != Some(B)
  {
    var firstOctet := Split(netAddressBin, '.')[0];
    if firstOctet[0] == '0' then Some(A)
    else if Take(firstOctet, 2) == "01" then Some(B)
    else if Take(firstOctet, 3) == "110" then Some(C)
    else if Take(firstOctet, 4) == "1110" then Some(D)
    else if Take(firstOctet, 4) == "1111" then Some(E)
    else None
  }

  // ---------------------------------------------------------------- get_net_mask

  /** Views of four binary parts: joined with dots, and each read with `int(part, 2)` and rendered with `str`. */
  function BinaryViews(b0: string, b1: string, b2: string, b3: string): (r: Views)
    requires IsBinary(b0) && IsBinary(b1) && IsBinary(b2) && IsBinary(b3)
  {
    Views(Join([b0, b1, b2, b3], '.'),
          Join([ToDecimal(FromBinary(b0)), ToDecimal(FromBinary(b1)),
                ToDecimal(FromBinary(b2)), ToDecimal(FromBinary(b3))], '.'))
  }

  /** `mask_bin = f'{net_mask_short * "1":0<32}'`. */
  function MaskBits(netMaskShort: nat): (s: string)
    ensures |s| >= 32 && IsBinary(s)
  {
    PadRight(Repeat('1', netMaskShort), 32, '0')
  }

  /** `get_net_mask`: the mask string cut into four 8-character octets. */
  function GetNetMask(netMaskShort: nat): (r: Views) {
    var maskBin := MaskBits(netMaskShort);
    BinarySlices(maskBin);
    BinaryViews(maskBin[0..8], maskBin[8..16], maskBin[16..24], maskBin[24..32])
  }

  // ---------------------------------------------------------- get_min_host, get_max_host

  /**
   * `get_min_host`: the dotless address cut after mask_short + 1 bits and right-padded with
   * '0' to 32; the last octet's bit string is read with `int(...)` in base 10, incremented,
   * and rendered again with `dec2binary(..., 8)`.
   */
  function GetMinHost(netAddressBin: string, maskShort: nat): (r: Views)
    requires Over(netAddressBin, {'0', '1', '.'})
  {
    MinHostViews(MinHostBits(netAddressBin, maskShort))
  }

  /** The `min_host_bin` of `get_min_host`: the dotless address cut and right-padded to 32 with '0'. */
  function MinHostBits(netAddressBin: string, maskShort: nat): (minHostBin: string)
    requires Over(netAddressBin, {'0', '1', '.'})
    ensures |minHostBin| >= 32 && IsBinary(minHostBin)
  {
    var flat := Remove(netAddressBin, '.');
    RemoveOver(netAddressBin, '.', {'0', '1', '.'});
    PadRight(Take(flat, maskShort + 1), 32, '0')
  }

  /** The views `get_min_host` builds from `min_host_bin`, its last octet read in base 10 and incremented. */
  function MinHostViews(minHostBin: string): (r: Views)
    requires |minHostBin| >= 32 && IsBinary(minHostBin)
  {
    BinarySlices(minHostBin);
    BinaryViews(minHostBin[0..8], minHostBin[8..16], minHostBin[16..24], MinHostLast(minHostBin[24..32]))
  }

  /** The last part of `get_min_host`: `dec2binary(int(last_octet) + 1, 8)`, the bits read in base 10. */
  function MinHostLast(lastOctet: string): (r: string)
    requires IsBinary(lastOctet)
    ensures IsBinary(r)
  {
    BinaryDigits(lastOctet);
    ToBinary(DecimalValue(lastOctet) + 1, 8)
  }

  /**
   * `get_max_host`: the last 8 characters are read in base 2, decremented and rendered again
   * with `dec2binary(..., 8)`; the decimal view reads every dotted part in base 2. The
   * decrement must not go below 0, where `dec2binary` would never return.
   */
  function GetMaxHost(broadcastAddressBin: string): (r: Views)
    requires Over(broadcastAddressBin, {'0', '1', '.'})
    requires IsBinary(TakeLast(broadcastAddressBin, 8))
    requires FromBinary(TakeLast(broadcastAddressBin, 8)) >= 1
  {
    var maxHostBin := MaxHostBits(broadcastAddressBin);
    Views(maxHostBin, DottedDecimal(maxHostBin))
  }

  /** The `max_host_bin` of `get_max_host`: all but the last 8 characters, then the decremented last octet. */
  function MaxHostBits(broadcastAddressBin: string): (maxHostBin: string)
    requires Over(broadcastAddressBin, {'0', '1', '.'})
    requires IsBinary(TakeLast(broadcastAddressBin, 8))
    requires FromBinary(TakeLast(broadcastAddressBin, 8)) >= 1
    ensures Over(maxHostBin, {'0', '1', '.'})
  {
    var lastOctet := TakeLast(broadcastAddressBin, 8);
    MaxHostOver(broadcastAddressBin, FromBinary(lastOctet) - 1);
    DropLast(broadcastAddressBin, 8) + ToBinary(FromBinary(lastOctet) - 1, 8)
  }

  /** `'.'.join(str(int(part, 2)) for part in s.split('.'))`: every dotted part read in base 2. */
  function DottedDecimal(dotted: string): (decimal: string)
    requires Over(dotted, {'0', '1', '.'})
  {
    var parts := Split(dotted, '.');
    SplitOver(dotted, '.', {'0', '1', '.'});
    Join(seq(|parts|, i requires 0 <= i < |parts| => ToDecimal(FromBinary(parts[i]))), '.')
  }

  // ---------------------------------------------------------------- get_hosts_number

  /** `get_hosts_number`: two to the number of '0' characters, less the network and broadcast. */
  function GetHostsNumber(maskBin: string): (n: int)
    ensures n >= -1
  {
    Pow2(Count(maskBin, '0')) - 2
  }

  // ---------------------------------------------------------------- helpers

  lemma {:induction false} RemoveOver(s: string, c: char, alphabet: set<char>)
    requires Over(s, alphabet)
    ensures Over(Remove(s, c), alphabet - {c})
  {
    if s != [] {
      RemoveOver(s[1..], c, alphabet);
    }
  }

  /** The four 8-character slices of a binary string of at least 32 characters are binary. */
  lemma BinarySlices(s: string)
    requires |s| >= 32 && IsBinary(s)
    ensures IsBinary(s[0..8]) && IsBinary(s[8..16]) && IsBinary(s[16..24]) && IsBinary(s[24..32])
  {
  }

  lemma MaxHostOver(s: string, v: nat)
    requires Over(s, {'0', '1', '.'})
    ensures Over(DropLast(s, 8) + ToBinary(v, 8), {'0', '1', '.'})
  {
    ToBinaryValue(v, 8);
  }
}
