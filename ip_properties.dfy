/**
 * What the subnet calculator of ip_calculator.py computes, stated over octet values and over
 * the 32-bit view of an address, and the behaviour it shows at the edges (prefixes that are
 * multiples of 8, /31 and /32, class B, the decimal reading in the minimum host).
 */
module IpProperties {
  import opened Text
  import opened Binary
  import opened IpCalculator

  /** The 32 bits of an address: its four octets rendered with `dec2binary(part, 8)`, end to end. */
  function AddressBits(o: seq<nat>): (bits: string)
    requires IsOctets(o)
    ensures |bits| == 32
  {
    OctetBits(o[0]);
    OctetBits(o[1]);
    OctetBits(o[2]);
    OctetBits(o[3]);
    ToBinary(o[0], 8) + ToBinary(o[1], 8) + ToBinary(o[2], 8) + ToBinary(o[3], 8)
  }

  /** An octet renders to exactly 8 binary characters holding its value. */
  lemma OctetBits(v: nat)
    requires v < 256
    ensures |ToBinary(v, 8)| == 8 && FromBinary(ToBinary(v, 8)) == v
  {
    Pow2Of8();
    ToBinaryValue(v, 8);
  }

  /** Every octet of an address renders to exactly 8 binary characters holding its value. */
  lemma OctetRendering(o: seq<nat>)
    requires IsOctets(o)
    ensures forall i :: 0 <= i < 4 ==> |ToBinary(o[i], 8)| == 8 && FromBinary(ToBinary(o[i], 8)) == o[i]
  {
    forall i | 0 <= i < 4
      ensures |ToBinary(o[i], 8)| == 8 && FromBinary(ToBinary(o[i], 8)) == o[i]
    {
      OctetBits(o[i]);
    }
  }

  /** Character j of four 8-character blocks laid end to end is character j % 8 of block j / 8. */
  lemma BlocksAt(b: seq<string>, j: nat)
    requires |b| == 4 && j < 32
    requires forall i :: 0 <= i < 4 ==> |b[i]| == 8
    ensures |b[0] + b[1] + b[2] + b[3]| == 32
    ensures (b[0] + b[1] + b[2] + b[3])[j] == b[j / 8][j % 8]
  {
    var s := b[0] + b[1] + b[2] + b[3];
    if j < 8 {
      assert j / 8 == 0 && j % 8 == j;
    } else if j < 16 {
      assert j / 8 == 1 && j % 8 == j - 8;
      assert s[j] == b[1][j - 8];
    } else if j < 24 {
      assert j / 8 == 2 && j % 8 == j - 16;
      assert s[j] == b[2][j - 16];
    } else {
      assert j / 8 == 3 && j % 8 == j - 24;
      assert s[j] == b[3][j - 24];
    }
  }

  /** Bit j of the address is bit j % 8 of octet j / 8. */
  lemma AddressBitsAt(o: seq<nat>, j: nat)
    requires IsOctets(o) && j < 32
    ensures |AddressBits(o)| == 32
    ensures AddressBits(o)[j] == ToBinary(o[j / 8], 8)[j % 8]
  {
    var b := seq(4, i requires 0 <= i < 4 => ToBinary(o[i], 8));
    OctetRendering(o);
    BlocksAt(b, j);
  }

  /**
   * The 'bin' and 'dec' views of `get_net_address` and `get_broadcast_address` describe the
   * same four octets: their dotted parts are the 8-bit and the decimal renderings of each octet,
   * and read back (in base 2 and in base 10) they give the same values.
   */
  lemma RenderAgrees(o: seq<nat>)
    requires IsOctets(o)
    ensures Split(Render(o).bin, '.') == seq(4, i requires 0 <= i < 4 => ToBinary(o[i], 8))
    ensures Split(Render(o).dec, '.') == seq(4, i requires 0 <= i < 4 => ToDecimal(o[i]))
    ensures forall i :: 0 <= i < 4 ==>
      |Split(Render(o).bin, '.')[i]| == 8 &&
      FromBinary(Split(Render(o).bin, '.')[i]) == o[i] == DecimalValue(Split(Render(o).dec, '.')[i])
  {
    OctetRendering(o);
    var bins := seq(4, i requires 0 <= i < 4 => ToBinary(o[i], 8));
    var decs := seq(4, i requires 0 <= i < 4 => ToDecimal(o[i]));
    SplitJoin(bins, '.');
    SplitJoin(decs, '.');
    forall i | 0 <= i < 4
      ensures DecimalValue(decs[i]) == o[i]
    {
      ToDecimalValue(o[i]);
    }
  }

  /** With the dots taken out, the 'bin' view is the 32-bit address. */
  lemma RenderFlat(o: seq<nat>)
    requires IsOctets(o)
    ensures Render(o).bin == ToBinary(o[0], 8) + "." + ToBinary(o[1], 8) + "." + ToBinary(o[2], 8) + "." + ToBinary(o[3], 8)
    ensures Over(Render(o).bin, {'0', '1', '.'})
    ensures Remove(Render(o).bin, '.') == AddressBits(o)
  {
    var b0, b1, b2, b3 := ToBinary(o[0], 8), ToBinary(o[1], 8), ToBinary(o[2], 8), ToBinary(o[3], 8);
    assert seq(4, i requires 0 <= i < 4 => ToBinary(o[i], 8)) == [b0, b1, b2, b3];
    Join4(b0, b1, b2, b3, '.');
    DottedFlat(b0, b1, b2, b3);
  }

  /** Four binary blocks joined with dots: only '0', '1' and '.' occur, and removing the dots concatenates them. */
  lemma DottedFlat(b0: string, b1: string, b2: string, b3: string)
    requires IsBinary(b0) && IsBinary(b1) && IsBinary(b2) && IsBinary(b3)
    ensures Over(b0 + "." + b1 + "." + b2 + "." + b3, {'0', '1', '.'})
    ensures Remove(b0 + "." + b1 + "." + b2 + "." + b3, '.') == b0 + b1 + b2 + b3
  {
    var alphabet := {'0', '1', '.'};
    OverAppend(b0, ".", alphabet);
    OverAppend(b0 + ".", b1, alphabet);
    OverAppend(b0 + "." + b1, ".", alphabet);
    OverAppend(b0 + "." + b1 + ".", b2, alphabet);
    OverAppend(b0 + "." + b1 + "." + b2, ".", alphabet);
    OverAppend(b0 + "." + b1 + "." + b2 + ".", b3, alphabet);
    RemoveAbsent(b0, '.');
    RemoveAbsent(b1, '.');
    RemoveAbsent(b2, '.');
    RemoveAbsent(b3, '.');
    RemoveDot(b0);
    RemoveAppend(b0 + ".", b1, '.');
    RemoveDot(b0 + "." + b1);
    RemoveAppend(b0 + "." + b1 + ".", b2, '.');
    RemoveDot(b0 + "." + b1 + "." + b2);
    RemoveAppend(b0 + "." + b1 + "." + b2 + ".", b3, '.');
  }

  lemma RemoveDot(s: string)
    ensures Remove(s + ".", '.') == Remove(s, '.')
  {
    assert Remove(".", '.') == "";
    RemoveAppend(s, ".", '.');
    assert Remove(s, '.') + "" == Remove(s, '.');
  }

  lemma OverAppend(s: string, t: string, alphabet: set<char>)
    requires Over(s, alphabet) && Over(t, alphabet)
    ensures Over(s + t, alphabet)
  {
  }

  /** `octet_net_part_bin`, rendered again with `dec2binary(..., 8)`, is the padded bit string itself. */
  lemma NetPartBits(octet: nat, netBytes: nat, pad: char)
    requires octet < 256 && netBytes < 8 && (pad == '0' || pad == '1')
    ensures |ToBinary(octet, 8)| == 8
    ensures ToBinary(NetPart(octet, netBytes, pad), 8) == PadRight(ToBinary(octet, 8)[..netBytes], 8, pad)
  {
    NetPartString(octet, netBytes, pad);
    ToBinaryOfValue(PadRight(ToBinary(octet, 8)[..netBytes], 8, pad));
  }

  lemma HostFillBits(pad: char)
    requires pad == '0' || pad == '1'
    ensures ToBinary(HostFill(pad), 8) == Repeat(pad, 8)
  {
    if pad == '0' {
      ToBinaryValue(0, 8);
    } else {
      FromBinaryOnes(8);
      Pow2Of8();
      ToBinaryOfValue(Repeat('1', 8));
    }
  }

  /**
   * Which bits of the address the boundary-octet rewrite replaces: every bit from the
   * prefix on, and, when the prefix is a positive multiple of 8, also the 8 bits just
   * before it (the whole octet octet_number - 1).
   */
  predicate Overwrites(maskShort: nat, j: nat) {
    j >= maskShort || (maskShort % 8 == 0 && maskShort > 0 && j + 8 >= maskShort)
  }

  /**
   * Bit by bit, `get_net_address` (pad '0') and `get_broadcast_address` (pad '1') keep the
   * address's bits that the rewrite does not reach and put pad in every other place.
   */
  lemma {:induction false} OverwrittenBits(ip: seq<nat>, maskShort: nat, pad: char)
    requires IsOctets(ip) && maskShort <= 32 && (pad == '0' || pad == '1')
    ensures forall j :: 0 <= j < 32 ==>
      AddressBits(Overwritten(ip, maskShort, pad))[j] ==
      (if Overwrites(maskShort, j) then pad else AddressBits(ip)[j])
  {
    var o := Overwritten(ip, maskShort, pad);
    forall j | 0 <= j < 32
      ensures AddressBits(o)[j] == (if Overwrites(maskShort, j) then pad else AddressBits(ip)[j])
    {
      OverwrittenBit(ip, maskShort, pad, j);
    }
  }

  lemma OverwrittenBit(ip: seq<nat>, maskShort: nat, pad: char, j: nat)
    requires IsOctets(ip) && maskShort <= 32 && (pad == '0' || pad == '1') && j < 32
    ensures AddressBits(Overwritten(ip, maskShort, pad))[j] ==
      (if Overwrites(maskShort, j) then pad else AddressBits(ip)[j])
  {
    var o := Overwritten(ip, maskShort, pad);
    var i, k := j / 8, j % 8;
    AddressBitsAt(o, j);
    AddressBitsAt(ip, j);
    OverwritesAt(maskShort, j);
    assert o[i] == OverwrittenOctet(ip, maskShort, pad, i);
    if i >= OctetNumber(maskShort) {
      FillBit(pad, k);
    } else if i == OctetIndex(maskShort) {
      BoundaryBit(ip[i], maskShort % 8, pad, k);
    }
  }

  lemma FillBit(pad: char, k: nat)
    requires (pad == '0' || pad == '1') && k < 8
    ensures |ToBinary(HostFill(pad), 8)| == 8 && ToBinary(HostFill(pad), 8)[k] == pad
  {
    HostFillBits(pad);
  }

  lemma BoundaryBit(octet: nat, netBytes: nat, pad: char, k: nat)
    requires octet < 256 && netBytes < 8 && (pad == '0' || pad == '1') && k < 8
    ensures |ToBinary(octet, 8)| == 8 && |ToBinary(NetPart(octet, netBytes, pad), 8)| == 8
    ensures ToBinary(NetPart(octet, netBytes, pad), 8)[k] == if k < netBytes then ToBinary(octet, 8)[k] else pad
  {
    NetPartBits(octet, netBytes, pad);
  }

  /** Where bit j falls relative to the octet the prefix ends in. */
  lemma OverwritesAt(p: nat, j: nat)
    requires p <= 32 && j < 32
    ensures j / 8 >= OctetNumber(p) ==> Overwrites(p, j)
    ensures j / 8 < OctetNumber(p) && j / 8 == OctetIndex(p) ==> (Overwrites(p, j) <==> j % 8 >= p % 8)
    ensures j / 8 < OctetNumber(p) && j / 8 != OctetIndex(p) ==> !Overwrites(p, j)
  {
    var i, k, q, r := j / 8, j % 8, p / 8, p % 8;
    assert j == 8 * i + k && p == 8 * q + r;
    if r == 0 {
      assert OctetNumber(p) == q;
    } else {
      assert OctetNumber(p) == q + 1;
    }
  }

  /**
   * Octet by octet: octets wholly past the prefix become the host fill (0 or 255); octets
   * wholly inside it are copied; and for a prefix 8k (k = 1..4) octet k - 1 is forced to the
   * host fill too, although it lies inside the prefix.
   */
  lemma OverwrittenOctets(ip: seq<nat>, maskShort: nat, pad: char)
    requires IsOctets(ip) && maskShort <= 32 && (pad == '0' || pad == '1')
    ensures forall i :: 0 <= i < 4 && 8 * i >= maskShort ==> Overwritten(ip, maskShort, pad)[i] == HostFill(pad)
    ensures forall i :: 0 <= i < 4 && 8 * i + 8 < maskShort ==> Overwritten(ip, maskShort, pad)[i] == ip[i]
    ensures maskShort % 8 == 0 && maskShort > 0 ==>
      Overwritten(ip, maskShort, pad)[maskShort / 8 - 1] == HostFill(pad)
  {
    if maskShort % 8 == 0 && maskShort > 0 {
      BoundaryOctetFilled(ip[maskShort / 8 - 1], pad);
    }
  }

  /** With no net bits kept, the boundary octet's rewrite is the host fill. */
  lemma BoundaryOctetFilled(octet: nat, pad: char)
    requires octet < 256 && (pad == '0' || pad == '1')
    ensures NetPart(octet, 0, pad) == HostFill(pad)
  {
    Pow2Of8();
    assert octet / 256 == 0;
  }

  /**
   * For a prefix that is 0 or not a multiple of 8, `get_net_address` is the textbook network
   * address: every bit from the prefix on is cleared and every bit before it is kept.
   */
  lemma NetAddressBits(ip: seq<nat>, maskShort: nat)
    requires IsOctets(ip) && maskShort <= 32 && (maskShort % 8 != 0 || maskShort == 0)
    ensures forall j :: 0 <= j < 32 ==>
      AddressBits(NetOctets(ip, maskShort))[j] == (if j >= maskShort then '0' else AddressBits(ip)[j])
  {
    OverwrittenBits(ip, maskShort, '0');
  }

  /**
   * For a prefix that is 0 or not a multiple of 8, `get_broadcast_address` is the textbook
   * broadcast address: every bit from the prefix on is set and every bit before it is kept.
   */
  lemma BroadcastAddressBits(ip: seq<nat>, maskShort: nat)
    requires IsOctets(ip) && maskShort <= 32 && (maskShort % 8 != 0 || maskShort == 0)
    ensures forall j :: 0 <= j < 32 ==>
      AddressBits(BroadcastOctets(ip, maskShort))[j] == (if j >= maskShort then '1' else AddressBits(ip)[j])
  {
    OverwrittenBits(ip, maskShort, '1');
  }

  /** 192.168.1.10/24: the third octet lies inside the prefix, yet it is zeroed (set) as well. */
  lemma Slash24Example()
    ensures NetOctets([192, 168, 1, 10], 24) == [192, 168, 0, 0]
    ensures BroadcastOctets([192, 168, 1, 10], 24) == [192, 168, 255, 255]
  {
    OverwrittenOctets([192, 168, 1, 10], 24, '0');
    OverwrittenOctets([192, 168, 1, 10], 24, '1');
  }

  // ---------------------------------------------------------------- get_net_class

  /**
   * The class `get_net_class` names for a first octet v: A below 128, nothing for 128..191
   * (where class B would be), C for 192..223, D for 224..239 and E from 240 on.
   */
  function ClassOfFirstOctet(v: nat): (c: Option<NetClass>) {
    if v < 128 then Some(A)
    else if v < 192 then None
    else if v < 224 then Some(C)
    else if v < 240 then Some(D)
    else Some(E)
  }

  /** An 8-bit string starts with t exactly when its value lies in t's block. */
  lemma LeadingBits(b: string, t: string, lo: nat, hi: nat)
    requires IsBinary(b) && |b| == 8 && IsBinary(t) && 1 <= |t| <= 4
    requires lo == FromBinary(t) * Pow2(8 - |t|) && hi == (FromBinary(t) + 1) * Pow2(8 - |t|)
    ensures Take(b, |t|) == t <==> lo <= FromBinary(b) < hi
  {
    BinaryPrefix(b, t);
  }

  /** The leading-bit tests of `get_net_class` on an 8-bit octet, as ranges of its value. */
  lemma LeadingBitTests(b: string)
    requires IsBinary(b) && |b| == 8
    ensures b[0] == '0' <==> FromBinary(b) < 128
    ensures Take(b, 3) == "110" <==> 192 <= FromBinary(b) < 224
    ensures Take(b, 4) == "1110" <==> 224 <= FromBinary(b) < 240
    ensures Take(b, 4) == "1111" <==> 240 <= FromBinary(b) < 256
  {
    LeadingZero(b);
    LeadingClassC(b);
    LeadingClassD(b);
    LeadingClassE(b);
  }

  lemma LeadingClassC(b: string)
    requires IsBinary(b) && |b| == 8
    ensures Take(b, 3) == "110" <==> 192 <= FromBinary(b) < 224
  {
    LeadingBits(b, "110", 192, 224) by {
      assert "110"[..2] == "11" && "11"[..1] == "1";
      assert Pow2(5) == 32;
    }
  }

  lemma LeadingClassD(b: string)
    requires IsBinary(b) && |b| == 8
    ensures Take(b, 4) == "1110" <==> 224 <= FromBinary(b) < 240
  {
    LeadingBits(b, "1110", 224, 240) by {
      assert "1110"[..3] == "111" && "111"[..2] == "11" && "11"[..1] == "1";
      assert Pow2(4) == 16;
    }
  }

  lemma LeadingClassE(b: string)
    requires IsBinary(b) && |b| == 8
    ensures Take(b, 4) == "1111" <==> 240 <= FromBinary(b) < 256
  {
    LeadingBits(b, "1111", 240, 256) by {
      assert "1111"[..3] == "111" && "111"[..2] == "11" && "11"[..1] == "1";
      assert Pow2(4) == 16;
    }
  }

  lemma LeadingZero(b: string)
    requires IsBinary(b) && |b| == 8
    ensures b[0] == '0' <==> FromBinary(b) < 128
  {
    assert Pow2(7) == 128;
    LeadingBits(b, "0", 0, 128);
    assert b[0] == '0' <==> Take(b, 1) == "0";
  }

  /** `get_net_class` on a dotted string whose first part is an 8-bit octet v. */
  lemma NetClassOfOctet(bin: string, v: nat)
    requires v < 256 && Split(bin, '.')[0] == ToBinary(v, 8)
    ensures Split(bin, '.')[0] != []
    ensures GetNetClass(bin) == ClassOfFirstOctet(v)
  {
    OctetBits(v);
    LeadingBitTests(Split(bin, '.')[0]);
  }

  /** The class of a network address: decided by its first octet, never B. */
  lemma NetClassOfAddress(o: seq<nat>)
    requires IsOctets(o)
    ensures Split(Render(o).bin, '.')[0] != []
    ensures GetNetClass(Render(o).bin) == ClassOfFirstOctet(o[0])
  {
    RenderAgrees(o);
    NetClassOfOctet(Render(o).bin, o[0]);
  }

  // ---------------------------------------------------------------- get_net_mask

  /**
   * Views built from four binary parts: the 'bin' view splits back into the parts, and each
   * part of the 'dec' view is the decimal rendering of its binary part's base-2 value.
   */
  lemma BinaryViewsAgree(b0: string, b1: string, b2: string, b3: string)
    requires IsBinary(b0) && IsBinary(b1) && IsBinary(b2) && IsBinary(b3)
    ensures Split(BinaryViews(b0, b1, b2, b3).bin, '.') == [b0, b1, b2, b3]
    ensures Split(BinaryViews(b0, b1, b2, b3).dec, '.') ==
      [ToDecimal(FromBinary(b0)), ToDecimal(FromBinary(b1)), ToDecimal(FromBinary(b2)), ToDecimal(FromBinary(b3))]
  {
    var decs := [ToDecimal(FromBinary(b0)), ToDecimal(FromBinary(b1)), ToDecimal(FromBinary(b2)), ToDecimal(FromBinary(b3))];
    NoDot(b0);
    NoDot(b1);
    NoDot(b2);
    NoDot(b3);
    SplitJoin([b0, b1, b2, b3], '.');
    SplitJoin(decs, '.');
  }

  lemma NoDot(b: string)
    requires IsBinary(b)
    ensures '.' !in b
  {
    assert forall k :: 0 <= k < |b| ==> b[k] != '.';
  }

  /** How many of octet i's 8 bits a /n mask sets: n - 8i, kept within 0..8. */
  function MaskOnes(n: nat, i: nat): (c: nat)
    ensures c <= 8
  {
    if n <= 8 * i then 0 else if n - 8 * i >= 8 then 8 else n - 8 * i
  }

  /** `mask_bin` for 0 <= n <= 32: n ones, then 32 - n zeros. */
  lemma MaskBitsShape(n: nat)
    requires n <= 32
    ensures MaskBits(n) == Repeat('1', n) + Repeat('0', 32 - n)
  {
    if n == 32 {
      assert Repeat('1', n) + Repeat('0', 0) == Repeat('1', n);
    }
  }

  /** Octet i of a /n mask: MaskOnes(n, i) ones followed by zeros. */
  lemma MaskOctet(n: nat, i: nat)
    requires n <= 32 && i < 4
    ensures |MaskBits(n)| == 32
    ensures MaskBits(n)[8 * i..8 * i + 8] == Repeat('1', MaskOnes(n, i)) + Repeat('0', 8 - MaskOnes(n, i))
  {
    MaskBitsShape(n);
    var m := MaskBits(n)[8 * i..8 * i + 8];
    var c := MaskOnes(n, i);
    var r := Repeat('1', c) + Repeat('0', 8 - c);
    forall k | 0 <= k < 8
      ensures m[k] == r[k]
    {
      assert m[k] == MaskBits(n)[8 * i + k];
    }
  }

  /** The base-2 value of c ones followed by 8 - c zeros: 256 - 2^(8 - c). */
  lemma MaskOctetValue(c: nat)
    requires c <= 8
    ensures IsBinary(Repeat('1', c) + Repeat('0', 8 - c))
    ensures FromBinary(Repeat('1', c) + Repeat('0', 8 - c)) == 256 - Pow2(8 - c)
  {
    var ones, zeros := Repeat('1', c), Repeat('0', 8 - c);
    FromBinaryOnes(c);
    FromBinaryZeros(8 - c);
    FromBinaryAppend(ones, zeros);
    Pow2Add(c, 8 - c);
    Pow2Of8();
    HighOnes(FromBinary(ones), Pow2(c), Pow2(8 - c), FromBinary(zeros), FromBinary(ones + zeros));
  }

  lemma HighOnes(x: int, a: int, b: int, z: int, v: int)
    requires x == a - 1 && z == 0 && a * b == 256 && v == x * b + z
    ensures v == 256 - b
  {
  }

  /** The four octets `get_net_mask` cuts out of `mask_bin`. */
  function MaskParts(n: nat): (parts: seq<string>)
    ensures |parts| == 4
    ensures forall i :: 0 <= i < 4 ==> IsBinary(parts[i]) && |parts[i]| == 8
  {
    var maskBin := MaskBits(n);
    BinarySlices(maskBin);
    [maskBin[0..8], maskBin[8..16], maskBin[16..24], maskBin[24..32]]
  }

  /** Octet i of a /n mask holds MaskOnes(n, i) leading ones; its base-2 value is 256 - 2^(8 - MaskOnes(n, i)). */
  lemma MaskPartsShape(n: nat)
    requires n <= 32
    ensures forall i :: 0 <= i < 4 ==>
      MaskParts(n)[i] == Repeat('1', MaskOnes(n, i)) + Repeat('0', 8 - MaskOnes(n, i))
    ensures forall i :: 0 <= i < 4 ==>
      IsBinary(MaskParts(n)[i]) && FromBinary(MaskParts(n)[i]) == 256 - Pow2(8 - MaskOnes(n, i))
    ensures MaskParts(n)[0] + MaskParts(n)[1] + MaskParts(n)[2] + MaskParts(n)[3] == MaskBits(n)
  {
    var parts := MaskParts(n);
    forall i | 0 <= i < 4
      ensures parts[i] == Repeat('1', MaskOnes(n, i)) + Repeat('0', 8 - MaskOnes(n, i))
      ensures IsBinary(parts[i]) && FromBinary(parts[i]) == 256 - Pow2(8 - MaskOnes(n, i))
    {
      MaskPart(n, i);
    }
    MaskBitsShape(n);
    SlicesConcat(MaskBits(n));
  }

  lemma MaskPart(n: nat, i: nat)
    requires n <= 32 && i < 4
    ensures MaskParts(n)[i] == Repeat('1', MaskOnes(n, i)) + Repeat('0', 8 - MaskOnes(n, i))
    ensures FromBinary(MaskParts(n)[i]) == 256 - Pow2(8 - MaskOnes(n, i))
  {
    var c := MaskOnes(n, i);
    MaskOctet(n, i);
    assert MaskParts(n)[i] == MaskBits(n)[8 * i..8 * i + 8] by {
      if i == 0 {
      } else if i == 1 {
      } else if i == 2 {
      } else {
      }
    }
    MaskOctetValue(c);
  }

  /** A 32-character string is its four 8-character slices laid end to end. */
  lemma SlicesConcat(s: string)
    requires |s| == 32
    ensures s[0..8] + s[8..16] + s[16..24] + s[24..32] == s
  {
  }

  /** `get_net_mask(n)` builds its views from the four parts of `mask_bin`. */
  lemma NetMaskViews(n: nat)
    ensures GetNetMask(n) == BinaryViews(MaskParts(n)[0], MaskParts(n)[1], MaskParts(n)[2], MaskParts(n)[3])
  {
  }

  /**
   * `get_net_mask(n)` for 0 <= n <= 32: the 'bin' view is four 8-bit octets which, with the
   * dots removed, are n ones followed by 32 - n zeros, octet i holding MaskOnes(n, i) leading ones.
   */
  lemma NetMaskBits(n: nat)
    requires n <= 32
    ensures Split(GetNetMask(n).bin, '.') == MaskParts(n)
    ensures Remove(GetNetMask(n).bin, '.') == Repeat('1', n) + Repeat('0', 32 - n)
    ensures forall i :: 0 <= i < 4 ==>
      MaskParts(n)[i] == Repeat('1', MaskOnes(n, i)) + Repeat('0', 8 - MaskOnes(n, i))
  {
    var parts := MaskParts(n);
    NetMaskViews(n);
    MaskPartsShape(n);
    BinaryViewsAgree(parts[0], parts[1], parts[2], parts[3]);
    MaskBitsShape(n);
    Join4(parts[0], parts[1], parts[2], parts[3], '.');
    DottedFlat(parts[0], parts[1], parts[2], parts[3]);
  }

  /**
   * The 'dec' view of `get_net_mask(n)`, 0 <= n <= 32: part i is the decimal rendering of the
   * base-2 value of binary part i, which is 256 - 2^(8 - MaskOnes(n, i)).
   */
  lemma NetMaskDecimal(n: nat)
    requires n <= 32
    ensures Split(GetNetMask(n).dec, '.') ==
      [ToDecimal(FromBinary(MaskParts(n)[0])), ToDecimal(FromBinary(MaskParts(n)[1])),
       ToDecimal(FromBinary(MaskParts(n)[2])), ToDecimal(FromBinary(MaskParts(n)[3]))]
    ensures forall i :: 0 <= i < 4 ==> FromBinary(MaskParts(n)[i]) == 256 - Pow2(8 - MaskOnes(n, i))
  {
    var parts := MaskParts(n);
    NetMaskViews(n);
    MaskPartsShape(n);
    BinaryViewsAgree(parts[0], parts[1], parts[2], parts[3]);
  }

  /** The value of an octet with c leading ones and 8 - c trailing zeros. */
  function MaskByte(c: nat): (v: nat)
    requires c <= 8
    ensures v < 256
  {
    MaskOctetValue(c);
    256 - Pow2(8 - c)
  }

  /** The four octet values of the /n mask: octet i is 256 - 2^(8 - MaskOnes(n, i)). */
  function MaskOctets(n: nat): (o: seq<nat>)
    ensures IsOctets(o)
  {
    seq(4, i requires 0 <= i < 4 => MaskByte(MaskOnes(n, i)))
  }

  /** `get_net_mask(n)` for 0 <= n <= 32 gives both views of the mask's four octet values. */
  lemma NetMaskOfOctets(n: nat)
    requires n <= 32
    ensures GetNetMask(n) == Render(MaskOctets(n))
  {
    MaskOctetRendering(n, 0);
    MaskOctetRendering(n, 1);
    MaskOctetRendering(n, 2);
    MaskOctetRendering(n, 3);
    NetMaskViews(n);
    RenderAsViews(MaskOctets(n));
  }

  /** Octet i of the mask, rendered with `dec2binary(..., 8)`, is part i of `mask_bin`. */
  lemma MaskOctetRendering(n: nat, i: nat)
    requires n <= 32 && i < 4
    ensures ToBinary(MaskOctets(n)[i], 8) == MaskParts(n)[i]
  {
    var part := MaskParts(n)[i];
    MaskPart(n, i);
    assert MaskOctets(n)[i] == FromBinary(part);
    ToBinaryOfValue(part);
  }

  /** 255.255.255.0 for /24, 255.255.192.0 for /18, 0.0.0.0 for /0 and 255.255.255.255 for /32. */
  lemma MaskOctetsExamples()
    ensures MaskOctets(24) == [255, 255, 255, 0]
    ensures MaskOctets(18) == [255, 255, 192, 0]
    ensures MaskOctets(0) == [0, 0, 0, 0] && MaskOctets(32) == [255, 255, 255, 255]
  {
    Pow2Of8();
    assert Pow2(6) == 64;
  }

  // ---------------------------------------------------------------- get_hosts_number

  /** `get_hosts_number` of the /n mask, 0 <= n <= 32: 2^(32 - n) - 2, from the mask's 32 - n zeros. */
  lemma HostsNumberOfMask(n: nat)
    requires n <= 32
    ensures GetHostsNumber(GetNetMask(n).bin) == Pow2(32 - n) - 2
  {
    var bin := GetNetMask(n).bin;
    assert Remove(bin, '.') == Repeat('1', n) + Repeat('0', 32 - n) by {
      NetMaskBits(n);
    }
    CountRemove(bin, '0', '.');
    CountAppend(Repeat('1', n), Repeat('0', 32 - n), '0');
    CountRepeat('1', n, '0');
    CountRepeat('0', 32 - n, '0');
  }

  /** 254 hosts for /24, none for /31, and -1 for /32. */
  lemma HostsNumberExamples(n: nat, hosts: int)
    requires (n == 24 && hosts == 254) || (n == 31 && hosts == 0) || (n == 32 && hosts == -1)
    ensures GetHostsNumber(GetNetMask(n).bin) == hosts
  {
    HostsNumberOfMask(n);
    Pow2Of8();
  }

  // ---------------------------------------------------------- get_min_host, get_max_host

  /** Four octets rendered in binary and read back in base 2 give the views `Render` builds. */
  lemma RenderAsViews(o: seq<nat>)
    requires IsOctets(o)
    ensures Render(o) == BinaryViews(ToBinary(o[0], 8), ToBinary(o[1], 8), ToBinary(o[2], 8), ToBinary(o[3], 8))
  {
    OctetRendering(o);
    assert seq(4, i requires 0 <= i < 4 => ToBinary(o[i], 8)) ==
           [ToBinary(o[0], 8), ToBinary(o[1], 8), ToBinary(o[2], 8), ToBinary(o[3], 8)];
    assert seq(4, i requires 0 <= i < 4 => ToDecimal(o[i])) ==
           [ToDecimal(o[0]), ToDecimal(o[1]), ToDecimal(o[2]), ToDecimal(o[3])];
  }

  /** Right-padding a prefix of s with '0' gives s back when s holds only '0' from there on. */
  lemma PadTakeZeros(s: string, n: nat)
    requires |s| == 32 && forall j :: n <= j < 32 ==> s[j] == '0'
    ensures PadRight(Take(s, n), 32, '0') == s
  {
    var r := PadRight(Take(s, n), 32, '0');
    forall j | 0 <= j < 32
      ensures r[j] == s[j]
    {
    }
  }

  lemma BlocksSlices(b0: string, b1: string, b2: string, b3: string)
    requires |b0| == 8 && |b1| == 8 && |b2| == 8 && |b3| == 8
    ensures (b0 + b1 + b2 + b3)[0..8] == b0 && (b0 + b1 + b2 + b3)[8..16] == b1
    ensures (b0 + b1 + b2 + b3)[16..24] == b2 && (b0 + b1 + b2 + b3)[24..32] == b3
  {
  }

  /**
   * `get_min_host` on the 'bin' view of an address whose bits after the first maskShort + 1
   * are all zero: the padded string is the address's own 32 bits again, so the first three
   * octets are kept, and the last becomes `dec2binary` of the last octet's bit string read as
   * a decimal number, plus one.
   */
  lemma MinHostOfRendering(o: seq<nat>, maskShort: nat)
    requires IsOctets(o)
    requires forall j :: maskShort < j < 32 ==> AddressBits(o)[j] == '0'
    ensures Over(Render(o).bin, {'0', '1', '.'})
    ensures IsBinary(AddressBits(o))
    ensures MinHostBits(Render(o).bin, maskShort) == AddressBits(o)
    ensures GetMinHost(Render(o).bin, maskShort) == MinHostViews(AddressBits(o))
  {
    AddressBitsBlocks(o);
    RenderFlat(o);
    MinHostBitsOf(Render(o).bin, AddressBits(o), maskShort);
  }

  /** Cutting after maskShort + 1 bits and padding with '0' changes nothing when the bits after are '0'. */
  lemma MinHostBitsOf(bin: string, flat: string, maskShort: nat)
    requires Over(bin, {'0', '1', '.'}) && Remove(bin, '.') == flat && |flat| == 32
    requires forall j :: maskShort < j < 32 ==> flat[j] == '0'
    ensures MinHostBits(bin, maskShort) == flat
  {
    PadTakeZeros(flat, maskShort + 1);
  }

  /** The minimum host views of four 8-bit blocks laid end to end keep the first three blocks. */
  lemma MinHostViewsOfBlocks(b0: string, b1: string, b2: string, b3: string)
    requires IsBinary(b0) && IsBinary(b1) && IsBinary(b2) && IsBinary(b3)
    requires |b0| == 8 && |b1| == 8 && |b2| == 8 && |b3| == 8
    ensures IsBinary(b0 + b1 + b2 + b3)
    ensures MinHostViews(b0 + b1 + b2 + b3) == BinaryViews(b0, b1, b2, MinHostLast(b3))
  {
    BinaryConcat(b0, b1, b2, b3);
    BlocksSlices(b0, b1, b2, b3);
  }

  lemma BinaryConcat(b0: string, b1: string, b2: string, b3: string)
    requires IsBinary(b0) && IsBinary(b1) && IsBinary(b2) && IsBinary(b3)
    ensures IsBinary(b0 + b1 + b2 + b3)
  {
  }

  /**
   * `get_min_host` on the network address: the network's bits after the prefix are zero, so
   * the padded string is the network's own 32 bits; when the network's last octet is 0 (always
   * so for a prefix of at most 24) the last octet becomes 1, so the result is the network
   * address plus one.
   */
  lemma NetworkMinHost(ip: seq<nat>, maskShort: nat)
    requires IsOctets(ip) && maskShort <= 32
    ensures Over(Render(NetOctets(ip, maskShort)).bin, {'0', '1', '.'})
    ensures IsBinary(AddressBits(NetOctets(ip, maskShort)))
    ensures GetMinHost(Render(NetOctets(ip, maskShort)).bin, maskShort) ==
      MinHostViews(AddressBits(NetOctets(ip, maskShort)))
    ensures maskShort <= 24 ==> NetOctets(ip, maskShort)[3] == 0
    ensures NetOctets(ip, maskShort)[3] == 0 ==>
      GetMinHost(Render(NetOctets(ip, maskShort)).bin, maskShort) == Render(NetOctets(ip, maskShort)[3 := 1])
  {
    var net := NetOctets(ip, maskShort);
    OverwrittenBits(ip, maskShort, '0');
    MinHostOfRendering(net, maskShort);
    OverwrittenOctets(ip, maskShort, '0');
    if net[3] == 0 {
      MinHostZeroLast(net);
    }
  }

  /**
   * The minimum host of a network with octets net: the network with last octet 1 when that
   * octet is 0; otherwise the first three octets' renderings, then the last octet's bit string
   * read as a decimal number, plus one, rendered with `dec2binary(..., 8)`.
   */
  function MinHostOfNetwork(net: seq<nat>): (r: Views)
    requires IsOctets(net)
  {
    if net[3] == 0 then Render(net[3 := 1])
    else BinaryViews(ToBinary(net[0], 8), ToBinary(net[1], 8), ToBinary(net[2], 8), MinHostLast(ToBinary(net[3], 8)))
  }

  /** The minimum host views of an address's 32 bits are `MinHostOfNetwork` of its octets. */
  lemma MinHostOfOctets(o: seq<nat>)
    requires IsOctets(o)
    ensures IsBinary(AddressBits(o))
    ensures MinHostViews(AddressBits(o)) == MinHostOfNetwork(o)
  {
    AddressBitsBinary(o);
    if o[3] == 0 {
      MinHostZeroLast(o);
    } else {
      AddressBitsBlocks(o);
      MinHostViewsOfBlocks(ToBinary(o[0], 8), ToBinary(o[1], 8), ToBinary(o[2], 8), ToBinary(o[3], 8));
    }
  }

  /** A last octet of 0 reads as 0 in base 10 too, so the minimum host's last octet is 1. */
  lemma MinHostZeroLast(o: seq<nat>)
    requires IsOctets(o) && o[3] == 0
    ensures IsBinary(AddressBits(o))
    ensures MinHostViews(AddressBits(o)) == Render(o[3 := 1])
  {
    var b0, b1, b2, b3 := ToBinary(o[0], 8), ToBinary(o[1], 8), ToBinary(o[2], 8), ToBinary(o[3], 8);
    AddressBitsBlocks(o);
    MinHostViewsOfBlocks(b0, b1, b2, b3);
    ToBinaryValue(o[3], 8);
    DecimalZeros(8);
    BinaryDigits(b3);
    var v := DecimalValue(b3) + 1;
    assert v == 1;
    assert MinHostLast(b3) == ToBinary(v, 8);
    RenderLastOctet(o, v);
  }

  /** The address bits are binary digits. */
  lemma AddressBitsBinary(o: seq<nat>)
    requires IsOctets(o)
    ensures IsBinary(AddressBits(o))
  {
    AddressBitsBlocks(o);
    BinaryConcat(ToBinary(o[0], 8), ToBinary(o[1], 8), ToBinary(o[2], 8), ToBinary(o[3], 8));
  }

  /** The address bits are the four octets' 8-bit renderings laid end to end. */
  lemma AddressBitsBlocks(o: seq<nat>)
    requires IsOctets(o)
    ensures |ToBinary(o[0], 8)| == 8 && |ToBinary(o[1], 8)| == 8
    ensures |ToBinary(o[2], 8)| == 8 && |ToBinary(o[3], 8)| == 8
    ensures AddressBits(o) == ToBinary(o[0], 8) + ToBinary(o[1], 8) + ToBinary(o[2], 8) + ToBinary(o[3], 8)
  {
    OctetBits(o[0]);
    OctetBits(o[1]);
    OctetBits(o[2]);
    OctetBits(o[3]);
  }

  /** Replacing the last octet by v shows in the 'bin' view as `dec2binary(v, 8)` in the last part. */
  lemma RenderLastOctet(o: seq<nat>, v: nat)
    requires IsOctets(o) && v < 256
    ensures IsOctets(o[3 := v])
    ensures Render(o[3 := v]) == BinaryViews(ToBinary(o[0], 8), ToBinary(o[1], 8), ToBinary(o[2], 8), ToBinary(v, 8))
  {
    RenderAsViews(o[3 := v]);
  }

  lemma {:induction false} DecimalZeros(k: nat)
    ensures forall i :: 0 <= i < k ==> '0' <= Repeat('0', k)[i] <= '9'
    ensures DecimalValue(Repeat('0', k)) == 0
  {
    var zeros := Repeat('0', k);
    if k > 0 {
      var shorter := Repeat('0', k - 1);
      DecimalZeros(k - 1);
      assert zeros == shorter + ['0'];
      assert zeros[..k - 1] == shorter;
      assert DecimalValue(zeros) == 10 * DecimalValue(shorter) + DigitValue('0');
    }
  }

  /**
   * The decimal reading shows once the last octet is not 0: an address ending in 4
   * (00000100, read as one hundred) gets a minimum host ending in 101, not in 5.
   */
  lemma MinHostReadsDecimal(o: seq<nat>)
    requires IsOctets(o) && o[3] == 4
    ensures IsBinary(AddressBits(o))
    ensures MinHostViews(AddressBits(o)) == Render(o[3 := 101])
  {
    var b0, b1, b2, b3 := ToBinary(o[0], 8), ToBinary(o[1], 8), ToBinary(o[2], 8), ToBinary(o[3], 8);
    AddressBitsBlocks(o);
    MinHostViewsOfBlocks(b0, b1, b2, b3);
    MinHostLastOfFour();
    RenderLastOctet(o, 101);
  }

  /** `00000100` read in base 10 is one hundred, so the last part becomes 101 in binary. */
  lemma MinHostLastOfFour()
    ensures MinHostLast(ToBinary(4, 8)) == ToBinary(101, 8)
  {
    var b3 := ToBinary(4, 8);
    var z := Repeat('0', 5);
    DecimalZeros(5);
    assert Bits(4) == "100";
    assert b3 == z + "100";
    assert b3[..7] == z + "10" && (z + "10")[..6] == z + "1" && (z + "1")[..5] == z;
    BinaryDigits(b3);
    assert DecimalValue(z + "1") == 1;
    assert DecimalValue(z + "10") == 10;
    assert DecimalValue(b3) == 100;
  }

  // ---------------------------------------------------------------- get_max_host

  /** The 'dec' view of an address is its 'bin' view with every dotted part read in base 2. */
  lemma DottedDecimalOfRendering(o: seq<nat>)
    requires IsOctets(o)
    ensures Over(Render(o).bin, {'0', '1', '.'})
    ensures DottedDecimal(Render(o).bin) == Render(o).dec
  {
    RenderFlat(o);
    RenderAgrees(o);
    var parts := Split(Render(o).bin, '.');
    assert seq(|parts|, i requires 0 <= i < |parts| => ToDecimal(FromBinary(parts[i]))) ==
      seq(4, i requires 0 <= i < 4 => ToDecimal(o[i]));
  }

  /** Python's `s[-8:]` and `s[:-8]` of a string that ends in 8 given characters. */
  lemma LastOctetSplit(head: string, last: string)
    requires |last| == 8
    ensures TakeLast(head + last, 8) == last && DropLast(head + last, 8) == head
  {
  }

  /**
   * `get_max_host` on the 'bin' view of an address whose last octet is not 0: the last 8
   * characters are exactly the last octet, so the result is the same address with the last
   * octet decremented, in both views.
   */
  lemma MaxHostOfRendering(o: seq<nat>)
    requires IsOctets(o) && o[3] >= 1
    ensures Over(Render(o).bin, {'0', '1', '.'})
    ensures TakeLast(Render(o).bin, 8) == ToBinary(o[3], 8)
    ensures IsBinary(TakeLast(Render(o).bin, 8)) && FromBinary(TakeLast(Render(o).bin, 8)) == o[3]
    ensures IsOctets(o[3 := o[3] - 1])
    ensures GetMaxHost(Render(o).bin) == Render(o[3 := o[3] - 1])
  {
    var o' := o[3 := o[3] - 1];
    MaxHostBitsOfRendering(o);
    DottedDecimalOfRendering(o');
  }

  /** The `max_host_bin` of an address whose last octet is not 0 is the 'bin' view of its decrement. */
  lemma MaxHostBitsOfRendering(o: seq<nat>)
    requires IsOctets(o) && o[3] >= 1
    ensures Over(Render(o).bin, {'0', '1', '.'})
    ensures TakeLast(Render(o).bin, 8) == ToBinary(o[3], 8)
    ensures IsBinary(TakeLast(Render(o).bin, 8)) && FromBinary(TakeLast(Render(o).bin, 8)) == o[3]
    ensures IsOctets(o[3 := o[3] - 1])
    ensures MaxHostBits(Render(o).bin) == Render(o[3 := o[3] - 1]).bin
  {
    var o' := o[3 := o[3] - 1];
    RenderFlat(o);
    RenderFlat(o');
    OctetBits(o[3]);
    var head := ToBinary(o[0], 8) + "." + ToBinary(o[1], 8) + "." + ToBinary(o[2], 8) + ".";
    LastOctetSplit(head, ToBinary(o[3], 8));
  }

  /** An 8-bit string ending in '1' holds an odd value. */
  lemma OddLastBit(s: string)
    requires IsBinary(s) && |s| == 8 && s[7] == '1'
    ensures FromBinary(s) % 2 == 1
  {
  }

  /**
   * The last bit of every broadcast address is set, whatever the prefix (for /32 the rewrite
   * of octet 4 sets it), so its last octet is odd and at least 1.
   */
  lemma BroadcastLastOctetOdd(ip: seq<nat>, maskShort: nat)
    requires IsOctets(ip) && maskShort <= 32
    ensures BroadcastOctets(ip, maskShort)[3] % 2 == 1 && BroadcastOctets(ip, maskShort)[3] >= 1
    ensures maskShort <= 24 ==> BroadcastOctets(ip, maskShort)[3] == 255
  {
    var b := BroadcastOctets(ip, maskShort);
    assert b[3] % 2 == 1 by {
      assert Overwrites(maskShort, 31);
      OverwrittenBit(ip, maskShort, '1', 31);
      assert AddressBits(b)[31] == '1';
      AddressBitsAt(b, 31);
      OctetBits(b[3]);
      assert ToBinary(b[3], 8)[7] == '1';
      OddLastBit(ToBinary(b[3], 8));
    }
    if maskShort <= 24 {
      OverwrittenOctets(ip, maskShort, '1');
    }
  }

  /**
   * `get_max_host` on the broadcast address never decrements below 0, and gives the broadcast
   * address with its last octet one less (that octet is odd by `BroadcastLastOctetOdd`).
   */
  lemma BroadcastMaxHost(ip: seq<nat>, maskShort: nat)
    requires IsOctets(ip) && maskShort <= 32
    ensures BroadcastOctets(ip, maskShort)[3] >= 1
    ensures Over(Render(BroadcastOctets(ip, maskShort)).bin, {'0', '1', '.'})
    ensures IsBinary(TakeLast(Render(BroadcastOctets(ip, maskShort)).bin, 8))
    ensures FromBinary(TakeLast(Render(BroadcastOctets(ip, maskShort)).bin, 8)) >= 1
    ensures GetMaxHost(Render(BroadcastOctets(ip, maskShort)).bin) ==
      Render(BroadcastOctets(ip, maskShort)[3 := BroadcastOctets(ip, maskShort)[3] - 1])
  {
    var b := BroadcastOctets(ip, maskShort);
    BroadcastLastOctetOdd(ip, maskShort);
    MaxHostOfRendering(b);
  }
}
