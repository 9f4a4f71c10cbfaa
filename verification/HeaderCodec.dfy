/** ZDP header compression as a relation between byte strings. */
module HeaderCodec {
  import opened NetDefs
  import opened InternetChecksum

  /** A port that is present in the traffic classifier is absent from the compressed packet. */
  datatype CompressionMode = CompressionMode(sourcePortPresent: bool, destinationPortPresent: bool) {
    /** The number of port bytes a compressed segment starts with. */
    function PortBytes(): nat {
      (if sourcePortPresent then 0 else 2) + (if destinationPortPresent then 0 else 2)
    }
  }

  // ---------------------------------------------------------------------------------------
  // Compression

  function KeptPorts(mode: CompressionMode, segment: Bytes): (ports: Bytes)
    requires |segment| >= 4
    ensures |ports| == mode.PortBytes()
  {
    (if mode.sourcePortPresent then [] else segment[..2]) +
    (if mode.destinationPortPresent then [] else segment[2..4])
  }

  /** The transport bytes that `compress_l4` reads without a check. */
  predicate CompleteSegment(protocol: Byte, segment: Bytes) {
    && (protocol == TCP ==> |segment| >= 18)
    && (protocol == UDP ==> |segment| >= 6)
  }

  function CompressL4(mode: CompressionMode, protocol: Byte, segment: Bytes): Bytes
    requires CompleteSegment(protocol, segment)
  {
    if protocol == TCP then KeptPorts(mode, segment) + (segment[4..16] + segment[18..])
    else if protocol == UDP then KeptPorts(mode, segment) + segment[6..]
    else segment
  }

  function NetworkHeaderSize(l3: L3Type): nat {
    match l3
    case Ipv4 => 20
    case Ipv6 => 40
    case OtherL3(_) => 0
  }

  predicate CompleteHeaders(l3: L3Type, protocol: Byte, p: Bytes) {
    l3.OtherL3? ||
    (|p| >= NetworkHeaderSize(l3) && CompleteSegment(protocol, p[NetworkHeaderSize(l3)..]))
  }

  /** The compressed IPv4 header of `p`. */
  function CompressedIpv4Header(p: Bytes): Bytes
    requires |p| >= 20
  {
    var fragment := U16At(p, 6);
    var offset := fragment % 0x2000;
    [p[0] % 16 * 16 + (if offset != 0 then 8 else 0) + fragment / 0x2000, p[1]] +
    p[4..6] +
    (if offset != 0 then U16Bytes(offset) else []) +
    [p[8]]
  }

  function CompressedIpv6Header(p: Bytes): Bytes
    requires |p| >= 40
  {
    p[..4] + [p[7]]
  }

  function Compress(mode: CompressionMode, l3: L3Type, protocol: Byte, p: Bytes): Bytes
    requires CompleteHeaders(l3, protocol, p)
  {
    match l3
    case Ipv4 => CompressedIpv4Header(p) + CompressL4(mode, protocol, p[20..])
    case Ipv6 => CompressedIpv6Header(p) + CompressL4(mode, protocol, p[40..])
    case OtherL3(_) => p
  }

  // ---------------------------------------------------------------------------------------
  // Expansion

  function SourcePort(mode: CompressionMode, ft: FiveTuple, c: Bytes): Word
    requires |c| >= mode.PortBytes()
  {
    if mode.sourcePortPresent then ft.srcPort else U16At(c, 0)
  }

  function DestinationPort(mode: CompressionMode, ft: FiveTuple, c: Bytes): Word
    requires |c| >= mode.PortBytes()
  {
    if mode.destinationPortPresent then ft.dstPort else U16At(c, if mode.sourcePortPresent then 0 else 2)
  }

  predicate ExpandableSegment(mode: CompressionMode, protocol: Byte, c: Bytes) {
    && (protocol == TCP ==> |c| >= mode.PortBytes() + 14)
    && (protocol == UDP ==> |c| >= mode.PortBytes() + 2)
  }

  /** The TCP segment with a zero checksum field. */
  function UnsummedTcp(mode: CompressionMode, ft: FiveTuple, c: Bytes): (segment: Bytes)
    requires |c| >= mode.PortBytes() + 14
    ensures |segment| == |c| - mode.PortBytes() + 6
  {
    var rest := c[mode.PortBytes()..];
    U16Bytes(SourcePort(mode, ft, c)) + U16Bytes(DestinationPort(mode, ft, c)) +
    rest[..12] + U16Bytes(0) + rest[12..]
  }

  function TcpChecksum(ft: FiveTuple, unsummed: Bytes): Word {
    L4Checksum(ft.l3Type, ft.srcAddress, ft.dstAddress, TCP, unsummed)
  }

  function ExpandL4(mode: CompressionMode, ft: FiveTuple, c: Bytes): (segment: Bytes)
    requires ExpandableSegment(mode, ft.l4Protocol, c)
    ensures |segment| == |c| + SegmentGrowth(mode, ft.l4Protocol)
  {
    if ft.l4Protocol == TCP then
      var unsummed := UnsummedTcp(mode, ft, c);
      Splice(unsummed, 16, U16Bytes(TcpChecksum(ft, unsummed)))
    else if ft.l4Protocol == UDP then
      var rest := c[mode.PortBytes()..];
      U16Bytes(SourcePort(mode, ft, c)) + U16Bytes(DestinationPort(mode, ft, c)) +
      U16Bytes(AsU16(|rest| + 6)) + rest
    else
      c
  }

  function SegmentGrowth(mode: CompressionMode, protocol: Byte): nat {
    if protocol == TCP || protocol == UDP then 6 - mode.PortBytes() else 0
  }

  predicate HasFragmentOffset(c: Bytes)
    requires c != []
  {
    c[0] / 8 % 2 == 1
  }

  /** The size of the compressed network header that starts `c`. */
  function CompressedHeaderSize(l3: L3Type, c: Bytes): nat
    requires c != []
  {
    match l3
    case Ipv4 => if HasFragmentOffset(c) then 7 else 5
    case Ipv6 => 5
    case OtherL3(_) => 0
  }

  predicate Expandable(mode: CompressionMode, ft: FiveTuple, c: Bytes) {
    ft.l3Type.OtherL3? ||
    (c != [] &&
     var h := CompressedHeaderSize(ft.l3Type, c);
     && |c| >= h
     && ExpandableSegment(mode, ft.l4Protocol, c[h..])
     && (ft.l3Type.Ipv4? ==> c[0] / 16 * 4 <= 20 + |c| - h + SegmentGrowth(mode, ft.l4Protocol)))
  }

  /** Bitwise or of two 3-bit numbers. */
  function Or3(a: nat, b: nat): (r: nat)
    requires a < 8 && b < 8
    ensures r < 8
  {
    (if a % 2 == 1 || b % 2 == 1 then 1 else 0) +
    (if a / 2 % 2 == 1 || b / 2 % 2 == 1 then 2 else 0) +
    (if a / 4 == 1 || b / 4 == 1 then 4 else 0)
  }

  /** `offset | flags << 13`. */
  function OrFragmentFlags(offset: Word, flags: nat): Word
    requires flags < 8
  {
    Or3(offset / 0x2000, flags) * 0x2000 + offset % 0x2000
  }

  function FragmentField(c: Bytes): Word
    requires c != [] && |c| >= CompressedHeaderSize(Ipv4, c)
  {
    OrFragmentFlags(if HasFragmentOffset(c) then U16At(c, 4) else 0, c[0] % 8)
  }

  /** An IPv4 header without options and with a zero checksum. */
  function Ipv4HeaderBytes(headerWords: nat, tos: Byte, totalLength: Word, fragmentId: Bytes, fragment: Word, ttl: Byte,
                           protocol: Byte, src: Bytes, dst: Bytes): (h: Bytes)
    requires headerWords < 16 && |fragmentId| == 2 && |src| == 4 && |dst| == 4
    ensures |h| == 20
  {
    ([4 * 16 + headerWords, tos] + U16Bytes(totalLength)) + (fragmentId + U16Bytes(fragment)) +
    [ttl, protocol] + U16Bytes(0) + (src + dst)
  }

  /** The IPv4 packet with a zero header checksum. */
  function UnsummedIpv4(mode: CompressionMode, ft: FiveTuple, c: Bytes): (p: Bytes)
    requires ft.l3Type.Ipv4? && Expandable(mode, ft, c)
    ensures |p| == 20 + |c| - CompressedHeaderSize(Ipv4, c) + SegmentGrowth(mode, ft.l4Protocol)
  {
    var h := CompressedHeaderSize(Ipv4, c);
    var segment := ExpandL4(mode, ft, c[h..]);
    Ipv4HeaderBytes(c[0] / 16, c[1], AsU16(|segment| + 20), c[2..4], FragmentField(c), c[h - 1],
                    ft.l4Protocol, ReadAsV4(ft.srcAddress), ReadAsV4(ft.dstAddress)) + segment
  }

  lemma UnsummedParts(mode: CompressionMode, ft: FiveTuple, c: Bytes, segment: Bytes)
    requires ft.l3Type.Ipv4? && Expandable(mode, ft, c)
    requires segment == ExpandL4(mode, ft, c[CompressedHeaderSize(Ipv4, c)..])
    ensures UnsummedIpv4(mode, ft, c) ==
            Ipv4HeaderBytes(c[0] / 16, c[1], AsU16(|segment| + 20), c[2..4], FragmentField(c),
                            c[CompressedHeaderSize(Ipv4, c) - 1],
                            ft.l4Protocol, ReadAsV4(ft.srcAddress), ReadAsV4(ft.dstAddress)) + segment
  {
  }

  function ExpandIpv4(mode: CompressionMode, ft: FiveTuple, c: Bytes): Bytes
    requires ft.l3Type.Ipv4? && Expandable(mode, ft, c)
  {
    var unsummed := UnsummedIpv4(mode, ft, c);
    Splice(unsummed, 10, U16Bytes(Checksum(unsummed[..c[0] / 16 * 4])))
  }

  function ExpandIpv6(mode: CompressionMode, ft: FiveTuple, c: Bytes): Bytes
    requires ft.l3Type.Ipv6? && Expandable(mode, ft, c)
  {
    var segment := ExpandL4(mode, ft, c[5..]);
    c[..4] + U16Bytes(AsU16(|segment|)) + [ft.l4Protocol, c[4]] + ft.srcAddress + ft.dstAddress + segment
  }

  function Expand(mode: CompressionMode, ft: FiveTuple, c: Bytes): Bytes
    requires Expandable(mode, ft, c)
  {
    match ft.l3Type
    case Ipv4 => ExpandIpv4(mode, ft, c)
    case Ipv6 => ExpandIpv6(mode, ft, c)
    case OtherL3(_) => c
  }
}
