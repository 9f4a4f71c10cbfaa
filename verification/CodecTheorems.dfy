/** What expansion makes of a compressed packet, field by field. */
module CodecTheorems {
  import opened NetDefs
  import opened InternetChecksum
  import opened Classifier
  import opened HeaderCodec

  // ---------------------------------------------------------------------------------------
  // What acceptance says about a packet

  /** The protocol field of the network header. */
  function FirstProtocol(l3: L3Type, p: Bytes): Byte
    requires |p| >= NetworkHeaderSize(l3)
  {
    match l3
    case Ipv4 => p[9]
    case Ipv6 => p[6]
    case OtherL3(_) => 0
  }

  /** Walking the chain keeps the addresses and ends at a header that is not an extension. */
  lemma {:induction false} AcceptedChain(ft: FiveTuple, body: Bytes, protocol: Byte)
    requires Accepted(ClassifyNextHeader(ft, body, protocol, DEFAULT_OPTIONS).outcome)
    ensures var r := ClassifyNextHeader(ft, body, protocol, DEFAULT_OPTIONS).ft;
            && r.l3Type == ft.l3Type && r.srcAddress == ft.srcAddress && r.dstAddress == ft.dstAddress
            && !IsExtension(r.l4Protocol)
            && (r.l4Protocol == TCP ==> |body| >= TCP_HEADER_SIZE)
            && (r.l4Protocol == UDP ==> |body| >= UDP_HEADER_SIZE)
    decreases |body|
  {
    match NextHop(body, protocol)
    case HopTo(skipped, next) =>
      AcceptedChain(ft.(l4Protocol := protocol), body[skipped..], next);
    case _ =>
  }

  /** An IPv4 packet of the right length, with the tuple's addresses; its checksum may be anything. */
  ghost predicate Ipv4Layout(ft: FiveTuple, p: Bytes) {
    && |p| >= IPV4_HEADER_SIZE && p[0] / 16 == 4
    && IPV4_HEADER_SIZE <= HeaderLength(p) <= |p| == U16At(p, 2)
    && ft.l3Type == Ipv4
    && ft.srcAddress == FromV4(p[12..16]) && ft.dstAddress == FromV4(p[16..20])
  }

  ghost predicate Ipv4Facts(ft: FiveTuple, p: Bytes) {
    Ipv4Layout(ft, p) && Checksum(p[..HeaderLength(p)]) == 0
  }

  ghost predicate Ipv6Facts(ft: FiveTuple, p: Bytes) {
    && |p| >= IPV6_HEADER_SIZE && p[0] / 16 == 6 && |p| - IPV6_HEADER_SIZE == U16At(p, 4)
    && ft.l3Type == Ipv6
    && ft.srcAddress == p[8..24] && ft.dstAddress == p[24..40]
  }

  /** There is a whole transport header at the offset where compression looks for it. */
  predicate FullSegment(protocol: Byte, segment: Bytes) {
    && (protocol == TCP ==> |segment| >= TCP_HEADER_SIZE)
    && (protocol == UDP ==> |segment| >= UDP_HEADER_SIZE)
  }

  /** The tuple the classifier extracts from an accepted packet. */
  function Tuple(ft0: FiveTuple, p: Bytes): FiveTuple {
    Classify(ft0, p, DEFAULT_OPTIONS).ft
  }

  predicate IsAccepted(ft0: FiveTuple, p: Bytes) {
    Accepted(Classify(ft0, p, DEFAULT_OPTIONS).outcome)
  }

  /** The tuple with the network-layer fields of `p` filled in. */
  function NetworkTuple(ft0: FiveTuple, p: Bytes): FiveTuple
    requires p != [] && (p[0] / 16 == 4 ==> |p| >= 20) && (p[0] / 16 == 6 ==> |p| >= 40)
  {
    if p[0] / 16 == 4 then
      ft0.(l3Type := Ipv4, srcAddress := FromV4(p[12..16]), dstAddress := FromV4(p[16..20]))
    else if p[0] / 16 == 6 then
      ft0.(l3Type := Ipv6, srcAddress := p[8..24], dstAddress := p[24..40])
    else
      ft0
  }

  lemma AcceptedFacts(ft0: FiveTuple, p: Bytes)
    requires IsAccepted(ft0, p)
    ensures var ft := Tuple(ft0, p);
            && (Ipv4Facts(ft, p) || Ipv6Facts(ft, p))
            && !IsExtension(ft.l4Protocol)
            && FullSegment(ft.l4Protocol, p[NetworkHeaderSize(ft.l3Type)..])
    ensures p[0] / 16 == 4 ==>
              Classify(ft0, p, DEFAULT_OPTIONS) ==
              ClassifyNextHeader(NetworkTuple(ft0, p), p[HeaderLength(p)..], p[9], DEFAULT_OPTIONS)
    ensures p[0] / 16 == 6 ==>
              Classify(ft0, p, DEFAULT_OPTIONS) ==
              ClassifyNextHeader(NetworkTuple(ft0, p), p[40..], p[6], DEFAULT_OPTIONS)
  {
    if IpVersion(p) == 4 {
      AcceptedChain(NetworkTuple(ft0, p), p[HeaderLength(p)..], p[9]);
    } else {
      AcceptedChain(NetworkTuple(ft0, p), p[40..], p[6]);
    }
  }

  // ---------------------------------------------------------------------------------------
  // The transport segment through both directions

  /** The ports that the mode elides are the ones expansion fills in. */
  predicate PortsSurvive(mode: CompressionMode, ft: FiveTuple, segment: Bytes)
    requires |segment| >= 4
  {
    && (mode.sourcePortPresent ==> U16At(segment, 0) == ft.srcPort)
    && (mode.destinationPortPresent ==> U16At(segment, 2) == ft.dstPort)
  }

  function RebuiltPortBytes(mode: CompressionMode, ft: FiveTuple, segment: Bytes): Bytes
    requires |segment| >= 4
  {
    var src := if mode.sourcePortPresent then ft.srcPort else U16At(segment, 0);
    var dst := if mode.destinationPortPresent then ft.dstPort else U16At(segment, 2);
    U16Bytes(src) + U16Bytes(dst)
  }

  /** The bytes expansion makes of a compressed segment, field by field. */
  function Rebuilt(mode: CompressionMode, ft: FiveTuple, segment: Bytes): Bytes
    requires CompleteSegment(ft.l4Protocol, segment)
  {
    if ft.l4Protocol != TCP && ft.l4Protocol != UDP then
      segment
    else
      var ports := RebuiltPortBytes(mode, ft, segment);
      if ft.l4Protocol == UDP then
        ports + U16Bytes(AsU16(|segment|)) + segment[6..]
      else
        var unsummed := Splice(ports + segment[4..], 16, U16Bytes(0));
        Splice(unsummed, 16, U16Bytes(TcpChecksum(ft, unsummed)))
  }

  lemma CompressedSegment(mode: CompressionMode, ft: FiveTuple, segment: Bytes)
    requires FullSegment(ft.l4Protocol, segment)
    ensures var c := CompressL4(mode, ft.l4Protocol, segment);
            && ExpandableSegment(mode, ft.l4Protocol, c)
            && |c| + SegmentGrowth(mode, ft.l4Protocol) == |segment|
  {
  }

  lemma RebuiltPorts(mode: CompressionMode, ft: FiveTuple, segment: Bytes, rest: Bytes)
    requires |segment| >= 4
    ensures var c := KeptPorts(mode, segment) + rest;
            && SourcePort(mode, ft, c) == (if mode.sourcePortPresent then ft.srcPort else U16At(segment, 0))
            && DestinationPort(mode, ft, c) == (if mode.destinationPortPresent then ft.dstPort else U16At(segment, 2))
            && c[mode.PortBytes()..] == rest
  {
  }

  lemma ExpandCompressedSegment(mode: CompressionMode, ft: FiveTuple, segment: Bytes)
    requires CompleteSegment(ft.l4Protocol, segment)
    requires ExpandableSegment(mode, ft.l4Protocol, CompressL4(mode, ft.l4Protocol, segment))
    ensures ExpandL4(mode, ft, CompressL4(mode, ft.l4Protocol, segment)) == Rebuilt(mode, ft, segment)
  {
    if ft.l4Protocol == TCP {
      UnsummedRebuilt(mode, ft, segment, KeptPorts(mode, segment) + (segment[4..16] + segment[18..]));
    } else if ft.l4Protocol == UDP {
      RebuiltPorts(mode, ft, segment, segment[6..]);
    }
  }

  /** Before its checksum is filled in, an expanded TCP segment is the old one with a zero there. */
  lemma UnsummedRebuilt(mode: CompressionMode, ft: FiveTuple, segment: Bytes, c: Bytes)
    requires |segment| >= 18 && ft.l4Protocol == TCP && ExpandableSegment(mode, TCP, c)
    requires c == KeptPorts(mode, segment) + (segment[4..16] + segment[18..])
    ensures UnsummedTcp(mode, ft, c) ==
            Splice(RebuiltPortBytes(mode, ft, segment) + segment[4..], 16, U16Bytes(0))
  {
    RebuiltPorts(mode, ft, segment, segment[4..16] + segment[18..]);
    UnsummedTcpParts(mode, ft, c, segment[4..16], segment[18..]);
    ZeroedSegment(RebuiltPortBytes(mode, ft, segment), segment);
  }

  lemma UnsummedTcpParts(mode: CompressionMode, ft: FiveTuple, c: Bytes, front: Bytes, back: Bytes)
    requires |c| >= mode.PortBytes() + 14 && |front| == 12 && c[mode.PortBytes()..] == front + back
    ensures UnsummedTcp(mode, ft, c) ==
            U16Bytes(SourcePort(mode, ft, c)) + U16Bytes(DestinationPort(mode, ft, c)) + front + U16Bytes(0) + back
  {
    assert (front + back)[..12] == front && (front + back)[12..] == back;
  }

  lemma ZeroedSegment(ports: Bytes, segment: Bytes)
    requires |ports| == 4 && |segment| >= 18
    ensures Splice(ports + segment[4..], 16, U16Bytes(0)) == ports + segment[4..16] + U16Bytes(0) + segment[18..]
  {
    assert ports + segment[4..] == (ports + segment[4..16]) + segment[16..18] + segment[18..];
    SpliceAt(ports + segment[4..16], segment[16..18], segment[18..], U16Bytes(0));
  }

  /** The TCP checksum field holds the checksum that expansion computes. */
  predicate SummedCanonically(ft: FiveTuple, segment: Bytes)
    requires |segment| >= 18
  {
    U16At(segment, 16) == TcpChecksum(ft, Splice(segment, 16, U16Bytes(0)))
  }

  /** When a segment comes back unchanged, in terms of the fields at fixed offsets. */
  predicate SegmentSurvives(mode: CompressionMode, ft: FiveTuple, segment: Bytes)
    requires CompleteSegment(ft.l4Protocol, segment)
  {
    && (ft.l4Protocol == TCP ==> PortsSurvive(mode, ft, segment) && SummedCanonically(ft, segment))
    && (ft.l4Protocol == UDP ==> PortsSurvive(mode, ft, segment) && U16At(segment, 4) == AsU16(|segment|))
  }

  lemma SegmentSurvivesIff(mode: CompressionMode, ft: FiveTuple, segment: Bytes)
    requires CompleteSegment(ft.l4Protocol, segment)
    ensures Rebuilt(mode, ft, segment) == segment <==> SegmentSurvives(mode, ft, segment)
  {
    if ft.l4Protocol == TCP {
      TcpSurvivesIff(mode, ft, segment);
    } else if ft.l4Protocol == UDP {
      UdpSurvivesIff(mode, ft, segment);
    }
  }

  lemma PortFields(segment: Bytes, src: Word, dst: Word)
    requires |segment| >= 4
    ensures U16Bytes(src) + U16Bytes(dst) == segment[..4] <==> src == U16At(segment, 0) && dst == U16At(segment, 2)
  {
    assert segment[..4] == [segment[0], segment[1], segment[2], segment[3]];
  }

  lemma UdpSurvivesIff(mode: CompressionMode, ft: FiveTuple, segment: Bytes)
    requires ft.l4Protocol == UDP && |segment| >= 6
    ensures Rebuilt(mode, ft, segment) == segment <==> SegmentSurvives(mode, ft, segment)
  {
    var src := if mode.sourcePortPresent then ft.srcPort else U16At(segment, 0);
    var dst := if mode.destinationPortPresent then ft.dstPort else U16At(segment, 2);
    var length := U16Bytes(AsU16(|segment|));
    PortFields(segment, src, dst);
    var r := Rebuilt(mode, ft, segment);
    assert r[..4] == U16Bytes(src) + U16Bytes(dst) && r[4..6] == length && r[6..] == segment[6..];
    U16RoundTrip(segment, 4);
    assert segment == segment[..4] + segment[4..6] + segment[6..];
  }

  lemma TcpSurvivesIff(mode: CompressionMode, ft: FiveTuple, segment: Bytes)
    requires ft.l4Protocol == TCP && |segment| >= 18
    ensures Rebuilt(mode, ft, segment) == segment <==> SegmentSurvives(mode, ft, segment)
  {
    var src := if mode.sourcePortPresent then ft.srcPort else U16At(segment, 0);
    var dst := if mode.destinationPortPresent then ft.dstPort else U16At(segment, 2);
    var ports := U16Bytes(src) + U16Bytes(dst);
    var unsummed := Splice(ports + segment[4..], 16, U16Bytes(0));
    var checksum := U16Bytes(TcpChecksum(ft, unsummed));
    var r := Rebuilt(mode, ft, segment);
    PortFields(segment, src, dst);
    assert r[..4] == ports;
    if ports == segment[..4] {
      assert ports + segment[4..] == segment;
      assert r[16..18] == checksum;
      U16RoundTrip(segment, 16);
      if checksum == segment[16..18] {
        SpliceIdentity(segment, 16, 2);
        assert r == Splice(segment, 16, segment[16..18]);
      }
    }
  }

  // ---------------------------------------------------------------------------------------
  // The whole packet through both directions

  /** A packet through compression and expansion. */
  function Through(mode: CompressionMode, ft: FiveTuple, p: Bytes): Bytes
    requires CompleteHeaders(ft.l3Type, ft.l4Protocol, p)
    requires Expandable(mode, ft, Compress(mode, ft.l3Type, ft.l4Protocol, p))
  {
    Expand(mode, ft, Compress(mode, ft.l3Type, ft.l4Protocol, p))
  }

  /** The flag byte carries header length, presence of the offset, and flags apart. */
  lemma FlagByte(headerWords: nat, offset: nat, flags: nat)
    requires headerWords < 16 && offset < 0x2000 && flags < 8
    ensures var b := headerWords * 16 + (if offset != 0 then 8 else 0) + flags;
            b / 16 == headerWords && (b / 8 % 2 == 1 <==> offset != 0) && b % 8 == flags
  {
  }

  lemma FlagsOverOffset(offset: nat, flags: nat)
    requires offset < 0x2000 && flags < 8
    ensures OrFragmentFlags(offset, flags) == flags * 0x2000 + offset
  {
    assert Or3(0, flags) == flags;
  }

  /** The compressed IPv4 header, byte by byte: five bytes, or seven with a fragment offset. */
  function HeaderList(p: Bytes): Bytes
    requires |p| >= 20
  {
    var offset, flags := U16At(p, 6) % 0x2000, U16At(p, 6) / 0x2000;
    if offset == 0 then [p[0] % 16 * 16 + flags, p[1], p[4], p[5], p[8]]
    else [p[0] % 16 * 16 + 8 + flags, p[1], p[4], p[5], offset / 0x100, offset % 0x100, p[8]]
  }

  lemma CompressedIsList(p: Bytes)
    requires |p| >= 20
    ensures CompressedIpv4Header(p) == HeaderList(p)
  {
    assert p[4..6] == [p[4], p[5]];
  }

  /** The fragment field as it is read back. */
  lemma ListField(c: Bytes, fragment: Word, headerWords: nat)
    requires headerWords < 16 && |c| >= (if fragment % 0x2000 != 0 then 7 else 5)
    requires c[0] == headerWords * 16 + (if fragment % 0x2000 != 0 then 8 else 0) + fragment / 0x2000
    requires fragment % 0x2000 != 0 ==> c[4] == fragment % 0x2000 / 0x100 && c[5] == fragment % 0x2000 % 0x100
    ensures c[0] / 16 == headerWords && CompressedHeaderSize(Ipv4, c) == (if fragment % 0x2000 != 0 then 7 else 5)
    ensures FragmentField(c) == fragment
  {
    FlagByte(headerWords, fragment % 0x2000, fragment / 0x2000);
    FlagsOverOffset(fragment % 0x2000, fragment / 0x2000);
  }

  /** What the expanding side reads off a compressed header, with a fragment offset or without. */
  lemma CompressedFields(p: Bytes, rest: Bytes)
    requires |p| >= 20
    ensures var c := CompressedIpv4Header(p) + rest;
            var h := CompressedHeaderSize(Ipv4, c);
            && |c| == h + |rest|
            && c[0] / 16 == p[0] % 16 && c[1] == p[1] && c[2..4] == p[4..6] && c[h - 1] == p[8]
            && FragmentField(c) == U16At(p, 6)
            && c[h..] == rest
  {
    CompressedIsList(p);
    var c := HeaderList(p) + rest;
    FlagByte(p[0] % 16, U16At(p, 6) % 0x2000, U16At(p, 6) / 0x2000);
    assert c[2..4] == [p[4], p[5]] == p[4..6];
    ListField(c, U16At(p, 6), p[0] % 16);
  }

  lemma ThroughIpv4(mode: CompressionMode, ft: FiveTuple, p: Bytes)
    requires Ipv4Layout(ft, p) && FullSegment(ft.l4Protocol, p[20..])
    ensures Expandable(mode, ft, Compress(mode, Ipv4, ft.l4Protocol, p))
    ensures var unsummed := p[..9] + [ft.l4Protocol] + U16Bytes(0) + p[12..20] + Rebuilt(mode, ft, p[20..]);
            && |unsummed| == |p|
            && Through(mode, ft, p) == Splice(unsummed, 10, U16Bytes(Checksum(unsummed[..HeaderLength(p)])))
  {
    var rest := CompressL4(mode, ft.l4Protocol, p[20..]);
    var c := CompressedIpv4Header(p) + rest;
    CompressedFields(p, rest);
    CompressedSegment(mode, ft, p[20..]);
    assert Expandable(mode, ft, c);
    UnsummedThroughIpv4(mode, ft, p, c);
  }

  lemma UnsummedThroughIpv4(mode: CompressionMode, ft: FiveTuple, p: Bytes, c: Bytes)
    requires Ipv4Layout(ft, p) && FullSegment(ft.l4Protocol, p[20..])
    requires c == CompressedIpv4Header(p) + CompressL4(mode, ft.l4Protocol, p[20..]) && Expandable(mode, ft, c)
    ensures UnsummedIpv4(mode, ft, c) ==
            p[..9] + [ft.l4Protocol] + U16Bytes(0) + p[12..20] + Rebuilt(mode, ft, p[20..])
  {
    CompressedFields(p, CompressL4(mode, ft.l4Protocol, p[20..]));
    CompressedSegment(mode, ft, p[20..]);
    ExpandCompressedSegment(mode, ft, p[20..]);
    HeaderWrittenBack(mode, ft, p, c, Rebuilt(mode, ft, p[20..]));
  }

  lemma HeaderWrittenBack(mode: CompressionMode, ft: FiveTuple, p: Bytes, c: Bytes, segment: Bytes)
    requires Ipv4Layout(ft, p) && Expandable(mode, ft, c) && |segment| == |p| - 20
    requires var h := CompressedHeaderSize(Ipv4, c);
             && c[0] / 16 == p[0] % 16 && c[1] == p[1] && c[2..4] == p[4..6] && c[h - 1] == p[8]
             && FragmentField(c) == U16At(p, 6) && segment == ExpandL4(mode, ft, c[h..])
    ensures UnsummedIpv4(mode, ft, c) == p[..9] + [ft.l4Protocol] + U16Bytes(0) + p[12..20] + segment
  {
    UnsummedParts(mode, ft, c, segment);
    Ipv4HeaderOf(p, c[0] / 16, |p|, c[2..4], FragmentField(c), ft);
  }

  /** Writing the fields of a header back gives the header. */
  lemma Ipv4HeaderOf(p: Bytes, headerWords: nat, totalLength: nat, fragmentId: Bytes, fragment: Word, ft: FiveTuple)
    requires Ipv4Layout(ft, p)
    requires headerWords == p[0] % 16 && totalLength == |p| && fragmentId == p[4..6] && fragment == U16At(p, 6)
    ensures Ipv4HeaderBytes(headerWords, p[1], AsU16(totalLength), fragmentId, fragment, p[8],
                            ft.l4Protocol, ReadAsV4(ft.srcAddress), ReadAsV4(ft.dstAddress)) ==
            p[..9] + [ft.l4Protocol] + U16Bytes(0) + p[12..20]
  {
    U16RoundTrip(p, 2);
    U16RoundTrip(p, 6);
    assert [4 * 16 + p[0] % 16, p[1]] == p[..2];
    assert (p[..2] + p[2..4]) + (p[4..6] + p[6..8]) + [p[8], ft.l4Protocol] == p[..9] + [ft.l4Protocol];
    assert ReadAsV4(ft.srcAddress) == p[12..16] && ReadAsV4(ft.dstAddress) == p[16..20];
    assert p[12..16] + p[16..20] == p[12..20];
  }

  lemma ThroughIpv6(mode: CompressionMode, ft: FiveTuple, p: Bytes)
    requires Ipv6Facts(ft, p) && FullSegment(ft.l4Protocol, p[40..])
    ensures Expandable(mode, ft, Compress(mode, Ipv6, ft.l4Protocol, p))
    ensures Through(mode, ft, p) == p[..6] + [ft.l4Protocol] + p[7..40] + Rebuilt(mode, ft, p[40..])
  {
    var c := Compress(mode, Ipv6, ft.l4Protocol, p);
    var rebuilt := Rebuilt(mode, ft, p[40..]);
    CompressedSegment(mode, ft, p[40..]);
    assert c[5..] == CompressL4(mode, ft.l4Protocol, p[40..]) && c[..4] == p[..4] && c[4] == p[7];
    ExpandCompressedSegment(mode, ft, p[40..]);
    U16RoundTrip(p, 4);
    Ipv6Layout(p, ft.l4Protocol, rebuilt);
  }

  lemma Ipv6Layout(p: Bytes, protocol: Byte, segment: Bytes)
    requires |p| >= 40
    ensures p[..4] + p[4..6] + [protocol, p[7]] + p[8..24] + p[24..40] + segment ==
            p[..6] + [protocol] + p[7..40] + segment
  {
  }

  lemma Compressible(mode: CompressionMode, ft0: FiveTuple, p: Bytes)
    requires IsAccepted(ft0, p)
    ensures var ft := Tuple(ft0, p);
            && CompleteHeaders(ft.l3Type, ft.l4Protocol, p)
            && Expandable(mode, ft, Compress(mode, ft.l3Type, ft.l4Protocol, p))
  {
    var ft := Tuple(ft0, p);
    AcceptedFacts(ft0, p);
    if ft.l3Type.Ipv4? {
      ThroughIpv4(mode, ft, p);
    } else {
      ThroughIpv6(mode, ft, p);
    }
  }
}
