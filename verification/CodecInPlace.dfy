/** `compress` and `expand` as they edit a packet buffer in place. */
module CodecInPlace {
  import opened NetDefs
  import opened InternetChecksum
  import opened PacketBuffer
  import opened HeaderCodec

  /** Puts the ports that the traffic classifier does not carry back in front. */
  method PushKeptPorts(mode: CompressionMode, pkt: Packet, srcPort: Word, dstPort: Word)
    requires pkt.Valid() && pkt.offset >= mode.PortBytes()
    modifies pkt, pkt.buf
    ensures pkt.Valid() && pkt.offset == old(pkt.offset) - mode.PortBytes() && pkt.End() == old(pkt.End())
    ensures pkt.body == KeptPorts(mode, U16Bytes(srcPort) + U16Bytes(dstPort)) + old(pkt.body)
  {
    if !mode.destinationPortPresent {
      pkt.PushU16(dstPort);
    }
    if !mode.sourcePortPresent {
      pkt.PushU16(srcPort);
    }
  }

  method GetPorts(pkt: Packet) returns (srcPort: Word, dstPort: Word)
    requires pkt.Valid() && pkt.len >= 4
    modifies pkt
    ensures pkt.Valid() && pkt.End() == old(pkt.End()) && pkt.offset == old(pkt.offset) + 4
    ensures srcPort == old(U16At(pkt.body, 0)) && dstPort == old(U16At(pkt.body, 2))
    ensures pkt.body == old(pkt.body[4..])
  {
    srcPort := pkt.GetU16();
    dstPort := pkt.GetU16();
  }

  method PushPorts(pkt: Packet, srcPort: Word, dstPort: Word)
    requires pkt.Valid() && pkt.offset >= 4
    modifies pkt, pkt.buf
    ensures pkt.Valid() && pkt.End() == old(pkt.End()) && pkt.offset == old(pkt.offset) - 4
    ensures pkt.body == U16Bytes(srcPort) + U16Bytes(dstPort) + old(pkt.body)
  {
    pkt.PushU16(dstPort);
    pkt.PushU16(srcPort);
  }

  lemma KeptPortsOf(mode: CompressionMode, segment: Bytes)
    requires |segment| >= 4
    ensures KeptPorts(mode, U16Bytes(U16At(segment, 0)) + U16Bytes(U16At(segment, 2))) == KeptPorts(mode, segment)
  {
    U16RoundTrip(segment, 0);
    U16RoundTrip(segment, 2);
    assert U16Bytes(U16At(segment, 0)) + U16Bytes(U16At(segment, 2)) == segment[..4];
  }

  /** Moves the 12 bytes in front of the TCP checksum over it and drops the 2 bytes left behind. */
  method SqueezeOutChecksum(pkt: Packet)
    requires pkt.Valid() && pkt.len >= 14
    modifies pkt, pkt.buf
    ensures pkt.Valid() && pkt.End() == old(pkt.End()) && pkt.offset == old(pkt.offset) + 2
    ensures pkt.body == old(pkt.body[..12] + pkt.body[14..])
  {
    pkt.CopyWithin(0, 12, 2);
    pkt.Advance(2);
  }

  method CompressTcpInPlace(mode: CompressionMode, pkt: Packet)
    requires pkt.Valid() && pkt.len >= 18
    modifies pkt, pkt.buf
    ensures pkt.Valid() && pkt.End() == old(pkt.End()) && pkt.offset >= old(pkt.offset)
    ensures pkt.body == old(CompressL4(mode, TCP, pkt.body))
  {
    ghost var segment := pkt.body;
    var srcPort, dstPort := GetPorts(pkt);
    SqueezeOutChecksum(pkt);
    assert pkt.body == segment[4..16] + segment[18..];
    KeptPortsOf(mode, segment);
    PushKeptPorts(mode, pkt, srcPort, dstPort);
  }

  method CompressUdpInPlace(mode: CompressionMode, pkt: Packet)
    requires pkt.Valid() && pkt.len >= 6
    modifies pkt, pkt.buf
    ensures pkt.Valid() && pkt.End() == old(pkt.End()) && pkt.offset >= old(pkt.offset)
    ensures pkt.body == old(CompressL4(mode, UDP, pkt.body))
  {
    ghost var segment := pkt.body;
    var srcPort, dstPort := GetPorts(pkt);
    pkt.Advance(2);
    KeptPortsOf(mode, segment);
    PushKeptPorts(mode, pkt, srcPort, dstPort);
  }

  method CompressL4InPlace(mode: CompressionMode, protocol: Byte, pkt: Packet)
    requires pkt.Valid() && CompleteSegment(protocol, pkt.body)
    modifies pkt, pkt.buf
    ensures pkt.Valid() && pkt.End() == old(pkt.End()) && pkt.offset >= old(pkt.offset)
    ensures pkt.body == old(CompressL4(mode, protocol, pkt.body))
  {
    if protocol == TCP {
      CompressTcpInPlace(mode, pkt);
    } else if protocol == UDP {
      CompressUdpInPlace(mode, pkt);
    }
  }

  /** Pushes the fields of the compressed IPv4 header, last one first. */
  method PushCompressedIpv4(pkt: Packet, first: Bytes, fragmentId: Bytes, offset: Word, ttl: Byte)
    requires pkt.Valid() && |first| == 2 && |fragmentId| == 2 && pkt.offset >= 7
    modifies pkt, pkt.buf
    ensures pkt.Valid() && pkt.End() == old(pkt.End()) && pkt.offset >= old(pkt.offset) - 7
    ensures pkt.body == first + fragmentId + (if offset != 0 then U16Bytes(offset) else []) + [ttl] + old(pkt.body)
  {
    pkt.PushHeader([ttl]);
    if offset != 0 {
      pkt.PushHeader(U16Bytes(offset));
    }
    pkt.PushHeader(fragmentId);
    pkt.PushHeader(first);
  }

  /** The compressed header depends on the fixed part of the header only. */
  lemma FixedHeaderSuffices(p: Bytes, header: Bytes)
    requires |p| >= 20 && header == p[0..20]
    ensures CompressedIpv4Header(header) == CompressedIpv4Header(p)
  {
    assert header[0] == p[0] && header[1] == p[1] && header[8] == p[8];
    assert U16At(header, 6) == U16At(p, 6) && header[4..6] == p[4..6];
  }

  method CompressIpv4InPlace(mode: CompressionMode, protocol: Byte, pkt: Packet)
    requires pkt.Valid() && CompleteHeaders(Ipv4, protocol, pkt.body)
    modifies pkt, pkt.buf
    ensures pkt.Valid() && pkt.End() == old(pkt.End()) && pkt.offset >= old(pkt.offset)
    ensures pkt.body == old(Compress(mode, Ipv4, protocol, pkt.body))
  {
    var header := pkt.Peek(0, 20);
    FixedHeaderSuffices(pkt.body, header);
    var headerLength := header[0] % 16;
    var dscp := header[1];
    var fragmentId := header[4..6];
    var flags := U16At(header, 6) / 0x2000;
    var offset := U16At(header, 6) % 0x2000;
    var ttl := header[8];
    var first: Bytes := [headerLength * 16 + (if offset != 0 then 8 else 0) + flags, dscp];
    assert CompressedIpv4Header(header) ==
           first + fragmentId + (if offset != 0 then U16Bytes(offset) else []) + [ttl];

    pkt.Advance(20);
    CompressL4InPlace(mode, protocol, pkt);
    PushCompressedIpv4(pkt, first, fragmentId, offset, ttl);
  }

  /** The compressed IPv6 header, filled in field by field. */
  lemma FillIpv6(segment: Bytes, versionClassFlow: Bytes, hopLimit: Bytes)
    requires |versionClassFlow| == 4 && |hopLimit| == 1
    ensures Splice(Splice(Zeros(5) + segment, 0, versionClassFlow), 4, hopLimit) ==
            versionClassFlow + hopLimit + segment
  {
    assert Zeros(5) + segment == [] + Zeros(4) + (Zeros(1) + segment);
    SpliceAt([], Zeros(4), Zeros(1) + segment, versionClassFlow);
    assert [] + versionClassFlow + (Zeros(1) + segment) == versionClassFlow + Zeros(1) + segment;
    SpliceAt(versionClassFlow, Zeros(1), segment, hopLimit);
  }

  method PushCompressedIpv6(pkt: Packet, versionClassFlow: Bytes, hopLimit: Bytes)
    requires pkt.Valid() && |versionClassFlow| == 4 && |hopLimit| == 1 && pkt.offset >= 5
    modifies pkt, pkt.buf
    ensures pkt.Valid() && pkt.End() == old(pkt.End()) && pkt.offset == old(pkt.offset) - 5
    ensures pkt.body == versionClassFlow + hopLimit + old(pkt.body)
  {
    FillIpv6(pkt.body, versionClassFlow, hopLimit);
    pkt.AllocZeroedHeadroom(5);
    pkt.WriteField(0, versionClassFlow);
    pkt.WriteField(4, hopLimit);
  }

  method CompressIpv6InPlace(mode: CompressionMode, protocol: Byte, pkt: Packet)
    requires pkt.Valid() && CompleteHeaders(Ipv6, protocol, pkt.body)
    modifies pkt, pkt.buf
    ensures pkt.Valid() && pkt.End() == old(pkt.End()) && pkt.offset >= old(pkt.offset)
    ensures pkt.body == old(Compress(mode, Ipv6, protocol, pkt.body))
  {
    var versionClassFlow := pkt.Peek(0, 4);
    var hopLimit := pkt.Peek(7, 8);
    pkt.Advance(40);
    CompressL4InPlace(mode, protocol, pkt);
    PushCompressedIpv6(pkt, versionClassFlow, hopLimit);
  }

  /** Compression only ever moves the start of the body forward and never touches its end. */
  method CompressInPlace(mode: CompressionMode, l3: L3Type, protocol: Byte, pkt: Packet)
    requires pkt.Valid() && CompleteHeaders(l3, protocol, pkt.body)
    modifies pkt, pkt.buf
    ensures pkt.Valid() && pkt.End() == old(pkt.End()) && pkt.offset >= old(pkt.offset)
    ensures pkt.body == old(Compress(mode, l3, protocol, pkt.body))
  {
    match l3
    case Ipv4 => CompressIpv4InPlace(mode, protocol, pkt);
    case Ipv6 => CompressIpv6InPlace(mode, protocol, pkt);
    case OtherL3(_) =>
  }

  /** Reads the ports from the packet or, where they were elided, from the five-tuple. */
  method TakePorts(mode: CompressionMode, ft: FiveTuple, pkt: Packet) returns (srcPort: Word, dstPort: Word)
    requires pkt.Valid() && pkt.len >= mode.PortBytes()
    modifies pkt
    ensures pkt.Valid() && pkt.offset == old(pkt.offset) + mode.PortBytes() && pkt.End() == old(pkt.End())
    ensures srcPort == old(SourcePort(mode, ft, pkt.body))
    ensures dstPort == old(DestinationPort(mode, ft, pkt.body))
    ensures pkt.body == old(pkt.body[mode.PortBytes()..])
  {
    srcPort, dstPort := ft.srcPort, ft.dstPort;
    if !mode.sourcePortPresent {
      srcPort := pkt.GetU16();
    }
    if !mode.destinationPortPresent {
      dstPort := pkt.GetU16();
    }
  }

  /** Moves 12 bytes down by 2, which opens a gap for the TCP checksum behind them. */
  method OpenChecksumGap(pkt: Packet)
    requires pkt.Valid() && pkt.len >= 14 && pkt.offset >= 2
    modifies pkt, pkt.buf
    ensures pkt.Valid() && pkt.End() == old(pkt.End()) && pkt.offset == old(pkt.offset) - 2
    ensures pkt.body == old(pkt.body[..12] + pkt.body[10..12] + pkt.body[12..])
  {
    pkt.AllocZeroedHeadroom(2);
    pkt.CopyWithin(2, 14, 0);
  }

  /** Computes the TCP checksum over a zeroed field and fills it in. */
  method SumTcp(ft: FiveTuple, pkt: Packet)
    requires pkt.Valid() && pkt.len >= 20
    modifies pkt, pkt.buf
    ensures pkt.Valid() && pkt.End() == old(pkt.End()) && pkt.offset == old(pkt.offset)
    ensures var unsummed := old(Splice(pkt.body, 16, U16Bytes(0)));
            pkt.body == Splice(unsummed, 16, U16Bytes(TcpChecksum(ft, unsummed)))
  {
    pkt.WriteField(16, U16Bytes(0));
    var segment := pkt.Peek(0, pkt.len);
    assert segment == pkt.body;
    var checksum := L4Checksum(ft.l3Type, ft.srcAddress, ft.dstAddress, TCP, segment);
    pkt.WriteField(16, U16Bytes(checksum));
  }

  method ExpandTcpInPlace(mode: CompressionMode, ft: FiveTuple, pkt: Packet)
    requires pkt.Valid() && ft.l4Protocol == TCP && ExpandableSegment(mode, TCP, pkt.body)
    requires pkt.offset >= SegmentGrowth(mode, TCP)
    modifies pkt, pkt.buf
    ensures pkt.Valid() && pkt.End() == old(pkt.End()) && pkt.offset == old(pkt.offset) - SegmentGrowth(mode, TCP)
    ensures pkt.body == old(ExpandL4(mode, ft, pkt.body))
  {
    var srcPort, dstPort := TakePorts(mode, ft, pkt);
    ghost var rest := pkt.body;
    OpenChecksumGap(pkt);
    PushPorts(pkt, srcPort, dstPort);
    GapZeroed(U16Bytes(srcPort) + U16Bytes(dstPort), rest);
    SumTcp(ft, pkt);
  }

  /** The gap that was opened, with a zero written into it. */
  lemma GapZeroed(ports: Bytes, rest: Bytes)
    requires |ports| == 4 && |rest| >= 12
    ensures Splice(ports + (rest[..12] + rest[10..12] + rest[12..]), 16, U16Bytes(0)) ==
            ports + rest[..12] + U16Bytes(0) + rest[12..]
  {
    assert ports + (rest[..12] + rest[10..12] + rest[12..]) == (ports + rest[..12]) + rest[10..12] + rest[12..];
    SpliceAt(ports + rest[..12], rest[10..12], rest[12..], U16Bytes(0));
  }

  method ExpandUdpInPlace(mode: CompressionMode, ft: FiveTuple, pkt: Packet)
    requires pkt.Valid() && ft.l4Protocol == UDP && ExpandableSegment(mode, UDP, pkt.body)
    requires pkt.offset >= SegmentGrowth(mode, UDP)
    modifies pkt, pkt.buf
    ensures pkt.Valid() && pkt.End() == old(pkt.End()) && pkt.offset == old(pkt.offset) - SegmentGrowth(mode, UDP)
    ensures pkt.body == old(ExpandL4(mode, ft, pkt.body))
  {
    var srcPort, dstPort := TakePorts(mode, ft, pkt);
    var payloadLength := pkt.len - 2;
    pkt.PushU16(AsU16(payloadLength + 8));
    PushPorts(pkt, srcPort, dstPort);
  }

  method ExpandL4InPlace(mode: CompressionMode, ft: FiveTuple, pkt: Packet)
    requires pkt.Valid() && ExpandableSegment(mode, ft.l4Protocol, pkt.body)
    requires pkt.offset >= SegmentGrowth(mode, ft.l4Protocol)
    modifies pkt, pkt.buf
    ensures pkt.Valid() && pkt.End() == old(pkt.End())
    ensures pkt.offset == old(pkt.offset) - SegmentGrowth(mode, ft.l4Protocol)
    ensures pkt.body == old(ExpandL4(mode, ft, pkt.body))
  {
    if ft.l4Protocol == TCP {
      ExpandTcpInPlace(mode, ft, pkt);
    } else if ft.l4Protocol == UDP {
      ExpandUdpInPlace(mode, ft, pkt);
    }
  }

  /** The headroom that expansion takes. */
  ghost function Growth(mode: CompressionMode, ft: FiveTuple, c: Bytes): int
    requires c != []
  {
    NetworkHeaderSize(ft.l3Type) - CompressedHeaderSize(ft.l3Type, c) + SegmentGrowth(mode, ft.l4Protocol)
  }

  /** Consumes the compressed IPv4 header. */
  method TakeIpv4Header(pkt: Packet)
    returns (flagByte: Byte, tos: Byte, fragmentId: Bytes, fragment: Word, ttl: Byte)
    requires pkt.Valid() && pkt.len >= 1 && pkt.len >= CompressedHeaderSize(Ipv4, pkt.body)
    modifies pkt
    ensures var c := old(pkt.body);
            var h := CompressedHeaderSize(Ipv4, c);
            && pkt.Valid() && pkt.offset == old(pkt.offset) + h && pkt.End() == old(pkt.End())
            && flagByte == c[0] && tos == c[1] && fragmentId == c[2..4]
            && fragment == FragmentField(c) && ttl == c[h - 1]
            && pkt.body == c[h..]
  {
    ghost var c := pkt.body;
    var first := pkt.Peek(0, 4);
    flagByte, tos, fragmentId := first[0], first[1], first[2..4];
    assert fragmentId == c[2..4];
    pkt.Advance(4);
    fragment := 0;
    if flagByte / 8 % 2 == 1 {
      fragment := pkt.GetU16();
    }
    fragment := OrFragmentFlags(fragment, flagByte % 8);
    ttl := pkt.GetU8();
  }

  /** The IPv4 header, filled in field by field around a zero checksum. */
  lemma FillIpv4(segment: Bytes, first: Bytes, second: Bytes, third: Bytes, addresses: Bytes)
    requires |first| == 4 && |second| == 4 && |third| == 2 && |addresses| == 8
    ensures Splice(Splice(Splice(Splice(Zeros(20) + segment, 0, first), 4, second), 8, third), 12, addresses) ==
            first + second + third + U16Bytes(0) + addresses + segment
  {
    assert Zeros(20) + segment == [] + Zeros(4) + (Zeros(16) + segment);
    SpliceAt([], Zeros(4), Zeros(16) + segment, first);
    assert [] + first + (Zeros(16) + segment) == first + Zeros(4) + (Zeros(12) + segment);
    SpliceAt(first, Zeros(4), Zeros(12) + segment, second);
    assert first + second + (Zeros(12) + segment) == first + second + Zeros(2) + (Zeros(10) + segment);
    SpliceAt(first + second, Zeros(2), Zeros(10) + segment, third);
    assert first + second + third + (Zeros(10) + segment) ==
           first + second + third + U16Bytes(0) + Zeros(8) + segment;
    SpliceAt(first + second + third + U16Bytes(0), Zeros(8), segment, addresses);
  }

  method PushIpv4Header(pkt: Packet, first: Bytes, second: Bytes, third: Bytes, addresses: Bytes)
    requires pkt.Valid() && pkt.offset >= 20
    requires |first| == 4 && |second| == 4 && |third| == 2 && |addresses| == 8
    modifies pkt, pkt.buf
    ensures pkt.Valid() && pkt.End() == old(pkt.End())
    ensures pkt.body == first + second + third + U16Bytes(0) + addresses + old(pkt.body)
  {
    FillIpv4(pkt.body, first, second, third, addresses);
    pkt.AllocZeroedHeadroom(20);
    pkt.WriteField(0, first);
    pkt.WriteField(4, second);
    pkt.WriteField(8, third);
    pkt.WriteField(12, addresses);
  }

  /** Pushes the header with everything but its checksum. */
  method PushUnsummedIpv4(pkt: Packet, ft: FiveTuple, headerWords: nat, tos: Byte, fragmentId: Bytes, fragment: Word,
                          ttl: Byte)
    requires pkt.Valid() && pkt.offset >= 20 && headerWords < 16 && |fragmentId| == 2
    modifies pkt, pkt.buf
    ensures pkt.Valid() && pkt.End() == old(pkt.End())
    ensures pkt.body == old(Ipv4HeaderBytes(headerWords, tos, AsU16(pkt.len + 20), fragmentId, fragment, ttl,
                                            ft.l4Protocol, ReadAsV4(ft.srcAddress), ReadAsV4(ft.dstAddress)) + pkt.body)
  {
    var first := [4 * 16 + headerWords, tos] + U16Bytes(AsU16(pkt.len + 20));
    var second := fragmentId + U16Bytes(fragment);
    var addresses := ReadAsV4(ft.srcAddress) + ReadAsV4(ft.dstAddress);
    PushIpv4Header(pkt, first, second, [ttl, ft.l4Protocol], addresses);
  }

  method ExpandIpv4InPlace(mode: CompressionMode, ft: FiveTuple, pkt: Packet)
    requires pkt.Valid() && ft.l3Type.Ipv4? && Expandable(mode, ft, pkt.body)
    requires pkt.offset >= Growth(mode, ft, pkt.body)
    modifies pkt, pkt.buf
    ensures pkt.Valid() && pkt.End() == old(pkt.End())
    ensures pkt.body == old(ExpandIpv4(mode, ft, pkt.body))
  {
    ghost var c := pkt.body;
    var flagByte, tos, fragmentId, fragment, ttl := TakeIpv4Header(pkt);
    ExpandL4InPlace(mode, ft, pkt);
    UnsummedParts(mode, ft, c, pkt.body);
    PushUnsummedIpv4(pkt, ft, flagByte / 16, tos, fragmentId, fragment, ttl);
    SumIpv4Header(pkt, flagByte / 16 * 4);
  }

  method SumIpv4Header(pkt: Packet, size: nat)
    requires pkt.Valid() && size <= pkt.len && 12 <= pkt.len
    modifies pkt, pkt.buf
    ensures pkt.Valid() && pkt.End() == old(pkt.End())
    ensures pkt.body == old(Splice(pkt.body, 10, U16Bytes(Checksum(pkt.body[..size]))))
  {
    var header := pkt.Peek(0, size);
    assert header == pkt.body[..size];
    pkt.WriteField(10, U16Bytes(Checksum(header)));
  }

  method PushIpv6Header(pkt: Packet, first: Bytes, addresses: Bytes)
    requires pkt.Valid() && pkt.offset >= 40 && |first| == 8 && |addresses| == 32
    modifies pkt, pkt.buf
    ensures pkt.Valid() && pkt.End() == old(pkt.End())
    ensures pkt.body == first + addresses + old(pkt.body)
  {
    ghost var segment := pkt.body;
    assert Zeros(40) + segment == [] + Zeros(8) + (Zeros(32) + segment);
    SpliceAt([], Zeros(8), Zeros(32) + segment, first);
    assert [] + first + (Zeros(32) + segment) == first + Zeros(32) + segment;
    SpliceAt(first, Zeros(32), segment, addresses);
    pkt.AllocZeroedHeadroom(40);
    pkt.WriteField(0, first);
    pkt.WriteField(8, addresses);
  }

  method ExpandIpv6InPlace(mode: CompressionMode, ft: FiveTuple, pkt: Packet)
    requires pkt.Valid() && ft.l3Type.Ipv6? && Expandable(mode, ft, pkt.body)
    requires pkt.offset >= Growth(mode, ft, pkt.body)
    modifies pkt, pkt.buf
    ensures pkt.Valid() && pkt.End() == old(pkt.End())
    ensures pkt.body == old(ExpandIpv6(mode, ft, pkt.body))
  {
    ghost var c := pkt.body;
    var chdr := pkt.Peek(0, 5);
    assert chdr[..4] == c[..4] && chdr[4] == c[4];
    pkt.Advance(5);
    ExpandL4InPlace(mode, ft, pkt);
    var bodyLength := pkt.len;
    var first := chdr[..4] + U16Bytes(AsU16(bodyLength)) + [ft.l4Protocol, chdr[4]];
    ghost var segment := pkt.body;
    PushIpv6Header(pkt, first, ft.srcAddress + ft.dstAddress);
    assert first + (ft.srcAddress + ft.dstAddress) + segment == ExpandIpv6(mode, ft, c);
  }

  method ExpandInPlace(mode: CompressionMode, ft: FiveTuple, pkt: Packet)
    requires pkt.Valid() && Expandable(mode, ft, pkt.body)
    requires !ft.l3Type.OtherL3? ==> pkt.offset >= Growth(mode, ft, pkt.body)
    modifies pkt, pkt.buf
    ensures pkt.Valid() && pkt.End() == old(pkt.End())
    ensures pkt.body == old(Expand(mode, ft, pkt.body))
  {
    match ft.l3Type
    case Ipv4 => ExpandIpv4InPlace(mode, ft, pkt);
    case Ipv6 => ExpandIpv6InPlace(mode, ft, pkt);
    case OtherL3(_) =>
  }
}
