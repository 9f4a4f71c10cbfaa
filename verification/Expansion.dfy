/** What expansion produces is a packet the classifier accepts. */
module Expansion {
  import opened NetDefs
  import opened InternetChecksum
  import opened Classifier
  import opened HeaderCodec

  /** The data offset, in bytes, that a compressed TCP segment carries. */
  function CompressedDataOffset(mode: CompressionMode, c: Bytes): nat
    requires |c| >= mode.PortBytes() + 14
  {
    c[mode.PortBytes() + 8] / 16 * 4
  }

  /** The conditions on tuple and compressed bytes for a well-formed TCP packet. */
  predicate Legal(mode: CompressionMode, ft: FiveTuple, c: Bytes)
    requires !ft.l3Type.OtherL3? && ft.l4Protocol == TCP && Expandable(mode, ft, c)
  {
    var segment := c[CompressedHeaderSize(ft.l3Type, c)..];
    var length := |segment| + SegmentGrowth(mode, TCP);
    && TCP_HEADER_SIZE <= CompressedDataOffset(mode, segment) <= length
    && (ft.l3Type.Ipv4? ==>
          && FragmentField(c) % 0x4000 == 0
          && IPV4_HEADER_SIZE + length < 0x1_0000)
    && (ft.l3Type.Ipv6? ==>
          && !IsV4(ft.srcAddress) && !IsV4(ft.dstAddress)
          && length < 0x1_0000)
  }

  lemma ExpandedTcp(mode: CompressionMode, ft: FiveTuple, c: Bytes)
    requires ft.l4Protocol == TCP && ExpandableSegment(mode, TCP, c)
    ensures var segment := ExpandL4(mode, ft, c);
            && |segment| >= TCP_HEADER_SIZE
            && ValidL4Checksum(ft, segment)
            && U16At(segment, 0) == SourcePort(mode, ft, c)
            && U16At(segment, 2) == DestinationPort(mode, ft, c)
            && DataOffset(segment) == CompressedDataOffset(mode, c)
  {
    var unsummed := UnsummedTcp(mode, ft, c);
    var checksum := TcpChecksum(ft, unsummed);
    var segment := ExpandL4(mode, ft, c);
    L4ChecksumUnique(ft.l3Type, ft.srcAddress, ft.dstAddress, TCP, unsummed, 16, checksum);
    assert unsummed[16..18] == U16Bytes(0);
    SpliceIdentity(unsummed, 16, 2);
    assert unsummed[12] == c[mode.PortBytes()..][..12][8];
  }

  /** The tuple the classifier reads off an expanded TCP packet. */
  function ExpandedTuple(mode: CompressionMode, ft: FiveTuple, c: Bytes): FiveTuple
    requires !ft.l3Type.OtherL3? && ft.l4Protocol == TCP && Expandable(mode, ft, c)
  {
    var segment := c[CompressedHeaderSize(ft.l3Type, c)..];
    var address := (a: IpAddress) => if ft.l3Type.Ipv4? then FromV4(ReadAsV4(a)) else a;
    FiveTuple(ft.l3Type, address(ft.srcAddress), address(ft.dstAddress), TCP,
              SourcePort(mode, ft, segment), DestinationPort(mode, ft, segment))
  }

  lemma TcpClassification(start: FiveTuple, ft: FiveTuple, segment: Bytes)
    requires ft.l4Protocol == TCP && |segment| >= TCP_HEADER_SIZE && ValidL4Checksum(ft, segment)
    requires start.l3Type == ft.l3Type
    requires PseudoHeader(start.l3Type, start.srcAddress, start.dstAddress, TCP, |segment|) ==
             PseudoHeader(ft.l3Type, ft.srcAddress, ft.dstAddress, TCP, |segment|)
    ensures var r := ClassifyNextHeader(start, segment, TCP, DEFAULT_OPTIONS);
            && (r.outcome == Ok(OK) <==> TCP_HEADER_SIZE <= DataOffset(segment) <= |segment|)
            && r.ft == start.(l4Protocol := TCP, srcPort := U16At(segment, 0), dstPort := U16At(segment, 2))
            && (r.outcome == Ok(OK) || r.outcome == Err(LengthError))
  {
    assert NextHop(segment, TCP) == NoHop;
  }

  /**
    An expanded TCP packet, with a plain IPv4 or an IPv6 header, is accepted exactly when the
    compressed bytes were legal; then the classifier finds the tuple's addresses and
    protocol, and its ports wherever the mode elides them.
   */
  lemma ExpansionWellFormed(mode: CompressionMode, ft: FiveTuple, c: Bytes, ft0: FiveTuple)
    requires !ft.l3Type.OtherL3? && ft.l4Protocol == TCP && Expandable(mode, ft, c)
    requires c[0] / 16 == if ft.l3Type.Ipv4? then 5 else 6
    ensures var r := Classify(ft0, Expand(mode, ft, c), DEFAULT_OPTIONS);
            && (r.outcome == Ok(OK) <==> Legal(mode, ft, c))
            && (Legal(mode, ft, c) ==> r.ft == ExpandedTuple(mode, ft, c))
  {
    if ft.l3Type.Ipv4? {
      Ipv4WellFormed(mode, ft, c, ft0);
    } else {
      Ipv6WellFormed(mode, ft, c, ft0);
    }
  }

  lemma Ipv4WellFormed(mode: CompressionMode, ft: FiveTuple, c: Bytes, ft0: FiveTuple)
    requires ft.l3Type.Ipv4? && ft.l4Protocol == TCP && Expandable(mode, ft, c) && c[0] / 16 == 5
    ensures var r := Classify(ft0, Expand(mode, ft, c), DEFAULT_OPTIONS);
            && (r.outcome == Ok(OK) <==> Legal(mode, ft, c))
            && (Legal(mode, ft, c) ==> r.ft == ExpandedTuple(mode, ft, c))
  {
    var body := c[CompressedHeaderSize(Ipv4, c)..];
    var segment := ExpandL4(mode, ft, body);
    var header := PlainHeader(ft, c, |segment|);
    ExpandedTcp(mode, ft, body);
    UnsummedIsPlain(mode, ft, c, segment);
    ExpandedIpv4Bytes(mode, ft, c, segment, header);
    PlainPacketReads(ft, c, segment);
    ClassifyPlainIpv4(ft, Splice(header + segment, 10, U16Bytes(Checksum(header))), segment, ft0);
  }

  /** The classifier on a packet with a plain, validly summed IPv4 header in front of TCP. */
  lemma ClassifyPlainIpv4(ft: FiveTuple, q: Bytes, segment: Bytes, ft0: FiveTuple)
    requires ft.l3Type.Ipv4? && ft.l4Protocol == TCP && |segment| >= TCP_HEADER_SIZE && ValidL4Checksum(ft, segment)
    requires |q| == 20 + |segment| && q[20..] == segment && q[0] == 0x45 && q[9] == TCP
    requires U16At(q, 2) == AsU16(|q|) && Checksum(q[..20]) == 0
    requires q[12..16] == ReadAsV4(ft.srcAddress) && q[16..20] == ReadAsV4(ft.dstAddress)
    ensures var r := Classify(ft0, q, DEFAULT_OPTIONS);
            var legal := TCP_HEADER_SIZE <= DataOffset(segment) <= |segment| && U16At(q, 6) % 0x4000 == 0 &&
                         |q| < 0x1_0000;
            && (r.outcome == Ok(OK) <==> legal)
            && (legal ==> r.ft == FiveTuple(Ipv4, FromV4(ReadAsV4(ft.srcAddress)), FromV4(ReadAsV4(ft.dstAddress)), TCP,
                                            U16At(segment, 0), U16At(segment, 2)))
  {
    var start := ft0.(l3Type := Ipv4, srcAddress := FromV4(q[12..16]), dstAddress := FromV4(q[16..20]));
    TcpClassification(start, ft, segment);
    FragmentBits(U16At(q, 6));
    assert |q| >= 0x1_0000 ==> LengthMismatch(|q|, U16At(q, 2), DEFAULT_OPTIONS);
  }

  lemma FragmentBits(w: Word)
    ensures w % 0x4000 == 0 <==> w % 0x2000 == 0 && w / 0x2000 % 2 == 0
  {
  }

  lemma UnsummedIsPlain(mode: CompressionMode, ft: FiveTuple, c: Bytes, segment: Bytes)
    requires ft.l3Type.Ipv4? && ft.l4Protocol == TCP && Expandable(mode, ft, c) && c[0] / 16 == 5
    requires segment == ExpandL4(mode, ft, c[CompressedHeaderSize(Ipv4, c)..])
    ensures UnsummedIpv4(mode, ft, c) == PlainHeader(ft, c, |segment|) + segment
  {
  }

  /** The fields of an expanded packet, read back. */
  lemma PlainPacketReads(ft: FiveTuple, c: Bytes, segment: Bytes)
    requires c != [] && |c| >= CompressedHeaderSize(Ipv4, c)
    ensures var header := PlainHeader(ft, c, |segment|);
            var q := Splice(header + segment, 10, U16Bytes(Checksum(header)));
            && |q| == 20 + |segment| && q[0] == 0x45
            && U16At(q, 2) == AsU16(|segment| + 20) && U16At(q, 6) == FragmentField(c) && q[9] == TCP
            && q[12..16] == ReadAsV4(ft.srcAddress) && q[16..20] == ReadAsV4(ft.dstAddress) && q[20..] == segment
            && Checksum(q[..20]) == 0
  {
    SummedReads(c[1], AsU16(|segment| + 20), c[2..4], FragmentField(c), c[CompressedHeaderSize(Ipv4, c) - 1],
                ReadAsV4(ft.srcAddress), ReadAsV4(ft.dstAddress), segment);
  }

  /** The plain header in front of a segment of the given length, checksum still zero. */
  function PlainHeader(ft: FiveTuple, c: Bytes, length: nat): (h: Bytes)
    requires c != [] && |c| >= CompressedHeaderSize(Ipv4, c)
    ensures |h| == 20
  {
    Ipv4HeaderBytes(5, c[1], AsU16(length + 20), c[2..4], FragmentField(c), c[CompressedHeaderSize(Ipv4, c) - 1],
                    TCP, ReadAsV4(ft.srcAddress), ReadAsV4(ft.dstAddress))
  }

  lemma ExpandedIpv4Bytes(mode: CompressionMode, ft: FiveTuple, c: Bytes, segment: Bytes, header: Bytes)
    requires ft.l3Type.Ipv4? && Expandable(mode, ft, c) && c[0] / 16 == 5
    requires |header| == 20 && UnsummedIpv4(mode, ft, c) == header + segment
    ensures Expand(mode, ft, c) == Splice(header + segment, 10, U16Bytes(Checksum(header)))
  {
    var unsummed := UnsummedIpv4(mode, ft, c);
    assert c[0] / 16 * 4 == 20;
    assert unsummed[..20] == header;
    assert Expand(mode, ft, c) == Splice(unsummed, 10, U16Bytes(Checksum(unsummed[..20])));
  }

  lemma SummedReads(tos: Byte, length: Word, id: Bytes, fragment: Word, ttl: Byte, src: Bytes, dst: Bytes,
                    segment: Bytes)
    requires |id| == 2 && |src| == 4 && |dst| == 4
    ensures var header := Ipv4HeaderBytes(5, tos, length, id, fragment, ttl, TCP, src, dst);
            var q := Splice(header + segment, 10, U16Bytes(Checksum(header)));
            && |q| == 20 + |segment| && q[0] == 0x45
            && U16At(q, 2) == length && U16At(q, 6) == fragment && q[9] == TCP
            && q[12..16] == src && q[16..20] == dst && q[20..] == segment
            && Checksum(q[..20]) == 0
  {
    var header := Ipv4HeaderBytes(5, tos, length, id, fragment, ttl, TCP, src, dst);
    var q := Splice(header + segment, 10, U16Bytes(Checksum(header)));
    HeaderReads(tos, length, id, fragment, ttl, src, dst);
    SumHeader(header, segment);
    assert forall i :: 0 <= i < 10 ==> q[i] == q[..10][i];
    assert q[12..16] == q[12..20][..4] && q[16..20] == q[12..20][4..];
  }

  /** Filling the checksum of a plain header in makes it valid and changes nothing else. */
  lemma SumHeader(header: Bytes, segment: Bytes)
    requires |header| == 20 && header[10..12] == U16Bytes(0)
    ensures var q := Splice(header + segment, 10, U16Bytes(Checksum(header)));
            && Checksum(q[..20]) == 0
            && q[..10] == header[..10] && q[12..20] == header[12..] && q[20..] == segment
  {
    var checksum := Checksum(header);
    var q := Splice(header + segment, 10, U16Bytes(checksum));
    ChecksumUnique(header, 10, checksum);
    SpliceIdentity(header, 10, 2);
    assert q[..20] == Splice(header, 10, U16Bytes(checksum));
  }

  lemma HeaderReads(tos: Byte, length: Word, id: Bytes, fragment: Word, ttl: Byte, src: Bytes, dst: Bytes)
    requires |id| == 2 && |src| == 4 && |dst| == 4
    ensures var h := Ipv4HeaderBytes(5, tos, length, id, fragment, ttl, TCP, src, dst);
            && h[0] == 0x45 && U16At(h, 2) == length && U16At(h, 6) == fragment && h[9] == TCP
            && h[10..12] == U16Bytes(0) && h[12..16] == src && h[16..20] == dst
  {
  }

  lemma Ipv6WellFormed(mode: CompressionMode, ft: FiveTuple, c: Bytes, ft0: FiveTuple)
    requires ft.l3Type.Ipv6? && ft.l4Protocol == TCP && Expandable(mode, ft, c) && c[0] / 16 == 6
    ensures var r := Classify(ft0, Expand(mode, ft, c), DEFAULT_OPTIONS);
            && (r.outcome == Ok(OK) <==> Legal(mode, ft, c))
            && (Legal(mode, ft, c) ==> r.ft == ExpandedTuple(mode, ft, c))
  {
    var segment := ExpandL4(mode, ft, c[5..]);
    var q := Expand(mode, ft, c);
    ExpandedTcp(mode, ft, c[5..]);
    assert q[0] == c[0] && q[6] == TCP && U16At(q, 4) == AsU16(|segment|);
    assert q[8..24] == ft.srcAddress && q[24..40] == ft.dstAddress && q[40..] == segment;
    var start := ft0.(l3Type := Ipv6, srcAddress := ft.srcAddress, dstAddress := ft.dstAddress);
    TcpClassification(start, ft, segment);
  }
}
