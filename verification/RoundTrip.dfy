/** The codec's central law: which packets expansion after compression gives back. */
module RoundTrip {
  import opened NetDefs
  import opened InternetChecksum
  import opened Classifier
  import opened ClassifierTheorems
  import opened HeaderCodec
  import opened CodecTheorems

  // ---------------------------------------------------------------------------------------
  // Valid checksum fields and the ones expansion computes

  /** A recomputed checksum is never 0xFFFF; it stands for a stored 0xFFFF as 0x0000. */
  function Canonical(field: Word): Word {
    if field == 0xFFFF then 0 else field
  }

  lemma HeaderSumCanonical(ft: FiveTuple, p: Bytes)
    requires Ipv4Facts(ft, p)
    ensures Checksum(Splice(p, 10, U16Bytes(0))[..HeaderLength(p)]) == Canonical(U16At(p, 10))
  {
    var header := p[..HeaderLength(p)];
    var zeroed := Splice(header, 10, U16Bytes(0));
    assert Splice(p, 10, U16Bytes(0))[..HeaderLength(p)] == zeroed;
    U16RoundTrip(header, 10);
    SpliceIdentity(header, 10, 2);
    ChecksumUnique(header, 10, U16At(p, 10));
    assert zeroed[0] != 0;
    ComputedNotAllOnes(zeroed);
  }

  lemma TcpSumCanonical(ft: FiveTuple, segment: Bytes)
    requires |segment| >= TCP_HEADER_SIZE && ft.l4Protocol == TCP && ValidL4Checksum(ft, segment)
    ensures TcpChecksum(ft, Splice(segment, 16, U16Bytes(0))) == Canonical(U16At(segment, 16))
  {
    var zeroed := Splice(segment, 16, U16Bytes(0));
    U16RoundTrip(segment, 16);
    SpliceIdentity(segment, 16, 2);
    L4ChecksumUnique(ft.l3Type, ft.srcAddress, ft.dstAddress, TCP, segment, 16, U16At(segment, 16));
    NamesProtocol(ft, |segment|);
    var h := PseudoHeader(ft.l3Type, ft.srcAddress, ft.dstAddress, TCP, |segment|);
    var k :| 0 <= k < |h| && h[k] != 0;
    assert (h + zeroed)[k] != 0;
    ComputedNotAllOnes(h + zeroed);
  }

  lemma NamesProtocol(ft: FiveTuple, length: nat)
    ensures var h := PseudoHeader(ft.l3Type, ft.srcAddress, ft.dstAddress, TCP, length);
            exists k :: 0 <= k < |h| && h[k] != 0
  {
    var h := PseudoHeader(ft.l3Type, ft.srcAddress, ft.dstAddress, TCP, length);
    assert h[if ft.l3Type.Ipv4? then 9 else 39] == TCP;
  }

  // ---------------------------------------------------------------------------------------
  // The exact round-trip condition, for every packet the classifier accepts

  /**
    The condition under which a packet comes back byte for byte: no extension header was
    skipped, the header checksum is not 0xFFFF, and the bytes behind the fixed network header
    carry the ports and the length or checksum that expansion will write there.
   */
  predicate Survives(mode: CompressionMode, ft: FiveTuple, p: Bytes)
    requires CompleteHeaders(ft.l3Type, ft.l4Protocol, p)
  {
    ft.l3Type.OtherL3? ||
    (&& FirstProtocol(ft.l3Type, p) == ft.l4Protocol
     && (ft.l3Type.Ipv4? ==> U16At(p, 10) != 0xFFFF)
     && SegmentSurvives(mode, ft, p[NetworkHeaderSize(ft.l3Type)..]))
  }

  lemma RoundTripIff(mode: CompressionMode, ft0: FiveTuple, p: Bytes)
    requires IsAccepted(ft0, p)
    ensures var ft := Tuple(ft0, p);
            && CompleteHeaders(ft.l3Type, ft.l4Protocol, p)
            && Expandable(mode, ft, Compress(mode, ft.l3Type, ft.l4Protocol, p))
            && (Expand(mode, ft, Compress(mode, ft.l3Type, ft.l4Protocol, p)) == p <==> Survives(mode, ft, p))
  {
    var ft := Tuple(ft0, p);
    AcceptedFacts(ft0, p);
    if ft.l3Type.Ipv4? {
      Ipv4RoundTripIff(mode, ft, p);
    } else {
      Ipv6RoundTripIff(mode, ft, p);
    }
  }

  /** The IPv4 half, for every packet with a valid header sum; fragments with an offset included. */
  lemma Ipv4RoundTripIff(mode: CompressionMode, ft: FiveTuple, p: Bytes)
    requires Ipv4Facts(ft, p) && FullSegment(ft.l4Protocol, p[20..])
    ensures Expandable(mode, ft, Compress(mode, Ipv4, ft.l4Protocol, p))
    ensures Through(mode, ft, p) == p <==> Survives(mode, ft, p)
  {
    var rebuilt := Rebuilt(mode, ft, p[20..]);
    var unsummed := p[..9] + [ft.l4Protocol] + U16Bytes(0) + p[12..20] + rebuilt;
    ThroughIpv4(mode, ft, p);
    SegmentSurvivesIff(mode, ft, p[20..]);
    HeaderSumCanonical(ft, p);
    Ipv4Reassembles(ft.l4Protocol, p, rebuilt, Checksum(unsummed[..HeaderLength(p)]));
  }

  /** A fragment of a protocol that is not compressed comes back, its offset and flags included. */
  lemma FragmentRestoredIff(mode: CompressionMode, ft: FiveTuple, p: Bytes)
    requires Ipv4Facts(ft, p) && FragmentOffset(p) != 0
    requires p[9] == ft.l4Protocol && ft.l4Protocol != TCP && ft.l4Protocol != UDP
    ensures Expandable(mode, ft, Compress(mode, Ipv4, ft.l4Protocol, p))
    ensures |CompressedIpv4Header(p)| == 7
    ensures Through(mode, ft, p) == p <==> U16At(p, 10) != 0xFFFF
  {
    Ipv4RoundTripIff(mode, ft, p);
  }

  /** An IPv4 packet with three fields rewritten is the old one just when all three agree. */
  lemma Ipv4Reassembles(protocol: Byte, p: Bytes, segment: Bytes, checksum: Word)
    requires |p| >= 20 && |segment| == |p| - 20
    ensures var unsummed := p[..9] + [protocol] + U16Bytes(0) + p[12..20] + segment;
            && (Splice(unsummed, 10, U16Bytes(checksum)) == p <==>
                p[9] == protocol && segment == p[20..] && U16At(p, 10) == checksum)
            && (p[9] == protocol && segment == p[20..] ==> unsummed == Splice(p, 10, U16Bytes(0)))
  {
    var unsummed := p[..9] + [protocol] + U16Bytes(0) + p[12..20] + segment;
    var q := Splice(unsummed, 10, U16Bytes(checksum));
    assert unsummed == (p[..9] + [protocol]) + U16Bytes(0) + (p[12..20] + segment);
    SpliceAt(p[..9] + [protocol], U16Bytes(0), p[12..20] + segment, U16Bytes(checksum));
    assert q[9] == protocol && q[20..] == segment && q[10..12] == U16Bytes(checksum);
    U16RoundTrip(p, 10);
    if p[9] == protocol && segment == p[20..] {
      assert p[..9] + [protocol] == p[..10] && p[12..20] + segment == p[12..];
      if U16Bytes(checksum) == p[10..12] {
        assert p == p[..10] + p[10..12] + p[12..];
      }
    }
  }

  lemma Ipv6RoundTripIff(mode: CompressionMode, ft: FiveTuple, p: Bytes)
    requires Ipv6Facts(ft, p) && FullSegment(ft.l4Protocol, p[40..])
    ensures Expandable(mode, ft, Compress(mode, Ipv6, ft.l4Protocol, p))
    ensures Through(mode, ft, p) == p <==> Survives(mode, ft, p)
  {
    ThroughIpv6(mode, ft, p);
    SegmentSurvivesIff(mode, ft, p[40..]);
    Ipv6Reassembles(ft.l4Protocol, p, Rebuilt(mode, ft, p[40..]));
  }

  lemma Ipv6Reassembles(protocol: Byte, p: Bytes, segment: Bytes)
    requires |p| >= 40
    ensures p[..6] + [protocol] + p[7..40] + segment == p <==> p[6] == protocol && segment == p[40..]
  {
    var q := p[..6] + [protocol] + p[7..40] + segment;
    assert q[6] == protocol && q[40..] == segment;
    if p[6] == protocol && segment == p[40..] {
      assert p == p[..6] + [p[6]] + p[7..40] + p[40..];
    }
  }

  // ---------------------------------------------------------------------------------------
  // The codec's own domain: no extension header, and no IPv4 options in front of TCP or UDP

  predicate InDomain(ft: FiveTuple, p: Bytes) {
    && !ft.l3Type.OtherL3? && |p| >= NetworkHeaderSize(ft.l3Type)
    && FirstProtocol(ft.l3Type, p) == ft.l4Protocol
    && (ft.l3Type.Ipv4? && (ft.l4Protocol == TCP || ft.l4Protocol == UDP) ==> HeaderLength(p) == IPV4_HEADER_SIZE)
  }

  /** What the classifier checked about the segment that compression will cut. */
  ghost predicate SegmentFacts(ft: FiveTuple, segment: Bytes) {
    && (ft.l4Protocol == TCP || ft.l4Protocol == UDP ==>
          |segment| >= 8 && ft.srcPort == U16At(segment, 0) && ft.dstPort == U16At(segment, 2))
    && (ft.l4Protocol == TCP ==> |segment| >= TCP_HEADER_SIZE && ValidL4Checksum(ft, segment))
    && (ft.l4Protocol == UDP ==> U16At(segment, 4) == |segment|)
  }

  lemma DomainSegment(ft0: FiveTuple, p: Bytes)
    requires IsAccepted(ft0, p) && InDomain(Tuple(ft0, p), p)
    ensures var ft := Tuple(ft0, p);
            SegmentFacts(ft, p[NetworkHeaderSize(ft.l3Type)..])
  {
    AcceptedFacts(ft0, p);
    var ft := Tuple(ft0, p);
    var protocol := FirstProtocol(ft.l3Type, p);
    assert NextHop(p[if ft.l3Type.Ipv4? then HeaderLength(p) else 40..], protocol) == NoHop;
  }

  function CanonicalSegment(ft: FiveTuple, segment: Bytes): Bytes {
    if ft.l4Protocol == TCP && |segment| >= TCP_HEADER_SIZE then
      Splice(segment, 16, U16Bytes(Canonical(U16At(segment, 16))))
    else
      segment
  }

  /** The packet with a checksum field of 0xFFFF, IPv4 or TCP, replaced by 0x0000. */
  function CanonicalPacket(ft: FiveTuple, p: Bytes): Bytes
    requires |p| >= NetworkHeaderSize(ft.l3Type)
  {
    var n := NetworkHeaderSize(ft.l3Type);
    var header := if ft.l3Type.Ipv4? then Splice(p[..n], 10, U16Bytes(Canonical(U16At(p, 10)))) else p[..n];
    header + CanonicalSegment(ft, p[n..])
  }

  lemma RebuiltCanonical(mode: CompressionMode, ft: FiveTuple, segment: Bytes)
    requires SegmentFacts(ft, segment)
    ensures Rebuilt(mode, ft, segment) == CanonicalSegment(ft, segment)
  {
    if ft.l4Protocol == TCP {
      PortFields(segment, ft.srcPort, ft.dstPort);
      assert U16Bytes(ft.srcPort) + U16Bytes(ft.dstPort) + segment[4..] == segment;
      TcpSumCanonical(ft, segment);
      assert Splice(Splice(segment, 16, U16Bytes(0)), 16, U16Bytes(Canonical(U16At(segment, 16)))) ==
             CanonicalSegment(ft, segment);
    } else {
      SegmentSurvivesIff(mode, ft, segment);
    }
  }

  /**
    In the codec's domain every packet comes back with at most its 0xFFFF checksum fields
    turned into 0x0000, whatever ports the mode elides.
   */
  lemma RoundTripCanonical(mode: CompressionMode, ft0: FiveTuple, p: Bytes)
    requires IsAccepted(ft0, p) && InDomain(Tuple(ft0, p), p)
    ensures var ft := Tuple(ft0, p);
            && CompleteHeaders(ft.l3Type, ft.l4Protocol, p)
            && Expandable(mode, ft, Compress(mode, ft.l3Type, ft.l4Protocol, p))
            && Expand(mode, ft, Compress(mode, ft.l3Type, ft.l4Protocol, p)) == CanonicalPacket(ft, p)
  {
    var ft := Tuple(ft0, p);
    AcceptedFacts(ft0, p);
    Compressible(mode, ft0, p);
    DomainSegment(ft0, p);
    if ft.l3Type.Ipv4? {
      ThroughIpv4(mode, ft, p);
      RebuiltCanonical(mode, ft, p[20..]);
      Ipv4Canonical(ft, p);
    } else {
      ThroughIpv6(mode, ft, p);
      RebuiltCanonical(mode, ft, p[40..]);
      assert p[..40] == p[..6] + [ft.l4Protocol] + p[7..40];
    }
  }

  lemma Ipv4Canonical(ft: FiveTuple, p: Bytes)
    requires Ipv4Facts(ft, p) && InDomain(ft, p)
    ensures var unsummed := p[..9] + [ft.l4Protocol] + U16Bytes(0) + p[12..20] + CanonicalSegment(ft, p[20..]);
            && |unsummed| == |p|
            && Splice(unsummed, 10, U16Bytes(Checksum(unsummed[..HeaderLength(p)]))) == CanonicalPacket(ft, p)
  {
    Ipv4Summed(ft, p);
    HeaderSumCanonical(ft, p);
    assert Splice(p, 10, U16Bytes(0))[..HeaderLength(p)] == Splice(p[..HeaderLength(p)], 10, U16Bytes(0));
  }

  /** Whatever the header checksum was, the one that belongs there is filled in. */
  lemma Ipv4Summed(ft: FiveTuple, p: Bytes)
    requires Ipv4Layout(ft, p) && InDomain(ft, p)
    ensures var unsummed := p[..9] + [ft.l4Protocol] + U16Bytes(0) + p[12..20] + CanonicalSegment(ft, p[20..]);
            && |unsummed| == |p|
            && Splice(unsummed, 10, U16Bytes(Checksum(unsummed[..HeaderLength(p)]))) ==
               Splice(p[..20], 10, U16Bytes(FieldChecksum(p[..HeaderLength(p)], 10))) + CanonicalSegment(ft, p[20..])
  {
    var segment := CanonicalSegment(ft, p[20..]);
    assert p[..9] + [ft.l4Protocol] == p[..10];
    assert p[..9] + [ft.l4Protocol] + U16Bytes(0) + p[12..20] + segment ==
           p[..10] + U16Bytes(0) + (p[12..20] + segment);
    CanonicalHeaderBytes(ft, p, segment);
    assert Splice(p, 10, U16Bytes(0))[..HeaderLength(p)] == Splice(p[..HeaderLength(p)], 10, U16Bytes(0));
    FillHeader(p, segment, U16Bytes(FieldChecksum(p[..HeaderLength(p)], 10)));
  }

  /** The header bytes that are summed are those of the packet itself. */
  lemma CanonicalHeaderBytes(ft: FiveTuple, p: Bytes, segment: Bytes)
    requires Ipv4Layout(ft, p) && InDomain(ft, p) && segment == CanonicalSegment(ft, p[20..])
    ensures var unsummed := p[..10] + U16Bytes(0) + (p[12..20] + segment);
            |unsummed| == |p| && unsummed[..HeaderLength(p)] == Splice(p, 10, U16Bytes(0))[..HeaderLength(p)]
  {
    if ft.l4Protocol != TCP {
      assert p[12..20] + segment == p[12..];
    }
  }

  lemma FillHeader(p: Bytes, segment: Bytes, field: Bytes)
    requires |p| >= 20 && |field| == 2
    ensures Splice(p[..10] + U16Bytes(0) + (p[12..20] + segment), 10, field) == Splice(p[..20], 10, field) + segment
  {
    SpliceAt(p[..10], U16Bytes(0), p[12..20] + segment, field);
    assert p[..20] == p[..10] + p[10..12] + p[12..20];
    SpliceAt(p[..10], p[10..12], p[12..20], field);
    assert p[..10] + field + (p[12..20] + segment) == p[..10] + field + p[12..20] + segment;
  }

  /** So a packet of the domain survives exactly when none of its summed fields is 0xFFFF. */
  lemma DomainSurvivesIff(mode: CompressionMode, ft0: FiveTuple, p: Bytes)
    requires IsAccepted(ft0, p) && InDomain(Tuple(ft0, p), p)
    ensures var ft := Tuple(ft0, p);
            var n := NetworkHeaderSize(ft.l3Type);
            && CompleteHeaders(ft.l3Type, ft.l4Protocol, p)
            && (Survives(mode, ft, p) <==>
                (ft.l3Type.Ipv4? ==> U16At(p, 10) != 0xFFFF) &&
                (ft.l4Protocol == TCP ==> U16At(p, n + 16) != 0xFFFF))
  {
    var ft := Tuple(ft0, p);
    AcceptedFacts(ft0, p);
    DomainSegment(ft0, p);
    var n := NetworkHeaderSize(ft.l3Type);
    var segment := p[n..];
    if ft.l4Protocol == TCP {
      TcpSumCanonical(ft, segment);
      assert U16At(segment, 16) == U16At(p, n + 16);
    }
  }

  // ---------------------------------------------------------------------------------------
  // Trailers

  /** Compression never looks at the end of the packet. */
  lemma CompressKeepsTrailer(mode: CompressionMode, l3: L3Type, protocol: Byte, p: Bytes, trailer: Bytes)
    requires CompleteHeaders(l3, protocol, p)
    ensures CompleteHeaders(l3, protocol, p + trailer)
    ensures Compress(mode, l3, protocol, p + trailer) == Compress(mode, l3, protocol, p) + trailer
  {
    if !l3.OtherL3? {
      var n := NetworkHeaderSize(l3);
      assert (p + trailer)[n..] == p[n..] + trailer;
      SegmentKeepsTrailer(mode, protocol, p[n..], trailer);
      if l3.Ipv4? {
        assert (p + trailer)[4..6] == p[4..6];
        assert CompressedIpv4Header(p + trailer) == CompressedIpv4Header(p);
      } else {
        assert (p + trailer)[..4] == p[..4];
      }
    }
  }

  lemma SegmentKeepsTrailer(mode: CompressionMode, protocol: Byte, segment: Bytes, trailer: Bytes)
    requires CompleteSegment(protocol, segment)
    ensures CompressL4(mode, protocol, segment + trailer) == CompressL4(mode, protocol, segment) + trailer
  {
    var longer := segment + trailer;
    if protocol == TCP {
      assert longer[..2] == segment[..2] && longer[2..4] == segment[2..4] && longer[4..16] == segment[4..16];
      assert longer[18..] == segment[18..] + trailer;
    } else if protocol == UDP {
      assert longer[..2] == segment[..2] && longer[2..4] == segment[2..4];
      assert longer[6..] == segment[6..] + trailer;
    }
  }

  /** What is left of a compressed packet and its trailer once the trailer is off expands to the packet. */
  lemma RoundTripWithTrailer(mode: CompressionMode, ft0: FiveTuple, p: Bytes, trailer: Bytes, c: Bytes)
    requires IsAccepted(ft0, p) && InDomain(Tuple(ft0, p), p)
    requires CompleteHeaders(Tuple(ft0, p).l3Type, Tuple(ft0, p).l4Protocol, p + trailer)
    requires Compress(mode, Tuple(ft0, p).l3Type, Tuple(ft0, p).l4Protocol, p + trailer) == c + trailer
    ensures var ft := Tuple(ft0, p);
            Expandable(mode, ft, c) && Expand(mode, ft, c) == CanonicalPacket(ft, p)
  {
    var ft := Tuple(ft0, p);
    RoundTripCanonical(mode, ft0, p);
    CompressKeepsTrailer(mode, ft.l3Type, ft.l4Protocol, p, trailer);
    var sent := Compress(mode, ft.l3Type, ft.l4Protocol, p);
    assert c == (c + trailer)[..|c|] == (sent + trailer)[..|sent|] == sent;
  }

  // ---------------------------------------------------------------------------------------
  // Packets outside the domain

  /** A destination-options header before "no next header": accepted, and not restored. */
  lemma ExtensionHeaderNotRestored(mode: CompressionMode, ft0: FiveTuple, p: Bytes)
    requires p == [0x60, 0, 0, 0, 0, 8, IPV6_OPTS, 64] + Zeros(32) + [NO_NEXT_HEADER] + Zeros(7)
    ensures var ft := Tuple(ft0, p);
            && IsAccepted(ft0, p)
            && CompleteHeaders(ft.l3Type, ft.l4Protocol, p)
            && Expandable(mode, ft, Compress(mode, ft.l3Type, ft.l4Protocol, p))
            && Expand(mode, ft, Compress(mode, ft.l3Type, ft.l4Protocol, p)) != p
  {
    assert p[8..24] == Zeros(16) && p[24..40] == Zeros(16);
    assert !IsV4(p[8..24]) by {
      assert p[8..24][10] != 0xFF;
    }
    var ft1 := NetworkTuple(ft0, p);
    var chain := p[40..];
    assert NextHop(chain, IPV6_OPTS) == HopTo(8, NO_NEXT_HEADER);
    assert ClassifyNextHeader(ft1.(l4Protocol := IPV6_OPTS), chain[8..], NO_NEXT_HEADER, DEFAULT_OPTIONS) ==
           Classification(ft1.(l4Protocol := NO_NEXT_HEADER, srcPort := 0, dstPort := 0), Ok(UnclassifiedL4));
    assert Classify(ft0, p, DEFAULT_OPTIONS) == ClassifyNextHeader(ft1, chain, IPV6_OPTS, DEFAULT_OPTIONS);
    RoundTripIff(mode, ft0, p);
  }

  /** An IPv4 header whose valid checksum is 0xFFFF: accepted, and it comes back as 0x0000. */
  lemma AllOnesChecksumNotRestored(mode: CompressionMode, ft0: FiveTuple, p: Bytes, checksum: Word, word: Word)
    requires p == BarePacket(253, checksum, word) && checksum == 0xFFFF && word == 0x79EE
    ensures var ft := Tuple(ft0, p);
            && IsAccepted(ft0, p)
            && CompleteHeaders(ft.l3Type, ft.l4Protocol, p)
            && Expandable(mode, ft, Compress(mode, ft.l3Type, ft.l4Protocol, p))
            && Expand(mode, ft, Compress(mode, ft.l3Type, ft.l4Protocol, p)) != p
  {
    BareWords(253, checksum, word, p);
    AllOnesHeaderChanges(mode, ft0, p);
  }

  lemma AllOnesHeaderChanges(mode: CompressionMode, ft0: FiveTuple, p: Bytes)
    requires |p| == 20 && p[0] == 0x45 && p[9] == 253 && U16At(p, 2) == 20 && U16At(p, 6) == 0
    requires WordSum(p) == 0x1FFFE && U16At(p, 10) == 0xFFFF
    ensures var ft := Tuple(ft0, p);
            && IsAccepted(ft0, p)
            && CompleteHeaders(ft.l3Type, ft.l4Protocol, p)
            && Expandable(mode, ft, Compress(mode, ft.l3Type, ft.l4Protocol, p))
            && Expand(mode, ft, Compress(mode, ft.l3Type, ft.l4Protocol, p)) != p
  {
    BareHeaderAccepted(ft0, p);
    RoundTripIff(mode, ft0, p);
  }

  lemma BareHeaderAccepted(ft0: FiveTuple, p: Bytes)
    requires |p| == 20 && p[0] == 0x45 && p[9] == 253 && U16At(p, 2) == 20 && U16At(p, 6) == 0
    requires WordSum(p) == 0xFFFF || WordSum(p) == 0x1FFFE
    ensures IsAccepted(ft0, p) && Tuple(ft0, p).l3Type == Ipv4 && Tuple(ft0, p).l4Protocol == 253
  {
    BareHeaderPasses(ft0, p);
    assert NextHop([], 253) == NoHop;
  }
}
