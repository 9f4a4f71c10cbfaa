/**
  Exactly which packets the classifier accepts, and the five-tuple it then gives, in terms of
  the packet's bytes: protocol numbers, header sizes and field offsets are written out.
 */
module Acceptance {
  import opened NetDefs
  import opened InternetChecksum
  import opened Classifier
  import opened ClassifierTheorems
  import opened Wrappers

  // ---------------------------------------------------------------------------------------
  // What the bytes must say

  predicate ChecksSums(options: Options) {
    !options.ignoreTruncated && !options.ignoreBadChecksums
  }

  /** A declared length is the one present, or more of a packet that may be cut off. */
  predicate LengthAgrees(present: nat, declared: nat, options: Options) {
    present == declared || (options.ignoreTruncated && present < declared)
  }

  /** The header behind the extension headers: where it is, and its protocol. */
  datatype Landing = Landing(offset: nat, protocol: Byte)

  /** Hop-by-hop options, routing, authentication and destination options. */
  predicate IsSkipped(protocol: Byte) {
    protocol == 0 || protocol == 43 || protocol == 51 || protocol == 60
  }

  /**
    The size of the header to skip at offset `at`: in units of 4 bytes for authentication, of
    8 for the others; 0 if it does not fit.
   */
  function SkipSize(p: Bytes, at: nat, protocol: Byte): (size: nat)
    requires at <= |p|
    ensures size == 0 || 8 <= size <= |p| - at
  {
    if |p| < at + 2 then 0
    else
      var size := if protocol == 51 then (p[at + 1] as int + 2) * 4 else (p[at + 1] as int + 1) * 8;
      if at + size > |p| || (p[at] != 59 && at + size + 8 > |p|) then 0 else size
  }

  /** Where the chain that starts at offset `at` ends, if its headers fit. */
  function ChainEnd(p: Bytes, at: nat, protocol: Byte): (end: Option<Landing>)
    requires at <= |p|
    ensures end.Some? ==>
              at <= end.value.offset <= |p| && !IsSkipped(end.value.protocol)
    decreases |p| - at
  {
    if !IsSkipped(protocol) then Some(Landing(at, protocol))
    else if SkipSize(p, at, protocol) == 0 then None
    else ChainEnd(p, at + SkipSize(p, at, protocol), p[at])
  }

  predicate SegmentPasses(l3: L3Type, src: IpAddress, dst: IpAddress, protocol: Byte, s: Bytes, options: Options) {
    if protocol == 6 then
      && |s| >= 20 && 20 <= s[12] / 16 * 4 <= |s|
      && (ChecksSums(options) ==> L4Checksum(l3, src, dst, 6, s) == 0)
    else if protocol == 17 then
      && |s| >= 8 && LengthAgrees(|s|, U16At(s, 4), options)
      && (ChecksSums(options) && U16At(s, 6) != 0 ==> L4Checksum(l3, src, dst, 17, s) == 0)
    else if protocol == 1 then
      |s| >= 4 && (ChecksSums(options) ==> Checksum(s) == 0)
    else if protocol == 58 then
      |s| >= 4 && (ChecksSums(options) ==> L4Checksum(l3, src, dst, 58, s) == 0)
    else
      protocol != 44
  }

  /** A fragment header, and 8 bytes behind it unless it says that nothing follows. */
  predicate FragmentFits(protocol: Byte, s: Bytes) {
    protocol == 44 && |s| >= 8 && (s[0] == 59 || |s| >= 16)
  }

  /** The segment is long enough for its checksum to be looked at, and that is wrong. */
  predicate SumWrong(l3: L3Type, src: IpAddress, dst: IpAddress, protocol: Byte, s: Bytes, options: Options) {
    && ChecksSums(options)
    && if protocol == 6 then |s| >= 20 && L4Checksum(l3, src, dst, 6, s) != 0
       else if protocol == 17 then |s| >= 8 && U16At(s, 6) != 0 && L4Checksum(l3, src, dst, 17, s) != 0
       else if protocol == 1 then |s| >= 4 && Checksum(s) != 0
       else protocol == 58 && |s| >= 4 && L4Checksum(l3, src, dst, 58, s) != 0
  }

  /** The ports of TCP and UDP, the type and code of ICMP and ICMPv6, and nothing for the rest. */
  predicate PortsRead(ft: FiveTuple, s: Bytes) {
    if ft.l4Protocol == 6 || ft.l4Protocol == 17 then
      |s| >= 4 && ft.srcPort == U16At(s, 0) && ft.dstPort == U16At(s, 2)
    else if ft.l4Protocol == 1 || ft.l4Protocol == 58 then
      |s| >= 2 && ft.srcPort == s[0] as int && ft.dstPort == s[1] as int
    else
      ft.srcPort == 0 && ft.dstPort == 0
  }

  predicate Known(protocol: Byte) {
    protocol == 1 || protocol == 6 || protocol == 17 || protocol == 58
  }

  // ---------------------------------------------------------------------------------------
  // The chain

  lemma SegmentAcceptedIff(ft: FiveTuple, s: Bytes, options: Options)
    requires ft.l4Protocol != 44
    ensures var r := ClassifyL4(ft, s, options);
            && (Accepted(r.outcome) <==>
                SegmentPasses(ft.l3Type, ft.srcAddress, ft.dstAddress, ft.l4Protocol, s, options))
            && (r.outcome == Err(BadL4Checksum) <==>
                SumWrong(ft.l3Type, ft.srcAddress, ft.dstAddress, ft.l4Protocol, s, options))
            && (Accepted(r.outcome) ==>
                  && PortsRead(r.ft, s) && r.ft == ft.(srcPort := r.ft.srcPort, dstPort := r.ft.dstPort)
                  && r.outcome == Ok(if Known(ft.l4Protocol) then OK else UnclassifiedL4))
            && r.outcome != Ok(FirstFragment) && r.outcome != Ok(SubsequentFragment)
  {
  }

  lemma HopIs(p: Bytes, at: nat, protocol: Byte)
    requires at <= |p| && IsSkipped(protocol)
    ensures var hop := NextHop(p[at..], protocol);
            var size := SkipSize(p, at, protocol);
            if size == 0 then hop == HopPanic || hop == HopError else hop == HopTo(size, p[at])
  {
    var body := p[at..];
    assert |body| == |p| - at;
    if |body| >= 2 {
      assert body[0] == p[at] && body[1] == p[at + 1];
    }
  }

  lemma ProtocolOverwritten(ft: FiveTuple, ft': FiveTuple, body: Bytes, protocol: Byte, options: Options)
    requires ft' == ft.(l4Protocol := ft'.l4Protocol)
    ensures ClassifyNextHeader(ft', body, protocol, options) == ClassifyNextHeader(ft, body, protocol, options)
  {
  }

  /** The outcome of a chain without an end. */
  predicate NotReached(outcome: Outcome) {
    outcome == Panic || outcome == Err(LengthError)
  }

  /** One skipped header. */
  lemma WalkStep(ft: FiveTuple, p: Bytes, at: nat, protocol: Byte, options: Options)
    requires at <= |p| && IsSkipped(protocol)
    ensures var r := ClassifyNextHeader(ft, p[at..], protocol, options);
            var size := SkipSize(p, at, protocol);
            if size == 0 then NotReached(r.outcome) else r == ClassifyNextHeader(ft, p[at + size..], p[at], options)
  {
    HopIs(p, at, protocol);
    var size := SkipSize(p, at, protocol);
    if size > 0 {
      assert p[at..][size..] == p[at + size..];
      ProtocolOverwritten(ft, ft.(l4Protocol := protocol), p[at + size..], p[at], options);
    }
  }

  lemma SkipOne(ft: FiveTuple, p: Bytes, at: nat, protocol: Byte, options: Options) returns (behind: nat, next: Byte)
    requires at <= |p| && IsSkipped(protocol) && SkipSize(p, at, protocol) > 0
    ensures at < behind <= |p| && ChainEnd(p, at, protocol) == ChainEnd(p, behind, next)
    ensures ClassifyNextHeader(ft, p[at..], protocol, options) == ClassifyNextHeader(ft, p[behind..], next, options)
  {
    behind, next := at + SkipSize(p, at, protocol), p[at];
    WalkStep(ft, p, at, protocol, options);
  }

  lemma NoEnd(ft: FiveTuple, p: Bytes, at: nat, protocol: Byte, options: Options)
    requires at <= |p| && IsSkipped(protocol) && SkipSize(p, at, protocol) == 0
    ensures ChainEnd(p, at, protocol).None? && NotReached(ClassifyNextHeader(ft, p[at..], protocol, options).outcome)
  {
    WalkStep(ft, p, at, protocol, options);
  }

  /** The header at the chain's end decides; without an end nothing is accepted. */
  lemma {:induction false} ChainLands(ft: FiveTuple, p: Bytes, at: nat, protocol: Byte, options: Options)
    requires at <= |p|
    ensures var r := ClassifyNextHeader(ft, p[at..], protocol, options);
            var end := ChainEnd(p, at, protocol);
            if end.Some? then r == ClassifyNextHeader(ft, p[end.value.offset..], end.value.protocol, options)
            else NotReached(r.outcome)
    decreases |p| - at
  {
    if IsSkipped(protocol) {
      if SkipSize(p, at, protocol) == 0 {
        NoEnd(ft, p, at, protocol, options);
      } else {
        var behind, next := SkipOne(ft, p, at, protocol, options);
        ChainLands(ft, p, behind, next, options);
      }
    }
  }

  /** What the header at a chain's end is accepted or refused for, and what it gives. */
  ghost predicate DecidedAs(ft: FiveTuple, segment: Bytes, protocol: Byte, options: Options, r: Classification) {
    && (Accepted(r.outcome) <==>
        SegmentPasses(ft.l3Type, ft.srcAddress, ft.dstAddress, protocol, segment, options))
    && (r.outcome == Err(BadL4Checksum) <==>
        SumWrong(ft.l3Type, ft.srcAddress, ft.dstAddress, protocol, segment, options))
    && (r.outcome == Ok(SubsequentFragment) <==>
        FragmentFits(protocol, segment) && (segment[2] != 0 || segment[3] >= 8))
    && (r.outcome == Ok(FirstFragment) <==>
        FragmentFits(protocol, segment) && segment[2] == 0 && segment[3] < 8)
    && (Accepted(r.outcome) ==>
          && r.ft.l3Type == ft.l3Type && r.ft.srcAddress == ft.srcAddress && r.ft.dstAddress == ft.dstAddress
          && r.ft.l4Protocol == protocol && PortsRead(r.ft, segment)
          && r.outcome == Ok(if Known(protocol) then OK else UnclassifiedL4))
  }

  lemma FragmentDecides(ft: FiveTuple, s: Bytes, options: Options)
    ensures var outcome := ClassifyNextHeader(ft, s, 44, options).outcome;
            if !FragmentFits(44, s) then NotReached(outcome)
            else outcome == Ok(if s[2] == 0 && s[3] < 8 then FirstFragment else SubsequentFragment)
  {
    if FragmentFits(44, s) {
      assert NextHop(s, 44) == HopTo(8, s[0]);
      assert U16At(s, 2) / 8 != 0 <==> s[2] != 0 || s[3] >= 8;
      PanicsIffEntryTooShort(ft.(l4Protocol := 44), s[8..], s[0], options);
    }
  }

  lemma LandingDecides(ft: FiveTuple, s: Bytes, protocol: Byte, options: Options)
    requires !IsSkipped(protocol)
    ensures DecidedAs(ft, s, protocol, options, ClassifyNextHeader(ft, s, protocol, options))
  {
    if protocol == 44 {
      FragmentDecides(ft, s, options);
    } else {
      assert NextHop(s, protocol) == NoHop;
      SegmentAcceptedIff(ft.(l4Protocol := protocol), s, options);
    }
  }

  lemma ChainDecided(ft: FiveTuple, p: Bytes, at: nat, protocol: Byte, options: Options)
    requires at <= |p|
    ensures var r := ClassifyNextHeader(ft, p[at..], protocol, options);
            var end := ChainEnd(p, at, protocol);
            if end.Some? then DecidedAs(ft, p[end.value.offset..], end.value.protocol, options, r)
            else NotReached(r.outcome)
  {
    ChainLands(ft, p, at, protocol, options);
    var end := ChainEnd(p, at, protocol);
    if end.Some? {
      LandingDecides(ft, p[end.value.offset..], end.value.protocol, options);
    }
  }

  // ---------------------------------------------------------------------------------------
  // The packet

  /** The checks on the network header, as the bytes have to meet them. */
  predicate HeaderAccepted(p: Bytes, options: Options) {
    p != [] &&
    if p[0] / 16 == 4 then
      && |p| >= 20 && 20 <= p[0] % 16 * 4 <= |p| && LengthAgrees(|p|, U16At(p, 2), options)
      && U16At(p, 6) % 0x4000 == 0      // no offset, no more fragments
      && (ChecksSums(options) ==> Checksum(p[..p[0] % 16 * 4]) == 0)
    else
      && p[0] / 16 == 6 && |p| >= 40 && LengthAgrees(|p| - 40, U16At(p, 4), options)
      && p[8..24] != FromV4(p[20..24]) && p[24..40] != FromV4(p[36..40])
      && !(U16At(p, 4) == 0 && p[6] == 0)    // no jumbogram
  }

  /** Where the header chain starts, and with which protocol. */
  function ChainStart(p: Bytes): Landing
    requires p != [] && |p| >= (if p[0] / 16 == 4 then 20 else 40)
  {
    if p[0] / 16 == 4 then Landing(p[0] % 16 * 4, p[9]) else Landing(40, p[6])
  }

  /** The header behind the whole chain of a packet. */
  function PacketEnd(p: Bytes, options: Options): (end: Option<Landing>)
    requires HeaderAccepted(p, options)
    ensures end.Some? ==> end.value.offset <= |p|
  {
    ChainEnd(p, ChainStart(p).offset, ChainStart(p).protocol)
  }

  function SourceOf(p: Bytes): IpAddress
    requires p != [] && |p| >= (if p[0] / 16 == 4 then 20 else 40)
  {
    if p[0] / 16 == 4 then FromV4(p[12..16]) else p[8..24]
  }

  function DestinationOf(p: Bytes): IpAddress
    requires p != [] && |p| >= (if p[0] / 16 == 4 then 20 else 40)
  {
    if p[0] / 16 == 4 then FromV4(p[16..20]) else p[24..40]
  }

  lemma MappedIff(p: Bytes, i: nat)
    requires i + 16 <= |p|
    ensures IsV4(p[i..i + 16]) <==> p[i..i + 16] == FromV4(p[i + 12..i + 16])
  {
    IsV4Iff(p[i..i + 16]);
    assert p[i..i + 16][12..] == p[i + 12..i + 16];
  }

  lemma HeaderAcceptedIff(p: Bytes, options: Options)
    requires p != []
    ensures HeaderAccepted(p, options) <==>
            && HeaderPasses(p, options)
            && (IpVersion(p) == 4 ==> !MoreFragments(p))
  {
    if |p| >= 40 {
      MappedIff(p, 8);
      MappedIff(p, 24);
    }
    if |p| >= 20 {
      assert U16At(p, 6) % 0x4000 == 0 <==> U16At(p, 6) % 0x2000 == 0 && U16At(p, 6) / 0x2000 % 2 == 0;
    }
  }

  /** The tuple with the addresses of a packet. */
  function NetworkPart(ft0: FiveTuple, p: Bytes): FiveTuple
    requires p != [] && |p| >= (if p[0] / 16 == 4 then 20 else 40)
  {
    ft0.(l3Type := if p[0] / 16 == 4 then Ipv4 else Ipv6, srcAddress := SourceOf(p), dstAddress := DestinationOf(p))
  }

  /** What the chain behind an accepted header gives. */
  function Walked(ft0: FiveTuple, p: Bytes, options: Options): Classification
    requires HeaderAccepted(p, options)
  {
    ClassifyNextHeader(NetworkPart(ft0, p), p[ChainStart(p).offset..], ChainStart(p).protocol, options)
  }

  lemma ClassifiedByChain(ft0: FiveTuple, p: Bytes, options: Options)
    requires HeaderAccepted(p, options)
    ensures Classify(ft0, p, options) == Walked(ft0, p, options)
  {
    HeaderAcceptedIff(p, options);
    if IpVersion(p) == 4 {
      Ipv4Behind(ft0, p, options);
    } else {
      Ipv6Behind(ft0, p, options);
    }
  }

  lemma RefusedHeader(ft0: FiveTuple, p: Bytes, options: Options)
    requires !HeaderAccepted(p, options)
    ensures !Accepted(Classify(ft0, p, options).outcome)
  {
    if p != [] {
      HeaderAcceptedIff(p, options);
      if IpVersion(p) == 4 && |p| >= 20 {
        Ipv4Behind(ft0, p, options);
      } else if IpVersion(p) == 6 && |p| >= 40 {
        Ipv6Behind(ft0, p, options);
      }
    }
  }

  lemma WalkDecides(ft0: FiveTuple, p: Bytes, options: Options)
    requires HeaderAccepted(p, options)
    ensures var r := Walked(ft0, p, options);
            var end := PacketEnd(p, options);
            if end.Some? then DecidedAs(NetworkPart(ft0, p), p[end.value.offset..], end.value.protocol, options, r)
            else NotReached(r.outcome)
  {
    ChainDecided(NetworkPart(ft0, p), p, ChainStart(p).offset, ChainStart(p).protocol, options);
  }

  /**
    For every packet and option: it is accepted exactly if its network header is right, its
    extension headers lead somewhere, and the header there is right.
   */
  lemma AcceptedIff(ft0: FiveTuple, p: Bytes, options: Options)
    ensures Accepted(Classify(ft0, p, options).outcome) <==>
            && HeaderAccepted(p, options)
            && var end := PacketEnd(p, options);
            && end.Some?
            && SegmentPasses(if p[0] / 16 == 4 then Ipv4 else Ipv6, SourceOf(p), DestinationOf(p),
                             end.value.protocol, p[end.value.offset..], options)
  {
    if HeaderAccepted(p, options) {
      ClassifiedByChain(ft0, p, options);
      WalkDecides(ft0, p, options);
    } else {
      RefusedHeader(ft0, p, options);
    }
  }

  /** Then the tuple holds the packet's addresses, the protocol at the chain's end, and what is read there. */
  lemma AcceptedTuple(ft0: FiveTuple, p: Bytes, options: Options)
    requires Accepted(Classify(ft0, p, options).outcome)
    ensures HeaderAccepted(p, options) && PacketEnd(p, options).Some?
    ensures var r := Classify(ft0, p, options);
            var end := PacketEnd(p, options).value;
            && r.ft.l3Type == (if p[0] / 16 == 4 then Ipv4 else Ipv6)
            && r.ft.srcAddress == SourceOf(p) && r.ft.dstAddress == DestinationOf(p)
            && r.ft.l4Protocol == end.protocol && PortsRead(r.ft, p[end.offset..])
            && r.outcome == Ok(if Known(end.protocol) then OK else UnclassifiedL4)
  {
    AcceptedIff(ft0, p, options);
    ClassifiedByChain(ft0, p, options);
    WalkDecides(ft0, p, options);
  }

  // ---------------------------------------------------------------------------------------
  // Why a packet is refused

  lemma {:induction false} ChainErrors(ft: FiveTuple, body: Bytes, protocol: Byte, options: Options)
    ensures var outcome := ClassifyNextHeader(ft, body, protocol, options).outcome;
            && (outcome.Err? ==> outcome.error == LengthError || outcome.error == BadL4Checksum)
            && outcome != Ok(NonIP)
    decreases |body|
  {
    var hop := NextHop(body, protocol);
    if hop.HopTo? {
      ChainErrors(ft.(l4Protocol := protocol), body[hop.skipped..], hop.next, options);
    }
  }

  predicate HeaderSumWrong(p: Bytes, options: Options) {
    && ChecksSums(options)
    && |p| >= 20 && p[0] / 16 == 4 && 20 <= p[0] % 16 * 4 <= |p| && Checksum(p[..p[0] % 16 * 4]) != 0
  }

  /** An IPv6 packet with an IPv4 address in it. */
  predicate Mapped(p: Bytes) {
    && |p| >= 40 && p[0] / 16 == 6
    && (p[8..24] == FromV4(p[20..24]) || p[24..40] == FromV4(p[36..40]))
  }

  predicate IsJumbogram(p: Bytes) {
    |p| >= 40 && p[0] / 16 == 6 && U16At(p, 4) == 0 && p[6] == 0
  }

  lemma Ipv4Errors(ft0: FiveTuple, p: Bytes, options: Options)
    requires |p| >= 20 && p[0] / 16 == 4
    ensures var outcome := Classify(ft0, p, options).outcome;
            && outcome != Err(MappedAddress) && outcome != Err(Jumbogram)
            && (outcome == Err(BadL3Checksum) <==> HeaderSumWrong(p, options))
            && (outcome == Err(BadL4Checksum) ==> HeaderPasses(p, options) && !MoreFragments(p))
  {
    if HeaderLength(p) <= |p| {
      ChainErrors(ft0.(l3Type := Ipv4, srcAddress := FromV4(p[12..16]), dstAddress := FromV4(p[16..20])),
                  p[HeaderLength(p)..], p[9], options);
    }
  }

  lemma Ipv6Errors(ft0: FiveTuple, p: Bytes, options: Options)
    requires |p| >= 40 && p[0] / 16 == 6
    ensures var outcome := Classify(ft0, p, options).outcome;
            && outcome != Err(BadL3Checksum)
            && (outcome == Err(MappedAddress) <==> Mapped(p))
            && (outcome == Err(Jumbogram) <==> !Mapped(p) && IsJumbogram(p))
            && (outcome == Err(BadL4Checksum) ==> HeaderPasses(p, options))
  {
    MappedIff(p, 8);
    MappedIff(p, 24);
    ChainErrors(ft0.(l3Type := Ipv6, srcAddress := p[8..24], dstAddress := p[24..40]), p[40..], p[6], options);
  }

  /**
    For every packet and option: which error it is refused with.  The one error not listed,
    a wrong length, is what remains.
   */
  lemma RefusedIff(ft0: FiveTuple, p: Bytes, options: Options)
    ensures var outcome := Classify(ft0, p, options).outcome;
            && (outcome == Err(MappedAddress) <==> Mapped(p))
            && (outcome == Err(Jumbogram) <==> !Mapped(p) && IsJumbogram(p))
            && (outcome == Err(BadL3Checksum) <==> HeaderSumWrong(p, options))
            && (outcome == Err(BadL4Checksum) <==>
                && HeaderAccepted(p, options) && PacketEnd(p, options).Some?
                && var end := PacketEnd(p, options).value;
                   SumWrong(if p[0] / 16 == 4 then Ipv4 else Ipv6, SourceOf(p), DestinationOf(p),
                            end.protocol, p[end.offset..], options))
  {
    if p != [] {
      HeaderAcceptedIff(p, options);
      if IpVersion(p) == 4 && |p| >= 20 {
        Ipv4Errors(ft0, p, options);
      } else if IpVersion(p) == 6 && |p| >= 40 {
        Ipv6Errors(ft0, p, options);
      }
    }
    if HeaderAccepted(p, options) {
      ClassifiedByChain(ft0, p, options);
      WalkDecides(ft0, p, options);
    }
  }

  // ---------------------------------------------------------------------------------------
  // Fragments, and packets that are not IP

  /** A fragment of IPv4 behind the first: only its header is looked at. */
  predicate ContinuesIpv4(p: Bytes, options: Options) {
    && |p| >= 20 && p[0] / 16 == 4 && p[0] % 16 >= 5 && U16At(p, 6) % 0x2000 != 0
    && (ChecksSums(options) ==> p[0] % 16 * 4 <= |p| && Checksum(p[..p[0] % 16 * 4]) == 0)
  }

  /** The first of several fragments of IPv4. */
  predicate BeginsIpv4(p: Bytes, options: Options) {
    && |p| >= 20 && p[0] / 16 == 4 && 20 <= p[0] % 16 * 4 <= |p| && U16At(p, 6) % 0x4000 == 0x2000
    && LengthAgrees(|p|, U16At(p, 2), options)
    && (ChecksSums(options) ==> Checksum(p[..p[0] % 16 * 4]) == 0)
  }

  /** The chain leads to a fragment header. */
  predicate LeadsToFragment(p: Bytes, options: Options) {
    && HeaderAccepted(p, options) && PacketEnd(p, options).Some?
    && FragmentFits(PacketEnd(p, options).value.protocol, p[PacketEnd(p, options).value.offset..])
  }

  /** The offset in the fragment header is 0. */
  predicate BeginsAt(p: Bytes, k: nat) {
    |p| >= k + 4 && p[k + 2] == 0 && p[k + 3] < 8
  }

  lemma Ipv4Fragments(ft0: FiveTuple, p: Bytes, options: Options)
    requires |p| >= 20 && p[0] / 16 == 4 && !HeaderAccepted(p, options)
    ensures var outcome := Classify(ft0, p, options).outcome;
            && outcome != Ok(NonIP)
            && (outcome == Ok(SubsequentFragment) <==> ContinuesIpv4(p, options))
            && (outcome == Ok(FirstFragment) <==> BeginsIpv4(p, options) && !CutShort(p))
  {
    var fragment := U16At(p, 6);
    assert fragment % 0x4000 == 0 <==> fragment % 0x2000 == 0 && fragment / 0x2000 % 2 == 0;
    assert fragment % 0x4000 == 0x2000 <==> fragment % 0x2000 == 0 && fragment / 0x2000 % 2 == 1;
    ClassifyPanicsIff(ft0, p, options);
  }

  lemma NotIpIff(ft0: FiveTuple, p: Bytes, options: Options)
    ensures Classify(ft0, p, options).outcome == Ok(NonIP) <==> p != [] && p[0] / 16 != 4 && p[0] / 16 != 6
  {
    if |p| >= 20 && p[0] / 16 == 4 && HeaderLength(p) <= |p| {
      ChainErrors(ft0.(l3Type := Ipv4, srcAddress := FromV4(p[12..16]), dstAddress := FromV4(p[16..20])),
                  p[HeaderLength(p)..], p[9], options);
    } else if |p| >= 40 && p[0] / 16 == 6 {
      ChainErrors(ft0.(l3Type := Ipv6, srcAddress := p[8..24], dstAddress := p[24..40]), p[40..], p[6], options);
    }
  }

  lemma OtherHeaderRefused(ft0: FiveTuple, p: Bytes, options: Options)
    requires !HeaderAccepted(p, options) && !(|p| >= 20 && p[0] / 16 == 4)
    ensures var outcome := Classify(ft0, p, options).outcome;
            outcome.Err? || outcome == Ok(NonIP)
  {
    if |p| >= 40 {
      HeaderAcceptedIff(p, options);
    }
  }

  /** For every packet and option: which packets are fragments. */
  lemma FragmentIff(ft0: FiveTuple, p: Bytes, options: Options)
    ensures var outcome := Classify(ft0, p, options).outcome;
            && (outcome == Ok(SubsequentFragment) <==>
                || ContinuesIpv4(p, options)
                || (LeadsToFragment(p, options) && !BeginsAt(p, PacketEnd(p, options).value.offset)))
            && (outcome == Ok(FirstFragment) <==>
                || (BeginsIpv4(p, options) && !CutShort(p))
                || (LeadsToFragment(p, options) && BeginsAt(p, PacketEnd(p, options).value.offset)))
  {
    if HeaderAccepted(p, options) {
      ClassifiedByChain(ft0, p, options);
      WalkDecides(ft0, p, options);
    } else if |p| >= 20 && p[0] / 16 == 4 {
      Ipv4Fragments(ft0, p, options);
    } else {
      OtherHeaderRefused(ft0, p, options);
    }
  }
}
