/**
  The packet classifier: validates an IPv4 or IPv6 packet and extracts its five-tuple.

  The five-tuple is threaded through as a value, so a classification carries the fields that
  were written before an error too.  Reading past the end of the packet is a Rust panic, kept
  apart from the reported errors.
 */
module Classifier {
  import opened NetDefs
  import opened InternetChecksum

  datatype Kind = OK | NonIP | UnclassifiedL4 | FirstFragment | SubsequentFragment

  datatype Error = LengthError | BadL3Checksum | BadL4Checksum | MappedAddress | Jumbogram

  datatype Outcome = Ok(kind: Kind) | Err(error: Error) | Panic

  datatype Classification = Classification(ft: FiveTuple, outcome: Outcome)

  datatype Options = Options(ignoreTruncated: bool, ignoreBadChecksums: bool) {
    predicate ValidatesChecksums() {
      !ignoreBadChecksums && !ignoreTruncated
    }
  }

  const DEFAULT_OPTIONS := Options(false, false)
  const TRUNCATED_OPTIONS := Options(true, false)

  const IPV4_HEADER_SIZE := 20
  const IPV6_HEADER_SIZE := 40
  const TCP_HEADER_SIZE := 20
  const UDP_HEADER_SIZE := 8
  const ICMP_HEADER_SIZE := 4

  function IpVersion(body: Bytes): nat
    requires body != []
  {
    body[0] / 16
  }

  /** The IPv4 header length in bytes, options included. */
  function HeaderLength(body: Bytes): nat
    requires body != []
  {
    body[0] % 16 * 4
  }

  function FragmentOffset(body: Bytes): nat
    requires |body| >= IPV4_HEADER_SIZE
  {
    U16At(body, 6) % 0x2000
  }

  predicate MoreFragments(body: Bytes)
    requires |body| >= IPV4_HEADER_SIZE
  {
    U16At(body, 6) / 0x2000 % 2 == 1
  }

  predicate OptionLengthError(remaining: nat, nextHeader: Byte, optionLength: nat) {
    optionLength > remaining || (nextHeader != NO_NEXT_HEADER && optionLength + 8 > remaining)
  }

  // ---------------------------------------------------------------------------------------
  // The extension-header chain

  predicate IsOption(protocol: Byte) {
    protocol == HOPOPT || protocol == IPV6_ROUTE || protocol == IPV6_OPTS
  }

  predicate IsExtension(protocol: Byte) {
    IsOption(protocol) || protocol == AH || protocol == IPV6_FRAG
  }

  /** What the header of an extension says about the next one. */
  datatype Hop = NoHop | HopPanic | HopError | HopTo(skipped: nat, next: Byte)

  function NextHop(body: Bytes, protocol: Byte): (h: Hop)
    ensures h.HopTo? ==> 8 <= h.skipped <= |body|
    ensures h.HopTo? ==> h.next == NO_NEXT_HEADER || h.skipped + 8 <= |body|
  {
    if !IsExtension(protocol) then
      NoHop
    else if |body| < (if protocol == IPV6_FRAG then 1 else 2) then
      HopPanic
    else
      var skipped :=
        if protocol == IPV6_FRAG then 8
        else if protocol == AH then (body[1] as int + 2) * 4
        else (body[1] as int + 1) * 8;
      if OptionLengthError(|body|, body[0], skipped) then HopError else HopTo(skipped, body[0])
  }

  function ClassifyNextHeader(ft0: FiveTuple, body: Bytes, protocol: Byte, options: Options): Classification
    decreases |body|
  {
    var ft := ft0.(l4Protocol := protocol);
    match NextHop(body, protocol)
    case HopPanic => Classification(ft, Panic)
    case HopError => Classification(ft, Err(LengthError))
    case NoHop => ClassifyL4(ft, body, options)
    case HopTo(skipped, next) =>
      if protocol != IPV6_FRAG then
        ClassifyNextHeader(ft, body[skipped..], next, options)
      else if U16At(body, 2) / 8 != 0 then
        Classification(ft, Ok(SubsequentFragment))
      else
        var inner := ClassifyNextHeader(ft, body[skipped..], next, options);
        if inner.outcome.Panic? then inner else Classification(inner.ft, Ok(FirstFragment))
  }

  // ---------------------------------------------------------------------------------------
  // Transport headers

  predicate ValidL4Checksum(ft: FiveTuple, body: Bytes) {
    L4Checksum(ft.l3Type, ft.srcAddress, ft.dstAddress, ft.l4Protocol, body) == 0
  }

  function ClassifyL4(ft: FiveTuple, body: Bytes, options: Options): Classification {
    if ft.l4Protocol == ICMP then ClassifyIcmp(ft, body, options)
    else if ft.l4Protocol == TCP then ClassifyTcp(ft, body, options)
    else if ft.l4Protocol == UDP then ClassifyUdp(ft, body, options)
    else if ft.l4Protocol == IPV6_ICMP then ClassifyIcmpv6(ft, body, options)
    else Classification(ft.(srcPort := 0, dstPort := 0), Ok(UnclassifiedL4))
  }

  function ClassifyIcmp(ft0: FiveTuple, body: Bytes, options: Options): Classification {
    if |body| < ICMP_HEADER_SIZE then
      Classification(ft0, Panic)
    else
      var ft := ft0.(srcPort := body[0], dstPort := body[1]);
      if options.ValidatesChecksums() && Checksum(body) != 0 then
        Classification(ft, Err(BadL4Checksum))
      else
        Classification(ft, Ok(OK))
  }

  function ClassifyIcmpv6(ft0: FiveTuple, body: Bytes, options: Options): Classification {
    if |body| < ICMP_HEADER_SIZE then
      Classification(ft0, Panic)
    else
      var ft := ft0.(srcPort := body[0], dstPort := body[1]);
      if options.ValidatesChecksums() && !ValidL4Checksum(ft, body) then
        Classification(ft, Err(BadL4Checksum))
      else
        Classification(ft, Ok(OK))
  }

  /** The TCP header length in bytes, options included. */
  function DataOffset(body: Bytes): nat
    requires |body| >= TCP_HEADER_SIZE
  {
    body[12] / 16 * 4
  }

  function ClassifyTcp(ft0: FiveTuple, body: Bytes, options: Options): Classification {
    if |body| < TCP_HEADER_SIZE then
      Classification(ft0, Err(LengthError))
    else if options.ValidatesChecksums() && !ValidL4Checksum(ft0, body) then
      Classification(ft0, Err(BadL4Checksum))
    else
      var ft := ft0.(srcPort := U16At(body, 0), dstPort := U16At(body, 2));
      if DataOffset(body) < TCP_HEADER_SIZE || DataOffset(body) > |body| then
        Classification(ft, Err(LengthError))
      else
        Classification(ft, Ok(OK))
  }

  /** Whether a length field agrees with the bytes present. */
  predicate LengthMismatch(present: nat, declared: nat, options: Options) {
    (!options.ignoreTruncated && present < declared) || present > declared
  }

  function ClassifyUdp(ft0: FiveTuple, body: Bytes, options: Options): Classification {
    if |body| < UDP_HEADER_SIZE then
      Classification(ft0, Err(LengthError))
    else if options.ValidatesChecksums() && U16At(body, 6) != 0 && !ValidL4Checksum(ft0, body) then
      Classification(ft0, Err(BadL4Checksum))
    else
      var ft := ft0.(srcPort := U16At(body, 0), dstPort := U16At(body, 2));
      if LengthMismatch(|body|, U16At(body, 4), options) then
        Classification(ft, Err(LengthError))
      else
        Classification(ft, Ok(OK))
  }

  // ---------------------------------------------------------------------------------------
  // Network headers

  function ClassifyIpv4(ft0: FiveTuple, body: Bytes, options: Options): Classification
    requires body != []
  {
    var ft := ft0.(l3Type := Ipv4);
    if |body| < IPV4_HEADER_SIZE || HeaderLength(body) < IPV4_HEADER_SIZE then
      Classification(ft, Err(LengthError))
    else if options.ValidatesChecksums() && HeaderLength(body) > |body| then
      Classification(ft, Err(LengthError))
    else if options.ValidatesChecksums() && Checksum(body[..HeaderLength(body)]) != 0 then
      Classification(ft, Err(BadL3Checksum))
    else
      var ft := ft.(srcAddress := FromV4(body[12..16]), dstAddress := FromV4(body[16..20]));
      if FragmentOffset(body) != 0 then
        Classification(ft.(l4Protocol := body[9]), Ok(SubsequentFragment))
      else if LengthMismatch(|body|, U16At(body, 2), options) || HeaderLength(body) > |body| then
        Classification(ft, Err(LengthError))
      else
        var inner := ClassifyNextHeader(ft, body[HeaderLength(body)..], body[9], options);
        if MoreFragments(body) && !inner.outcome.Panic? then
          Classification(inner.ft, Ok(FirstFragment))
        else
          inner
  }

  function ClassifyIpv6(ft0: FiveTuple, body: Bytes, options: Options): Classification {
    var ft := ft0.(l3Type := Ipv6);
    if |body| < IPV6_HEADER_SIZE then
      Classification(ft, Err(LengthError))
    else if IsV4(body[8..24]) || IsV4(body[24..40]) then
      Classification(ft, Err(MappedAddress))
    else
      var ft := ft.(srcAddress := body[8..24], dstAddress := body[24..40]);
      if U16At(body, 4) == 0 && body[6] == HOPOPT then
        Classification(ft, Err(Jumbogram))
      else if LengthMismatch(|body| - IPV6_HEADER_SIZE, U16At(body, 4), options) then
        Classification(ft, Err(LengthError))
      else
        ClassifyNextHeader(ft, body[IPV6_HEADER_SIZE..], body[6], options)
  }

  function Classify(ft: FiveTuple, body: Bytes, options: Options): Classification {
    if body == [] then Classification(ft, Err(LengthError))
    else if IpVersion(body) == 4 then ClassifyIpv4(ft, body, options)
    else if IpVersion(body) == 6 then ClassifyIpv6(ft, body, options)
    else Classification(ft, Ok(NonIP))
  }

  /** The outcomes with which a packet from the actor is not dropped. */
  predicate Accepted(outcome: Outcome) {
    outcome == Ok(OK) || outcome == Ok(UnclassifiedL4)
  }
}
