/** The classifier as it writes the fields of one five-tuple step by step. */
module ClassifierInPlace {
  import opened NetDefs
  import opened InternetChecksum
  import opened Classifier

  class TupleRecord {
    var l3Type: L3Type
    var srcAddress: IpAddress
    var dstAddress: IpAddress
    var l4Protocol: Byte
    var srcPort: Word
    var dstPort: Word

    constructor (ft: FiveTuple)
      ensures Value() == ft
    {
      l3Type, srcAddress, dstAddress := ft.l3Type, ft.srcAddress, ft.dstAddress;
      l4Protocol, srcPort, dstPort := ft.l4Protocol, ft.srcPort, ft.dstPort;
    }

    function Value(): FiveTuple
      reads this
    {
      FiveTuple(l3Type, srcAddress, dstAddress, l4Protocol, srcPort, dstPort)
    }

    method ClassifyL3(body: Bytes, options: Options) returns (r: Outcome)
      modifies this
      ensures Classification(Value(), r) == old(Classify(Value(), body, options))
    {
      if body == [] {
        return Err(LengthError);
      }
      match IpVersion(body)
      case 4 => r := Ipv4Packet(body, options);
      case 6 => r := Ipv6Packet(body, options);
      case _ => r := Ok(NonIP);
    }

    method Ipv4Packet(body: Bytes, options: Options) returns (r: Outcome)
      requires body != []
      modifies this
      ensures Classification(Value(), r) == old(ClassifyIpv4(Value(), body, options))
    {
      l3Type := Ipv4;
      if |body| < IPV4_HEADER_SIZE {
        return Err(LengthError);
      }
      var headerLength := HeaderLength(body);
      if headerLength < IPV4_HEADER_SIZE {
        return Err(LengthError);
      }
      if options.ValidatesChecksums() {
        if headerLength > |body| {
          return Err(LengthError);
        }
        if Checksum(body[..headerLength]) != 0 {
          return Err(BadL3Checksum);
        }
      }
      srcAddress := FromV4(body[12..16]);
      dstAddress := FromV4(body[16..20]);
      if FragmentOffset(body) != 0 {
        l4Protocol := body[9];
        return Ok(SubsequentFragment);
      }
      if LengthMismatch(|body|, U16At(body, 2), options) || headerLength > |body| {
        return Err(LengthError);
      }
      r := NextHeader(body[headerLength..], body[9], options);
      if MoreFragments(body) && !r.Panic? {
        r := Ok(FirstFragment);
      }
    }

    method Ipv6Packet(body: Bytes, options: Options) returns (r: Outcome)
      modifies this
      ensures Classification(Value(), r) == old(ClassifyIpv6(Value(), body, options))
    {
      l3Type := Ipv6;
      if |body| < IPV6_HEADER_SIZE {
        return Err(LengthError);
      }
      var src, dst := body[8..24], body[24..40];
      if IsV4(src) || IsV4(dst) {
        return Err(MappedAddress);
      }
      srcAddress := src;
      dstAddress := dst;
      if U16At(body, 4) == 0 && body[6] == HOPOPT {
        return Err(Jumbogram);
      }
      if LengthMismatch(|body| - IPV6_HEADER_SIZE, U16At(body, 4), options) {
        return Err(LengthError);
      }
      r := NextHeader(body[IPV6_HEADER_SIZE..], body[6], options);
    }

    method NextHeader(body: Bytes, protocol: Byte, options: Options) returns (r: Outcome)
      modifies this
      ensures Classification(Value(), r) == old(ClassifyNextHeader(Value(), body, protocol, options))
      decreases |body|, 1
    {
      l4Protocol := protocol;
      if protocol == HOPOPT || protocol == IPV6_ROUTE || protocol == IPV6_OPTS {
        r := SkipV6Option(body, options);
      } else if protocol == AH {
        r := SkipAuthHeader(body, options);
      } else if protocol == IPV6_FRAG {
        r := Fragment(body, options);
      } else if protocol == ICMP {
        r := Icmp(body, options);
      } else if protocol == IPV6_ICMP {
        r := Icmpv6(body, options);
      } else if protocol == TCP {
        r := TcpHeader(body, options);
      } else if protocol == UDP {
        r := UdpHeader(body, options);
      } else {
        srcPort := 0;
        dstPort := 0;
        r := Ok(UnclassifiedL4);
      }
    }

    method SkipV6Option(body: Bytes, options: Options) returns (r: Outcome)
      requires IsOption(l4Protocol)
      modifies this
      ensures Classification(Value(), r) == old(ClassifyNextHeader(Value(), body, l4Protocol, options))
      decreases |body|, 0
    {
      if |body| < 2 {
        return Panic;
      }
      var nextHeader := body[0];
      var optionLength := (body[1] as int + 1) * 8;
      if OptionLengthError(|body|, nextHeader, optionLength) {
        return Err(LengthError);
      }
      r := NextHeader(body[optionLength..], nextHeader, options);
    }

    method SkipAuthHeader(body: Bytes, options: Options) returns (r: Outcome)
      requires l4Protocol == AH
      modifies this
      ensures Classification(Value(), r) == old(ClassifyNextHeader(Value(), body, AH, options))
      decreases |body|, 0
    {
      if |body| < 2 {
        return Panic;
      }
      var nextHeader := body[0];
      var optionLength := (body[1] as int + 2) * 4;
      if OptionLengthError(|body|, nextHeader, optionLength) {
        return Err(LengthError);
      }
      r := NextHeader(body[optionLength..], nextHeader, options);
    }

    method Fragment(body: Bytes, options: Options) returns (r: Outcome)
      requires l4Protocol == IPV6_FRAG
      modifies this
      ensures Classification(Value(), r) == old(ClassifyNextHeader(Value(), body, IPV6_FRAG, options))
      decreases |body|, 0
    {
      if |body| < 1 {
        return Panic;
      }
      var nextHeader := body[0];
      if OptionLengthError(|body|, nextHeader, 8) {
        return Err(LengthError);
      }
      if U16At(body, 2) / 8 != 0 {
        return Ok(SubsequentFragment);
      }
      r := NextHeader(body[8..], nextHeader, options);
      if !r.Panic? {
        r := Ok(FirstFragment);
      }
    }

    method Icmp(body: Bytes, options: Options) returns (r: Outcome)
      modifies this
      ensures Classification(Value(), r) == old(ClassifyIcmp(Value(), body, options))
    {
      if |body| < ICMP_HEADER_SIZE {
        return Panic;
      }
      srcPort := body[0];
      dstPort := body[1];
      if options.ValidatesChecksums() && Checksum(body) != 0 {
        return Err(BadL4Checksum);
      }
      r := Ok(OK);
    }

    method Icmpv6(body: Bytes, options: Options) returns (r: Outcome)
      modifies this
      ensures Classification(Value(), r) == old(ClassifyIcmpv6(Value(), body, options))
    {
      if |body| < ICMP_HEADER_SIZE {
        return Panic;
      }
      srcPort := body[0];
      dstPort := body[1];
      if options.ValidatesChecksums() && !ValidL4Checksum(Value(), body) {
        return Err(BadL4Checksum);
      }
      r := Ok(OK);
    }

    method TcpHeader(body: Bytes, options: Options) returns (r: Outcome)
      modifies this
      ensures Classification(Value(), r) == old(ClassifyTcp(Value(), body, options))
    {
      if |body| < TCP_HEADER_SIZE {
        return Err(LengthError);
      }
      if options.ValidatesChecksums() && !ValidL4Checksum(Value(), body) {
        return Err(BadL4Checksum);
      }
      srcPort := U16At(body, 0);
      dstPort := U16At(body, 2);
      var dataOffset := body[12] / 16 * 4;
      if dataOffset < TCP_HEADER_SIZE || dataOffset > |body| {
        return Err(LengthError);
      }
      r := Ok(OK);
    }

    method UdpHeader(body: Bytes, options: Options) returns (r: Outcome)
      modifies this
      ensures Classification(Value(), r) == old(ClassifyUdp(Value(), body, options))
    {
      if |body| < UDP_HEADER_SIZE {
        return Err(LengthError);
      }
      if options.ValidatesChecksums() && U16At(body, 6) != 0 && !ValidL4Checksum(Value(), body) {
        return Err(BadL4Checksum);
      }
      srcPort := U16At(body, 0);
      dstPort := U16At(body, 2);
      if LengthMismatch(|body|, U16At(body, 4), options) {
        return Err(LengthError);
      }
      r := Ok(OK);
    }
  }
}
