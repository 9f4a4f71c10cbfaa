/** The compressed packet byte by byte. */
module WireFormat {
  import opened NetDefs
  import opened HeaderCodec
  import opened CodecTheorems

  /** Where the bytes behind the ports start. */
  function PortsSize(mode: CompressionMode): nat {
    if mode.sourcePortPresent && mode.destinationPortPresent then 0
    else if mode.sourcePortPresent || mode.destinationPortPresent then 2
    else 4
  }

  /** Bytes `from..to` of a segment stand in `c`, starting at `at`. */
  predicate StandsAt(s: Bytes, from: nat, to: nat, c: Bytes, at: nat)
    requires from <= to <= |s|
  {
    at + to - from <= |c| && forall i :: from <= i < to ==> c[at + i - from] == s[i]
  }

  predicate PortsStand(mode: CompressionMode, s: Bytes, c: Bytes)
    requires |s| >= 4
  {
    && (!mode.sourcePortPresent ==> StandsAt(s, 0, 2, c, 0))
    && (!mode.destinationPortPresent ==> StandsAt(s, 2, 4, c, if mode.sourcePortPresent then 0 else 2))
  }

  /**
    The ports that the tether does not name, source first; then a TCP segment without bytes 16
    and 17, a UDP segment without bytes 4 and 5. Other segments are unchanged.
   */
  predicate SegmentLayout(mode: CompressionMode, protocol: Byte, s: Bytes, c: Bytes) {
    var ports := PortsSize(mode);
    if protocol == 6 then
      && |s| >= 18 && |c| == ports + |s| - 6 && PortsStand(mode, s, c)
      && StandsAt(s, 4, 16, c, ports) && StandsAt(s, 18, |s|, c, ports + 12)
    else if protocol == 17 then
      && |s| >= 6 && |c| == ports + |s| - 6 && PortsStand(mode, s, c)
      && StandsAt(s, 6, |s|, c, ports)
    else
      c == s
  }

  lemma PiecesStand(s: Bytes, from: nat, to: nat, front: Bytes, back: Bytes)
    requires from <= to <= |s|
    ensures StandsAt(s, from, to, front + s[from..to] + back, |front|)
  {
    var c := front + s[from..to] + back;
    forall i | from <= i < to ensures c[|front| + i - from] == s[i] {
      assert c[|front| + i - from] == s[from..to][i - from];
    }
  }

  lemma KeptPortsStand(mode: CompressionMode, s: Bytes, rest: Bytes)
    requires |s| >= 4
    ensures |KeptPorts(mode, s)| == PortsSize(mode) && PortsStand(mode, s, KeptPorts(mode, s) + rest)
  {
    var c := KeptPorts(mode, s) + rest;
    if !mode.sourcePortPresent {
      assert c[0] == s[0] && c[1] == s[1];
    }
    if !mode.destinationPortPresent {
      var at := if mode.sourcePortPresent then 0 else 2;
      assert c[at] == s[2] && c[at + 1] == s[3];
    }
  }

  lemma CompressedSegmentLayout(mode: CompressionMode, protocol: Byte, s: Bytes)
    requires CompleteSegment(protocol, s)
    ensures SegmentLayout(mode, protocol, s, CompressL4(mode, protocol, s))
  {
    if protocol == 6 {
      var ports, back := KeptPorts(mode, s), s[18..];
      var c := CompressL4(mode, protocol, s);
      KeptPortsStand(mode, s, s[4..16] + back);
      assert c == ports + s[4..16] + back;
      PiecesStand(s, 4, 16, ports, back);
      assert c == (ports + s[4..16]) + s[18..|s|] + [];
      PiecesStand(s, 18, |s|, ports + s[4..16], []);
    } else if protocol == 17 {
      var ports := KeptPorts(mode, s);
      KeptPortsStand(mode, s, s[6..]);
      assert CompressL4(mode, protocol, s) == ports + s[6..|s|] + [];
      PiecesStand(s, 6, |s|, ports, []);
    }
  }

  /** The size of the compressed IPv4 header: two bytes more for a fragment with an offset. */
  function Ipv4Size(p: Bytes): nat
    requires |p| >= 20
  {
    if (p[6] as int * 256 + p[7] as int) % 0x2000 == 0 then 5 else 7
  }

  /**
    IHL, a bit for the offset and the three fragment flags; DSCP; identification; the offset
    unless it is 0; TTL.
   */
  predicate Ipv4Layout(p: Bytes, c: Bytes)
    requires |p| >= 20
  {
    var size := Ipv4Size(p);
    && |c| >= size
    && c[0] / 16 == p[0] % 16 && (c[0] / 8 % 2 == 1 <==> size == 7) && c[0] % 8 == p[6] / 32
    && c[1] == p[1] && c[2] == p[4] && c[3] == p[5]
    && (size == 7 ==> c[4] == p[6] % 32 && c[5] == p[7])
    && c[size - 1] == p[8]
  }

  lemma FragmentBytes(high: nat, low: nat)
    requires high < 256 && low < 256
    ensures var fragment := high * 256 + low;
            && fragment / 0x2000 == high / 32 && fragment % 0x2000 == high % 32 * 256 + low
            && fragment % 0x2000 / 256 == high % 32 && fragment % 0x2000 % 256 == low
  {
    assert high == high / 32 * 32 + high % 32;
    assert high * 256 + low == high / 32 * 0x2000 + (high % 32 * 256 + low);
  }

  lemma ListLayout(p: Bytes)
    requires |p| >= 20
    ensures |HeaderList(p)| == Ipv4Size(p) && Ipv4Layout(p, HeaderList(p))
  {
    FragmentBytes(p[6], p[7]);
    FlagByte(p[0] % 16, U16At(p, 6) % 0x2000, U16At(p, 6) / 0x2000);
  }

  lemma LayoutExtends(p: Bytes, c: Bytes, rest: Bytes)
    requires |p| >= 20 && Ipv4Layout(p, c)
    ensures Ipv4Layout(p, c + rest)
  {
  }

  lemma CompressedIpv4Layout(p: Bytes, rest: Bytes)
    requires |p| >= 20
    ensures Ipv4Layout(p, CompressedIpv4Header(p) + rest) && |CompressedIpv4Header(p)| == Ipv4Size(p)
  {
    CompressedIsList(p);
    ListLayout(p);
    LayoutExtends(p, HeaderList(p), rest);
  }

  /** For every packet and mode, the bytes that go on the wire. */
  lemma CompressedLayout(mode: CompressionMode, l3: L3Type, protocol: Byte, p: Bytes)
    requires CompleteHeaders(l3, protocol, p)
    ensures var c := Compress(mode, l3, protocol, p);
            match l3
            case Ipv4 =>
              && Ipv4Layout(p, c) && SegmentLayout(mode, protocol, p[20..], c[Ipv4Size(p)..])
            case Ipv6 =>
              && |c| >= 5 && c[0] == p[0] && c[1] == p[1] && c[2] == p[2] && c[3] == p[3] && c[4] == p[7]
              && SegmentLayout(mode, protocol, p[40..], c[5..])
            case OtherL3(_) => c == p
  {
    var c := Compress(mode, l3, protocol, p);
    match l3
    case Ipv4 =>
      var segment := CompressL4(mode, protocol, p[20..]);
      CompressedIpv4Layout(p, segment);
      CompressedSegmentLayout(mode, protocol, p[20..]);
      assert c[Ipv4Size(p)..] == segment;
    case Ipv6 =>
      CompressedSegmentLayout(mode, protocol, p[40..]);
      assert c[5..] == CompressL4(mode, protocol, p[40..]);
    case OtherL3(_) =>
  }
}
