/**
  A packet from an actor through the fast path of both adapters, in one buffer.

  The sending side takes one off the packet's TTL before it hashes and compresses it, and
  leaves the IPv4 header checksum as it was; the receiving side recomputes that checksum
  before it hashes.
 */
module Tunnel {
  import opened NetDefs
  import opened InternetChecksum
  import opened Classifier
  import opened ClassifierTheorems
  import opened HeaderCodec
  import opened PacketBuffer
  import opened CodecInPlace
  import opened CodecTheorems
  import opened RoundTrip

  // ---------------------------------------------------------------------------------------
  // The TTL

  /** Where the TTL or hop limit is. */
  function TtlOffset(l3: L3Type): nat {
    if l3.Ipv4? then 8 else 7
  }

  function Decremented(l3: L3Type, p: Bytes): Bytes
    requires |p| >= NetworkHeaderSize(l3)
  {
    var i := TtlOffset(l3);
    if l3.OtherL3? || p[i] == 0 then p else p[i := p[i] - 1]
  }

  predicate Expires(l3: L3Type, p: Bytes)
    requires |p| >= NetworkHeaderSize(l3)
  {
    !l3.OtherL3? && p[TtlOffset(l3)] <= 1
  }

  /** One is taken off byte `i`, unless it is zero already, and every other byte is kept. */
  predicate OneLess(before: Bytes, after: Bytes, i: nat) {
    && i < |before| == |after|
    && after[i] as int == (if before[i] > 0 then before[i] as int - 1 else 0)
    && forall k :: 0 <= k < |before| && k != i ==> after[k] == before[k]
  }

  method DecrementTtl(l3: L3Type, pkt: Packet) returns (expired: bool)
    requires pkt.Valid() && pkt.len >= NetworkHeaderSize(l3)
    modifies pkt, pkt.buf
    ensures pkt.Valid() && pkt.offset == old(pkt.offset) && pkt.End() == old(pkt.End())
    ensures pkt.body == old(Decremented(l3, pkt.body)) && expired == old(Expires(l3, pkt.body))
    ensures |pkt.body| == |old(pkt.body)|
    ensures l3.Ipv4? ==> OneLess(old(pkt.body), pkt.body, 8) && (expired <==> pkt.body[8] == 0)
    ensures l3.Ipv6? ==> OneLess(old(pkt.body), pkt.body, 7) && (expired <==> pkt.body[7] == 0)
    ensures l3.OtherL3? ==> pkt.body == old(pkt.body) && !expired
  {
    if l3.OtherL3? {
      return false;
    }
    var i := TtlOffset(l3);
    var field := pkt.Peek(i, i + 1);
    var ttl := field[0];
    if ttl > 0 {
      ttl := ttl - 1;
      pkt.WriteField(i, [ttl]);
    }
    expired := ttl == 0;
  }

  /** A valid IPv4 header is no longer valid with one taken off its TTL. */
  lemma TtlBreaksSum(header: Bytes)
    requires |header| >= 20 && header[8] > 0 && Checksum(header) == 0
    ensures Checksum(header[8 := header[8] - 1]) != 0
  {
    var w := U16At(header, 8);
    var lower := header[8 := header[8] - 1];
    U16RoundTrip(header, 8);
    SpliceIdentity(header, 8, 2);
    WordSumOfField(header, 8, w);
    WordSumOfField(header, 8, w - 0x100);
    assert U16Bytes(w - 0x100) == [header[8] - 1, header[9]];
    assert Splice(header, 8, U16Bytes(w - 0x100)) == lower;
    var k := FoldCongruent(WordSum(header));
    var k' := FoldCongruent(WordSum(lower));
  }

  /** The classifier does not look at the hop limit. */
  lemma HopLimitUnread(ft0: FiveTuple, p: Bytes, hopLimit: Byte)
    requires |p| >= 40 && p[0] / 16 == 6
    ensures Classify(ft0, p[7 := hopLimit], DEFAULT_OPTIONS) == Classify(ft0, p, DEFAULT_OPTIONS)
  {
    var q := p[7 := hopLimit];
    assert q[8..24] == p[8..24] && q[24..40] == p[24..40] && q[40..] == p[40..];
  }

  // ---------------------------------------------------------------------------------------
  // What is hashed on either side

  /** The packet as the sending side hashes and compresses it. */
  function Sent(ft: FiveTuple, p: Bytes): Bytes {
    if |p| >= NetworkHeaderSize(ft.l3Type) then Decremented(ft.l3Type, p) else p
  }

  /** The receiving side's tuple: the sender's, but with any ports where the packet carries them. */
  predicate AgreesFor(mode: CompressionMode, ft: FiveTuple, rx: FiveTuple) {
    && rx.l3Type == ft.l3Type && rx.srcAddress == ft.srcAddress && rx.dstAddress == ft.dstAddress
    && rx.l4Protocol == ft.l4Protocol
    && (mode.sourcePortPresent ==> rx.srcPort == ft.srcPort)
    && (mode.destinationPortPresent ==> rx.dstPort == ft.dstPort)
  }

  /** Expansion does not look at the ports that the packet carries. */
  lemma CarriedPortsUnread(mode: CompressionMode, ft: FiveTuple, rx: FiveTuple, c: Bytes)
    requires AgreesFor(mode, ft, rx) && Expandable(mode, ft, c)
    ensures Expandable(mode, rx, c) && Expand(mode, rx, c) == Expand(mode, ft, c)
  {
    if !ft.l3Type.OtherL3? {
      SegmentPortsUnread(mode, ft, rx, c[CompressedHeaderSize(ft.l3Type, c)..]);
    }
  }

  lemma SegmentPortsUnread(mode: CompressionMode, ft: FiveTuple, rx: FiveTuple, c: Bytes)
    requires AgreesFor(mode, ft, rx) && ExpandableSegment(mode, ft.l4Protocol, c)
    ensures ExpandL4(mode, rx, c) == ExpandL4(mode, ft, c)
  {
  }

  /** `out` is what the receiving side makes of the packet `q`, in as many bytes. */
  ghost predicate ComesOut(mode: CompressionMode, ft: FiveTuple, rx: FiveTuple, q: Bytes, out: Bytes) {
    && !rx.l3Type.OtherL3? && rx.l3Type == ft.l3Type && rx.l4Protocol == ft.l4Protocol
    && CompleteHeaders(ft.l3Type, ft.l4Protocol, q)
    && Expandable(mode, rx, Compress(mode, ft.l3Type, ft.l4Protocol, q))
    && out == Expand(mode, rx, Compress(mode, ft.l3Type, ft.l4Protocol, q)) && |out| == |q|
  }

  lemma SentIpv4(ft: FiveTuple, p: Bytes)
    requires Ipv4Facts(ft, p) && FullSegment(ft.l4Protocol, p[20..]) && p[8] > 0
    ensures Ipv4Layout(ft, Sent(ft, p)) && Sent(ft, p)[20..] == p[20..]
    ensures Checksum(Sent(ft, p)[..HeaderLength(p)]) != 0
  {
    var q := Sent(ft, p);
    var hl := HeaderLength(p);
    assert q[12..16] == p[12..16] && q[16..20] == p[16..20];
    assert q[..hl] == p[..hl][8 := p[8] - 1];
    TtlBreaksSum(p[..hl]);
  }

  lemma SentIpv6(mode: CompressionMode, ft0: FiveTuple, p: Bytes)
    requires IsAccepted(ft0, p) && Ipv6Facts(Tuple(ft0, p), p) && p[7] > 0
    ensures var ft := Tuple(ft0, p);
            var q := Sent(ft, p);
            && IsAccepted(ft0, q) && Tuple(ft0, q) == ft
            && Ipv6Facts(ft, q) && q[40..] == p[40..]
            && CompleteHeaders(Ipv6, ft.l4Protocol, p) && CompleteHeaders(Ipv6, ft.l4Protocol, q)
            && (Survives(mode, ft, q) <==> Survives(mode, ft, p))
  {
    AcceptedFacts(ft0, p);
    HopLimitUnread(ft0, p, p[7] - 1);
    var q := Sent(Tuple(ft0, p), p);
    assert q[8..24] == p[8..24] && q[24..40] == p[24..40] && q[40..] == p[40..];
  }

  /** A header whose sum field is the computed one is valid. */
  lemma ComputedSumValid(q: Bytes, size: nat)
    requires 20 <= size <= |q| && U16At(q, 10) == Checksum(Splice(q, 10, U16Bytes(0))[..size])
    ensures Checksum(q[..size]) == 0
  {
    var header := q[..size];
    assert Splice(q, 10, U16Bytes(0))[..size] == Splice(header, 10, U16Bytes(0));
    ChecksumUnique(header, 10, U16At(q, 10));
    U16RoundTrip(header, 10);
    SpliceIdentity(header, 10, 2);
  }

  /** An IPv4 header that is not valid does not come back. */
  lemma InvalidHeaderChanges(mode: CompressionMode, ft: FiveTuple, q: Bytes)
    requires Ipv4Layout(ft, q) && FullSegment(ft.l4Protocol, q[20..])
    requires Checksum(q[..HeaderLength(q)]) != 0
    ensures Expandable(mode, ft, Compress(mode, Ipv4, ft.l4Protocol, q))
    ensures Through(mode, ft, q) != q && |Through(mode, ft, q)| == |q|
  {
    var rebuilt := Rebuilt(mode, ft, q[20..]);
    var unsummed := q[..9] + [ft.l4Protocol] + U16Bytes(0) + q[12..20] + rebuilt;
    ThroughIpv4(mode, ft, q);
    Ipv4Reassembles(ft.l4Protocol, q, rebuilt, Checksum(unsummed[..HeaderLength(q)]));
    if Through(mode, ft, q) == q {
      ComputedSumValid(q, HeaderLength(q));
    }
  }

  /** The TTL of an accepted packet does not last. */
  predicate TtlExpires(ft0: FiveTuple, p: Bytes) {
    var l3 := Tuple(ft0, p).l3Type;
    |p| >= NetworkHeaderSize(l3) && Expires(l3, p)
  }

  /**
    For every accepted packet whose TTL lasts: the two sides hash the same bytes exactly if
    the packet is IPv6 and survives the codec.  For IPv4 they never do.
   */
  lemma SidesAgreeIff(mode: CompressionMode, ft0: FiveTuple, p: Bytes, rx: FiveTuple) returns (out: Bytes)
    requires IsAccepted(ft0, p) && !TtlExpires(ft0, p) && AgreesFor(mode, Tuple(ft0, p), rx)
    ensures var ft := Tuple(ft0, p);
            && CompleteHeaders(ft.l3Type, ft.l4Protocol, p)
            && ComesOut(mode, ft, rx, Sent(ft, p), out)
            && (out == Sent(ft, p) <==> ft.l3Type.Ipv6? && Survives(mode, ft, p))
  {
    var ft := Tuple(ft0, p);
    var q := Sent(ft, p);
    ThroughIff(mode, ft0, p);
    CarriedPortsUnread(mode, ft, rx, Compress(mode, ft.l3Type, ft.l4Protocol, q));
    out := Through(mode, ft, q);
  }

  /** The law with the sender's own tuple on the receiving side. */
  lemma ThroughIff(mode: CompressionMode, ft0: FiveTuple, p: Bytes)
    requires IsAccepted(ft0, p) && !TtlExpires(ft0, p)
    ensures var ft := Tuple(ft0, p);
            var q := Sent(ft, p);
            && !ft.l3Type.OtherL3?
            && CompleteHeaders(ft.l3Type, ft.l4Protocol, p) && CompleteHeaders(ft.l3Type, ft.l4Protocol, q)
            && Expandable(mode, ft, Compress(mode, ft.l3Type, ft.l4Protocol, q))
            && |Through(mode, ft, q)| == |q|
            && (Through(mode, ft, q) == q <==> ft.l3Type.Ipv6? && Survives(mode, ft, p))
  {
    var ft := Tuple(ft0, p);
    AcceptedFacts(ft0, p);
    var q := Sent(ft, p);
    if ft.l3Type.Ipv4? {
      SentIpv4(ft, p);
      InvalidHeaderChanges(mode, ft, q);
    } else {
      Ipv6ThroughIff(mode, ft0, p);
    }
  }

  lemma Ipv6ThroughIff(mode: CompressionMode, ft0: FiveTuple, p: Bytes)
    requires IsAccepted(ft0, p) && Ipv6Facts(Tuple(ft0, p), p) && p[7] > 0
    ensures var ft := Tuple(ft0, p);
            var q := Sent(ft, p);
            && CompleteHeaders(Ipv6, ft.l4Protocol, p) && CompleteHeaders(Ipv6, ft.l4Protocol, q)
            && Expandable(mode, ft, Compress(mode, Ipv6, ft.l4Protocol, q))
            && |Through(mode, ft, q)| == |q|
            && (Through(mode, ft, q) == q <==> Survives(mode, ft, p))
  {
    var ft := Tuple(ft0, p);
    AcceptedFacts(ft0, p);
    SentIpv6(mode, ft0, p);
    Ipv6RoundTripIff(mode, ft, Sent(ft, p));
    ThroughIpv6(mode, ft, Sent(ft, p));
  }

  /** In the codec's domain that leaves IPv6 packets whose TCP checksum, if any, is not 0xFFFF. */
  lemma DomainSidesAgreeIff(mode: CompressionMode, ft0: FiveTuple, p: Bytes, rx: FiveTuple) returns (out: Bytes)
    requires IsAccepted(ft0, p) && !TtlExpires(ft0, p) && InDomain(Tuple(ft0, p), p)
    requires AgreesFor(mode, Tuple(ft0, p), rx)
    ensures var ft := Tuple(ft0, p);
            && ComesOut(mode, ft, rx, Sent(ft, p), out)
            && (ft.l4Protocol == TCP ==> |p| >= NetworkHeaderSize(ft.l3Type) + 20)
            && (out == Sent(ft, p) <==>
                ft.l3Type.Ipv6? && (ft.l4Protocol == TCP ==> U16At(p, 40 + 16) != 0xFFFF))
  {
    TcpHeaderPresent(ft0, p);
    out := SidesAgreeIff(mode, ft0, p, rx);
    DomainSurvivesIff(mode, ft0, p);
  }

  lemma TcpHeaderPresent(ft0: FiveTuple, p: Bytes)
    requires IsAccepted(ft0, p)
    ensures Tuple(ft0, p).l4Protocol == TCP ==> |p| >= NetworkHeaderSize(Tuple(ft0, p).l3Type) + 20
  {
    AcceptedFacts(ft0, p);
  }

  /**
    What comes out instead of an IPv4 packet of the domain: the packet as it was sent, with a
    header checksum that is valid again and a TCP checksum of 0xFFFF turned into 0x0000.
   */
  lemma Ipv4ComesOutSummed(mode: CompressionMode, ft0: FiveTuple, p: Bytes, rx: FiveTuple) returns (out: Bytes)
    requires IsAccepted(ft0, p) && !TtlExpires(ft0, p) && InDomain(Tuple(ft0, p), p) && Tuple(ft0, p).l3Type.Ipv4?
    requires AgreesFor(mode, Tuple(ft0, p), rx)
    ensures var ft := Tuple(ft0, p);
            var q := Sent(ft, p);
            && ComesOut(mode, ft, rx, q, out) && 20 <= HeaderLength(p) <= |q|
            && out == Splice(q[..20], 10, U16Bytes(FieldChecksum(q[..HeaderLength(p)], 10))) +
                      CanonicalSegment(ft, p[20..])
  {
    var ft := Tuple(ft0, p);
    var q := Sent(ft, p);
    AcceptedFacts(ft0, p);
    SentIpv4(ft, p);
    ThroughIpv4(mode, ft, q);
    DomainSegment(ft0, p);
    RebuiltCanonical(mode, ft, q[20..]);
    Ipv4Summed(ft, q);
    CarriedPortsUnread(mode, ft, rx, Compress(mode, Ipv4, ft.l4Protocol, q));
    out := Through(mode, ft, q);
  }

  /** Such a packet: a bare header, with checksum 0x79EE if `word` is 0, that survives the codec. */
  lemma Ipv4SidesDiffer(mode: CompressionMode, ft0: FiveTuple, p: Bytes, checksum: Word, word: Word, rx: FiveTuple)
    returns (out: Bytes)
    requires AgreesFor(mode, Tuple(ft0, p), rx)
    requires p == BarePacket(253, checksum, word) && checksum + word == 0x79EE
    ensures var ft := Tuple(ft0, p);
            && IsAccepted(ft0, p) && CompleteHeaders(ft.l3Type, ft.l4Protocol, p) && Survives(mode, ft, p)
            && ComesOut(mode, ft, rx, Sent(ft, p), out) && out != Sent(ft, p)
  {
    BareWords(253, checksum, word, p);
    out := ValidHeaderDiffers(mode, ft0, p, rx);
  }

  lemma ValidHeaderDiffers(mode: CompressionMode, ft0: FiveTuple, p: Bytes, rx: FiveTuple) returns (out: Bytes)
    requires AgreesFor(mode, Tuple(ft0, p), rx)
    requires |p| == 20 && p[0] == 0x45 && p[8] == 64 && p[9] == 253 && U16At(p, 2) == 20 && U16At(p, 6) == 0
    requires WordSum(p) == 0xFFFF && U16At(p, 10) != 0xFFFF
    ensures var ft := Tuple(ft0, p);
            && IsAccepted(ft0, p) && CompleteHeaders(ft.l3Type, ft.l4Protocol, p) && Survives(mode, ft, p)
            && ComesOut(mode, ft, rx, Sent(ft, p), out) && out != Sent(ft, p)
  {
    BareHeaderAccepted(ft0, p);
    AcceptedFacts(ft0, p);
    out := SidesAgreeIff(mode, ft0, p, rx);
  }

  // ---------------------------------------------------------------------------------------
  // Both fast paths

  const MAC_SIZE: nat := 8

  type Digest = d: Bytes | |d| == 32 witness Zeros(32)

  datatype Delivery = Delivered | DroppedTtl | DroppedMac

  /** Different bytes with the same truncated hash. */
  predicate Collide(hash: Bytes -> Digest, a: Bytes, b: Bytes) {
    a != b && hash(a)[..MAC_SIZE] == hash(b)[..MAC_SIZE]
  }

  /**
    An accepted packet is delivered exactly if it is IPv6 and survives the codec, hash
    collisions apart; a delivered one has its place in the buffer back.
   */
  method Transit(mode: CompressionMode, hash: Bytes -> Digest, ft: FiveTuple, rx: FiveTuple, pkt: Packet,
                 ghost ft0: FiveTuple)
    returns (r: Delivery, ghost out: Bytes)
    requires AgreesFor(mode, ft, rx)
    requires pkt.Valid() && IsAccepted(ft0, pkt.body) && ft == Tuple(ft0, pkt.body)
    requires pkt.End() + MAC_SIZE <= pkt.buf.Length
    modifies pkt, pkt.buf
    ensures pkt.Valid() && pkt.offset == old(pkt.offset) && pkt.End() == old(pkt.End())
    ensures r.DroppedTtl? <==> TtlExpires(ft0, old(pkt.body))
    ensures r.DroppedTtl? ==> pkt.body == Sent(ft, old(pkt.body))
    ensures !r.DroppedTtl? ==>
              && ComesOut(mode, ft, rx, Sent(ft, old(pkt.body)), out) && pkt.body == out
              && CompleteHeaders(ft.l3Type, ft.l4Protocol, old(pkt.body))
              && (r.Delivered? <==>
                  (ft.l3Type.Ipv6? && Survives(mode, ft, old(pkt.body))) || Collide(hash, Sent(ft, old(pkt.body)), out))
    ensures ft.l3Type.Ipv6? && CompleteHeaders(Ipv6, ft.l4Protocol, old(pkt.body)) &&
            Survives(mode, ft, old(pkt.body)) && !r.DroppedTtl? ==>
              r.Delivered? && OneLess(old(pkt.body), pkt.body, 7) && old(pkt.body)[7] > 1
    ensures r.DroppedTtl? <==> old(pkt.body)[if ft.l3Type.Ipv4? then 8 else 7] <= 1
  {
    AcceptedFacts(ft0, pkt.body);
    ghost var p := pkt.body;
    out := [];
    var expired := DecrementTtl(ft.l3Type, pkt);
    if expired {
      return DroppedTtl, out;
    }
    out := SidesAgreeIff(mode, ft0, p, rx);
    var ok := SendAndReceive(mode, hash, ft, rx, pkt, out);
    r := if ok then Delivered else DroppedMac;
  }

  /** Expansion takes the room that compression freed. */
  lemma GrowthRestores(mode: CompressionMode, ft: FiveTuple, rx: FiveTuple, q: Bytes, out: Bytes)
    requires ComesOut(mode, ft, rx, q, out)
    ensures var c := Compress(mode, ft.l3Type, ft.l4Protocol, q);
            c != [] && |c| + Growth(mode, rx, c) == |q|
  {
  }

  /** Hash, compress and append the MAC; take it off, expand, hash and compare. */
  method SendAndReceive(mode: CompressionMode, hash: Bytes -> Digest, ft: FiveTuple, rx: FiveTuple, pkt: Packet,
                        ghost out: Bytes)
    returns (ok: bool)
    requires pkt.Valid() && ComesOut(mode, ft, rx, pkt.body, out)
    requires pkt.End() + MAC_SIZE <= pkt.buf.Length
    modifies pkt, pkt.buf
    ensures pkt.Valid() && pkt.offset == old(pkt.offset) && pkt.End() == old(pkt.End())
    ensures pkt.body == out && (ok <==> hash(out)[..MAC_SIZE] == hash(old(pkt.body))[..MAC_SIZE])
  {
    GrowthRestores(mode, ft, rx, pkt.body, out);
    var sent := pkt.Body();
    CompressInPlace(mode, ft.l3Type, ft.l4Protocol, pkt);
    var received := CarryTrailer(pkt, hash(sent)[..MAC_SIZE]);
    ExpandInPlace(mode, rx, pkt);
    var expanded := pkt.Body();
    ok := hash(expanded)[..MAC_SIZE] == received;
  }

  /** Appends a trailer and takes it off again. */
  method CarryTrailer(pkt: Packet, trailer: Bytes) returns (received: Bytes)
    requires pkt.Valid() && pkt.End() + |trailer| <= pkt.buf.Length
    modifies pkt, pkt.buf
    ensures pkt.Valid() && pkt.offset == old(pkt.offset) && pkt.body == old(pkt.body)
    ensures received == trailer
  {
    pkt.Put(trailer);
    received := pkt.Peek(pkt.len - |trailer|, pkt.len);
    pkt.ShrinkBy(|trailer|);
  }
}
