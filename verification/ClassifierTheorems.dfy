/** What the classifier guarantees on every packet: bounded walk, no stray read, stable prefixes. */
module ClassifierTheorems {
  import opened NetDefs
  import opened InternetChecksum
  import opened Classifier

  // ---------------------------------------------------------------------------------------
  // The walk over the extension headers

  /** One invocation of `classify_next_header`: the bytes it is handed, and the protocol. */
  datatype Call = Call(length: nat, protocol: Byte)

  predicate Recurses(body: Bytes, protocol: Byte) {
    NextHop(body, protocol).HopTo? && (protocol == IPV6_FRAG ==> U16At(body, 2) / 8 == 0)
  }

  function Calls(body: Bytes, protocol: Byte): (calls: seq<Call>)
    ensures calls != [] && calls[0] == Call(|body|, protocol)
    decreases |body|
  {
    [Call(|body|, protocol)] +
    if Recurses(body, protocol) then
      var hop := NextHop(body, protocol);
      Calls(body[hop.skipped..], hop.next)
    else
      []
  }

  /** The calls behind the first one. */
  lemma CallsStep(body: Bytes, protocol: Byte)
    requires Recurses(body, protocol)
    ensures var hop := NextHop(body, protocol);
            Calls(body, protocol) == [Call(|body|, protocol)] + Calls(body[hop.skipped..], hop.next)
  {
  }

  lemma {:induction false} CallsBounded(body: Bytes, protocol: Byte)
    ensures var calls := Calls(body, protocol);
            && |calls| <= |body| / 8 + 1
            && (forall i :: 0 < i < |calls| ==> calls[i].length + 8 <= calls[i - 1].length)
            && (forall i :: 0 < i < |calls| ==> calls[i].length >= 8 || calls[i].protocol == NO_NEXT_HEADER)
    decreases |body|
  {
    if Recurses(body, protocol) {
      var hop := NextHop(body, protocol);
      CallsStep(body, protocol);
      CallsBounded(body[hop.skipped..], hop.next);
      var rest := Calls(body[hop.skipped..], hop.next);
      assert forall i :: 0 < i <= |rest| ==> Calls(body, protocol)[i] == rest[i - 1];
    }
  }

  lemma {:induction false} LastCallRecorded(ft: FiveTuple, body: Bytes, protocol: Byte, options: Options)
    ensures var calls := Calls(body, protocol);
            ClassifyNextHeader(ft, body, protocol, options).ft.l4Protocol == calls[|calls| - 1].protocol
    decreases |body|
  {
    if Recurses(body, protocol) {
      var hop := NextHop(body, protocol);
      CallsStep(body, protocol);
      LastCallRecorded(ft.(l4Protocol := protocol), body[hop.skipped..], hop.next, options);
    }
  }

  /**
    The walk makes at most one call per 8 bytes and one more, each call leaves at least 8
    bytes behind, and a call made after a skip has 8 bytes to look at or is told there is no
    next header.  The last protocol walked to is the one recorded in the five-tuple.
   */
  lemma WalkBounded(ft: FiveTuple, body: Bytes, protocol: Byte, options: Options)
    ensures var calls := Calls(body, protocol);
            && |calls| <= |body| / 8 + 1
            && (forall i :: 0 < i < |calls| ==> calls[i].length + 8 <= calls[i - 1].length)
            && (forall i :: 0 < i < |calls| ==> calls[i].length >= 8 || calls[i].protocol == NO_NEXT_HEADER)
            && ClassifyNextHeader(ft, body, protocol, options).ft.l4Protocol == calls[|calls| - 1].protocol
  {
    CallsBounded(body, protocol);
    LastCallRecorded(ft, body, protocol, options);
  }

  /** The bytes a header must have for its first unchecked reads to be in bounds. */
  function UncheckedReads(protocol: Byte): nat {
    if protocol == ICMP || protocol == IPV6_ICMP then 4
    else if protocol == IPV6_FRAG then 1
    else if IsExtension(protocol) then 2
    else 0
  }

  /** A read past the end happens in the entry call or not at all. */
  lemma {:induction false} PanicsIffEntryTooShort(ft: FiveTuple, body: Bytes, protocol: Byte, options: Options)
    ensures ClassifyNextHeader(ft, body, protocol, options).outcome.Panic? <==> |body| < UncheckedReads(protocol)
    decreases |body|
  {
    if Recurses(body, protocol) {
      var hop := NextHop(body, protocol);
      PanicsIffEntryTooShort(ft.(l4Protocol := protocol), body[hop.skipped..], hop.next, options);
    }
  }

  /** The checks on the network header that let the classifier go on to the bytes behind it. */
  predicate HeaderPasses(p: Bytes, options: Options)
    requires p != []
  {
    if IpVersion(p) == 4 then
      && |p| >= IPV4_HEADER_SIZE && IPV4_HEADER_SIZE <= HeaderLength(p) <= |p|
      && (options.ValidatesChecksums() ==> Checksum(p[..HeaderLength(p)]) == 0)
      && FragmentOffset(p) == 0 && !LengthMismatch(|p|, U16At(p, 2), options)
    else
      && IpVersion(p) == 6 && |p| >= IPV6_HEADER_SIZE
      && !IsV4(p[8..24]) && !IsV4(p[24..40]) && !(U16At(p, 4) == 0 && p[6] == HOPOPT)
      && !LengthMismatch(|p| - IPV6_HEADER_SIZE, U16At(p, 4), options)
  }

  /** The packet's network header is followed by fewer bytes than its protocol's first reads take. */
  predicate CutShort(p: Bytes)
    requires p != []
  {
    if IpVersion(p) == 4 then
      |p| >= IPV4_HEADER_SIZE && |p| < HeaderLength(p) + UncheckedReads(p[9])
    else
      |p| >= IPV6_HEADER_SIZE && |p| < IPV6_HEADER_SIZE + UncheckedReads(p[6])
  }

  /** When the classifier reads past the end of a packet; eight bytes behind the header rule it out. */
  lemma ClassifyPanicsIff(ft: FiveTuple, p: Bytes, options: Options)
    ensures Classify(ft, p, options).outcome.Panic? <==> p != [] && HeaderPasses(p, options) && CutShort(p)
    ensures p != [] && |p| >= (if IpVersion(p) == 4 then HeaderLength(p) else IPV6_HEADER_SIZE) + 8 ==>
              !Classify(ft, p, options).outcome.Panic?
  {
    if p != [] && HeaderPasses(p, options) {
      if IpVersion(p) == 4 {
        var ft' := ft.(l3Type := Ipv4, srcAddress := FromV4(p[12..16]), dstAddress := FromV4(p[16..20]));
        PanicsIffEntryTooShort(ft', p[HeaderLength(p)..], p[9], options);
      } else {
        var ft' := ft.(l3Type := Ipv6, srcAddress := p[8..24], dstAddress := p[24..40]);
        PanicsIffEntryTooShort(ft', p[IPV6_HEADER_SIZE..], p[6], options);
      }
    }
  }

  /** A 20-byte IPv4 packet: nothing but a header without options, from an address that begins with `word`. */
  function BarePacket(protocol: Byte, checksum: Word, word: Word): Bytes {
    [0x45, 0, 0, 20, 0, 0, 0, 0, 64, protocol, checksum / 0x100, checksum % 0x100, word / 0x100, word % 0x100,
     0, 0, 0, 0, 0, 0]
  }

  lemma BareWords(protocol: Byte, checksum: Word, word: Word, p: Bytes)
    requires p == BarePacket(protocol, checksum, word)
    ensures |p| == 20 && p[0] == 0x45 && p[8] == 64 && p[9] == protocol
    ensures U16At(p, 2) == 20 && U16At(p, 6) == 0 && U16At(p, 10) == checksum
    ensures WordSum(p) == 0x4500 + 20 + 0x4000 + protocol as int + checksum + word
  {
    PlainHeaderSum(p);
  }

  /** With a valid checksum, such a packet passes all checks on its header. */
  lemma BareHeaderPasses(ft: FiveTuple, p: Bytes)
    requires |p| == 20 && p[0] == 0x45 && U16At(p, 2) == 20 && U16At(p, 6) == 0
    requires WordSum(p) == 0xFFFF || WordSum(p) == 0x1FFFE
    ensures HeaderPasses(p, DEFAULT_OPTIONS)
    ensures var start := ft.(l3Type := Ipv4, srcAddress := FromV4(p[12..16]), dstAddress := FromV4(p[16..20]));
            Classify(ft, p, DEFAULT_OPTIONS) == ClassifyNextHeader(start, [], p[9], DEFAULT_OPTIONS)
  {
    FoldUnique(WordSum(p), WordSum(p) / 0xFFFF - 1, 0xFFFF);
    assert p[..20] == p && p[20..] == [];
  }

  /** A valid IPv4 header that announces ICMP, and nothing behind it; with `word` 0 the checksum is 0x7AEA. */
  lemma BareIcmpPanics(ft: FiveTuple, p: Bytes, checksum: Word, word: Word)
    requires p == BarePacket(ICMP, checksum, word) && checksum + word == 0x7AEA
    ensures Classify(ft, p, DEFAULT_OPTIONS).outcome.Panic?
  {
    BareWords(ICMP, checksum, word, p);
    ValidIcmpHeaderPanics(ft, p);
  }

  lemma ValidIcmpHeaderPanics(ft: FiveTuple, p: Bytes)
    requires |p| == 20 && p[0] == 0x45 && p[9] == ICMP && U16At(p, 2) == 20 && U16At(p, 6) == 0
    requires WordSum(p) == 0xFFFF
    ensures Classify(ft, p, DEFAULT_OPTIONS).outcome.Panic?
  {
    BareHeaderPasses(ft, p);
    ClassifyPanicsIff(ft, p, DEFAULT_OPTIONS);
  }

  // ---------------------------------------------------------------------------------------
  // Prefix stability

  function TransportHeaderSize(body: Bytes, protocol: Byte): nat {
    if protocol == TCP && |body| >= TCP_HEADER_SIZE then DataOffset(body)
    else if protocol == UDP then UDP_HEADER_SIZE
    else if protocol == ICMP || protocol == IPV6_ICMP then ICMP_HEADER_SIZE
    else 0
  }

  /** The bytes up to the end of the transport header, with 8 bytes after every skipped header. */
  function HeadersSize(body: Bytes, protocol: Byte): nat
    decreases |body|
  {
    match NextHop(body, protocol)
    case HopTo(skipped, next) =>
      var rest := HeadersSize(body[skipped..], next);
      skipped + if next != NO_NEXT_HEADER && rest < 8 then 8 else rest
    case _ => TransportHeaderSize(body, protocol)
  }

  function PacketHeadersSize(p: Bytes): nat
    requires p != []
  {
    if IpVersion(p) == 4 && |p| >= IPV4_HEADER_SIZE && HeaderLength(p) <= |p| then
      HeaderLength(p) + HeadersSize(p[HeaderLength(p)..], p[9])
    else if IpVersion(p) == 6 && |p| >= IPV6_HEADER_SIZE then
      IPV6_HEADER_SIZE + HeadersSize(p[IPV6_HEADER_SIZE..], p[6])
    else
      0
  }

  lemma {:induction false} NextHeaderPrefix(ft: FiveTuple, body: Bytes, protocol: Byte, n: nat)
    requires Accepted(ClassifyNextHeader(ft, body, protocol, DEFAULT_OPTIONS).outcome)
    requires n <= |body|
    ensures var whole := ClassifyNextHeader(ft, body, protocol, DEFAULT_OPTIONS);
            var prefix := ClassifyNextHeader(ft, body[..n], protocol, TRUNCATED_OPTIONS);
            if HeadersSize(body, protocol) <= n then prefix == whole else !prefix.outcome.Ok?
    decreases |body|
  {
    match NextHop(body, protocol)
    case HopTo(skipped, next) =>
      var ft' := ft.(l4Protocol := protocol);
      HopPrefix(body, protocol, n);
      if skipped <= n {
        assert body[..n][skipped..] == body[skipped..][..n - skipped];
        NextHeaderPrefix(ft', body[skipped..], next, n - skipped);
      }
    case _ =>
      TransportPrefix(ft.(l4Protocol := protocol), body, n);
  }

  /** A prefix still shows the hop exactly if it holds the skipped header and 8 bytes after it. */
  lemma HopPrefix(body: Bytes, protocol: Byte, n: nat)
    requires n <= |body| && NextHop(body, protocol).HopTo? && protocol != IPV6_FRAG
    ensures var HopTo(skipped, next) := NextHop(body, protocol);
            var hop := NextHop(body[..n], protocol);
            if skipped + (if next == NO_NEXT_HEADER then 0 else 8) <= n
            then hop == HopTo(skipped, next)
            else hop == HopPanic || hop == HopError
  {
    if 2 <= n {
      assert body[..n][0] == body[0] && body[..n][1] == body[1];
    }
  }

  lemma TransportPrefix(ft: FiveTuple, body: Bytes, n: nat)
    requires Accepted(ClassifyL4(ft, body, DEFAULT_OPTIONS).outcome)
    requires n <= |body|
    ensures var whole := ClassifyL4(ft, body, DEFAULT_OPTIONS);
            var prefix := ClassifyL4(ft, body[..n], TRUNCATED_OPTIONS);
            if TransportHeaderSize(body, ft.l4Protocol) <= n then prefix == whole else !prefix.outcome.Ok?
  {
    assert forall i :: 0 <= i < n ==> body[..n][i] == body[i];
  }

  /**
    A prefix of an accepted packet classifies to the very same tuple and kind under
    `ignore_truncated_packets` exactly when it still holds all the headers; a shorter one is
    never accepted.
   */
  lemma PrefixStable(ft: FiveTuple, p: Bytes, n: nat)
    requires Accepted(Classify(ft, p, DEFAULT_OPTIONS).outcome)
    requires n <= |p|
    ensures var whole := Classify(ft, p, DEFAULT_OPTIONS);
            var prefix := Classify(ft, p[..n], TRUNCATED_OPTIONS);
            if PacketHeadersSize(p) <= n then prefix == whole else !prefix.outcome.Ok?
  {
    if n < (if IpVersion(p) == 4 then IPV4_HEADER_SIZE else IPV6_HEADER_SIZE) {
      ShortPrefix(ft, p, n);
    } else if IpVersion(p) == 4 {
      Ipv4Prefix(ft, p, n);
    } else {
      Ipv6Prefix(ft, p, n);
    }
  }

  /** A prefix that cuts the fixed network header is refused. */
  lemma ShortPrefix(ft: FiveTuple, p: Bytes, n: nat)
    requires Accepted(Classify(ft, p, DEFAULT_OPTIONS).outcome)
    requires n <= |p| && n < (if IpVersion(p) == 4 then IPV4_HEADER_SIZE else IPV6_HEADER_SIZE)
    ensures PacketHeadersSize(p) > n && !Classify(ft, p[..n], TRUNCATED_OPTIONS).outcome.Ok?
  {
    assert n > 0 ==> p[..n][0] == p[0];
  }

  lemma Ipv4Prefix(ft: FiveTuple, p: Bytes, n: nat)
    requires IPV4_HEADER_SIZE <= n <= |p| && IpVersion(p) == 4
    requires Accepted(Classify(ft, p, DEFAULT_OPTIONS).outcome)
    ensures var prefix := Classify(ft, p[..n], TRUNCATED_OPTIONS);
            if PacketHeadersSize(p) <= n then prefix == Classify(ft, p, DEFAULT_OPTIONS) else !prefix.outcome.Ok?
  {
    Ipv4Behind(ft, p, DEFAULT_OPTIONS);
    Ipv4PrefixReads(p, n);
    Ipv4Behind(ft, p[..n], TRUNCATED_OPTIONS);
    if HeaderLength(p) <= n {
      Ipv4ChainPrefix(ft, p, n);
    } else {
      Ipv4HeadersSize(p);
    }
  }

  lemma Ipv6Prefix(ft: FiveTuple, p: Bytes, n: nat)
    requires IPV6_HEADER_SIZE <= n <= |p| && IpVersion(p) == 6
    requires Accepted(Classify(ft, p, DEFAULT_OPTIONS).outcome)
    ensures var prefix := Classify(ft, p[..n], TRUNCATED_OPTIONS);
            if PacketHeadersSize(p) <= n then prefix == Classify(ft, p, DEFAULT_OPTIONS) else !prefix.outcome.Ok?
  {
    Ipv6Behind(ft, p, DEFAULT_OPTIONS);
    Ipv6PrefixPasses(p, n);
    Ipv6Behind(ft, p[..n], TRUNCATED_OPTIONS);
    Ipv6ChainPrefix(ft, p, n);
  }

  /** What the header chain behind an IPv4 header says. */
  function Ipv4Chain(ft: FiveTuple, p: Bytes, options: Options): Classification
    requires |p| >= IPV4_HEADER_SIZE && HeaderLength(p) <= |p|
  {
    ClassifyNextHeader(ft.(l3Type := Ipv4, srcAddress := FromV4(p[12..16]), dstAddress := FromV4(p[16..20])),
                       p[HeaderLength(p)..], p[9], options)
  }

  /** Behind a header that passes, the chain decides; an unfragmented packet whose header does not pass is refused. */
  lemma Ipv4Behind(ft: FiveTuple, p: Bytes, options: Options)
    requires |p| >= IPV4_HEADER_SIZE && IpVersion(p) == 4
    ensures var r := Classify(ft, p, options);
            && (Accepted(r.outcome) ==> HeaderPasses(p, options) && !MoreFragments(p))
            && (HeaderPasses(p, options) && !MoreFragments(p) ==> r == Ipv4Chain(ft, p, options))
            && (!HeaderPasses(p, options) && FragmentOffset(p) == 0 ==> r.outcome.Err?)
  {
  }

  lemma Ipv4HeadersSize(p: Bytes)
    requires |p| >= IPV4_HEADER_SIZE && IpVersion(p) == 4 && HeaderLength(p) <= |p|
    ensures PacketHeadersSize(p) == HeaderLength(p) + HeadersSize(p[HeaderLength(p)..], p[9])
  {
  }

  lemma Ipv4PrefixReads(p: Bytes, n: nat)
    requires IPV4_HEADER_SIZE <= n <= |p| && IpVersion(p) == 4 && HeaderPasses(p, DEFAULT_OPTIONS)
    ensures var q := p[..n];
            && q[0] == p[0] && q[9] == p[9] && U16At(q, 6) == U16At(p, 6)
            && q[12..16] == p[12..16] && q[16..20] == p[16..20]
            && (HeaderPasses(q, TRUNCATED_OPTIONS) <==> HeaderLength(p) <= n)
  {
    var q := p[..n];
    assert q[12..16] == p[12..16] && q[16..20] == p[16..20];
    assert U16At(q, 2) == U16At(p, 2) && U16At(q, 6) == U16At(p, 6);
  }

  /** Prefix stability behind the IPv4 header. */
  lemma Ipv4ChainPrefix(ft: FiveTuple, p: Bytes, n: nat)
    requires IPV4_HEADER_SIZE <= n <= |p| && IpVersion(p) == 4 && HeaderLength(p) <= n
    requires Accepted(Ipv4Chain(ft, p, DEFAULT_OPTIONS).outcome)
    ensures HeaderLength(p[..n]) == HeaderLength(p)
    ensures var prefix := Ipv4Chain(ft, p[..n], TRUNCATED_OPTIONS);
            if PacketHeadersSize(p) <= n then prefix == Ipv4Chain(ft, p, DEFAULT_OPTIONS) else !prefix.outcome.Ok?
  {
    var q, hl := p[..n], HeaderLength(p);
    var rest, m := p[hl..], n - hl;
    var start := ft.(l3Type := Ipv4, srcAddress := FromV4(p[12..16]), dstAddress := FromV4(p[16..20]));
    assert q[12..16] == p[12..16] && q[16..20] == p[16..20] && q[0] == p[0] && q[9] == p[9];
    assert q[hl..] == rest[..m];
    Ipv4HeadersSize(p);
    ChainDecides(start, rest, p[9], m, PacketHeadersSize(p) - hl,
                 Ipv4Chain(ft, p, DEFAULT_OPTIONS), Ipv4Chain(ft, q, TRUNCATED_OPTIONS));
  }

  /** What the header chain behind a fixed IPv6 header says. */
  function Ipv6Chain(ft: FiveTuple, p: Bytes, options: Options): Classification
    requires |p| >= IPV6_HEADER_SIZE
  {
    ClassifyNextHeader(ft.(l3Type := Ipv6, srcAddress := p[8..24], dstAddress := p[24..40]),
                       p[IPV6_HEADER_SIZE..], p[6], options)
  }

  lemma Ipv6Behind(ft: FiveTuple, p: Bytes, options: Options)
    requires |p| >= IPV6_HEADER_SIZE && IpVersion(p) == 6
    ensures var r := Classify(ft, p, options);
            && (Accepted(r.outcome) ==> HeaderPasses(p, options))
            && (HeaderPasses(p, options) ==> r == Ipv6Chain(ft, p, options))
  {
  }

  lemma Ipv6PrefixPasses(p: Bytes, n: nat)
    requires IPV6_HEADER_SIZE <= n <= |p| && IpVersion(p) == 6 && HeaderPasses(p, DEFAULT_OPTIONS)
    ensures var q := p[..n];
            && q[0] == p[0] && q[6] == p[6] && q[8..24] == p[8..24] && q[24..40] == p[24..40]
            && HeaderPasses(q, TRUNCATED_OPTIONS)
  {
    var q := p[..n];
    assert q[8..24] == p[8..24] && q[24..40] == p[24..40];
    assert U16At(q, 4) == U16At(p, 4);
  }

  /** Prefix stability behind the fixed IPv6 header. */
  lemma Ipv6ChainPrefix(ft: FiveTuple, p: Bytes, n: nat)
    requires IPV6_HEADER_SIZE <= n <= |p| && IpVersion(p) == 6
    requires Accepted(Ipv6Chain(ft, p, DEFAULT_OPTIONS).outcome)
    ensures var prefix := Ipv6Chain(ft, p[..n], TRUNCATED_OPTIONS);
            if PacketHeadersSize(p) <= n then prefix == Ipv6Chain(ft, p, DEFAULT_OPTIONS) else !prefix.outcome.Ok?
  {
    var q, rest, m := p[..n], p[IPV6_HEADER_SIZE..], n - IPV6_HEADER_SIZE;
    var start := ft.(l3Type := Ipv6, srcAddress := p[8..24], dstAddress := p[24..40]);
    assert q[8..24] == p[8..24] && q[24..40] == p[24..40] && q[6] == p[6];
    assert q[IPV6_HEADER_SIZE..] == rest[..m];
    Ipv6HeadersSize(p);
    ChainDecides(start, rest, p[6], m, PacketHeadersSize(p) - IPV6_HEADER_SIZE,
                 Ipv6Chain(ft, p, DEFAULT_OPTIONS), Ipv6Chain(ft, q, TRUNCATED_OPTIONS));
  }

  lemma Ipv6HeadersSize(p: Bytes)
    requires |p| >= IPV6_HEADER_SIZE && IpVersion(p) == 6
    ensures PacketHeadersSize(p) == IPV6_HEADER_SIZE + HeadersSize(p[IPV6_HEADER_SIZE..], p[6])
  {
  }

  /** Prefix stability of the chain, by its results and its size. */
  lemma ChainDecides(start: FiveTuple, rest: Bytes, protocol: Byte, m: nat, size: nat,
                     whole: Classification, prefix: Classification)
    requires m <= |rest| && size == HeadersSize(rest, protocol) && Accepted(whole.outcome)
    requires whole == ClassifyNextHeader(start, rest, protocol, DEFAULT_OPTIONS)
    requires prefix == ClassifyNextHeader(start, rest[..m], protocol, TRUNCATED_OPTIONS)
    ensures if size <= m then prefix == whole else !prefix.outcome.Ok?
  {
    NextHeaderPrefix(start, rest, protocol, m);
  }
}
