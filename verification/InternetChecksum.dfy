/** The Internet checksum of RFC 1071, section 1, as `ip4sum` and the L4 helpers compute it. */
module InternetChecksum {
  import opened NetDefs

  /** The sum of the 16-bit words; an odd last byte is padded with a zero byte. */
  function WordSum(s: Bytes): nat {
    if |s| == 0 then 0
    else if |s| == 1 then s[0] as int * 0x100
    else U16At(s, 0) + WordSum(s[2..])
  }

  /** Adds the carries back in until the sum fits 16 bits. */
  function Fold(n: nat): Word {
    if n < 0x1_0000 then n else Fold(n / 0x1_0000 + n % 0x1_0000)
  }

  function Checksum(s: Bytes): Word {
    0xFFFF - Fold(WordSum(s))
  }

  /** 16-bit addition with end-around carry. */
  function OnesAdd(a: Word, b: Word): Word {
    if a + b < 0x1_0000 then a + b else a + b - 0xFFFF
  }

  /** Word-by-word accumulation with end-around carry, the other reading of RFC 1071. */
  function OnesSum(s: Bytes): Word {
    if |s| == 0 then 0
    else if |s| == 1 then s[0] as int * 0x100
    else OnesAdd(U16At(s, 0), OnesSum(s[2..]))
  }

  /** Folding keeps the residue modulo 65535 and yields zero for zero only. */
  lemma {:induction false} FoldCongruent(n: nat) returns (k: nat)
    ensures n == 0xFFFF * k + Fold(n)
    ensures Fold(n) == 0 <==> n == 0
  {
    if n < 0x1_0000 {
      k := 0;
    } else {
      k := FoldCongruent(n / 0x1_0000 + n % 0x1_0000);
      k := k + n / 0x1_0000;
    }
  }

  lemma OneStepOfResidue(a: Word, w: Word, b: Word, d: int)
    requires a + w == b + 0xFFFF * d
    ensures d == -1 || d == 0 || d == 1 || d == 2
    ensures d == -1 ==> a == 0 && w == 0
    ensures d == 2 ==> a == 0xFFFF && w == 0xFFFF && b == 0
  {
  }

  /** Those two facts determine the folded value. */
  lemma FoldUnique(n: nat, k: nat, f: Word)
    requires n == 0xFFFF * k + f
    requires f == 0 <==> n == 0
    ensures Fold(n) == f
  {
    var k' := FoldCongruent(n);
    OneStepOfResidue(f, 0, Fold(n), k' - k);
  }

  lemma {:induction false} DeferredCarriesAgree(s: Bytes)
    ensures OnesSum(s) == Fold(WordSum(s))
  {
    if |s| > 1 {
      DeferredCarriesAgree(s[2..]);
      var k := FoldCongruent(WordSum(s[2..]));
      FoldUnique(WordSum(s), if U16At(s, 0) + OnesSum(s[2..]) < 0x1_0000 then k else k + 1, OnesSum(s));
    }
  }

  lemma {:induction false} WordSumAppend(a: Bytes, b: Bytes)
    requires |a| % 2 == 0
    ensures WordSum(a + b) == WordSum(a) + WordSum(b)
  {
    if a == [] {
      assert a + b == b;
    } else {
      WordSumAppend(a[2..], b);
      assert (a + b)[2..] == a[2..] + b;
    }
  }

  /** A word put into an even-aligned zero field adds exactly its value to the sum. */
  lemma WordSumOfField(s: Bytes, i: nat, w: Word)
    requires i % 2 == 0 && i + 2 <= |s|
    ensures WordSum(Splice(s, i, U16Bytes(w))) == WordSum(Splice(s, i, U16Bytes(0))) + w
  {
    var tail := s[i + 2..];
    forall x: Word ensures WordSum(Splice(s, i, U16Bytes(x))) == WordSum(s[..i]) + x + WordSum(tail) {
      var field := U16Bytes(x);
      assert Splice(s, i, field) == s[..i] + (field + tail);
      WordSumAppend(s[..i], field + tail);
      WordSumAppend(field, tail);
      assert field[2..] == [];
    }
  }

  /** Which words bring a sum to all ones: its complement, and all ones if it is there already. */
  lemma ComplementCompletes(base: nat, w: Word)
    ensures Fold(base + w) == 0xFFFF <==> w == 0xFFFF - Fold(base) || (Fold(base) == 0xFFFF && w == 0xFFFF)
  {
    var k := FoldCongruent(base);
    var k' := FoldCongruent(base + w);
    OneStepOfResidue(Fold(base), w, Fold(base + w), k' - k);
  }

  /** The checksum that belongs into the zeroed field at offset `i`. */
  function FieldChecksum(s: Bytes, i: nat): Word
    requires i + 2 <= |s|
  {
    Checksum(Splice(s, i, U16Bytes(0)))
  }

  /**
    Which values of a checksum field validate: the computed one, and 0xFFFF when the
    computed one is 0x0000.  Nothing else does, whatever the other bytes are.
   */
  lemma ChecksumUnique(s: Bytes, i: nat, w: Word)
    requires i % 2 == 0 && i + 2 <= |s|
    ensures var c := FieldChecksum(s, i);
            Checksum(Splice(s, i, U16Bytes(w))) == 0 <==> w == c || (c == 0 && w == 0xFFFF)
  {
    var base := WordSum(Splice(s, i, U16Bytes(0)));
    WordSumOfField(s, i, w);
    ComplementCompletes(base, w);
  }

  /** A string with a nonzero word outside the field never gets the checksum 0xFFFF. */
  lemma ComputedNotAllOnes(s: Bytes)
    ensures Checksum(s) == 0xFFFF <==> forall k :: 0 <= k < |s| ==> s[k] == 0
  {
    var k := FoldCongruent(WordSum(s));
    WordSumZero(s);
  }

  lemma {:induction false} WordSumZero(s: Bytes)
    ensures WordSum(s) == 0 <==> forall k :: 0 <= k < |s| ==> s[k] == 0
  {
    if |s| > 1 {
      WordSumZero(s[2..]);
      assert forall k :: 2 <= k < |s| ==> s[k] == s[2..][k - 2];
    }
  }

  /** The sum of ten words, five and five. */
  lemma PlainHeaderSum(p: Bytes)
    requires |p| == 20
    ensures WordSum(p) == U16At(p, 0) + U16At(p, 2) + U16At(p, 4) + U16At(p, 6) + U16At(p, 8) +
                          U16At(p, 10) + U16At(p, 12) + U16At(p, 14) + U16At(p, 16) + U16At(p, 18)
  {
    FiveWords(p, 0);
    FiveWords(p, 10);
    assert p[0..] == p && p[20..] == [];
  }

  lemma FiveWords(p: Bytes, i: nat)
    requires i + 10 <= |p|
    ensures WordSum(p[i..]) ==
            U16At(p, i) + U16At(p, i + 2) + U16At(p, i + 4) + U16At(p, i + 6) + U16At(p, i + 8) + WordSum(p[i + 10..])
  {
    WordSumStep(p, i);
    WordSumStep(p, i + 2);
    WordSumStep(p, i + 4);
    WordSumStep(p, i + 6);
    WordSumStep(p, i + 8);
  }

  lemma WordSumStep(p: Bytes, i: nat)
    requires i + 2 <= |p|
    ensures WordSum(p[i..]) == U16At(p, i) + WordSum(p[i + 2..])
  {
    assert p[i..][2..] == p[i + 2..];
  }

  /** The pseudo-header of RFC 9293 section 3.1 (IPv4) and RFC 8200 section 8.1 (IPv6). */
  function PseudoHeader(l3: L3Type, src: IpAddress, dst: IpAddress, protocol: Byte, length: nat): (h: Bytes)
    ensures |h| % 2 == 0
  {
    if l3.Ipv4? then
      ReadAsV4(src) + ReadAsV4(dst) + [0, protocol] + U16Bytes(AsU16(length))
    else
      src + dst + U16Bytes(length / 0x1_0000 % 0x1_0000) + U16Bytes(AsU16(length)) + [0, 0, 0, protocol]
  }

  /** `inet_l4_checksum` of a segment. */
  function L4Checksum(l3: L3Type, src: IpAddress, dst: IpAddress, protocol: Byte, segment: Bytes): Word {
    Checksum(PseudoHeader(l3, src, dst, protocol, |segment|) + segment)
  }

  /** The transport checksum over IPv4, in words of RFC 9293 section 3.1: addresses, protocol, length, segment. */
  lemma Ipv4L4Checksum(src: IpAddress, dst: IpAddress, protocol: Byte, segment: Bytes)
    requires |segment| < 0x1_0000
    ensures L4Checksum(Ipv4, src, dst, protocol, segment) ==
            0xFFFF - Fold(U16At(src, 12) + U16At(src, 14) + U16At(dst, 12) + U16At(dst, 14) +
                          protocol as int + |segment| + WordSum(segment))
  {
    var h := PseudoHeader(Ipv4, src, dst, protocol, |segment|);
    WordSumAppend(h, segment);
    FiveWords(h, 0);
    WordSumStep(h, 10);
    assert h[0..] == h && h[12..] == [];
    assert U16At(h, 10) == |segment|;
  }

  lemma EightWords(a: Bytes, i: nat)
    requires i + 16 <= |a|
    ensures WordSum(a[i..]) == WordSum(a[i + 16..]) +
                               U16At(a, i) + U16At(a, i + 2) + U16At(a, i + 4) + U16At(a, i + 6) +
                               U16At(a, i + 8) + U16At(a, i + 10) + U16At(a, i + 12) + U16At(a, i + 14)
  {
    FiveWords(a, i);
    WordSumStep(a, i + 10);
    WordSumStep(a, i + 12);
    WordSumStep(a, i + 14);
  }

  /** The words behind the addresses of an IPv6 pseudo-header: the 32-bit length, and the protocol. */
  lemma Ipv6LengthWords(length: nat, protocol: Byte)
    requires length < 0x1_0000_0000
    ensures var t := U16Bytes(length / 0x1_0000 % 0x1_0000) + U16Bytes(AsU16(length)) + [0, 0, 0, protocol];
            WordSum(t) == length / 0x1_0000 + length % 0x1_0000 + protocol as int
  {
    var t := U16Bytes(length / 0x1_0000 % 0x1_0000) + U16Bytes(AsU16(length)) + [0, 0, 0, protocol];
    WordSumStep(t, 0);
    WordSumStep(t, 2);
    WordSumStep(t, 4);
    WordSumStep(t, 6);
    assert t[0..] == t && t[8..] == [];
    assert U16At(t, 0) == length / 0x1_0000 && U16At(t, 2) == length % 0x1_0000;
  }

  /** The same over IPv6, in words of RFC 8200 section 8.1. */
  lemma Ipv6L4Checksum(src: IpAddress, dst: IpAddress, protocol: Byte, segment: Bytes)
    requires |segment| < 0x1_0000_0000
    ensures L4Checksum(Ipv6, src, dst, protocol, segment) ==
            0xFFFF - Fold(U16At(src, 0) + U16At(src, 2) + U16At(src, 4) + U16At(src, 6) +
                          U16At(src, 8) + U16At(src, 10) + U16At(src, 12) + U16At(src, 14) +
                          U16At(dst, 0) + U16At(dst, 2) + U16At(dst, 4) + U16At(dst, 6) +
                          U16At(dst, 8) + U16At(dst, 10) + U16At(dst, 12) + U16At(dst, 14) +
                          |segment| / 0x1_0000 + |segment| % 0x1_0000 + protocol as int + WordSum(segment))
  {
    var h := PseudoHeader(Ipv6, src, dst, protocol, |segment|);
    var t := U16Bytes(|segment| / 0x1_0000 % 0x1_0000) + U16Bytes(AsU16(|segment|)) + [0, 0, 0, protocol];
    WordSumAppend(h, segment);
    assert h == src + (dst + t);
    TwoAddresses(src, dst, t);
    AddressWords(src);
    AddressWords(dst);
    Ipv6LengthWords(|segment|, protocol);
  }

  lemma TwoAddresses(src: IpAddress, dst: IpAddress, t: Bytes)
    ensures WordSum(src + (dst + t)) == WordSum(src) + WordSum(dst) + WordSum(t)
  {
    WordSumAppend(src, dst + t);
    WordSumAppend(dst, t);
  }

  lemma AddressWords(a: IpAddress)
    ensures WordSum(a) == U16At(a, 0) + U16At(a, 2) + U16At(a, 4) + U16At(a, 6) +
                          U16At(a, 8) + U16At(a, 10) + U16At(a, 12) + U16At(a, 14)
  {
    EightWords(a, 0);
    assert a[0..] == a && a[16..] == [];
  }

  /** An odd last byte is the high byte of a word. */
  lemma OddByteIsHigh(s: Bytes, b: Byte)
    requires |s| % 2 == 0
    ensures WordSum(s + [b]) == WordSum(s) + 0x100 * b as int
  {
    WordSumAppend(s, [b]);
  }

  /** The checksum uniqueness law behind the pseudo-header. */
  lemma L4ChecksumUnique(l3: L3Type, src: IpAddress, dst: IpAddress, protocol: Byte, segment: Bytes, i: nat, w: Word)
    requires i % 2 == 0 && i + 2 <= |segment|
    ensures var c := L4Checksum(l3, src, dst, protocol, Splice(segment, i, U16Bytes(0)));
            L4Checksum(l3, src, dst, protocol, Splice(segment, i, U16Bytes(w))) == 0 <==>
            w == c || (c == 0 && w == 0xFFFF)
  {
    var h := PseudoHeader(l3, src, dst, protocol, |segment|);
    forall x: Word ensures h + Splice(segment, i, U16Bytes(x)) == Splice(h + segment, |h| + i, U16Bytes(x)) {
    }
    ChecksumUnique(h + segment, |h| + i, w);
  }
}
