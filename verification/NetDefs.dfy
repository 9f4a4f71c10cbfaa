/** Bytes in network order, IP addresses and five-tuples. */
module NetDefs {

  type Byte = b: int | 0 <= b < 0x100
  type Word = w: int | 0 <= w < 0x1_0000
  type Bytes = seq<Byte>

  /** The big-endian 16-bit word at offset `i`. */
  function U16At(s: Bytes, i: nat): Word
    requires i + 2 <= |s|
  {
    s[i] as int * 0x100 + s[i + 1] as int
  }

  /** `as u16`: truncation to 16 bits. */
  function AsU16(n: nat): Word {
    if n < 0x1_0000 then n else n % 0x1_0000
  }

  function U16Bytes(w: Word): Bytes {
    [w / 0x100, w % 0x100]
  }

  lemma U16RoundTrip(s: Bytes, i: nat)
    requires i + 2 <= |s|
    ensures U16Bytes(U16At(s, i)) == s[i..i + 2]
  {
    assert s[i..i + 2] == [s[i], s[i + 1]];
  }

  function Zeros(n: nat): (z: Bytes)
    ensures |z| == n
    ensures forall k :: 0 <= k < n ==> z[k] == 0
  {
    seq(n, _ => 0)
  }

  /** An address is always held in 16 bytes; IPv4 lives in the IPv4-mapped range. */
  type IpAddress = a: Bytes | |a| == 16 witness Zeros(16)

  const V4_MAPPED_PREFIX: Bytes := [0, 0, 0, 0, 0, 0, 0, 0, 0, 0, 0xFF, 0xFF]

  predicate IsV4(a: IpAddress) {
    a[10] == 0xFF && a[11] == 0xFF && forall i :: 0 <= i < 10 ==> a[i] == 0
  }

  function FromV4(v4: Bytes): IpAddress
    requires |v4| == 4
  {
    V4_MAPPED_PREFIX + v4
  }

  /** The mapped addresses are exactly those made from four bytes. */
  lemma IsV4Iff(a: IpAddress)
    ensures IsV4(a) <==> a == FromV4(a[12..])
  {
    var v4 := FromV4(a[12..]);
    assert forall i :: 12 <= i < 16 ==> v4[i] == a[i];
    if IsV4(a) {
      assert forall i :: 0 <= i < 10 ==> v4[i] == 0;
    }
  }

  function ReadAsV4(a: IpAddress): (v4: Bytes)
    ensures |v4| == 4
  {
    a[12..]
  }

  datatype L3Type = Ipv4 | Ipv6 | OtherL3(number: nat)

  const HOPOPT: Byte := 0
  const ICMP: Byte := 1
  const TCP: Byte := 6
  const UDP: Byte := 17
  const IPV6_ROUTE: Byte := 43
  const IPV6_FRAG: Byte := 44
  const AH: Byte := 51
  const IPV6_ICMP: Byte := 58
  const NO_NEXT_HEADER: Byte := 59
  const IPV6_OPTS: Byte := 60

  datatype FiveTuple = FiveTuple(
    l3Type: L3Type,
    srcAddress: IpAddress,
    dstAddress: IpAddress,
    l4Protocol: Byte,
    srcPort: Word,
    dstPort: Word)

  /** Replaces the bytes of `s` from offset `i` on by `field`. */
  function Splice(s: Bytes, i: nat, field: Bytes): (r: Bytes)
    requires i + |field| <= |s|
    ensures |r| == |s|
  {
    s[..i] + field + s[i + |field|..]
  }

  lemma SpliceIdentity(s: Bytes, i: nat, n: nat)
    requires i + n <= |s|
    ensures Splice(s, i, s[i..i + n]) == s
  {
  }

  /** Writing a field of the right size into a known layout. */
  lemma SpliceAt(before: Bytes, was: Bytes, after: Bytes, field: Bytes)
    requires |was| == |field|
    ensures Splice(before + was + after, |before|, field) == before + field + after
  {
  }
}
