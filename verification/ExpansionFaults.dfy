/**
  When `expand` panics on the bytes it is given.

  The receiving side expands whatever is left of a packet without looking at it first.  Each
  access to the packet buffer asserts that the bytes or the headroom are there; which
  accesses are made depends on the mode, the tuple and the first byte.
 */
module ExpansionFaults {
  import opened NetDefs
  import opened HeaderCodec
  import opened CodecInPlace

  /** The headroom and the length of the body, until an access fails. */
  datatype Buffer = Panicked | Buffer(head: nat, len: nat)

  /** Consumes bytes at the front. */
  function Take(b: Buffer, count: nat): Buffer {
    if b.Panicked? || count > b.len then Panicked else Buffer(b.head + count, b.len - count)
  }

  /** Puts bytes in front. */
  function Push(b: Buffer, count: nat): Buffer {
    if b.Panicked? || count > b.head then Panicked else Buffer(b.head - count, b.len + count)
  }

  /** Looks at a prefix. */
  function Need(b: Buffer, count: nat): Buffer {
    if b.Panicked? || count > b.len then Panicked else b
  }

  function TakePorts(b: Buffer, mode: CompressionMode): Buffer {
    var b' := if mode.sourcePortPresent then b else Take(b, 2);
    if mode.destinationPortPresent then b' else Take(b', 2)
  }

  /** `checked`: whether the build traps the underflow of the UDP payload length. */
  function ExpandSegment(b: Buffer, mode: CompressionMode, protocol: Byte, checked: bool): Buffer {
    if protocol == TCP then
      var gap := Need(Push(TakePorts(b, mode), 2), 14);
      Need(Push(Push(gap, 2), 2), 20)
    else if protocol == UDP then
      var counted := Need(TakePorts(b, mode), if checked then 2 else 0);
      Push(Push(Push(counted, 2), 2), 2)
    else
      b
  }

  function TakeHeader(b: Buffer, l3: L3Type, c: Bytes): Buffer {
    match l3
    case Ipv4 =>
      var id := Take(Take(b, 2), 2);
      Take(if c != [] && HasFragmentOffset(c) then Take(id, 2) else id, 1)
    case Ipv6 => Take(Need(b, 5), 5)
    case OtherL3(_) => b
  }

  function PushHeader(b: Buffer, l3: L3Type, c: Bytes): Buffer {
    match l3
    case Ipv4 => Need(Need(Push(b, 20), if c != [] then c[0] / 16 * 4 else 0), 20)
    case Ipv6 => Push(b, 40)
    case OtherL3(_) => b
  }

  /** The accesses of `expand` to a buffer that holds `c` behind `head` bytes of headroom. */
  function ExpandBuffer(mode: CompressionMode, ft: FiveTuple, c: Bytes, head: nat, checked: bool): Buffer {
    if ft.l3Type.OtherL3? then Buffer(head, |c|)
    else
      var header := TakeHeader(Buffer(head, |c|), ft.l3Type, c);
      PushHeader(ExpandSegment(header, mode, ft.l4Protocol, checked), ft.l3Type, c)
  }

  /** The bytes a compressed segment must have. */
  function SegmentBytes(mode: CompressionMode, protocol: Byte, checked: bool): nat {
    if protocol == TCP then mode.PortBytes() + 14
    else if protocol == UDP then mode.PortBytes() + (if checked then 2 else 0)
    else 0
  }

  /** The compressed packet is long enough for its header, its segment and the header words it announces. */
  predicate EnoughBytes(mode: CompressionMode, ft: FiveTuple, c: Bytes, checked: bool) {
    && c != []
    && var h := CompressedHeaderSize(ft.l3Type, c);
    && |c| >= h + SegmentBytes(mode, ft.l4Protocol, checked)
    && (ft.l3Type.Ipv4? ==> c[0] / 16 * 4 <= 20 + |c| - h + SegmentGrowth(mode, ft.l4Protocol))
  }

  lemma PortsIff(b: Buffer, mode: CompressionMode)
    ensures var n := mode.PortBytes();
            TakePorts(b, mode) == if !b.Panicked? && b.len >= n then Buffer(b.head + n, b.len - n) else Panicked
  {
  }

  lemma SegmentIff(b: Buffer, mode: CompressionMode, protocol: Byte, checked: bool)
    ensures ExpandSegment(b, mode, protocol, checked) ==
            var growth := SegmentGrowth(mode, protocol);
            if !b.Panicked? && b.len >= SegmentBytes(mode, protocol, checked) && b.head >= growth
            then Buffer(b.head - growth, b.len + growth)
            else Panicked
  {
    PortsIff(b, mode);
  }

  lemma HeaderIff(l3: L3Type, c: Bytes, head: nat)
    requires !l3.OtherL3?
    ensures TakeHeader(Buffer(head, |c|), l3, c) ==
            if c != [] && |c| >= CompressedHeaderSize(l3, c)
            then Buffer(head + CompressedHeaderSize(l3, c), |c| - CompressedHeaderSize(l3, c))
            else Panicked
  {
  }

  lemma RebuildIff(b: Buffer, l3: L3Type, c: Bytes)
    requires !l3.OtherL3? && (c == [] ==> b.Panicked?)
    ensures var n := NetworkHeaderSize(l3);
            PushHeader(b, l3, c) ==
            if !b.Panicked? && b.head >= n && (l3.Ipv4? ==> c[0] / 16 * 4 <= b.len + n)
            then Buffer(b.head - n, b.len + n)
            else Panicked
  {
  }

  /**
    Expanding any bytes panics exactly if bytes or headroom are short, and otherwise takes
    exactly the growth off the headroom.
   */
  lemma ExpandPanicsIff(mode: CompressionMode, ft: FiveTuple, c: Bytes, head: nat, checked: bool)
    requires !ft.l3Type.OtherL3?
    ensures ExpandBuffer(mode, ft, c, head, checked) ==
            if EnoughBytes(mode, ft, c, checked) && head >= Growth(mode, ft, c)
            then Buffer(head - Growth(mode, ft, c), |c| + Growth(mode, ft, c))
            else Panicked
  {
    var header := TakeHeader(Buffer(head, |c|), ft.l3Type, c);
    var segment := ExpandSegment(header, mode, ft.l4Protocol, checked);
    HeaderIff(ft.l3Type, c, head);
    SegmentIff(header, mode, ft.l4Protocol, checked);
    RebuildIff(segment, ft.l3Type, c);
    Composed(mode, ft, c, head, checked, header, segment, PushHeader(segment, ft.l3Type, c));
  }

  /** The three parts put together, by their sizes alone. */
  lemma Composed(mode: CompressionMode, ft: FiveTuple, c: Bytes, head: nat, checked: bool,
                 header: Buffer, segment: Buffer, expanded: Buffer)
    requires !ft.l3Type.OtherL3?
    requires header == if c != [] && |c| >= CompressedHeaderSize(ft.l3Type, c)
                       then Buffer(head + CompressedHeaderSize(ft.l3Type, c), |c| - CompressedHeaderSize(ft.l3Type, c))
                       else Panicked
    requires var growth := SegmentGrowth(mode, ft.l4Protocol);
             segment == if !header.Panicked? && header.len >= SegmentBytes(mode, ft.l4Protocol, checked) &&
                           header.head >= growth
                        then Buffer(header.head - growth, header.len + growth)
                        else Panicked
    requires var n := NetworkHeaderSize(ft.l3Type);
             expanded == if !segment.Panicked? && segment.head >= n &&
                            (ft.l3Type.Ipv4? ==> c[0] / 16 * 4 <= segment.len + n)
                         then Buffer(segment.head - n, segment.len + n)
                         else Panicked
    ensures expanded == if EnoughBytes(mode, ft, c, checked) && head >= Growth(mode, ft, c)
                        then Buffer(head - Growth(mode, ft, c), |c| + Growth(mode, ft, c))
                        else Panicked
  {
  }

  /** With the underflow trapped, a buffer panics exactly if the in-place expansion's demands are not met. */
  lemma ExpandTotalIff(mode: CompressionMode, ft: FiveTuple, c: Bytes, head: nat)
    requires !ft.l3Type.OtherL3?
    ensures ExpandBuffer(mode, ft, c, head, true).Panicked? <==>
            !Expandable(mode, ft, c) || head < Growth(mode, ft, c)
    ensures Expandable(mode, ft, c) ==> c != []
  {
    ExpandPanicsIff(mode, ft, c, head, true);
  }

  /** A packet that holds nothing but its MAC leaves no bytes to expand, and that panics. */
  lemma NothingToExpandPanics(mode: CompressionMode, ft: FiveTuple, head: nat, checked: bool)
    requires !ft.l3Type.OtherL3?
    ensures ExpandBuffer(mode, ft, [], head, checked).Panicked?
  {
    ExpandPanicsIff(mode, ft, [], head, checked);
  }
}
