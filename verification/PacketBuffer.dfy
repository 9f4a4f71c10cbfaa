/**
  A packet body inside a fixed buffer, with headroom in front of it and tailroom behind.

  The source keeps the cursors in a metadata block at the start of the buffer; here they are
  fields, and `offset` counts from the end of that block.
 */
module PacketBuffer {
  import opened NetDefs

  class Packet {
    const buf: array<Byte>
    var offset: nat
    var len: nat

    /** The bytes between headroom and tailroom. */
    ghost var body: Bytes

    ghost predicate Valid()
      reads this, buf
    {
      offset + len <= buf.Length && |body| == len && Mirrored(len)
    }

    /** The first `n` bytes of the body are the ones in the buffer. */
    ghost predicate Mirrored(n: nat)
      requires n <= |body| && offset + n <= buf.Length
      reads this, buf
    {
      n == 0 || (body[n - 1] == buf[offset + n - 1] && Mirrored(n - 1))
    }

    lemma MirroredAt(n: nat)
      requires n <= |body| && offset + n <= buf.Length
      ensures Mirrored(n) <==> forall k :: 0 <= k < n ==> body[k] == buf[offset + k]
    {
    }

    /** A valid packet's body is a slice of its buffer. */
    lemma BodyIsSlice()
      requires offset + len <= buf.Length
      ensures Valid() <==> body == buf[offset..offset + len]
    {
      if |body| == len {
        MirroredAt(len);
      }
    }

    /** The end of the body in the buffer, which edits at the front leave alone. */
    ghost function End(): nat
      reads this
    {
      offset + len
    }

    constructor (capacity: nat, headroom: nat)
      requires headroom <= capacity
      ensures Valid() && fresh(buf) && buf.Length == capacity
      ensures offset == headroom && body == []
    {
      buf := new Byte[capacity](_ => 0);
      offset, len, body := headroom, 0, [];
    }

    method Advance(count: nat)
      requires Valid() && count <= len
      modifies this
      ensures Valid() && offset == old(offset) + count && End() == old(End())
      ensures body == old(body[count..])
    {
      MirroredAt(len);
      offset, len, body := offset + count, len - count, body[count..];
      MirroredAt(len);
    }

    method GetU8() returns (b: Byte)
      requires Valid() && len >= 1
      modifies this
      ensures Valid() && offset == old(offset) + 1 && End() == old(End())
      ensures b == old(body[0]) && body == old(body[1..])
    {
      MirroredAt(len);
      b := buf[offset];
      Advance(1);
    }

    method GetU16() returns (w: Word)
      requires Valid() && len >= 2
      modifies this
      ensures Valid() && offset == old(offset) + 2 && End() == old(End())
      ensures w == old(U16At(body, 0)) && body == old(body[2..])
    {
      MirroredAt(len);
      w := buf[offset] as int * 0x100 + buf[offset + 1] as int;
      Advance(2);
    }

    /** Reads a slice of the body without consuming it. */
    method Peek(lo: nat, hi: nat) returns (slice: Bytes)
      requires Valid() && lo <= hi <= len
      ensures slice == body[lo..hi]
    {
      MirroredAt(len);
      slice := buf[offset + lo..offset + hi];
    }

    method Body() returns (bytes: Bytes)
      requires Valid()
      ensures bytes == body
    {
      bytes := Peek(0, len);
      assert body[0..len] == body;
    }

    method PushHeader(header: Bytes)
      requires Valid() && |header| <= offset
      modifies this, buf
      ensures Valid() && offset == old(offset) - |header| && End() == old(End())
      ensures body == header + old(body)
    {
      MirroredAt(len);
      offset, len, body := offset - |header|, len + |header|, header + body;
      forall k | 0 <= k < |header| {
        buf[offset + k] := header[k];
      }
      MirroredAt(len);
    }

    method PushU16(w: Word)
      requires Valid() && 2 <= offset
      modifies this, buf
      ensures Valid() && offset == old(offset) - 2 && End() == old(End())
      ensures body == U16Bytes(w) + old(body)
    {
      PushHeader(U16Bytes(w));
    }

    method AllocZeroedHeadroom(count: nat)
      requires Valid() && count <= offset
      modifies this, buf
      ensures Valid() && offset == old(offset) - count && End() == old(End())
      ensures body == Zeros(count) + old(body)
    {
      PushHeader(Zeros(count));
    }

    /** `body_mut().copy_within(lo..hi, dest)`: an overlapping move inside the body. */
    method CopyWithin(lo: nat, hi: nat, dest: nat)
      requires Valid() && lo <= hi <= len && dest + (hi - lo) <= len
      modifies this`body, buf
      ensures Valid() && body == old(Splice(body, dest, body[lo..hi]))
    {
      var moved := Peek(lo, hi);
      WriteField(dest, moved);
    }

    /** Overwrites a header field in the body. */
    method WriteField(at: nat, field: Bytes)
      requires Valid() && at + |field| <= len
      modifies this`body, buf
      ensures Valid() && body == old(Splice(body, at, field))
    {
      MirroredAt(len);
      forall k | 0 <= k < |field| {
        buf[offset + at + k] := field[k];
      }
      body := Splice(body, at, field);
      MirroredAt(len);
    }

    /** Appends data in the tailroom. */
    method Put(data: Bytes)
      requires Valid() && End() + |data| <= buf.Length
      modifies this, buf
      ensures Valid() && offset == old(offset)
      ensures body == old(body) + data
    {
      MirroredAt(len);
      forall k | 0 <= k < |data| {
        buf[offset + len + k] := data[k];
      }
      len, body := len + |data|, body + data;
      MirroredAt(len);
    }

    method ShrinkBy(count: nat)
      requires Valid() && count <= len
      modifies this
      ensures Valid() && offset == old(offset)
      ensures body == old(body[..len - count])
    {
      MirroredAt(len);
      len, body := len - count, body[..len - count];
      MirroredAt(len);
    }
  }
}
