/**
 The bounded packet writer and the bounds-checked packet reader.
 */
module PacketIO {
  import opened Bytes

  const MAX_UDP_PAYLOAD: nat := 1400

  /** The whole outcome of writing `bytes` after `before`: all of it, or BufferFull with the old content kept. */
  ghost predicate Wrote(before: seq<byte>, bytes: seq<byte>, status: Status, after: seq<byte>) {
    if |before| + |bytes| <= MAX_UDP_PAYLOAD then
      status == Success && after == before + bytes
    else
      status == BufferFull && before <= after && |after| <= MAX_UDP_PAYLOAD
  }

  /** Two writes in a row, the second only if the first succeeded, are one write. */
  lemma WroteBoth(
    before: seq<byte>, x: seq<byte>, status: Status, middle: seq<byte>, y: seq<byte>, status': Status, after: seq<byte>)
    requires Wrote(before, x, status, middle)
    requires if status == Success then Wrote(middle, y, status', after) else status' == status && after == middle
    ensures Wrote(before, x + y, status', after)
  {
    if status == Success {
      assert before + x + y == before + (x + y);
    }
  }

  class PacketBuffer {
    const buffer: array<byte>
    var position: nat

    ghost predicate Valid()
      reads this
    {
      buffer.Length == MAX_UDP_PAYLOAD && position <= MAX_UDP_PAYLOAD
    }

    ghost function Contents(): (s: seq<byte>)
      reads this, buffer
      requires Valid()
      ensures |s| == position
    {
      buffer[..position]
    }

    constructor ()
      ensures Valid() && fresh(buffer)
      ensures Contents() == []
    {
      buffer := new byte[MAX_UDP_PAYLOAD](_ => 0);
      position := 0;
    }

    method Reset()
      requires Valid()
      modifies this, buffer
      ensures Valid() && Contents() == []
    {
      forall i | 0 <= i < buffer.Length {
        buffer[i] := 0;
      }
      position := 0;
    }

    predicate HasSpace(size: nat)
      reads this
    {
      position + size <= MAX_UDP_PAYLOAD
    }

    method WriteByte(value: byte) returns (r: Status)
      requires Valid()
      modifies this, buffer
      ensures Valid() && Wrote(old(Contents()), [value], r, Contents())
      ensures r == BufferFull ==> Contents() == old(Contents())
    {
      if !HasSpace(1) {
        return BufferFull;
      }
      buffer[position] := value;
      position := position + 1;
      return Success;
    }

    method WriteBytes(data: seq<byte>) returns (r: Status)
      requires Valid()
      modifies this, buffer
      ensures Valid() && Wrote(old(Contents()), data, r, Contents())
      ensures r == BufferFull ==> Contents() == old(Contents())
    {
      if !HasSpace(|data|) {
        return BufferFull;
      }
      forall i | 0 <= i < |data| {
        buffer[position + i] := data[i];
      }
      position := position + |data|;
      assert Contents() == old(Contents()) + data;
      return Success;
    }

    method WriteUInt16(value: u16) returns (r: Status)
      requires Valid()
      modifies this, buffer
      ensures Valid() && Wrote(old(Contents()), U16(value), r, Contents())
      ensures r == BufferFull ==> Contents() == old(Contents())
    {
      if !HasSpace(2) {
        return BufferFull;
      }
      buffer[position] := value / 0x100;
      buffer[position + 1] := value % 0x100;
      position := position + 2;
      return Success;
    }

    method GetBytes() returns (s: seq<byte>)
      requires Valid()
      ensures s == Contents()
    {
      return buffer[..position];
    }
  }

  /** A cursor over received bytes; its size is a 16-bit number. */
  class PacketReader {
    const data: seq<byte>
    var position: nat

    ghost predicate Valid()
      reads this
    {
      position <= |data| < WRAP16
    }

    constructor (data: seq<byte>)
      requires |data| < WRAP16
      ensures Valid() && this.data == data && position == 0
    {
      this.data := data;
      position := 0;
    }

    function Remaining(): nat
      reads this
      requires Valid()
    {
      |data| - position
    }

    predicate CanRead(count: nat)
      reads this
    {
      position + count <= |data|
    }

    method ReadByte() returns (ok: bool, value: byte)
      requires Valid()
      modifies this
      ensures Valid() && ok == (old(position) < |data|)
      ensures ok ==> value == data[old(position)] && position == old(position) + 1
      ensures !ok ==> position == old(position)
    {
      if !CanRead(1) {
        return false, 0;
      }
      ok, value := true, data[position];
      position := position + 1;
    }

    method ReadUInt16() returns (ok: bool, value: u16)
      requires Valid()
      modifies this
      ensures Valid() && ok == (old(position) + 2 <= |data|)
      ensures ok ==> value == FromU16(data[old(position)..old(position) + 2]) && position == old(position) + 2
      ensures !ok ==> position == old(position)
    {
      if !CanRead(2) {
        return false, 0;
      }
      var hi: int, lo: int := data[position], data[position + 1];
      ok, value := true, 0x100 * hi + lo;
      position := position + 2;
    }

    method Skip(count: nat) returns (ok: bool)
      requires Valid()
      modifies this
      ensures Valid() && ok == (old(position) + count <= |data|)
      ensures position == old(position) + if ok then count else 0
    {
      if !CanRead(count) {
        return false;
      }
      position := position + count;
      return true;
    }

    method PeekByte() returns (ok: bool, value: byte)
      requires Valid()
      ensures ok == (position < |data|)
      ensures ok ==> value == data[position]
    {
      if position >= |data| {
        return false, 0;
      }
      return true, data[position];
    }
  }
}
