/**
 Machine integers of the Sig-Net wire format, the status codes its functions
 return, and the big-endian images of 16- and 32-bit numbers.
 */
module Bytes {

  type byte = b: int | 0 <= b < 0x100
  type u16 = n: int | 0 <= n < 0x1_0000
  type u32 = n: int | 0 <= n < 0x1_0000_0000

  const WRAP32: int := 0x1_0000_0000
  const WRAP16: int := 0x1_0000

  /** The SIGNET_* result codes used by the modelled functions. */
  datatype Status =
    | Success
    | InvalidArg
    | BufferFull
    | EncodeError
    | BufferTooSmall
    | InvalidPacket
    | InvalidOption
    | HmacFailed

  datatype Option<+T> = None | Some(value: T)

  function U16(n: u16): (r: seq<byte>)
    ensures |r| == 2
  {
    [n / 0x100, n % 0x100]
  }

  function U32(n: u32): (r: seq<byte>)
    ensures |r| == 4
  {
    [n / 0x100_0000, n / 0x1_0000 % 0x100, n / 0x100 % 0x100, n % 0x100]
  }

  function FromU16(b: seq<byte>): (n: u16)
    requires |b| == 2
  {
    var hi: int, lo: int := b[0], b[1];
    0x100 * hi + lo
  }

  function FromU32(b: seq<byte>): (n: u32)
    requires |b| == 4
  {
    var b0: int, b1: int, b2: int, b3: int := b[0], b[1], b[2], b[3];
    0x100_0000 * b0 + 0x1_0000 * b1 + 0x100 * b2 + b3
  }

  /** Big-endian encoding is a bijection between 16-bit numbers and byte pairs. */
  lemma U16RoundTrip(n: u16, b: seq<byte>)
    requires |b| == 2
    ensures FromU16(U16(n)) == n
    ensures U16(FromU16(b)) == b
  {
  }

  /** The four base-256 digits of a number determine it, and the number determines them. */
  lemma Digits32(n: int, b0: int, b1: int, b2: int, b3: int)
    requires 0 <= b0 < 0x100 && 0 <= b1 < 0x100 && 0 <= b2 < 0x100 && 0 <= b3 < 0x100
    requires n == 0x100_0000 * b0 + 0x1_0000 * b1 + 0x100 * b2 + b3
    ensures n / 0x100_0000 == b0 && n / 0x1_0000 % 0x100 == b1
    ensures n / 0x100 % 0x100 == b2 && n % 0x100 == b3
  {
    assert n / 0x1_0000 == 0x100 * b0 + b1;
    assert n / 0x100 == 0x1_0000 * b0 + 0x100 * b1 + b2;
  }

  /** Big-endian encoding is a bijection between 32-bit numbers and byte quadruples. */
  lemma U32RoundTrip(n: u32, b: seq<byte>)
    requires |b| == 4
    ensures FromU32(U32(n)) == n
    ensures U32(FromU32(b)) == b
  {
    Digits32(FromU32(b), b[0], b[1], b[2], b[3]);
    var q1, q2, q3 := n / 0x100, n / 0x1_0000, n / 0x100_0000;
    assert n == 0x100 * q1 + n % 0x100;
    assert q1 == 0x100 * q2 + q1 % 0x100;
    assert q2 == 0x100 * q3 + q2 % 0x100;
  }

  /** The most significant byte comes first. */
  lemma BigEndian(b0: byte, b1: byte, b2: byte, b3: byte)
    ensures U16(0x100 * (b0 as int) + b1) == [b0, b1]
    ensures U32(0x100_0000 * (b0 as int) + 0x1_0000 * (b1 as int) + 0x100 * (b2 as int) + b3) == [b0, b1, b2, b3]
  {
    Digits32(0x100_0000 * (b0 as int) + 0x1_0000 * (b1 as int) + 0x100 * (b2 as int) + b3, b0, b1, b2, b3);
  }

  /** The bytes of an ASCII literal. */
  function Ascii(s: string): (r: seq<byte>)
    requires forall i :: 0 <= i < |s| ==> s[i] < 128 as char
    ensures |r| == |s|
    ensures forall i :: 0 <= i < |s| ==> r[i] == s[i] as int
  {
    seq(|s|, i requires 0 <= i < |s| => s[i] as int)
  }

  /** Where two sequences in a row are found, each is found in its place. */
  lemma SplitSlice<T>(data: seq<T>, pos: nat, a: seq<T>, b: seq<T>)
    requires pos + |a + b| <= |data| && data[pos..pos + |a + b|] == a + b
    ensures data[pos..pos + |a|] == a
    ensures data[pos + |a|..pos + |a + b|] == b
  {
    assert forall i :: 0 <= i < |a + b| ==> data[pos + i] == data[pos..pos + |a + b|][i] == (a + b)[i];
    forall i | 0 <= i < |a|
      ensures data[pos + i] == a[i]
    {
      assert data[pos + i] == (a + b)[i];
    }
    forall i | 0 <= i < |b|
      ensures data[pos + |a| + i] == b[i]
    {
      assert data[pos + (|a| + i)] == (a + b)[|a| + i];
    }
  }

  lemma Assoc<T>(x: seq<T>, y: seq<T>, z: seq<T>)
    ensures x + (y + z) == x + y + z
  {
  }
}
