/**
 CoAP options (section 3.1 of RFC 7252): the encoder, the decoder, and the walk
 over all options of a packet that every receiver makes.
 */
module CoapOption {
  import opened Bytes
  import opened PacketIO

  const PAYLOAD_MARKER: byte := 0xFF
  const INLINE_MAX: int := 12
  const EXT8_NIBBLE: int := 13
  const EXT16_NIBBLE: int := 14
  const EXT8_BASE: int := 13
  const EXT16_BASE: int := 269

  type OptionValue = s: seq<byte> | |s| < WRAP16 witness []

  // ---------------------------------------------------------------- encoding

  /** The header nibble for a delta or length. */
  function Nibble(v: u16): (n: byte)
    ensures n <= EXT16_NIBBLE
  {
    if v <= INLINE_MAX then v else if v < EXT16_BASE then EXT8_NIBBLE else EXT16_NIBBLE
  }

  /** The extension bytes that follow the header for a delta or length. */
  function Extension(v: u16): (s: seq<byte>)
    ensures |s| == if v <= INLINE_MAX then 0 else if v < EXT16_BASE then 1 else 2
  {
    if v <= INLINE_MAX then [] else if v < EXT16_BASE then [v - EXT8_BASE] else U16(v - EXT16_BASE)
  }

  function HeaderByte(delta: u16, length: u16): (b: byte)
    ensures b != PAYLOAD_MARKER
    ensures b / 16 == Nibble(delta) && b % 16 == Nibble(length)
  {
    var d: int := Nibble(delta);
    16 * d + Nibble(length)
  }

  /** The bytes of one option. */
  function OptionBytes(delta: u16, value: OptionValue): seq<byte> {
    [HeaderByte(delta, |value|)] + Extension(delta) + Extension(|value|) + value
  }

  /** Chooses the inline, 8-bit or 16-bit form of a delta or length. */
  method ChooseForm(v: u16) returns (nibble: byte, size: nat, ext: u16)
    ensures nibble == Nibble(v)
    ensures size <= 2 && (size == 1 ==> ext < 0x100)
    ensures Extension(v) == if size == 0 then [] else if size == 1 then [ext] else U16(ext)
  {
    if v <= INLINE_MAX {
      return v, 0, 0;
    } else if v < EXT16_BASE {
      return EXT8_NIBBLE, 1, v - EXT8_BASE;
    } else {
      return EXT16_NIBBLE, 2, v - EXT16_BASE;
    }
  }

  /** Writes the extension bytes of the chosen form. */
  method WriteExtension(buffer: PacketBuffer, size: nat, ext: u16) returns (r: Status)
    requires buffer.Valid() && size <= 2 && (size == 1 ==> ext < 0x100)
    modifies buffer, buffer.buffer
    ensures buffer.Valid()
    ensures var bytes := if size == 0 then [] else if size == 1 then [ext] else U16(ext);
            Wrote(old(buffer.Contents()), bytes, r, buffer.Contents())
  {
    r := Success;
    if size == 1 {
      r := buffer.WriteByte(ext);
    } else if size == 2 {
      r := buffer.WriteUInt16(ext);
    }
  }

  /** Writes an option after one numbered `prev`; numbers must not decrease. */
  method EncodeCoAPOption(buffer: PacketBuffer, number: u16, prev: u16, value: OptionValue) returns (r: Status)
    requires buffer.Valid()
    modifies buffer, buffer.buffer
    ensures buffer.Valid()
    ensures number < prev ==> r == EncodeError && buffer.Contents() == old(buffer.Contents())
    ensures number >= prev ==>
              Wrote(old(buffer.Contents()), OptionBytes(number - prev, value), r, buffer.Contents())
  {
    hide Extension, Nibble, HeaderByte;
    if number < prev {
      return EncodeError;
    }
    var delta: u16, length: u16 := number - prev, |value|;
    var deltaNibble, deltaSize, deltaExt := ChooseForm(delta);
    var lengthNibble, lengthSize, lengthExt := ChooseForm(length);
    ghost var before := buffer.Contents();
    ghost var header, dx, lx := [HeaderByte(delta, length)], Extension(delta), Extension(length);

    var d: int := deltaNibble;
    r := buffer.WriteByte(16 * d + lengthNibble);
    ghost var r0, c0 := r, buffer.Contents();
    if r == Success {
      r := WriteExtension(buffer, deltaSize, deltaExt);
    }
    WroteBoth(before, header, r0, c0, dx, r, buffer.Contents());

    ghost var r1, c1 := r, buffer.Contents();
    if r == Success {
      r := WriteExtension(buffer, lengthSize, lengthExt);
    }
    WroteBoth(before, header + dx, r1, c1, lx, r, buffer.Contents());

    ghost var r2, c2 := r, buffer.Contents();
    if r == Success && length > 0 {
      r := buffer.WriteBytes(value);
    }
    WroteBoth(before, header + dx + lx, r2, c2, value, r, buffer.Contents());
  }

  // ---------------------------------------------------------------- decoding

  /** A delta or length read from its nibble and the extension bytes at `pos`. */
  datatype Extended =
    | Number(value: u16, next: nat)
    | ReservedNibble
    | Cut

  /** The 16-bit form adds its base modulo 2^16, as the source's integer type does. */
  function ReadExtended(data: seq<byte>, pos: nat, nibble: byte): (e: Extended)
    requires pos <= |data|
    ensures e.Number? ==> pos <= e.next <= |data|
  {
    if nibble <= INLINE_MAX then Number(nibble, pos)
    else if nibble == EXT8_NIBBLE then
      if pos < |data| then Number(data[pos] + EXT8_BASE, pos + 1) else Cut
    else if nibble == EXT16_NIBBLE then
      if pos + 2 <= |data| then Number((FromU16(data[pos..pos + 2]) + EXT16_BASE) % WRAP16, pos + 2) else Cut
    else ReservedNibble
  }

  /** One attempt to read an option; `next` is where the cursor is left. */
  datatype OptionParse =
    | Parsed(number: u16, offset: nat, value: OptionValue, next: nat)
    | Marker
    | Reserved(next: nat)
    | Short(next: nat)

  function ParseOption(data: seq<byte>, pos: nat, prev: u16): (p: OptionParse)
    requires pos <= |data|
    ensures p.Parsed? ==> pos < p.next <= |data| && p.offset + |p.value| == p.next
    ensures p.Parsed? ==> pos < p.offset && p.value == data[p.offset..p.next]
    ensures p.Reserved? ==> pos < p.next <= |data|
    ensures p.Short? ==> pos <= p.next <= |data|
    ensures p.Marker? ==> pos < |data| && data[pos] == PAYLOAD_MARKER
  {
    if pos == |data| then Short(pos)
    else if data[pos] == PAYLOAD_MARKER then Marker
    else
      match ReadExtended(data, pos + 1, data[pos] / 16)
      case ReservedNibble => Reserved(pos + 1)
      case Cut => Short(pos + 1)
      case Number(delta, afterDelta) =>
        match ReadExtended(data, afterDelta, data[pos] % 16)
        case ReservedNibble => Reserved(afterDelta)
        case Cut => Short(afterDelta)
        case Number(length, afterLength) =>
          if afterLength + length <= |data| then
            Parsed((prev + delta) % WRAP16, afterLength, data[afterLength..afterLength + length], afterLength + length)
          else Short(afterLength)
  }

  function ParseStatus(p: OptionParse): Status {
    match p
    case Parsed(_, _, _, _) => Success
    case Marker => InvalidPacket
    case Reserved(_) => InvalidPacket
    case Short(_) => BufferTooSmall
  }

  function ParseNext(p: OptionParse, pos: nat): nat {
    match p
    case Parsed(_, _, _, next) => next
    case Marker => pos
    case Reserved(next) => next
    case Short(next) => next
  }

  /** Replaces a nibble by the number it stands for, reading its extension bytes. */
  method ReadField(reader: PacketReader, nibble: byte) returns (r: Status, value: u16)
    requires reader.Valid() && nibble < 16
    modifies reader
    ensures reader.Valid()
    ensures match ReadExtended(reader.data, old(reader.position), nibble)
            case Number(v, next) => r == Success && value == v && reader.position == next
            case ReservedNibble => r == InvalidPacket && reader.position == old(reader.position)
            case Cut => r == BufferTooSmall && reader.position == old(reader.position)
  {
    value := nibble;
    if nibble == 13 {
      var ok, ext := reader.ReadByte();
      if !ok {
        return BufferTooSmall, value;
      }
      var n: int := ext;
      value := 13 + n;
    } else if nibble == 14 {
      var ok, ext := reader.ReadUInt16();
      if !ok {
        return BufferTooSmall, value;
      }
      value := (269 + ext) % WRAP16;
    } else if nibble == 15 {
      return InvalidPacket, value;
    }
    return Success, value;
  }

  /** Reads one option at the reader's position. */
  method ParseCoAPOption(reader: PacketReader, prev: u16) returns (r: Status, number: u16, value: OptionValue)
    requires reader.Valid()
    modifies reader
    ensures reader.Valid()
    ensures var p := ParseOption(reader.data, old(reader.position), prev);
            && r == ParseStatus(p)
            && reader.position == ParseNext(p, old(reader.position))
            && (r == Success ==> number == p.number && value == p.value)
  {
    number, value := 0, [];
    var ok, header := reader.PeekByte();
    if !ok {
      return BufferTooSmall, number, value;
    }
    if header == 0xFF {
      return InvalidPacket, number, value;
    }
    ok, header := reader.ReadByte();
    var delta: u16, length: u16;
    r, delta := ReadField(reader, header / 16);
    if r != Success {
      return;
    }
    r, length := ReadField(reader, header % 16);
    if r != Success {
      return;
    }
    number := (prev + delta) % WRAP16;
    if length > 0 {
      var start := reader.position;
      ok := reader.Skip(length);
      if !ok {
        return BufferTooSmall, number, value;
      }
      value := reader.data[start..start + length];
    }
  }

  // --------------------------------------------------- one option, both ways

  /** Extension bytes read back as the number they were written for, wherever they stand. */
  lemma ExtensionReads(data: seq<byte>, pos: nat, v: u16)
    requires pos + |Extension(v)| <= |data|
    requires data[pos..pos + |Extension(v)|] == Extension(v)
    ensures ReadExtended(data, pos, Nibble(v)) == Number(v, pos + |Extension(v)|)
  {
    if EXT16_BASE <= v {
      U16RoundTrip(v - EXT16_BASE, [0, 0]);
    } else if v > INLINE_MAX {
      assert data[pos] == Extension(v)[0];
    }
  }

  lemma ParseFromFields(
    data: seq<byte>, pos: nat, prev: u16, delta: u16, afterDelta: nat, value: OptionValue, start: nat)
    requires pos < |data| && data[pos] != PAYLOAD_MARKER
    requires ReadExtended(data, pos + 1, data[pos] / 16) == Number(delta, afterDelta)
    requires ReadExtended(data, afterDelta, data[pos] % 16) == Number(|value|, start)
    requires start + |value| <= |data| && data[start..start + |value|] == value
    requires prev + delta < WRAP16
    ensures ParseOption(data, pos, prev) == Parsed(prev + delta, start, value, start + |value|)
  {
  }

  /** An encoded option reads back as itself, wherever it stands, and ends where it was written to end. */
  lemma OptionRoundTrip(data: seq<byte>, pos: nat, delta: u16, value: OptionValue, prev: u16)
    requires pos + |OptionBytes(delta, value)| <= |data| && prev + delta < WRAP16
    requires data[pos..pos + |OptionBytes(delta, value)|] == OptionBytes(delta, value)
    ensures var end := pos + |OptionBytes(delta, value)|;
            ParseOption(data, pos, prev) == Parsed(prev + delta, end - |value|, value, end)
  {
    hide Extension, HeaderByte, ReadExtended, ParseOption;
    var header, dx, lx := [HeaderByte(delta, |value|)], Extension(delta), Extension(|value|);
    SplitSlice(data, pos, header + dx + lx, value);
    SplitSlice(data, pos, header + dx, lx);
    SplitSlice(data, pos, header, dx);
    assert data[pos] == data[pos..pos + 1][0];
    ExtensionReads(data, pos + 1, delta);
    ExtensionReads(data, pos + 1 + |dx|, |value|);
    ParseFromFields(data, pos, prev, delta, pos + 1 + |dx|, value, pos + 1 + |dx| + |lx|);
  }

  /** A 16-bit extension whose base addition stays within 16 bits. */
  predicate NoWrap(data: seq<byte>, pos: nat, nibble: byte)
    requires pos <= |data|
  {
    nibble == EXT16_NIBBLE && pos + 2 <= |data| ==> FromU16(data[pos..pos + 2]) + EXT16_BASE < WRAP16
  }

  lemma ExtensionCanonical(data: seq<byte>, pos: nat, nibble: byte)
    requires pos <= |data| && ReadExtended(data, pos, nibble).Number?
    ensures var e := ReadExtended(data, pos, nibble);
            (Nibble(e.value) == nibble && data[pos..e.next] == Extension(e.value)) <==> NoWrap(data, pos, nibble)
    ensures !NoWrap(data, pos, nibble) ==> Nibble(ReadExtended(data, pos, nibble).value) != nibble
  {
    if nibble == EXT16_NIBBLE {
      U16RoundTrip(0, data[pos..pos + 2]);
    }
  }

  /** The delta and length of an option, as read. */
  function OptionDelta(data: seq<byte>, pos: nat): Extended
    requires pos < |data|
  {
    ReadExtended(data, pos + 1, data[pos] / 16)
  }

  function OptionLength(data: seq<byte>, pos: nat): Extended
    requires pos < |data| && OptionDelta(data, pos).Number?
  {
    ReadExtended(data, OptionDelta(data, pos).next, data[pos] % 16)
  }

  predicate NeitherWraps(data: seq<byte>, pos: nat)
    requires pos < |data| && OptionDelta(data, pos).Number?
  {
    NoWrap(data, pos + 1, data[pos] / 16) && NoWrap(data, OptionDelta(data, pos).next, data[pos] % 16)
  }

  lemma WrapChangesHeader(data: seq<byte>, pos: nat)
    requires pos < |data| && OptionDelta(data, pos).Number? && OptionLength(data, pos).Number?
    requires !NeitherWraps(data, pos)
    ensures HeaderByte(OptionDelta(data, pos).value, OptionLength(data, pos).value) != data[pos]
  {
    ExtensionCanonical(data, pos + 1, data[pos] / 16);
    ExtensionCanonical(data, OptionDelta(data, pos).next, data[pos] % 16);
  }

  lemma NoWrapKeepsBytes(data: seq<byte>, pos: nat, end: nat, value: OptionValue)
    requires pos < |data| && OptionDelta(data, pos).Number? && OptionLength(data, pos).Number?
    requires OptionLength(data, pos).next <= end <= |data| && value == data[OptionLength(data, pos).next..end]
    requires |value| == OptionLength(data, pos).value
    requires NeitherWraps(data, pos)
    ensures data[pos..end] == OptionBytes(OptionDelta(data, pos).value, value)
  {
    var d, l := OptionDelta(data, pos), OptionLength(data, pos);
    ExtensionCanonical(data, pos + 1, data[pos] / 16);
    ExtensionCanonical(data, d.next, data[pos] % 16);
    assert data[pos..end] == [data[pos]] + data[pos + 1..d.next] + data[d.next..l.next] + data[l.next..end];
    assert HeaderByte(d.value, l.value) == data[pos];
  }

  /**
   The encoding is canonical: an option that reads back re-encodes to the very
   bytes it was read from, exactly when neither of its 16-bit extensions wraps.
   */
  lemma ReencodesExactly(data: seq<byte>, pos: nat, prev: u16)
    requires pos <= |data| && ParseOption(data, pos, prev).Parsed?
    ensures var p := ParseOption(data, pos, prev);
            data[pos..p.next] == OptionBytes((p.number - prev) % WRAP16, p.value) <==> NeitherWraps(data, pos)
  {
    var p := ParseOption(data, pos, prev);
    var d, l := OptionDelta(data, pos), OptionLength(data, pos);
    assert (p.number - prev) % WRAP16 == d.value;
    if NeitherWraps(data, pos) {
      NoWrapKeepsBytes(data, pos, p.next, p.value);
    } else {
      WrapChangesHeader(data, pos);
      assert data[pos..p.next][0] == data[pos];
      assert OptionBytes(d.value, p.value)[0] == HeaderByte(d.value, l.value);
    }
  }
}
