/**
 Walking over all options of a packet. Three walkers were written separately:
 the reader-based loop of the parser, the index-based loop that locates one
 option, and the desktop application's loop that locates the payload. All three
 are held here to one description of the walk.
 */
module CoapWalk {
  import opened Bytes
  import opened PacketIO
  import opened CoapOption

  datatype Visit = Visit(number: u16, offset: nat, value: OptionValue)

  /** Why a walk stops: payload marker, end of data between options, a nibble of 15, or data ending inside an option. */
  datatype WalkEnd = AtMarker | AtEnd | AtReserved | Truncated

  datatype Walk = Walk(visits: seq<Visit>, end: WalkEnd, position: nat)

  /** The walk from `pos`, after an option numbered `prev`. */
  function WalkOptions(data: seq<byte>, pos: nat, prev: u16): (w: Walk)
    requires pos <= |data|
    ensures pos <= w.position <= |data|
    ensures w.end.AtMarker? ==> w.position < |data| && data[w.position] == PAYLOAD_MARKER
    decreases |data| - pos
  {
    match ParseOption(data, pos, prev)
    case Parsed(number, offset, value, next) =>
      var rest := WalkOptions(data, next, number);
      rest.(visits := [Visit(number, offset, value)] + rest.visits)
    case Marker => Walk([], AtMarker, pos)
    case Reserved(next) => Walk([], AtReserved, next)
    case Short(next) => Walk([], if pos == |data| then AtEnd else Truncated, next)
  }

  /** The walk starts with the option at `pos`, if there is one. */
  lemma WalkUnfolds(data: seq<byte>, pos: nat, prev: u16)
    requires pos <= |data|
    ensures var p := ParseOption(data, pos, prev);
            match p
            case Parsed(number, offset, value, next) =>
              Continues(WalkOptions(data, pos, prev), [Visit(number, offset, value)], WalkOptions(data, next, number))
            case Marker => WalkOptions(data, pos, prev) == Walk([], AtMarker, pos)
            case Reserved(next) => WalkOptions(data, pos, prev) == Walk([], AtReserved, next)
            case Short(next) =>
              WalkOptions(data, pos, prev) == Walk([], if pos == |data| then AtEnd else Truncated, next)
  {
  }

  /** At the marker, and at the end of the data, there is nothing more to visit. */
  lemma WalkEnds(data: seq<byte>, pos: nat, prev: u16)
    requires pos <= |data|
    ensures pos == |data| ==> WalkOptions(data, pos, prev) == Walk([], AtEnd, pos)
    ensures pos < |data| && data[pos] == PAYLOAD_MARKER ==> WalkOptions(data, pos, prev) == Walk([], AtMarker, pos)
  {
  }

  /** `rest` is what remains of the walk `whole` after the visits `done`. */
  ghost predicate Continues(whole: Walk, done: seq<Visit>, rest: Walk) {
    whole == rest.(visits := done + rest.visits)
  }

  lemma ContinuesFurther(whole: Walk, done: seq<Visit>, middle: Walk, more: seq<Visit>, rest: Walk)
    requires Continues(whole, done, middle) && Continues(middle, more, rest)
    ensures Continues(whole, done + more, rest)
  {
    assert done + (more + rest.visits) == done + more + rest.visits;
  }

  lemma ContinuesToEnd(whole: Walk, done: seq<Visit>, rest: Walk)
    requires Continues(whole, done, rest) && rest.visits == []
    ensures whole == rest.(visits := done)
  {
    assert done + [] == done;
  }

  /** The last visit to option `number`. */
  function LastVisit(visits: seq<Visit>, number: u16): (v: Option<Visit>)
    ensures v.Some? ==> v.value in visits && v.value.number == number
    ensures v.None? ==> forall x :: x in visits ==> x.number != number
  {
    if visits == [] then None
    else if visits[|visits| - 1].number == number then Some(visits[|visits| - 1])
    else LastVisit(visits[..|visits| - 1], number)
  }

  function TokenLength(packet: seq<byte>): nat
    requires packet != []
  {
    packet[0] % 16
  }

  // ------------------------------------------------------- index-based walkers

  /** Replaces a nibble by the number it stands for, moving `pos` over its extension bytes. */
  method DecodeCoapNibble(packet: seq<byte>, pos: nat, nibble: byte) returns (ok: bool, value: u16, next: nat)
    requires pos <= |packet| < WRAP16 && nibble < 16
    ensures match ReadExtended(packet, pos, nibble)
            case Number(v, n) => ok && value == v && next == n
            case ReservedNibble => !ok && next == pos
            case Cut => !ok && next == pos
  {
    if nibble <= 12 {
      return true, nibble, pos;
    }
    if nibble == 13 {
      if pos >= |packet| {
        return false, 0, pos;
      }
      var ext: int := packet[pos];
      return true, ext + 13, pos + 1;
    }
    if nibble == 14 {
      if pos + 1 >= |packet| {
        return false, 0, pos;
      }
      var hi: int, lo: int := packet[pos], packet[pos + 1];
      return true, (0x100 * hi + lo + 269) % WRAP16, pos + 2;
    }
    return false, 0, pos;
  }

  /** Decodes the option whose header is at `pos`, as both index-based walkers do. */
  method DecodeOptionAt(
    packet: seq<byte>, pos: nat, prev: u16) returns (ok: bool, number: u16, offset: nat, length: u16)
    requires pos < |packet| < WRAP16 && packet[pos] != PAYLOAD_MARKER
    ensures ok ==> offset + length <= |packet| && pos < offset
    ensures ok ==> Continues(
                     WalkOptions(packet, pos, prev),
                     [Visit(number, offset, packet[offset..offset + length])],
                     WalkOptions(packet, offset + length, number))
    ensures !ok ==> var w := WalkOptions(packet, pos, prev); w.visits == [] && (w.end.AtReserved? || w.end.Truncated?)
  {
    hide WalkOptions;
    WalkUnfolds(packet, pos, prev);
    number, offset, length := 0, pos + 1, 0;
    var delta: u16;
    ok, delta, offset := DecodeCoapNibble(packet, offset, packet[pos] / 16);
    if !ok {
      return;
    }
    ok, length, offset := DecodeCoapNibble(packet, offset, packet[pos] % 16);
    if !ok {
      return;
    }
    number := (prev + delta) % WRAP16;
    ok := offset + length <= |packet|;
  }

  /** What the target of a search looks like after some visits. */
  ghost predicate LocatedAt(visits: seq<Visit>, target: u16, offset: nat, length: nat) {
    match LastVisit(visits, target)
    case Some(v) => offset == v.offset && length == |v.value|
    case None => offset == 0 && length == 0
  }

  lemma LocateNext(visits: seq<Visit>, v: Visit, target: u16, offset: nat, length: nat)
    requires LocatedAt(visits, target, offset, length)
    ensures if v.number == target then LocatedAt(visits + [v], target, v.offset, |v.value|)
            else LocatedAt(visits + [v], target, offset, length)
  {
    assert (visits + [v])[..|visits|] == visits;
  }

  /**
   Finds the last occurrence of an option and the start of the payload. The
   result is false for an option that is absent or empty, and for a malformed
   packet.
   */
  method FindCoapOptionAndPayload(packet: seq<byte>, target: u16)
      returns (found: bool, optionOffset: nat, optionLength: u16, payloadOffset: nat)
    requires |packet| < WRAP16
    ensures |packet| < 4 ==> !found
    ensures |packet| >= 4 && 4 + TokenLength(packet) > |packet| ==>
              !found && optionOffset == optionLength == 0 && payloadOffset == |packet|
    ensures |packet| >= 4 && 4 + TokenLength(packet) <= |packet| ==>
              var w := WalkOptions(packet, 4 + TokenLength(packet), 0);
              && LocatedAt(w.visits, target, optionOffset, optionLength)
              && payloadOffset == (if w.end.AtMarker? then w.position + 1 else |packet|)
              && found == ((w.end.AtMarker? || w.end.AtEnd?) && optionLength > 0)
  {
    hide WalkOptions, LastVisit;
    optionOffset, optionLength, payloadOffset := 0, 0, 0;
    if |packet| < 4 {
      return false, 0, 0, 0;
    }
    var pos: nat := 4 + TokenLength(packet);
    var prev: u16 := 0;
    payloadOffset := |packet|;
    if pos > |packet| {
      return false, optionOffset, optionLength, payloadOffset;
    }
    ghost var whole := WalkOptions(packet, pos, 0);
    ghost var done: seq<Visit> := [];
    assert [] + whole.visits == whole.visits;
    assert LocatedAt(done, target, 0, 0);
    while pos < |packet|
      invariant pos <= |packet|
      invariant Continues(whole, done, WalkOptions(packet, pos, prev))
      invariant LocatedAt(done, target, optionOffset, optionLength)
    {
      if packet[pos] == PAYLOAD_MARKER {
        WalkEnds(packet, pos, prev);
        ContinuesToEnd(whole, done, WalkOptions(packet, pos, prev));
        payloadOffset := pos + 1;
        return optionLength > 0, optionOffset, optionLength, payloadOffset;
      }
      var ok, number, offset, length := DecodeOptionAt(packet, pos, prev);
      if !ok {
        ContinuesToEnd(whole, done, WalkOptions(packet, pos, prev));
        return false, optionOffset, optionLength, payloadOffset;
      }
      ghost var v := Visit(number, offset, packet[offset..offset + length]);
      LocateNext(done, v, target, optionOffset, optionLength);
      ContinuesFurther(whole, done, WalkOptions(packet, pos, prev), [v], WalkOptions(packet, offset + length, number));
      done := done + [v];
      if number == target {
        optionOffset, optionLength := offset, length;
      }
      pos, prev := offset + length, number;
    }
    WalkEnds(packet, pos, prev);
    ContinuesToEnd(whole, done, WalkOptions(packet, pos, prev));
    return optionLength > 0, optionOffset, optionLength, payloadOffset;
  }

  /** The desktop application's walker: where the payload starts, or the end of the packet if there is none. */
  method LocatePayloadOffset(packet: seq<byte>) returns (ok: bool, payloadOffset: nat)
    requires |packet| < WRAP16
    ensures |packet| < 4 || 4 + TokenLength(packet) > |packet| ==> !ok
    ensures |packet| >= 4 && 4 + TokenLength(packet) <= |packet| ==>
              var w := WalkOptions(packet, 4 + TokenLength(packet), 0);
              && ok == (w.end.AtMarker? || w.end.AtEnd?)
              && (ok ==> payloadOffset == if w.end.AtMarker? then w.position + 1 else |packet|)
  {
    hide WalkOptions;
    payloadOffset := 0;
    if |packet| < 4 {
      return false, payloadOffset;
    }
    if 4 + TokenLength(packet) > |packet| {
      return false, payloadOffset;
    }
    var pos: nat := 4 + TokenLength(packet);
    var prev: u16 := 0;
    payloadOffset := |packet|;
    ghost var whole := WalkOptions(packet, pos, 0);
    while pos < |packet|
      invariant pos <= |packet|
      invariant WalkOptions(packet, pos, prev).end == whole.end
      invariant WalkOptions(packet, pos, prev).position == whole.position
      invariant payloadOffset == |packet|
    {
      if packet[pos] == PAYLOAD_MARKER {
        WalkEnds(packet, pos, prev);
        payloadOffset := pos + 1;
        return true, payloadOffset;
      }
      var more, number, offset, length := DecodeOptionAt(packet, pos, prev);
      if !more {
        return false, payloadOffset;
      }
      pos, prev := offset + length, number;
    }
    WalkEnds(packet, pos, prev);
    return true, payloadOffset;
  }

  // ------------------------------------------------------- lists of options

  datatype Opt = Opt(number: u16, value: OptionValue)

  ghost predicate Ascending(opts: seq<Opt>, prev: u16) {
    opts != [] ==> prev <= opts[0].number && Ascending(opts[1..], opts[0].number)
  }

  function LastNumber(opts: seq<Opt>, prev: u16): u16 {
    if opts == [] then prev else opts[|opts| - 1].number
  }

  /** What repeated encoding writes. */
  ghost function EncodeOptions(opts: seq<Opt>, prev: u16): seq<byte>
    requires Ascending(opts, prev)
  {
    if opts == [] then []
    else OptionBytes(opts[0].number - prev, opts[0].value) + EncodeOptions(opts[1..], opts[0].number)
  }

  /** Where the values of a list of options written at `pos` are to be found. */
  ghost function VisitsOf(opts: seq<Opt>, pos: nat, prev: u16): seq<Visit>
    requires Ascending(opts, prev)
  {
    if opts == [] then []
    else
      var end := pos + |OptionBytes(opts[0].number - prev, opts[0].value)|;
      [Visit(opts[0].number, end - |opts[0].value|, opts[0].value)] + VisitsOf(opts[1..], end, opts[0].number)
  }

  /** The first option of a list, and the rest of it. */
  lemma FirstOption(opts: seq<Opt>, pos: nat, prev: u16)
    requires Ascending(opts, prev) && opts != []
    ensures prev <= opts[0].number && Ascending(opts[1..], opts[0].number)
    ensures LastNumber(opts[1..], opts[0].number) == LastNumber(opts, prev)
    ensures var bytes := OptionBytes(opts[0].number - prev, opts[0].value);
            && EncodeOptions(opts, prev) == bytes + EncodeOptions(opts[1..], opts[0].number)
            && VisitsOf(opts, pos, prev)
               == [Visit(opts[0].number, pos + |bytes| - |opts[0].value|, opts[0].value)]
                  + VisitsOf(opts[1..], pos + |bytes|, opts[0].number)
  {
    hide OptionBytes;
  }

  /** The options a walk has seen, without their positions. */
  function Seen(visits: seq<Visit>): (opts: seq<Opt>)
    ensures |opts| == |visits|
    ensures forall i :: 0 <= i < |visits| ==> opts[i] == Opt(visits[i].number, visits[i].value)
  {
    seq(|visits|, i requires 0 <= i < |visits| => Opt(visits[i].number, visits[i].value))
  }

  lemma {:induction false} VisitsOfSees(opts: seq<Opt>, pos: nat, prev: u16)
    requires Ascending(opts, prev)
    ensures Seen(VisitsOf(opts, pos, prev)) == opts
  {
    if opts != [] {
      var end := pos + |OptionBytes(opts[0].number - prev, opts[0].value)|;
      VisitsOfSees(opts[1..], end, opts[0].number);
      var vs, rest := VisitsOf(opts, pos, prev), VisitsOf(opts[1..], end, opts[0].number);
      assert vs == [vs[0]] + rest;
      assert forall i :: 1 <= i < |vs| ==> Seen(vs)[i] == Seen(rest)[i - 1] == opts[1..][i - 1] == opts[i];
    }
  }

  /** A walk over an encoded list visits that list and goes on where the list ends. */
  lemma {:induction false} WalkOverOptions(data: seq<byte>, pos: nat, opts: seq<Opt>, prev: u16)
    requires Ascending(opts, prev)
    requires pos + |EncodeOptions(opts, prev)| <= |data|
    requires data[pos..pos + |EncodeOptions(opts, prev)|] == EncodeOptions(opts, prev)
    ensures Continues(
              WalkOptions(data, pos, prev),
              VisitsOf(opts, pos, prev),
              WalkOptions(data, pos + |EncodeOptions(opts, prev)|, LastNumber(opts, prev)))
    decreases |opts|
  {
    hide WalkOptions, OptionBytes, ParseOption;
    if opts == [] {
      assert [] + WalkOptions(data, pos, prev).visits == WalkOptions(data, pos, prev).visits;
    } else {
      hide EncodeOptions, VisitsOf, Ascending, LastNumber;
      FirstOption(opts, pos, prev);
      var o, rest := opts[0], opts[1..];
      var bytes := OptionBytes(o.number - prev, o.value);
      SplitSlice(data, pos, bytes, EncodeOptions(rest, o.number));
      OptionRoundTrip(data, pos, o.number - prev, o.value, prev);
      WalkUnfolds(data, pos, prev);
      WalkOverOptions(data, pos + |bytes|, rest, o.number);
      ContinuesFurther(
        WalkOptions(data, pos, prev), [Visit(o.number, pos + |bytes| - |o.value|, o.value)],
        WalkOptions(data, pos + |bytes|, o.number), VisitsOf(rest, pos + |bytes|, o.number),
        WalkOptions(data, pos + |EncodeOptions(opts, prev)|, LastNumber(opts, prev)));
    }
  }

  /**
   The round trip of section 3.1 of RFC 7252: any ascending list of options,
   followed by the payload marker, reads back as itself, stopping exactly at
   the marker. No encoded header byte can be mistaken for it.
   */
  lemma OptionListRoundTrip(data: seq<byte>, pos: nat, opts: seq<Opt>, prev: u16)
    requires Ascending(opts, prev)
    requires pos + |EncodeOptions(opts, prev)| < |data|
    requires data[pos..pos + |EncodeOptions(opts, prev)|] == EncodeOptions(opts, prev)
    requires data[pos + |EncodeOptions(opts, prev)|] == PAYLOAD_MARKER
    ensures var w := WalkOptions(data, pos, prev);
            && Seen(w.visits) == opts
            && w.end == AtMarker
            && w.position == pos + |EncodeOptions(opts, prev)|
  {
    hide WalkOptions, EncodeOptions, VisitsOf;
    WalkOverOptions(data, pos, opts, prev);
    VisitsOfSees(opts, pos, prev);
    var end := pos + |EncodeOptions(opts, prev)|;
    WalkEnds(data, end, LastNumber(opts, prev));
    ContinuesToEnd(WalkOptions(data, pos, prev), VisitsOf(opts, pos, prev),
                   WalkOptions(data, end, LastNumber(opts, prev)));
  }

  lemma {:induction false} AscendingAppend(a: seq<Opt>, b: seq<Opt>, prev: u16)
    requires Ascending(a, prev) && Ascending(b, LastNumber(a, prev))
    ensures Ascending(a + b, prev)
    decreases |a|
  {
    if a == [] {
      assert a + b == b;
    } else {
      assert LastNumber(a[1..], a[0].number) == LastNumber(a, prev);
      AscendingAppend(a[1..], b, a[0].number);
      assert (a + b)[1..] == a[1..] + b;
    }
  }

  /** Encoding one list after another is encoding their concatenation. */
  lemma {:induction false} EncodeAppend(a: seq<Opt>, b: seq<Opt>, prev: u16)
    requires Ascending(a, prev) && Ascending(b, LastNumber(a, prev)) && Ascending(a + b, prev)
    ensures EncodeOptions(a + b, prev) == EncodeOptions(a, prev) + EncodeOptions(b, LastNumber(a, prev))
    decreases |a|
  {
    hide OptionBytes;
    if a == [] {
      assert a + b == b;
    } else {
      hide EncodeOptions, Ascending, LastNumber;
      FirstOption(a, 0, prev);
      FirstOption(a + b, 0, prev);
      assert (a + b)[1..] == a[1..] + b && (a + b)[0] == a[0];
      EncodeAppend(a[1..], b, a[0].number);
      Assoc(
        OptionBytes(a[0].number - prev, a[0].value),
        EncodeOptions(a[1..], a[0].number),
        EncodeOptions(b, LastNumber(a, prev)));
    }
  }
}
