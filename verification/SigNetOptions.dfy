/**
 The six custom options of a Sig-Net packet: their encoding, their recovery
 from a walk over a packet's options, and the bytes their HMAC covers.
 */
module SigNetOptions {
  import opened Bytes
  import opened Freshness
  import opened PacketIO
  import opened CoapOption
  import opened CoapWalk

  const OPTION_URI_PATH: u16 := 11
  const OPTION_SECURITY_MODE: u16 := 2076
  const OPTION_SENDER_ID: u16 := 2108
  const OPTION_MFG_CODE: u16 := 2140
  const OPTION_SESSION_ID: u16 := 2172
  const OPTION_SEQ_NUM: u16 := 2204
  const OPTION_HMAC: u16 := 2236

  const MODE_HMAC_SHA256: byte := 0x00
  const MODE_OPEN: byte := 0x01
  const MODE_UNPROVISIONED: byte := 0xFF

  const HMAC_LENGTH: nat := 32

  type Digest = s: seq<byte> | |s| == 32 witness seq(32, _ => 0)
  type Key = seq<byte>

  /** HMAC-SHA256 as an arbitrary function of key and message. */
  type Hmac = (Key, seq<byte>) -> Digest

  const NO_DIGEST: Digest := [0, 0, 0, 0, 0, 0, 0, 0, 0, 0, 0, 0, 0, 0, 0, 0,
                              0, 0, 0, 0, 0, 0, 0, 0, 0, 0, 0, 0, 0, 0, 0, 0]

  datatype Options = Options(
    mode: byte, senderId: SenderId, mfg: u16, session: u32, seqNum: u32, authLength: nat, hmac: Digest)

  const NO_OPTIONS: Options := Options(0, NO_SENDER, 0, 0, 0, 0, NO_DIGEST)

  /** TUID followed by the endpoint. */
  function SenderIdOf(tuid: Tuid, endpoint: u16): (id: SenderId)
    ensures TuidOf(id) == tuid
  {
    var id := tuid + U16(endpoint);
    assert id[..6] == tuid;
    id
  }

  /** A Sender-ID tells TUID and endpoint. */
  lemma SenderIdTells(a: Tuid, e: u16, b: Tuid, f: u16)
    ensures SenderIdOf(a, e) == SenderIdOf(b, f) <==> a == b && e == f
    ensures SenderIdOf(a, e)[..6] == a && SenderIdOf(a, e)[6] == e / 0x100 && SenderIdOf(a, e)[7] == e % 0x100
  {
    var x, y := SenderIdOf(a, e), SenderIdOf(b, f);
    assert x[..6] == a && y[..6] == b && x[6..] == U16(e) && y[6..] == U16(f);
    U16RoundTrip(e, [0, 0]);
    U16RoundTrip(f, [0, 0]);
  }

  // ----------------------------------------------------------------- encoding

  /** The options in front of the HMAC option. */
  function UnsignedOptions(o: Options): seq<Opt> {
    [Opt(OPTION_SECURITY_MODE, [o.mode]),
     Opt(OPTION_SENDER_ID, o.senderId),
     Opt(OPTION_MFG_CODE, U16(o.mfg)),
     Opt(OPTION_SESSION_ID, U32(o.session)),
     Opt(OPTION_SEQ_NUM, U32(o.seqNum))]
  }

  function HmacOption(d: Digest): Opt {
    Opt(OPTION_HMAC, d)
  }

  /** One more option after those already encoded. */
  lemma EncodeNext(done: seq<Opt>, o: Opt, prev: u16)
    requires Ascending(done, prev) && LastNumber(done, prev) <= o.number
    ensures Ascending(done + [o], prev)
    ensures EncodeOptions(done + [o], prev)
         == EncodeOptions(done, prev) + OptionBytes(o.number - LastNumber(done, prev), o.value)
  {
    hide OptionBytes;
    assert [o][1..] == [];
    assert Ascending([o], LastNumber(done, prev));
    AscendingAppend(done, [o], prev);
    EncodeAppend(done, [o], prev);
  }

  /** Writes one more option of a list and says what the list has become. */
  method WriteNext(buffer: PacketBuffer, ghost before: seq<byte>, ghost done: seq<Opt>, ghost first: u16, r0: Status,
                   number: u16, prev: u16, value: OptionValue)
      returns (r: Status)
    requires buffer.Valid()
    requires Ascending(done, first) && LastNumber(done, first) == prev <= number
    requires Wrote(before, EncodeOptions(done, first), r0, buffer.Contents())
    modifies buffer, buffer.buffer
    ensures buffer.Valid() && Ascending(done + [Opt(number, value)], first)
    ensures Wrote(before, EncodeOptions(done + [Opt(number, value)], first), r, buffer.Contents())
  {
    hide OptionBytes, EncodeOptions, Ascending;
    ghost var c0 := buffer.Contents();
    r := r0;
    if r0 == Success {
      r := EncodeCoAPOption(buffer, number, prev, value);
    }
    EncodeNext(done, Opt(number, value), first);
    WroteBoth(before, EncodeOptions(done, first), r0, c0, OptionBytes(number - prev, value), r, buffer.Contents());
  }

  /** Writes the five options that precede the HMAC, after an option numbered at most 2076. */
  method BuildSigNetOptionsWithoutHMAC(buffer: PacketBuffer, o: Options, prev: u16) returns (r: Status)
    requires buffer.Valid() && prev <= OPTION_SECURITY_MODE
    modifies buffer, buffer.buffer
    ensures buffer.Valid() && Ascending(UnsignedOptions(o), prev)
    ensures Wrote(old(buffer.Contents()), EncodeOptions(UnsignedOptions(o), prev), r, buffer.Contents())
  {
    ghost var before := buffer.Contents();
    ghost var done: seq<Opt> := [];
    assert Wrote(before, EncodeOptions(done, prev), Success, before);
    hide OptionBytes, EncodeOptions, Ascending, Wrote;
    r := WriteNext(buffer, before, done, prev, Success, OPTION_SECURITY_MODE, prev, [o.mode]);
    done := done + [Opt(OPTION_SECURITY_MODE, [o.mode])];
    r := WriteNext(buffer, before, done, prev, r, OPTION_SENDER_ID, OPTION_SECURITY_MODE, o.senderId);
    done := done + [Opt(OPTION_SENDER_ID, o.senderId)];
    r := WriteNext(buffer, before, done, prev, r, OPTION_MFG_CODE, OPTION_SENDER_ID, U16(o.mfg));
    done := done + [Opt(OPTION_MFG_CODE, U16(o.mfg))];
    r := WriteNext(buffer, before, done, prev, r, OPTION_SESSION_ID, OPTION_MFG_CODE, U32(o.session));
    done := done + [Opt(OPTION_SESSION_ID, U32(o.session))];
    r := WriteNext(buffer, before, done, prev, r, OPTION_SEQ_NUM, OPTION_SESSION_ID, U32(o.seqNum));
    done := done + [Opt(OPTION_SEQ_NUM, U32(o.seqNum))];
    assert done == UnsignedOptions(o);
  }

  // ------------------------------------------------------------------ parsing

  /** Options recovered so far, and which of the six have been seen. */
  datatype Found = Found(options: Options, numbers: set<u16>)

  const REQUIRED: set<u16> := {
    OPTION_SECURITY_MODE, OPTION_SENDER_ID, OPTION_MFG_CODE, OPTION_SESSION_ID, OPTION_SEQ_NUM, OPTION_HMAC}

  /** One option of a packet; None if it is one of the six with a wrong length. */
  function Take(f: Found, opt: Opt): Option<Found> {
    var v, n := opt.value, opt.number;
    if n == OPTION_SECURITY_MODE then
      if |v| != 1 then None else Some(Found(f.options.(mode := v[0]), f.numbers + {n}))
    else if n == OPTION_SENDER_ID then
      if |v| != 8 then None else Some(Found(f.options.(senderId := v), f.numbers + {n}))
    else if n == OPTION_MFG_CODE then
      if |v| != 2 then None else Some(Found(f.options.(mfg := FromU16(v)), f.numbers + {n}))
    else if n == OPTION_SESSION_ID then
      if |v| != 4 then None else Some(Found(f.options.(session := FromU32(v)), f.numbers + {n}))
    else if n == OPTION_SEQ_NUM then
      if |v| != 4 then None else Some(Found(f.options.(seqNum := FromU32(v)), f.numbers + {n}))
    else if n == OPTION_HMAC then
      if |v| == HMAC_LENGTH then Some(Found(f.options.(authLength := |v|, hmac := v), f.numbers + {n}))
      else if |v| == 0 then Some(Found(f.options.(authLength := 0, hmac := NO_DIGEST), f.numbers + {n}))
      else None
    else Some(f)
  }

  function TakeAll(f: Found, opts: seq<Opt>): Option<Found>
    decreases |opts|
  {
    if opts == [] then Some(f)
    else
      match Take(f, opts[0])
      case None => None
      case Some(f') => TakeAll(f', opts[1..])
  }

  /** All six present, and a MAC exactly when the security mode calls for one. */
  predicate Complete(f: Found) {
    && REQUIRED <= f.numbers
    && match f.options.mode
       case 0x00 => f.options.authLength == HMAC_LENGTH
       case 0x01 => f.options.authLength == 0
       case 0xFF => f.options.authLength == 0
       case _ => false
  }

  datatype Outcome = Outcome(status: Status, options: Options)

  /** What the custom options of a walked packet amount to. */
  function OptionsOf(w: Walk, initial: Options): Outcome {
    match TakeAll(Found(initial, {}), Seen(w.visits))
    case None => Outcome(InvalidOption, initial)
    case Some(f) =>
      if w.end.AtEnd? || w.end.Truncated? then Outcome(BufferTooSmall, f.options)
      else if Complete(f) then Outcome(Success, f.options)
      else Outcome(InvalidOption, f.options)
  }

  /** The first visit of a walk and what remains. */
  lemma SeenFirst(v: Visit, rest: seq<Visit>)
    ensures Seen([v] + rest) == [Opt(v.number, v.value)] + Seen(rest)
  {
  }

  /** Reads all options of a packet from the reader's position on, keeping the custom ones. */
  method ParseSigNetOptions(reader: PacketReader, initial: Options) returns (r: Status, o: Options)
    requires reader.Valid()
    modifies reader
    ensures reader.Valid()
    ensures var w := WalkOptions(reader.data, old(reader.position), 0);
            var p := OptionsOf(w, initial);
            && r == p.status
            && (r == Success ==> o == p.options && reader.position == w.position)
  {
    hide WalkOptions, Take, Complete, TakeAll;
    ghost var whole := WalkOptions(reader.data, reader.position, 0);
    var current: u16 := 0;
    var f := Found(initial, {});
    o := initial;
    while true
      invariant reader.Valid()
      invariant WalkOptions(reader.data, reader.position, current).end == whole.end
      invariant WalkOptions(reader.data, reader.position, current).position == whole.position
      invariant TakeAll(Found(initial, {}), Seen(whole.visits))
             == TakeAll(f, Seen(WalkOptions(reader.data, reader.position, current).visits))
      decreases |reader.data| - reader.position
    {
      ghost var here := WalkOptions(reader.data, reader.position, current);
      WalkUnfolds(reader.data, reader.position, current);
      TakeNothing(f);
      var number: u16, value: OptionValue;
      ghost var at := reader.position;
      r, number, value := ParseCoAPOption(reader, current);
      if r == InvalidPacket {
        break;
      }
      if r != Success {
        return r, f.options;
      }
      ghost var rest := WalkOptions(reader.data, reader.position, number);
      ghost var v := Visit(number, reader.position - |value|, value);
      assert here.visits == [v] + rest.visits;
      SeenFirst(v, rest.visits);
      TakeFirst(f, Opt(number, value), Seen(rest.visits));
      match Take(f, Opt(number, value)) {
        case None => return InvalidOption, f.options;
        case Some(f') => f := f';
      }
      current := number;
    }
    o := f.options;
    r := if Complete(f) then Success else InvalidOption;
  }

  lemma TakeNothing(f: Found)
    ensures TakeAll(f, []) == Some(f)
  {
  }

  lemma TakeFirst(f: Found, opt: Opt, rest: seq<Opt>)
    ensures TakeAll(f, [opt] + rest) == match Take(f, opt) case None => None case Some(f') => TakeAll(f', rest)
  {
    hide Take;
    assert ([opt] + rest)[1..] == rest;
  }

  /** Uri-Path options say nothing about the custom ones. */
  lemma {:induction false} TakeSkipsPath(f: Found, path: seq<Opt>, rest: seq<Opt>)
    requires forall i :: 0 <= i < |path| ==> path[i].number == OPTION_URI_PATH
    ensures TakeAll(f, path + rest) == TakeAll(f, rest)
    decreases |path|
  {
    if path == [] {
      assert path + rest == rest;
    } else {
      TakeSkipsPath(f, path[1..], rest);
      assert path + rest == [path[0]] + (path[1..] + rest);
      TakeFirst(f, path[0], path[1..] + rest);
    }
  }

  lemma TakeIdentity(f: Found, o: Options)
    ensures Take(f, Opt(OPTION_SECURITY_MODE, [o.mode]))
         == Some(Found(f.options.(mode := o.mode), f.numbers + {OPTION_SECURITY_MODE}))
    ensures Take(f, Opt(OPTION_SENDER_ID, o.senderId))
         == Some(Found(f.options.(senderId := o.senderId), f.numbers + {OPTION_SENDER_ID}))
    ensures Take(f, Opt(OPTION_MFG_CODE, U16(o.mfg)))
         == Some(Found(f.options.(mfg := o.mfg), f.numbers + {OPTION_MFG_CODE}))
  {
    U16RoundTrip(o.mfg, [0, 0]);
  }

  lemma TakeCounters(f: Found, o: Options, d: Digest)
    ensures Take(f, Opt(OPTION_SESSION_ID, U32(o.session)))
         == Some(Found(f.options.(session := o.session), f.numbers + {OPTION_SESSION_ID}))
    ensures Take(f, Opt(OPTION_SEQ_NUM, U32(o.seqNum)))
         == Some(Found(f.options.(seqNum := o.seqNum), f.numbers + {OPTION_SEQ_NUM}))
    ensures Take(f, HmacOption(d))
         == Some(Found(f.options.(authLength := HMAC_LENGTH, hmac := d), f.numbers + {OPTION_HMAC}))
  {
    U32RoundTrip(o.session, [0, 0, 0, 0]);
    U32RoundTrip(o.seqNum, [0, 0, 0, 0]);
  }

  /** The six options, taken in the order they are written, give back what was written. */
  lemma TakeWritten(initial: Options, o: Options, d: Digest)
    ensures TakeAll(Found(initial, {}), UnsignedOptions(o) + [HmacOption(d)])
         == Some(Found(o.(authLength := HMAC_LENGTH, hmac := d), REQUIRED))
  {
    hide Take, TakeAll, HmacOption, U16, U32;
    var s := UnsignedOptions(o) + [HmacOption(d)];
    var f0 := Found(initial, {});
    TakeIdentity(f0, o);
    var f1 := Take(f0, s[0]).value;
    TakeIdentity(f1, o);
    var f2 := Take(f1, s[1]).value;
    TakeIdentity(f2, o);
    var f3 := Take(f2, s[2]).value;
    TakeCounters(f3, o, d);
    var f4 := Take(f3, s[3]).value;
    TakeCounters(f4, o, d);
    var f5 := Take(f4, s[4]).value;
    TakeCounters(f5, o, d);
    var f6 := Take(f5, s[5]).value;
    assert f6 == Found(o.(authLength := HMAC_LENGTH, hmac := d), REQUIRED);
    TakeNothing(f6);
    TakeSuffix(f5, s, 5);
    TakeSuffix(f4, s, 4);
    TakeSuffix(f3, s, 3);
    TakeSuffix(f2, s, 2);
    TakeSuffix(f1, s, 1);
    TakeSuffix(f0, s, 0);
    assert s[6..] == [] && s[0..] == s;
  }

  lemma TakeSuffix(f: Found, s: seq<Opt>, k: nat)
    requires k < |s|
    ensures TakeAll(f, s[k..]) == match Take(f, s[k]) case None => None case Some(f') => TakeAll(f', s[k + 1..])
  {
    assert s[k..] == [s[k]] + s[k + 1..];
    TakeFirst(f, s[k], s[k + 1..]);
  }

  // --------------------------------------------------------------- HMAC input

  /** URI, options and payload in the order the MAC covers them. */
  function HmacInput(uri: seq<byte>, o: Options, payload: seq<byte>): (s: seq<byte>)
    ensures |s| == |uri| + 19 + |payload|
  {
    uri + [o.mode] + o.senderId + U16(o.mfg) + U32(o.session) + U32(o.seqNum) + payload
  }

  /** Copies `bytes` to `output` at `pos` if they fit. */
  method Put(output: array<byte>, pos: nat, bytes: seq<byte>) returns (ok: bool, next: nat)
    requires pos <= output.Length
    modifies output
    ensures ok == (pos + |bytes| <= output.Length)
    ensures next == if ok then pos + |bytes| else pos
    ensures output[..next] == old(output[..pos]) + if ok then bytes else []
  {
    if pos + |bytes| > output.Length {
      return false, pos;
    }
    forall i | 0 <= i < |bytes| {
      output[pos + i] := bytes[i];
    }
    assert output[..pos] == old(output[..pos]);
    return true, pos + |bytes|;
  }

  /** Lays out the bytes to be signed, in a buffer that may be too small for them. */
  method BuildHMACInput(
    uri: seq<byte>, o: Options, payload: seq<byte>, output: array<byte>) returns (r: Status, length: nat)
    modifies output
    ensures r == if |HmacInput(uri, o, payload)| <= output.Length then Success else BufferFull
    ensures r == Success ==> length <= output.Length && output[..length] == HmacInput(uri, o, payload)
  {
    hide U16, U32;
    length := 0;
    var ok;
    ok, length := Put(output, length, uri);
    if !ok {
      return BufferFull, length;
    }
    assert output[..length] == uri;
    ok, length := Put(output, length, [o.mode]);
    if !ok {
      return BufferFull, length;
    }
    ok, length := Put(output, length, o.senderId);
    if !ok {
      return BufferFull, length;
    }
    ok, length := Put(output, length, U16(o.mfg));
    if !ok {
      return BufferFull, length;
    }
    ok, length := Put(output, length, U32(o.session));
    if !ok {
      return BufferFull, length;
    }
    ok, length := Put(output, length, U32(o.seqNum));
    if !ok {
      return BufferFull, length;
    }
    ok, length := Put(output, length, payload);
    if !ok {
      return BufferFull, length;
    }
    return Success, length;
  }

  lemma SplitEqual(a: seq<byte>, b: seq<byte>, c: seq<byte>, d: seq<byte>)
    requires a + b == c + d && (|a| == |c| || |b| == |d|)
    ensures a == c && b == d
  {
    assert |a| == |c|;
    assert (a + b)[..|a|] == a && (c + d)[..|c|] == c;
    assert (a + b)[|a|..] == b && (c + d)[|c|..] == d;
  }

  /**
   The signed bytes determine everything they cover, once the length of the URI
   is known: two packets with URIs of equal length have the same HMAC input only
   if they agree on URI, mode, Sender-ID, codes, counters and payload.
   */
  lemma HmacInputInjective(
    uri: seq<byte>, o: Options, payload: seq<byte>, uri': seq<byte>, o': Options, payload': seq<byte>)
    requires |uri| == |uri'| && HmacInput(uri, o, payload) == HmacInput(uri', o', payload')
    ensures uri == uri' && payload == payload'
    ensures o.(authLength := 0, hmac := NO_DIGEST) == o'.(authLength := 0, hmac := NO_DIGEST)
  {
    hide U16, U32;
    var a, a' := uri + [o.mode], uri' + [o'.mode];
    var b, b' := a + o.senderId, a' + o'.senderId;
    var c, c' := b + U16(o.mfg), b' + U16(o'.mfg);
    var d, d' := c + U32(o.session), c' + U32(o'.session);
    SplitEqual(d + U32(o.seqNum), payload, d' + U32(o'.seqNum), payload');
    SplitEqual(d, U32(o.seqNum), d', U32(o'.seqNum));
    SplitEqual(c, U32(o.session), c', U32(o'.session));
    SplitEqual(b, U16(o.mfg), b', U16(o'.mfg));
    SplitEqual(a, o.senderId, a', o'.senderId);
    SplitEqual(uri, [o.mode], uri', [o'.mode]);
    U16RoundTrip(o.mfg, [0, 0]);
    U16RoundTrip(o'.mfg, [0, 0]);
    U32RoundTrip(o.session, [0, 0, 0, 0]);
    U32RoundTrip(o'.session, [0, 0, 0, 0]);
    U32RoundTrip(o.seqNum, [0, 0, 0, 0]);
    U32RoundTrip(o'.seqNum, [0, 0, 0, 0]);
    assert [o.mode][0] == [o'.mode][0];
  }

  /** A URI without zero bytes ends at the first zero byte of the input, which is the mode the node verifies. */
  lemma UriEndsAtMode(uri: seq<byte>, o: Options, payload: seq<byte>)
    requires 0 !in uri && o.mode == MODE_HMAC_SHA256
    ensures var input := HmacInput(uri, o, payload);
            input[|uri|] == 0 && forall k :: 0 <= k < |uri| ==> input[k] != 0
  {
    hide U16, U32;
    var rest := o.senderId + U16(o.mfg) + U32(o.session) + U32(o.seqNum) + payload;
    assert HmacInput(uri, o, payload) == uri + [o.mode] + rest;
  }

  /**
   For the mode the node verifies and URIs of text, the signed bytes determine
   everything they cover, the length of the URI included.
   */
  lemma HmacInputDetermines(
    uri: seq<byte>, o: Options, payload: seq<byte>, uri': seq<byte>, o': Options, payload': seq<byte>)
    requires 0 !in uri && 0 !in uri' && o.mode == MODE_HMAC_SHA256 == o'.mode
    requires HmacInput(uri, o, payload) == HmacInput(uri', o', payload')
    ensures uri == uri' && payload == payload'
    ensures o.(authLength := 0, hmac := NO_DIGEST) == o'.(authLength := 0, hmac := NO_DIGEST)
  {
    hide HmacInput;
    UriEndsAtMode(uri, o, payload);
    UriEndsAtMode(uri', o', payload');
    HmacInputInjective(uri, o, payload, uri', o', payload');
  }
}
