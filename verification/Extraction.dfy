/**
 What extraction means for an arbitrary packet, well-formed or not: exactly which
 packets are extracted, and which bytes of them become URI, options and payload.
 */
module Extraction {
  import opened Bytes
  import opened CoapOption
  import opened CoapWalk
  import opened Freshness
  import opened Lanes
  import opened PacketIO
  import opened Receive
  import opened SigNetOptions
  import opened Text
  import opened UriPath

  // ------------------------------------------------------------------ options

  /** The lengths the six options may have; any other option may have any. */
  predicate RightLength(number: u16, length: nat) {
    && (number == OPTION_SECURITY_MODE ==> length == 1)
    && (number == OPTION_SENDER_ID ==> length == 8)
    && (number == OPTION_MFG_CODE ==> length == 2)
    && (number == OPTION_SESSION_ID ==> length == 4)
    && (number == OPTION_SEQ_NUM ==> length == 4)
    && (number == OPTION_HMAC ==> length == 32 || length == 0)
  }

  predicate RightLengths(visits: seq<Visit>) {
    forall k :: 0 <= k < |visits| ==> RightLength(visits[k].number, |visits[k].value|)
  }

  /** The value of the last option with a number. */
  function ValueOf(visits: seq<Visit>, number: u16): Option<seq<byte>> {
    match LastVisit(visits, number)
    case Some(v) => Some(v.value)
    case None => None
  }

  lemma {:induction false} LastOfMore(v: Visit, rest: seq<Visit>, number: u16)
    ensures LastVisit([v] + rest, number)
         == if LastVisit(rest, number).Some? then LastVisit(rest, number)
            else if v.number == number then Some(v) else None
    decreases |rest|
  {
    var all := [v] + rest;
    if rest == [] {
      assert all[..0] == [];
    } else {
      assert all[..|all| - 1] == [v] + rest[..|rest| - 1];
      LastOfMore(v, rest[..|rest| - 1], number);
    }
  }

  /**
   What has been recovered after some options, from what had been before: who sent
   the packet, and how it is secured.
   */
  ghost predicate RecoveredSender(f: Options, visits: seq<Visit>, g: Options) {
    var mode, id := ValueOf(visits, OPTION_SECURITY_MODE), ValueOf(visits, OPTION_SENDER_ID);
    var mfg, mac := ValueOf(visits, OPTION_MFG_CODE), ValueOf(visits, OPTION_HMAC);
    && (mode.Some? ==> |mode.value| == 1) && (id.Some? ==> |id.value| == 8) && (mfg.Some? ==> |mfg.value| == 2)
    && (mac.Some? ==> |mac.value| == 32 || |mac.value| == 0)
    && g.mode == (if mode.Some? then mode.value[0] else f.mode)
    && g.senderId == (if id.Some? then id.value else f.senderId)
    && g.mfg == (if mfg.Some? then FromU16(mfg.value) else f.mfg)
    && g.authLength == (if mac.Some? then |mac.value| else f.authLength)
    && g.hmac == (if mac.None? then f.hmac else if |mac.value| == 32 then mac.value else NO_DIGEST)
  }

  /** Likewise its counters. */
  ghost predicate RecoveredCounters(f: Options, visits: seq<Visit>, g: Options) {
    var session, seqNum := ValueOf(visits, OPTION_SESSION_ID), ValueOf(visits, OPTION_SEQ_NUM);
    && (session.Some? ==> |session.value| == 4) && (seqNum.Some? ==> |seqNum.value| == 4)
    && g.session == (if session.Some? then FromU32(session.value) else f.session)
    && g.seqNum == (if seqNum.Some? then FromU32(seqNum.value) else f.seqNum)
  }

  ghost predicate Recovered(f: Found, visits: seq<Visit>, g: Found) {
    && RecoveredSender(f.options, visits, g.options) && RecoveredCounters(f.options, visits, g.options)
    && forall n :: n in REQUIRED ==> (n in g.numbers <==> n in f.numbers || ValueOf(visits, n).Some?)
  }

  lemma TakeOne(f: Found, v: Visit)
    ensures Take(f, Opt(v.number, v.value)).Some? <==> RightLength(v.number, |v.value|)
    ensures Take(f, Opt(v.number, v.value)).Some? ==> Recovered(f, [v], Take(f, Opt(v.number, v.value)).value)
  {
    assert [v][..0] == [];
    forall n
      ensures ValueOf([v], n) == if v.number == n then Some(v.value) else None
    {
      LastOfMore(v, [], n);
      assert [v] + [] == [v];
    }
  }

  lemma ValueOfMore(v: Visit, rest: seq<Visit>, n: u16)
    ensures ValueOf([v] + rest, n) == if ValueOf(rest, n).Some? then ValueOf(rest, n) else ValueOf([v], n)
  {
    LastOfMore(v, rest, n);
    LastOfMore(v, [], n);
    assert [v] + [] == [v];
  }

  lemma SenderBoth(f: Options, v: Visit, g: Options, rest: seq<Visit>, h: Options)
    requires RecoveredSender(f, [v], g) && RecoveredSender(g, rest, h)
    ensures RecoveredSender(f, [v] + rest, h)
  {
    hide ValueOf, FromU16;
    ValueOfMore(v, rest, OPTION_SECURITY_MODE);
    ValueOfMore(v, rest, OPTION_SENDER_ID);
    ValueOfMore(v, rest, OPTION_MFG_CODE);
    ValueOfMore(v, rest, OPTION_HMAC);
  }

  lemma CountersBoth(f: Options, v: Visit, g: Options, rest: seq<Visit>, h: Options)
    requires RecoveredCounters(f, [v], g) && RecoveredCounters(g, rest, h)
    ensures RecoveredCounters(f, [v] + rest, h)
  {
    hide ValueOf, FromU32;
    ValueOfMore(v, rest, OPTION_SESSION_ID);
    ValueOfMore(v, rest, OPTION_SEQ_NUM);
  }

  lemma RecoveredBoth(f: Found, v: Visit, g: Found, rest: seq<Visit>, h: Found)
    requires Recovered(f, [v], g) && Recovered(g, rest, h)
    ensures Recovered(f, [v] + rest, h)
  {
    SenderBoth(f.options, v, g.options, rest, h.options);
    CountersBoth(f.options, v, g.options, rest, h.options);
    hide RecoveredSender, RecoveredCounters, ValueOf;
    forall n | n in REQUIRED
      ensures n in h.numbers <==> n in f.numbers || ValueOf([v] + rest, n).Some?
    {
      ValueOfMore(v, rest, n);
    }
  }

  /** Options are taken exactly if each has a right length, and the last of each number counts. */
  lemma {:induction false} TakeAllMeans(f: Found, visits: seq<Visit>)
    ensures TakeAll(f, Seen(visits)).Some? <==> RightLengths(visits)
    ensures TakeAll(f, Seen(visits)).Some? ==> Recovered(f, visits, TakeAll(f, Seen(visits)).value)
    decreases |visits|
  {
    hide Recovered, Take, TakeAll, RightLength;
    if visits == [] {
      TakeNothing(f);
      NothingRecovered(f);
    } else {
      var v, rest := visits[0], visits[1..];
      assert visits == [v] + rest;
      SeenFirst(v, rest);
      TakeFirst(f, Opt(v.number, v.value), Seen(rest));
      TakeOne(f, v);
      assert RightLengths(visits) <==> RightLength(v.number, |v.value|) && RightLengths(rest);
      if RightLength(v.number, |v.value|) {
        var g := Take(f, Opt(v.number, v.value)).value;
        TakeAllMeans(g, rest);
        if RightLengths(rest) {
          RecoveredBoth(f, v, g, rest, TakeAll(g, Seen(rest)).value);
        }
      }
    }
  }

  lemma NothingRecovered(f: Found)
    ensures Recovered(f, [], f)
  {
  }

  /**
   The options of a packet whose walk ended at a payload marker or a reserved
   nibble: all of right length, all six present, and a signature exactly in the
   mode that calls for one, no other mode being known.
   */
  ghost predicate GoodOptions(w: Walk, o: Options) {
    var mode, id := ValueOf(w.visits, OPTION_SECURITY_MODE), ValueOf(w.visits, OPTION_SENDER_ID);
    var mfg, session := ValueOf(w.visits, OPTION_MFG_CODE), ValueOf(w.visits, OPTION_SESSION_ID);
    var seqNum, mac := ValueOf(w.visits, OPTION_SEQ_NUM), ValueOf(w.visits, OPTION_HMAC);
    && (w.end.AtMarker? || w.end.AtReserved?) && RightLengths(w.visits)
    && mode.Some? && |mode.value| == 1 && mode.value[0] == o.mode && id == Some(o.senderId)
    && mfg.Some? && |mfg.value| == 2 && FromU16(mfg.value) == o.mfg
    && session.Some? && |session.value| == 4 && FromU32(session.value) == o.session
    && seqNum.Some? && |seqNum.value| == 4 && FromU32(seqNum.value) == o.seqNum
    && if o.mode == 0x00 then mac == Some(o.hmac) && o.authLength == 32
       else (o.mode == 0x01 || o.mode == 0xFF) && mac == Some([]) && o.hmac == NO_DIGEST && o.authLength == 0
  }

  /** Parsing succeeds exactly on good options, and recovers them. */
  lemma OptionsAreExact(w: Walk, o: Options)
    ensures OptionsOf(w, NO_OPTIONS) == Outcome(Success, o) <==> GoodOptions(w, o)
  {
    TakeAllMeans(Found(NO_OPTIONS, {}), w.visits);
    if RightLengths(w.visits) {
      CompleteMeans(w.visits, TakeAll(Found(NO_OPTIONS, {}), Seen(w.visits)).value);
    }
    hide ValueOf, TakeAll, Seen, RightLengths, FromU16, FromU32, Complete;
  }

  lemma CompleteMeans(visits: seq<Visit>, g: Found)
    requires Recovered(Found(NO_OPTIONS, {}), visits, g)
    ensures var mac := ValueOf(visits, OPTION_HMAC);
            Complete(g) <==>
              && ValueOf(visits, OPTION_SECURITY_MODE).Some? && ValueOf(visits, OPTION_SENDER_ID).Some?
              && ValueOf(visits, OPTION_MFG_CODE).Some? && ValueOf(visits, OPTION_SESSION_ID).Some?
              && ValueOf(visits, OPTION_SEQ_NUM).Some? && mac.Some?
              && if g.options.mode == 0x00 then |mac.value| == 32
                 else (g.options.mode == 0x01 || g.options.mode == 0xFF) && |mac.value| == 0
  {
    hide ValueOf, FromU16, FromU32;
    assert REQUIRED <= g.numbers <==> forall n :: n in REQUIRED ==> n in g.numbers;
    assert OPTION_SECURITY_MODE in REQUIRED && OPTION_SENDER_ID in REQUIRED && OPTION_MFG_CODE in REQUIRED;
    assert OPTION_SESSION_ID in REQUIRED && OPTION_SEQ_NUM in REQUIRED && OPTION_HMAC in REQUIRED;
  }

  // ---------------------------------------------------------------------- URI

  /** The values of the Uri-Path options, as far as the first option with a higher number. */
  function PathValues(visits: seq<Visit>): seq<seq<byte>>
    decreases |visits|
  {
    if visits == [] || visits[0].number > OPTION_URI_PATH then []
    else (if visits[0].number == OPTION_URI_PATH then [visits[0].value] else []) + PathValues(visits[1..])
  }

  predicate GoesBeyondPath(visits: seq<Visit>) {
    exists k :: 0 <= k < |visits| && visits[k].number > OPTION_URI_PATH
  }

  /** The path that segments make; a lone slash without any. */
  function RootedPath(segs: seq<seq<byte>>): seq<byte> {
    if segs == [] then [SLASH] else Path(segs)
  }

  /** What segments add to a URI under construction. */
  function Added(segs: seq<seq<byte>>, first: bool): seq<byte> {
    if segs == [] then [] else if first then segs[0] + Path(segs[1..]) else Path(segs)
  }

  lemma AddedUnfolds(seg: seq<byte>, rest: seq<seq<byte>>, first: bool, uri: seq<byte>)
    ensures uri + Added([seg] + rest, first) == (if first then uri else uri + [SLASH]) + seg + Added(rest, false)
  {
    var segs := [seg] + rest;
    assert segs[0] == seg && segs[1..] == rest;
    assert Path(segs) == [SLASH] + seg + Path(rest);
    assert Added(rest, false) == Path(rest);
    hide Path;
    if first {
      assert uri + (seg + Path(rest)) == uri + seg + Path(rest);
    } else {
      assert uri + ([SLASH] + seg + Path(rest)) == uri + [SLASH] + seg + Path(rest);
    }
  }

  lemma {:induction false} ScanMeans(visits: seq<Visit>, uri: seq<byte>, first: bool, capacity: nat)
    requires |uri| <= capacity
    ensures var full := uri + Added(PathValues(visits), first);
            ScanUri(Seen(visits), uri, first, capacity)
            == if |full| > capacity then NoRoom else if GoesBeyondPath(visits) then Settled(full) else Growing(full)
    decreases |visits|
  {
    hide Added, Path;
    if visits == [] {
      assert Added([], first) == [] && uri + [] == uri by {
        AddedNothing(first);
      }
    } else {
      var v, rest := visits[0], visits[1..];
      assert visits == [v] + rest;
      SeenFirst(v, rest);
      hide Seen;
      ScanFirst(Opt(v.number, v.value), Seen(rest), uri, first, capacity);
      assert GoesBeyondPath(visits) <==> v.number > OPTION_URI_PATH || GoesBeyondPath(rest) by {
        assert forall k :: 0 <= k < |rest| ==> rest[k] == visits[k + 1];
        assert visits[0] == v;
        if GoesBeyondPath(rest) {
          var k :| 0 <= k < |rest| && rest[k].number > OPTION_URI_PATH;
          assert visits[k + 1].number > OPTION_URI_PATH;
        }
      }
      hide GoesBeyondPath, ScanUri;
      if v.number == OPTION_URI_PATH {
        var joined := if first then uri else uri + [SLASH];
        AddedUnfolds(v.value, PathValues(rest), first, uri);
        if |joined| + |v.value| <= capacity {
          ScanMeans(rest, joined + v.value, false, capacity);
        }
      } else if v.number > OPTION_URI_PATH {
        AddedNothing(first);
        assert uri + [] == uri;
      } else {
        assert [] + PathValues(rest) == PathValues(rest);
        ScanMeans(rest, uri, first, capacity);
      }
    }
  }

  lemma AddedNothing(first: bool)
    ensures Added([], first) == []
  {
  }

  /**
   A URI is rebuilt exactly if there is room for it and its terminator, and the
   walk did not run out of data in it.
   */
  lemma UriIsExact(w: Walk, capacity: nat, uri: seq<byte>)
    requires capacity > 0
    ensures UriOf(w, capacity) == (Success, uri) <==>
            && uri == RootedPath(PathValues(w.visits)) && |uri| < capacity
            && (GoesBeyondPath(w.visits) || w.end.AtMarker? || w.end.AtReserved?)
  {
    hide PathValues, GoesBeyondPath, Seen, ScanUri;
    ScanMeans(w.visits, [SLASH], true, capacity);
    var segs := PathValues(w.visits);
    assert [SLASH] + Added(segs, true) == RootedPath(segs);
  }

  // --------------------------------------------------------------- extraction

  /** A segment is stripped exactly from text that begins with it and a slash. */
  lemma StripMeans(s: seq<byte>, w: seq<byte>)
    requires Plain(w)
    ensures StripSegment(s, w) == if w + [SLASH] <= s then Some(s[|w| + 1..]) else None
  {
    hide FirstSlash;
    var i := FirstSlash(s);
    if w + [SLASH] <= s {
      assert s[|w|] == SLASH;
      assert forall k :: 0 <= k < |w| ==> s[k] == w[k];
      assert i == |w| && s[..i] == w;
    }
    if i >= 0 && s[..i] == w {
      assert s[..i + 1] == w + [SLASH];
    }
  }

  /** Stripping a segment in front of something strips that text and leaves the rest. */
  lemma StripThen(s: seq<byte>, w: seq<byte>, rest: seq<byte>)
    requires Plain(w)
    ensures StripSegment(s, w).Some? && rest <= StripSegment(s, w).value <==> (w + [SLASH]) + rest <= s
  {
    hide StripSegment;
    StripMeans(s, w);
    hide Plain;
    PrefixSplits(w + [SLASH], rest, s);
  }

  /** A URI is of a scope exactly if it begins with "/sig-net/v1/{scope}/". */
  lemma ValidUriMeans(uri: seq<byte>, scope: seq<byte>)
    requires Plain(scope)
    ensures ValidateSigNetURI(uri, scope) <==> Path([PREFIX, VERSION, scope]) + [SLASH] <= uri
  {
    var c := scope + [SLASH];
    var b := (VERSION + [SLASH]) + c;
    var a := (PREFIX + [SLASH]) + b;
    assert Path([PREFIX, VERSION, scope]) + [SLASH] == [SLASH] + a by {
      PathOfThree(PREFIX, VERSION, scope);
      hide Path;
    }
    hide Path, StripSegment;
    if uri != [] && uri[0] == SLASH {
      assert [SLASH] + a <= uri <==> a <= uri[1..] by {
        PrefixSplits([SLASH], a, uri);
        assert [SLASH] <= uri;
      }
      StripThen(uri[1..], PREFIX, b);
      if StripSegment(uri[1..], PREFIX).Some? {
        var x := StripSegment(uri[1..], PREFIX).value;
        StripThen(x, VERSION, c);
        if StripSegment(x, VERSION).Some? {
          StripMeans(StripSegment(x, VERSION).value, scope);
        }
      }
    } else {
      assert ([SLASH] + a)[0] == SLASH;
    }
    hide PREFIX, VERSION, Plain;
  }

  lemma PathOfThree(a: seq<byte>, b: seq<byte>, c: seq<byte>)
    ensures Path([a, b, c]) == [SLASH] + a + ([SLASH] + b + ([SLASH] + c))
  {
    assert [a, b, c][1..] == [b, c] && [b, c][1..] == [c] && [c][1..] == [];
    assert Path([c]) == [SLASH] + c + Path([]);
    assert Path([b, c]) == [SLASH] + b + Path([c]);
  }

  lemma PrefixSplits(a: seq<byte>, b: seq<byte>, s: seq<byte>)
    ensures a + b <= s <==> a <= s && b <= s[if |a| <= |s| then |a| else 0..]
  {
    if a <= s && b <= s[|a|..] {
      assert s == a + s[|a|..] && s[|a|..] == b + s[|a|..][|b|..];
      assert s == a + b + s[|a|..][|b|..];
    }
    if a + b <= s {
      assert s == (a + b) + s[|a| + |b|..];
      assert s == a + (b + s[|a| + |b|..]);
      assert s[|a|..] == b + s[|a| + |b|..];
    }
  }

  /** What a packet's bytes must be for this to be extracted from them. */
  ghost predicate Contains(packet: seq<byte>, token: nat, scope: seq<byte>, capacity: nat, x: Extracted) {
    4 + token <= |packet| &&
    var w := WalkOptions(packet, 4 + token, 0);
    var uri := RootedPath(PathValues(w.visits));
    && GoodOptions(w, x.options)
    && |uri| < capacity && x.uri == CString(uri) && Path([PREFIX, VERSION, scope]) + [SLASH] <= x.uri
    && x.payload == if w.position < |packet| && packet[w.position] == 0xFF then Some(packet[w.position + 1..]) else None
  }

  /** All six options come after the path, so a packet with good options always has its path settled. */
  lemma GoodGoesBeyond(w: Walk, o: Options)
    requires GoodOptions(w, o)
    ensures GoesBeyondPath(w.visits)
  {
    hide FromU16, FromU32;
    var v := LastVisit(w.visits, OPTION_SECURITY_MODE).value;
    assert v in w.visits && v.number > OPTION_URI_PATH;
  }

  /**
   Extraction is exact on every byte string: it yields a URI, options and a
   payload if and only if the packet contains them.
   */
  lemma ExtractIsExact(packet: seq<byte>, token: nat, scope: seq<byte>, capacity: nat, x: Extracted)
    requires Plain(scope) && capacity > 0
    ensures Extract(packet, token, scope, capacity) == Some(x) <==> Contains(packet, token, scope, capacity, x)
  {
    hide ValidateSigNetURI, OptionsOf, UriOf, CString, GoodOptions, PathValues, WalkOptions, Path;
    if |packet| >= 4 + token {
      var w := WalkOptions(packet, 4 + token, 0);
      var uri := RootedPath(PathValues(w.visits));
      UriIsExact(w, capacity, uri);
      UriIsExact(w, capacity, UriOf(w, capacity).1);
      OptionsAreExact(w, x.options);
      OptionsAreExact(w, OptionsOf(w, NO_OPTIONS).options);
      ValidUriMeans(CString(uri), scope);
      if GoodOptions(w, x.options) {
        GoodGoesBeyond(w, x.options);
      }
      if GoodOptions(w, OptionsOf(w, NO_OPTIONS).options) {
        GoodGoesBeyond(w, OptionsOf(w, NO_OPTIONS).options);
      }
    }
  }
}
