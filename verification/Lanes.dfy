/**
 The receiver's reading of a URI: is it ours, which key signs it, which
 universe or endpoint does it name, and which TIDs does its lane admit. The
 lanes are found by substring search, so a scope can collide with them; the
 theorems say exactly which scopes do.
 */
module Lanes {
  import opened Bytes
  import opened Freshness
  import opened Tids
  import opened Text
  import opened UriPath

  datatype Role = ManagerGlobalKey | ManagerLocalKey | CitizenKey | SenderKey

  predicate Has(uri: seq<byte>, pattern: seq<byte>) {
    Search(uri, pattern) >= 0
  }

  /** The role whose key must have signed a packet to this URI. */
  function SelectValidationKey(uri: seq<byte>): Option<Role> {
    if Has(uri, Leading(POLL)) then Some(ManagerGlobalKey)
    else if Has(uri, Enclosed(MANAGER)) then Some(ManagerLocalKey)
    else if Has(uri, Enclosed(NODE)) then Some(CitizenKey)
    else if Has(uri, Enclosed(LEVEL)) || Has(uri, Enclosed(PRIORITY)) || Has(uri, Leading(SYNC))
         || Has(uri, Enclosed(TIMECODE)) || Has(uri, Enclosed(PREVIEW)) || Has(uri, Enclosed(AUX)) then Some(SenderKey)
    else None
  }

  /** Whether a TID may appear in a packet to this URI. */
  predicate IsTidAllowedForUriLane(uri: seq<byte>, tid: u16) {
    if Has(uri, Leading(POLL)) then tid == TID_POLL
    else if Has(uri, Enclosed(MANAGER)) then
      tid != TID_LEVEL && tid != TID_PRIORITY && tid != TID_SYNC && tid != TID_TIMECODE && tid != TID_OSC
    else if Has(uri, Enclosed(NODE)) then false
    else if Has(uri, Enclosed(LEVEL)) then tid == TID_LEVEL
    else if Has(uri, Enclosed(PRIORITY)) then tid == TID_PRIORITY
    else if Has(uri, Leading(SYNC)) then tid == TID_SYNC
    else if Has(uri, Enclosed(TIMECODE)) then tid == TID_TIMECODE
    else if Has(uri, Enclosed(AUX)) then tid == TID_OSC
    else false
  }

  /** The universe named by what follows the first "/level/". */
  function UniverseOf(uri: seq<byte>): Option<nat> {
    var i := Search(uri, Enclosed(LEVEL));
    if i < 0 then None
    else
      match ParseDecimal(uri[i + |Enclosed(LEVEL)|..], MAX_UNIVERSE)
      case Some(u) => if u >= MIN_UNIVERSE then Some(u) else None
      case None => None
  }

  /** One more digit, and what it means for the whole number. */
  lemma NextDigit(digits: seq<byte>, k: nat)
    requires k < |digits| && AllDigits(digits[..k]) && IsDigit(digits[k])
    ensures AllDigits(digits[..k + 1])
    ensures DecimalValue(digits[..k + 1]) == 10 * DecimalValue(digits[..k]) + (digits[k] - CHAR_0)
    ensures AllDigits(digits) ==> DecimalValue(digits[..k + 1]) <= DecimalValue(digits)
  {
    var next := digits[..k + 1];
    assert next[..|next| - 1] == digits[..k] && next[|next| - 1] == digits[k];
    assert AllDigits(next);
    if AllDigits(digits) {
      hide DecimalValue;
      DecimalPrefixLess(digits, k + 1);
    }
  }

  method ParseUniverseFromURI(uri: seq<byte>) returns (ok: bool, universe: nat)
    ensures UniverseOf(uri) == if ok then Some(universe) else None
  {
    universe := 0;
    var i := Search(uri, Enclosed(LEVEL));
    if i < 0 {
      return false, universe;
    }
    var digits := uri[i + |Enclosed(LEVEL)|..];
    if digits == [] {
      return false, universe;
    }
    var parsed: nat := 0;
    var k := 0;
    while k < |digits|
      invariant 0 <= k <= |digits|
      invariant AllDigits(digits[..k]) && parsed == DecimalValue(digits[..k])
    {
      if !IsDigit(digits[k]) {
        return false, universe;
      }
      NextDigit(digits, k);
      parsed := 10 * parsed + (digits[k] - CHAR_0);
      k := k + 1;
    }
    assert digits[..k] == digits;
    if parsed < MIN_UNIVERSE || parsed > MAX_UNIVERSE {
      return false, universe;
    }
    return true, parsed;
  }

  /** strrchr: where the last slash is, or -1. */
  function LastSlash(s: seq<byte>): (r: int)
    ensures -1 <= r < |s|
    ensures r >= 0 ==> s[r] == SLASH
    ensures forall i :: r < i < |s| ==> s[i] != SLASH
  {
    if s == [] then -1 else if s[|s| - 1] == SLASH then |s| - 1 else LastSlash(s[..|s| - 1])
  }

  /** The endpoint named by the last segment of a node or manager URI. */
  function EndpointOf(uri: seq<byte>): Option<nat> {
    if !Has(uri, Enclosed(NODE)) && !Has(uri, Enclosed(MANAGER)) then None
    else
      var i := LastSlash(uri);
      if i < 0 then None else ParseDecimal(uri[i + 1..], WRAP16 - 1)
  }

  method TryParseTargetUriEndpoint(uri: seq<byte>) returns (ok: bool, endpoint: nat)
    ensures EndpointOf(uri) == if ok then Some(endpoint) else None
  {
    hide Search, LastSlash;
    endpoint := 0;
    if !Has(uri, Enclosed(NODE)) && !Has(uri, Enclosed(MANAGER)) {
      return false, endpoint;
    }
    var i := LastSlash(uri);
    if i < 0 || i + 1 == |uri| {
      return false, endpoint;
    }
    var digits := uri[i + 1..];
    var parsed: nat := 0;
    var k := 0;
    while k < |digits|
      invariant 0 <= k <= |digits|
      invariant AllDigits(digits[..k]) && parsed == DecimalValue(digits[..k]) && parsed < WRAP16
    {
      if !IsDigit(digits[k]) {
        return false, endpoint;
      }
      NextDigit(digits, k);
      parsed := 10 * parsed + (digits[k] - CHAR_0);
      if parsed >= WRAP16 {
        return false, endpoint;
      }
      k := k + 1;
    }
    assert digits[..k] == digits;
    return true, parsed;
  }

  // --------------------------------------------------------------- validation

  /** strchr: where the first slash is, or -1. */
  function FirstSlash(s: seq<byte>): (r: int)
    ensures -1 <= r < |s|
    ensures r >= 0 ==> s[r] == SLASH
    ensures forall i :: 0 <= i < (if r >= 0 then r else |s|) ==> s[i] != SLASH
  {
    if s == [] then -1
    else if s[0] == SLASH then 0
    else
      var r := FirstSlash(s[1..]);
      if r < 0 then -1 else r + 1
  }

  /** What follows the segment `w` and its closing slash. */
  function StripSegment(s: seq<byte>, w: seq<byte>): Option<seq<byte>> {
    var i := FirstSlash(s);
    if i >= 0 && s[..i] == w then Some(s[i + 1..]) else None
  }

  /** A URI with the fixed prefix and version, the configured scope, and something after it. */
  predicate ValidateSigNetURI(uri: seq<byte>, scope: seq<byte>) {
    && uri != [] && uri[0] == SLASH
    && var afterPrefix := StripSegment(uri[1..], PREFIX);
       && afterPrefix.Some?
       && var afterVersion := StripSegment(afterPrefix.value, VERSION);
          && afterVersion.Some?
          && StripSegment(afterVersion.value, scope).Some?
  }

  /** A segment is stripped from in front of a slash, and from nothing else. */
  lemma StripHead(head: seq<byte>, rest: seq<byte>, w: seq<byte>)
    requires Plain(head) && (rest != [] ==> rest[0] == SLASH)
    ensures StripSegment(head + rest, w) == if rest != [] && head == w then Some(rest[1..]) else None
  {
    hide FirstSlash;
    var t, n := head + rest, |head|;
    assert forall j :: 0 <= j < n ==> t[j] == head[j];
    assert t[..n] == head && t[n..] == rest;
    if rest != [] {
      assert t[n] == SLASH;
      assert FirstSlash(t) == n;
      assert t[n + 1..] == rest[1..];
    }
  }

  lemma StripFromPath(segs: seq<seq<byte>>, w: seq<byte>)
    requires AllPlain(segs) && segs != []
    ensures Path(segs) != []
    ensures StripSegment(Path(segs)[1..], w) == if |segs| > 1 && segs[0] == w then Some(Path(segs[1..])[1..]) else None
  {
    hide Path, StripSegment, FirstSlash;
    PathFirst(segs);
    StripAfterSlash(Path(segs), segs[0], Path(segs[1..]), w);
  }

  lemma StripAfterSlash(s: seq<byte>, head: seq<byte>, rest: seq<byte>, w: seq<byte>)
    requires s == [SLASH] + head + rest && Plain(head) && (rest != [] ==> rest[0] == SLASH)
    ensures StripSegment(s[1..], w) == if rest != [] && head == w then Some(rest[1..]) else None
  {
    assert s[1..] == head + rest;
    StripHead(head, rest, w);
  }

  /** What follows a path's first slash, stripped of two segments. */
  lemma StripTwo(segs: seq<seq<byte>>, v: seq<byte>, w: seq<byte>)
    requires AllPlain(segs) && segs != []
    ensures Path(segs) != []
    ensures var x := StripSegment(Path(segs)[1..], v);
            var y := if x.Some? then StripSegment(x.value, w) else None;
            y == if |segs| > 2 && segs[0] == v && segs[1] == w then Some(Path(segs[2..])[1..]) else None
  {
    hide Path, StripSegment;
    StripFromPath(segs, v);
    if |segs| > 1 {
      StripFromPath(segs[1..], w);
      assert segs[1..][1..] == segs[2..];
    }
  }

  /** A path is valid exactly when it is /sig-net/v1/{scope}/ and at least one more segment. */
  lemma ValidPaths(segs: seq<seq<byte>>, scope: seq<byte>)
    requires AllPlain(segs)
    ensures ValidateSigNetURI(Path(segs), scope) <==>
            |segs| >= 4 && segs[0] == PREFIX && segs[1] == VERSION && segs[2] == scope
  {
    if segs != [] {
      FirstIsSlash(segs);
      hide StripSegment, Path;
      StripTwo(segs, PREFIX, VERSION);
      if |segs| > 2 {
        StripFromPath(segs[2..], scope);
      }
    }
  }

  lemma FirstIsSlash(segs: seq<seq<byte>>)
    requires segs != []
    ensures Path(segs) != [] && Path(segs)[0] == SLASH
  {
  }

  // -------------------------------------------------------------------- lanes

  /** "/sig-net/v1/{scope}/level/{universe}" */
  function LevelSegments(scope: seq<byte>, universe: nat): seq<seq<byte>> {
    [PREFIX, VERSION, scope, LEVEL, Decimal(universe)]
  }

  /** "/sig-net/v1/{scope}/node/{tuid}/{endpoint}" */
  function NodeSegments(scope: seq<byte>, tuid: Tuid, endpoint: nat): seq<seq<byte>> {
    [PREFIX, VERSION, scope, NODE, ToHex(tuid), Decimal(endpoint)]
  }

  /** "/sig-net/v1/{scope}/manager/{tuid}/{endpoint}" */
  function ManagerSegments(scope: seq<byte>, tuid: Tuid, endpoint: nat): seq<seq<byte>> {
    [PREFIX, VERSION, scope, MANAGER, ToHex(tuid), Decimal(endpoint)]
  }

  /** "/sig-net/v1/{scope}/poll" */
  function PollSegments(scope: seq<byte>): seq<seq<byte>> {
    [PREFIX, VERSION, scope, POLL]
  }

  lemma DigitsArePlain(s: seq<byte>)
    requires AllDigits(s)
    ensures Plain(s)
  {
  }

  lemma SegmentsArePlain(scope: seq<byte>, universe: nat, tuid: Tuid)
    requires ValidScope(scope)
    ensures AllPlain(LevelSegments(scope, universe))
    ensures AllPlain(NodeSegments(scope, tuid, universe))
    ensures AllPlain(PollSegments(scope))
    ensures AllPlain(ManagerSegments(scope, tuid, universe))
    ensures Plain(LEVEL) && Plain(POLL) && Plain(MANAGER) && Plain(NODE)
  {
    DigitsArePlain(Decimal(universe));
    ScopeIsPlain(scope);
  }

  /** The fixed words differ, and only "poll" begins with "poll". */
  lemma WordsDiffer()
    ensures !(POLL <= PREFIX) && !(POLL <= VERSION) && !(POLL <= LEVEL) && !(POLL <= NODE) && !(POLL <= MANAGER)
    ensures PREFIX != MANAGER && VERSION != MANAGER && LEVEL != MANAGER && NODE != MANAGER && POLL != MANAGER
    ensures PREFIX != NODE && VERSION != NODE && LEVEL != NODE
    ensures PREFIX != LEVEL && VERSION != LEVEL
  {
    assert POLL[0] == 112 && PREFIX[0] == 115 && VERSION[0] == 118 &&
           LEVEL[0] == 108 && NODE[0] == 110 && MANAGER[0] == 109;
    assert |PREFIX| == 7 && |VERSION| == 2 && |LEVEL| == 5 && |NODE| == 4 && |POLL| == 4 && |MANAGER| == 7;
  }

  /** A scope that the substring search takes for one of the control lanes. */
  predicate Collides(scope: seq<byte>) {
    POLL <= scope || scope == MANAGER
  }

  lemma LevelSearches(scope: seq<byte>, universe: nat)
    requires ValidScope(scope)
    ensures var uri := Path(LevelSegments(scope, universe));
            && (Has(uri, Leading(POLL)) <==> POLL <= scope)
            && (Has(uri, Enclosed(MANAGER)) <==> scope == MANAGER)
            && (Has(uri, Enclosed(NODE)) <==> scope == NODE)
            && Has(uri, Enclosed(LEVEL))
  {
    hide Path, Search, FirstSegment;
    var segs := LevelSegments(scope, universe);
    SegmentsArePlain(scope, universe, NO_TUID);
    WordsDiffer();
    SearchLeading(segs, POLL);
    SearchEnclosed(segs, MANAGER);
    SearchEnclosed(segs, NODE);
    SearchEnclosed(segs, LEVEL);
    assert Decimal(universe)[0] != POLL[0];
    assert segs[2] == scope && segs[3] == LEVEL;
  }

  /**
   A level packet is checked with the sender key, and its TID admitted, exactly
   when its scope does not begin with "poll" and is neither "manager" nor "node".
   */
  lemma LevelLane(scope: seq<byte>, universe: nat)
    requires ValidScope(scope)
    ensures var uri := Path(LevelSegments(scope, universe));
            && (SelectValidationKey(uri) == Some(SenderKey) <==> !Collides(scope) && scope != NODE)
            && (IsTidAllowedForUriLane(uri, TID_LEVEL) <==> !Collides(scope) && scope != NODE)
  {
    hide Path, Search;
    LevelSearches(scope, universe);
  }

  /** The universe of a level packet is recovered exactly when the scope is not itself "level". */
  lemma UniverseRoundTrip(scope: seq<byte>, universe: nat)
    requires ValidScope(scope) && MIN_UNIVERSE <= universe <= MAX_UNIVERSE
    ensures UniverseOf(Path(LevelSegments(scope, universe))) == Some(universe) <==> scope != LEVEL
  {
    var segs := LevelSegments(scope, universe);
    SegmentsArePlain(scope, universe, NO_TUID);
    WordsDiffer();
    SearchEnclosed(segs, LEVEL);
    var k := FirstSegment(segs, LEVEL);
    assert segs[2] == scope && segs[3] == LEVEL;
    AfterEnclosed(segs, k);
    if scope == LEVEL {
      assert k == 2;
      assert segs[3..] == [LEVEL, Decimal(universe)];
      PathChars(segs[3..]);
      assert Path(segs[3..])[1] == LEVEL[0] && !IsDigit(LEVEL[0]);
      assert Path(segs[3..])[1..][0] == LEVEL[0];
    } else {
      assert k == 3;
      assert segs[4..] == [Decimal(universe)];
      PathChars(segs[4..]);
      assert Path(segs[4..])[1..] == Decimal(universe);
      DecimalRoundTrip(universe);
    }
  }

  /** What follows an enclosed segment of a path is the rest of the path without its slash. */
  lemma AfterEnclosed(segs: seq<seq<byte>>, k: nat)
    requires k + 1 < |segs|
    ensures |Path(segs[..k])| + |Enclosed(segs[k])| <= |Path(segs)|
    ensures Path(segs)[|Path(segs[..k])| + |Enclosed(segs[k])|..] == Path(segs[k + 1..])[1..]
    decreases k
  {
    if k == 0 {
      assert segs[..0] == [];
      assert Path(segs) == [SLASH] + segs[0] + Path(segs[1..]);
    } else {
      AfterEnclosed(segs[1..], k - 1);
      assert segs[..k][1..] == segs[1..][..k - 1] && segs[1..][k..] == segs[k + 1..];
      assert Path(segs) == [SLASH] + segs[0] + Path(segs[1..]);
    }
  }

  lemma NodeSearches(scope: seq<byte>, tuid: Tuid, endpoint: nat)
    requires ValidScope(scope)
    ensures var uri := Path(NodeSegments(scope, tuid, endpoint));
            && (Has(uri, Leading(POLL)) <==> POLL <= scope)
            && (Has(uri, Enclosed(MANAGER)) <==> scope == MANAGER)
            && Has(uri, Enclosed(NODE))
  {
    hide Path, Search, FirstSegment, ToHex;
    var segs := NodeSegments(scope, tuid, endpoint);
    SegmentsArePlain(scope, endpoint, tuid);
    WordsDiffer();
    SearchLeading(segs, POLL);
    SearchEnclosed(segs, MANAGER);
    SearchEnclosed(segs, NODE);
    assert Decimal(endpoint)[0] != POLL[0] && ToHex(tuid)[0] != POLL[0];
    assert ToHex(tuid) != MANAGER;
    assert segs[2] == scope && segs[3] == NODE;
  }

  /** A node's packet is checked with the citizen key exactly when its scope does not collide. */
  lemma NodeLane(scope: seq<byte>, tuid: Tuid, endpoint: nat)
    requires ValidScope(scope)
    ensures SelectValidationKey(Path(NodeSegments(scope, tuid, endpoint))) == Some(CitizenKey) <==> !Collides(scope)
  {
    hide Path, Search;
    NodeSearches(scope, tuid, endpoint);
  }

  lemma ManagerSearches(scope: seq<byte>, tuid: Tuid, endpoint: nat)
    requires ValidScope(scope)
    ensures var segs := ManagerSegments(scope, tuid, endpoint);
            && (Has(Path(segs), Leading(POLL)) <==> POLL <= scope)
            && FirstSegment(segs, MANAGER) == (if scope == MANAGER then 2 else 3)
            && Search(Path(segs), Enclosed(MANAGER)) == |Path(segs[..if scope == MANAGER then 2 else 3])|
  {
    hide Path, Search, ToHex, Decimal;
    var segs := ManagerSegments(scope, tuid, endpoint);
    SegmentsArePlain(scope, endpoint, tuid);
    WordsDiffer();
    SearchLeading(segs, POLL);
    SearchEnclosed(segs, MANAGER);
    TailDiffers(tuid, endpoint);
    assert segs[0] == PREFIX && segs[1] == VERSION && segs[2] == scope && segs[3] == MANAGER;
    assert segs[4] == ToHex(tuid) && segs[5] == Decimal(endpoint);
    hide FirstSegment;
  }

  /** Neither a printed TUID nor a printed number begins with "poll". */
  lemma TailDiffers(tuid: Tuid, endpoint: nat)
    ensures !(POLL <= ToHex(tuid)) && !(POLL <= Decimal(endpoint))
  {
    hide ToHex, Decimal;
    assert Decimal(endpoint)[0] != POLL[0] && ToHex(tuid)[0] != POLL[0];
  }

  /** A command is checked with the local manager key exactly when its scope does not begin with "poll". */
  lemma ManagerLane(scope: seq<byte>, tuid: Tuid, endpoint: nat)
    requires ValidScope(scope)
    ensures SelectValidationKey(Path(ManagerSegments(scope, tuid, endpoint))) == Some(ManagerLocalKey) <==>
            !(POLL <= scope)
  {
    hide Path, Search;
    ManagerSearches(scope, tuid, endpoint);
  }

  /** A command may carry every TID but the data lanes' five, exactly under the same condition. */
  lemma ManagerLaneTids(scope: seq<byte>, tuid: Tuid, endpoint: nat, tid: u16)
    requires ValidScope(scope)
    ensures IsTidAllowedForUriLane(Path(ManagerSegments(scope, tuid, endpoint)), tid) <==>
            if POLL <= scope then tid == TID_POLL
            else tid !in {TID_LEVEL, TID_PRIORITY, TID_SYNC, TID_TIMECODE, TID_OSC}
  {
    hide Path, Search;
    ManagerSearches(scope, tuid, endpoint);
  }

  /** Every 16-bit endpoint is recovered from a command's URI, whatever the scope. */
  lemma ManagerEndpointRoundTrip(scope: seq<byte>, tuid: Tuid, endpoint: u16)
    requires ValidScope(scope)
    ensures EndpointOf(Path(ManagerSegments(scope, tuid, endpoint))) == Some(endpoint)
  {
    hide Search, ToHex, Decimal, Path;
    var segs := ManagerSegments(scope, tuid, endpoint);
    ManagerSearches(scope, tuid, endpoint);
    SegmentsArePlain(scope, endpoint, tuid);
    LastSegment(segs);
    DecimalRoundTrip(endpoint);
  }

  /** What follows the first "/manager/": the TUID and the endpoint, unless the scope is itself "manager". */
  lemma AfterManager(scope: seq<byte>, tuid: Tuid, endpoint: nat)
    requires ValidScope(scope)
    ensures var uri := Path(ManagerSegments(scope, tuid, endpoint));
            var i := Search(uri, Enclosed(MANAGER));
            && i >= 0 && i + |Enclosed(MANAGER)| <= |uri|
            && uri[i + |Enclosed(MANAGER)|..]
               == if scope == MANAGER then MANAGER + [SLASH] + ToHex(tuid) + [SLASH] + Decimal(endpoint)
                  else ToHex(tuid) + [SLASH] + Decimal(endpoint)
  {
    var segs := ManagerSegments(scope, tuid, endpoint);
    ManagerSearches(scope, tuid, endpoint);
    PathTail([ToHex(tuid), Decimal(endpoint)]);
    PathTail([MANAGER, ToHex(tuid), Decimal(endpoint)]);
    hide Path, Search, ToHex, Decimal, FirstSegment;
    if scope == MANAGER {
      AfterEnclosed(segs, 2);
      assert segs[3..] == [MANAGER, ToHex(tuid), Decimal(endpoint)];
    } else {
      AfterEnclosed(segs, 3);
      assert segs[4..] == [ToHex(tuid), Decimal(endpoint)];
    }
  }

  /** A path of two or three segments without its first slash. */
  lemma PathTail(segs: seq<seq<byte>>)
    requires 2 <= |segs| <= 3
    ensures Path(segs) != []
    ensures Path(segs)[1..]
         == if |segs| == 2 then segs[0] + [SLASH] + segs[1] else segs[0] + [SLASH] + segs[1] + [SLASH] + segs[2]
  {
    PathFirst(segs);
    PathFirst(segs[1..]);
    assert segs[1..][1..] == segs[2..];
    if |segs| == 3 {
      PathFirst(segs[2..]);
      assert segs[2..][1..] == [];
    }
    hide Path;
  }

  /** Every 16-bit endpoint is recovered from a node URI, whatever the scope. */
  lemma EndpointRoundTrip(scope: seq<byte>, tuid: Tuid, endpoint: u16)
    requires ValidScope(scope)
    ensures EndpointOf(Path(NodeSegments(scope, tuid, endpoint))) == Some(endpoint)
  {
    hide Search, ToHex, Decimal, Path;
    var segs := NodeSegments(scope, tuid, endpoint);
    NodeSearches(scope, tuid, endpoint);
    SegmentsArePlain(scope, endpoint, tuid);
    LastSegment(segs);
    DecimalRoundTrip(endpoint);
  }

  /** The last slash of a path starts its last segment. */
  lemma {:induction false} LastSegment(segs: seq<seq<byte>>)
    requires AllPlain(segs) && segs != []
    ensures var i := LastSlash(Path(segs)); i >= 0 && Path(segs)[i + 1..] == segs[|segs| - 1]
    decreases |segs|
  {
    hide LastSlash, Path;
    var s, rest, n := Path(segs), Path(segs[1..]), 1 + |segs[0]|;
    PathChars(segs);
    if |segs| == 1 {
      LastSlashAt(s, 0);
      assert s[1..] == segs[0];
    } else {
      LastSegment(segs[1..]);
      var r := LastSlash(rest);
      assert forall i {:trigger s[i]} :: n <= i < |s| ==> s[i] == s[n..][i - n];
      LastSlashAt(s, n + r);
      assert s[n + r + 1..] == rest[r + 1..];
    }
  }

  lemma LastSlashAt(s: seq<byte>, i: nat)
    requires i < |s| && s[i] == SLASH && forall j {:trigger s[j]} :: i < j < |s| ==> s[j] != SLASH
    ensures LastSlash(s) == i
  {
    hide LastSlash;
  }

  /** Every poll is checked with the global manager key, and its TID admitted, whatever the scope. */
  lemma PollLane(scope: seq<byte>)
    requires ValidScope(scope)
    ensures SelectValidationKey(Path(PollSegments(scope))) == Some(ManagerGlobalKey)
    ensures IsTidAllowedForUriLane(Path(PollSegments(scope)), TID_POLL)
  {
    hide Path, Search;
    var segs := PollSegments(scope);
    SegmentsArePlain(scope, 1, NO_TUID);
    SearchLeading(segs, POLL);
    assert POLL <= segs[3];
  }

  /**
   Outside colliding scopes each lane carries its own TIDs and no others; what
   comes under a node's URI carries none.
   */
  lemma LanesCarryTheirOwn(scope: seq<byte>, tuid: Tuid, number: nat, tid: u16)
    requires ValidScope(scope) && !Collides(scope) && scope != NODE
    ensures IsTidAllowedForUriLane(Path(PollSegments(scope)), tid) <==> tid == TID_POLL
    ensures IsTidAllowedForUriLane(Path(LevelSegments(scope, number)), tid) <==> tid == TID_LEVEL
    ensures !IsTidAllowedForUriLane(Path(NodeSegments(scope, tuid, number)), tid)
    ensures IsTidAllowedForUriLane(Path(ManagerSegments(scope, tuid, number)), tid) <==>
            tid !in {TID_LEVEL, TID_PRIORITY, TID_SYNC, TID_TIMECODE, TID_OSC}
  {
    hide Path, Search;
    var segs := PollSegments(scope);
    SegmentsArePlain(scope, 1, NO_TUID);
    SearchLeading(segs, POLL);
    assert POLL <= segs[3];
    LevelSearches(scope, number);
    NodeSearches(scope, tuid, number);
    ManagerSearches(scope, tuid, number);
  }
}
