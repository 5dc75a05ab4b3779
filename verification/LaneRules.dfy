/**
 Keys and admitted TIDs for every path, not only those the senders build: the
 substring searches of the receiver come down to which segments the path has.
 */
module LaneRules {
  import opened Bytes
  import opened Freshness
  import opened Lanes
  import opened NodeReceive
  import opened Text
  import opened Tids
  import opened UriPath

  /** The word is a segment of the path, and not the last. */
  ghost predicate Inner(segs: seq<seq<byte>>, w: seq<byte>) {
    exists k :: 0 <= k < |segs| - 1 && segs[k] == w
  }

  /** Some segment of the path begins with the word. */
  ghost predicate Begins(segs: seq<seq<byte>>, w: seq<byte>) {
    exists k :: 0 <= k < |segs| && w <= segs[k]
  }

  lemma HasMeans(segs: seq<seq<byte>>, w: seq<byte>)
    requires AllPlain(segs) && Plain(w)
    ensures Has(Path(segs), Enclosed(w)) <==> Inner(segs, w)
    ensures Has(Path(segs), Leading(w)) <==> Begins(segs, w)
  {
    hide Path, Search;
    SearchEnclosed(segs, w);
    SearchLeading(segs, w);
    var k := FirstSegment(segs, w);
    if k >= 0 {
      assert segs[k] == w && k < |segs| - 1;
    }
  }

  lemma WordsArePlain()
    ensures Plain(POLL) && Plain(MANAGER) && Plain(NODE) && Plain(LEVEL) && Plain(PRIORITY) && Plain(SYNC)
    ensures Plain(TIMECODE) && Plain(PREVIEW) && Plain(AUX)
  {
  }

  /**
   The key of any path: the global manager's if a segment begins with "poll"; else
   the local manager's, the citizens' or the senders' by the first of these words
   that is an inner segment, "sync" only having to begin one; else none.
   */
  lemma KeysBySegments(segs: seq<seq<byte>>)
    requires AllPlain(segs)
    ensures SelectValidationKey(Path(segs))
         == if Begins(segs, Ascii("poll")) then Some(ManagerGlobalKey)
            else if Inner(segs, Ascii("manager")) then Some(ManagerLocalKey)
            else if Inner(segs, Ascii("node")) then Some(CitizenKey)
            else if Inner(segs, Ascii("level")) || Inner(segs, Ascii("priority")) || Begins(segs, Ascii("sync"))
                    || Inner(segs, Ascii("timecode")) || Inner(segs, Ascii("preview")) || Inner(segs, Ascii("aux"))
            then Some(SenderKey) else None
  {
    WordsArePlain();
    hide Path, Has, Inner, Begins, Plain, AllPlain;
    HasMeans(segs, POLL);
    HasMeans(segs, MANAGER);
    HasMeans(segs, NODE);
    HasMeans(segs, LEVEL);
    HasMeans(segs, PRIORITY);
    HasMeans(segs, SYNC);
    HasMeans(segs, TIMECODE);
    HasMeans(segs, PREVIEW);
    HasMeans(segs, AUX);
  }

  /** The TIDs that any path admits: one lane's own, everything but those in the manager lane, none in the others. */
  lemma TidsBySegments(segs: seq<seq<byte>>, tid: u16)
    requires AllPlain(segs)
    ensures IsTidAllowedForUriLane(Path(segs), tid) <==>
            if Begins(segs, Ascii("poll")) then tid == TID_POLL
            else if Inner(segs, Ascii("manager")) then
              tid !in {TID_LEVEL, TID_PRIORITY, TID_SYNC, TID_TIMECODE, TID_OSC}
            else if Inner(segs, Ascii("node")) then false
            else if Inner(segs, Ascii("level")) then tid == TID_LEVEL
            else if Inner(segs, Ascii("priority")) then tid == TID_PRIORITY
            else if Begins(segs, Ascii("sync")) then tid == TID_SYNC
            else if Inner(segs, Ascii("timecode")) then tid == TID_TIMECODE
            else if Inner(segs, Ascii("aux")) then tid == TID_OSC
            else false
  {
    WordsArePlain();
    hide Path, Has, Inner, Begins, Plain, AllPlain;
    HasMeans(segs, POLL);
    HasMeans(segs, MANAGER);
    HasMeans(segs, NODE);
    HasMeans(segs, LEVEL);
    HasMeans(segs, PRIORITY);
    HasMeans(segs, SYNC);
    HasMeans(segs, TIMECODE);
    HasMeans(segs, AUX);
  }

  /** One character is the other, as printed in upper case or as its lower-case letter. */
  predicate SameDigit(c: byte, upper: byte) {
    c == upper || (65 <= upper <= 70 && c == upper + 32)
  }

  /**
   A manager URI names a node by its twelve hexadecimal digits in any mixture of
   cases, whatever follows them, and by nothing else.
   */
  lemma NamesInAnyCase(uri: seq<byte>, rest: seq<byte>, tuid: Tuid)
    requires var i := Search(uri, Enclosed(MANAGER));
             i >= 0 && i + |Enclosed(MANAGER)| <= |uri| && uri[i + |Enclosed(MANAGER)|..] == rest
    ensures NamesNode(uri, tuid) <==>
            |rest| >= 12 && forall k :: 0 <= k < 12 ==> SameDigit(rest[k], ToHex(tuid)[k])
  {
    hide Search, ToHex;
    PrintedDigits(tuid);
    if |rest| >= 12 {
      forall k | 0 <= k < 12
        ensures rest[k] != SLASH && ToUpper(rest[k]) == ToHex(tuid)[k] <==> SameDigit(rest[k], ToHex(tuid)[k])
      {
      }
    }
    hide ToUpper, SameDigit;
  }

  lemma PrintedDigits(tuid: Tuid)
    ensures forall k :: 0 <= k < 12 ==> 48 <= ToHex(tuid)[k] <= 57 || 65 <= ToHex(tuid)[k] <= 70
  {
  }
}
