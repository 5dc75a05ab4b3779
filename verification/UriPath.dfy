/**
 Sig-Net URIs as lists of path segments, and the receiver's view of the same
 URIs, which finds its way by substring search: the validation of the fixed
 segments, the universe and endpoint parsers, the choice of the validation key
 and the lanes on which each TID is accepted.
 */
module UriPath {
  import opened Bytes
  import opened Text

  const SLASH: byte := 47
  const PREFIX: seq<byte> := Ascii("sig-net")
  const VERSION: seq<byte> := Ascii("v1")
  const LEVEL: seq<byte> := Ascii("level")
  const PRIORITY: seq<byte> := Ascii("priority")
  const SYNC: seq<byte> := Ascii("sync")
  const TIMECODE: seq<byte> := Ascii("timecode")
  const PREVIEW: seq<byte> := Ascii("preview")
  const AUX: seq<byte> := Ascii("aux")
  const NODE: seq<byte> := Ascii("node")
  const MANAGER: seq<byte> := Ascii("manager")
  const POLL: seq<byte> := Ascii("poll")

  const MIN_UNIVERSE: nat := 1
  const MAX_UNIVERSE: nat := 63999
  const SCOPE_MAX_LENGTH: nat := 32

  /** A path segment as it can occur between slashes of a C string. */
  predicate Plain(s: seq<byte>) {
    forall i :: 0 <= i < |s| ==> s[i] != SLASH && s[i] != 0
  }

  predicate AllPlain(segs: seq<seq<byte>>) {
    forall i :: 0 <= i < |segs| ==> Plain(segs[i])
  }

  predicate Unreserved(c: byte) {
    65 <= c <= 90 || 97 <= c <= 122 || IsDigit(c) || c == 45 || c == 46 || c == 95 || c == 126
  }

  /** The scopes the configuration accepts. */
  predicate ValidScope(scope: seq<byte>) {
    1 <= |scope| <= SCOPE_MAX_LENGTH && forall i :: 0 <= i < |scope| ==> Unreserved(scope[i])
  }

  lemma ScopeIsPlain(scope: seq<byte>)
    requires ValidScope(scope)
    ensures Plain(scope)
  {
  }

  /** "/a/b/c" for the segments a, b, c. */
  function Path(segs: seq<seq<byte>>): seq<byte> {
    if segs == [] then [] else [SLASH] + segs[0] + Path(segs[1..])
  }

  /** A path begins with a slash and its first segment; what follows is again a path. */
  lemma PathFirst(segs: seq<seq<byte>>)
    requires segs != []
    ensures Path(segs) == [SLASH] + segs[0] + Path(segs[1..])
    ensures |segs| > 1 ==> Path(segs[1..]) != [] && Path(segs[1..])[0] == SLASH
    ensures |segs| == 1 ==> Path(segs[1..]) == []
  {
  }

  lemma {:induction false} PathIsCString(segs: seq<seq<byte>>)
    requires AllPlain(segs)
    ensures 0 !in Path(segs)
  {
    if segs != [] {
      PathIsCString(segs[1..]);
    }
  }

  // --------------------------------------------------------- substring search

  predicate OccursAt(s: seq<byte>, pattern: seq<byte>, i: int) {
    0 <= i && i + |pattern| <= |s| && s[i..i + |pattern|] == pattern
  }

  lemma OccursInTail(s: seq<byte>, pattern: seq<byte>)
    requires s != []
    ensures forall i :: 1 <= i ==> OccursAt(s, pattern, i) == OccursAt(s[1..], pattern, i - 1)
  {
    forall i | 1 <= i
      ensures OccursAt(s, pattern, i) == OccursAt(s[1..], pattern, i - 1)
    {
      if i + |pattern| <= |s| {
        assert s[i..i + |pattern|] == s[1..][i - 1..i - 1 + |pattern|];
      }
    }
  }

  /** strstr: the first place `pattern` occurs, or -1. */
  function Search(s: seq<byte>, pattern: seq<byte>): (r: int)
    ensures -1 <= r <= |s|
    ensures r >= 0 ==> OccursAt(s, pattern, r)
    ensures forall i :: 0 <= i && (r >= 0 ==> i < r) ==> !OccursAt(s, pattern, i)
  {
    if pattern <= s then assert s[0..|pattern|] == pattern; 0
    else if s == [] then -1
    else
      var rest := Search(s[1..], pattern);
      OccursInTail(s, pattern);
      assert !OccursAt(s, pattern, 0);
      if rest < 0 then -1 else rest + 1
  }

  /** The segment `w` between slashes, as the receiver searches for it. */
  function Enclosed(w: seq<byte>): seq<byte> {
    [SLASH] + w + [SLASH]
  }

  function Leading(w: seq<byte>): seq<byte> {
    [SLASH] + w
  }

  /** The characters of a path: a slash, the first segment, and what follows, which begins with a slash. */
  lemma PathChars(segs: seq<seq<byte>>)
    requires segs != [] && Plain(segs[0])
    ensures var s, n, rest := Path(segs), |segs[0]|, Path(segs[1..]);
            && |s| == 1 + n + |rest| && s[0] == SLASH && s[1 + n..] == rest
            && (forall j {:trigger s[j]} :: 1 <= j <= n ==> s[j] == segs[0][j - 1] && s[j] != SLASH)
            && (|segs| > 1 ==> |s| > 1 + n && s[1 + n] == SLASH)
            && (|segs| == 1 ==> |s| == 1 + n)
  {
    var s, rest := Path(segs), Path(segs[1..]);
    assert s == [SLASH] + segs[0] + rest;
  }

  /** An occurrence is an agreement character by character. */
  lemma OccursChars(s: seq<byte>, pattern: seq<byte>, i: nat)
    ensures OccursAt(s, pattern, i) <==>
            i + |pattern| <= |s| && forall k {:trigger pattern[k]} :: 0 <= k < |pattern| ==> s[i + k] == pattern[k]
  {
    if i + |pattern| <= |s| {
      assert forall k {:trigger pattern[k]} :: 0 <= k < |pattern| ==> s[i..i + |pattern|][k] == s[i + k];
    }
  }

  /** Within a path, a pattern that starts with a slash occurs at the front, or in what follows the first segment. */
  lemma OccurrenceInPath(segs: seq<seq<byte>>, pattern: seq<byte>, i: int)
    requires segs != [] && Plain(segs[0]) && pattern != [] && pattern[0] == SLASH && i != 0
    ensures OccursAt(Path(segs), pattern, i) == OccursAt(Path(segs[1..]), pattern, i - 1 - |segs[0]|)
  {
    hide Path;
    var s, rest, n := Path(segs), Path(segs[1..]), 1 + |segs[0]|;
    PathChars(segs);
    if i > 0 {
      OccursChars(s, pattern, i);
      if i >= n {
        OccursChars(rest, pattern, i - n);
        assert forall k {:trigger pattern[k]} :: 0 <= k < |pattern| && i + k < |s| ==> s[i + k] == s[n..][i - n + k];
      }
    }
  }

  /** At the front of a path, a leading word occurs exactly when the first segment begins with it. */
  lemma LeadingAtFront(segs: seq<seq<byte>>, w: seq<byte>)
    requires segs != [] && Plain(segs[0]) && Plain(w)
    ensures OccursAt(Path(segs), Leading(w), 0) <==> w <= segs[0]
  {
    hide Path, OccursAt;
    var s, n, p := Path(segs), |segs[0]|, Leading(w);
    PathChars(segs);
    OccursChars(s, p, 0);
    assert forall k {:trigger w[k]} :: 0 <= k < |w| ==> p[1 + k] == w[k] && p[1 + k] != SLASH;
    var next := if 1 + n < |p| then p[1 + n] else SLASH;
    if w <= segs[0] {
      assert forall k {:trigger p[k]} :: 0 <= k < |p| ==> p[k] == if k == 0 then SLASH else w[k - 1];
    }
  }

  /** At the front of a path, an enclosed word occurs exactly when it is the first segment and another follows. */
  lemma EnclosedAtFront(segs: seq<seq<byte>>, w: seq<byte>)
    requires segs != [] && Plain(segs[0]) && Plain(w)
    ensures OccursAt(Path(segs), Enclosed(w), 0) <==> |segs| > 1 && segs[0] == w
  {
    hide Path;
    var s, n, p := Path(segs), |segs[0]|, Enclosed(w);
    PathChars(segs);
    LeadingAtFront(segs, w);
    OccursChars(s, p, 0);
    OccursChars(s, Leading(w), 0);
    assert p[1 + |w|] == SLASH;
    assert forall k {:trigger Leading(w)[k]} :: 0 <= k < |Leading(w)| ==> p[k] == Leading(w)[k];
    assert forall k {:trigger p[k]} :: 0 <= k <= |w| ==> p[k] == Leading(w)[k];
  }

  /** The first segment, other than the last, that is `w`. */
  function FirstSegment(segs: seq<seq<byte>>, w: seq<byte>): (r: int)
    ensures -1 <= r < |segs|
    ensures r >= 0 ==> r + 1 < |segs| && segs[r] == w
    ensures forall k :: 0 <= k && k + 1 < (if r >= 0 then r + 1 else |segs|) ==> segs[k] != w
  {
    if |segs| <= 1 then -1
    else if segs[0] == w then 0
    else
      var r := FirstSegment(segs[1..], w);
      assert forall k :: 1 <= k < |segs| ==> segs[k] == segs[1..][k - 1];
      if r < 0 then -1 else r + 1
  }

  /** Searching for an enclosed word finds the first segment that is that word, and only segments. */
  lemma {:induction false} SearchEnclosed(segs: seq<seq<byte>>, w: seq<byte>)
    requires AllPlain(segs) && Plain(w)
    ensures var k := FirstSegment(segs, w);
            Search(Path(segs), Enclosed(w)) == if k < 0 then -1 else |Path(segs[..k])|
    decreases |segs|
  {
    var s, p := Path(segs), Enclosed(w);
    if segs == [] {
      assert !OccursAt(s, p, Search(s, p));
    } else {
      EnclosedAtFront(segs, w);
      if |segs| > 1 && segs[0] == w {
        assert OccursAt(s, p, 0);
        assert segs[..0] == [];
      } else {
        var rest := Path(segs[1..]);
        SearchEnclosed(segs[1..], w);
        SearchRest(segs, p);
        var k := FirstSegment(segs, w);
        assert FirstSegment(segs[1..], w) == if k < 0 then -1 else k - 1;
        if k >= 0 {
          assert segs[..k][1..] == segs[1..][..k - 1] && segs[..k][0] == segs[0];
        }
      }
    }
  }

  /** A search that fails at the front goes on after the first segment. */
  lemma SearchRest(segs: seq<seq<byte>>, pattern: seq<byte>)
    requires segs != [] && Plain(segs[0]) && pattern != [] && pattern[0] == SLASH
    requires !OccursAt(Path(segs), pattern, 0)
    ensures var r := Search(Path(segs[1..]), pattern);
            Search(Path(segs), pattern) == if r < 0 then -1 else r + 1 + |segs[0]|
  {
    hide Path;
    var s, rest := Path(segs), Path(segs[1..]);
    var q, r := Search(s, pattern), Search(rest, pattern);
    if r >= 0 {
      OccurrenceInPath(segs, pattern, r + 1 + |segs[0]|);
    }
    if q >= 0 {
      OccurrenceInPath(segs, pattern, q);
    }
  }

  /** Searching for a leading word succeeds exactly when some segment begins with it. */
  lemma {:induction false} SearchLeading(segs: seq<seq<byte>>, w: seq<byte>)
    requires AllPlain(segs) && Plain(w)
    ensures Search(Path(segs), Leading(w)) >= 0 <==> exists k :: 0 <= k < |segs| && w <= segs[k]
    decreases |segs|
  {
    if segs == [] {
      assert !OccursAt(Path(segs), Leading(w), Search(Path(segs), Leading(w)));
    } else {
      LeadingAtFront(segs, w);
      if w <= segs[0] {
        assert OccursAt(Path(segs), Leading(w), 0);
      } else {
        SearchLeading(segs[1..], w);
        SearchRest(segs, Leading(w));
        assert forall k :: 1 <= k < |segs| ==> segs[k] == segs[1..][k - 1];
      }
    }
  }
}
