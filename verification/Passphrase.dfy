/**
 Passphrase rules, their scans, and the generator that must satisfy them for
 whatever random bytes it is given.
 */
module Passphrase {
  import opened Bytes

  const MIN_LENGTH: nat := 10
  const MAX_LENGTH: nat := 64
  const GENERATED_LENGTH: nat := 10
  const SYMBOLS: string := "!@#$%^&*()-_=+[]{}|;:',.<>?/"
  const GEN_UPPER: string := "ABCDEFGHJKLMNPQRSTUVWXYZ"
  const GEN_LOWER: string := "abcdefghjkmnpqrstuvwxyz"
  const GEN_DIGITS: string := "23456789"
  const GEN_SYMBOLS: string := "!@#$%^&*-_=+"
  const FALLBACK: string := "Abc123!@#$"
  const NUL: char := 0 as char

  datatype Verdict = Valid | TooShort | TooLong | TooFewClasses | IdenticalRun | SequentialRun

  // -------------------------------------------------------------------- rules

  predicate IsUpper(c: char) { 'A' <= c <= 'Z' }

  predicate IsLower(c: char) { 'a' <= c <= 'z' }

  predicate IsDigit(c: char) { '0' <= c <= '9' }

  /** The C library's search also finds the terminating NUL. */
  predicate IsSymbol(c: char) {
    !IsUpper(c) && !IsLower(c) && !IsDigit(c) && (c in SYMBOLS || c == NUL)
  }

  ghost predicate AnyUpper(p: string) { exists i :: 0 <= i < |p| && IsUpper(p[i]) }

  ghost predicate AnyLower(p: string) { exists i :: 0 <= i < |p| && IsLower(p[i]) }

  ghost predicate AnyDigit(p: string) { exists i :: 0 <= i < |p| && IsDigit(p[i]) }

  ghost predicate AnySymbol(p: string) { exists i :: 0 <= i < |p| && IsSymbol(p[i]) }

  function One(b: bool): nat {
    if b then 1 else 0
  }

  ghost function Classes(p: string): nat {
    One(AnyUpper(p)) + One(AnyLower(p)) + One(AnyDigit(p)) + One(AnySymbol(p))
  }

  predicate TripleAt(p: string, i: int) {
    0 <= i < |p| - 2 && p[i] == p[i + 1] && p[i] == p[i + 2]
  }

  predicate RunAt(p: string, i: int) {
    && 0 <= i < |p| - 3
    && var a, b, c, d := p[i] as int, p[i + 1] as int, p[i + 2] as int, p[i + 3] as int;
       || (b == a + 1 && c == a + 2 && d == a + 3)
       || (b == a - 1 && c == a - 2 && d == a - 3)
  }

  ghost predicate HasTriple(p: string) { exists i :: TripleAt(p, i) }

  ghost predicate HasRun(p: string) { exists i :: RunAt(p, i) }

  /** What makes a passphrase acceptable. */
  ghost predicate Acceptable(p: string) {
    MIN_LENGTH <= |p| <= MAX_LENGTH && Classes(p) >= 3 && !HasTriple(p) && !HasRun(p)
  }

  // -------------------------------------------------------------------- scans

  method ScanCharClasses(p: string) returns (upper: bool, lower: bool, digit: bool, symbol: bool)
    ensures upper == AnyUpper(p) && lower == AnyLower(p) && digit == AnyDigit(p) && symbol == AnySymbol(p)
  {
    hide SYMBOLS;
    upper, lower, digit, symbol := false, false, false, false;
    for i := 0 to |p|
      invariant upper == AnyUpper(p[..i]) && lower == AnyLower(p[..i])
      invariant digit == AnyDigit(p[..i]) && symbol == AnySymbol(p[..i])
    {
      Extend(p, i);
      if 'A' <= p[i] <= 'Z' {
        upper := true;
      } else if 'a' <= p[i] <= 'z' {
        lower := true;
      } else if '0' <= p[i] <= '9' {
        digit := true;
      } else if p[i] in SYMBOLS || p[i] == NUL {
        symbol := true;
      }
    }
    assert p[..|p|] == p;
  }

  lemma Extend(p: string, i: nat)
    requires i < |p|
    ensures AnyUpper(p[..i + 1]) == (AnyUpper(p[..i]) || IsUpper(p[i]))
    ensures AnyLower(p[..i + 1]) == (AnyLower(p[..i]) || IsLower(p[i]))
    ensures AnyDigit(p[..i + 1]) == (AnyDigit(p[..i]) || IsDigit(p[i]))
    ensures AnySymbol(p[..i + 1]) == (AnySymbol(p[..i]) || IsSymbol(p[i]))
  {
    hide SYMBOLS, IsUpper, IsLower, IsDigit, IsSymbol;
    var q, r := p[..i], p[..i + 1];
    assert r[i] == p[i] && forall k :: 0 <= k < i ==> r[k] == q[k];
  }

  method HasIdenticalRun(p: string) returns (found: bool)
    ensures found == HasTriple(p)
  {
    if |p| < 3 {
      return false;
    }
    for i := 0 to |p| - 2
      invariant forall k :: 0 <= k < i ==> !TripleAt(p, k)
    {
      if p[i] == p[i + 1] && p[i] == p[i + 2] {
        assert TripleAt(p, i);
        return true;
      }
    }
    return false;
  }

  method HasSequentialRun(p: string) returns (found: bool)
    ensures found == HasRun(p)
  {
    if |p| < 4 {
      return false;
    }
    for i := 0 to |p| - 3
      invariant forall k :: 0 <= k < i ==> !RunAt(p, k)
    {
      var a, b, c, d := p[i] as int, p[i + 1] as int, p[i + 2] as int, p[i + 3] as int;
      if b == a + 1 && c == a + 2 && d == a + 3 {
        assert RunAt(p, i);
        return true;
      }
      if b == a - 1 && c == a - 2 && d == a - 3 {
        assert RunAt(p, i);
        return true;
      }
    }
    return false;
  }

  /** The first rule broken, in this order: identical run, sequential run, classes, length. */
  method AnalysePassphrase(p: string) returns (v: Verdict)
    ensures v == Valid <==> Acceptable(p)
    ensures v == IdenticalRun <==> HasTriple(p)
    ensures v == SequentialRun <==> !HasTriple(p) && HasRun(p)
    ensures v == TooFewClasses <==> p != "" && !HasTriple(p) && !HasRun(p) && Classes(p) < 3
    ensures v == TooLong ==> |p| > MAX_LENGTH
    ensures v == TooShort ==> |p| < MIN_LENGTH
  {
    if |p| == 0 {
      return TooShort;
    }
    hide IsUpper, IsLower, IsDigit, IsSymbol, RunAt, TripleAt;
    var identical := HasIdenticalRun(p);
    var sequential := HasSequentialRun(p);
    var upper, lower, digit, symbol := ScanCharClasses(p);
    if identical {
      return IdenticalRun;
    }
    if sequential {
      return SequentialRun;
    }
    if One(upper) + One(lower) + One(digit) + One(symbol) < 3 {
      return TooFewClasses;
    }
    if |p| < MIN_LENGTH {
      return TooShort;
    }
    if |p| > MAX_LENGTH {
      return TooLong;
    }
    return Valid;
  }

  // ---------------------------------------------------------------- generator

  /** A random character: its class by the byte modulo 4, its place in the class by the byte modulo the class's size. */
  function Draw(b: byte): char {
    if b % 4 == 0 then GEN_UPPER[b % |GEN_UPPER|]
    else if b % 4 == 1 then GEN_LOWER[b % |GEN_LOWER|]
    else if b % 4 == 2 then GEN_DIGITS[b % |GEN_DIGITS|]
    else GEN_SYMBOLS[b % |GEN_SYMBOLS|]
  }

  /** The character after `previous`: a repeated one is replaced by the next lower-case letter. */
  function Place(b: byte, previous: char): char {
    if Draw(b) == previous then GEN_LOWER[(b as int + 1) % |GEN_LOWER|] else Draw(b)
  }

  /** The first `n` characters drawn from the random bytes. */
  function Drawn(random: seq<byte>, n: nat): (s: string)
    requires n <= |random|
    ensures |s| == n
  {
    if n == 0 then ""
    else
      var s := Drawn(random, n - 1);
      s + [if n == 1 then GEN_UPPER[random[0] % |GEN_UPPER|]
           else if n == 2 then GEN_LOWER[random[1] % |GEN_LOWER|]
           else if n == 3 then GEN_DIGITS[random[2] % |GEN_DIGITS|]
           else Place(random[n - 1], s[n - 2])]
  }

  lemma LettersDiffer(b: byte, k: nat)
    requires k == b % |GEN_LOWER|
    ensures GEN_LOWER[(b as int + 1) % |GEN_LOWER|] != GEN_LOWER[k]
  {
    assert (b as int + 1) % 23 == if k == 22 then 0 else k + 1;
    NextLetter(k);
  }

  lemma NextLetter(k: nat)
    requires k < |GEN_LOWER|
    ensures GEN_LOWER[if k == 22 then 0 else k + 1] != GEN_LOWER[k]
  {
  }

  lemma Alphabets(k: nat)
    ensures k < |GEN_UPPER| ==> IsUpper(GEN_UPPER[k])
    ensures k < |GEN_LOWER| ==> IsLower(GEN_LOWER[k])
    ensures k < |GEN_DIGITS| ==> IsDigit(GEN_DIGITS[k])
  {
  }

  lemma SymbolAlphabet(k: nat)
    requires k < |GEN_SYMBOLS|
    ensures !IsLower(GEN_SYMBOLS[k])
  {
  }

  lemma OnlyClassOneIsLower(b: byte)
    requires b % 4 != 1
    ensures !IsLower(Draw(b))
  {
    hide GEN_LOWER;
    if b % 4 == 0 {
      Alphabets(b % |GEN_UPPER|);
    } else if b % 4 == 2 {
      Alphabets(b % |GEN_DIGITS|);
    } else {
      SymbolAlphabet(b % |GEN_SYMBOLS|);
    }
  }

  /** The replacement rule always works, so no two neighbours are ever equal. */
  lemma PlaceDiffers(b: byte, previous: char)
    ensures Place(b, previous) != previous
  {
    var k := b % |GEN_LOWER|;
    Alphabets((b as int + 1) % |GEN_LOWER|);
    if b % 4 == 1 {
      LettersDiffer(b, k);
      hide GEN_UPPER, GEN_LOWER, GEN_SYMBOLS, GEN_DIGITS;
    } else {
      OnlyClassOneIsLower(b);
      hide GEN_UPPER, GEN_LOWER, GEN_SYMBOLS, GEN_DIGITS, Draw, IsLower;
    }
  }

  /** The shape of every draw: one character of each of three classes, then no repeated neighbours. */
  lemma {:induction false} DrawnShape(random: seq<byte>, n: nat)
    requires 3 <= n <= |random|
    ensures var s := Drawn(random, n);
            && IsUpper(s[0]) && IsLower(s[1]) && IsDigit(s[2])
            && forall i :: 0 < i < n ==> s[i] != s[i - 1]
  {
    hide GEN_UPPER, GEN_LOWER, GEN_DIGITS, Place;
    if n == 3 {
      FirstThree(random);
    } else {
      DrawnShape(random, n - 1);
      PlaceDiffers(random[n - 1], Drawn(random, n - 1)[n - 2]);
    }
  }

  lemma FirstThree(random: seq<byte>)
    requires 3 <= |random|
    ensures |GEN_UPPER| == 24 && |GEN_LOWER| == 23 && |GEN_DIGITS| == 8
    ensures Drawn(random, 3) == [GEN_UPPER[random[0] % 24], GEN_LOWER[random[1] % 23], GEN_DIGITS[random[2] % 8]]
    ensures var s := Drawn(random, 3); IsUpper(s[0]) && IsLower(s[1]) && IsDigit(s[2])
  {
    Alphabets(random[0] % 24);
    Alphabets(random[1] % 23);
    Alphabets(random[2] % 8);
    hide IsUpper, IsLower, IsDigit;
    assert Drawn(random, 0) == "";
    assert Drawn(random, 1) == [GEN_UPPER[random[0] % 24]];
    assert Drawn(random, 2) == [GEN_UPPER[random[0] % 24], GEN_LOWER[random[1] % 23]];
  }

  /** A draw breaks at most one rule: it is acceptable exactly when it holds no sequential run. */
  lemma DrawnIsAcceptable(random: seq<byte>)
    requires |random| == GENERATED_LENGTH
    ensures !HasTriple(Drawn(random, GENERATED_LENGTH))
    ensures Acceptable(Drawn(random, GENERATED_LENGTH)) <==> !HasRun(Drawn(random, GENERATED_LENGTH))
  {
    hide IsUpper, IsLower, IsDigit, IsSymbol, RunAt, Drawn;
    var s := Drawn(random, GENERATED_LENGTH);
    DrawnShape(random, GENERATED_LENGTH);
    assert AnyUpper(s) && AnyLower(s) && AnyDigit(s);
  }

  lemma FallbackIsAcceptable()
    ensures |FALLBACK| == GENERATED_LENGTH && Acceptable(FALLBACK)
  {
    var p := FALLBACK;
    assert IsUpper(p[0]) && IsLower(p[1]) && IsDigit(p[3]);
  }

  /** Writes the draw, one character after the other, with the source's two repetition checks. */
  method FillPassphrase(out: array<char>, bytes: seq<byte>)
    requires |bytes| == GENERATED_LENGTH < out.Length
    modifies out
    ensures out[..GENERATED_LENGTH] == Drawn(bytes, GENERATED_LENGTH)
    ensures out[GENERATED_LENGTH..] == old(out[GENERATED_LENGTH..])
  {
    FirstThree(bytes);
    hide GEN_UPPER, GEN_LOWER, GEN_DIGITS, GEN_SYMBOLS, Draw;
    out[0] := GEN_UPPER[bytes[0] % |GEN_UPPER|];
    out[1] := GEN_LOWER[bytes[1] % |GEN_LOWER|];
    out[2] := GEN_DIGITS[bytes[2] % |GEN_DIGITS|];
    assert out[..3] == Drawn(bytes, 3);
    for i := 3 to GENERATED_LENGTH
      invariant out[..i] == Drawn(bytes, i)
      invariant out[GENERATED_LENGTH..] == old(out[GENERATED_LENGTH..])
    {
      ghost var before := out[..i];
      out[i] := Draw(bytes[i]);
      if out[i] == out[i - 1] {
        out[i] := GEN_LOWER[(bytes[i] as int + 1) % |GEN_LOWER|];
      }
      ghost var placed := out[i];
      if out[i] == out[i - 1] && out[i] == out[i - 2] {
        out[i] := GEN_DIGITS[(bytes[i] as int + i) % |GEN_DIGITS|];
      }
      PlaceDiffers(bytes[i], before[i - 1]);
      assert out[i] == placed;
      assert out[..i + 1] == before + [out[i]];
    }
  }

  method WriteFallback(out: array<char>)
    requires out.Length > |FALLBACK|
    modifies out
    ensures out[..|FALLBACK|] == FALLBACK && out[|FALLBACK|..] == old(out[|FALLBACK|..])
  {
    hide FALLBACK;
    forall i | 0 <= i < |FALLBACK| {
      out[i] := FALLBACK[i];
    }
  }

  datatype Outcome = Generated | NoRoom | NoRandomness

  /**
   Generates a passphrase from ten random bytes, if there are any. The result is
   acceptable whatever the bytes; it is the fixed fallback exactly when the draw
   holds a sequential run.
   */
  method GenerateRandomPassphrase(out: array<char>, random: Option<seq<byte>>) returns (r: Outcome)
    requires random.Some? ==> |random.value| == GENERATED_LENGTH
    modifies out
    ensures r == if out.Length < 11 then NoRoom else if random.None? then NoRandomness else Generated
    ensures r != Generated ==> out[..] == old(out[..])
    ensures r == Generated ==>
              var drawn := Drawn(random.value, GENERATED_LENGTH);
              && Acceptable(out[..GENERATED_LENGTH])
              && out[..GENERATED_LENGTH] == (if HasRun(drawn) then FALLBACK else drawn)
              && out[GENERATED_LENGTH] == NUL
              && out[GENERATED_LENGTH + 1..] == old(out[GENERATED_LENGTH + 1..])
  {
    if out.Length < 11 {
      return NoRoom;
    }
    if random.None? {
      return NoRandomness;
    }
    var bytes := random.value;
    hide Drawn, Acceptable, HasRun, HasTriple, FALLBACK, Classes;
    FillPassphrase(out, bytes);
    ghost var drawn, tail := out[..GENERATED_LENGTH], out[GENERATED_LENGTH + 1..];
    assert tail == old(out[GENERATED_LENGTH..])[1..];
    out[GENERATED_LENGTH] := NUL;
    assert out[..GENERATED_LENGTH] == drawn && out[GENERATED_LENGTH + 1..] == tail;
    DrawnIsAcceptable(bytes);
    var verdict := AnalysePassphrase(out[..GENERATED_LENGTH]);
    if verdict != Valid {
      FallbackIsAcceptable();
      ghost var rest := out[GENERATED_LENGTH..];
      WriteFallback(out);
      assert out[GENERATED_LENGTH] == rest[0] && out[GENERATED_LENGTH + 1..] == rest[1..] == tail;
    }
    return Generated;
  }

  lemma {:induction false} DrawnAt(random: seq<byte>, n: nat, i: nat)
    requires 3 <= i < n <= |random|
    ensures Drawn(random, n)[i] == Place(random[i], Drawn(random, n)[i - 1])
  {
    hide GEN_UPPER, GEN_LOWER, GEN_DIGITS, Place;
    if i < n - 1 {
      DrawnAt(random, n - 1, i);
    }
  }

  /** The fallback is not dead code: with these bytes the draw holds "abcd". */
  lemma FallbackIsReachable(random: seq<byte>)
    requires |random| == GENERATED_LENGTH
    requires random[3] == 69 && random[4] == 1 && random[5] == 25 && random[6] == 49
    ensures HasRun(Drawn(random, GENERATED_LENGTH))
  {
    hide Drawn, Draw, GEN_UPPER, GEN_LOWER, GEN_DIGITS, GEN_SYMBOLS;
    DrawExamples();
    DrawnShape(random, GENERATED_LENGTH);
    DrawnAt(random, GENERATED_LENGTH, 3);
    DrawnAt(random, GENERATED_LENGTH, 4);
    DrawnAt(random, GENERATED_LENGTH, 5);
    DrawnAt(random, GENERATED_LENGTH, 6);
    assert RunAt(Drawn(random, GENERATED_LENGTH), 3);
  }

  lemma DrawExamples()
    ensures Draw(69) == 'a' && Draw(1) == 'b' && Draw(25) == 'c' && Draw(49) == 'd'
  {
  }

  /**
   Each drawn character: an upper-case letter, a lower-case letter and a digit
   first, then a class by the byte modulo 4; each by the byte modulo the size of its
   alphabet, and a repetition of the character before it by the next lower-case
   letter.
   */
  lemma {:induction false} CharacterAt(random: seq<byte>, n: nat, k: nat)
    requires k < n <= |random|
    ensures Drawn(random, n)[..k] == Drawn(random, k)
    ensures var b := random[k];
            var c := if b % 4 == 0 then GEN_UPPER[b % |GEN_UPPER|] else if b % 4 == 1 then GEN_LOWER[b % |GEN_LOWER|]
                     else if b % 4 == 2 then GEN_DIGITS[b % |GEN_DIGITS|] else GEN_SYMBOLS[b % |GEN_SYMBOLS|];
            Drawn(random, n)[k]
            == if k == 0 then GEN_UPPER[b % |GEN_UPPER|] else if k == 1 then GEN_LOWER[b % |GEN_LOWER|]
               else if k == 2 then GEN_DIGITS[b % |GEN_DIGITS|]
               else if c == Drawn(random, n)[k - 1] then GEN_LOWER[(b as int + 1) % |GEN_LOWER|] else c
    decreases n
  {
    hide GEN_UPPER, GEN_LOWER, GEN_DIGITS, GEN_SYMBOLS;
    if k < n - 1 {
      CharacterAt(random, n - 1, k);
      assert Drawn(random, n)[..n - 1] == Drawn(random, n - 1);
    } else {
      assert Drawn(random, n)[..k] == Drawn(random, k);
    }
  }
}
