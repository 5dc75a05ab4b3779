/**
 The text forms used in URIs: decimal numbers and TUIDs in hexadecimal, each
 with the parser the receiver applies to it.
 */
module Text {
  import opened Bytes
  import opened Freshness

  const CHAR_0: byte := 48
  const CHAR_9: byte := 57
  const CHAR_UPPER_A: byte := 65
  const CHAR_UPPER_F: byte := 70
  const CHAR_LOWER_A: byte := 97
  const CHAR_LOWER_F: byte := 102

  predicate IsDigit(c: byte) {
    CHAR_0 <= c <= CHAR_9
  }

  predicate AllDigits(s: seq<byte>) {
    forall i :: 0 <= i < |s| ==> IsDigit(s[i])
  }

  // ------------------------------------------------------------------ decimal

  /** A number in decimal, as `%u` prints it. */
  function Decimal(n: nat): (s: seq<byte>)
    ensures s != [] && AllDigits(s)
  {
    if n < 10 then [CHAR_0 + n] else Decimal(n / 10) + [CHAR_0 + n % 10]
  }

  /** The number a string of digits stands for. */
  function DecimalValue(s: seq<byte>): nat
    requires AllDigits(s)
  {
    if s == [] then 0 else 10 * DecimalValue(s[..|s| - 1]) + (s[|s| - 1] - CHAR_0)
  }

  /** Printing a number and reading it back gives the number. */
  lemma {:induction false} DecimalRoundTrip(n: nat)
    ensures DecimalValue(Decimal(n)) == n
  {
    if n < 10 {
      assert Decimal(n)[..0] == [];
    } else {
      DecimalRoundTrip(n / 10);
      assert Decimal(n)[..|Decimal(n)| - 1] == Decimal(n / 10);
    }
  }

  /** A 16-bit number takes one to five digits. */
  lemma DecimalLength(n: nat)
    requires n < WRAP16
    ensures |Decimal(n)| ==
            if n < 10 then 1 else if n < 100 then 2 else if n < 1000 then 3 else if n < 10000 then 4 else 5
  {
    assert n / 10 / 10 == n / 100 && n / 100 / 10 == n / 1000 && n / 1000 / 10 == n / 10000;
    assert |Decimal(n / 10000)| == 1;
    assert n >= 10000 ==> |Decimal(n / 1000)| == 2;
    assert n >= 1000 ==> |Decimal(n / 100)| == |Decimal(n / 1000)| + 1;
    assert n >= 100 ==> |Decimal(n / 10)| == |Decimal(n / 100)| + 1;
  }

  /** Longer digit strings never stand for less. */
  lemma DecimalPrefixLess(s: seq<byte>, k: nat)
    requires AllDigits(s) && k <= |s|
    ensures DecimalValue(s[..k]) <= DecimalValue(s)
  {
    if k < |s| {
      DecimalPrefixLess(s[..|s| - 1], k);
      assert s[..|s| - 1][..k] == s[..k];
    } else {
      assert s[..k] == s;
    }
  }

  /** What a digit string parses to when no value above `limit` is taken. */
  function ParseDecimal(s: seq<byte>, limit: nat): Option<nat> {
    if s != [] && AllDigits(s) && DecimalValue(s) <= limit then Some(DecimalValue(s)) else None
  }

  // -------------------------------------------------------------- hexadecimal

  function HexDigit(v: byte): (c: byte)
    requires v < 16
    ensures IsHexChar(c) && HexNibble(c) == v
  {
    if v < 10 then CHAR_0 + v else CHAR_UPPER_A + (v - 10)
  }

  predicate IsHexChar(c: byte) {
    IsDigit(c) || CHAR_LOWER_A <= c <= CHAR_LOWER_F || CHAR_UPPER_A <= c <= CHAR_UPPER_F
  }

  function HexNibble(c: byte): (v: byte)
    requires IsHexChar(c)
    ensures v < 16
  {
    if IsDigit(c) then c - CHAR_0
    else if CHAR_LOWER_A <= c <= CHAR_LOWER_F then 10 + (c - CHAR_LOWER_A)
    else 10 + (c - CHAR_UPPER_A)
  }

  /** Bytes in upper-case hexadecimal, two characters each. */
  function ToHex(bytes: seq<byte>): (s: seq<byte>)
    ensures |s| == 2 * |bytes|
    ensures forall i :: 0 <= i < |bytes| ==>
              s[2 * i] == HexDigit(bytes[i] / 16) && s[2 * i + 1] == HexDigit(bytes[i] % 16)
    ensures forall i :: 0 <= i < |s| ==> IsHexChar(s[i]) && !(CHAR_LOWER_A <= s[i])
  {
    if bytes == [] then []
    else
      var front := ToHex(bytes[..|bytes| - 1]);
      var b := bytes[|bytes| - 1];
      front + [HexDigit(b / 16), HexDigit(b % 16)]
  }

  /** Prints a TUID; the loop writes two characters per byte. */
  method TuidToHexString(tuid: Tuid, out: array<byte>)
    requires out.Length == 12
    modifies out
    ensures out[..] == ToHex(tuid)
  {
    hide ToHex, HexDigit;
    for i := 0 to 6
      invariant forall k :: 0 <= k < i ==>
                  out[2 * k] == HexDigit(tuid[k] / 16) && out[2 * k + 1] == HexDigit(tuid[k] % 16)
    {
      out[2 * i] := HexDigit(tuid[i] / 16);
      out[2 * i + 1] := HexDigit(tuid[i] % 16);
    }
    forall j | 0 <= j < 12
      ensures out[j] == ToHex(tuid)[j]
    {
      var k := j / 2;
      assert out[2 * k] == ToHex(tuid)[2 * k] && out[2 * k + 1] == ToHex(tuid)[2 * k + 1];
      assert j == 2 * k || j == 2 * k + 1;
    }
  }

  predicate IsSpaceChar(c: byte) {
    c == 32 || c == 9 || c == 13 || c == 10
  }

  /** Leading and trailing white space removed, then a leading 0x. */
  function Normalize(text: seq<byte>, stripPrefix: bool): seq<byte> {
    var token := TrimRight(TrimLeft(text));
    if stripPrefix && |token| >= 2 && token[0] == CHAR_0 && (token[1] == 120 || token[1] == 88)
    then token[2..] else token
  }

  function TrimLeft(s: seq<byte>): (r: seq<byte>)
    ensures r != [] ==> !IsSpaceChar(r[0])
    ensures s != [] && !IsSpaceChar(s[0]) ==> r == s
  {
    if s != [] && IsSpaceChar(s[0]) then TrimLeft(s[1..]) else s
  }

  function TrimRight(s: seq<byte>): (r: seq<byte>)
    ensures r != [] ==> !IsSpaceChar(r[|r| - 1])
    ensures s != [] && !IsSpaceChar(s[|s| - 1]) ==> r == s
  {
    if s != [] && IsSpaceChar(s[|s| - 1]) then TrimRight(s[..|s| - 1]) else s
  }

  /** The bytes a hexadecimal text stands for, or None. */
  function FromHex(s: seq<byte>): (r: Option<seq<byte>>)
    ensures r.Some? ==> |s| == 2 * |r.value| && forall i :: 0 <= i < |s| ==> IsHexChar(s[i])
    ensures r.Some? ==> forall i :: 0 <= i < |r.value| ==>
              r.value[i] / 16 == HexNibble(s[2 * i]) && r.value[i] % 16 == HexNibble(s[2 * i + 1])
    ensures r.None? ==> |s| % 2 == 1 || exists i :: 0 <= i < |s| && !IsHexChar(s[i])
  {
    if s == [] then Some([])
    else if |s| == 1 then None
    else
      var n := |s|;
      if !IsHexChar(s[n - 2]) || !IsHexChar(s[n - 1]) then None
      else
        match FromHex(s[..n - 2])
        case None => None
        case Some(front) =>
          var hi: int := HexNibble(s[n - 2]);
          Some(front + [16 * hi + HexNibble(s[n - 1])])
  }

  lemma NoHex()
    ensures FromHex([]) == Some([])
  {
  }

  lemma FromHexStep(s: seq<byte>, n: nat)
    requires n + 2 <= |s| && FromHex(s[..n]).Some?
    ensures IsHexChar(s[n]) && IsHexChar(s[n + 1]) ==>
              FromHex(s[..n + 2]) == Some(FromHex(s[..n]).value + [16 * (HexNibble(s[n]) as int) + HexNibble(s[n + 1])])
  {
    assert s[..n + 2][..n] == s[..n];
  }

  /**
   Reads exactly `count` bytes of hexadecimal text. Text longer than the
   source's 256-byte token buffer is refused.
   */
  method ParseHexBytes(text: seq<byte>, count: nat) returns (r: Status, bytes: seq<byte>)
    ensures count == 0 ==> r == InvalidArg
    ensures count > 0 ==>
              var token := Normalize(text, true);
              && r == (if TrimRight(TrimLeft(text)) == [] then InvalidArg
                       else if token == [] || |token| >= 256 then BufferTooSmall
                       else if |token| != 2 * count || FromHex(token).None? then InvalidArg
                       else Success)
              && (r == Success ==> FromHex(token) == Some(bytes))
  {
    hide FromHex, TrimLeft, TrimRight;
    bytes := [];
    if count == 0 {
      return InvalidArg, bytes;
    }
    if TrimRight(TrimLeft(text)) == [] {
      return InvalidArg, bytes;
    }
    var token := Normalize(text, true);
    if token == [] || |token| >= 256 {
      return BufferTooSmall, bytes;
    }
    if |token| != 2 * count {
      return InvalidArg, bytes;
    }
    r, bytes := ParseHexToken(token, count);
  }

  /** The conversion loop over a token of the right length. */
  method ParseHexToken(token: seq<byte>, count: nat) returns (r: Status, bytes: seq<byte>)
    requires |token| == 2 * count
    ensures r == (if FromHex(token).None? then InvalidArg else Success)
    ensures r == Success ==> FromHex(token) == Some(bytes)
  {
    hide FromHex, HexNibble;
    bytes := [];
    assert FromHex(token[..0]) == Some([]) by {
      assert token[..0] == [];
      NoHex();
    }
    for i := 0 to count
      invariant |bytes| == i
      invariant FromHex(token[..2 * i]) == Some(bytes)
    {
      var hi, lo := token[2 * i], token[2 * i + 1];
      FromHexStep(token, 2 * i);
      if !IsHexChar(hi) || !IsHexChar(lo) {
        assert FromHex(token).None?;
        return InvalidArg, bytes;
      }
      var high: int := HexNibble(hi);
      bytes := bytes + [16 * high + HexNibble(lo)];
    }
    assert token[..2 * count] == token;
    return Success, bytes;
  }

  /** Every TUID survives printing and parsing, with or without a 0x prefix. */
  lemma TuidHexRoundTrip(tuid: Tuid)
    ensures FromHex(ToHex(tuid)) == Some(tuid)
    ensures Normalize(ToHex(tuid), true) == ToHex(tuid)
    ensures Normalize([CHAR_0, 120] + ToHex(tuid), true) == ToHex(tuid)
  {
    hide ToHex, FromHex, HexDigit, HexNibble, TrimLeft, TrimRight;
    var h := ToHex(tuid);
    HexIsInverse(tuid, h);
    assert !IsSpaceChar(h[0]) && !IsSpaceChar(h[11]);
    var x := [CHAR_0, 120] + h;
    assert x[|x| - 1] == h[11];
    assert x[2..] == h;
  }

  lemma HexIsInverse(bytes: seq<byte>, h: seq<byte>)
    requires h == ToHex(bytes)
    ensures FromHex(h) == Some(bytes)
  {
    hide ToHex, FromHex, HexDigit, HexNibble;
    var b := FromHex(h).value;
    forall i | 0 <= i < |bytes|
      ensures b[i] == bytes[i]
    {
      assert b[i] / 16 == HexNibble(h[2 * i]) == bytes[i] / 16;
      assert b[i] % 16 == HexNibble(h[2 * i + 1]) == bytes[i] % 16;
    }
    assert b == bytes;
  }

  /** A buffer's content as a C string: up to its first zero byte. */
  function CString(s: seq<byte>): (c: seq<byte>)
    ensures 0 !in s ==> c == s
    ensures 0 !in c && c <= s
  {
    if s == [] || s[0] == 0 then [] else [s[0]] + CString(s[1..])
  }

  lemma {:induction false} TrimsLeft(pad: seq<byte>, core: seq<byte>)
    requires (forall i :: 0 <= i < |pad| ==> pad[i] == 32 || pad[i] == 9 || pad[i] == 13 || pad[i] == 10)
    requires core != [] && core[0] != 32 && core[0] != 9 && core[0] != 13 && core[0] != 10
    ensures TrimLeft(pad + core) == core
    decreases |pad|
  {
    if pad == [] {
      assert pad + core == core;
    } else {
      assert (pad + core)[1..] == pad[1..] + core;
      TrimsLeft(pad[1..], core);
    }
  }

  lemma {:induction false} TrimsRight(core: seq<byte>, pad: seq<byte>)
    requires (forall i :: 0 <= i < |pad| ==> pad[i] == 32 || pad[i] == 9 || pad[i] == 13 || pad[i] == 10)
    requires core != []
    requires var c := core[|core| - 1]; c != 32 && c != 9 && c != 13 && c != 10
    ensures TrimRight(core + pad) == core
    decreases |pad|
  {
    if pad == [] {
      assert core + pad == core;
    } else {
      assert (core + pad)[..|core + pad| - 1] == core + pad[..|pad| - 1];
      TrimsRight(core, pad[..|pad| - 1]);
    }
  }

  /**
   Padding of spaces, tabs and line ends around a token is removed, then one "0x" or
   "0X" if asked for, and nothing else.
   */
  lemma PaddingIsTrimmed(left: seq<byte>, core: seq<byte>, right: seq<byte>, stripPrefix: bool)
    requires forall c :: c in left + right ==> c == 32 || c == 9 || c == 13 || c == 10
    requires core != [] && core[0] !in {32, 9, 13, 10} && core[|core| - 1] !in {32, 9, 13, 10}
    ensures Normalize(left + core + right, stripPrefix)
         == if stripPrefix && |core| >= 2 && core[0] == 48 && (core[1] == 120 || core[1] == 88) then core[2..] else core
  {
    hide TrimLeft, TrimRight;
    Assoc(left, core, right);
    assert forall i :: 0 <= i < |left| ==> left[i] in left + right;
    assert forall i :: 0 <= i < |right| ==> right[i] in left + right;
    TrimsLeft(left, core + right);
    TrimsRight(core, right);
  }
}
