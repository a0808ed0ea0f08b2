/**
 * The JavaScript string built-ins the backend relies on, on Dafny strings:
 * `String(n)` for integers, `padStart`, `trim`, `length` (UTF-16 code units),
 * the binary text order MongoDB sorts strings by, and the ASCII
 * case-insensitive substring test that stands in for a `$regex` with the
 * `i` option.
 */
module JsText {

  // ---------------------------------------------------------------------
  // Decimal digits and integer rendering
  // ---------------------------------------------------------------------

  predicate IsDigit(c: char) { '0' <= c <= '9' }

  function DigitChar(d: int): (c: char)
    requires 0 <= d < 10
    ensures IsDigit(c) && DigitValue(c) == d
  {
    (48 + d) as char
  }

  function DigitValue(c: char): int { c as int - 48 }

  /** `String(n)` for a non-negative integer: its shortest decimal numeral. */
  function NatToString(n: nat): (s: string)
    ensures |s| >= 1
    ensures forall i :: 0 <= i < |s| ==> IsDigit(s[i])
    ensures n < 10 <==> |s| == 1
    ensures s[0] == '0' <==> n == 0
    decreases n
  {
    if n < 10 then [DigitChar(n)] else NatToString(n / 10) + [DigitChar(n % 10)]
  }

  /** Years 1000 .. 9999 render as four digits. */
  lemma NatToStringLength4(n: nat)
    requires 1000 <= n <= 9999
    ensures |NatToString(n)| == 4
  {
    assert |NatToString(n / 1000)| == 1;
    assert |NatToString(n / 100)| == 2;
    assert |NatToString(n / 10)| == 3;
  }

  /** `String(i)` for any integer: a minus sign before the numeral of |i|. */
  function IntToString(i: int): (s: string)
    ensures |s| >= 1
  {
    if i < 0 then "-" + NatToString(-i) else NatToString(i)
  }

  /** Reads a run of decimal digits; the inverse of NatToString. */
  function ParseDigits(s: string): int
  {
    if s == [] then 0 else ParseDigits(s[..|s| - 1]) * 10 + DigitValue(s[|s| - 1])
  }

  /** Reads an optionally signed numeral; the inverse of IntToString. */
  function ParseInt(s: string): int
  {
    if |s| > 0 && s[0] == '-' then -ParseDigits(s[1..]) else ParseDigits(s)
  }

  lemma {:induction false} ParseNatToString(n: nat)
    ensures ParseDigits(NatToString(n)) == n
    decreases n
  {
    if n >= 10 {
      var s := NatToString(n);
      assert s[..|s| - 1] == NatToString(n / 10);
      ParseNatToString(n / 10);
    }
  }

  lemma ParseIntToString(i: int)
    ensures ParseInt(IntToString(i)) == i
  {
    var s := IntToString(i);
    if i < 0 {
      assert s[0] == '-' && s[1..] == NatToString(-i);
      assert ParseDigits(s[1..]) == -i by { ParseNatToString(-i); }
    } else {
      assert s[0] != '-' by { assert IsDigit(NatToString(i)[0]); }
      assert ParseDigits(s) == i by { ParseNatToString(i); }
    }
  }

  /** Integers render to distinct strings. */
  lemma IntToStringInjective(i: int, j: int)
    ensures IntToString(i) == IntToString(j) <==> i == j
  {
    ParseIntToString(i);
    ParseIntToString(j);
  }

  // ---------------------------------------------------------------------
  // padStart
  // ---------------------------------------------------------------------

  /** `s.padStart(width, fill)`: prefix copies of `fill` up to `width` characters. */
  function PadStart(s: string, width: nat, fill: char): (r: string)
    ensures |r| == if |s| >= width then |s| else width
    ensures r[|r| - |s|..] == s
    ensures forall i :: 0 <= i < |r| - |s| ==> r[i] == fill
  {
    if |s| >= width then s else seq(width - |s|, _ => fill) + s
  }

  /** The two-digit field `String(n).padStart(2, '0')` used for months and days. */
  function TwoDigits(n: nat): string
  {
    PadStart(NatToString(n), 2, '0')
  }

  lemma TwoDigitsRoundTrip(n: nat)
    requires n < 100
    ensures |TwoDigits(n)| == 2
    ensures IsDigit(TwoDigits(n)[0]) && IsDigit(TwoDigits(n)[1])
    ensures ParseDigits(TwoDigits(n)) == n
  {
    var s := TwoDigits(n);
    if n < 10 {
      assert s == ['0', DigitChar(n)];
      assert s[..1] == ['0'];
    } else {
      assert NatToString(n / 10) == [DigitChar(n / 10)];
      assert s == [DigitChar(n / 10), DigitChar(n % 10)];
      assert s[..1] == [DigitChar(n / 10)];
      assert ParseDigits(s[..1]) == n / 10 by {
        assert s[..1][..0] == [];
      }
    }
  }

  // ---------------------------------------------------------------------
  // trim
  // ---------------------------------------------------------------------

  /** ECMAScript WhiteSpace and LineTerminator code points: the set `trim` removes. */
  const WhitespaceChars: set<char> := {
    '\t', '\n', '\U{000B}', '\U{000C}', '\r', ' ', '\U{00A0}', '\U{1680}',
    '\U{2000}', '\U{2001}', '\U{2002}', '\U{2003}', '\U{2004}', '\U{2005}',
    '\U{2006}', '\U{2007}', '\U{2008}', '\U{2009}', '\U{200A}',
    '\U{2028}', '\U{2029}', '\U{202F}', '\U{205F}', '\U{3000}', '\U{FEFF}'
  }

  predicate IsWhitespace(c: char) { c in WhitespaceChars }

  predicate AllWhitespace(s: string)
  {
    forall i :: 0 <= i < |s| ==> IsWhitespace(s[i])
  }

  /** A string with no whitespace at either end: what `trim` produces. */
  predicate Trimmed(s: string)
  {
    s == [] || (!IsWhitespace(s[0]) && !IsWhitespace(s[|s| - 1]))
  }

  function TrimStart(s: string): (r: string)
    ensures |r| <= |s| && r == s[|s| - |r|..]
    ensures forall i :: 0 <= i < |s| - |r| ==> IsWhitespace(s[i])
    ensures r == [] || !IsWhitespace(r[0])
  {
    if s != [] && IsWhitespace(s[0]) then
      var r := TrimStart(s[1..]);
      TrimStartStep(s, s[1..], r);
      r
    else s
  }

  function TrimEnd(s: string): (r: string)
    ensures |r| <= |s| && r == s[..|r|]
    ensures forall i :: |r| <= i < |s| ==> IsWhitespace(s[i])
    ensures r == [] || !IsWhitespace(r[|r| - 1])
  {
    if s != [] && IsWhitespace(s[|s| - 1]) then
      var r := TrimEnd(s[..|s| - 1]);
      TrimEndStep(s, s[..|s| - 1], r);
      r
    else s
  }

  /** Dropping one leading whitespace character before trimming the rest `p`. */
  lemma TrimStartStep(s: string, p: string, r: string)
    requires s != [] && IsWhitespace(s[0]) && p == s[1..]
    requires |r| <= |p| && r == p[|p| - |r|..]
    requires forall i :: 0 <= i < |p| - |r| ==> IsWhitespace(p[i])
    ensures r == s[|s| - |r|..]
    ensures forall i :: 0 <= i < |s| - |r| ==> IsWhitespace(s[i])
  {
    assert p[|p| - |r|..] == s[|s| - |r|..];
    forall i | 0 <= i < |s| - |r| ensures IsWhitespace(s[i]) {
      if i > 0 { assert p[i - 1] == s[i]; }
    }
  }

  /** Dropping one trailing whitespace character before trimming the rest `p`. */
  lemma TrimEndStep(s: string, p: string, r: string)
    requires s != [] && IsWhitespace(s[|s| - 1]) && p == s[..|s| - 1]
    requires |r| <= |p| && r == p[..|r|]
    requires forall i :: |r| <= i < |p| ==> IsWhitespace(p[i])
    ensures r == s[..|r|]
    ensures forall i :: |r| <= i < |s| ==> IsWhitespace(s[i])
  {
    assert p[..|r|] == s[..|r|];
    forall i | |r| <= i < |s| ensures IsWhitespace(s[i]) {
      if i < |p| { assert p[i] == s[i]; }
    }
  }

  /** `s.trim()`. */
  function Trim(s: string): (r: string)
    ensures Trimmed(r)
  {
    TrimEnd(TrimStart(s))
  }

  lemma TrimStartDropsWhitespace(s: string)
    ensures AllWhitespace(s[..|s| - |TrimStart(s)|])
  {
    var n := |s| - |TrimStart(s)|;
    forall k | 0 <= k < n ensures IsWhitespace(s[..n][k]) {
      assert s[..n][k] == s[k];
    }
  }

  lemma TrimEndDropsWhitespace(s: string)
    ensures AllWhitespace(s[|TrimEnd(s)|..])
  {
    var n := |TrimEnd(s)|;
    forall k | 0 <= k < |s| - n ensures IsWhitespace(s[n..][k]) {
      assert s[n..][k] == s[n + k];
    }
  }

  /** trim yields a trimmed infix of its input and drops only whitespace around it. */
  lemma TrimInfix(s: string)
    ensures Trimmed(Trim(s))
    ensures exists i, j :: 0 <= i <= j <= |s| && Trim(s) == s[i..j]
              && AllWhitespace(s[..i]) && AllWhitespace(s[j..])
  {
    var i, j := TrimBounds(s);
  }

  /** Where trim cuts: after the leading and before the trailing whitespace. */
  lemma TrimBounds(s: string) returns (i: nat, j: nat)
    ensures i <= j <= |s| && Trim(s) == s[i..j]
    ensures AllWhitespace(s[..i]) && AllWhitespace(s[j..])
  {
    var a := TrimStart(s);
    var b := TrimEnd(a);
    TrimStartDropsWhitespace(s);
    TrimEndDropsWhitespace(a);
    i, j := InfixOfSlices(s, a, b);
  }

  /** A prefix b of a suffix a of s, with whitespace around both cuts, is an infix of s. */
  lemma InfixOfSlices(s: string, a: string, b: string) returns (i: nat, j: nat)
    requires |a| <= |s| && a == s[|s| - |a|..] && AllWhitespace(s[..|s| - |a|])
    requires |b| <= |a| && b == a[..|b|] && AllWhitespace(a[|b|..])
    ensures i <= j <= |s| && b == s[i..j]
    ensures AllWhitespace(s[..i]) && AllWhitespace(s[j..])
  {
    i, j := |s| - |a|, |s| - |a| + |b|;
    assert s[i..][..|b|] == s[i..j];
    assert s[i..][|b|..] == s[j..];
  }

  /** trim leaves a trimmed string as it is, so trimming twice is trimming once. */
  lemma TrimIdempotent(s: string)
    ensures Trimmed(s) ==> Trim(s) == s
    ensures Trim(Trim(s)) == Trim(s)
  {
    TrimInfix(s);
  }

  /** trim yields the empty string exactly for all-whitespace input. */
  lemma TrimEmpty(s: string)
    ensures Trim(s) == [] <==> AllWhitespace(s)
  {
    var a := TrimStart(s);
    if Trim(s) == [] {
      assert a == a[|TrimEnd(a)|..];
      assert a == [];
      assert s == s[..|s| - |a|];
    } else {
      assert a[0] == s[|s| - |a|];
    }
  }

  // ---------------------------------------------------------------------
  // length
  // ---------------------------------------------------------------------

  /** `s.length`: UTF-16 code units, so a character beyond U+FFFF counts twice. */
  function Utf16Length(s: string): (n: nat)
    ensures |s| <= n <= 2 * |s|
    ensures n == |s| <==> forall i :: 0 <= i < |s| ==> s[i] as int <= 0xFFFF
  {
    if s == [] then 0
    else Utf16Length(s[..|s| - 1]) + (if s[|s| - 1] as int > 0xFFFF then 2 else 1)
  }

  /** A character beyond U+FFFF is a surrogate pair: two code units. */
  lemma Utf16LengthExamples()
    ensures Utf16Length("\U{1F600}") == 2
    ensures Utf16Length("a\U{1F600}b") == 4
    ensures Utf16Length("Team Meeting") == 12
  {
  }

  // ---------------------------------------------------------------------
  // Text order
  // ---------------------------------------------------------------------

  /**
   * Lexicographic order on code points, a proper prefix first. This is the
   * order of MongoDB's default (binary) string comparison, since UTF-8 byte
   * order and code-point order agree.
   */
  predicate TextLe(a: string, b: string)
  {
    if a == [] then true
    else if b == [] then false
    else if a[0] != b[0] then a[0] < b[0]
    else TextLe(a[1..], b[1..])
  }

  lemma {:induction false} TextLeReflexive(a: string)
    ensures TextLe(a, a)
  {
    if a != [] { TextLeReflexive(a[1..]); }
  }

  lemma {:induction false} TextLeTotal(a: string, b: string)
    ensures TextLe(a, b) || TextLe(b, a)
  {
    if a != [] && b != [] && a[0] == b[0] { TextLeTotal(a[1..], b[1..]); }
  }

  lemma {:induction false} TextLeAntisymmetric(a: string, b: string)
    requires TextLe(a, b) && TextLe(b, a)
    ensures a == b
  {
    if a != [] && b != [] {
      TextLeAntisymmetric(a[1..], b[1..]);
      assert a == [a[0]] + a[1..];
      assert b == [b[0]] + b[1..];
    }
  }

  lemma {:induction false} TextLeTransitive(a: string, b: string, c: string)
    requires TextLe(a, b) && TextLe(b, c)
    ensures TextLe(a, c)
  {
    if a != [] && b != [] && c != [] && a[0] == b[0] == c[0] {
      TextLeTransitive(a[1..], b[1..], c[1..]);
    }
  }

  // ---------------------------------------------------------------------
  // Case-insensitive substring
  // ---------------------------------------------------------------------

  function LowerAscii(c: char): char
  {
    if 'A' <= c <= 'Z' then (c as int + 32) as char else c
  }

  predicate SameIgnoringCase(a: string, b: string)
  {
    |a| == |b| && forall i :: 0 <= i < |a| ==> LowerAscii(a[i]) == LowerAscii(b[i])
  }

  /** `needle` occurs in `hay` at position `i`, ASCII letters compared without case. */
  predicate MatchesAt(hay: string, needle: string, i: int)
  {
    0 <= i <= |hay| - |needle| && SameIgnoringCase(hay[i..i + |needle|], needle)
  }

  /** `hay` holds `needle` at some position, searched from the front. */
  predicate ContainsIgnoringCase(hay: string, needle: string)
    decreases |hay|
  {
    MatchesAt(hay, needle, 0) || (hay != [] && ContainsIgnoringCase(hay[1..], needle))
  }

  /** A match at i > 0 is a match at i - 1 in the string without its first character. */
  lemma MatchesAtShift(hay: string, needle: string, i: int)
    requires hay != [] && 1 <= i
    ensures MatchesAt(hay, needle, i) <==> MatchesAt(hay[1..], needle, i - 1)
  {
    if i <= |hay| - |needle| {
      var shifted, window := hay[1..][i - 1..i - 1 + |needle|], hay[i..i + |needle|];
      forall k | 0 <= k < |needle| ensures shifted[k] == window[k] {
        assert shifted[k] == hay[i + k];
      }
      assert shifted == window;
    }
  }

  /** The front-to-back search agrees with "`needle` occurs at some position". */
  lemma {:induction false} ContainsIgnoringCaseIff(hay: string, needle: string)
    ensures ContainsIgnoringCase(hay, needle) <==> exists i :: MatchesAt(hay, needle, i)
    decreases |hay|
  {
    if hay != [] {
      ContainsIgnoringCaseIff(hay[1..], needle);
      if exists i :: MatchesAt(hay, needle, i) {
        var i :| MatchesAt(hay, needle, i);
        if i > 0 {
          MatchesAtShift(hay, needle, i);
        }
      }
      if ContainsIgnoringCase(hay[1..], needle) {
        var i :| MatchesAt(hay[1..], needle, i);
        MatchesAtShift(hay, needle, i + 1);
      }
    } else {
      if exists i :: MatchesAt(hay, needle, i) {
        var i :| MatchesAt(hay, needle, i);
        assert i == 0;
      }
    }
  }

  lemma MeetingExamples()
    ensures ContainsIgnoringCase("Team Meeting", "meeting")
    ensures ContainsIgnoringCase("see meeting notes", "meeting")
    ensures !ContainsIgnoringCase("Lunch", "meeting")
  {
    assert MatchesAt("Team Meeting", "meeting", 5);
    ContainsIgnoringCaseIff("Team Meeting", "meeting");
    assert MatchesAt("see meeting notes", "meeting", 4);
    ContainsIgnoringCaseIff("see meeting notes", "meeting");
    ContainsIgnoringCaseIff("Lunch", "meeting");
  }
}
