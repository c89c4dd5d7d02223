/**
 * The pieces of Python's string handling that the conversation flow and the
 * normalizer rely on: str.strip(), str.upper(), str.isalpha(), str.isdigit()
 * and Unicode NFD decomposition.
 *
 * Python's character tables cover all of Unicode. This model states them
 * exactly for the Latin-1 range (U+0000..U+00FF), which holds every letter
 * French uses except the ligature œ, plus the two characters that upper-casing
 * Latin-1 produces outside it (Ÿ and Μ). Every other character is treated as
 * a non-letter, non-digit character without case and without decomposition.
 */
module Text {
  import opened Wrappers

  /** A character Python's str.isspace() accepts, that is one str.strip() removes. */
  predicate IsWhitespace(c: char) {
    || c == ' '
    || ('\t' <= c <= '\r')
    || ('\U{1C}' <= c <= '\U{1F}')
    || c == '\U{85}' || c == '\U{A0}' || c == '\U{1680}'
    || ('\U{2000}' <= c <= '\U{200A}')
    || c == '\U{2028}' || c == '\U{2029}' || c == '\U{202F}' || c == '\U{205F}' || c == '\U{3000}'
  }

  predicate IsAsciiLetter(c: char) {
    'A' <= c <= 'Z' || 'a' <= c <= 'z'
  }

  predicate IsAsciiDigit(c: char) {
    '0' <= c <= '9'
  }

  /** The class [a-zA-Z0-9] of the normalizer's regular expression. */
  predicate IsAsciiAlnum(c: char) {
    IsAsciiLetter(c) || IsAsciiDigit(c)
  }

  predicate IsAscii(c: char) {
    c < '\U{80}'
  }

  /** str.isalpha() of one character. */
  predicate IsAlphaChar(c: char) {
    || IsAsciiLetter(c)
    || c == '\U{AA}' || c == '\U{B5}' || c == '\U{BA}'
    || ('\U{C0}' <= c <= '\U{FF}' && c != '\U{D7}' && c != '\U{F7}')
    || c == '\U{178}' || c == '\U{39C}'
  }

  /** str.isdigit() of one character: the ASCII digits and the superscripts ¹ ² ³. */
  predicate IsDigitChar(c: char) {
    IsAsciiDigit(c) || c == '\U{B2}' || c == '\U{B3}' || c == '\U{B9}'
  }

  /** str.isalpha(): false on the empty string. */
  predicate IsAlpha(s: string) {
    |s| > 0 && forall i :: 0 <= i < |s| ==> IsAlphaChar(s[i])
  }

  /** str.isdigit(): false on the empty string. */
  predicate IsDigit(s: string) {
    |s| > 0 && forall i :: 0 <= i < |s| ==> IsDigitChar(s[i])
  }

  /** Neither begins nor ends with whitespace: what str.strip() leaves. */
  predicate IsStripped(s: string) {
    s == [] || (!IsWhitespace(s[0]) && !IsWhitespace(s[|s| - 1]))
  }

  predicate AllWhitespace(s: string) {
    forall i :: 0 <= i < |s| ==> IsWhitespace(s[i])
  }

  // ---------------------------------------------------------------- strip

  /** str.lstrip(): drops the leading whitespace. */
  function TrimStart(s: string): (r: string)
    ensures |r| <= |s| && r == s[|s| - |r|..]
    ensures AllWhitespace(s[..|s| - |r|])
    ensures r == [] || !IsWhitespace(r[0])
  {
    if s != [] && IsWhitespace(s[0]) then TrimStart(s[1..]) else s
  }

  /** str.rstrip(): drops the trailing whitespace. */
  function TrimEnd(s: string): (r: string)
    ensures |r| <= |s| && r == s[..|r|]
    ensures AllWhitespace(s[|r|..])
    ensures r == [] || !IsWhitespace(r[|r| - 1])
  {
    if s != [] && IsWhitespace(s[|s| - 1]) then TrimEnd(s[..|s| - 1]) else s
  }

  /** str.strip(). */
  function Strip(s: string): (r: string)
    ensures IsStripped(r)
    ensures AllWhitespace(s) ==> r == []
  {
    TrimEnd(TrimStart(s))
  }

  /** Stripping cuts a window out of the string and only whitespace lies outside it. */
  lemma StripWindow(s: string) returns (i: nat, j: nat)
    ensures i <= j <= |s| && Strip(s) == s[i..j]
    ensures AllWhitespace(s[..i]) && AllWhitespace(s[j..])
  {
    var t := TrimStart(s);
    i := |s| - |t|;
    var u := TrimEnd(t);
    j := i + |u|;
    assert s[i..j] == t[..|u|];
    assert s[j..] == t[|u|..];
  }

  /** Stripping changes a string exactly when it begins or ends with whitespace; so it is idempotent. */
  lemma StripFixesStripped(s: string)
    ensures Strip(s) == s <==> IsStripped(s)
    ensures Strip(Strip(s)) == Strip(s)
  {
    if IsStripped(s) && s != [] {
      assert TrimStart(s) == s;
      assert TrimEnd(s) == s;
    }
    var r := Strip(s);
    if r != [] {
      assert TrimStart(r) == r;
      assert TrimEnd(r) == r;
    }
  }

  // ---------------------------------------------------------------- upper

  /** Upper case of an ASCII character; every other character is left as it is. */
  function AsciiUpperChar(c: char): char {
    if 'a' <= c <= 'z' then (c as int - 32) as char else c
  }

  /** str.upper() of one character, which for ß is two characters. */
  function UpperChar(c: char): (r: string)
    ensures |r| == if c == '\U{DF}' then 2 else 1
  {
    if 'a' <= c <= 'z' then [(c as int - 32) as char]
    else if c == '\U{B5}' then ['\U{39C}']
    else if c == '\U{DF}' then "SS"
    else if '\U{E0}' <= c <= '\U{FE}' && c != '\U{F7}' then [(c as int - 32) as char]
    else if c == '\U{FF}' then ['\U{178}']
    else [c]
  }

  /** str.upper(). Only ß changes the length; on ASCII it is position-wise. */
  function Upper(s: string): (r: string)

    ensures (forall i :: 0 <= i < |s| ==> IsAscii(s[i])) ==>
              |r| == |s| && forall i :: 0 <= i < |s| ==> r[i] == AsciiUpperChar(s[i])
  {
    if s == [] then []
    else
      assert s == [s[0]] + s[1..];
      UpperChar(s[0]) + Upper(s[1..])
  }

  /** Upper-casing lengthens the text by one character for every ß. */
  lemma {:induction false} UpperLength(s: string)
    ensures |Upper(s)| == |s| + multiset(s)['\U{DF}']
  {
    if s != [] {
      assert s == [s[0]] + s[1..];
      UpperLength(s[1..]);
    }
  }

  lemma {:induction false} UpperConcat(a: string, b: string)
    ensures Upper(a + b) == Upper(a) + Upper(b)
  {
    if a == [] {
      assert a + b == b;
    } else {
      assert (a + b)[0] == a[0] && (a + b)[1..] == a[1..] + b;
      UpperConcat(a[1..], b);
      assert Upper(a + b) == UpperChar(a[0]) + Upper(a[1..] + b);
    }
  }

  /** Upper-casing keeps a string alphabetic exactly when it was (str.isalpha() after str.upper()). */
  lemma {:induction false} UpperKeepsAlpha(s: string)
    ensures IsAlpha(Upper(s)) <==> IsAlpha(s)
  {
    if s != [] {
      UpperKeepsAlpha(s[1..]);
      var h, t := UpperChar(s[0]), Upper(s[1..]);
      assert Upper(s) == h + t;
      if IsAlpha(s) {
        assert IsAlpha(s[1..]) <== |s[1..]| > 0;
        forall i | 0 <= i < |h + t| ensures IsAlphaChar((h + t)[i]) {
          if i >= |h| { assert (h + t)[i] == t[i - |h|]; }
        }
      } else {
        var k :| 0 <= k < |s| && !IsAlphaChar(s[k]);
        if k == 0 {
          assert h == [s[0]];
          assert !IsAlphaChar((h + t)[0]);
        } else {
          assert !IsAlpha(s[1..]) && s[1..] != [];
          var m :| 0 <= m < |t| && !IsAlphaChar(t[m]);
          assert (h + t)[|h| + m] == t[m];
        }
      }
    }
  }

  // ---------------------------------------------------------------- NFD

  /** A combining diacritical mark (U+0300..U+036F), all of Unicode category Mn. */
  predicate IsNonspacingMark(c: char) {
    '\U{300}' <= c <= '\U{36F}'
  }

  /**
   * The canonical decomposition of the precomposed capital letter at
   * U+00C0 + o, as base letter and combining mark; None for Æ, Ð, ×, Ø, Þ, ß.
   * The small letter at U+00E0 + o decomposes to the same mark over the
   * lower-case base.
   */
  function Latin1Decomposition(o: int): (r: Option<(char, char)>)
    requires 0 <= o < 32
    ensures r.Some? ==> 'A' <= r.value.0 <= 'Z' && IsNonspacingMark(r.value.1)
  {
    match o
    case 0 => Some(('A', '\U{300}'))
    case 1 => Some(('A', '\U{301}'))
    case 2 => Some(('A', '\U{302}'))
    case 3 => Some(('A', '\U{303}'))
    case 4 => Some(('A', '\U{308}'))
    case 5 => Some(('A', '\U{30A}'))
    case 7 => Some(('C', '\U{327}'))
    case 8 => Some(('E', '\U{300}'))
    case 9 => Some(('E', '\U{301}'))
    case 10 => Some(('E', '\U{302}'))
    case 11 => Some(('E', '\U{308}'))
    case 12 => Some(('I', '\U{300}'))
    case 13 => Some(('I', '\U{301}'))
    case 14 => Some(('I', '\U{302}'))
    case 15 => Some(('I', '\U{308}'))
    case 17 => Some(('N', '\U{303}'))
    case 18 => Some(('O', '\U{300}'))
    case 19 => Some(('O', '\U{301}'))
    case 20 => Some(('O', '\U{302}'))
    case 21 => Some(('O', '\U{303}'))
    case 22 => Some(('O', '\U{308}'))
    case 25 => Some(('U', '\U{300}'))
    case 26 => Some(('U', '\U{301}'))
    case 27 => Some(('U', '\U{302}'))
    case 28 => Some(('U', '\U{308}'))
    case 29 => Some(('Y', '\U{301}'))
    case _ => None
  }

  /** NFD of one character: a base letter and its mark, or the character itself. */
  function Decompose(c: char): (r: string)
    ensures |r| == 1 || (|r| == 2 && IsAsciiLetter(r[0]) && IsNonspacingMark(r[1]))
    ensures |r| == 1 ==> r == [c]
    ensures IsAscii(c) ==> r == [c]
  {
    if '\U{C0}' <= c <= '\U{DF}' then
      match Latin1Decomposition(c as int - 0xC0)
      case Some((base, mark)) => [base, mark]
      case None => [c]
    else if '\U{E0}' <= c <= '\U{FE}' then
      match Latin1Decomposition(c as int - 0xE0)
      case Some((base, mark)) => [(base as int + 32) as char, mark]
      case None => [c]
    else if c == '\U{FF}' then ['y', '\U{308}']
    else if c == '\U{178}' then ['Y', '\U{308}']
    else [c]
  }

  /** unicodedata.normalize('NFD', s). NFD leaves ASCII text unchanged. */
  function Nfd(s: string): (r: string)
    ensures (forall i :: 0 <= i < |s| ==> IsAscii(s[i])) ==> r == s
  {
    if s == [] then []
    else
      assert s == [s[0]] + s[1..];
      Decompose(s[0]) + Nfd(s[1..])
  }

  lemma {:induction false} NfdConcat(a: string, b: string)
    ensures Nfd(a + b) == Nfd(a) + Nfd(b)
  {
    if a == [] {
      assert a + b == b;
    } else {
      assert (a + b)[0] == a[0] && (a + b)[1..] == a[1..] + b;
      NfdConcat(a[1..], b);
      assert Nfd(a + b) == Decompose(a[0]) + Nfd(a[1..] + b);
    }
  }
}
