/**
 * The identifier derivation engine (UICService): normalization of the five
 * answers, the unsalted fingerprint used to detect a returning person, the
 * fixed-width code with its salted hash suffix, and get-or-create over the
 * table of issued codes.
 *
 * SHA-256 is not computed here: it is a parameter, a function from the text
 * it hashes to a 64-character lower-case hexadecimal digest.
 */
module Uic {
  import opened Wrappers
  import opened Text
  import opened Models

  predicate IsLowerHexChar(c: char) {
    '0' <= c <= '9' || 'a' <= c <= 'f'
  }

  predicate IsUpperHexChar(c: char) {
    '0' <= c <= '9' || 'A' <= c <= 'F'
  }

  /** What hexdigest() returns for SHA-256: 64 lower-case hexadecimal characters. */
  type HexDigest = s: string | |s| == 64 && forall i :: 0 <= i < |s| ==> IsLowerHexChar(s[i])
    witness seq(64, _ => '0')

  /** hashlib.sha256(text.encode('utf-8')).hexdigest(). */
  type Sha256 = string -> HexDigest

  /** One character of the output alphabet of normalization: A..Z or 0..9. */
  predicate IsCodeChar(c: char) {
    'A' <= c <= 'Z' || '0' <= c <= '9'
  }

  /** Text made only of the output alphabet. */
  predicate IsCanonical(s: string) {
    forall i :: 0 <= i < |s| ==> IsCodeChar(s[i])
  }

  predicate IsCanonicalFields(f: Fields) {
    IsCanonical(f.firstName) && IsCanonical(f.lastName) && IsCanonical(f.birthYear)
    && IsCanonical(f.motherInit) && IsCanonical(f.healthZone)
  }

  // ---------------------------------------------------------------- normalization

  /** Drops every character of Unicode category Mn (the accents NFD split off). */
  function RemoveNonspacingMarks(s: string): (r: string)
    ensures |r| <= |s|
    ensures forall i :: 0 <= i < |r| ==> !IsNonspacingMark(r[i])
  {
    if s == [] then []
    else (if IsNonspacingMark(s[0]) then [] else [s[0]]) + RemoveNonspacingMarks(s[1..])
  }

  /** Removing marks keeps every other character, as often as it occurs, and adds none. */
  lemma {:induction false} RemoveNonspacingMarksFilters(s: string)
    ensures multiset(RemoveNonspacingMarks(s)) <= multiset(s)
    ensures forall c :: !IsNonspacingMark(c) ==> multiset(RemoveNonspacingMarks(s))[c] == multiset(s)[c]
  {
    if s != [] {
      RemoveNonspacingMarksFilters(s[1..]);
      assert s == [s[0]] + s[1..];
      assert multiset(s) == multiset{s[0]} + multiset(s[1..]);
      if IsNonspacingMark(s[0]) {
        assert RemoveNonspacingMarks(s) == RemoveNonspacingMarks(s[1..]);
      } else {
        assert RemoveNonspacingMarks(s) == [s[0]] + RemoveNonspacingMarks(s[1..]);
        assert multiset(RemoveNonspacingMarks(s)) == multiset{s[0]} + multiset(RemoveNonspacingMarks(s[1..]));
      }
    }
  }

  /** re.sub(r'[^a-zA-Z0-9]', '', s). */
  function KeepAsciiAlnum(s: string): (r: string)
    ensures |r| <= |s|
    ensures forall i :: 0 <= i < |r| ==> IsAsciiAlnum(r[i])
  {
    if s == [] then []
    else (if IsAsciiAlnum(s[0]) then [s[0]] else []) + KeepAsciiAlnum(s[1..])
  }

  /** The filter keeps every ASCII letter and digit, as often as it occurs, and adds nothing. */
  lemma {:induction false} KeepAsciiAlnumFilters(s: string)
    ensures multiset(KeepAsciiAlnum(s)) <= multiset(s)
    ensures forall c :: IsAsciiAlnum(c) ==> multiset(KeepAsciiAlnum(s))[c] == multiset(s)[c]
  {
    if s != [] {
      KeepAsciiAlnumFilters(s[1..]);
      assert s == [s[0]] + s[1..];
      assert multiset(s) == multiset{s[0]} + multiset(s[1..]);
      if IsAsciiAlnum(s[0]) {
        assert KeepAsciiAlnum(s) == [s[0]] + KeepAsciiAlnum(s[1..]);
        assert multiset(KeepAsciiAlnum(s)) == multiset{s[0]} + multiset(KeepAsciiAlnum(s[1..]));
      } else {
        assert KeepAsciiAlnum(s) == KeepAsciiAlnum(s[1..]);
      }
    }
  }

  /** Decompose, drop the accents, drop everything but ASCII letters and digits, upper-case. */
  function Pipeline(s: string): (r: string)
    ensures IsCanonical(r)
  {
    var letters := KeepAsciiAlnum(RemoveNonspacingMarks(Nfd(s)));
    assert forall i :: 0 <= i < |letters| ==> IsAscii(letters[i]);
    Upper(letters)
  }

  /** UICService._normalize_text. */
  function NormalizeText(text: string): (r: string)
    ensures IsCanonical(r)
  {
    if text == "" then "" else Pipeline(Strip(text))
  }

  lemma {:induction false} RemoveNonspacingMarksConcat(a: string, b: string)
    ensures RemoveNonspacingMarks(a + b) == RemoveNonspacingMarks(a) + RemoveNonspacingMarks(b)
  {
    if a == [] {
      assert a + b == b;
    } else {
      assert (a + b)[0] == a[0] && (a + b)[1..] == a[1..] + b;
      RemoveNonspacingMarksConcat(a[1..], b);
      var h, x, y := if IsNonspacingMark(a[0]) then [] else [a[0]], RemoveNonspacingMarks(a[1..]), RemoveNonspacingMarks(b);
      assert RemoveNonspacingMarks(a + b) == h + (x + y);
      assert RemoveNonspacingMarks(a) == h + x;
      assert h + (x + y) == (h + x) + y;
    }
  }

  lemma {:induction false} KeepAsciiAlnumConcat(a: string, b: string)
    ensures KeepAsciiAlnum(a + b) == KeepAsciiAlnum(a) + KeepAsciiAlnum(b)
  {
    if a == [] {
      assert a + b == b;
    } else {
      assert (a + b)[0] == a[0] && (a + b)[1..] == a[1..] + b;
      KeepAsciiAlnumConcat(a[1..], b);
      var h, x, y := if IsAsciiAlnum(a[0]) then [a[0]] else [], KeepAsciiAlnum(a[1..]), KeepAsciiAlnum(b);
      assert KeepAsciiAlnum(a + b) == h + (x + y);
      assert KeepAsciiAlnum(a) == h + x;
      assert h + (x + y) == (h + x) + y;
    }
  }

  /** Every stage works character by character, so the pipeline distributes over concatenation. */
  lemma PipelineConcat(a: string, b: string)
    ensures Pipeline(a + b) == Pipeline(a) + Pipeline(b)
  {
    NfdConcat(a, b);
    RemoveNonspacingMarksConcat(Nfd(a), Nfd(b));
    KeepAsciiAlnumConcat(RemoveNonspacingMarks(Nfd(a)), RemoveNonspacingMarks(Nfd(b)));
    UpperConcat(KeepAsciiAlnum(RemoveNonspacingMarks(Nfd(a))), KeepAsciiAlnum(RemoveNonspacingMarks(Nfd(b))));
  }

  /**
   * What one character becomes: the upper-case ASCII letter or digit it is or
   * decomposes to, or nothing at all.
   */
  function CharImage(c: char): string {
    var d := Decompose(c)[0];
    if IsAsciiAlnum(d) then [AsciiUpperChar(d)] else []
  }

  /** The filters after NFD keep at most the base letter of one decomposed character. */
  lemma FiltersOfDecomposed(d: string)
    requires |d| == 1 || (|d| == 2 && IsAsciiLetter(d[0]) && IsNonspacingMark(d[1]))
    ensures KeepAsciiAlnum(RemoveNonspacingMarks(d)) == (if IsAsciiAlnum(d[0]) then [d[0]] else [])
  {
    if |d| == 1 {
      assert RemoveNonspacingMarks(d) == (if IsNonspacingMark(d[0]) then [] else [d[0]]) + RemoveNonspacingMarks([]);
    } else {
      assert d == [d[0]] + [d[1]];
      RemoveNonspacingMarksConcat([d[0]], [d[1]]);
      assert RemoveNonspacingMarks([d[0]]) == [d[0]] + RemoveNonspacingMarks([]);
      assert RemoveNonspacingMarks([d[1]]) == [] + RemoveNonspacingMarks([]);
    }
    var kept := RemoveNonspacingMarks(d);
    assert kept == [] || kept == [d[0]];
    if kept != [] {
      assert KeepAsciiAlnum(kept) == (if IsAsciiAlnum(d[0]) then [d[0]] else []) + KeepAsciiAlnum([]);
    }
  }

  lemma PipelineOfChar(c: char)
    ensures Pipeline([c]) == CharImage(c)
  {
    var d := Decompose(c);
    assert Nfd([c]) == d + Nfd([]);
    assert Nfd([c]) == d;
    FiltersOfDecomposed(d);
  }

  /** The pipeline, character by character: the concatenated images of the characters. */
  function Images(s: string): string {
    if s == [] then [] else CharImage(s[0]) + Images(s[1..])
  }

  /** The staged pipeline and the character-by-character reading agree on every text. */
  lemma {:induction false} PipelineIsImages(s: string)
    ensures Pipeline(s) == Images(s)
  {
    if s == [] {
      assert Nfd(s) == [];
      assert RemoveNonspacingMarks([]) == [] && KeepAsciiAlnum([]) == [] && Upper([]) == [];
    } else {
      assert s == [s[0]] + s[1..];
      PipelineConcat([s[0]], s[1..]);
      PipelineOfChar(s[0]);
      PipelineIsImages(s[1..]);
    }
  }

  lemma {:induction false} ImagesConcat(a: string, b: string)
    ensures Images(a + b) == Images(a) + Images(b)
  {
    if a == [] {
      assert a + b == b;
    } else {
      assert (a + b)[0] == a[0] && (a + b)[1..] == a[1..] + b;
      ImagesConcat(a[1..], b);
    }
  }

  lemma WhitespaceImage(c: char)
    requires IsWhitespace(c)
    ensures CharImage(c) == []
  {
    assert Decompose(c) == [c];
  }

  lemma {:induction false} PipelineOfWhitespace(w: string)
    requires AllWhitespace(w)
    ensures Pipeline(w) == ""
  {
    if w != [] {
      assert w == [w[0]] + w[1..];
      PipelineConcat([w[0]], w[1..]);
      PipelineOfChar(w[0]);
      WhitespaceImage(w[0]);
      PipelineOfWhitespace(w[1..]);
    }
  }

  lemma SplitWindow(s: string, i: nat, j: nat)
    requires i <= j <= |s|
    ensures s == s[..i] + s[i..j] + s[j..]
  {
    assert s[..j] == s[..i] + s[i..j];
    assert s == s[..j] + s[j..];
  }

  /** Whitespace on either side of a text contributes nothing to the pipeline. */
  lemma PipelineOfPadded(lead: string, middle: string, trail: string)
    requires AllWhitespace(lead) && AllWhitespace(trail)
    ensures Pipeline(lead + middle + trail) == Pipeline(middle)
  {
    PipelineConcat(lead + middle, trail);
    PipelineConcat(lead, middle);
    PipelineOfWhitespace(lead);
    PipelineOfWhitespace(trail);
    var m := Pipeline(middle);
    assert "" + m + "" == m;
  }

  /** The whitespace stripping removes contributes nothing to the pipeline. */
  lemma PipelineOfStrip(text: string)
    ensures Pipeline(Strip(text)) == Pipeline(text)
  {
    var i, j := StripWindow(text);
    SplitWindow(text, i, j);
    PipelineOfPadded(text[..i], text[i..j], text[j..]);
  }

  /** Stripping first makes no difference to what normalization returns. */
  lemma NormalizeTextIsPipeline(text: string)
    ensures NormalizeText(text) == Pipeline(text)
  {
    if text == "" {
      assert Nfd(text) == [];
      assert RemoveNonspacingMarks([]) == [] && KeepAsciiAlnum([]) == [] && Upper([]) == [];
    } else {
      PipelineOfStrip(text);
    }
  }

  /** Normalization distributes over concatenation. */
  lemma NormalizeConcat(a: string, b: string)
    ensures NormalizeText(a + b) == NormalizeText(a) + NormalizeText(b)
  {
    NormalizeTextIsPipeline(a + b);
    NormalizeTextIsPipeline(a);
    NormalizeTextIsPipeline(b);
    PipelineConcat(a, b);
  }

  /** Empty or all-whitespace input normalizes to the empty string. */
  lemma NormalizeBlank(text: string)
    requires AllWhitespace(text)
    ensures NormalizeText(text) == ""
  {
    NormalizeTextIsPipeline(text);
    PipelineOfWhitespace(text);
  }

  lemma {:induction false} PipelineCanonicalIsIdentity(s: string)
    requires IsCanonical(s)
    ensures Pipeline(s) == s
  {
    if s != [] {
      var head, tail := [s[0]], s[1..];
      assert s == head + tail;
      PipelineConcat(head, tail);
      PipelineOfChar(s[0]);
      assert Decompose(s[0]) == [s[0]];
      assert Pipeline(head) == head;
      PipelineCanonicalIsIdentity(tail);
    }
  }

  /** Text already in the output alphabet normalizes to itself. */
  lemma NormalizeCanonicalIsIdentity(s: string)
    requires IsCanonical(s)
    ensures NormalizeText(s) == s
  {
    NormalizeTextIsPipeline(s);
    PipelineCanonicalIsIdentity(s);
  }

  /** Normalizing twice gives what normalizing once gives. */
  lemma NormalizeIdempotent(text: string)
    ensures NormalizeText(NormalizeText(text)) == NormalizeText(text)
  {
    NormalizeCanonicalIsIdentity(NormalizeText(text));
  }

  /** A character that is neither an ASCII letter or digit nor decomposes to one. */
  predicate IsDiscarded(c: char) {
    !IsAsciiAlnum(Decompose(c)[0])
  }

  /** Spaces, punctuation, apostrophes, hyphens, parentheses and marks are dropped wherever they stand. */
  lemma NormalizeDropsDiscarded(a: string, c: char, b: string)
    requires IsDiscarded(c)
    ensures NormalizeText(a + [c] + b) == NormalizeText(a + b)
  {
    var ac := a + [c];
    NormalizeIsImages(ac + b);
    NormalizeIsImages(a + b);
    ImagesConcat(ac, b);
    ImagesConcat(a, [c]);
    ImagesConcat(a, b);
    assert Images([c]) == [] by {
      assert [c][1..] == [];
      assert CharImage(c) == [];
    }
    var x := Images(a);
    assert x + [] == x;
  }

  /**
   * A space does not cut the text short: what follows it is normalized and
   * kept, so "Kinshasa (Gombe)" gives KINSHASA followed by GOMBE.
   */
  lemma NormalizeKeepsTextAfterSpace(a: string, b: string)
    ensures NormalizeText(a + " " + b) == NormalizeText(a) + NormalizeText(b)
  {
    assert IsDiscarded(' ') by { assert Decompose(' ') == [' ']; }
    NormalizeDropsDiscarded(a, ' ', b);
    NormalizeConcat(a, b);
  }

  /** An accented letter normalizes as its base letter does. */
  lemma NormalizeIgnoresAccent(a: string, c: char, b: string)
    requires |Decompose(c)| == 2
    ensures NormalizeText(a + [c] + b) == NormalizeText(a + [Decompose(c)[0]] + b)
  {
    var base := Decompose(c)[0];
    var ac, abase := a + [c], a + [base];
    NormalizeIsImages(ac + b);
    NormalizeIsImages(abase + b);
    ImagesConcat(ac, b);
    ImagesConcat(a, [c]);
    ImagesConcat(abase, b);
    ImagesConcat(a, [base]);
    assert Images([c]) == CharImage(c) + Images([]) by { assert [c][1..] == []; }
    assert Images([base]) == CharImage(base) + Images([]) by { assert [base][1..] == []; }
    assert Decompose(base) == [base];
  }

  /** A small Latin-1 letter and its capital decompose to the same letter, up to case. */
  lemma CharImageOfUpperLatin1(c: char)
    requires '\U{E0}' <= c <= '\U{FE}' && c != '\U{F7}'
    ensures UpperChar(c) == [(c as int - 32) as char]
    ensures CharImage((c as int - 32) as char) == CharImage(c)
  {
    var u := (c as int - 32) as char;
    var o := c as int - 0xE0;
    assert u as int - 0xC0 == o;
    match Latin1Decomposition(o)
    case Some((base, mark)) =>
      assert Decompose(c)[0] == (base as int + 32) as char;
      assert Decompose(u)[0] == base;
    case None =>
      assert Decompose(c) == [c] && Decompose(u) == [u];
  }

  lemma CharImageOfUpper(c: char)
    requires c != '\U{DF}'
    ensures |UpperChar(c)| == 1 && CharImage(UpperChar(c)[0]) == CharImage(c)
  {
    var u := UpperChar(c)[0];
    if 'a' <= c <= 'z' {
      assert Decompose(c) == [c] && Decompose(u) == [u];
    } else if c == '\U{B5}' {
      assert Decompose(c) == [c] && Decompose(u) == [u];
    } else if '\U{E0}' <= c <= '\U{FE}' && c != '\U{F7}' {
      CharImageOfUpperLatin1(c);
    } else if c == '\U{FF}' {
      assert Decompose(c)[0] == 'y' && Decompose(u)[0] == 'Y';
    } else {
      assert u == c;
    }
  }

  /** Upper-casing text without ß leaves its character-by-character image unchanged. */
  lemma {:induction false} ImagesOfUpper(s: string)
    requires '\U{DF}' !in s
    ensures Images(Upper(s)) == Images(s)
  {
    if s != [] {
      var u, rest := UpperChar(s[0]), Upper(s[1..]);
      CharImageOfUpper(s[0]);
      assert s == [s[0]] + s[1..];
      assert Upper(s) == u + rest;
      ImagesConcat(u, rest);
      assert Images(u) == CharImage(u[0]) by {
        assert u == [u[0]] && u[1..] == [];
      }
      assert '\U{DF}' !in s[1..] by {
        forall i | 0 <= i < |s[1..]| ensures s[1..][i] != '\U{DF}' {
          assert s[1..][i] == s[i + 1];
        }
      }
      ImagesOfUpper(s[1..]);
    }
  }

  /** Case does not matter to normalization: text and its upper case normalize alike (ß aside). */
  lemma NormalizeIgnoresCase(s: string)
    requires '\U{DF}' !in s
    ensures NormalizeText(Upper(s)) == NormalizeText(s)
  {
    NormalizeIsImages(Upper(s));
    NormalizeIsImages(s);
    ImagesOfUpper(s);
  }

  /** Two spellings that differ only in letter case normalize to the same text (ß aside). */
  lemma CaseVariantsNormalizeAlike(x: string, y: string)
    requires '\U{DF}' !in x && '\U{DF}' !in y
    requires Upper(x) == Upper(y)
    ensures NormalizeText(x) == NormalizeText(y)
  {
    NormalizeIgnoresCase(x);
    NormalizeIgnoresCase(y);
  }

  /** Normalization read character by character. */
  lemma NormalizeIsImages(text: string)
    ensures NormalizeText(text) == Images(text)
  {
    NormalizeTextIsPipeline(text);
    PipelineIsImages(text);
  }

  /** Read character by character, ASCII letters and digits are only upper-cased. */
  lemma {:induction false} ImagesOfAlnum(s: string)
    requires forall i :: 0 <= i < |s| ==> IsAsciiAlnum(s[i])
    ensures Images(s) == Upper(s)
  {
    if s != [] {
      var c := s[0];
      assert Decompose(c) == [c];
      assert CharImage(c) == [AsciiUpperChar(c)];
      assert UpperChar(c) == [AsciiUpperChar(c)];
      assert s == [c] + s[1..];
      assert Upper(s) == UpperChar(c) + Upper(s[1..]);
      ImagesOfAlnum(s[1..]);
    }
  }

  /** Text made only of ASCII letters and digits normalizes to its upper case. */
  lemma NormalizeAlnum(s: string)
    requires forall i :: 0 <= i < |s| ==> IsAsciiAlnum(s[i])
    ensures NormalizeText(s) == Upper(s)
  {
    NormalizeIsImages(s);
    ImagesOfAlnum(s);
  }

  /** When w lists the one-letter image of each character of t, the character-by-character reading of t is w. */
  lemma {:induction false} ImagesOfWord(t: string, w: string)
    requires |t| == |w|
    requires forall i :: 0 <= i < |t| ==> CharImage(t[i]) == [w[i]]
    ensures Images(t) == w
  {
    if t != [] {
      assert forall i :: 0 <= i < |t[1..]| ==> CharImage(t[1..][i]) == [w[1..][i]] by {
        forall i | 0 <= i < |t[1..]| ensures CharImage(t[1..][i]) == [w[1..][i]] {
          assert t[1..][i] == t[i + 1] && w[1..][i] == w[i + 1];
        }
      }
      ImagesOfWord(t[1..], w[1..]);
      assert w == [w[0]] + w[1..];
    }
  }

  /** A discarded character has no image. */
  lemma DiscardedImage(c: char)
    requires IsDiscarded(c)
    ensures Images([c]) == []
  {
    assert [c][1..] == [];
    assert CharImage(c) == [];
  }

  lemma SplitAround(s: string, k: nat)
    requires k < |s|
    ensures s == s[..k] + [s[k]] + s[k + 1..]
  {
    assert s[k..] == [s[k]] + s[k + 1..];
    assert s == s[..k] + s[k..];
  }

  /** The images of a text around a discarded character are the images of the two sides. */
  lemma ImagesAroundDiscarded(s: string, k: nat)
    requires k < |s| && IsDiscarded(s[k])
    ensures Images(s) == Images(s[..k]) + Images(s[k + 1..])
  {
    var a, c, b := s[..k], s[k], s[k + 1..];
    SplitAround(s, k);
    DiscardedImage(c);
    ImagesConcat(a + [c], b);
    ImagesConcat(a, [c]);
    var x := Images(a);
    assert x + [] == x;
  }

  // The worked examples below go in three layers. The solver evaluates a
  // function applied to a string literal character by character, and that is
  // too costly when the whole pipeline runs on it. So each word is read first
  // from a text given only by its length and characters (Images<Word>); a
  // second lemma carries that reading to NormalizeText (Normalize<Word>); and
  // the Example lemma is the literal case alone.

  lemma ImagesGedeon(t: string)
    requires |t| == 6 && t[0] == 'G' && t[1] == 'é' && t[2] == 'd' && t[3] == 'é'
    requires t[4] == 'o' && t[5] == 'n'
    ensures Images(t) == "GEDEON"
  {
    assert Decompose('é') == ['e', '\U{301}'];
    ImagesOfWord(t, "GEDEON");
  }

  lemma NormalizeGedeon(s: string)
    requires |s| == 6 && s[0] == 'G' && s[1] == 'é' && s[2] == 'd' && s[3] == 'é'
    requires s[4] == 'o' && s[5] == 'n'
    ensures NormalizeText(s) == "GEDEON"
  {
    ImagesGedeon(s);
    NormalizeIsImages(s);
  }

  /** "Gédéon" gives GEDEON. */
  lemma ExampleGedeon(s: string)
    requires s == "Gédéon"
    ensures NormalizeText(s) == "GEDEON"
  {
    NormalizeGedeon(s);
  }

  lemma ImagesGedeonLower(t: string)
    requires |t| == 6 && t[0] == 'g' && t[1] == 'e' && t[2] == 'd' && t[3] == 'e'
    requires t[4] == 'o' && t[5] == 'n'
    ensures Images(t) == "GEDEON"
  {
    ImagesOfWord(t, "GEDEON");
  }

  lemma NormalizeGedeonLower(s: string)
    requires |s| == 6 && s[0] == 'g' && s[1] == 'e' && s[2] == 'd' && s[3] == 'e'
    requires s[4] == 'o' && s[5] == 'n'
    ensures NormalizeText(s) == "GEDEON"
  {
    ImagesGedeonLower(s);
    NormalizeIsImages(s);
  }

  /** "gedeon" gives GEDEON too. */
  lemma ExampleGedeonLower(s: string)
    requires s == "gedeon"
    ensures NormalizeText(s) == "GEDEON"
  {
    NormalizeGedeonLower(s);
  }

  lemma ImagesFrancois(t: string)
    requires |t| == 8 && t[0] == 'F' && t[1] == 'r' && t[2] == 'a' && t[3] == 'n'
    requires t[4] == 'ç' && t[5] == 'o' && t[6] == 'i' && t[7] == 's'
    ensures Images(t) == "FRANCOIS"
  {
    assert Decompose('ç') == ['c', '\U{327}'];
    ImagesOfWord(t, "FRANCOIS");
  }

  lemma NormalizeFrancois(s: string)
    requires |s| == 8 && s[0] == 'F' && s[1] == 'r' && s[2] == 'a' && s[3] == 'n'
    requires s[4] == 'ç' && s[5] == 'o' && s[6] == 'i' && s[7] == 's'
    ensures NormalizeText(s) == "FRANCOIS"
  {
    ImagesFrancois(s);
    NormalizeIsImages(s);
  }

  /** "François" gives FRANCOIS. */
  lemma ExampleFrancois(s: string)
    requires s == "François"
    ensures NormalizeText(s) == "FRANCOIS"
  {
    NormalizeFrancois(s);
  }

  lemma ImagesN(t: string)
    requires |t| == 1 && t[0] == 'N'
    ensures Images(t) == "N"
  {
    ImagesOfWord(t, "N");
  }

  lemma ImagesDjamena(t: string)
    requires |t| == 7 && t[0] == 'D' && t[1] == 'j' && t[2] == 'a' && t[3] == 'm'
    requires t[4] == 'e' && t[5] == 'n' && t[6] == 'a'
    ensures Images(t) == "DJAMENA"
  {
    ImagesOfWord(t, "DJAMENA");
  }

  lemma ImagesNdjamena(s: string)
    requires |s| == 9 && s[0] == 'N' && s[1] == '\'' && s[2] == 'D' && s[3] == 'j'
    requires s[4] == 'a' && s[5] == 'm' && s[6] == 'e' && s[7] == 'n' && s[8] == 'a'
    ensures Images(s) == "NDJAMENA"
  {
    assert "N" + "DJAMENA" == "NDJAMENA";
    assert IsDiscarded(s[1]) by { assert Decompose('\'') == ['\'']; }
    ImagesAroundDiscarded(s, 1);
    ImagesN(s[..1]);
    ImagesDjamena(s[2..]);
  }

  lemma NormalizeNdjamena(s: string)
    requires |s| == 9 && s[0] == 'N' && s[1] == '\'' && s[2] == 'D' && s[3] == 'j'
    requires s[4] == 'a' && s[5] == 'm' && s[6] == 'e' && s[7] == 'n' && s[8] == 'a'
    ensures NormalizeText(s) == "NDJAMENA"
  {
    ImagesNdjamena(s);
    NormalizeIsImages(s);
  }

  /** "N'Djamena" gives NDJAMENA. */
  lemma ExampleNdjamena(s: string)
    requires s == "N'Djamena"
    ensures NormalizeText(s) == "NDJAMENA"
  {
    NormalizeNdjamena(s);
  }

  lemma ImagesJean(t: string)
    requires |t| == 4 && t[0] == 'J' && t[1] == 'e' && t[2] == 'a' && t[3] == 'n'
    ensures Images(t) == "JEAN"
  {
    ImagesOfWord(t, "JEAN");
  }

  lemma ImagesPaul(t: string)
    requires |t| == 4 && t[0] == 'P' && t[1] == 'a' && t[2] == 'u' && t[3] == 'l'
    ensures Images(t) == "PAUL"
  {
    ImagesOfWord(t, "PAUL");
  }

  lemma ImagesJeanPaul(s: string)
    requires |s| == 9 && s[0] == 'J' && s[1] == 'e' && s[2] == 'a' && s[3] == 'n'
    requires s[4] == '-' && s[5] == 'P' && s[6] == 'a' && s[7] == 'u' && s[8] == 'l'
    ensures Images(s) == "JEANPAUL"
  {
    assert "JEAN" + "PAUL" == "JEANPAUL";
    assert IsDiscarded(s[4]) by { assert Decompose('-') == ['-']; }
    ImagesAroundDiscarded(s, 4);
    ImagesJean(s[..4]);
    ImagesPaul(s[5..]);
  }

  lemma NormalizeJeanPaul(s: string)
    requires |s| == 9 && s[0] == 'J' && s[1] == 'e' && s[2] == 'a' && s[3] == 'n'
    requires s[4] == '-' && s[5] == 'P' && s[6] == 'a' && s[7] == 'u' && s[8] == 'l'
    ensures NormalizeText(s) == "JEANPAUL"
  {
    ImagesJeanPaul(s);
    NormalizeIsImages(s);
  }

  /** "Jean-Paul" gives JEANPAUL. */
  lemma ExampleJeanPaul(s: string)
    requires s == "Jean-Paul"
    ensures NormalizeText(s) == "JEANPAUL"
  {
    NormalizeJeanPaul(s);
  }

  /** "GEDEON" is already in the output alphabet and gives itself. */
  lemma ExampleGedeonUpper(s: string)
    requires s == "GEDEON"
    ensures NormalizeText(s) == "GEDEON"
  {
    assert IsCanonical(s) by {
      assert |s| == 6 && s[0] == 'G' && s[1] == 'E' && s[2] == 'D' && s[3] == 'E' && s[4] == 'O' && s[5] == 'N';
    }
    NormalizeCanonicalIsIdentity(s);
  }

  /** UICService.normalize_inputs: each answer normalized, order kept. */
  function NormalizeInputs(raw: Fields): (r: Fields)
    ensures IsCanonicalFields(r)
  {
    Fields(NormalizeText(raw.firstName), NormalizeText(raw.lastName), NormalizeText(raw.birthYear),
           NormalizeText(raw.motherInit), NormalizeText(raw.healthZone))
  }

  /** Normalized answers are a fixed point of normalize_inputs. */
  lemma NormalizeInputsIdempotent(raw: Fields)
    ensures NormalizeInputs(NormalizeInputs(raw)) == NormalizeInputs(raw)
  {
    NormalizeIdempotent(raw.firstName);
    NormalizeIdempotent(raw.lastName);
    NormalizeIdempotent(raw.birthYear);
    NormalizeIdempotent(raw.motherInit);
    NormalizeIdempotent(raw.healthZone);
  }

  // ---------------------------------------------------------------- fingerprint

  /** The text the fingerprint hashes: the five fields joined with '|'. */
  function JoinFields(n: Fields): string {
    n.firstName + "|" + n.lastName + "|" + n.birthYear + "|" + n.motherInit + "|" + n.healthZone
  }

  /** UICService._calculate_input_hash: unsalted SHA-256 of the joined fields. */
  function InputHash(sha256: Sha256, n: Fields): HexDigest {
    sha256(JoinFields(n))
  }

  /** In x + "|" + s with no '|' in s, the separator is the last '|'. */
  lemma LastBar(x: string, s: string)
    requires '|' !in s
    ensures (x + "|" + s)[|x|] == '|'
    ensures forall k :: |x| < k < |x| + 1 + |s| ==> (x + "|" + s)[k] != '|'
  {
    var u := x + "|" + s;
    forall k | |x| < k < |x| + 1 + |s| ensures u[k] != '|' {
      assert u[k] == s[k - |x| - 1];
    }
  }

  /** Two texts that end in '|' and a tail without '|' split there the same way. */
  lemma SplitAtLastBar(x: string, s: string, y: string, t: string)
    requires '|' !in s && '|' !in t
    requires x + "|" + s == y + "|" + t
    ensures x == y && s == t
  {
    var u := x + "|" + s;
    LastBar(x, s);
    LastBar(y, t);
    assert |x| == |y|;
    assert x == u[..|x|] == y;
    assert s == u[|x| + 1..] == t;
  }

  lemma CanonicalHasNoBar(s: string)
    requires IsCanonical(s)
    ensures '|' !in s
  {
  }

  /**
   * Normalized fields hold no '|', so the joined text determines all five:
   * two different normalized inputs are never hashed from the same text.
   */
  lemma JoinFieldsInjective(a: Fields, b: Fields)
    requires IsCanonicalFields(a) && IsCanonicalFields(b)
    requires JoinFields(a) == JoinFields(b)
    ensures a == b
  {
    CanonicalHasNoBar(a.lastName); CanonicalHasNoBar(b.lastName);
    CanonicalHasNoBar(a.birthYear); CanonicalHasNoBar(b.birthYear);
    CanonicalHasNoBar(a.motherInit); CanonicalHasNoBar(b.motherInit);
    CanonicalHasNoBar(a.healthZone); CanonicalHasNoBar(b.healthZone);
    var a2, b2 := a.firstName + "|" + a.lastName, b.firstName + "|" + b.lastName;
    var a3, b3 := a2 + "|" + a.birthYear, b2 + "|" + b.birthYear;
    var a4, b4 := a3 + "|" + a.motherInit, b3 + "|" + b.motherInit;
    SplitAtLastBar(a4, a.healthZone, b4, b.healthZone);
    SplitAtLastBar(a3, a.motherInit, b3, b.motherInit);
    SplitAtLastBar(a2, a.birthYear, b2, b.birthYear);
    SplitAtLastBar(a.firstName, a.lastName, b.firstName, b.lastName);
  }

  /**
   * Equal fingerprints of normalized inputs mean equal inputs, as long as
   * SHA-256 does not collide on the two joined texts.
   */
  lemma SameFingerprintSameInputs(sha256: Sha256, a: Fields, b: Fields)
    requires IsCanonicalFields(a) && IsCanonicalFields(b)
    requires sha256(JoinFields(a)) == sha256(JoinFields(b)) ==> JoinFields(a) == JoinFields(b)
    ensures InputHash(sha256, a) == InputHash(sha256, b) <==> a == b
  {
    if InputHash(sha256, a) == InputHash(sha256, b) {
      JoinFieldsInjective(a, b);
    }
  }

  // ---------------------------------------------------------------- code

  function Min(a: int, b: int): int { if a <= b then a else b }
  function Max(a: int, b: int): int { if a >= b then a else b }

  /** The last n characters, or all of s when it is shorter: s[-n:] for n >= 1 (Python's s[-0:] would be all of s). */
  function TakeLast(s: string, n: nat): (r: string)
    ensures |r| == Min(|s|, n) && r == s[|s| - |r|..]
  {
    if |s| <= n then s else s[|s| - n..]
  }

  /** s[:n]: the first n characters, or all of s when it is shorter. */
  function TakeFirst(s: string, n: nat): (r: string)
    ensures |r| == Min(|s|, n) && r == s[..|r|]
  {
    if |s| <= n then s else s[..n]
  }

  /** str.rjust(width, fill): s, preceded by as many fills as make it width long. */
  function PadLeft(s: string, width: nat, fill: char): (r: string)
    ensures |r| == Max(|s|, width) && r[|r| - |s|..] == s
    ensures forall i :: 0 <= i < |r| - |s| ==> r[i] == fill
  {
    if |s| >= width then s else seq(width - |s|, _ => fill) + s
  }

  /** str.ljust(width, fill): s, followed by as many fills as make it width long. */
  function PadRight(s: string, width: nat, fill: char): (r: string)
    ensures |r| == Max(|s|, width) && r[..|s|] == s
    ensures forall i :: |s| <= i < |r| ==> r[i] == fill
  {
    if |s| >= width then s else s + seq(width - |s|, _ => fill)
  }

  /** The salted text whose hash ends the code: the five fields run together, then the salt. */
  function HashSeed(n: Fields, salt: string): string {
    n.firstName + n.lastName + n.birthYear + n.motherInit + n.healthZone + salt
  }

  /** hexdigest().upper()[:5]. */
  function HashSuffix(sha256: Sha256, n: Fields, salt: string): (r: string)
    ensures |r| == 5 && forall i :: 0 <= i < 5 ==> IsUpperHexChar(r[i])
  {
    var digest := sha256(HashSeed(n, salt));
    assert forall i :: 0 <= i < |digest| ==> IsAscii(digest[i]);
    Upper(digest)[..5]
  }

  /** The f-string that assembles the code from its six fixed-width parts. */
  function FormatCode(year: string, place: string, day: string, name: string, family: string, suffix: string): (r: string)
    requires |year| == 3 && |place| == 4 && |day| == 2 && |name| == 3 && |family| == 4 && |suffix| == 5
    ensures |r| == 25
    ensures r[3] == '-' && r[10] == '-' && r[14] == '-' && r[19] == '-'
    ensures r[..3] == year && r[4..8] == place && r[8..10] == day
    ensures r[11..14] == name && r[15..19] == family && r[20..] == suffix
  {
    year + "-" + place + day + "-" + name + "-" + family + "-" + suffix
  }

  /** UICService._generate_uic_code. */
  function GenerateUicCode(sha256: Sha256, salt: string, n: Fields): (r: string)
    ensures |r| == 25
    ensures r[3] == '-' && r[10] == '-' && r[14] == '-' && r[19] == '-'
    ensures r[..3] == PadLeft(TakeLast(n.firstName, 3), 3, '0')
    ensures r[4..8] == PadRight(TakeFirst(n.lastName, 4), 4, 'X')
    ensures r[8..10] == PadLeft(TakeFirst(n.motherInit, 2), 2, '0')
    ensures r[11..14] == PadRight(TakeFirst(n.birthYear, 3), 3, 'X')
    ensures r[15..19] == PadRight(TakeFirst(n.healthZone, 4), 4, 'X')
    ensures r[20..] == HashSuffix(sha256, n, salt)
  {
    var year := PadLeft(TakeLast(n.firstName, 3), 3, '0');
    var place := PadRight(TakeFirst(n.lastName, 4), 4, 'X');
    var day := PadLeft(TakeFirst(n.motherInit, 2), 2, '0');
    var name := PadRight(TakeFirst(n.birthYear, 3), 3, 'X');
    var family := PadRight(TakeFirst(n.healthZone, 4), 4, 'X');
    FormatCode(year, place, day, name, family, HashSuffix(sha256, n, salt))
  }

  /** The salt reaches only the last five characters of the code. */
  lemma CodeBodyIgnoresSalt(sha256: Sha256, salt1: string, salt2: string, n: Fields)
    ensures GenerateUicCode(sha256, salt1, n)[..20] == GenerateUicCode(sha256, salt2, n)[..20]
  {
    var c1, c2 := GenerateUicCode(sha256, salt1, n), GenerateUicCode(sha256, salt2, n);
    assert c1[..20] == c1[..3] + "-" + c1[4..8] + c1[8..10] + "-" + c1[11..14] + "-" + c1[15..19] + "-";
    assert c2[..20] == c2[..3] + "-" + c2[4..8] + c2[8..10] + "-" + c2[11..14] + "-" + c2[15..19] + "-";
  }

  lemma TakeLastCanonical(s: string, k: nat)
    requires IsCanonical(s)
    ensures IsCanonical(TakeLast(s, k))
  {
    var r := TakeLast(s, k);
    forall i | 0 <= i < |r| ensures 'A' <= r[i] <= 'Z' || '0' <= r[i] <= '9' {
      assert r[i] == s[|s| - |r| + i];
    }
  }

  lemma TakeFirstCanonical(s: string, k: nat)
    requires IsCanonical(s)
    ensures IsCanonical(TakeFirst(s, k))
  {
    var r := TakeFirst(s, k);
    forall i | 0 <= i < |r| ensures 'A' <= r[i] <= 'Z' || '0' <= r[i] <= '9' {
      assert r[i] == s[i];
    }
  }

  lemma PadLeftCanonical(s: string, width: nat, fill: char)
    requires IsCanonical(s) && IsCodeChar(fill)
    ensures IsCanonical(PadLeft(s, width, fill))
  {
    var r := PadLeft(s, width, fill);
    forall i | 0 <= i < |r| ensures 'A' <= r[i] <= 'Z' || '0' <= r[i] <= '9' {
      if i >= |r| - |s| { assert r[i] == s[i - (|r| - |s|)]; }
    }
  }

  lemma PadRightCanonical(s: string, width: nat, fill: char)
    requires IsCanonical(s) && IsCodeChar(fill)
    ensures IsCanonical(PadRight(s, width, fill))
  {
    var r := PadRight(s, width, fill);
    forall i | 0 <= i < |r| ensures 'A' <= r[i] <= 'Z' || '0' <= r[i] <= '9' {
      if i < |s| { assert r[i] == s[i]; }
    }
  }

  /**
   * From normalized fields, every character of the code other than the four
   * dashes is an upper-case letter or a digit.
   */
  lemma CodeAlphabet(sha256: Sha256, salt: string, n: Fields)
    requires IsCanonicalFields(n)
    ensures var c := GenerateUicCode(sha256, salt, n);
      forall i :: 0 <= i < 25 && i != 3 && i != 10 && i != 14 && i != 19 ==> IsCodeChar(c[i])
  {
    var c := GenerateUicCode(sha256, salt, n);
    TakeLastCanonical(n.firstName, 3);
    PadLeftCanonical(TakeLast(n.firstName, 3), 3, '0');
    TakeFirstCanonical(n.lastName, 4);
    PadRightCanonical(TakeFirst(n.lastName, 4), 4, 'X');
    TakeFirstCanonical(n.motherInit, 2);
    PadLeftCanonical(TakeFirst(n.motherInit, 2), 2, '0');
    TakeFirstCanonical(n.birthYear, 3);
    PadRightCanonical(TakeFirst(n.birthYear, 3), 3, 'X');
    TakeFirstCanonical(n.healthZone, 4);
    PadRightCanonical(TakeFirst(n.healthZone, 4), 4, 'X');
    forall i | 0 <= i < 25 && i != 3 && i != 10 && i != 14 && i != 19 ensures IsCodeChar(c[i]) {
      if i < 3 { assert c[i] == c[..3][i]; }
      else if i < 8 { assert c[i] == c[4..8][i - 4]; }
      else if i < 10 { assert c[i] == c[8..10][i - 8]; }
      else if i < 14 { assert c[i] == c[11..14][i - 11]; }
      else if i < 19 { assert c[i] == c[15..19][i - 15]; }
      else { assert c[i] == c[20..][i - 20]; }
    }
  }

  /** The part of the code before the hash: the five padded fields and their dashes. */
  lemma CodePrefix(sha256: Sha256, salt: string, n: Fields)
    ensures GenerateUicCode(sha256, salt, n)[..20]
            == PadLeft(TakeLast(n.firstName, 3), 3, '0') + "-"
               + PadRight(TakeFirst(n.lastName, 4), 4, 'X') + PadLeft(TakeFirst(n.motherInit, 2), 2, '0') + "-"
               + PadRight(TakeFirst(n.birthYear, 3), 3, 'X') + "-"
               + PadRight(TakeFirst(n.healthZone, 4), 4, 'X') + "-"
  {
    var c := GenerateUicCode(sha256, salt, n);
    assert c[..20] == c[..3] + "-" + c[4..8] + c[8..10] + "-" + c[11..14] + "-" + c[15..19] + "-";
  }

  /** The code for the placeholder questions' sample answers: 1985, Kinshasa, Jean, 15, Kabila. */
  lemma CodeExample(sha256: Sha256, salt: string)
    ensures var c := GenerateUicCode(sha256, salt, Fields("1985", "KINSHASA", "JEAN", "15", "KABILA"));
      c[..3] == "985" && c[4..8] == "KINS" && c[8..10] == "15" && c[11..14] == "JEA" && c[15..19] == "KABI"
  {
    assert TakeLast("1985", 3) == "985";
    assert TakeFirst("KINSHASA", 4) == "KINS";
    assert TakeFirst("JEAN", 3) == "JEA";
    assert TakeFirst("KABILA", 4) == "KABI";
  }

  /** Short answers are padded: '0' on the left of the year and day, 'X' on the right of the rest. */
  lemma CodePaddingExample(sha256: Sha256, salt: string)
    ensures var c := GenerateUicCode(sha256, salt, Fields("5", "KI", "J", "", "K"));
      c[..3] == "005" && c[4..8] == "KIXX" && c[8..10] == "00" && c[11..14] == "JXX" && c[15..19] == "KXXX"
  {
    assert PadLeft("5", 3, '0') == seq(2, _ => '0') + "5";
    assert PadRight("KI", 4, 'X') == "KI" + seq(2, _ => 'X');
    assert PadLeft("", 2, '0') == seq(2, _ => '0') + "";
    assert PadRight("J", 3, 'X') == "J" + seq(2, _ => 'X');
    assert PadRight("K", 4, 'X') == "K" + seq(3, _ => 'X');
  }

  // ---------------------------------------------------------------- record table

  /** Why a database call on uic_records fails. */
  datatype DbError =
    | MultipleResultsFound         // scalar_one_or_none() saw more than one row
    | UniqueViolation(column: string)  // an insert repeated a unique column's value

  /** A row the duplicate query selects: active, with the given fingerprint. */
  predicate IsActiveMatch(r: UicRecord, fingerprint: string) {
    r.isActive && r.inputHash == fingerprint
  }

  /** The positions of the rows the duplicate query selects, in table order. */
  function ActiveMatches(records: seq<UicRecord>, fingerprint: string): (m: seq<nat>)
    ensures forall k :: 0 <= k < |m| ==> m[k] < |records| && IsActiveMatch(records[m[k]], fingerprint)
    ensures forall i :: 0 <= i < |records| && IsActiveMatch(records[i], fingerprint) ==> i in m
    ensures forall k, l :: 0 <= k < l < |m| ==> m[k] < m[l]
  {
    if records == [] then []
    else
      var last := |records| - 1;
      var m := ActiveMatches(records[..last], fingerprint);
      if IsActiveMatch(records[last], fingerprint) then m + [last] else m
  }

  /** Two different rows the duplicate query would both select. */
  predicate HasTwoActiveMatches(records: seq<UicRecord>, fingerprint: string) {
    exists i, j :: 0 <= i < j < |records|
      && IsActiveMatch(records[i], fingerprint) && IsActiveMatch(records[j], fingerprint)
  }

  /**
   * UICService.check_existing_uic: the position of the one active row with
   * the inputs' fingerprint, None when there is none, and the error
   * scalar_one_or_none() raises when there are several.
   */
  function CheckExistingUic(records: seq<UicRecord>, sha256: Sha256, n: Fields): (r: Result<Option<nat>, DbError>)
    ensures r.Ok? && r.value.Some? ==>
      r.value.value < |records| && IsActiveMatch(records[r.value.value], InputHash(sha256, n))
    ensures r == Ok(None) <==>
      forall i :: 0 <= i < |records| ==> !IsActiveMatch(records[i], InputHash(sha256, n))
    ensures r.Err? <==> HasTwoActiveMatches(records, InputHash(sha256, n))
    ensures r.Err? ==> r.error == MultipleResultsFound
  {
    var fingerprint := InputHash(sha256, n);
    var m := ActiveMatches(records, fingerprint);
    if |m| == 0 then Ok(None)
    else if |m| == 1 then
      Ok(Some(m[0]))
    else
      assert HasTwoActiveMatches(records, fingerprint) by {
        assert m[0] < m[1];
      }
      Err(MultipleResultsFound)
  }

  /**
   * The table as the service keeps it: codes are unique (the column's
   * constraint), no fingerprint has two active rows, and every row has been
   * requested at least once.
   */
  predicate RegistryValid(records: seq<UicRecord>) {
    && (forall i, j :: 0 <= i < j < |records| ==> records[i].uicCode != records[j].uicCode)
    && (forall i, j :: 0 <= i < j < |records| && records[i].isActive && records[j].isActive
          ==> records[i].inputHash != records[j].inputHash)
    && (forall i :: 0 <= i < |records| ==> records[i].requestCount >= 1)
  }

  /** In a valid table the duplicate query never finds two rows. */
  lemma ValidRegistryNeverAmbiguous(records: seq<UicRecord>, sha256: Sha256, n: Fields)
    requires RegistryValid(records)
    ensures CheckExistingUic(records, sha256, n).Ok?
  {
  }

  /** The existing row, requested once more at time now. */
  function Touch(r: UicRecord, now: int): UicRecord {
    r.(lastRequestedAt := now, requestCount := r.requestCount + 1)
  }

  predicate CodeInUse(records: seq<UicRecord>, code: string) {
    exists i :: 0 <= i < |records| && records[i].uicCode == code
  }

  /** The value create_uic returns: the code and whether it was just issued. */
  datatype Issued = Issued(code: string, isNew: bool)

  /**
   * The get-or-create step of create_uic on normalized answers: look for an
   * active row with the same fingerprint; reuse and touch it, or insert a new
   * row. The insert fails, leaving the table as it was, when the generated
   * code is already in the table.
   */
  function Register(records: seq<UicRecord>, sha256: Sha256, salt: string, phone: string, n: Fields, now: int)
    : (out: (Result<Issued, DbError>, seq<UicRecord>))
    ensures out.0.Err? ==> out.1 == records
    ensures out.0.Ok? && !out.0.value.isNew ==> |out.1| == |records|
    ensures out.0.Ok? && out.0.value.isNew ==> |out.1| == |records| + 1 && out.1[..|records|] == records
    ensures out.0.Ok? ==> exists i :: 0 <= i < |out.1| && IsActiveMatch(out.1[i], InputHash(sha256, n))
                                      && out.1[i].uicCode == out.0.value.code
  {
    match CheckExistingUic(records, sha256, n)
    case Err(e) => (Err(e), records)
    case Ok(Some(i)) =>
      var after := records[i := Touch(records[i], now)];
      assert IsActiveMatch(after[i], InputHash(sha256, n));
      (Ok(Issued(records[i].uicCode, false)), after)
    case Ok(None) =>
      var code := GenerateUicCode(sha256, salt, n);
      if CodeInUse(records, code) then (Err(UniqueViolation("uic_code")), records)
      else
        var after := records + [NewUicRecord(code, phone, n, InputHash(sha256, n), now)];
        assert IsActiveMatch(after[|records|], InputHash(sha256, n));
        (Ok(Issued(code, true)), after)
  }

  /** UICService.create_uic as a function of the table: normalize, then get-or-create. */
  function CreateUicSpec(records: seq<UicRecord>, sha256: Sha256, salt: string, phone: string, raw: Fields, now: int)
    : (out: (Result<Issued, DbError>, seq<UicRecord>))
    ensures out.0.Err? ==> out.1 == records
    ensures out.0.Ok? ==> exists i :: 0 <= i < |out.1| && IsActiveMatch(out.1[i], InputHash(sha256, NormalizeInputs(raw)))
                                      && out.1[i].uicCode == out.0.value.code
  {
    Register(records, sha256, salt, phone, NormalizeInputs(raw), now)
  }

  /**
   * A returning person: when an active row has the answers' fingerprint,
   * create_uic returns that row's code as not new, counts one more request
   * on it, stamps it with now and changes no other row.
   */
  lemma RegisterReusesActive(records: seq<UicRecord>, sha256: Sha256, salt: string, phone: string, n: Fields, now: int, i: nat)
    requires RegistryValid(records)
    requires i < |records| && IsActiveMatch(records[i], InputHash(sha256, n))
    ensures var out := Register(records, sha256, salt, phone, n, now);
      && out.0 == Ok(Issued(records[i].uicCode, false))
      && |out.1| == |records|
      && out.1[i] == records[i].(lastRequestedAt := now, requestCount := records[i].requestCount + 1)
      && (forall k :: 0 <= k < |records| && k != i ==> out.1[k] == records[k])
  {
    var found := CheckExistingUic(records, sha256, n);
    assert found.Ok? && found.value.Some?;
    assert found.value.value == i;
  }

  /**
   * A new person: with no active row for the fingerprint and a code not yet
   * in the table, create_uic appends exactly one active row, requested once,
   * holding the normalized answers, and returns its code as new.
   */
  lemma RegisterInsertsNew(records: seq<UicRecord>, sha256: Sha256, salt: string, phone: string, n: Fields, now: int)
    requires forall i :: 0 <= i < |records| ==> !IsActiveMatch(records[i], InputHash(sha256, n))
    requires !CodeInUse(records, GenerateUicCode(sha256, salt, n))
    ensures var code := GenerateUicCode(sha256, salt, n);
      Register(records, sha256, salt, phone, n, now)
        == (Ok(Issued(code, true)), records + [NewUicRecord(code, phone, n, InputHash(sha256, n), now)])
  {
    assert CheckExistingUic(records, sha256, n) == Ok(None);
  }

  /**
   * A row that was deactivated is never matched again, yet its code is what
   * the same answers and salt generate, so asking again for a deactivated
   * person's code fails on the unique code column.
   */
  lemma DeactivatedCodeBlocksReissue(records: seq<UicRecord>, sha256: Sha256, salt: string, phone: string, n: Fields, now: int, i: nat)
    requires i < |records| && !records[i].isActive
    requires records[i].uicCode == GenerateUicCode(sha256, salt, n)
    requires forall k :: 0 <= k < |records| ==> !IsActiveMatch(records[k], InputHash(sha256, n))
    ensures Register(records, sha256, salt, phone, n, now) == (Err(UniqueViolation("uic_code")), records)
  {
    assert CheckExistingUic(records, sha256, n) == Ok(None);
  }

  lemma TouchKeepsRegistryValid(records: seq<UicRecord>, i: nat, now: int)
    requires RegistryValid(records) && i < |records|
    ensures RegistryValid(records[i := Touch(records[i], now)])
  {
    var after := records[i := Touch(records[i], now)];
    assert forall k :: 0 <= k < |after| ==>
      after[k].uicCode == records[k].uicCode && after[k].isActive == records[k].isActive
      && after[k].inputHash == records[k].inputHash && after[k].requestCount >= records[k].requestCount;
  }

  lemma AppendKeepsRegistryValid(records: seq<UicRecord>, row: UicRecord)
    requires RegistryValid(records)
    requires !CodeInUse(records, row.uicCode) && row.requestCount >= 1
    requires forall i :: 0 <= i < |records| ==> !IsActiveMatch(records[i], row.inputHash)
    ensures RegistryValid(records + [row])
  {
    var after := records + [row];
    forall i, j | 0 <= i < j < |after| ensures after[i].uicCode != after[j].uicCode {
      if j == |records| { assert after[i] == records[i]; }
    }
  }

  /** create_uic keeps the table valid: codes stay unique and no fingerprint gets a second active row. */
  lemma RegisterKeepsRegistryValid(records: seq<UicRecord>, sha256: Sha256, salt: string, phone: string, n: Fields, now: int)
    requires RegistryValid(records)
    ensures RegistryValid(Register(records, sha256, salt, phone, n, now).1)
  {
    match CheckExistingUic(records, sha256, n)
    case Err(_) =>
    case Ok(Some(i)) =>
      TouchKeepsRegistryValid(records, i, now);
    case Ok(None) =>
      var code := GenerateUicCode(sha256, salt, n);
      if !CodeInUse(records, code) {
        AppendKeepsRegistryValid(records, NewUicRecord(code, phone, n, InputHash(sha256, n), now));
      }
  }

  /**
   * Asking twice with the same answers gives the same code, not new the
   * second time, whatever the phone and the time.
   */
  lemma RegisterTwice(records: seq<UicRecord>, sha256: Sha256, salt: string, n: Fields,
                      phone1: string, now1: int, phone2: string, now2: int)
    requires RegistryValid(records)
    requires Register(records, sha256, salt, phone1, n, now1).0.Ok?
    ensures var first := Register(records, sha256, salt, phone1, n, now1);
      var second := Register(first.1, sha256, salt, phone2, n, now2);
      second.0 == Ok(Issued(first.0.value.code, false))
  {
    var first := Register(records, sha256, salt, phone1, n, now1);
    RegisterKeepsRegistryValid(records, sha256, salt, phone1, n, now1);
    var k: nat;
    match CheckExistingUic(records, sha256, n) {
      case Ok(Some(i)) =>
        k := i;
      case Ok(None) =>
        k := |records|;
        RegisterInsertsNew(records, sha256, salt, phone1, n, now1);
    }
    RegisterReusesActive(first.1, sha256, salt, phone2, n, now2, k);
  }

  // ---------------------------------------------------------------- service

  /** The uic_records table, shared by every request. */
  class RecordTable {
    var rows: seq<UicRecord>

    constructor(rows: seq<UicRecord>)
      ensures this.rows == rows
    {
      this.rows := rows;
    }
  }

  /** UICService: a salt and the hash function, over a table passed to each call. */
  class UicService {
    const salt: string
    const sha256: Sha256

    /** The given salt, or the configured one when none or an empty one is given. */
    constructor(salt: Option<string>, configuredSalt: string, sha256: Sha256)
      ensures salt.Some? && salt.value != "" ==> this.salt == salt.value
      ensures salt.None? || salt.value == "" ==> this.salt == configuredSalt
      ensures this.sha256 == sha256
    {
      this.salt := if salt.Some? && salt.value != "" then salt.value else configuredSalt;
      this.sha256 := sha256;
    }

    /** UICService.create_uic: get-or-create the code for the raw answers. */
    method CreateUic(db: RecordTable, phone: string, raw: Fields, now: int) returns (result: Result<Issued, DbError>)
      modifies db
      ensures (result, db.rows) == CreateUicSpec(old(db.rows), sha256, salt, phone, raw, now)
      ensures RegistryValid(old(db.rows)) ==> RegistryValid(db.rows)
    {
      var n := NormalizeInputs(raw);
      if RegistryValid(db.rows) {
        RegisterKeepsRegistryValid(db.rows, sha256, salt, phone, n, now);
      }
      var existing := CheckExistingUic(db.rows, sha256, n);
      match existing {
        case Err(e) =>
          result := Err(e);
        case Ok(Some(i)) =>
          db.rows := db.rows[i := Touch(db.rows[i], now)];
          result := Ok(Issued(db.rows[i].uicCode, false));
        case Ok(None) =>
          var code := GenerateUicCode(sha256, salt, n);
          if CodeInUse(db.rows, code) {
            result := Err(UniqueViolation("uic_code"));
          } else {
            db.rows := db.rows + [NewUicRecord(code, phone, n, InputHash(sha256, n), now)];
            result := Ok(Issued(code, true));
          }
      }
    }
  }
}
