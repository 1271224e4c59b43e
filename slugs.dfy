/**
  `slugify` (gulpfile.babel.js:103-105): lower-case, trim, turn every ASCII
  space into `-`, then delete apostrophes and parentheses.
*/
module Slugs {

  /** The characters `String.prototype.trim` strips: ECMAScript WhiteSpace and LineTerminator. */
  predicate IsJsWhitespace(c: char) {
    if c < '\U{80}' then c == ' ' || '\t' <= c <= '\r'
    else
      c == '\U{A0}' || c == '\U{1680}' || '\U{2000}' <= c <= '\U{200A}'
      || c == '\U{2028}' || c == '\U{2029}' || c == '\U{202F}' || c == '\U{205F}'
      || c == '\U{3000}' || c == '\U{FEFF}'
  }

  predicate IsAsciiUpper(c: char) {
    'A' <= c <= 'Z'
  }

  /** The characters the final `replace(/['\(\)]/g, '')` deletes. */
  predicate IsRemoved(c: char) {
    c == '\'' || c == '(' || c == ')'
  }

  function LowerChar(c: char): char {
    if IsAsciiUpper(c) then (c as int + 32) as char else c
  }

  /** `toLowerCase`, on the ASCII letters. */
  function ToLower(s: string): string {
    seq(|s|, i requires 0 <= i < |s| => LowerChar(s[i]))
  }

  /** `s` without its leading whitespace. */
  function TrimStart(s: string): string {
    if s != [] && IsJsWhitespace(s[0]) then TrimStart(s[1..]) else s
  }

  /** `s` without its trailing whitespace. */
  function TrimEnd(s: string): string {
    if s != [] && IsJsWhitespace(s[|s| - 1]) then TrimEnd(s[..|s| - 1]) else s
  }

  /** Trimming the start leaves a suffix of `s` that does not begin with whitespace. */
  lemma {:induction false} TrimStartSuffix(s: string)
    ensures |TrimStart(s)| <= |s| && TrimStart(s) == s[|s| - |TrimStart(s)|..]
    ensures TrimStart(s) != [] ==> !IsJsWhitespace(TrimStart(s)[0])
  {
    if s != [] && IsJsWhitespace(s[0]) {
      TrimStartSuffix(s[1..]);
    }
  }

  /** Trimming the end leaves a prefix of `s` that does not end with whitespace. */
  lemma {:induction false} TrimEndPrefix(s: string)
    ensures |TrimEnd(s)| <= |s| && TrimEnd(s) == s[..|TrimEnd(s)|]
    ensures TrimEnd(s) != [] ==> !IsJsWhitespace(TrimEnd(s)[|TrimEnd(s)| - 1])
  {
    if s != [] && IsJsWhitespace(s[|s| - 1]) {
      TrimEndPrefix(s[..|s| - 1]);
    }
  }

  /** `trim`: `s` without its leading and trailing whitespace. */
  function Trim(s: string): string {
    TrimEnd(TrimStart(s))
  }

  /** `replace(/ /g, '-')`. */
  function HyphenateSpaces(s: string): string {
    seq(|s|, i requires 0 <= i < |s| => if s[i] == ' ' then '-' else s[i])
  }

  /** `replace(/['\(\)]/g, '')`: the characters of `s` that are kept, in order. */
  function DropQuotesAndParens(s: string): string {
    if s == [] then []
    else (if IsRemoved(s[0]) then [] else [s[0]]) + DropQuotesAndParens(s[1..])
  }

  /** Dropping keeps only characters of `s`, none of them removed ones, and keeps a clean `s` whole. */
  lemma {:induction false} DropFacts(s: string)
    ensures forall c :: c in DropQuotesAndParens(s) ==> c in s && !IsRemoved(c)
    ensures (forall c :: c in s ==> !IsRemoved(c)) ==> DropQuotesAndParens(s) == s
  {
    if s != [] {
      DropFacts(s[1..]);
      assert s == [s[0]] + s[1..];
    }
  }

  predicate NoUpper(s: string) {
    forall i :: 0 <= i < |s| ==> !IsAsciiUpper(s[i])
  }

  lemma LowerHasNoUpper(s: string)
    ensures NoUpper(ToLower(s))
  {
  }

  lemma TrimKeepsNoUpper(s: string)
    requires NoUpper(s)
    ensures NoUpper(Trim(s))
  {
    var t := TrimStart(s);
    TrimStartSuffix(s);
    TrimEndPrefix(t);
    forall i | 0 <= i < |t| ensures !IsAsciiUpper(t[i]) {
      assert t[i] == s[|s| - |t| + i];
    }
    var u := TrimEnd(t);
    forall i | 0 <= i < |u| ensures !IsAsciiUpper(u[i]) {
      assert u[i] == t[i];
    }
  }

  lemma HyphenateKeepsNoUpper(s: string)
    requires NoUpper(s)
    ensures NoUpper(HyphenateSpaces(s))
    ensures ' ' !in HyphenateSpaces(s)
  {
  }

  lemma CleanBeforeDrop(value: string)
    ensures NoUpper(HyphenateSpaces(Trim(ToLower(value))))
    ensures ' ' !in HyphenateSpaces(Trim(ToLower(value)))
  {
    LowerHasNoUpper(value);
    TrimKeepsNoUpper(ToLower(value));
    HyphenateKeepsNoUpper(Trim(ToLower(value)));
  }

  /** `slugify`: lower-case, trim, hyphenate the spaces, then drop apostrophes and parentheses. */
  function Slugify(value: string): string {
    DropQuotesAndParens(HyphenateSpaces(Trim(ToLower(value))))
  }

  /** A slug has no spaces, apostrophes, parentheses or upper-case ASCII letters. */
  lemma SlugIsClean(value: string)
    ensures ' ' !in Slugify(value) && '\'' !in Slugify(value)
    ensures '(' !in Slugify(value) && ')' !in Slugify(value)
    ensures forall c :: c in Slugify(value) ==> !IsAsciiUpper(c)
  {
    CleanBeforeDrop(value);
    DropFacts(HyphenateSpaces(Trim(ToLower(value))));
  }

  /** Every whitespace character that occurs in `s` is the ASCII space. */
  predicate OnlyAsciiSpaces(s: string) {
    forall i :: 0 <= i < |s| && IsJsWhitespace(s[i]) ==> s[i] == ' '
  }

  predicate NoWhitespace(s: string) {
    forall i :: 0 <= i < |s| ==> !IsJsWhitespace(s[i])
  }

  lemma TrimKeepsOnlyAsciiSpaces(s: string)
    requires OnlyAsciiSpaces(s)
    ensures OnlyAsciiSpaces(Trim(s))
  {
    var t := TrimStart(s);
    TrimStartSuffix(s);
    TrimEndPrefix(t);
    assert OnlyAsciiSpaces(t) by {
      forall i | 0 <= i < |t| ensures IsJsWhitespace(t[i]) ==> t[i] == ' ' {
        assert t[i] == s[|s| - |t| + i];
      }
    }
    var u := TrimEnd(t);
    assert forall i :: 0 <= i < |u| ==> u[i] == t[i];
  }

  lemma LowerKeepsOnlyAsciiSpaces(s: string)
    requires OnlyAsciiSpaces(s)
    ensures OnlyAsciiSpaces(ToLower(s))
  {
  }

  lemma HyphenateRemovesWhitespace(s: string)
    requires OnlyAsciiSpaces(s)
    ensures NoWhitespace(HyphenateSpaces(s))
  {
  }

  lemma DropKeepsNoWhitespace(s: string)
    requires NoWhitespace(s)
    ensures NoWhitespace(DropQuotesAndParens(s))
  {
    var r := DropQuotesAndParens(s);
    DropFacts(s);
    forall i | 0 <= i < |r| ensures !IsJsWhitespace(r[i]) {
      assert r[i] in r;
    }
  }

  lemma NoWhitespaceInSlug(value: string)
    requires OnlyAsciiSpaces(value)
    ensures NoWhitespace(Slugify(value))
  {
    LowerKeepsOnlyAsciiSpaces(value);
    TrimKeepsOnlyAsciiSpaces(ToLower(value));
    HyphenateRemovesWhitespace(Trim(ToLower(value)));
    DropKeepsNoWhitespace(HyphenateSpaces(Trim(ToLower(value))));
  }

  /**
    For a display text whose only whitespace is the ASCII space, slugging a
    slug changes nothing.
  */
  lemma SlugifyIdempotent(value: string)
    requires OnlyAsciiSpaces(value)
    ensures Slugify(Slugify(value)) == Slugify(value)
  {
    var s := Slugify(value);
    SlugIsClean(value);
    NoWhitespaceInSlug(value);
    LowerFixesSlug(s);
    TrimFixes(s);
    HyphenateFixes(s);
    DropFacts(s);
  }

  lemma LowerFixesSlug(s: string)
    requires forall c :: c in s ==> !IsAsciiUpper(c)
    ensures ToLower(s) == s
  {
    assert forall i :: 0 <= i < |s| ==> s[i] in s;
  }

  lemma TrimFixes(s: string)
    requires NoWhitespace(s)
    ensures Trim(s) == s
  {
    assert TrimStart(s) == s;
    assert TrimEnd(s) == s;
  }

  lemma HyphenateFixes(s: string)
    requires ' ' !in s
    ensures HyphenateSpaces(s) == s
  {
  }

  /**
    A tab that only becomes leading once a parenthesis is deleted survives the
    first pass and is trimmed by the second: slugify is not idempotent in general.
  */
  lemma SlugifyNotIdempotentWithTab()
    ensures Slugify("(\tx") == "\tx"
    ensures Slugify(Slugify("(\tx")) == "x"
  {
    ParenTabLower();
    ParenTabTrim();
    ParenTabHyphenate();
    ParenTabDrop();
    TabLower();
    TabTrim();
    XHyphenate();
    XDrop();
  }

  // The single steps of the two passes over "(\tx".

  lemma ParenTabLower() ensures ToLower("(\tx") == "(\tx" {}

  lemma ParenTabTrim() ensures Trim("(\tx") == "(\tx" {
    ParenTabTrimStart();
    ParenTabTrimEnd();
  }

  lemma ParenTabTrimStart() ensures TrimStart("(\tx") == "(\tx" {}

  lemma ParenTabTrimEnd() ensures TrimEnd("(\tx") == "(\tx" {}

  lemma ParenTabHyphenate() ensures HyphenateSpaces("(\tx") == "(\tx" {}

  lemma ParenTabDrop() ensures DropQuotesAndParens("(\tx") == "\tx" {
    assert "(\tx"[1..] == "\tx";
    assert "\tx"[1..] == "x";
    assert "x"[1..] == "";
  }

  lemma TabLower() ensures ToLower("\tx") == "\tx" {}

  lemma TabTrim() ensures Trim("\tx") == "x" {
    TabTrimStart();
    XTrimEnd();
  }

  lemma TabTrimStart() ensures TrimStart("\tx") == "x" {
    assert "\tx"[1..] == "x";
  }

  lemma XTrimEnd() ensures TrimEnd("x") == "x" {}

  lemma XHyphenate() ensures HyphenateSpaces("x") == "x" {}

  lemma XDrop() ensures DropQuotesAndParens("x") == "x" {}
}
