/** The Java and Spring string primitives the library leans on. Two of them
    look alike and are not: `hasText` asks `Character.isWhitespace`, while
    `String.trim` strips every character at or below U+0020. */
module Text {
  import opened Base
  import Numerals

  /** `Character.isWhitespace` as of Java 9: the Unicode space, line and
      paragraph separators other than the no-break spaces U+00A0, U+2007 and
      U+202F, plus the ASCII controls U+0009 to U+000D and U+001C to U+001F.
      Java 8 also counts U+180E, which later Unicode versions reclassified. */
  predicate IsWhitespace(c: char)
  {
    || ('\t' <= c <= '\r')
    || ('\U{001C}' <= c <= ' ')
    || c == '\U{1680}'
    || ('\U{2000}' <= c <= '\U{2006}')
    || ('\U{2008}' <= c <= '\U{200A}')
    || c == '\U{2028}' || c == '\U{2029}' || c == '\U{205F}' || c == '\U{3000}'
  }

  /** `StringUtils.hasText` (and so `Assert.hasText`): not null and holding
      at least one character that is not whitespace. */
  predicate HasText(s: Option<string>)
  {
    s.Some? && exists i :: 0 <= i < |s.value| && !IsWhitespace(s.value[i])
  }

  /** `StringUtils.isEmpty`: null or of length zero. */
  predicate IsEmpty(s: Option<string>)
  {
    s.None? || s.value == []
  }

  /** Spring's scan behind `hasText`: it stops at the first character that
      is not whitespace. */
  function ContainsText(s: string): bool
  {
    if s == [] then false else !IsWhitespace(s[0]) || ContainsText(s[1..])
  }

  lemma {:induction false} ContainsTextFinds(s: string)
    ensures ContainsText(s) <==> exists i :: 0 <= i < |s| && !IsWhitespace(s[i])
  {
    if s != [] {
      ContainsTextFinds(s[1..]);
      if exists i :: 0 <= i < |s| && !IsWhitespace(s[i]) {
        var i :| 0 <= i < |s| && !IsWhitespace(s[i]);
        if i > 0 {
          assert !IsWhitespace(s[1..][i - 1]);
        }
      }
      if exists i :: 0 <= i < |s[1..]| && !IsWhitespace(s[1..][i]) {
        var i :| 0 <= i < |s[1..]| && !IsWhitespace(s[1..][i]);
        assert !IsWhitespace(s[i + 1]);
      }
    }
  }

  /** `hasText` is the scan, run on a string that is neither null nor empty. */
  lemma HasTextScan(s: Option<string>)
    ensures HasText(s) <==> s.Some? && s.value != [] && ContainsText(s.value)
  {
    if s.Some? {
      ContainsTextFinds(s.value);
    }
  }

  /** `isEmpty` and `hasText` split the ids that `save` refuses: an empty
      one has no text, and the rest of those without text are the non-empty
      strings made only of whitespace. */
  lemma EmptyOrBlank(s: Option<string>)
    ensures IsEmpty(s) ==> !HasText(s)
    ensures !IsEmpty(s) && !HasText(s)
            <==> s.Some? && s.value != [] && forall i :: 0 <= i < |s.value| ==> IsWhitespace(s.value[i])
  {}

  /** Whether `String.trim` strips `c`. */
  predicate Trimmable(c: char)
  {
    c <= ' '
  }

  /** Index of the first character `String.trim` keeps. */
  function TrimStart(s: string): (lo: nat)
    ensures lo <= |s|
    ensures forall k :: 0 <= k < lo ==> Trimmable(s[k])
    ensures lo < |s| ==> !Trimmable(s[lo])
  {
    if s == [] || !Trimmable(s[0]) then 0 else 1 + TrimStart(s[1..])
  }

  /** Index just past the last character `String.trim` keeps, scanning back
      no further than `lo`. */
  function TrimEnd(s: string, lo: nat): (hi: nat)
    requires lo <= |s|
    ensures lo <= hi <= |s|
    ensures forall k :: hi <= k < |s| ==> Trimmable(s[k])
    ensures lo < hi ==> !Trimmable(s[hi - 1])
    decreases |s|
  {
    if |s| == lo || !Trimmable(s[|s| - 1]) then |s| else TrimEnd(s[..|s| - 1], lo)
  }

  /** `String.trim`: the infix left after stripping characters at or below
      U+0020 from both ends. */
  function Trim(s: string): (t: string)
    ensures TrimStart(s) + |t| <= |s|
    ensures t == s[TrimStart(s)..TrimStart(s) + |t|]
    ensures t != [] ==> !Trimmable(t[0]) && !Trimmable(t[|t| - 1])
    ensures t == [] <==> forall k :: 0 <= k < |s| ==> Trimmable(s[k])
    ensures forall k :: 0 <= k < TrimStart(s) ==> Trimmable(s[k])
    ensures forall k :: TrimStart(s) + |t| <= k < |s| ==> Trimmable(s[k])
  {
    var lo := TrimStart(s);
    s[lo..TrimEnd(s, lo)]
  }

  /** A string with nothing to strip at either end is its own trim. */
  lemma TrimKeepsTrimmed(s: string)
    requires s != [] ==> !Trimmable(s[0]) && !Trimmable(s[|s| - 1])
    ensures Trim(s) == s
  {
    if s != [] {
      assert TrimStart(s) == 0;
      assert TrimEnd(s, 0) == |s|;
    }
  }

  /** Trimming twice is trimming once. */
  lemma TrimIdempotent(s: string)
    ensures Trim(Trim(s)) == Trim(s)
  {
    TrimKeepsTrimmed(Trim(s));
  }

  /** If the trimmed text has text, so has the original: trimming only
      removes characters. */
  lemma HasTextOfTrim(s: string)
    requires HasText(Some(Trim(s)))
    ensures HasText(Some(s))
  {
    var t := Trim(s);
    var i :| 0 <= i < |t| && !IsWhitespace(t[i]);
    assert s[TrimStart(s) + i] == t[i];
  }

  /** The two notions of blank differ in both directions: U+0001 has text
      yet trims to nothing, and U+3000 is whitespace yet survives the trim. */
  lemma BlankIsNotTrimmedEmpty()
    ensures HasText(Some("\U{0001}")) && Trim("\U{0001}") == ""
    ensures !HasText(Some("\U{3000}")) && Trim("\U{3000}") == "\U{3000}"
  {
    assert !IsWhitespace("\U{0001}"[0]);
    assert TrimStart("\U{0001}") == 1;
    TrimKeepsTrimmed("\U{3000}");
  }

  /** `Character.toLowerCase` restricted to the ASCII letters A to Z. */
  function LowerChar(c: char): char
  {
    if 'A' <= c <= 'Z' then (c as int + 32) as char else c
  }

  predicate IsUpperAscii(c: char)
  {
    'A' <= c <= 'Z'
  }

  /** `String.toLowerCase(Locale.ENGLISH)` on ASCII letters: same length,
      no upper-case ASCII letter left, every other character untouched. */
  function LowerAscii(s: string): (r: string)
    ensures |r| == |s|
    ensures forall i :: 0 <= i < |r| ==> !IsUpperAscii(r[i])
    ensures forall i :: 0 <= i < |s| && !IsUpperAscii(s[i]) ==> r[i] == s[i]
    ensures forall i :: 0 <= i < |s| && IsUpperAscii(s[i]) ==> r[i] as int == s[i] as int + 32
  {
    seq(|s|, i requires 0 <= i < |s| => LowerChar(s[i]))
  }

  /** Lower-casing a lower-cased string changes nothing. */
  lemma LowerAsciiIdempotent(s: string)
    ensures LowerAscii(LowerAscii(s)) == LowerAscii(s)
  {}

  function DecimalDigit(d: nat): char
    requires d < 10
  {
    "0123456789"[d]
  }

  predicate IsDecimalDigit(c: char)
  {
    '0' <= c <= '9'
  }

  /** `String.format("%d", n)` for a non-negative `n`. */
  function Decimal(n: nat): (s: string)
    ensures |s| >= 1
    ensures forall i :: 0 <= i < |s| ==> IsDecimalDigit(s[i])
    ensures s[0] == '0' ==> n == 0
  {
    var ds := Numerals.NatToDigits(n, 10);
    seq(|ds|, i requires 0 <= i < |ds| => DecimalDigit(ds[i]))
  }

  /** Reads a non-empty run of ASCII decimal digits. */
  function ParseDecimal(s: string): Option<nat>
  {
    if s != [] && forall i :: 0 <= i < |s| ==> IsDecimalDigit(s[i])
    then Some(Numerals.DigitsToNat(seq(|s|, i requires 0 <= i < |s| => (s[i] as int - '0' as int) as nat), 10))
    else None
  }

  /** The decimal rendering reads back as the same number. */
  lemma DecimalRoundTrip(n: nat)
    ensures ParseDecimal(Decimal(n)) == Some(n)
  {
    var ds := Numerals.NatToDigits(n, 10);
    var s := Decimal(n);
    var back := seq(|s|, i requires 0 <= i < |s| => (s[i] as int - '0' as int) as nat);
    assert back == ds;
    Numerals.DigitsRoundTrip(n, 10);
  }
}
