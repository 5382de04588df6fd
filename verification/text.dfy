/**
 * The Foundation string operations a song file goes through:
 * `trimmingCharacters(in: .whitespacesAndNewlines)`,
 * `components(separatedBy:)` with a character set or a one-character
 * separator, and `Int(_:)`. Characters are Unicode scalar values; a
 * `"\r\n"` pair is two separators, as it is for `components(separatedBy:)`
 * on a character set.
 */
module Text {
  import opened Optional

  /** `CharacterSet.newlines`: U+000A through U+000D, U+0085, U+2028 and U+2029. */
  predicate IsNewline(c: char) {
    '\n' <= c <= '\r' || c == '\U{0085}' || c == '\U{2028}' || c == '\U{2029}'
  }

  /** `CharacterSet.whitespacesAndNewlines`: the Unicode separators (Zs, Zl, Zp), tab and the newlines. */
  predicate IsBlank(c: char) {
    || c == '\t' || IsNewline(c) || c == ' ' || c == '\U{00A0}' || c == '\U{1680}'
    || ('\U{2000}' <= c <= '\U{200A}') || c == '\U{202F}' || c == '\U{205F}' || c == '\U{3000}'
  }

  predicate AllBlank(s: string) {
    forall i :: 0 <= i < |s| ==> IsBlank(s[i])
  }

  // ---------------------------------------------------------------------------
  // Trimming

  /** The length of the blank prefix of `s`. */
  function LeadingBlanks(s: string): (n: nat)
    ensures n <= |s| && AllBlank(s[..n])
    ensures n < |s| ==> !IsBlank(s[n])
  {
    if |s| == 0 || !IsBlank(s[0]) then 0
    else
      var n := 1 + LeadingBlanks(s[1..]);
      assert s[..n] == [s[0]] + s[1..][..n - 1];
      n
  }

  /** The length of the blank suffix of `s`. */
  function TrailingBlanks(s: string): (n: nat)
    ensures n <= |s| && AllBlank(s[|s| - n..])
    ensures n < |s| ==> !IsBlank(s[|s| - n - 1])
  {
    if |s| == 0 || !IsBlank(s[|s| - 1]) then 0
    else
      var t := s[..|s| - 1];
      var m := TrailingBlanks(t);
      BlankSuffixGrows(s, m);
      assert m + 1 < |s| ==> s[|s| - (m + 1) - 1] == t[|t| - m - 1];
      m + 1
  }

  /** A blank last character extends the blank suffix of the rest by one. */
  lemma BlankSuffixGrows(s: string, m: nat)
    requires |s| >= 1 && IsBlank(s[|s| - 1]) && m <= |s| - 1
    requires AllBlank(s[..|s| - 1][|s| - 1 - m..])
    ensures AllBlank(s[|s| - 1 - m..])
  {
    var u := s[|s| - 1 - m..];
    var v := s[..|s| - 1][|s| - 1 - m..];
    forall i | 0 <= i < |u| ensures IsBlank(u[i]) {
      if i < m { assert u[i] == v[i]; }
    }
  }

  /** `s` is `r` with only blanks around it. */
  predicate BlankPadded(s: string, lo: nat, r: string) {
    && lo + |r| <= |s|
    && s[lo..lo + |r|] == r
    && AllBlank(s[..lo]) && AllBlank(s[lo + |r|..])
  }

  /** Neither end of `r` is blank. */
  predicate Unpadded(r: string) {
    r == [] || (!IsBlank(r[0]) && !IsBlank(r[|r| - 1]))
  }

  /** `trimmingCharacters(in: .whitespacesAndNewlines)`: `s` without its blank prefix and suffix. */
  function Trim(s: string): (r: string)
    ensures Unpadded(r)
    ensures BlankPadded(s, LeadingBlanks(s), r)
  {
    var lo := LeadingBlanks(s);
    var t := s[lo..];
    var k := |t| - TrailingBlanks(t);
    TrimParts(s, lo, t, k);
    t[..k]
  }

  lemma TrimParts(s: string, lo: nat, t: string, k: nat)
    requires lo == LeadingBlanks(s) && t == s[lo..] && k == |t| - TrailingBlanks(t)
    ensures Unpadded(t[..k])
    ensures BlankPadded(s, lo, t[..k])
  {
    TrimUnpadded(s, lo, t, k);
    TrimBlankPadded(s, lo, t, k);
  }

  lemma TrimUnpadded(s: string, lo: nat, t: string, k: nat)
    requires lo == LeadingBlanks(s) && t == s[lo..] && k == |t| - TrailingBlanks(t)
    ensures Unpadded(t[..k])
  {
    if k > 0 {
      assert t[..k][0] == t[0] == s[lo];
      assert t[..k][k - 1] == t[|t| - TrailingBlanks(t) - 1];
    }
  }

  lemma TrimBlankPadded(s: string, lo: nat, t: string, k: nat)
    requires lo == LeadingBlanks(s) && t == s[lo..] && k == |t| - TrailingBlanks(t)
    ensures BlankPadded(s, lo, t[..k])
  {
    var r := t[..k];
    assert s[lo..lo + |r|] == r;
    assert AllBlank(t[k..]);
    assert s[lo + |r|..] == t[k..];
  }

  /** The blank prefix is the longest one: it is followed by a non-blank character or the end. */
  lemma LeadingBlanksUnique(s: string, n: nat)
    requires n <= |s| && AllBlank(s[..n]) && (n < |s| ==> !IsBlank(s[n]))
    ensures LeadingBlanks(s) == n
  {
    var l := LeadingBlanks(s);
    assert forall i :: 0 <= i < n ==> IsBlank(s[i]) by {
      forall i | 0 <= i < n ensures IsBlank(s[i]) { assert s[..n][i] == s[i]; }
    }
    assert forall i :: 0 <= i < l ==> IsBlank(s[i]) by {
      forall i | 0 <= i < l ensures IsBlank(s[i]) { assert s[..l][i] == s[i]; }
    }
  }

  /** The blank suffix is the longest one: it is preceded by a non-blank character or the start. */
  lemma TrailingBlanksUnique(s: string, n: nat)
    requires n <= |s| && AllBlank(s[|s| - n..]) && (n < |s| ==> !IsBlank(s[|s| - n - 1]))
    ensures TrailingBlanks(s) == n
  {
    // Naming the blank suffix brings its two defining facts into play; either
    // length differing from `n` would put a non-blank character inside the other's blank run.
    var l := TrailingBlanks(s);
  }

  lemma BlankInSuffix(s: string, from: nat, i: nat)
    requires from <= i < |s| && AllBlank(s[from..])
    ensures IsBlank(s[i])
  {
    assert s[from..][i - from] == s[i];
  }

  /**
   * Trimming is determined by what it keeps: whenever `s` is a blank run,
   * then `m` with non-blank ends, then a blank run, `Trim(s)` is `m`.
   */
  lemma TrimKeepsCore(a: string, m: string, b: string)
    requires AllBlank(a) && AllBlank(b) && Unpadded(m)
    ensures Trim(a + m + b) == m
  {
    var s := a + m + b;
    if m == [] {
      assert AllBlank(s) by {
        forall i | 0 <= i < |s| ensures IsBlank(s[i]) {
          if i < |a| { assert s[i] == a[i]; } else { assert s[i] == b[i - |a|]; }
        }
      }
      assert s[..|s|] == s;
      LeadingBlanksUnique(s, |s|);
    } else {
      assert s[..|a|] == a;
      assert s[|a|] == m[0];
      LeadingBlanksUnique(s, |a|);
      var t := s[|a|..];
      assert t == m + b;
      assert t[|t| - |b|..] == b;
      assert t[|t| - |b| - 1] == m[|m| - 1];
      TrailingBlanksUnique(t, |b|);
      assert t[..|m|] == m;
    }
  }

  /** Trimming twice is trimming once. */
  lemma TrimIdempotent(s: string)
    ensures Trim(Trim(s)) == Trim(s)
  {
    TrimKeepsCore([], Trim(s), []);
    assert [] + Trim(s) + [] == Trim(s);
  }

  // ---------------------------------------------------------------------------
  // Splitting

  /** The number of separator characters in `s`. */
  function Count(s: string, sep: char -> bool): nat {
    if |s| == 0 then 0 else (if sep(s[0]) then 1 else 0) + Count(s[1..], sep)
  }

  predicate Free(s: string, sep: char -> bool) {
    forall k :: 0 <= k < |s| ==> !sep(s[k])
  }

  /** `components(separatedBy:)`: the pieces between separator characters, empty pieces included. */
  function Split(s: string, sep: char -> bool): (parts: seq<string>)
    ensures |parts| == Count(s, sep) + 1
    ensures forall i :: 0 <= i < |parts| ==> Free(parts[i], sep)
  {
    if |s| == 0 then [[]]
    else
      var rest := Split(s[1..], sep);
      if sep(s[0]) then [[]] + rest
      else [[s[0]] + rest[0]] + rest[1..]
  }

  /** The pieces joined with the separator `c` between neighbours. */
  function Join(parts: seq<string>, c: char): string
    requires |parts| >= 1
  {
    if |parts| == 1 then parts[0] else parts[0] + [c] + Join(parts[1..], c)
  }

  /** `s` with every separator character replaced by `c`. */
  function Normalize(s: string, sep: char -> bool, c: char): (r: string)
    ensures |r| == |s|
    ensures forall i :: 0 <= i < |s| ==> r[i] == if sep(s[i]) then c else s[i]
  {
    if |s| == 0 then [] else [if sep(s[0]) then c else s[0]] + Normalize(s[1..], sep, c)
  }

  /**
   * Splitting loses only which separator stood where: joining the pieces
   * with one separator gives back `s` with every separator replaced by it.
   */
  lemma {:induction false} JoinSplit(s: string, sep: char -> bool, c: char)
    ensures Join(Split(s, sep), c) == Normalize(s, sep, c)
  {
    if |s| > 0 {
      var rest := Split(s[1..], sep);
      JoinSplit(s[1..], sep, c);
      if !sep(s[0]) && |rest| > 1 {
        assert Join(rest, c) == rest[0] + [c] + Join(rest[1..], c);
        assert [[s[0]] + rest[0]] + rest[1..] == [[s[0]] + rest[0]] + rest[1..];
      }
    }
  }

  /** With no separator in `s`, splitting yields `s` alone. */
  lemma {:induction false} SplitWithoutSeparator(s: string, sep: char -> bool)
    requires Free(s, sep)
    ensures Split(s, sep) == [s]
  {
    if |s| > 0 {
      assert Free(s[1..], sep) by {
        forall k | 0 <= k < |s| - 1 ensures !sep(s[1..][k]) { assert s[1..][k] == s[k + 1]; }
      }
      SplitWithoutSeparator(s[1..], sep);
      assert !sep(s[0]);
      assert [s[0]] + s[1..] == s;
    }
  }

  // ---------------------------------------------------------------------------
  // Integers

  const IntMin: int := -0x8000_0000_0000_0000
  const IntMax: int := 0x7FFF_FFFF_FFFF_FFFF

  predicate IsDigit(c: char) {
    '0' <= c <= '9'
  }

  predicate AllDigits(s: string) {
    forall i :: 0 <= i < |s| ==> IsDigit(s[i])
  }

  function DigitValue(c: char): (d: nat)
    requires IsDigit(c)
    ensures d < 10
  {
    (c as int) - ('0' as int)
  }

  function DigitChar(d: nat): (c: char)
    requires d < 10
    ensures IsDigit(c) && DigitValue(c) == d
  {
    ('0' as int + d) as char
  }

  /** The value of a decimal numeral, most significant digit first. */
  function DigitsValue(s: string): nat
    requires AllDigits(s)
  {
    if |s| == 0 then 0 else DigitsValue(s[..|s| - 1]) * 10 + DigitValue(s[|s| - 1])
  }

  /** One or more ASCII digits. */
  predicate IsNumeral(s: string) {
    |s| >= 1 && AllDigits(s)
  }

  /** `s` without a leading `+` or `-`. */
  function Magnitude(s: string): string {
    if |s| > 0 && (s[0] == '+' || s[0] == '-') then s[1..] else s
  }

  /** `Int(_: String)` in base 10: an optional `+` or `-`, then one or more ASCII digits, and the value must fit in 64 bits. */
  function ParseInt(s: string): (r: Option<int>)
    ensures r.Some? ==> IntMin <= r.value <= IntMax
    ensures r.Some? ==> |s| >= 1 && (IsDigit(s[0]) || s[0] == '+' || s[0] == '-')
  {
    var signed := |s| > 0 && (s[0] == '+' || s[0] == '-');
    var digits := if signed then s[1..] else s;
    if |digits| == 0 || !AllDigits(digits) then None
    else
      var v: int := if signed && s[0] == '-' then -(DigitsValue(digits) as int) else DigitsValue(digits);
      if IntMin <= v <= IntMax then Some(v) else None
  }

  /** The decimal numeral of `n`, without leading zeros. */
  function ShowNat(n: nat): (s: string)
    ensures |s| >= 1 && AllDigits(s)
  {
    if n < 10 then [DigitChar(n)] else ShowNat(n / 10) + [DigitChar(n % 10)]
  }

  /** `String(n)` for an `Int`. */
  function ShowInt(n: int): string {
    if n < 0 then "-" + ShowNat(-n) else ShowNat(n)
  }

  lemma {:induction false} DigitsOfShowNat(n: nat)
    ensures DigitsValue(ShowNat(n)) == n
  {
    if n >= 10 {
      DigitsOfShowNat(n / 10);
      var s := ShowNat(n);
      assert s[..|s| - 1] == ShowNat(n / 10);
    }
  }

  /** An unsigned numeral within range parses to its value. */
  lemma ParseUnsigned(s: string)
    requires |s| >= 1 && AllDigits(s) && DigitsValue(s) <= IntMax
    ensures ParseInt(s) == Some(DigitsValue(s))
  {
    assert IsDigit(s[0]);
  }

  /** A minus sign before a numeral within range parses to the negated value. */
  lemma ParseNegative(s: string)
    requires |s| >= 1 && AllDigits(s) && -(DigitsValue(s) as int) >= IntMin
    ensures ParseInt("-" + s) == Some(-(DigitsValue(s) as int))
  {
    assert ("-" + s)[1..] == s;
  }

  /** A plus sign before a numeral within range parses to the numeral's value. */
  lemma ParsePositive(s: string)
    requires |s| >= 1 && AllDigits(s) && DigitsValue(s) <= IntMax
    ensures ParseInt("+" + s) == Some(DigitsValue(s))
  {
    assert ("+" + s)[1..] == s;
  }

  /** A numeral too large for 64 bits does not parse, with or without a sign. */
  lemma ParseOutOfRange(s: string)
    requires |s| >= 1 && AllDigits(s) && DigitsValue(s) > IntMax
    ensures ParseInt(s).None? && ParseInt("+" + s).None?
    ensures -(DigitsValue(s) as int) < IntMin ==> ParseInt("-" + s).None?
  {
    assert ("+" + s)[1..] == s;
    assert ("-" + s)[1..] == s;
  }

  /** Only a whole numeral parses: an optional sign, then digits and nothing else. */
  lemma OnlyNumeralsParse(s: string)
    ensures ParseInt(s).Some? ==> IsNumeral(Magnitude(s))
  {
  }

  /** Reading back a printed 64-bit integer gives that integer. */
  lemma ParseShowRoundTrip(n: int)
    requires IntMin <= n <= IntMax
    ensures ParseInt(ShowInt(n)) == Some(n)
  {
    if n < 0 {
      var digits := ShowNat(-n);
      assert ShowInt(n) == "-" + digits;
      DigitsOfShowNat(-n);
      ParseNegative(digits);
    } else {
      var digits := ShowNat(n);
      assert ShowInt(n) == digits;
      DigitsOfShowNat(n);
      ParseUnsigned(digits);
    }
  }
}
