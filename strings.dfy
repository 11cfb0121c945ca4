/**
 * The few Go standard-library string operations that the playlist pass relies on,
 * modelled on sequences of characters: `strings.Split` on a one-character separator,
 * `strings.TrimSpace`, `strings.HasPrefix`, `strings.ReplaceAll` with a one-character
 * pattern, and the `%05d` verb of `fmt.Sprintf`.
 */
module Strings {

  /** Number of occurrences of `c` in `s`. */
  function Count(c: char, s: string): (n: nat)
    ensures n <= |s|
    ensures n == 0 <==> c !in s
  {
    if s == [] then 0 else (if s[0] == c then 1 else 0) + Count(c, s[1..])
  }

  /** The pieces of `s` between occurrences of `sep`; there is always at least one. */
  function Split(s: string, sep: char): (parts: seq<string>)
    ensures |parts| == Count(sep, s) + 1
    ensures forall k :: 0 <= k < |parts| ==> sep !in parts[k]
  {
    if s == [] then [[]]
    else
      var rest := Split(s[1..], sep);
      if s[0] == sep then [[]] + rest
      else [[s[0]] + rest[0]] + rest[1..]
  }

  /** strings.Join(parts, sep): the inverse of Split. */
  function Join(parts: seq<string>, sep: char): string
    requires |parts| >= 1
  {
    if |parts| == 1 then parts[0] else parts[0] + [sep] + Join(parts[1..], sep)
  }

  /** Splitting loses nothing: joining the pieces with the separator gives the text back. */
  lemma {:induction false} JoinSplit(s: string, sep: char)
    ensures Join(Split(s, sep), sep) == s
  {
    if s != [] {
      var rest := Split(s[1..], sep);
      JoinSplit(s[1..], sep);
      if s[0] == sep {
        assert Split(s, sep)[1..] == rest;
      } else {
        var parts := Split(s, sep);
        if |rest| == 1 {
          assert parts == [[s[0]] + rest[0]];
        } else {
          assert parts[1..] == rest[1..];
          assert Join(rest, sep) == rest[0] + [sep] + Join(rest[1..], sep);
        }
      }
    }
  }

  // ---------------------------------------------------------------------------
  // strings.TrimSpace

  /** Go's unicode.IsSpace: the ASCII white space, NEL, NO-BREAK SPACE and the Unicode
      space separators. */
  predicate IsSpace(c: char) {
    c in SpaceChars
  }

  const SpaceChars: set<char> := {
    '\t', '\n', '\U{000B}', '\U{000C}', '\r', ' ', '\U{0085}', '\U{00A0}', '\U{1680}',
    '\U{2000}', '\U{2001}', '\U{2002}', '\U{2003}', '\U{2004}', '\U{2005}', '\U{2006}',
    '\U{2007}', '\U{2008}', '\U{2009}', '\U{200A}',
    '\U{2028}', '\U{2029}', '\U{202F}', '\U{205F}', '\U{3000}'
  }

  /** The first index at or after `i` that does not hold white space (or |s|). */
  function SkipSpace(s: string, i: nat): (j: nat)
    requires i <= |s|
    ensures i <= j <= |s|
    decreases |s| - i
  {
    if i < |s| && IsSpace(s[i]) then SkipSpace(s, i + 1) else i
  }

  /** The end of `s[lo..j]` once its trailing white space is dropped. */
  function SkipSpaceBack(s: string, lo: nat, j: nat): (e: nat)
    requires lo <= j <= |s|
    ensures lo <= e <= j
    decreases j - lo
  {
    if lo < j && IsSpace(s[j - 1]) then SkipSpaceBack(s, lo, j - 1) else j
  }

  /** SkipSpace stops at the first character that is not white space. */
  lemma {:induction false} SkipSpaceStops(s: string, i: nat)
    requires i <= |s|
    ensures forall k :: i <= k < SkipSpace(s, i) ==> IsSpace(s[k])
    ensures SkipSpace(s, i) == |s| || !IsSpace(s[SkipSpace(s, i)])
    decreases |s| - i
  {
    if i < |s| && IsSpace(s[i]) {
      SkipSpaceStops(s, i + 1);
    }
  }

  /** SkipSpaceBack stops after the last character that is not white space. */
  lemma {:induction false} SkipSpaceBackStops(s: string, lo: nat, j: nat)
    requires lo <= j <= |s|
    ensures forall k :: SkipSpaceBack(s, lo, j) <= k < j ==> IsSpace(s[k])
    ensures SkipSpaceBack(s, lo, j) == lo || !IsSpace(s[SkipSpaceBack(s, lo, j) - 1])
    decreases j - lo
  {
    if lo < j && IsSpace(s[j - 1]) {
      SkipSpaceBackStops(s, lo, j - 1);
    }
  }

  /** `r` is what is left of `s` once the white space before index `i` and after
      index `i + |r|` is dropped, and `r` itself neither starts nor ends with white space. */
  ghost predicate TrimmedAt(s: string, r: string, i: nat) {
    && i + |r| <= |s| && r == s[i..i + |r|]
    && (forall k :: 0 <= k < i ==> IsSpace(s[k]))
    && (forall k :: i + |r| <= k < |s| ==> IsSpace(s[k]))
    && (r == [] || (!IsSpace(r[0]) && !IsSpace(r[|r| - 1])))
  }

  /** strings.TrimSpace: the slice of `s` between its first and last non-space characters. */
  function TrimSpace(s: string): string {
    var start := SkipSpace(s, 0);
    var stop := SkipSpaceBack(s, start, |s|);
    s[start..stop]
  }

  /** TrimSpace drops the white space at both ends of `s`, and only that. */
  lemma TrimSpaceTrims(s: string)
    ensures TrimmedAt(s, TrimSpace(s), SkipSpace(s, 0))
  {
    SkipSpaceStops(s, 0);
    SkipSpaceBackStops(s, SkipSpace(s, 0), |s|);
  }

  /** The trimmed text is determined by its position: at most one slice qualifies. */
  lemma TrimmedAtUnique(s: string, r1: string, i1: nat, r2: string, i2: nat)
    requires TrimmedAt(s, r1, i1) && TrimmedAt(s, r2, i2)
    ensures r1 == r2
  {
    if r1 != [] && r2 != [] {
      assert !IsSpace(s[i1]) && !IsSpace(s[i2]);
      assert i1 == i2;
      assert !IsSpace(s[i1 + |r1| - 1]) && !IsSpace(s[i2 + |r2| - 1]);
    }
  }

  /** Trimming an already trimmed line changes nothing. */
  lemma TrimSpaceIdempotent(s: string)
    ensures TrimSpace(TrimSpace(s)) == TrimSpace(s)
  {
    var t := TrimSpace(s);
    TrimSpaceTrims(s);
    TrimSpaceTrims(t);
    assert t[0..0 + |t|] == t;
    TrimmedAtUnique(t, t, 0, TrimSpace(t), SkipSpace(t, 0));
  }

  /** strings.HasPrefix(s, p). */
  predicate HasPrefix(s: string, p: string) {
    |p| <= |s| && s[..|p|] == p
  }

  // ---------------------------------------------------------------------------
  // strings.ReplaceAll(s, old, new) for a one-character `old`

  /** With a one-character pattern, every occurrence of `c`, read left to right, is
      replaced by `rep`; nothing else changes. */
  function ReplaceAll(s: string, c: char, rep: string): (r: string)
    ensures c !in s ==> r == s
  {
    if s == [] then []
    else (if s[0] == c then rep else [s[0]]) + ReplaceAll(s[1..], c, rep)
  }

  /** Replacing is done piece by piece. */
  lemma {:induction false} ReplaceAllAppend(a: string, b: string, c: char, rep: string)
    ensures ReplaceAll(a + b, c, rep) == ReplaceAll(a, c, rep) + ReplaceAll(b, c, rep)
  {
    if a == [] {
      assert a + b == b;
    } else {
      assert (a + b)[1..] == a[1..] + b;
      ReplaceAllAppend(a[1..], b, c, rep);
    }
  }

  // ---------------------------------------------------------------------------
  // fmt.Sprintf("%05d", n) for n >= 0

  function DigitChar(d: nat): (c: char)
    requires d < 10
    ensures '0' <= c <= '9'
  {
    "0123456789"[d]
  }

  predicate IsDigit(c: char) { '0' <= c <= '9' }

  /** Decimal representation of `n`, without leading zeros. */
  function Decimal(n: nat): (s: string)
    ensures 1 <= |s|
    ensures n < 10 <==> |s| == 1
  {
    if n < 10 then [DigitChar(n)] else Decimal(n / 10) + [DigitChar(n % 10)]
  }

  /** `%05d`: the decimal representation, padded on the left with '0' to at least five
      characters; wider numbers are printed in full. */
  function Pad5(n: nat): string {
    PadZeros(Decimal(n), 5)
  }

  /** `d` with '0' added on the left until it is `w` characters long. */
  function PadZeros(d: string, w: nat): (s: string)
    decreases w - |d|
  {
    if |d| >= w then d else PadZeros(['0'] + d, w)
  }

  /** The number a string of decimal digits denotes (leading zeros allowed). */
  function DigitsValue(s: string): int {
    if s == [] then 0
    else DigitsValue(s[..|s| - 1]) * 10 + (s[|s| - 1] as int - '0' as int)
  }

  lemma {:induction false} DecimalValue(n: nat)
    ensures DigitsValue(Decimal(n)) == n
  {
    if n < 10 {
      assert "0123456789"[n] as int - '0' as int == n;
    } else {
      var d := Decimal(n);
      assert d[..|d| - 1] == Decimal(n / 10);
      DecimalValue(n / 10);
      assert "0123456789"[n % 10] as int - '0' as int == n % 10;
    }
  }

  lemma {:induction false} LeadingZeroValue(s: string)
    ensures DigitsValue(['0'] + s) == DigitsValue(s)
  {
    if s != [] {
      var t := ['0'] + s;
      assert t[..|t| - 1] == ['0'] + s[..|s| - 1];
      LeadingZeroValue(s[..|s| - 1]);
    }
  }

  lemma {:induction false} PadZerosValue(d: string, w: nat)
    ensures DigitsValue(PadZeros(d, w)) == DigitsValue(d)
    decreases w - |d|
  {
    if |d| < w {
      PadZerosValue(['0'] + d, w);
      LeadingZeroValue(d);
    }
  }

  /** Padding puts only '0's in front of `d` and stops at width `w`. */
  lemma {:induction false} PadZerosShape(d: string, w: nat)
    ensures |PadZeros(d, w)| == if |d| >= w then |d| else w
    ensures PadZeros(d, w)[|PadZeros(d, w)| - |d|..] == d
    ensures forall k :: 0 <= k < |PadZeros(d, w)| - |d| ==> PadZeros(d, w)[k] == '0'
    decreases w - |d|
  {
    if |d| < w {
      var t := ['0'] + d;
      PadZerosShape(t, w);
      var p := PadZeros(t, w);
      assert PadZeros(d, w) == p;
      assert p[|p| - |t|..] == t;
      assert p[|p| - |t|] == '0';
      assert p[|p| - |d|..] == t[1..] == d;
    }
  }

  /** Reading the padded number back gives the number: `%05d` loses nothing. */
  lemma Pad5Value(n: nat)
    ensures DigitsValue(Pad5(n)) == n
  {
    DecimalValue(n);
    PadZerosValue(Decimal(n), 5);
  }

  lemma {:induction false} DecimalDigits(n: nat)
    ensures forall k :: 0 <= k < |Decimal(n)| ==> IsDigit(Decimal(n)[k])
  {
    if n >= 10 {
      DecimalDigits(n / 10);
    }
  }

  /** `%05d` prints nothing but digits. */
  lemma Pad5Digits(n: nat)
    ensures forall k :: 0 <= k < |Pad5(n)| ==> IsDigit(Pad5(n)[k])
  {
    var d, p := Decimal(n), Pad5(n);
    DecimalDigits(n);
    PadZerosShape(d, 5);
    forall k | 0 <= k < |p|
      ensures IsDigit(p[k])
    {
      if k >= |p| - |d| {
        assert p[k] == p[|p| - |d|..][k - (|p| - |d|)];
      }
    }
  }

  /** Distinct numbers print differently. */
  lemma Pad5Injective(a: nat, b: nat)
    requires a != b
    ensures Pad5(a) != Pad5(b)
  {
    Pad5Value(a);
    Pad5Value(b);
  }

  lemma {:induction false} DecimalLength(n: nat, w: nat)
    requires n < Pow10(w)
    ensures |Decimal(n)| <= w || w == 0
  {
    if n >= 10 && w > 0 {
      DecimalLength(n / 10, w - 1);
    }
  }

  function Pow10(w: nat): (p: nat)
    ensures p >= 1
  {
    if w == 0 then 1 else 10 * Pow10(w - 1)
  }

  /** Every number below 100000 prints as exactly five digits. */
  lemma Pad5FiveDigits(n: nat)
    requires n < 100000
    ensures |Pad5(n)| == 5
  {
    assert Pow10(5) == 100000;
    DecimalLength(n, 5);
    PadZerosShape(Decimal(n), 5);
  }
}
