/** Python's string built-ins that the catalogue's command loop relies on:
    `str.strip()` (no argument), `str.lower()` for command keywords, and
    `str(int)` for the year in a book's rendering. */
module Text {

  /** The characters Python's `str.isspace()` accepts, which is the set
      `str.strip()` removes when called without an argument. */
  predicate IsSpace(c: char) {
    ('\t' <= c <= '\r') || ('\U{1c}' <= c <= '\U{1f}') || c == ' '
    || c == '\U{85}' || c == '\U{a0}' || c == '\U{1680}'
    || ('\U{2000}' <= c <= '\U{200a}') || c == '\U{2028}' || c == '\U{2029}'
    || c == '\U{202f}' || c == '\U{205f}' || c == '\U{3000}'
  }

  predicate AllSpace(s: string) {
    forall i :: 0 <= i < |s| ==> IsSpace(s[i])
  }

  /** Neither end of `s` is whitespace (vacuously so for the empty string). */
  predicate Trimmed(s: string) {
    s == [] || (!IsSpace(s[0]) && !IsSpace(s[|s| - 1]))
  }

  /** Length of the run of whitespace at the start of `s`. */
  function LeadingSpace(s: string): (n: nat)
    ensures n <= |s|
    ensures AllSpace(s[..n])
    ensures n < |s| ==> !IsSpace(s[n])
  {
    if s == [] || !IsSpace(s[0]) then 0 else 1 + LeadingSpace(s[1..])
  }

  /** Length of the run of whitespace at the end of `s`. */
  function TrailingSpace(s: string): (n: nat)
    ensures n <= |s|
    ensures AllSpace(s[|s| - n..])
    ensures n < |s| ==> !IsSpace(s[|s| - 1 - n])
  {
    if s == [] || !IsSpace(s[|s| - 1]) then 0 else 1 + TrailingSpace(s[..|s| - 1])
  }

  /** `s.strip()`: drop the whitespace at both ends. */
  function Strip(s: string): (r: string)
    ensures Trimmed(r)
    ensures |r| <= |s|
  {
    var rest := s[LeadingSpace(s)..];
    rest[..|rest| - TrailingSpace(rest)]
  }

  lemma {:induction false} LeadingSpaceOfPadded(p: string, x: string)
    requires AllSpace(p)
    requires x == [] || !IsSpace(x[0])
    ensures LeadingSpace(p + x) == |p|
    decreases |p|
  {
    if p == [] {
      assert p + x == x;
    } else {
      var px := p + x;
      assert px[0] == p[0] && IsSpace(p[0]);
      assert px[1..] == p[1..] + x;
      LeadingSpaceOfPadded(p[1..], x);
      assert LeadingSpace(px) == 1 + LeadingSpace(px[1..]);
    }
  }

  lemma {:induction false} TrailingSpaceOfPadded(x: string, q: string)
    requires AllSpace(q)
    requires x == [] || !IsSpace(x[|x| - 1])
    ensures TrailingSpace(x + q) == |q|
    decreases |q|
  {
    if q == [] {
      assert x + q == x;
    } else {
      var xq := x + q;
      assert xq[|xq| - 1] == q[|q| - 1] && IsSpace(q[|q| - 1]);
      assert xq[..|xq| - 1] == x + q[..|q| - 1];
      TrailingSpaceOfPadded(x, q[..|q| - 1]);
      assert TrailingSpace(xq) == 1 + TrailingSpace(xq[..|xq| - 1]);
    }
  }

  /** Stripping removes exactly the padding: a text with no whitespace at
      either end, surrounded by any whitespace, strips back to itself. With
      `Strip`'s own contract this pins the result down uniquely. */
  lemma {:induction false} StripPadded(p: string, x: string, q: string)
    requires AllSpace(p) && AllSpace(q) && Trimmed(x)
    ensures Strip(p + x + q) == x
  {
    if x == [] {
      assert p + x + q == p + q;
      AllSpaceConcat(p, q);
      assert LeadingSpace(p + q) == |p + q| by {
        LeadingSpaceOfPadded(p + q, []);
        assert p + q + [] == p + q;
      }
    } else {
      assert p + x + q == p + (x + q);
      LeadingSpaceOfPadded(p, x + q);
      assert (p + (x + q))[|p|..] == x + q;
      TrailingSpaceOfPadded(x, q);
      assert (x + q)[..|x|] == x;
    }
  }

  lemma AllSpaceConcat(p: string, q: string)
    requires AllSpace(p) && AllSpace(q)
    ensures AllSpace(p + q)
  {
  }

  /** Stripping twice is stripping once. */
  lemma StripIdempotent(s: string)
    ensures Strip(Strip(s)) == Strip(s)
  {
    var r := Strip(s);
    StripPadded([], r, []);
    assert [] + r + [] == r;
  }

  /** `c.lower()` for ASCII letters; every other character is kept. */
  function LowerChar(c: char): char {
    if 'A' <= c <= 'Z' then (c as int + 32) as char else c
  }

  /** `s.lower()`, character by character. */
  function Lower(s: string): (r: string)
    ensures |r| == |s|
    ensures forall i :: 0 <= i < |s| ==> r[i] == LowerChar(s[i])
  {
    if s == [] then [] else [LowerChar(s[0])] + Lower(s[1..])
  }

  /** Lower-casing a lower-cased text changes nothing. */
  lemma LowerTwice(s: string)
    ensures Lower(Lower(s)) == Lower(s)
  {
    var r := Lower(s);
    assert forall i :: 0 <= i < |r| ==> LowerChar(r[i]) == r[i];
  }

  /** Lower-casing neither creates nor removes whitespace. */
  lemma LowerKeepsSpace(c: char)
    ensures IsSpace(LowerChar(c)) == IsSpace(c)
  {
  }

  /** A text without whitespace at its ends keeps that shape when
      lower-cased. */
  lemma LowerKeepsTrimmed(s: string)
    requires Trimmed(s)
    ensures Trimmed(Lower(s))
  {
    if s != [] {
      LowerKeepsSpace(s[0]);
      LowerKeepsSpace(s[|s| - 1]);
    }
  }

  /** Decimal digit character for a digit value. */
  function DigitChar(d: nat): char
    requires d < 10
  {
    ('0' as int + d) as char
  }

  predicate IsDigit(c: char) {
    '0' <= c <= '9'
  }

  /** Decimal digits of a natural number, most significant first, without
      leading zeros, as Python's `str` writes them. */
  function Digits(n: nat): (r: string)
    ensures |r| > 0
    ensures forall i :: 0 <= i < |r| ==> IsDigit(r[i])
    ensures r[0] == '0' ==> n == 0
  {
    if n < 10 then [DigitChar(n)] else Digits(n / 10) + [DigitChar(n % 10)]
  }

  /** `str(y)` for an integer: a minus sign for negatives, then the digits. */
  function YearText(y: int): (r: string)
    ensures |r| > 0
    ensures r[0] == '-' <==> y < 0
    ensures forall i :: (if y < 0 then 1 else 0) <= i < |r| ==> IsDigit(r[i])
  {
    if y < 0 then "-" + Digits(-y) else Digits(y)
  }

  /** Value of a string of decimal digits. */
  function DigitsValue(s: string): nat
    requires forall i :: 0 <= i < |s| ==> IsDigit(s[i])
  {
    if s == [] then 0
    else
      assert IsDigit(s[|s| - 1]);
      DigitsValue(s[..|s| - 1]) * 10 + (s[|s| - 1] as int - '0' as int)
  }

  /** Reads back an integer written by `YearText` (Python's `int(...)` on
      such text): an optional minus sign followed by digits. */
  function ParseYear(s: string): int
    requires |s| > 0
    requires s[0] == '-' ==> |s| > 1
    requires forall i :: (if s[0] == '-' then 1 else 0) <= i < |s| ==> IsDigit(s[i])
  {
    if s[0] == '-' then 0 - DigitsValue(s[1..]) as int else DigitsValue(s)
  }

  lemma {:induction false} DigitsRoundTrip(n: nat)
    ensures DigitsValue(Digits(n)) == n
  {
    if n >= 10 {
      DigitsRoundTrip(n / 10);
      var d := Digits(n);
      assert d[..|d| - 1] == Digits(n / 10);
    }
  }

  /** The year printed in a book's line reads back as the same year. */
  lemma YearRoundTrip(y: int)
    ensures ParseYear(YearText(y)) == y
  {
    if y < 0 {
      DigitsRoundTrip(-y);
      assert YearText(y)[1..] == Digits(-y);
    } else {
      DigitsRoundTrip(y);
    }
  }
}
