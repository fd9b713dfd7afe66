/**
 * Characters as the extractors' regular expressions see them. Python's `re`
 * works on Unicode; the model keeps to ASCII: `\d` is '0'..'9', `\s` is the
 * ASCII characters Python's `\s` accepts, and `(?i)` folds ASCII letters only.
 */
module Text {
  import opened Wrappers

  /** `\d`, restricted to ASCII digits. */
  predicate IsDigit(c: char) {
    '0' <= c <= '9'
  }

  /** `\s` on a str pattern, restricted to ASCII: tab, line feed, vertical tab,
      form feed, carriage return, the separators 0x1C..0x1F, and space. */
  predicate IsSpace(c: char) {
    c == ' ' || '\t' <= c <= '\r' || '\U{1C}' <= c <= '\U{1F}'
  }

  /** ASCII lower-casing, the folding `(?i)` applies to ASCII letters. The
      result is never an upper-case letter, so folding twice is folding once;
      only upper-case letters change, and letters, and only letters, fold to
      lower-case letters. */
  function Lower(c: char): (l: char)
    ensures !('A' <= l <= 'Z')
    ensures l == c <==> !('A' <= c <= 'Z')
    ensures 'a' <= l <= 'z' <==> 'A' <= c <= 'Z' || 'a' <= c <= 'z'
  {
    if 'A' <= c <= 'Z' then (c as int + 32) as char else c
  }

  /** Two characters match under `(?i)`. */
  predicate SameLetter(a: char, b: char) {
    Lower(a) == Lower(b)
  }

  /** Two strings match character by character under `(?i)`. */
  predicate EqualIgnoringCase(x: string, y: string) {
    |x| == |y| && forall k :: 0 <= k < |x| ==> SameLetter(x[k], y[k])
  }

  /** Comparing ignoring case goes character by character from the front. */
  lemma EqualIgnoringCaseFront(x: string, y: string)
    requires |x| == |y| > 0
    ensures EqualIgnoringCase(x, y) <==> SameLetter(x[0], y[0]) && EqualIgnoringCase(x[1..], y[1..])
  {
    if SameLetter(x[0], y[0]) && EqualIgnoringCase(x[1..], y[1..]) {
      forall k | 0 < k < |x|
        ensures SameLetter(x[k], y[k])
      {
        assert x[k] == x[1..][k - 1] && y[k] == y[1..][k - 1];
      }
    }
  }

  /** Every character of s[i..j] satisfies p. */
  ghost predicate AllBetween(s: string, i: nat, j: nat, p: char -> bool)
    requires i <= j <= |s|
  {
    forall k :: i <= k < j ==> p(s[k])
  }

  predicate AllDigits(ds: string) {
    forall k :: 0 <= k < |ds| ==> IsDigit(ds[k])
  }

  /** Where a greedy `p+` (or `p*`) run that starts at i stops: the first index
      at or after i whose character fails p, or |s|. */
  function RunEnd(s: string, i: nat, p: char -> bool): (j: nat)
    requires i <= |s|
    ensures i <= j <= |s|
    ensures AllBetween(s, i, j, p)
    ensures j == |s| || !p(s[j])
    decreases |s| - i
  {
    if i < |s| && p(s[i]) then RunEnd(s, i + 1, p) else i
  }

  /** A run of p-characters that ends at a character failing p (or at the end)
      ends where the greedy run ends: the stop point is unique. */
  lemma {:induction false} RunEndUnique(s: string, i: nat, j: nat, p: char -> bool)
    requires i <= j <= |s|
    requires AllBetween(s, i, j, p)
    requires j == |s| || !p(s[j])
    ensures RunEnd(s, i, p) == j
    decreases j - i
  {
    if i < j {
      RunEndUnique(s, i + 1, j, p);
    }
  }

  /** The greedy run is the longest: no run of p-characters that starts at i
      goes past where `RunEnd` stops. */
  lemma {:induction false} RunEndLongest(s: string, i: nat, e: nat, p: char -> bool)
    requires i <= e <= |s| && AllBetween(s, i, e, p)
    ensures e <= RunEnd(s, i, p)
    decreases e - i
  {
    if i < e {
      RunEndLongest(s, i + 1, e, p);
    }
  }

  /** `\d+` can match s[i..e]. */
  ghost predicate DigitsTo(s: string, i: nat, e: nat) {
    i < e <= |s| && AllBetween(s, i, e, IsDigit)
  }

  /** Where a greedy `\d+` that must start at i ends: it matches exactly when
      some run of digits starts at i, and takes the longest one. */
  function DigitsAt(s: string, i: nat): (r: Option<nat>)
    ensures r.None? <==> forall e: nat :: !DigitsTo(s, i, e)
    ensures r.Some? ==> DigitsTo(s, i, r.value) && forall e: nat :: DigitsTo(s, i, e) ==> e <= r.value
  {
    if i < |s| && IsDigit(s[i]) then
      var e := RunEnd(s, i, IsDigit);
      assert DigitsTo(s, i, e);
      DigitsLongest(s, i, e);
      Some(e)
    else
      None
  }

  /** Every run of digits at i ends at or before the end of the greedy one. */
  lemma DigitsLongest(s: string, i: nat, e: nat)
    requires i <= |s| && e == RunEnd(s, i, IsDigit)
    ensures forall e': nat :: DigitsTo(s, i, e') ==> e' <= e
  {
    forall e': nat | DigitsTo(s, i, e')
      ensures e' <= e
    {
      RunEndLongest(s, i, e', IsDigit);
    }
  }

  function DigitValue(c: char): (d: nat)
    requires IsDigit(c)
    ensures d < 10
  {
    c as int - '0' as int
  }

  /** The value of a decimal digit string, most significant digit first, as
      Python's `int()` reads it (leading zeros allowed, "" is 0). */
  function DigitsValue(ds: string): nat
    requires AllDigits(ds)
    decreases |ds|
  {
    if ds == [] then 0 else 10 * DigitsValue(ds[..|ds| - 1]) + DigitValue(ds[|ds| - 1])
  }

  function Pow10(n: nat): (p: nat)
    ensures p >= 1
  {
    if n == 0 then 1 else 10 * Pow10(n - 1)
  }

  /** The exact value of the numeral `whole.frac` (`frac` may be empty), the
      number Python's `float()` rounds. */
  function DecimalValue(whole: string, frac: string): real
    requires AllDigits(whole) && AllDigits(frac)
  {
    DigitsValue(whole) as real + DigitsValue(frac) as real / Pow10(|frac|) as real
  }

  function DigitChar(d: nat): (c: char)
    requires d < 10
    ensures IsDigit(c) && DigitValue(c) == d
  {
    ('0' as int + d) as char
  }

  /** The shortest decimal spelling of n. */
  function NatString(n: nat): (ds: string)
    ensures |ds| >= 1 && AllDigits(ds)
    decreases n
  {
    if n < 10 then [DigitChar(n)] else NatString(n / 10) + [DigitChar(n % 10)]
  }

  /** Reading back the spelling of n gives n. */
  lemma {:induction false} NatStringValue(n: nat)
    ensures DigitsValue(NatString(n)) == n
    decreases n
  {
    if n >= 10 {
      var ds := NatString(n);
      assert ds[..|ds| - 1] == NatString(n / 10);
      NatStringValue(n / 10);
    }
  }
}
