/**
 * The numeral `\d+(?:\.\d+)?` shared by the horsepower and displacement
 * patterns, and its exact value.
 */
module Numerals {
  import opened Wrappers
  import opened Text

  /** A numeral starting at some position i: the integer digits are
      s[i..intEnd]; when end > intEnd, s[intEnd] is the point and
      s[intEnd + 1..end] the fraction digits. */
  datatype Numeral = Numeral(intEnd: nat, end: nat)

  /** `\d+(?:\.\d+)?` can match s[i..n.end] with integer part s[i..n.intEnd]
      (any way at all, not only the greedy one). */
  ghost predicate IsNumeral(s: string, i: nat, n: Numeral) {
    && i < n.intEnd <= n.end <= |s|
    && AllBetween(s, i, n.intEnd, IsDigit)
    && (|| n.end == n.intEnd
        || (&& s[n.intEnd] == '.'
            && n.intEnd + 1 < n.end
            && AllBetween(s, n.intEnd + 1, n.end, IsDigit)))
  }

  /** How Python reads `\d+(?:\.\d+)?` at i: all the digits, then the point and
      all the digits after it if at least one digit follows the point. */
  function NumeralAt(s: string, i: nat): (r: Option<Numeral>)
    ensures r.Some? <==> i < |s| && IsDigit(s[i])
    ensures r.Some? ==> IsNumeral(s, i, r.value)
    ensures r.Some? ==> r.value.end == |s| || !IsDigit(s[r.value.end])
    ensures r.Some? ==> forall m :: IsNumeral(s, i, m) ==> m.intEnd <= r.value.intEnd && m.end <= r.value.end
  {
    if i < |s| && IsDigit(s[i]) then
      var j := RunEnd(s, i, IsDigit);
      var n := if j + 1 < |s| && s[j] == '.' && IsDigit(s[j + 1]) then Numeral(j, RunEnd(s, j + 1, IsDigit))
               else Numeral(j, j);
      NumeralLongest(s, i, n);
      Some(n)
    else
      None
  }

  /** The greedy reading is the longest: every way of reading a numeral at i
      stops its integer digits, and the whole numeral, no later. */
  lemma NumeralLongest(s: string, i: nat, n: Numeral)
    requires i < |s| && n.intEnd == RunEnd(s, i, IsDigit)
    requires n.end == (if n.intEnd + 1 < |s| && s[n.intEnd] == '.' && IsDigit(s[n.intEnd + 1])
                       then RunEnd(s, n.intEnd + 1, IsDigit) else n.intEnd)
    ensures forall m :: IsNumeral(s, i, m) ==> m.intEnd <= n.intEnd && m.end <= n.end
  {
    forall m | IsNumeral(s, i, m)
      ensures m.intEnd <= n.intEnd && m.end <= n.end
    {
      RunEndLongest(s, i, m.intEnd, IsDigit);
      if m.end > m.intEnd {
        // The point cannot sit inside the greedy run of digits.
        assert m.intEnd == n.intEnd;
        assert IsDigit(s[m.intEnd + 1]);
        RunEndLongest(s, m.intEnd + 1, m.end, IsDigit);
      }
    }
  }

  /** A numeral followed by a character that is neither a digit nor a point
      is the greedy reading: no other way to read it leaves such a character
      next, so backtracking never changes the numeral. */
  lemma NumeralDetermined(s: string, i: nat, n: Numeral)
    requires IsNumeral(s, i, n)
    requires n.end < |s| && !IsDigit(s[n.end]) && s[n.end] != '.'
    ensures NumeralAt(s, i) == Some(n)
  {
    assert !IsDigit(s[n.intEnd]);
    RunEndUnique(s, i, n.intEnd, IsDigit);
    if n.end > n.intEnd {
      assert IsDigit(s[n.intEnd + 1]);
      RunEndUnique(s, n.intEnd + 1, n.end, IsDigit);
    }
  }

  /** The digits after the point; empty when there is no fraction. */
  function Fraction(s: string, i: nat, n: Numeral): (f: string)
    requires IsNumeral(s, i, n)
    ensures AllDigits(f)
  {
    if n.end == n.intEnd then [] else s[n.intEnd + 1..n.end]
  }

  /** The exact value of the numeral, which Python hands to `float()`. */
  function NumeralValue(s: string, i: nat, n: Numeral): real
    requires IsNumeral(s, i, n)
  {
    assert AllDigits(s[i..n.intEnd]);
    DecimalValue(s[i..n.intEnd], Fraction(s, i, n))
  }
}
