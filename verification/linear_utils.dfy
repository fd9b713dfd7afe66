/**
 * The ten field extractors of `linear_utils.py`. Each takes a free-text
 * vehicle specification and runs one `re.search` over it; the keyword
 * extractors return the matched text or a fixed default, the numeric ones
 * return a number or nothing (Python's `pd.NA`).
 */
module LinearUtils {
  import opened Wrappers
  import opened Text
  import opened Search
  import opened Keywords
  import opened Numerals
  import Cylinders
  import opened Pieces

  // ---------------------------------------------------------------- get_fuel_type

  /** The fuel alternation, duplicates included as written; a repeated term can
      never be the first to match, so the repeats change nothing. */
  const FuelTerms: seq<string> :=
    ["Electric", "Motor", "Battery", "gasoline", "hybrid", "flex", "EV", "Electric", "Battery"]

  /** "NA" is not a spelling of any term. */
  lemma NotAFuelTerm()
    ensures forall k :: 0 <= k < |FuelTerms| ==> !EqualIgnoringCase("NA", FuelTerms[k])
  {
    forall k | 0 <= k < |FuelTerms|
      ensures !EqualIgnoringCase("NA", FuelTerms[k])
    {
      if |FuelTerms[k]| == |"NA"| {
        assert !SameLetter("NA"[0], FuelTerms[k][0]);
      }
    }
  }

  /** `get_fuel_type`: the leftmost-first fuel term, verbatim, or "NA". */
  function FuelType(spec: string): (r: string)
    ensures KeywordResult(spec, FuelTerms, "NA", r)
    ensures r == "NA" <==> NoTerm(spec, FuelTerms)
  {
    NotAFuelTerm();
    DefaultMeansNoTerm(spec, FuelTerms, "NA");
    KeywordOr(spec, FuelTerms, "NA")
  }


  // ---------------------------------------------------------------- get_hp

  /** `(\d+(?:\.\d+)?)HP` can match at i with group 1 the numeral n. The
      pattern has no `(?i)`: only an upper-case "HP" will do. */
  ghost predicate HpWay(s: string, i: nat, n: Numeral) {
    IsNumeral(s, i, n) && n.end + 2 <= |s| && s[n.end] == 'H' && s[n.end + 1] == 'P'
  }

  /** How Python matches the horsepower pattern at i. */
  function HpAt(s: string, i: nat): (r: Option<Numeral>)
    ensures r.None? <==> forall n :: !HpWay(s, i, n)
    ensures r.Some? ==> HpWay(s, i, r.value) && forall n :: HpWay(s, i, n) ==> n == r.value
  {
    HpWaysDetermined(s, i);
    match NumeralAt(s, i)
    case None => None
    case Some(n) =>
      if n.end + 2 <= |s| && s[n.end] == 'H' && s[n.end + 1] == 'P' then
        assert HpWay(s, i, n);
        Some(n)
      else
        None
  }

  /** Backtracking never finds a second way: the numeral of any match is the
      greedy one, since "H" is neither a digit nor a point. */
  lemma HpWaysDetermined(s: string, i: nat)
    ensures forall n :: HpWay(s, i, n) ==> NumeralAt(s, i) == Some(n)
  {
    forall n | HpWay(s, i, n)
      ensures NumeralAt(s, i) == Some(n)
    {
      NumeralDetermined(s, i, n);
    }
  }

  /** The horsepower match starting at i, with no match starting earlier. */
  ghost predicate LeftmostHp(s: string, i: nat, n: Numeral) {
    HpWay(s, i, n) && forall j: nat, m :: j < i ==> !HpWay(s, j, m)
  }

  /** `get_hp`: the value of the leftmost numeral written right before "HP". */
  function Horsepower(spec: string): (r: Option<real>)
    ensures r.None? <==> forall i: nat, n :: !HpWay(spec, i, n)
    ensures r.Some? ==> exists i: nat, n :: LeftmostHp(spec, i, n) && r.value == NumeralValue(spec, i, n)
  {
    SearchMeetsHp(spec);
    match Leftmost(spec, HpAt)
    case None => None
    case Some(h) => Some(NumeralValue(spec, h.start, h.found))
  }

  lemma SearchMeetsHp(s: string)
    ensures var r := Leftmost(s, HpAt);
            && (r.None? <==> forall i: nat, n :: !HpWay(s, i, n))
            && (r.Some? ==> LeftmostHp(s, r.value.start, r.value.found))
  {
    var r := Leftmost(s, HpAt);
    var bound := if r.Some? then r.value.start else |s| + 1;
    forall j: nat, m | j < bound
      ensures !HpWay(s, j, m)
    {
      if j <= |s| {
        assert HpAt(s, j).None?;
      }
    }
  }

  // ---------------------------------------------------------------- get_engine

  /** `(\d+(?:\.\d+)?)\s?L(iter)?` can match at i with group 1 the numeral n
      and the "L" at l. The optional "iter" after the "L" lengthens the match
      but never decides whether there is one, nor group 1. */
  ghost predicate EngineWay(s: string, i: nat, n: Numeral, l: nat) {
    && IsNumeral(s, i, n)
    && l < |s| && s[l] == 'L'
    && (l == n.end || (l == n.end + 1 && IsSpace(s[n.end])))
  }

  /** How Python matches the displacement pattern at i. */
  function EngineAt(s: string, i: nat): (r: Option<Numeral>)
    ensures r.None? <==> forall n, l: nat :: !EngineWay(s, i, n, l)
    ensures r.Some? ==> (exists l: nat :: EngineWay(s, i, r.value, l))
    ensures r.Some? ==> forall n, l: nat :: EngineWay(s, i, n, l) ==> n == r.value
  {
    EngineWaysDetermined(s, i);
    match NumeralAt(s, i)
    case None => None
    case Some(n) =>
      if n.end < |s| && s[n.end] == 'L' then
        assert EngineWay(s, i, n, n.end);
        Some(n)
      else if n.end + 1 < |s| && IsSpace(s[n.end]) && s[n.end + 1] == 'L' then
        assert EngineWay(s, i, n, n.end + 1);
        Some(n)
      else
        None
  }

  lemma EngineWaysDetermined(s: string, i: nat)
    ensures forall n, l: nat :: EngineWay(s, i, n, l) ==> NumeralAt(s, i) == Some(n)
  {
    forall n, l: nat | EngineWay(s, i, n, l)
      ensures NumeralAt(s, i) == Some(n)
    {
      assert !IsSpace('.') && !IsDigit(s[n.end]);
      NumeralDetermined(s, i, n);
    }
  }

  /** The displacement match starting at i, with no match starting earlier. */
  ghost predicate LeftmostEngine(s: string, i: nat, n: Numeral) {
    && (exists l: nat :: EngineWay(s, i, n, l))
    && forall j: nat, m, l: nat :: j < i ==> !EngineWay(s, j, m, l)
  }

  /** `get_engine`: the value of the leftmost numeral followed by at most one
      whitespace character and an upper-case "L". */
  function Engine(spec: string): (r: Option<real>)
    ensures r.None? <==> forall i: nat, n, l: nat :: !EngineWay(spec, i, n, l)
    ensures r.Some? ==> exists i: nat, n :: LeftmostEngine(spec, i, n) && r.value == NumeralValue(spec, i, n)
  {
    SearchMeetsEngine(spec);
    match Leftmost(spec, EngineAt)
    case None => None
    case Some(h) => Some(NumeralValue(spec, h.start, h.found))
  }

  lemma SearchMeetsEngine(s: string)
    ensures var r := Leftmost(s, EngineAt);
            && (r.None? <==> forall i: nat, n, l: nat :: !EngineWay(s, i, n, l))
            && (r.Some? ==> LeftmostEngine(s, r.value.start, r.value.found))
  {
    var r := Leftmost(s, EngineAt);
    var bound := if r.Some? then r.value.start else |s| + 1;
    forall j: nat, m, l: nat | j < bound
      ensures !EngineWay(s, j, m, l)
    {
      if j <= |s| {
        assert EngineAt(s, j).None?;
      }
    }
  }

  // ---------------------------------------------------------------- get_cylinder

  /** `get_cylinder`: group 1, which is the whole leftmost-first match, or "NA". */
  function Cylinder(spec: string): (r: string)
    ensures r == "NA" <==> Cylinders.NoCylinderBefore(spec, |spec| + 1)
    ensures r != "NA" ==>
              exists i: nat, k: nat, e: nat :: Cylinders.CylinderLeftmost(spec, i, k, e) && r == spec[i..e]
  {
    Cylinders.MatchedTextIsNotNA(spec);
    Cylinders.CylinderMatch(spec).GetOr("NA")
  }

  // ---------------------------------------------------------------- get_fi

  const InjectionTerms: seq<string> := ["PDI", "GDI", "MPFI", "TFSI", "DDI", "SIDI", "GTDI", "TSI"]

  /** "NA" is not a spelling of any term: no term has two letters. */
  lemma NotAnInjectionTerm()
    ensures forall k :: 0 <= k < |InjectionTerms| ==> !EqualIgnoringCase("NA", InjectionTerms[k])
  {
  }

  /** `get_fi`: the leftmost-first injection term, verbatim, or "NA". */
  function FuelInjection(spec: string): (r: string)
    ensures KeywordResult(spec, InjectionTerms, "NA", r)
    ensures r == "NA" <==> NoTerm(spec, InjectionTerms)
  {
    NotAnInjectionTerm();
    DefaultMeansNoTerm(spec, InjectionTerms, "NA");
    KeywordOr(spec, InjectionTerms, "NA")
  }


  // ---------------------------------------------------------------- get_turbo

  const TurboTerms: seq<string> := ["Turbo", "Twin Turbo", "Intercooled", "Supercharged", "sc", "T/C"]

  /** "NA" is not a spelling of any term. */
  lemma NotATurboTerm()
    ensures forall k :: 0 <= k < |TurboTerms| ==> !EqualIgnoringCase("NA", TurboTerms[k])
  {
    forall k | 0 <= k < |TurboTerms|
      ensures !EqualIgnoringCase("NA", TurboTerms[k])
    {
      if |TurboTerms[k]| == |"NA"| {
        assert !SameLetter("NA"[0], TurboTerms[k][0]);
      }
    }
  }

  /** `get_turbo`: the leftmost-first induction term, verbatim, or "NA". */
  function Turbo(spec: string): (r: string)
    ensures KeywordResult(spec, TurboTerms, "NA", r)
    ensures r == "NA" <==> NoTerm(spec, TurboTerms)
  {
    NotATurboTerm();
    DefaultMeansNoTerm(spec, TurboTerms, "NA");
    KeywordOr(spec, TurboTerms, "NA")
  }


  // ---------------------------------------------------------------- get_trans_type

  /** The transmission alternation as written, with `a/?t` and `m/?t`. */
  const TransRegex: seq<seq<Piece>> := [
    Word("Automatic cvt"), Word("Automatic"),
    [Char('a'), Optional('/'), Char('t')], [Char('m'), Optional('/'), Char('t')],
    Word("cvt"), Word("Variable"), Word("manual"), Word("fixed"), Word("dual")]

  /** The same alternation with each `x/?t` written as its two readings in
      the order the matcher tries them. */
  const TransTerms: seq<string> :=
    ["Automatic cvt", "Automatic", "a/t", "at", "m/t", "mt", "cvt", "Variable", "manual", "fixed", "dual"]

  /** `get_trans_type`: the leftmost-first transmission term, verbatim, or
      "M/T". "M/T" is also a spelling of a term, so that result alone does
      not tell the two apart. */
  function TransmissionType(spec: string): (r: string)
    ensures KeywordResult(spec, TransTerms, "M/T", r)
  {
    KeywordOr(spec, TransTerms, "M/T")
  }


  // ---------------------------------------------------------------- get_speed

  // At one position `(?i)(\d+)-?\s?(?:speed)?` is `Text.DigitsAt`: what
  // follows the digits is optional and can never fail, so group 1 is the
  // greedy run of digits there.

  /** s[i..j] is the first maximal run of digits in s. */
  ghost predicate FirstDigitRun(s: string, i: nat, j: nat) {
    && i < j <= |s|
    && AllBetween(s, i, j, IsDigit)
    && (j == |s| || !IsDigit(s[j]))
    && forall k :: 0 <= k < i ==> !IsDigit(s[k])
  }

  /** `get_speed`: the integer value of the first run of digits anywhere in
      the text, or nothing when it has no digit. */
  function Speed(spec: string): (r: Option<nat>)
    ensures r.None? <==> forall k :: 0 <= k < |spec| ==> !IsDigit(spec[k])
    ensures r.Some? ==> exists i: nat, j: nat :: FirstDigitRun(spec, i, j) && r.value == DigitsValue(spec[i..j])
  {
    SearchMeetsSpeed(spec);
    match Leftmost<nat>(spec, DigitsAt)
    case None => None
    case Some(h) =>
      assert AllDigits(spec[h.start..h.found]);
      Some(DigitsValue(spec[h.start..h.found]))
  }

  lemma SearchMeetsSpeed(s: string)
    ensures var r := Leftmost<nat>(s, DigitsAt);
            && (r.None? <==> forall k :: 0 <= k < |s| ==> !IsDigit(s[k]))
            && (r.Some? ==> FirstDigitRun(s, r.value.start, r.value.found))
  {
    var r := Leftmost<nat>(s, DigitsAt);
    var bound := if r.Some? then r.value.start else |s|;
    forall k | 0 <= k < bound
      ensures !IsDigit(s[k])
    {
      assert DigitsAt(s, k).None?;
    }
  }

  // ---------------------------------------------------------------- get_color

  /** The color alternation, the repeated "Brown" included as written. */
  const ColorTerms: seq<string> := [
    "Black", "White", "Gray", "Silver", "Blue", "Red", "Green",
    "Gold", "Brown", "Orange", "Beige", "Yellow", "Brown", "Ebony"]

  /** "Miscellaneous" is not a spelling of any term: every color is shorter. */
  lemma NotAColor()
    ensures forall k :: 0 <= k < |ColorTerms| ==> !EqualIgnoringCase("Miscellaneous", ColorTerms[k])
  {
  }

  /** `get_color`: the leftmost-first color, verbatim, or "Miscellaneous". */
  function Color(spec: string): (r: string)
    ensures KeywordResult(spec, ColorTerms, "Miscellaneous", r)
    ensures r == "Miscellaneous" <==> NoTerm(spec, ColorTerms)
  {
    NotAColor();
    DefaultMeansNoTerm(spec, ColorTerms, "Miscellaneous");
    KeywordOr(spec, ColorTerms, "Miscellaneous")
  }


  // ---------------------------------------------------------------- get_color_type

  const FinishTerms: seq<string> := ["Metallic", "Metal", "chrome"]

  /** "Gloss" is not a spelling of any term. */
  lemma NotAFinish()
    ensures forall k :: 0 <= k < |FinishTerms| ==> !EqualIgnoringCase("Gloss", FinishTerms[k])
  {
    forall k | 0 <= k < |FinishTerms|
      ensures !EqualIgnoringCase("Gloss", FinishTerms[k])
    {
      if |FinishTerms[k]| == |"Gloss"| {
        assert !SameLetter("Gloss"[0], FinishTerms[k][0]);
      }
    }
  }

  /** `get_color_type`: the leftmost-first finish, verbatim, or "Gloss". */
  function ColorType(spec: string): (r: string)
    ensures KeywordResult(spec, FinishTerms, "Gloss", r)
    ensures r == "Gloss" <==> NoTerm(spec, FinishTerms)
  {
    NotAFinish();
    DefaultMeansNoTerm(spec, FinishTerms, "Gloss");
    KeywordOr(spec, FinishTerms, "Gloss")
  }

}
