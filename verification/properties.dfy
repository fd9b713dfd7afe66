/**
 * What the extractors promise beyond their contracts: which alternative
 * wins where terms overlap, that numbers are read back exactly, and which
 * parts of the text never matter.
 */
module ExtractorProperties {
  import opened Wrappers
  import opened Text
  import opened Keywords
  import opened Numerals
  import opened Pieces
  import Cylinders
  import opened LinearUtils

  // ---------------------------------------------------------------- precedence

  /** "Metallic" wins over "Metal" where both start, as it is written first. */
  lemma MetallicBeforeMetal(s: string, i: nat)
    requires OccursAt(s, i, "Metallic") && NoTermBefore(s, FinishTerms, i)
    ensures ColorType(s) == s[i..i + 8]
  {
    LeftmostFirstWins(s, FinishTerms, i, 0);
  }

  /** "Metal" is the answer only where "Metallic" does not also start. */
  lemma MetalWhenNotMetallic(s: string, i: nat)
    requires OccursAt(s, i, "Metal") && !OccursAt(s, i, "Metallic") && NoTermBefore(s, FinishTerms, i)
    ensures ColorType(s) == s[i..i + 5]
  {
    LeftmostFirstWins(s, FinishTerms, i, 1);
  }

  /** "Automatic cvt" wins over "Automatic" where both start. */
  lemma AutomaticCvtBeforeAutomatic(s: string, i: nat)
    requires OccursAt(s, i, "Automatic cvt") && NoTermBefore(s, TransTerms, i)
    ensures TransmissionType(s) == s[i..i + 13]
  {
    LeftmostFirstWins(s, TransTerms, i, 0);
  }

  /** "Twin Turbo" is the answer when it starts before any other induction
      term: "Turbo", written first, cannot start at the same place. */
  lemma TwinTurboWins(s: string, i: nat)
    requires OccursAt(s, i, "Twin Turbo") && NoTermBefore(s, TurboTerms, i)
    ensures Turbo(s) == s[i..i + 10]
  {
    assert SameLetter(s[i..i + 10][1], 'w');
    assert s[i..i + 10][1] == s[i + 1];
    assert !OccursAt(s, i, "Turbo") by {
      if i + 5 <= |s| {
        assert s[i..i + 5][1] == s[i + 1];
      }
    }
    LeftmostFirstWins(s, TurboTerms, i, 1);
  }

  // ---------------------------------------------------------------- numbers

  /** A numeral followed by "HP" at the very start is what `get_hp` reads. */
  lemma HorsepowerAtStart(s: string, n: Numeral)
    requires HpWay(s, 0, n)
    ensures Horsepower(s) == Some(NumeralValue(s, 0, n))
  {
    var r := Horsepower(s);
    var i: nat, m :| LeftmostHp(s, i, m) && r.value == NumeralValue(s, i, m);
    assert i == 0;
    assert HpAt(s, 0) == Some(m) == Some(n);
  }

  /** Writing a whole number before "HP" and reading it back gives the number. */
  lemma HorsepowerOfWholeNumber(n: nat)
    ensures Horsepower(NatString(n) + "HP") == Some(n as real)
  {
    var ds := NatString(n);
    var s := ds + "HP";
    var num := Numeral(|ds|, |ds|);
    WholeAtStart(ds, "HP");
    assert HpWay(s, 0, num);
    HorsepowerAtStart(s, num);
    NatStringValue(n);
  }

  /** A run of digits followed by a character that is neither a digit nor a
      point is a whole numeral, worth what its digits spell. */
  lemma WholeAtStart(ds: string, rest: string)
    requires |ds| > 0 && AllDigits(ds) && |rest| > 0 && !IsDigit(rest[0]) && rest[0] != '.'
    ensures var s := ds + rest;
            var num := Numeral(|ds|, |ds|);
            && IsNumeral(s, 0, num)
            && s[|ds|..] == rest
            && NumeralValue(s, 0, num) == DigitsValue(ds) as real
  {
    var s := ds + rest;
    var num := Numeral(|ds|, |ds|);
    assert s[0..|ds|] == ds;
    assert s[|ds|..] == rest;
    assert IsNumeral(s, 0, num);
    NumeralValueOf(s, 0, num, ds, []);
  }

  /** Writing `w.f` before "HP" and reading it back gives the decimal w.f,
      exactly (`WholeAndFraction` spells out its value). */
  lemma HorsepowerOfDecimal(w: nat, f: string)
    requires |f| > 0 && AllDigits(f)
    ensures Horsepower(NatString(w) + "." + f + "HP") == Some(DecimalValue(NatString(w), f))
  {
    var ds := NatString(w);
    var s := ds + "." + f + "HP";
    var num := Numeral(|ds|, |ds| + 1 + |f|);
    DecimalBeforeHp(ds, f);
    HorsepowerAtStart(s, num);
    NumeralValueOf(s, 0, num, ds, f);
  }

  /** The value of a numeral is the decimal its two digit strings spell. */
  lemma NumeralValueOf(s: string, i: nat, n: Numeral, whole: string, frac: string)
    requires IsNumeral(s, i, n) && s[i..n.intEnd] == whole && Fraction(s, i, n) == frac
    ensures AllDigits(whole) && AllDigits(frac)
    ensures NumeralValue(s, i, n) == DecimalValue(whole, frac)
  {
  }

  /** The decimal `w.f` is w plus the fraction f spells over its own number
      of places. */
  lemma WholeAndFraction(w: nat, f: string)
    requires AllDigits(f)
    ensures DecimalValue(NatString(w), f) == w as real + DigitsValue(f) as real / Pow10(|f|) as real
  {
    NatStringValue(w);
  }

  /** The numeral in `ds.f` followed by "HP" is read whole. */
  lemma DecimalBeforeHp(ds: string, f: string)
    requires |ds| > 0 && AllDigits(ds) && |f| > 0 && AllDigits(f)
    ensures var s := ds + "." + f + "HP";
            var num := Numeral(|ds|, |ds| + 1 + |f|);
            && HpWay(s, 0, num)
            && s[0..|ds|] == ds
            && Fraction(s, 0, num) == f
  {
    var s := ds + "." + f + "HP";
    var e := |ds| + 1 + |f|;
    var num := Numeral(|ds|, e);
    Placed(ds + ".", f, "HP");
    assert AllBetween(s, 0, |ds|, IsDigit) by {
      assert forall k :: 0 <= k < |ds| ==> s[k] == (ds + ".")[k] == ds[k];
    }
    assert s[0..|ds|] == ds;
    assert (ds + ".")[|ds|] == '.';
    assert AllBetween(s, |ds| + 1, e, IsDigit);
    assert s[|ds|] == '.' && s[e] == 'H' && s[e + 1] == 'P';
    assert IsNumeral(s, 0, num);
  }

  /** The "HP" is case-sensitive: a text without an upper-case "H" has no
      horsepower, so "300hp" gives nothing. */
  lemma HorsepowerNeedsUpperCaseH(s: string)
    requires forall k :: 0 <= k < |s| ==> s[k] != 'H'
    ensures Horsepower(s) == None
  {
  }

  /** A numeral followed by a whitespace-or-nothing and "L" at the very start
      is what `get_engine` reads. */
  lemma EngineAtStart(s: string, n: Numeral, l: nat)
    requires EngineWay(s, 0, n, l)
    ensures Engine(s) == Some(NumeralValue(s, 0, n))
  {
    var r := Engine(s);
    var i: nat, m :| LeftmostEngine(s, i, m) && r.value == NumeralValue(s, i, m);
    assert i == 0;
    assert EngineAt(s, 0) == Some(m) == Some(n);
  }

  /** A whole number written before a unit that starts with "L", or with one
      whitespace character and "L" ("2L", "2 L", "2Liter", "2 Liter", ...),
      reads back as that number; whatever follows the "L" never matters. */
  lemma EngineOfWholeNumber(n: nat, unit: string)
    requires |unit| > 0
    requires unit[0] == 'L' || (|unit| > 1 && IsSpace(unit[0]) && unit[1] == 'L')
    ensures Engine(NatString(n) + unit) == Some(n as real)
  {
    var ds := NatString(n);
    var s := ds + unit;
    var num := Numeral(|ds|, |ds|);
    WholeAtStart(ds, unit);
    var l := if unit[0] == 'L' then |ds| else |ds| + 1;
    assert s[|ds|] == unit[0] && (l == |ds| + 1 ==> s[l] == unit[1]);
    assert EngineWay(s, 0, num, l);
    EngineAtStart(s, num, l);
    NatStringValue(n);
  }

  /** There is no displacement without an upper-case "L". */
  lemma EngineNeedsUpperCaseL(s: string)
    requires forall k :: 0 <= k < |s| ==> s[k] != 'L'
    ensures Engine(s) == None
  {
  }

  /** `get_speed` reads the first run of digits, wherever it is: text before
      it without digits, and whatever follows it ("-speed", " Speed", ...),
      never change the result. */
  lemma SpeedOfFirstNumber(before: string, n: nat, after: string)
    requires forall k :: 0 <= k < |before| ==> !IsDigit(before[k])
    requires after == [] || !IsDigit(after[0])
    ensures Speed(before + NatString(n) + after) == Some(n)
  {
    var ds := NatString(n);
    var s := before + ds + after;
    NumberPlaced(before, n, after);
    SpeedOfFirstRun(s, |before|, |before| + |ds|);
    NatStringValue(n);
  }

  /** The first maximal run of digits is what `get_speed` reads. */
  lemma SpeedOfFirstRun(s: string, i: nat, j: nat)
    requires FirstDigitRun(s, i, j)
    ensures AllDigits(s[i..j]) && Speed(s) == Some(DigitsValue(s[i..j]))
  {
    SearchMeetsSpeed(s);
    var h := Search.Leftmost<nat>(s, DigitsAt);
    assert IsDigit(s[i]);
    FirstDigitRunUnique(s, i, j, h.value.start, h.value.found);
  }

  /** A text has only one first maximal run of digits. */
  lemma FirstDigitRunUnique(s: string, i: nat, j: nat, i': nat, j': nat)
    requires FirstDigitRun(s, i, j) && FirstDigitRun(s, i', j')
    ensures i == i' && j == j'
  {
    assert IsDigit(s[i]) && IsDigit(s[i']);
    RunEndUnique(s, i, j, IsDigit);
    RunEndUnique(s, i, j', IsDigit);
  }

  /** A number written after text without digits, and before text that does
      not start with one, is the first run of digits. */
  lemma NumberPlaced(before: string, n: nat, after: string)
    requires forall k :: 0 <= k < |before| ==> !IsDigit(before[k])
    requires after == [] || !IsDigit(after[0])
    ensures var s := before + NatString(n) + after;
            && FirstDigitRun(s, |before|, |before| + |NatString(n)|)
            && s[|before|..|before| + |NatString(n)|] == NatString(n)
  {
    var ds := NatString(n);
    var s := before + ds + after;
    var i, j := |before|, |before| + |ds|;
    Placed(before, ds, after);
    assert AllBetween(s, i, j, IsDigit);
    assert j == |s| || !IsDigit(s[j]);
    assert forall k :: 0 <= k < i ==> !IsDigit(s[k]);
  }

  /** Where the parts of a concatenation sit. */
  lemma Placed(a: string, b: string, c: string)
    ensures var s := a + b + c;
            && s[|a|..|a| + |b|] == b
            && (forall k :: 0 <= k < |a| ==> s[k] == a[k])
            && (forall k :: |a| <= k < |a| + |b| ==> s[k] == b[k - |a|])
            && (forall k :: |a| + |b| <= k < |s| ==> s[k] == c[k - |a| - |b|])
  {
  }

  // ---------------------------------------------------------------- cylinders

  /** A "straight" or "flat" prefix and the whitespace after it belong to the
      match: `get_cylinder` returns "straight 6 Cylinder", not "6 Cylinder". */
  lemma CylinderKeepsPrefix(word: string, gap: string, n: nat, tail: string)
    requires EqualIgnoringCase(word, "straight") || EqualIgnoringCase(word, "flat")
    requires |gap| > 0 && forall k :: 0 <= k < |gap| ==> IsSpace(gap[k])
    requires EqualIgnoringCase(tail, " Cylinder")
    ensures Cylinder(word + gap + NatString(n) + tail) == word + gap + NatString(n) + tail
  {
    var s := word + gap + NatString(n) + tail;
    CountedSpelled(word, gap, NatString(n), tail);
    Cylinders.CountedAtStart(s, |s|);
    assert s[..|s|] == s;
  }

  /** A prefix word, whitespace, digits and " Cylinder", written one after
      the other, are a match of the first cylinder alternative. */
  lemma CountedSpelled(word: string, gap: string, ds: string, tail: string)
    requires EqualIgnoringCase(word, "straight") || EqualIgnoringCase(word, "flat")
    requires |gap| > 0 && forall k :: 0 <= k < |gap| ==> IsSpace(gap[k])
    requires |ds| > 0 && AllDigits(ds)
    requires EqualIgnoringCase(tail, " Cylinder")
    ensures var s := word + gap + ds + tail;
            Cylinders.Way(s, 0, Cylinders.Counted, |s|)
  {
    var s := word + gap + ds + tail;
    var p, d := |word| + |gap|, |word| + |gap| + |ds|;
    assert s[0..|word|] == word;
    assert s[d..d + 9] == tail;
    assert forall k :: |word| <= k < p ==> s[k] == gap[k - |word|];
    assert forall k :: p <= k < d ==> s[k] == ds[k - p];
    assert Cylinders.PrefixWay(s, 0, p);
    assert Cylinders.CountedWay(s, 0, p, d);
  }

  // ---------------------------------------------------------------- examples

  /** The first digits of a listing are often the displacement, and that is
      what `get_speed` returns: 2 here, not the 6 of "6-Speed". */
  lemma SpeedOfListing()
    ensures Speed("2.0L 6-Speed") == Some(2)
  {
    var s := "2.0L 6-Speed";
    assert s[0..1] == "2" && !IsDigit(s[1]);
    assert FirstDigitRun(s, 0, 1);
    SpeedOfFirstRun(s, 0, 1);
  }

  /** Horsepower written before "Single-Speed" is read as the speed. */
  lemma SpeedOfElectricListing()
    ensures Speed("402HP, Single-Speed") == Some(402)
  {
    var s := "402HP, Single-Speed";
    assert s[0..3] == "402" && !IsDigit(s[3]);
    assert FirstDigitRun(s, 0, 3);
    SpeedOfFirstRun(s, 0, 3);
    FourHundredTwo();
  }

  /** The digits "402" spell 402. */
  lemma FourHundredTwo()
    ensures DigitsValue("402") == 402
  {
    assert "402"[..2] == "40" && "40"[..1] == "4";
  }

  /** `a/?t` is not anchored to a word: the "at" inside "Heated" is a
      transmission type. */
  lemma HeatedIsAutomatic()
    ensures TransmissionType("Heated") == "at"
  {
    var s := "Heated";
    assert s[2..4] == "at";
    assert !OccursAt(s, 2, "a/t") by {
      assert s[2..5][1] == 't';
    }
    assert FirstTermAt(s, 2, TransTerms, 3);
    assert NoTermBefore(s, TransTerms, 2) by {
      forall j, k | 0 <= j < 2 && 0 <= k < |TransTerms|
        ensures !OccursAt(s, j, TransTerms[k])
      {
        OccursAtFront(s, j, TransTerms[k]);
      }
    }
    KeywordOrWins(s, TransTerms, "M/T", 2, 3);
  }
}
