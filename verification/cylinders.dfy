/**
 * The cylinder pattern
 *   (?i)((?:straight\s+|flat\s+)?\d+ Cylinder|V\d+|V-\d+|h\d+|i-?\d+|w\d+)
 * alternative by alternative: for each, every way it can match at a position
 * (a relation) and the one way Python's backtracking matcher takes (a
 * function), proved to be the longest of those ways.
 */
module Cylinders {
  import opened Wrappers
  import opened Text
  import opened Keywords

  /** The six alternatives, in the order they are written. */
  datatype Form = Counted | VNumber | VDashNumber | HNumber | INumber | WNumber

  const Forms: seq<Form> := [Counted, VNumber, VDashNumber, HNumber, INumber, WNumber]

  /** `(?:straight\s+|flat\s+)?` can match s[i..p]. */
  ghost predicate PrefixWay(s: string, i: nat, p: nat) {
    || p == i
    || (OccursAt(s, i, "straight") && i + 8 < p <= |s| && AllBetween(s, i + 8, p, IsSpace))
    || (OccursAt(s, i, "flat") && i + 4 < p <= |s| && AllBetween(s, i + 4, p, IsSpace))
  }

  /** The first alternative can match with its prefix ending at p and its
      digits s[p..d]; the match then ends at d + 9, after " Cylinder". */
  ghost predicate CountedWay(s: string, i: nat, p: nat, d: nat) {
    i <= p && PrefixWay(s, i, p) && DigitsTo(s, p, d) && OccursAt(s, d, " Cylinder")
  }

  /** Alternative f can match s[i..e]. */
  ghost predicate Way(s: string, i: nat, f: Form, e: nat) {
    && i < e <= |s|
    && match f
    case Counted => exists p: nat, d: nat :: CountedWay(s, i, p, d) && e == d + 9
    case VNumber => i < |s| && SameLetter(s[i], 'V') && DigitsTo(s, i + 1, e)
    case VDashNumber => i + 1 < |s| && SameLetter(s[i], 'V') && s[i + 1] == '-' && DigitsTo(s, i + 2, e)
    case HNumber => i < |s| && SameLetter(s[i], 'h') && DigitsTo(s, i + 1, e)
    case INumber =>
      && i < |s| && SameLetter(s[i], 'i')
      && (DigitsTo(s, i + 1, e) || (i + 1 < |s| && s[i + 1] == '-' && DigitsTo(s, i + 2, e)))
    case WNumber => i < |s| && SameLetter(s[i], 'w') && DigitsTo(s, i + 1, e)
  }

  /** Where the greedy `(?:straight\s+|flat\s+)?` leaves off at i: one of
      the ways the optional prefix can match, and the longest of them. */
  function PrefixEnd(s: string, i: nat): (p: nat)
    ensures PrefixWay(s, i, p) && i <= p
    ensures forall q: nat :: PrefixWay(s, i, q) ==> q <= p
  {
    var p := if OccursAt(s, i, "straight") && i + 8 < |s| && IsSpace(s[i + 8]) then RunEnd(s, i + 8, IsSpace)
             else if OccursAt(s, i, "flat") && i + 4 < |s| && IsSpace(s[i + 4]) then RunEnd(s, i + 4, IsSpace)
             else i;
    PrefixLongest(s, i, p);
    p
  }

  /** No way of matching the prefix goes past the greedy one: a word that
      occurs rules out the other, and the greedy run of spaces is the
      longest. */
  lemma PrefixLongest(s: string, i: nat, p: nat)
    requires p == if OccursAt(s, i, "straight") && i + 8 < |s| && IsSpace(s[i + 8]) then RunEnd(s, i + 8, IsSpace)
                  else if OccursAt(s, i, "flat") && i + 4 < |s| && IsSpace(s[i + 4]) then RunEnd(s, i + 4, IsSpace)
                  else i
    ensures forall q: nat :: PrefixWay(s, i, q) ==> q <= p
  {
    OccursAtFront(s, i, "straight");
    OccursAtFront(s, i, "flat");
    forall q: nat | PrefixWay(s, i, q)
      ensures q <= p
    {
      if q == i {
      } else if OccursAt(s, i, "straight") && i + 8 < q <= |s| && AllBetween(s, i + 8, q, IsSpace) {
        RunEndLongest(s, i + 8, q, IsSpace);
      } else {
        assert !OccursAt(s, i, "straight");
        RunEndLongest(s, i + 4, q, IsSpace);
      }
    }
  }

  /** A prefix that is followed by a digit is the greedy one: a shorter run of
      spaces would leave a space where the digits must start, and a digit at i
      rules out both words. */
  lemma PrefixDetermined(s: string, i: nat, p: nat)
    requires PrefixWay(s, i, p) && p < |s| && IsDigit(s[p])
    ensures PrefixEnd(s, i) == p
  {
    OccursAtFront(s, i, "straight");
    OccursAtFront(s, i, "flat");
    if p == i {
      assert !SameLetter(s[i], 's') && !SameLetter(s[i], 'f');
    } else if OccursAt(s, i, "straight") && i + 8 < p && AllBetween(s, i + 8, p, IsSpace) {
      RunEndUnique(s, i + 8, p, IsSpace);
    } else {
      assert !OccursAt(s, i, "straight");
      RunEndUnique(s, i + 4, p, IsSpace);
    }
  }

  /** How Python matches the first alternative at i. */
  function CountedAt(s: string, i: nat): (r: Option<nat>)
    ensures r.None? <==> forall e: nat :: !Way(s, i, Counted, e)
    ensures r.Some? ==> Way(s, i, Counted, r.value) && forall e: nat :: Way(s, i, Counted, e) ==> e == r.value
  {
    CountedWaysDetermined(s, i);
    var p := PrefixEnd(s, i);
    match DigitsAt(s, p)
    case None => None
    case Some(d) =>
      if OccursAt(s, d, " Cylinder") then
        assert CountedWay(s, i, p, d);
        assert Way(s, i, Counted, d + 9);
        Some(d + 9)
      else
        None
  }

  /** Every way the first alternative can match is the greedy one. */
  lemma CountedWaysDetermined(s: string, i: nat)
    ensures forall p: nat, d: nat :: CountedWay(s, i, p, d) ==>
              PrefixEnd(s, i) == p && DigitsAt(s, p) == Some(d)
  {
    forall p: nat, d: nat | CountedWay(s, i, p, d)
      ensures PrefixEnd(s, i) == p && DigitsAt(s, p) == Some(d)
    {
      PrefixDetermined(s, i, p);
      OccursAtFront(s, d, " Cylinder");
      assert s[d] == ' ';
      RunEndUnique(s, p, d, IsDigit);
    }
  }

  /** How Python matches alternative f at i: where the match ends, if it does. */
  function FormAt(s: string, i: nat, f: Form): (r: Option<nat>)
    ensures r.None? <==> forall e: nat :: !Way(s, i, f, e)
    ensures r.Some? ==> Way(s, i, f, r.value) && forall e: nat :: Way(s, i, f, e) ==> e <= r.value
  {
    var r := match f
      case Counted => CountedAt(s, i)
      case VNumber => if i < |s| && SameLetter(s[i], 'V') then DigitsAt(s, i + 1) else None
      case VDashNumber =>
        if i + 1 < |s| && SameLetter(s[i], 'V') && s[i + 1] == '-' then DigitsAt(s, i + 2) else None
      case HNumber => if i < |s| && SameLetter(s[i], 'h') then DigitsAt(s, i + 1) else None
      case INumber =>
        if i < |s| && SameLetter(s[i], 'i') then
          if i + 1 < |s| && s[i + 1] == '-' then DigitsAt(s, i + 2) else DigitsAt(s, i + 1)
        else None
      case WNumber => if i < |s| && SameLetter(s[i], 'w') then DigitsAt(s, i + 1) else None;
    assert r.Some? ==> Way(s, i, f, r.value);
    r
  }

  /** The alternation tried at i: the first alternative that matches there,
      and where Python's match of it ends. */
  function CylinderAt(s: string, i: nat): (r: Option<Search.Choice<nat>>)
    ensures r.None? <==> forall k: nat, e: nat :: k < |Forms| ==> !Way(s, i, Forms[k], e)
    ensures r.Some? ==> FirstFormAt(s, i, r.value.index, r.value.value)
  {
    CylinderAtMeets(s, i);
    Search.FirstChoice(Forms, FormTest(s, i), 0)
  }

  /** Alternative f tried at i, as the test `Search.FirstChoice` runs. */
  function FormTest(s: string, i: nat): Form -> Option<nat> {
    f => FormAt(s, i, f)
  }

  /** What trying the alternatives in order at i gives, in terms of their ways. */
  lemma CylinderAtMeets(s: string, i: nat)
    ensures var r := Search.FirstChoice(Forms, FormTest(s, i), 0);
            && (r.None? <==> forall k: nat, e: nat :: k < |Forms| ==> !Way(s, i, Forms[k], e))
            && (r.Some? ==> FirstFormAt(s, i, r.value.index, r.value.value))
  {
    var r := Search.FirstChoice(Forms, FormTest(s, i), 0);
    if r.Some? {
      ChosenForm(s, i, r.value.index, r.value.value);
    } else {
      forall k: nat, e: nat | k < |Forms|
        ensures !Way(s, i, Forms[k], e)
      {
        assert FormTest(s, i)(Forms[k]).None?;
      }
    }
  }

  /** The first alternative that matches at i is the one taken there. */
  lemma ChosenForm(s: string, i: nat, k: nat, e: nat)
    requires k < |Forms| && FormAt(s, i, Forms[k]) == Some(e)
    requires forall m :: 0 <= m < k ==> FormAt(s, i, Forms[m]).None?
    ensures FirstFormAt(s, i, k, e)
  {
  }

  /** Alternative k is the one taken at i, and its greedy match ends at e. */
  ghost predicate FirstFormAt(s: string, i: nat, k: nat, e: nat) {
    && k < |Forms|
    && Way(s, i, Forms[k], e)
    && (forall e': nat :: Way(s, i, Forms[k], e') ==> e' <= e)
    && forall m: nat, e': nat :: m < k ==> !Way(s, i, Forms[m], e')
  }

  /** No alternative matches at any position before i. */
  ghost predicate NoCylinderBefore(s: string, i: nat) {
    forall j: nat, k: nat, e: nat :: j < i && k < |Forms| ==> !Way(s, j, Forms[k], e)
  }

  /** The search's answer: alternative k at position i, ending at e. */
  ghost predicate CylinderLeftmost(s: string, i: nat, k: nat, e: nat) {
    i <= |s| && FirstFormAt(s, i, k, e) && NoCylinderBefore(s, i)
  }

  function CylinderPosition(): (string, nat) -> Option<Search.Choice<nat>> {
    (t: string, i: nat) => CylinderAt(t, i)
  }

  /** `group(1)` of the search, the whole match, in the input's casing. */
  function CylinderMatch(s: string): (r: Option<string>)
    ensures r.None? <==> NoCylinderBefore(s, |s| + 1)
    ensures r.Some? ==> exists i: nat, k: nat, e: nat :: CylinderLeftmost(s, i, k, e) && r.value == s[i..e]
  {
    var h := Search.Leftmost(s, CylinderPosition());
    SearchMeetsCylinder(s);
    match h
    case None => None
    case Some(h) => Some(s[h.start..h.found.value])
  }

  /** What `Leftmost` promises, restated in terms of the alternatives' ways. */
  lemma SearchMeetsCylinder(s: string)
    ensures var r := Search.Leftmost(s, CylinderPosition());
            && (r.None? <==> NoCylinderBefore(s, |s| + 1))
            && (r.Some? ==> CylinderLeftmost(s, r.value.start, r.value.found.index, r.value.found.value))
  {
    var at := CylinderPosition();
    var r := Search.Leftmost(s, at);
    var bound := if r.Some? then r.value.start else |s| + 1;
    forall j: nat, k: nat, e: nat | j < bound && k < |Forms|
      ensures !Way(s, j, Forms[k], e)
    {
      if j <= |s| {
        assert at(s, j).None?;
      }
    }
    if r.Some? {
      assert at(s, r.value.start) == CylinderAt(s, r.value.start);
    }
  }

  /** A match of the first alternative at the very start is the search's
      answer: nothing starts earlier, no alternative is listed before it,
      and its match is the only way it matches there. */
  lemma CountedAtStart(s: string, e: nat)
    requires Way(s, 0, Counted, e)
    ensures CylinderMatch(s) == Some(s[..e])
  {
    assert Forms[0] == Counted;
    assert !NoCylinderBefore(s, |s| + 1);
    var r := CylinderMatch(s);
    var i: nat, k: nat, e': nat :| CylinderLeftmost(s, i, k, e') && r.value == s[i..e'];
    assert i == 0;
    assert k == 0;
    assert CountedAt(s, 0) == Some(e);
  }

  /** A two-character match always has a digit second, so it is never the
      text "NA". */
  lemma ShortMatchHasDigit(s: string, i: nat, f: Form, e: nat)
    requires Way(s, i, f, e) && e == i + 2
    ensures IsDigit(s[i + 1])
  {
  }

  /** No match of any alternative is the text "NA", the extractor's default. */
  lemma MatchIsNotNA(s: string, i: nat, f: Form, e: nat)
    requires Way(s, i, f, e)
    ensures s[i..e] != "NA"
  {
    if e == i + 2 {
      ShortMatchHasDigit(s, i, f, e);
      assert s[i..e][1] == s[i + 1];
    }
  }

  /** The search never returns the text "NA". */
  lemma MatchedTextIsNotNA(s: string)
    ensures CylinderMatch(s) != Some("NA")
  {
    var r := CylinderMatch(s);
    if r.Some? {
      var i: nat, k: nat, e: nat :| CylinderLeftmost(s, i, k, e) && r.value == s[i..e];
      MatchIsNotNA(s, i, Forms[k], e);
    }
  }
}
