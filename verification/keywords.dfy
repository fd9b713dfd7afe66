/**
 * Case-insensitive search for an ordered alternation of literal terms,
 * `re.search(r'(?i)(t0|t1|...)', s)`, the shape of seven of the extractors.
 */
module Keywords {
  import opened Wrappers
  import opened Text
  import opened Search

  /** `term` matches the text of s that starts at i, ignoring case. */
  predicate OccursAt(s: string, i: nat, term: string) {
    i + |term| <= |s| && EqualIgnoringCase(s[i..i + |term|], term)
  }

  /** Term k is the alternative the regex takes at i: it occurs there and no
      earlier-listed term does. */
  ghost predicate FirstTermAt(s: string, i: nat, terms: seq<string>, k: nat) {
    && k < |terms|
    && OccursAt(s, i, terms[k])
    && forall m {:trigger OccursAt(s, i, terms[m])} :: 0 <= m < k ==> !OccursAt(s, i, terms[m])
  }

  /** No term occurs at any position before i. */
  ghost predicate NoTermBefore(s: string, terms: seq<string>, i: nat) {
    forall j, k :: 0 <= j < i && 0 <= k < |terms| ==> !OccursAt(s, j, terms[k])
  }

  /** No term occurs anywhere in s. */
  ghost predicate NoTerm(s: string, terms: seq<string>) {
    NoTermBefore(s, terms, |s| + 1)
  }

  /** A term that occurs at i starts with the letter at i. */
  lemma OccursAtFront(s: string, i: nat, term: string)
    requires |term| > 0
    ensures OccursAt(s, i, term) ==> SameLetter(s[i], term[0])
  {
    if OccursAt(s, i, term) {
      assert s[i..i + |term|][0] == s[i];
    }
  }

  /** The leftmost-first match: term k at position i, nothing earlier, and no
      earlier alternative at i. */
  ghost predicate LeftmostFirst(s: string, terms: seq<string>, i: nat, k: nat) {
    i <= |s| && FirstTermAt(s, i, terms, k) && NoTermBefore(s, terms, i)
  }

  /** The alternation tried at position i: the first term that occurs there,
      with the position where its match ends. */
  function TermsAt(s: string, i: nat, terms: seq<string>): (r: Option<Choice<nat>>)
    ensures r.None? <==> forall k {:trigger OccursAt(s, i, terms[k])} :: 0 <= k < |terms| ==> !OccursAt(s, i, terms[k])
    ensures r.Some? ==>
              FirstTermAt(s, i, terms, r.value.index) && r.value.value == i + |terms[r.value.index]|
  {
    OccurrenceMeans(s, i);
    FirstChoice(terms, Occurrence(s, i), 0)
  }

  /** A single term tried at i: where its match ends, if it occurs there. */
  function Occurrence(s: string, i: nat): string -> Option<nat> {
    t => if OccursAt(s, i, t) then Some(i + |t|) else None
  }

  /** What trying one term gives. */
  lemma OccurrenceMeans(s: string, i: nat)
    ensures forall t :: Occurrence(s, i)(t) == if OccursAt(s, i, t) then Some(i + |t|) else None
  {
  }

  /** The alternation as the position test `Search.Leftmost` scans with. */
  function Alternation(terms: seq<string>): (string, nat) -> Option<Choice<nat>> {
    (t: string, i: nat) => TermsAt(t, i, terms)
  }

  /** The whole search: where the leftmost-first match starts and which term it is. */
  function KeywordSearch(s: string, terms: seq<string>): (r: Option<Hit<Choice<nat>>>)
    ensures r.None? <==> NoTerm(s, terms)
    ensures r.Some? ==>
              && LeftmostFirst(s, terms, r.value.start, r.value.found.index)
              && r.value.found.value == r.value.start + |terms[r.value.found.index]|
  {
    SearchMeetsAlternation(s, terms);
    Leftmost(s, Alternation(terms))
  }

  /** What `Leftmost` promises about the alternation, restated in terms of
      where the terms occur. */
  lemma SearchMeetsAlternation(s: string, terms: seq<string>)
    ensures var r := Leftmost(s, Alternation(terms));
            && (r.None? <==> NoTerm(s, terms))
            && (r.Some? ==>
                  && LeftmostFirst(s, terms, r.value.start, r.value.found.index)
                  && r.value.found.value == r.value.start + |terms[r.value.found.index]|)
  {
    var at := Alternation(terms);
    var r := Leftmost(s, at);
    var bound := if r.Some? then r.value.start else |s| + 1;
    forall j, k | 0 <= j < bound && 0 <= k < |terms|
      ensures !OccursAt(s, j, terms[k])
    {
      assert at(s, j).None?;
    }
    if r.Some? {
      assert at(s, r.value.start) == TermsAt(s, r.value.start, terms);
    }
  }

  /** s holds t verbatim at position i. */
  ghost predicate SliceAt(s: string, i: nat, t: string) {
    i + |t| <= |s| && s[i..i + |t|] == t
  }

  /** `group(0)` of the search: the matched text, in the input's own casing. */
  function KeywordMatch(s: string, terms: seq<string>): (r: Option<string>)
    ensures r.None? <==> NoTerm(s, terms)
    ensures forall i: nat, k: nat :: LeftmostFirst(s, terms, i, k) ==> r == Some(s[i..i + |terms[k]|])
    ensures r.Some? ==> exists i: nat, k: nat :: LeftmostFirst(s, terms, i, k) && r.value == s[i..i + |terms[k]|]
  {
    SearchFindsLeftmostFirst(s, terms);
    match KeywordSearch(s, terms)
    case None => None
    case Some(h) =>
      var i, k := h.start, h.found.index;
      assert LeftmostFirst(s, terms, i, k);
      Some(s[i..i + |terms[k]|])
  }

  /** The text of a leftmost-first match sits in s and spells its term. */
  lemma MatchedText(s: string, terms: seq<string>, i: nat, k: nat)
    requires LeftmostFirst(s, terms, i, k)
    ensures SliceAt(s, i, s[i..i + |terms[k]|])
    ensures EqualIgnoringCase(s[i..i + |terms[k]|], terms[k])
  {
  }

  /** At most one (position, term) pair is the leftmost-first match. */
  lemma LeftmostFirstUnique(s: string, terms: seq<string>, i: nat, k: nat, i': nat, k': nat)
    requires LeftmostFirst(s, terms, i, k) && LeftmostFirst(s, terms, i', k')
    ensures i == i' && k == k'
  {
  }

  /** Any leftmost-first match is the one the search reports. */
  lemma SearchFindsLeftmostFirst(s: string, terms: seq<string>)
    ensures forall i: nat, k: nat :: LeftmostFirst(s, terms, i, k) ==> SearchReports(s, terms, i, k)
  {
    forall i: nat, k: nat | LeftmostFirst(s, terms, i, k)
      ensures SearchReports(s, terms, i, k)
    {
      SearchFinds(s, terms, i, k);
    }
  }

  /** The search reports term k at position i. */
  ghost predicate SearchReports(s: string, terms: seq<string>, i: nat, k: nat) {
    var h := KeywordSearch(s, terms);
    && h.Some? && h.value.start == i && h.value.found.index == k
    && k < |terms| && h.value.found.value == i + |terms[k]|
  }

  /** The leftmost-first match at i with term k is the one the search reports. */
  lemma SearchFinds(s: string, terms: seq<string>, i: nat, k: nat)
    requires LeftmostFirst(s, terms, i, k)
    ensures SearchReports(s, terms, i, k)
  {
    FirstTermIsChosen(s, terms, i, k);
    NothingBefore(s, terms, i);
    LeftmostIsUnique(s, Alternation(terms), i);
  }

  /** The term the alternation takes at i is the first that occurs there. */
  lemma FirstTermIsChosen(s: string, terms: seq<string>, i: nat, k: nat)
    requires FirstTermAt(s, i, terms, k)
    ensures var c := TermsAt(s, i, terms);
            c.Some? && c.value.index == k && c.value.value == i + |terms[k]|
  {
    assert TermsAt(s, i, terms).Some?;
  }

  /** Where no term occurs, the alternation reports nothing. */
  lemma NothingBefore(s: string, terms: seq<string>, i: nat)
    requires NoTermBefore(s, terms, i)
    ensures forall j | 0 <= j < i :: Alternation(terms)(s, j).None?
  {
    forall j | 0 <= j < i
      ensures Alternation(terms)(s, j).None?
    {
      assert Alternation(terms)(s, j) == TermsAt(s, j, terms);
    }
  }

  /** A term that occurs anywhere rules out "no term". */
  lemma TermMeansMatch(s: string, terms: seq<string>, i: nat, k: nat)
    requires i <= |s| && k < |terms| && OccursAt(s, i, terms[k])
    ensures !NoTerm(s, terms)
  {
  }

  /** Whatever term wins at the leftmost position with no earlier alternative
      there is exactly what the search returns. */
  lemma LeftmostFirstWins(s: string, terms: seq<string>, i: nat, k: nat)
    requires LeftmostFirst(s, terms, i, k)
    ensures KeywordMatch(s, terms) == Some(s[i..i + |terms[k]|])
  {
  }

  /** r is what `value.group(0) if value else default` gives for a search
      over `terms`: the default when no term occurs, and otherwise the
      leftmost-first match, verbatim. */
  ghost predicate KeywordResult(s: string, terms: seq<string>, default: string, r: string) {
    && (NoTerm(s, terms) ==> r == default)
    && (!NoTerm(s, terms) ==>
          exists i: nat, k: nat :: LeftmostFirst(s, terms, i, k) && r == s[i..i + |terms[k]|])
  }

  /** The extractor's string result: the matched text, or `default` when no
      term occurs anywhere. */
  function KeywordOr(s: string, terms: seq<string>, default: string): (r: string)
    ensures KeywordResult(s, terms, default, r)
  {
    KeywordMatch(s, terms).GetOr(default)
  }

  /** When the default is not itself a spelling of a term, returning it means
      no term occurs. */
  lemma DefaultMeansNoTerm(s: string, terms: seq<string>, default: string)
    requires forall k {:trigger EqualIgnoringCase(default, terms[k])} :: 0 <= k < |terms| ==> !EqualIgnoringCase(default, terms[k])
    ensures KeywordOr(s, terms, default) == default <==> NoTerm(s, terms)
  {
    var r := KeywordOr(s, terms, default);
    if !NoTerm(s, terms) {
      var i: nat, k: nat :| LeftmostFirst(s, terms, i, k) && r == s[i..i + |terms[k]|];
      MatchedText(s, terms, i, k);
    }
  }

  /** Inputs that differ only in the case of their letters are searched
      alike: the same term wins at the same position. Each input's result
      then keeps that input's own casing. */
  lemma SearchIgnoresCase(s: string, s': string, terms: seq<string>)
    requires EqualIgnoringCase(s, s')
    ensures KeywordSearch(s, terms) == KeywordSearch(s', terms)
  {
    forall i: nat, t: string
      ensures OccursAt(s, i, t) <==> OccursAt(s', i, t)
    {
      if i + |t| <= |s| {
        var a, b := s[i..i + |t|], s'[i..i + |t|];
        assert forall m :: 0 <= m < |t| ==> a[m] == s[i + m] && b[m] == s'[i + m];
        assert forall m :: 0 <= m < |t| ==> SameLetter(a[m], b[m]);
      }
    }
    var r, r' := KeywordSearch(s, terms), KeywordSearch(s', terms);
    if r.Some? && r'.Some? {
      assert LeftmostFirst(s', terms, r.value.start, r.value.found.index);
      LeftmostFirstUnique(s', terms, r.value.start, r.value.found.index, r'.value.start, r'.value.found.index);
    }
  }

  /** The leftmost-first match is the extractor's result, whatever the default. */
  lemma KeywordOrWins(s: string, terms: seq<string>, default: string, i: nat, k: nat)
    requires LeftmostFirst(s, terms, i, k)
    ensures KeywordOr(s, terms, default) == s[i..i + |terms[k]|]
  {
    LeftmostFirstWins(s, terms, i, k);
  }

  /** The extractor's result under a change of case: a default for both
      inputs or for neither. */
  lemma KeywordOrIgnoresCase(s: string, s': string, terms: seq<string>, default: string)
    requires EqualIgnoringCase(s, s')
    ensures NoTerm(s, terms) <==> NoTerm(s', terms)
    ensures NoTerm(s, terms) ==> KeywordOr(s, terms, default) == default == KeywordOr(s', terms, default)
  {
    SearchIgnoresCase(s, s', terms);
  }

  /** r and r' are the text of s and of s' at one same place, spelled alike
      up to case. */
  ghost predicate SlicesAlike(s: string, s': string, r: string, r': string) {
    exists i: nat :: SliceAt(s, i, r) && SliceAt(s', i, r') && EqualIgnoringCase(r, r')
  }

  /** When a term occurs, the two results are each input's own text at the
      same place, spelled alike up to case. */
  lemma KeywordOrKeepsCase(s: string, s': string, terms: seq<string>, default: string)
    requires EqualIgnoringCase(s, s') && !NoTerm(s, terms)
    ensures SlicesAlike(s, s', KeywordOr(s, terms, default), KeywordOr(s', terms, default))
  {
    var r, r' := KeywordOr(s, terms, default), KeywordOr(s', terms, default);
    ResultsAlike(s, s', terms, default, r, r');
  }

  /** The two results, named, are alike. */
  lemma ResultsAlike(s: string, s': string, terms: seq<string>, default: string, r: string, r': string)
    requires EqualIgnoringCase(s, s') && !NoTerm(s, terms)
    requires r == KeywordOr(s, terms, default) && r' == KeywordOr(s', terms, default)
    ensures SlicesAlike(s, s', r, r')
  {
    var i, j := SamePlaceResults(s, s', terms, default);
    SameSlices(s, s', i, j, r, r');
  }

  /** Under a change of case, both results are the text the same term spans
      at the same place of their own input. */
  lemma SamePlaceResults(s: string, s': string, terms: seq<string>, default: string) returns (i: nat, j: nat)
    requires EqualIgnoringCase(s, s') && !NoTerm(s, terms)
    ensures i <= j <= |s| == |s'|
    ensures KeywordOr(s, terms, default) == s[i..j]
    ensures KeywordOr(s', terms, default) == s'[i..j]
  {
    var k;
    i, k := SameMatchPlace(s, s', terms);
    j := i + |terms[k]|;
    KeywordOrEnds(s, terms, default, i, k, j);
    KeywordOrEnds(s', terms, default, i, k, j);
  }

  /** `KeywordOrWins` with the end of the match named. */
  lemma KeywordOrEnds(s: string, terms: seq<string>, default: string, i: nat, k: nat, j: nat)
    requires LeftmostFirst(s, terms, i, k) && j == i + |terms[k]|
    ensures j <= |s| && KeywordOr(s, terms, default) == s[i..j]
  {
    KeywordOrWins(s, terms, default, i, k);
  }

  /** Under a change of case, the leftmost-first match of each input is the
      same term at the same place. */
  lemma SameMatchPlace(s: string, s': string, terms: seq<string>) returns (i: nat, k: nat)
    requires EqualIgnoringCase(s, s') && !NoTerm(s, terms)
    ensures LeftmostFirst(s, terms, i, k) && LeftmostFirst(s', terms, i, k)
    ensures i + |terms[k]| <= |s| == |s'|
  {
    SearchIgnoresCase(s, s', terms);
    i, k := KeywordSearch(s, terms).value.start, KeywordSearch(s, terms).value.found.index;
  }

  /** Slices at the same place of equal-up-to-case texts sit in them there
      and are equal up to case. */
  lemma SameSlices(s: string, s': string, i: nat, j: nat, r: string, r': string)
    requires EqualIgnoringCase(s, s') && i <= j <= |s| && r == s[i..j] && r' == s'[i..j]
    ensures SlicesAlike(s, s', r, r')
  {
    SlicesIgnoreCase(s, s', i, j);
    assert SliceAt(s, i, r) && SliceAt(s', i, r') && EqualIgnoringCase(r, r');
  }

  /** Equal-up-to-case texts have equal-up-to-case slices. */
  lemma SlicesIgnoreCase(s: string, s': string, i: nat, j: nat)
    requires EqualIgnoringCase(s, s') && i <= j <= |s|
    ensures SliceAt(s, i, s[i..j]) && SliceAt(s', i, s'[i..j])
    ensures EqualIgnoringCase(s[i..j], s'[i..j])
  {
    assert forall m :: 0 <= m < j - i ==> s[i..j][m] == s[i + m] && s'[i..j][m] == s'[i + m];
  }

  /** Any position test that ends where the alternation of `terms` ends, at
      every position, gives the same search and so the same extractor
      result: the default exactly when it finds nothing, otherwise the text
      from where it starts to where its match ends. */
  lemma KeywordOrBySearch(s: string, terms: seq<string>, default: string, at: (string, nat) -> Option<nat>)
    requires forall j :: 0 <= j <= |s| ==> at(s, j) == ValueOf(Alternation(terms)(s, j))
    ensures var r := Leftmost<nat>(s, at);
            && (r.None? <==> NoTerm(s, terms))
            && (r.None? ==> KeywordOr(s, terms, default) == default)
            && (r.Some? ==> r.value.start <= r.value.found <= |s| && KeywordOr(s, terms, default) == s[r.value.start..r.value.found])
  {
    LeftmostSameValues(s, at, Alternation(terms));
    KeywordOrOfSearch(s, terms, default);
  }

  /** The extractor's result read off the search over the alternation: the
      default exactly when it finds nothing, otherwise the text from where it
      starts to where its match ends. */
  lemma KeywordOrOfSearch(s: string, terms: seq<string>, default: string)
    ensures var k := Leftmost<Choice<nat>>(s, Alternation(terms));
            && (k.None? <==> NoTerm(s, terms))
            && (k.None? ==> KeywordOr(s, terms, default) == default)
            && (k.Some? ==> k.value.start <= k.value.found.value <= |s|
                            && KeywordOr(s, terms, default) == s[k.value.start..k.value.found.value])
  {
    var k := KeywordSearch(s, terms);
    assert k == Leftmost(s, Alternation(terms));
    if k.Some? {
      var i, t := k.value.start, k.value.found.index;
      assert OccursAt(s, i, terms[t]);
      KeywordOrWins(s, terms, default, i, t);
    }
  }
}
