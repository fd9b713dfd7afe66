/**
 * The transmission pattern writes two of its alternatives with an optional
 * slash (`a/?t`, `m/?t`); `get_trans_type` is modelled with each written
 * out as its two readings. This module shows the two forms match alike, at
 * every position and for the whole search.
 */
module TransReadings {
  import opened Wrappers
  import opened Keywords
  import opened Pieces
  import opened LinearUtils
  import Search

  /** One fragment of the transmission pattern tried at i. */
  function Fragment(s: string, i: nat): seq<Piece> -> Option<nat> {
    ps => PiecesAt(s, i, ps)
  }

  /** Where the transmission alternation, as written with `a/?t` and `m/?t`,
      ends when tried at i. */
  function TransRegexAt(s: string, i: nat): Option<nat> {
    Search.ValueOf(Search.FirstChoice(TransRegex, Fragment(s, i), 0))
  }

  /** The pattern fragments from alternative j on and the terms from j + d on
      give the same match end at i. */
  ghost predicate AgreeFrom(s: string, i: nat, xs: seq<seq<Piece>>, j: nat, ys: seq<string>, m: nat)
    requires j <= |xs| && m <= |ys|
  {
    Search.ValueOf(Search.FirstChoice(xs, Fragment(s, i), j)) ==
      Search.ValueOf(Search.FirstChoice(ys, Occurrence(s, i), m))
  }

  /** A fragment spelling a literal word agrees with that word as a term. */
  lemma WordFragment(s: string, i: nat, w: string)
    requires i <= |s|
    ensures Fragment(s, i)(Word(w)) == Occurrence(s, i)(w)
  {
    WordAt(s, i, w);
  }

  /** `x/?t` as a fragment is the two terms "x/t" and "xt", tried in order. */
  lemma SlashFragment(s: string, i: nat, x: char)
    ensures var o := Occurrence(s, i);
            Fragment(s, i)([Char(x), Optional('/'), Char('t')]) ==
              if o([x, '/', 't']).Some? then o([x, '/', 't']) else o([x, 't'])
  {
    OptionalSlashReadings(s, i, x, 't');
  }

  /** Where every remaining fragment spells the term d places further on, the
      two lists agree from there to the end. */
  lemma {:induction false} WordsAgreeFrom(s: string, i: nat, xs: seq<seq<Piece>>, j: nat, ys: seq<string>, d: nat)
    requires i <= |s| && j <= |xs| && |ys| == |xs| + d
    requires forall m :: j <= m < |xs| ==> xs[m] == Word(ys[m + d])
    ensures AgreeFrom(s, i, xs, j, ys, j + d)
    decreases |xs| - j
  {
    if j < |xs| {
      WordsAgreeFrom(s, i, xs, j + 1, ys, d);
      WordFragment(s, i, ys[j + d]);
      Search.FirstChoiceSame(xs, Fragment(s, i), j, ys, Occurrence(s, i), j + d);
    }
  }

  /** A word fragment in front of agreeing tails keeps the lists agreeing. */
  lemma AgreeOverWord(s: string, i: nat, xs: seq<seq<Piece>>, j: nat, ys: seq<string>, m: nat)
    requires i <= |s| && j < |xs| && m < |ys| && xs[j] == Word(ys[m])
    requires AgreeFrom(s, i, xs, j + 1, ys, m + 1)
    ensures AgreeFrom(s, i, xs, j, ys, m)
  {
    WordFragment(s, i, ys[m]);
    Search.FirstChoiceSame(xs, Fragment(s, i), j, ys, Occurrence(s, i), m);
  }

  /** `x/?t` in front of agreeing tails agrees with its two readings, slash
      first, in front of them. */
  lemma AgreeOverSlash(s: string, i: nat, xs: seq<seq<Piece>>, j: nat, ys: seq<string>, m: nat, x: char)
    requires j < |xs| && m + 1 < |ys|
    requires xs[j] == [Char(x), Optional('/'), Char('t')] && ys[m] == [x, '/', 't'] && ys[m + 1] == [x, 't']
    requires AgreeFrom(s, i, xs, j + 1, ys, m + 2)
    ensures AgreeFrom(s, i, xs, j, ys, m)
  {
    SlashFragment(s, i, x);
    Search.FirstChoiceSplit(xs, Fragment(s, i), j, ys, Occurrence(s, i), m);
  }

  /** How the two tables line up: words at 0, 1 and 4.., slash fragments at
      2 and 3, each against its readings. */
  lemma Tables()
    ensures |TransRegex| == 9 && |TransTerms| == 11
    ensures TransRegex[0] == Word(TransTerms[0]) && TransRegex[1] == Word(TransTerms[1])
    ensures TransRegex[2] == [Char('a'), Optional('/'), Char('t')]
    ensures TransTerms[2] == ['a', '/', 't'] && TransTerms[3] == ['a', 't']
    ensures TransRegex[3] == [Char('m'), Optional('/'), Char('t')]
    ensures TransTerms[4] == ['m', '/', 't'] && TransTerms[5] == ['m', 't']
    ensures forall m :: 4 <= m < 9 ==> TransRegex[m] == Word(TransTerms[m + 2])
  {
  }

  /** Two lists laid out as `Tables` describes agree from their first
      alternatives on. */
  lemma LayoutAgrees(s: string, i: nat, xs: seq<seq<Piece>>, ys: seq<string>)
    requires i <= |s| && |xs| == 9 && |ys| == 11
    requires xs[0] == Word(ys[0]) && xs[1] == Word(ys[1])
    requires xs[2] == [Char('a'), Optional('/'), Char('t')] && ys[2] == ['a', '/', 't'] && ys[3] == ['a', 't']
    requires xs[3] == [Char('m'), Optional('/'), Char('t')] && ys[4] == ['m', '/', 't'] && ys[5] == ['m', 't']
    requires forall m :: 4 <= m < 9 ==> xs[m] == Word(ys[m + 2])
    ensures AgreeFrom(s, i, xs, 0, ys, 0)
  {
    WordsAgreeFrom(s, i, xs, 4, ys, 2);
    AgreeOverSlash(s, i, xs, 3, ys, 4, 'm');
    AgreeOverSlash(s, i, xs, 2, ys, 2, 'a');
    AgreeOverWord(s, i, xs, 1, ys, 1);
    AgreeOverWord(s, i, xs, 0, ys, 0);
  }

  /** Replacing each `x/?t` by its two readings, slash first, changes nothing:
      at every position the pattern as written and `TransTerms` match the same
      text. */
  lemma TransReadingsAgree(s: string, i: nat)
    requires i <= |s|
    ensures TransRegexAt(s, i) == Search.ValueOf(TermsAt(s, i, TransTerms))
  {
    Tables();
    LayoutAgrees(s, i, TransRegex, TransTerms);
    OccurrenceMeans(s, i);
  }

  /** The transmission pattern as written, as the position test of a search. */
  function RegexPosition(): (string, nat) -> Option<nat> {
    (t: string, i: nat) => TransRegexAt(t, i)
  }

  /** `get_trans_type` over the pattern exactly as written: `re.search` finds
      nothing exactly when no term occurs, and then the result is "M/T";
      otherwise the result is the text from where that search starts to
      where its match ends. */
  lemma TransmissionTypeAsWritten(s: string)
    ensures var r := Search.Leftmost<nat>(s, RegexPosition());
            && (r.None? <==> NoTerm(s, TransTerms))
            && (r.None? ==> TransmissionType(s) == "M/T")
            && (r.Some? ==> r.value.start <= r.value.found <= |s| && TransmissionType(s) == s[r.value.start..r.value.found])
  {
    forall j | 0 <= j <= |s|
      ensures RegexPosition()(s, j) == Search.ValueOf(Alternation(TransTerms)(s, j))
    {
      TransReadingsAgree(s, j);
    }
    KeywordOrBySearch(s, TransTerms, "M/T", RegexPosition());
  }
}
