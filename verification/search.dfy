/**
 * The search discipline of Python's `re.search` for a pattern that is an
 * ordered alternation: start positions are tried from left to right, and at
 * each position the alternatives are tried in the order they are written.
 * The first alternative that matches at the first position where any
 * matches is the answer.
 */
module Search {
  import opened Wrappers

  /** Alternative number `index` matched, with payload `value`. */
  datatype Choice<T> = Choice(index: nat, value: T)

  /** The first alternative at or after `from` that `attempt` accepts. */
  function FirstChoice<A, T>(alts: seq<A>, attempt: A -> Option<T>, from: nat): (r: Option<Choice<T>>)
    requires from <= |alts|
    ensures r.None? <==> forall k {:trigger attempt(alts[k])} :: from <= k < |alts| ==> attempt(alts[k]).None?
    ensures r.Some? ==>
              && from <= r.value.index < |alts|
              && attempt(alts[r.value.index]) == Some(r.value.value)
              && forall k {:trigger attempt(alts[k])} :: from <= k < r.value.index ==> attempt(alts[k]).None?
    decreases |alts| - from
  {
    if from == |alts| then None
    else match attempt(alts[from])
      case Some(v) => Some(Choice(from, v))
      case None => FirstChoice(alts, attempt, from + 1)
  }

  /** A match of the whole search: where it starts and what the pattern
      reported there. */
  datatype Hit<T> = Hit(start: nat, found: T)

  /** The first start position at or after `from` (up to and including |s|,
      as `re.search` also tries the empty suffix) where `at` reports a match. */
  function FirstFrom<T>(s: string, from: nat, at: (string, nat) -> Option<T>): (r: Option<Hit<T>>)
    requires from <= |s|
    ensures r.None? <==> forall i :: from <= i <= |s| ==> at(s, i).None?
    ensures r.Some? ==>
              && from <= r.value.start <= |s|
              && at(s, r.value.start) == Some(r.value.found)
              && forall i :: from <= i < r.value.start ==> at(s, i).None?
    decreases |s| - from
  {
    match at(s, from)
    case Some(v) => Some(Hit(from, v))
    case None => if from == |s| then None else FirstFrom(s, from + 1, at)
  }

  /** `re.search(pattern, s)` where `at(s, i)` says how the pattern matches at i. */
  function Leftmost<T>(s: string, at: (string, nat) -> Option<T>): (r: Option<Hit<T>>)
    ensures r.None? <==> forall i :: 0 <= i <= |s| ==> at(s, i).None?
    ensures r.Some? ==>
              && r.value.start <= |s|
              && at(s, r.value.start) == Some(r.value.found)
              && forall i :: 0 <= i < r.value.start ==> at(s, i).None?
  {
    FirstFrom(s, 0, at)
  }

  /** The leftmost match is the only hit with nothing before it: any position
      that matches, with no match earlier, is what `Leftmost` returns. */
  lemma LeftmostIsUnique<T>(s: string, at: (string, nat) -> Option<T>, i: nat)
    requires i <= |s| && at(s, i).Some?
    requires forall j :: 0 <= j < i ==> at(s, j).None?
    ensures Leftmost(s, at) == Some(Hit(i, at(s, i).value))
  {
  }

  /** The payload of an alternation's result, forgetting which alternative
      gave it. */
  function ValueOf<T>(r: Option<Choice<T>>): Option<T> {
    match r
    case None => None
    case Some(c) => Some(c.value)
  }

  /** Two alternations whose next alternatives agree, and whose remaining
      alternatives give the same payload, give the same payload. */
  lemma FirstChoiceSame<A, B, T>(xs: seq<A>, f: A -> Option<T>, j: nat, ys: seq<B>, g: B -> Option<T>, m: nat)
    requires j < |xs| && m < |ys| && f(xs[j]) == g(ys[m])
    requires ValueOf(FirstChoice(xs, f, j + 1)) == ValueOf(FirstChoice(ys, g, m + 1))
    ensures ValueOf(FirstChoice(xs, f, j)) == ValueOf(FirstChoice(ys, g, m))
  {
  }

  /** One alternative that behaves as two consecutive ones, tried in order,
      can stand in for them. */
  lemma FirstChoiceSplit<A, B, T>(xs: seq<A>, f: A -> Option<T>, j: nat, ys: seq<B>, g: B -> Option<T>, m: nat)
    requires j < |xs| && m + 1 < |ys|
    requires f(xs[j]) == if g(ys[m]).Some? then g(ys[m]) else g(ys[m + 1])
    requires ValueOf(FirstChoice(xs, f, j + 1)) == ValueOf(FirstChoice(ys, g, m + 2))
    ensures ValueOf(FirstChoice(xs, f, j)) == ValueOf(FirstChoice(ys, g, m))
  {
    assert FirstChoice(ys, g, m + 1) == match g(ys[m + 1])
      case Some(v) => Some(Choice(m + 1, v))
      case None => FirstChoice(ys, g, m + 2);
  }

  /** Two position tests that report the same match end everywhere, one of
      them also naming the alternative, give the same leftmost hit. */
  lemma LeftmostSameValues<T>(s: string, at: (string, nat) -> Option<T>, at': (string, nat) -> Option<Choice<T>>)
    requires forall j :: 0 <= j <= |s| ==> at(s, j) == ValueOf(at'(s, j))
    ensures var r, r' := Leftmost<T>(s, at), Leftmost<Choice<T>>(s, at');
            && (r.None? <==> r'.None?)
            && (r'.Some? ==> r == Some(Hit(r'.value.start, r'.value.found.value)))
  {
    var r' := Leftmost(s, at');
    if r'.Some? {
      var i := r'.value.start;
      assert at(s, i) == Some(r'.value.found.value);
      assert forall j :: 0 <= j < i ==> at(s, j).None? by {
        forall j | 0 <= j < i
          ensures at(s, j).None?
        {
          assert at'(s, j).None?;
        }
      }
      LeftmostIsUnique(s, at, i);
    } else {
      assert forall j :: 0 <= j <= |s| ==> at(s, j).None? by {
        forall j | 0 <= j <= |s|
          ensures at(s, j).None?
        {
          assert at'(s, j).None?;
        }
      }
    }
  }
}
