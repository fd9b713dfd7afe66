/**
 * Case-insensitive regex fragments built from literal characters, each
 * possibly made optional with `?`, matched the way Python's backtracking
 * matcher does. The transmission pattern writes two of its alternatives
 * this way (`a/?t`, `m/?t`).
 */
module Pieces {
  import opened Wrappers
  import opened Text
  import opened Keywords

  /** One character of the fragment: required, or followed by `?`. */
  datatype Piece = Char(c: char) | Optional(c: char)

  /** Where the fragment ps ends when matched at i. A greedy `?` takes its
      character when the rest of the fragment can still match after it, and
      otherwise backtracks and matches the rest without it. */
  function PiecesAt(s: string, i: nat, ps: seq<Piece>): Option<nat>
    decreases |ps|
  {
    if ps == [] then Some(i)
    else match ps[0]
      case Char(c) =>
        if i < |s| && SameLetter(s[i], c) then PiecesAt(s, i + 1, ps[1..]) else None
      case Optional(c) =>
        if i < |s| && SameLetter(s[i], c) && PiecesAt(s, i + 1, ps[1..]).Some?
        then PiecesAt(s, i + 1, ps[1..])
        else PiecesAt(s, i, ps[1..])
  }

  /** The fragment spelling a literal word. */
  function Word(w: string): seq<Piece> {
    seq(|w|, k requires 0 <= k < |w| => Char(w[k]))
  }

  /** A fragment of required characters matches exactly where the word
      occurs, and ends after it. */
  lemma {:induction false} WordAt(s: string, i: nat, w: string)
    requires i <= |s|
    ensures PiecesAt(s, i, Word(w)) == if OccursAt(s, i, w) then Some(i + |w|) else None
    decreases |w|
  {
    if w != [] {
      assert Word(w)[0] == Char(w[0]) && Word(w)[1..] == Word(w[1..]);
      assert PiecesAt(s, i, Word(w)) ==
               if i < |s| && SameLetter(s[i], w[0]) then PiecesAt(s, i + 1, Word(w[1..])) else None;
      if i < |s| {
        WordAt(s, i + 1, w[1..]);
      }
      if i + |w| <= |s| {
        var t := s[i..i + |w|];
        assert t[0] == s[i] && t[1..] == s[i + 1..i + 1 + |w[1..]|];
        EqualIgnoringCaseFront(t, w);
        assert OccursAt(s, i, w) <==> SameLetter(s[i], w[0]) && OccursAt(s, i + 1, w[1..]);
      } else {
        assert !OccursAt(s, i, w);
      }
    }
  }

  /** `x/?y` reads as the alternation `x/y|xy`: the reading with the slash
      first, the one without it only when that fails. */
  lemma OptionalSlashReadings(s: string, i: nat, x: char, y: char)
    ensures PiecesAt(s, i, [Char(x), Optional('/'), Char(y)]) ==
              if OccursAt(s, i, [x, '/', y]) then Some(i + 3)
              else if OccursAt(s, i, [x, y]) then Some(i + 2)
              else None
  {
    var ps := [Char(x), Optional('/'), Char(y)];
    var rest := [Optional('/'), Char(y)];
    var last := [Char(y)];
    assert ps[1..] == rest && rest[1..] == last && last[1..] == [];
    assert forall j: nat :: PiecesAt(s, j, last) == if j < |s| && SameLetter(s[j], y) then Some(j + 1) else None;
    assert PiecesAt(s, i + 1, rest) ==
             if i + 1 < |s| && SameLetter(s[i + 1], '/') && PiecesAt(s, i + 2, last).Some?
             then PiecesAt(s, i + 2, last) else PiecesAt(s, i + 1, last);
    assert PiecesAt(s, i, ps) == if i < |s| && SameLetter(s[i], x) then PiecesAt(s, i + 1, rest) else None;
    OccursThree(s, i, x, '/', y);
    OccursTwo(s, i, x, y);
  }

  /** A three-letter word occurs at i exactly when its letters do, one by one. */
  lemma OccursThree(s: string, i: nat, a: char, b: char, c: char)
    ensures OccursAt(s, i, [a, b, c]) <==>
              i + 3 <= |s| && SameLetter(s[i], a) && SameLetter(s[i + 1], b) && SameLetter(s[i + 2], c)
  {
    if i + 3 <= |s| {
      var t := s[i..i + 3];
      assert t[0] == s[i] && t[1] == s[i + 1] && t[2] == s[i + 2];
      if SameLetter(s[i], a) && SameLetter(s[i + 1], b) && SameLetter(s[i + 2], c) {
        assert EqualIgnoringCase(t, [a, b, c]);
      }
    }
  }

  /** A two-letter word occurs at i exactly when its letters do, one by one. */
  lemma OccursTwo(s: string, i: nat, a: char, b: char)
    ensures OccursAt(s, i, [a, b]) <==> i + 2 <= |s| && SameLetter(s[i], a) && SameLetter(s[i + 1], b)
  {
    if i + 2 <= |s| {
      var t := s[i..i + 2];
      assert t[0] == s[i] && t[1] == s[i + 1];
      if SameLetter(s[i], a) && SameLetter(s[i + 1], b) {
        assert EqualIgnoringCase(t, [a, b]);
      }
    }
  }
}
