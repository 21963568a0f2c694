/** The scan of a text that is cut into pieces, each ending in a character
    that matches nothing in the subtext: no occurrence straddles a cut, and
    the scan of the whole is the scans of the pieces, each moved on by the
    length of what precedes it. */
module CharacterPositionsPieces {
  import opened CharacterPositionsService

  /** Every position moved on by `offset`. */
  function Shifted(positions: seq<int>, offset: int): (r: seq<int>)
  {
    if positions == [] then [] else [positions[0] + offset] + Shifted(positions[1..], offset)
  }

  /** `piece` is non-empty and ends in a character that matches no character
      of `subtext`, so no occurrence of `subtext` runs across its end. */
  predicate EndsApart(piece: string, subtext: string) {
    0 < |piece| && forall q :: 0 <= q < |subtext| ==> !MatchCharacters(piece[|piece| - 1], subtext[q], false)
  }

  /** Behind a prefix, the scan of a text from any cursor state reports the
      positions it reports on the text alone, moved on by the prefix's
      length. */
  lemma {:induction false} MatchesFromShift(prefix: string, text: string, subtext: string, i: nat, j: nat)
    requires 0 < |subtext| && j < |subtext| && j <= i <= |text|
    ensures MatchesFrom(prefix + text, subtext, |prefix| + i, j) == Shifted(MatchesFrom(text, subtext, i, j), |prefix|)
    decreases |text| - (i - j), |subtext| - j
  {
    var whole := prefix + text;
    var n := |prefix|;
    if i < |text| {
      assert whole[n + i] == text[i];
      if MatchCharacters(text[i], subtext[j], false) {
        if j + 1 == |subtext| {
          var r := i + 1 - |subtext| + 1;
          var rest := MatchesFrom(text, subtext, r, 0);
          assert MatchesFrom(text, subtext, i, j) == [r] + rest;
          assert MatchesFrom(whole, subtext, n + i, j) == [n + r] + MatchesFrom(whole, subtext, n + r, 0);
          MatchesFromShift(prefix, text, subtext, r, 0);
          assert ([r] + rest)[1..] == rest;
        } else {
          assert MatchesFrom(whole, subtext, n + i, j) == MatchesFrom(whole, subtext, n + i + 1, j + 1);
          MatchesFromShift(prefix, text, subtext, i + 1, j + 1);
        }
      } else if j > 0 {
        assert MatchesFrom(whole, subtext, n + i, j) == MatchesFrom(whole, subtext, n + i, 0);
        MatchesFromShift(prefix, text, subtext, i, 0);
      } else {
        assert MatchesFrom(whole, subtext, n + i, j) == MatchesFrom(whole, subtext, n + i + 1, 0);
        MatchesFromShift(prefix, text, subtext, i + 1, 0);
      }
    }
  }

  /** Before the scan passes the end of a piece that ends apart from the
      subtext, it never reads what follows the piece, and it leaves the piece
      with no partial match pending. */
  lemma {:induction false} MatchesFromSplit(piece: string, text: string, subtext: string, i: nat, j: nat)
    requires 0 < |subtext| && j < |subtext| && j <= i <= |piece|
    requires i < |piece| || j == 0
    requires EndsApart(piece, subtext)
    ensures MatchesFrom(piece + text, subtext, i, j)
         == MatchesFrom(piece, subtext, i, j) + MatchesFrom(piece + text, subtext, |piece|, 0)
    decreases |piece| - (i - j), |subtext| - j
  {
    var whole := piece + text;
    if i < |piece| {
      assert whole[i] == piece[i];
      if MatchCharacters(piece[i], subtext[j], false) {
        assert i < |piece| - 1;
        if j + 1 == |subtext| {
          var r := i + 1 - |subtext| + 1;
          var rest := MatchesFrom(piece + text, subtext, |piece|, 0);
          assert MatchesFrom(whole, subtext, i, j) == [r] + MatchesFrom(whole, subtext, r, 0);
          assert MatchesFrom(piece, subtext, i, j) == [r] + MatchesFrom(piece, subtext, r, 0);
          MatchesFromSplit(piece, text, subtext, r, 0);
          assert [r] + (MatchesFrom(piece, subtext, r, 0) + rest) == ([r] + MatchesFrom(piece, subtext, r, 0)) + rest;
        } else {
          assert MatchesFrom(whole, subtext, i, j) == MatchesFrom(whole, subtext, i + 1, j + 1);
          MatchesFromSplit(piece, text, subtext, i + 1, j + 1);
        }
      } else if j > 0 {
        assert MatchesFrom(whole, subtext, i, j) == MatchesFrom(whole, subtext, i, 0);
        MatchesFromSplit(piece, text, subtext, i, 0);
      } else {
        assert MatchesFrom(whole, subtext, i, j) == MatchesFrom(whole, subtext, i + 1, 0);
        MatchesFromSplit(piece, text, subtext, i + 1, 0);
      }
    }
  }

  /** A text cut after a character that matches nothing in the subtext is
      scanned as its two parts: the positions in the first part, then those
      in the second, moved on by the first part's length. */
  lemma PositionsOfConcat(piece: string, text: string, subtext: string)
    requires 0 < |subtext| && EndsApart(piece, subtext)
    ensures Positions(piece + text, subtext) == Positions(piece, subtext) + Shifted(Positions(text, subtext), |piece|)
  {
    MatchesFromSplit(piece, text, subtext, 0, 0);
    MatchesFromShift(piece, text, subtext, 0, 0);
  }
}
