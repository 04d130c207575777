/**
 * The solvability test of game.js:149-162, as written, beside the 15-puzzle parity rule
 * it was meant to implement.
 *
 * As written, `countInversions` counts the blank too (its guard compares a tile record
 * with the number 15, which always differs) and `isSolvable` takes the blank's row
 * from the top, plus one. Both shift the verdict; the net effect is that a board is
 * accepted iff (inversions among the other tiles + blank row + blank column) is odd,
 * whereas a board is reachable from the solved one only if
 * (inversions among the other tiles + blank row) is odd.
 */
module Solvability {
  import opened JsMath
  import opened Board
  import opened InversionCount

  /** `isSolvable()` for the board `s` and the empty slot `e`, as game.js computes it. */
  function Solvable(s: seq<int>, e: int): bool
  {
    // `countInversions` loops over all pairs; its blank-skipping guard is always true.
    var inversionCount := Inversions(s);
    var emptyTileRow := FloorDiv(e, GridSize) + 1;
    if GridSize % 2 == 0 then
      if Rem(emptyTileRow, 2) == 0 then inversionCount % 2 == 1 else inversionCount % 2 == 0
    else
      inversionCount % 2 == 0
  }

  /**
   * The parity rule the comments at game.js:140 and 152 describe: inversions among the
   * tiles other than the blank, and the blank's row counted from the bottom, from 1.
   */
  function SolvableCorrected(s: seq<int>, e: int): bool
    requires 0 <= e
  {
    var inversionCount := Inversions(Without(s, Blank));
    var emptyRowFromBottom := GridSize - e / GridSize;
    if GridSize % 2 == 0 then
      if emptyRowFromBottom % 2 == 0 then inversionCount % 2 == 1 else inversionCount % 2 == 0
    else
      inversionCount % 2 == 0
  }

  /** On an arrangement the blank adds one inversion per slot after it: 15 - p in all. */
  lemma BlankInversions(s: seq<int>, p: int)
    requires IsArrangement(s) && 0 <= p < TileCount && s[p] == Blank
    ensures Inversions(s) == Inversions(Without(s, Blank)) + (Blank - p)
  {
    ArrangementFacts(s);
    forall k | 0 <= k < |s| && k != p
      ensures s[k] < s[p]
    {
      assert s[k] != s[p] by {
        if k < p { assert s[k] != s[p]; } else { assert s[p] != s[k]; }
      }
    }
    WithoutAt(s, p);
    InversionsWithMaximum(s, p);
  }

  /** The verdict as written: odd (inversions without the blank + blank row + blank column). */
  lemma AsWrittenVerdict(s: seq<int>, p: int)
    requires IsArrangement(s) && 0 <= p < TileCount && s[p] == Blank
    ensures Solvable(s, p) <==> (Inversions(Without(s, Blank)) + p / GridSize + p % GridSize) % 2 == 1
  {
    BlankInversions(s, p);
    BlankShiftParity(Inversions(s), Inversions(Without(s, Blank)), p);
  }

  /** Adding 15 - p to the count and reading the row from the top, plus one, flips by row plus column. */
  lemma BlankShiftParity(n: int, w: int, p: int)
    requires 0 <= p < TileCount && n == w + (Blank - p)
    ensures (if Rem(FloorDiv(p, GridSize) + 1, 2) == 0 then n % 2 == 1 else n % 2 == 0)
            <==> (w + p / GridSize + p % GridSize) % 2 == 1
  {
    var r, c := p / GridSize, p % GridSize;
    assert p == 4 * r + c && 0 <= r < 4 && 0 <= c < 4;
  }

  /** The corrected verdict: odd (inversions without the blank + blank row from the top). */
  lemma CorrectedVerdict(s: seq<int>, p: int)
    requires 0 <= p < TileCount
    ensures SolvableCorrected(s, p) <==> (Inversions(Without(s, Blank)) + p / GridSize) % 2 == 1
  {
  }

  /** The two verdicts agree exactly when the blank is in column 0 or 2. */
  lemma VerdictsAgreeOnEvenColumns(s: seq<int>, p: int)
    requires IsArrangement(s) && 0 <= p < TileCount && s[p] == Blank
    ensures Solvable(s, p) == SolvableCorrected(s, p) <==> p % GridSize % 2 == 0
  {
    var x := Inversions(Without(s, Blank)) + p / GridSize;
    var asWritten, corrected := Solvable(s, p), SolvableCorrected(s, p);
    assert asWritten == ((x + p % GridSize) % 2 == 1) by { AsWrittenVerdict(s, p); }
    assert corrected == (x % 2 == 1) by { CorrectedVerdict(s, p); }
    OddShift(x, p % GridSize);
  }

  /** The slot below `p` is in the next row, same column. */
  lemma NextRow(p: int)
    requires 0 <= p
    ensures (p + GridSize) / GridSize == p / GridSize + 1
  {
  }

  /** The slot right of `p`, when `p` is not in the last column, is in the same row, next column. */
  lemma NextColumn(p: int)
    requires 0 <= p && p % GridSize != GridSize - 1
    ensures (p + 1) / GridSize == p / GridSize && (p + 1) % GridSize == p % GridSize + 1
  {
  }

  /**
   * Two boards whose tiles other than the blank are in the same order, with the blank one
   * column apart in the same row: the corrected verdicts agree, the as-written ones differ.
   */
  lemma NextColumnVerdicts(s: seq<int>, t: seq<int>, p: int)
    requires IsArrangement(s) && IsArrangement(t) && 0 <= p && p % GridSize != GridSize - 1
    requires p + 1 < TileCount && s[p] == Blank && t[p + 1] == Blank
    requires Without(t, Blank) == Without(s, Blank)
    ensures SolvableCorrected(t, p + 1) == SolvableCorrected(s, p)
    ensures Solvable(t, p + 1) == !Solvable(s, p)
  {
    NextColumn(p);
    CorrectedNextColumn(s, t, p);
    AsWrittenNextColumn(s, t, p);
  }

  /** The corrected verdict ignores the column: same row, same other tiles, same verdict. */
  lemma CorrectedNextColumn(s: seq<int>, t: seq<int>, p: int)
    requires 0 <= p && p + 1 < TileCount && (p + 1) / GridSize == p / GridSize
    requires Without(t, Blank) == Without(s, Blank)
    ensures SolvableCorrected(t, p + 1) == SolvableCorrected(s, p)
  {
    CorrectedVerdict(s, p);
    CorrectedVerdict(t, p + 1);
  }

  /** The as-written verdict flips when the blank moves one column right over the same other tiles. */
  lemma AsWrittenNextColumn(s: seq<int>, t: seq<int>, p: int)
    requires IsArrangement(s) && IsArrangement(t) && 0 <= p && p + 1 < TileCount
    requires s[p] == Blank && t[p + 1] == Blank && p % GridSize != GridSize - 1
    requires Without(t, Blank) == Without(s, Blank)
    ensures Solvable(t, p + 1) == !Solvable(s, p)
  {
    AsWrittenVerdict(s, p);
    AsWrittenVerdict(t, p + 1);
    ColumnStepParity(Inversions(Without(s, Blank)), p);
  }

  /**
   * Two boards with the blank one row apart, whose inversion counts without the blank
   * differ by below - above where below + above = 3: the corrected verdicts agree.
   */
  lemma NextRowVerdicts(s: seq<int>, t: seq<int>, p: int, below: int, above: int)
    requires 0 <= p && p + GridSize < TileCount
    requires Inversions(Without(t, Blank)) + above == Inversions(Without(s, Blank)) + below
    requires below + above == GridSize - 1
    ensures SolvableCorrected(t, p + GridSize) == SolvableCorrected(s, p)
  {
    NextRow(p);
    CorrectedVerdict(s, p);
    CorrectedVerdict(t, p + GridSize);
    RowStepParity(Inversions(Without(s, Blank)), Inversions(Without(t, Blank)), below, above, p / GridSize);
  }

  /** One column further: the as-written sum changes parity, the corrected one does not involve it. */
  lemma ColumnStepParity(w: int, p: int)
    requires 0 <= p && p % GridSize != GridSize - 1
    ensures ((w + (p + 1) / GridSize + (p + 1) % GridSize) % 2 == 1)
            == !((w + p / GridSize + p % GridSize) % 2 == 1)
  {
    NextColumn(p);
  }

  /**
   * One row further, with the inversion count changed by below - above where
   * below + above = 3: the corrected sum keeps its parity.
   */
  lemma RowStepParity(ws: int, wt: int, below: int, above: int, r: int)
    requires wt + above == ws + below && below + above == GridSize - 1
    ensures ((wt + (r + 1)) % 2 == 1) == ((ws + r) % 2 == 1)
  {
  }

  /** Adding c keeps the parity of x exactly when c is even. */
  lemma OddShift(x: int, c: int)
    ensures ((x + c) % 2 == 1) == (x % 2 == 1) <==> c % 2 == 0
  {
  }

  /** The solved board is rejected as written, though the parity rule accepts it. */
  lemma SolvedBoardRejected(s: seq<int>)
    requires |s| == TileCount && IsComplete(s)
    ensures !Solvable(s, Blank)
    ensures SolvableCorrected(s, Blank)
  {
    IncreasingNoInversions(s);
    assert FloorDiv(Blank, GridSize) + 1 == 4;
    WithoutAt(s, Blank);
    assert Without(s, Blank) == s[..Blank];
    IncreasingNoInversions(s[..Blank]);
    assert GridSize - Blank / GridSize == 1;
  }
}
