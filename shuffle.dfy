/**
 * `shuffleTiles` (game.js:59-73): Fisher-Yates passes over the current board, repeated
 * until `isSolvable()` accepts. `Math.random` is replaced by supplied choices: one
 * round per attempt, `js[i]` being the `j` drawn for `i`. Each attempt shuffles the
 * board the previous attempt left, not the solved board.
 */
module Shuffle {
  import opened JsMath
  import opened Board
  import opened InversionCount
  import opened Solvability
  import opened Moves

  /** The choices of one attempt: for each i in 1..15 a j in 0..i (js[0] is unused and 0). */
  predicate IsRound(js: seq<int>)
  {
    |js| == TileCount && forall i :: 0 <= i < TileCount ==> 0 <= js[i] <= i
  }

  /** The Fisher-Yates loop from slot i down to slot 1, swapping slot i with slot js[i]. */
  function ShufflePass(s: seq<int>, js: seq<int>, i: int): (r: seq<int>)
    requires |s| == TileCount && IsRound(js) && 0 <= i < TileCount
    ensures |r| == |s| && multiset(r) == multiset(s)
    ensures forall k :: i < k < |s| ==> r[k] == s[k]
    decreases i
  {
    if i == 0 then s else ShufflePass(Swap(s, i, js[i]), js, i - 1)
  }

  /** The outcome of the retry loop: the board, `emptyIndex`, and whether an attempt was accepted. */
  datatype Deal = Deal(tiles: seq<int>, emptyIndex: int, solvable: bool)

  /**
   * The retry loop over the supplied rounds. It stops at the first attempt `isSolvable()`
   * accepts; if the rounds run out first, `solvable` is false.
   */
  function ShuffleRounds(s: seq<int>, e: int, rounds: seq<seq<int>>): (d: Deal)
    requires |s| == TileCount
    requires forall k :: 0 <= k < |rounds| ==> IsRound(rounds[k])
    ensures |d.tiles| == TileCount && multiset(d.tiles) == multiset(s)
    ensures d.solvable ==> Solvable(d.tiles, d.emptyIndex)
    ensures rounds != [] ==> d.emptyIndex == IndexOf(d.tiles, Blank)
    ensures rounds == [] ==> d == Deal(s, e, false)
    decreases |rounds|
  {
    if rounds == [] then Deal(s, e, false)
    else
      var t := ShufflePass(s, rounds[0], |s| - 1);
      var k := IndexOf(t, Blank);
      if Solvable(t, k) then Deal(t, k, true) else ShuffleRounds(t, k, rounds[1..])
  }

  /** The attempt made with round `r` of the supplied rounds. */
  lemma ShuffleRoundsAt(s: seq<int>, e: int, rounds: seq<seq<int>>, r: int)
    requires |s| == TileCount && 0 <= r < |rounds|
    requires forall k :: 0 <= k < |rounds| ==> IsRound(rounds[k])
    ensures var t := ShufflePass(s, rounds[r], |s| - 1); var k := IndexOf(t, Blank);
      ShuffleRounds(s, e, rounds[r..])
        == if Solvable(t, k) then Deal(t, k, true) else ShuffleRounds(t, k, rounds[r + 1..])
  {
    assert rounds[r..][0] == rounds[r];
    assert rounds[r..][1..] == rounds[r + 1..];
  }

  /**
   * Shuffling keeps an arrangement an arrangement, and after at least one attempt
   * `emptyIndex` is the unique slot of the blank.
   */
  lemma ShuffleDeals(s: seq<int>, e: int, rounds: seq<seq<int>>)
    requires IsArrangement(s) && -1 <= e < TileCount
    requires forall k :: 0 <= k < |rounds| ==> IsRound(rounds[k])
    ensures var d := ShuffleRounds(s, e, rounds);
      && IsArrangement(d.tiles)
      && -1 <= d.emptyIndex < TileCount
      && (rounds != [] ==> 0 <= d.emptyIndex && d.tiles[d.emptyIndex] == Blank
                           && forall k :: 0 <= k < TileCount && d.tiles[k] == Blank ==> k == d.emptyIndex)
  {
    var d := ShuffleRounds(s, e, rounds);
    ArrangementKept(s, d.tiles);
    if rounds != [] {
      BlankSlot(d.tiles);
    }
  }

  /** An accepted deal is never the solved board, since `isSolvable()` rejects that one. */
  lemma NeverDealsSolved(s: seq<int>, e: int, rounds: seq<seq<int>>)
    requires IsArrangement(s) && -1 <= e < TileCount
    requires forall k :: 0 <= k < |rounds| ==> IsRound(rounds[k])
    ensures var d := ShuffleRounds(s, e, rounds); d.solvable ==> !IsComplete(d.tiles)
  {
    var d := ShuffleRounds(s, e, rounds);
    if d.solvable && IsComplete(d.tiles) {
      ShuffleDeals(s, e, rounds);
      assert d.emptyIndex == Blank;
      SolvedBoardRejected(d.tiles);
      assert false;
    }
  }

  /** Choices j == i leave their slots alone. */
  lemma {:induction false} PassOfIdleChoices(s: seq<int>, js: seq<int>, i: int)
    requires |s| == TileCount && IsRound(js) && 0 <= i < TileCount
    requires forall k :: 0 < k <= i ==> js[k] == k
    ensures ShufflePass(s, js, i) == s
    decreases i
  {
    if i > 0 {
      assert Swap(s, i, js[i]) == s;
      PassOfIdleChoices(s, js, i - 1);
    }
  }

  /** An attempt whose only effective choice is the first one makes a single swap. */
  lemma PassWithOneChoice(s: seq<int>, js: seq<int>, i: int)
    requires |s| == TileCount && IsRound(js) && 0 < i < TileCount
    requires forall k :: 0 < k < i ==> js[k] == k
    ensures ShufflePass(s, js, i) == Swap(s, i, js[i])
  {
    PassOfIdleChoices(Swap(s, i, js[i]), js, i - 1);
  }

  /** Every element of `a` is below every element of `b`: no pair across is inverted. */
  lemma {:induction false} CrossNone(a: seq<int>, b: seq<int>)
    requires forall i, j :: 0 <= i < |a| && 0 <= j < |b| ==> a[i] < b[j]
    ensures Cross(a, b) == 0
  {
    if a != [] {
      CountBelowNone(a[0], b);
      CrossNone(a[1..], b);
    }
  }

  /** The board whose last three slots hold tiles 15, 14, 13 is an arrangement with the blank at 13. */
  lemma ReversedTailArrangement(t: seq<int>)
    requires |t| == TileCount && (forall k :: 0 <= k < 13 ==> t[k] == k)
    requires t[13] == 15 && t[14] == 14 && t[15] == 13
    ensures IsArrangement(t) && IndexOf(t, Blank) == 13
  {
    assert t == t[..13] + t[13..];
    assert t[13..] == [15, 14, 13];
    forall v | 0 <= v < TileCount
      ensures multiset(t)[v] == 1
    {
      assert multiset(t) == multiset(t[..13]) + multiset(t[13..]);
      IncreasingOnce(t[..13], v);
      if v < 13 {
        assert t[..13][v] == v;
      } else {
        assert v !in t[..13];
      }
    }
    assert Blank !in t[..13];
  }

  /** That board has three inversions, all among its last three slots. */
  lemma ReversedTailInversions(t: seq<int>)
    requires |t| == TileCount && (forall k :: 0 <= k < 13 ==> t[k] == k)
    requires t[13] == 15 && t[14] == 14 && t[15] == 13
    ensures Inversions(t) == 3
  {
    assert t == t[..13] + t[13..];
    var u := t[13..];
    assert u == [15, 14, 13];
    InversionsConcat(t[..13], u);
    IncreasingNoInversions(t[..13]);
    CrossNone(t[..13], u);
    assert u[1..] == [14, 13] && u[1..][1..] == [13];
    assert CountBelow(14, [13]) == 1;
    assert CountBelow(15, [14, 13]) == 2;
    assert Inversions([14, 13]) == 1;
  }

  /**
   * The board whose last three slots hold tiles 15, 14, 13: `isSolvable()` accepts it,
   * the parity rule rejects it.
   */
  lemma AcceptedUnsolvableBoard(t: seq<int>)
    requires |t| == TileCount && (forall k :: 0 <= k < 13 ==> t[k] == k)
    requires t[13] == 15 && t[14] == 14 && t[15] == 13
    ensures IsArrangement(t) && IndexOf(t, Blank) == 13
    ensures Solvable(t, 13) && !SolvableCorrected(t, 13)
  {
    ReversedTailArrangement(t);
    ReversedTailInversions(t);
    assert FloorDiv(13, GridSize) + 1 == 4;
    VerdictsAgreeOnEvenColumns(t, 13);
  }

  /**
   * From the solved board, the single attempt that swaps slot 15 with slot 13 deals that
   * board, and `shuffleTiles` accepts it.
   */
  lemma DealsUnsolvableBoard(s: seq<int>, js: seq<int>)
    requires |s| == TileCount && IsComplete(s)
    requires IsRound(js) && js[Blank] == 13 && forall k :: 0 < k < Blank ==> js[k] == k
    ensures var d := ShuffleRounds(s, Blank, [js]);
      && d.solvable && d.emptyIndex == 13 && IsArrangement(d.tiles) && d.tiles[13] == Blank
      && !SolvableCorrected(d.tiles, d.emptyIndex)
  {
    PassWithOneChoice(s, js, Blank);
    var t := ShufflePass(s, js, Blank);
    AcceptedUnsolvableBoard(t);
  }

  /** No series of clicks ever completes the board dealt above. */
  lemma DealtBoardNeverWon(s: seq<int>, js: seq<int>, clicks: seq<int>)
    requires |s| == TileCount && IsComplete(s)
    requires IsRound(js) && js[Blank] == 13 && forall k :: 0 < k < Blank ==> js[k] == k
    requires forall k :: 0 <= k < |clicks| ==> 0 <= clicks[k] < TileCount
    ensures var d := ShuffleRounds(s, Blank, [js]);
      && Invariant(Session(d.tiles, d.emptyIndex, false))
      && !IsComplete(Clicks(Session(d.tiles, d.emptyIndex, false), clicks).tiles)
  {
    DealsUnsolvableBoard(s, js);
    var d := ShuffleRounds(s, Blank, [js]);
    UnsolvableNeverWon(Session(d.tiles, d.emptyIndex, false), clicks);
  }
}
