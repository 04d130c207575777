/**
 * Moves and the click handler (game.js:112-125, 164-184), as steps on the game state.
 * The pixel-to-slot translation of the handler (game.js:166-171) is not modelled: the
 * clicked slot is an input.
 */
module Moves {
  import opened JsMath
  import opened Board
  import opened InversionCount
  import opened Solvability

  /** The globals `tiles`, `emptyIndex` and `gameStarted`. */
  datatype Session = Session(tiles: seq<int>, emptyIndex: int, started: bool)

  /**
   * What every handler keeps: the tiles form an arrangement, `emptyIndex` is a slot or
   * the sentinel -1, and the sentinel is only set on a finished, stopped game.
   */
  predicate Invariant(st: Session)
  {
    && IsArrangement(st.tiles)
    && -1 <= st.emptyIndex < TileCount
    && (st.emptyIndex == -1 ==> IsComplete(st.tiles) && !st.started)
  }

  /** `emptyIndex`, when it is a slot, is the slot of the blank. */
  predicate BlankTracked(st: Session)
  {
    0 <= st.emptyIndex < |st.tiles| ==> st.tiles[st.emptyIndex] == Blank
  }

  /** The adjacency test of `moveTile`, with JavaScript's floor division and remainder. */
  predicate Adjacent(clicked: int, empty: int)
  {
    var clickedRow := FloorDiv(clicked, GridSize);
    var clickedCol := Rem(clicked, GridSize);
    var emptyRow := FloorDiv(empty, GridSize);
    var emptyCol := Rem(empty, GridSize);
    || (Abs(clickedRow - emptyRow) == 1 && clickedCol == emptyCol)
    || (Abs(clickedCol - emptyCol) == 1 && clickedRow == emptyRow)
  }

  /** On the board, the adjacent slots are the one above, below, left and right in the same row. */
  lemma AdjacentNeighbours(clicked: int, empty: int)
    requires 0 <= clicked < TileCount && 0 <= empty < TileCount
    ensures Adjacent(clicked, empty) <==>
      || clicked == empty + GridSize
      || clicked + GridSize == empty
      || (clicked == empty + 1 && empty % GridSize != GridSize - 1)
      || (clicked + 1 == empty && clicked % GridSize != GridSize - 1)
  {
    var cr, cc, er, ec := clicked / 4, clicked % 4, empty / 4, empty % 4;
    assert clicked == 4 * cr + cc && empty == 4 * er + ec;
    assert 0 <= cr < 4 && 0 <= er < 4;
  }

  /**
   * With the sentinel -1, JavaScript gives row -1 and column -1, so no slot of the board
   * is adjacent. (Dafny's Euclidean remainder would have given column 3, making slot 3 adjacent.)
   */
  lemma NoNeighbourOfSentinel(clicked: int)
    requires 0 <= clicked < TileCount
    ensures !Adjacent(clicked, -1)
  {
    assert FloorDiv(-1, GridSize) == -1;
    assert Rem(-1, GridSize) == -1;
  }

  /** `moveTile(clicked)`: mark the game started; swap with the blank when adjacent. */
  function MoveStep(st: Session, clicked: int): (r: Session)
    requires |st.tiles| == TileCount && -1 <= st.emptyIndex < TileCount
    requires 0 <= clicked < TileCount
    ensures |r.tiles| == TileCount && multiset(r.tiles) == multiset(st.tiles)
    ensures -1 <= r.emptyIndex < TileCount && r.started
  {
    if Adjacent(clicked, st.emptyIndex) then
      NoNeighbourOfSentinel(clicked);
      Session(Swap(st.tiles, clicked, st.emptyIndex), clicked, true)
    else
      st.(started := true)
  }

  /**
   * A click changes the board iff it is adjacent to the empty slot; then the empty slot
   * moves to the clicked one and the blank moves with it. Otherwise the board and the
   * empty slot stay as they were.
   */
  lemma MoveEffect(st: Session, clicked: int)
    requires IsArrangement(st.tiles) && -1 <= st.emptyIndex < TileCount && BlankTracked(st)
    requires 0 <= clicked < TileCount
    ensures var r := MoveStep(st, clicked);
      && (r.tiles != st.tiles <==> Adjacent(clicked, st.emptyIndex))
      && (r.emptyIndex == if Adjacent(clicked, st.emptyIndex) then clicked else st.emptyIndex)
      && BlankTracked(r)
  {
    ArrangementFacts(st.tiles);
    var r := MoveStep(st, clicked);
    if Adjacent(clicked, st.emptyIndex) {
      NoNeighbourOfSentinel(clicked);
      assert clicked != st.emptyIndex;
      assert r.tiles[clicked] != st.tiles[clicked] by {
        if clicked < st.emptyIndex {
          assert st.tiles[clicked] != st.tiles[st.emptyIndex];
        } else {
          assert st.tiles[st.emptyIndex] != st.tiles[clicked];
        }
      }
    }
  }

  /** Clicking the slot the tile came from undoes a move. */
  lemma MoveRoundTrip(st: Session, clicked: int)
    requires |st.tiles| == TileCount && 0 <= st.emptyIndex < TileCount
    requires 0 <= clicked < TileCount && Adjacent(clicked, st.emptyIndex)
    ensures var back := MoveStep(MoveStep(st, clicked), st.emptyIndex);
      back.tiles == st.tiles && back.emptyIndex == st.emptyIndex
  {
    AdjacentNeighbours(clicked, st.emptyIndex);
    AdjacentNeighbours(st.emptyIndex, clicked);
    var once := MoveStep(st, clicked);
    assert once.emptyIndex == clicked;
    var back := MoveStep(once, st.emptyIndex);
    assert back.tiles == Swap(Swap(st.tiles, clicked, st.emptyIndex), st.emptyIndex, clicked);
    assert back.tiles == st.tiles;
  }

  /** Sliding the tile right of the blank leaves the other tiles in the same order. */
  lemma SlideSameRow(s: seq<int>, p: int)
    requires 0 <= p && p + 1 < |s|
    ensures var t := Swap(s, p + 1, p); t[..p + 1] + t[p + 2..] == s[..p] + s[p + 1..]
  {
    var t := Swap(s, p + 1, p);
    assert t[..p + 1] == s[..p] + [s[p + 1]];
    assert s[p + 1..] == [s[p + 1]] + s[p + 2..];
    assert t[p + 2..] == s[p + 2..];
  }

  /** Moving the blank one slot right keeps the corrected verdict and flips the as-written one. */
  lemma HorizontalSlide(s: seq<int>, p: int)
    requires IsArrangement(s) && 0 <= p && p + 1 < TileCount && s[p] == Blank
    requires p % GridSize != GridSize - 1
    ensures SolvableCorrected(Swap(s, p + 1, p), p + 1) == SolvableCorrected(s, p)
    ensures Solvable(Swap(s, p + 1, p), p + 1) == !Solvable(s, p)
  {
    var t := Swap(s, p + 1, p);
    ArrangementKept(s, t);
    assert Without(t, Blank) == Without(s, Blank) by {
      ArrangementFacts(s);
      ArrangementFacts(t);
      WithoutAt(s, p);
      WithoutAt(t, p + 1);
      SlideSameRow(s, p);
    }
    NextColumnVerdicts(s, t, p);
  }

  /**
   * Moving the blank one row down moves tile `x` back over the three tiles between the
   * two slots: the inversions among the other tiles change by (below x) - (above x).
   */
  lemma VerticalSlideInversions(s: seq<int>, p: int)
    requires IsArrangement(s) && 0 <= p && p + GridSize < TileCount && s[p] == Blank
    ensures var q := p + GridSize; var m, x := s[p + 1..q], s[q];
      && Inversions(Without(Swap(s, q, p), Blank)) + CountAbove(x, m)
         == Inversions(Without(s, Blank)) + CountBelow(x, m)
      && CountBelow(x, m) + CountAbove(x, m) == GridSize - 1
  {
    var q := p + GridSize;
    var t := Swap(s, q, p);
    ArrangementKept(s, t);
    var a, m, x, c := s[..p], s[p + 1..q], s[q], s[q + 1..];
    ArrangementFacts(s);
    ArrangementFacts(t);
    WithoutAt(s, p);
    WithoutAt(t, q);
    assert s[p + 1..] == (m + [x]) + c;
    assert Without(s, Blank) == a + (m + [x]) + c;
    assert t[..q] == a + ([x] + m);
    assert t[q + 1..] == c;
    assert Without(t, Blank) == a + ([x] + m) + c;
    MoveOverBlock(a, m, x, c);
    forall k | 0 <= k < |m|
      ensures m[k] != x
    {
      assert m[k] == s[p + 1 + k];
    }
    BelowAboveSplit(x, m);
  }

  /** Moving the blank one row down keeps the corrected verdict. */
  lemma VerticalSlide(s: seq<int>, p: int)
    requires IsArrangement(s) && 0 <= p && p + GridSize < TileCount && s[p] == Blank
    ensures SolvableCorrected(Swap(s, p + GridSize, p), p + GridSize) == SolvableCorrected(s, p)
  {
    var q := p + GridSize;
    var t := Swap(s, q, p);
    var m, x := s[p + 1..q], s[q];
    VerticalSlideInversions(s, p);
    NextRowVerdicts(s, t, p, CountBelow(x, m), CountAbove(x, m));
  }

  /** Sliding any neighbour of the blank into it keeps the corrected verdict. */
  lemma NeighbourSlide(s: seq<int>, e: int, c: int)
    requires IsArrangement(s) && 0 <= e < TileCount && s[e] == Blank && 0 <= c < TileCount
    requires || c == e + GridSize || c + GridSize == e
             || (c == e + 1 && e % GridSize != GridSize - 1)
             || (c + 1 == e && c % GridSize != GridSize - 1)
    ensures SolvableCorrected(Swap(s, c, e), c) == SolvableCorrected(s, e)
  {
    if c == e + GridSize {
      VerticalSlide(s, e);
    } else if c == e + 1 && e % GridSize != GridSize - 1 {
      HorizontalSlide(s, e);
    } else {
      var t := Swap(s, c, e);
      ArrangementKept(s, t);
      assert Swap(t, e, c) == s;
      if c + GridSize == e {
        VerticalSlide(t, c);
      } else {
        HorizontalSlide(t, c);
      }
    }
  }

  /** A move never changes the corrected verdict: it is an invariant of play. */
  lemma CorrectedVerdictKept(st: Session, clicked: int)
    requires IsArrangement(st.tiles) && 0 <= st.emptyIndex < TileCount && BlankTracked(st)
    requires 0 <= clicked < TileCount
    ensures var r := MoveStep(st, clicked);
      0 <= r.emptyIndex && SolvableCorrected(r.tiles, r.emptyIndex) == SolvableCorrected(st.tiles, st.emptyIndex)
  {
    if Adjacent(clicked, st.emptyIndex) {
      AdjacentNeighbours(clicked, st.emptyIndex);
      NeighbourSlide(st.tiles, st.emptyIndex, clicked);
    }
  }

  /**
   * The click handler once it has a slot: ignore the empty slot; otherwise move, and if
   * the board is then complete, stop the game and park `emptyIndex` at -1.
   */
  function ClickStep(st: Session, clicked: int): (r: Session)
    requires Invariant(st) && 0 <= clicked < TileCount
    ensures Invariant(r)
    ensures BlankTracked(st) ==> BlankTracked(r)
  {
    if clicked == st.emptyIndex then st
    else
      NoNeighbourOfSentinel(clicked);
      var moved := MoveStep(st, clicked);
      if IsComplete(moved.tiles) then moved.(started := false, emptyIndex := -1) else moved
  }

  /**
   * From the start state (solved board, `emptyIndex` 15, not started), a click on any slot
   * other than 11, 14 and 15 moves nothing and is at once taken for a victory.
   */
  lemma EarlyVictory(s: seq<int>, clicked: int)
    requires |s| == TileCount && IsComplete(s)
    requires 0 <= clicked < TileCount && clicked != 11 && clicked != 14 && clicked != Blank
    ensures Invariant(Session(s, Blank, false))
    ensures ClickStep(Session(s, Blank, false), clicked) == Session(s, -1, false)
  {
    CompleteIsIdentity(s);
    AdjacentNeighbours(clicked, Blank);
  }

  /** Once won, the game is frozen: no click changes anything. */
  lemma WonIsFinal(st: Session, clicked: int)
    requires Invariant(st) && st.emptyIndex == -1 && 0 <= clicked < TileCount
    ensures ClickStep(st, clicked) == st
  {
    NoNeighbourOfSentinel(clicked);
  }

  /** Any click on another slot that leaves the board complete ends the game. */
  lemma VictoryDetected(st: Session, clicked: int)
    requires Invariant(st) && 0 <= clicked < TileCount && clicked != st.emptyIndex
    ensures var r := ClickStep(st, clicked);
      IsComplete(r.tiles) <==> r.emptyIndex == -1 && !r.started
  {
  }

  /** The state after a series of clicks. */
  function Clicks(st: Session, clicks: seq<int>): (r: Session)
    requires Invariant(st)
    requires forall k :: 0 <= k < |clicks| ==> 0 <= clicks[k] < TileCount
    ensures Invariant(r)
    decreases |clicks|
  {
    if clicks == [] then st else Clicks(ClickStep(st, clicks[0]), clicks[1..])
  }

  /** A board that fails the corrected parity rule is never completed, whatever is clicked. */
  lemma {:induction false} UnsolvableNeverWon(st: Session, clicks: seq<int>)
    requires Invariant(st) && BlankTracked(st) && 0 <= st.emptyIndex
    requires !SolvableCorrected(st.tiles, st.emptyIndex)
    requires forall k :: 0 <= k < |clicks| ==> 0 <= clicks[k] < TileCount
    ensures var r := Clicks(st, clicks); r.emptyIndex != -1 && !IsComplete(r.tiles)
    decreases |clicks|
  {
    NotComplete(st);
    if clicks != [] {
      var c := clicks[0];
      var next := ClickStep(st, c);
      if c != st.emptyIndex {
        MoveEffect(st, c);
        CorrectedVerdictKept(st, c);
        NotComplete(MoveStep(st, c));
        assert next == MoveStep(st, c);
      }
      UnsolvableNeverWon(next, clicks[1..]);
    }
  }

  /** A board the corrected rule rejects is not the solved board, which it accepts. */
  lemma NotComplete(st: Session)
    requires IsArrangement(st.tiles) && BlankTracked(st) && 0 <= st.emptyIndex < TileCount
    requires !SolvableCorrected(st.tiles, st.emptyIndex)
    ensures !IsComplete(st.tiles)
  {
    if IsComplete(st.tiles) {
      assert st.emptyIndex == Blank;
      SolvedBoardRejected(st.tiles);
    }
  }
}
