/**
 * The game's global state and handlers (game.js:6-14, 43-73, 112-162, 164-184) as a class
 * whose fields are the globals `tiles`, `emptyIndex` and `gameStarted`. Each handler is
 * proved against the pure step that specifies it.
 */
module Game {
  import opened JsMath
  import opened Board
  import opened InversionCount
  import opened Solvability
  import opened Moves
  import opened Shuffle
  import opened Render

  class Puzzle {
    var tiles: array<int>
    var emptyIndex: int
    var gameStarted: bool

    ghost function State(): Session
      reads this, tiles
    {
      Session(tiles[..], emptyIndex, gameStarted)
    }

    ghost predicate Valid()
      reads this, tiles
    {
      tiles.Length == TileCount && Invariant(State())
    }

    /** The initial globals, with the board laid out in order. */
    constructor ()
      ensures Valid() && fresh(tiles)
      ensures State() == Session(Identity(), Blank, false)
    {
      tiles := new int[TileCount](i => i);
      emptyIndex := Blank;
      gameStarted := false;
      new;
      assert tiles[..] == Identity();
      CompleteIsIdentity(tiles[..]);
    }

    /** `resetGame`: stop the game and put `emptyIndex` back at 15, leaving the tiles as they are. */
    method ResetGame()
      requires Valid()
      modifies this
      ensures Valid() && tiles == old(tiles)
      ensures State() == Session(old(tiles[..]), Blank, false)
      ensures BlankTracked(State()) <==> tiles[Blank] == Blank
    {
      gameStarted := false;
      emptyIndex := Blank;
    }

    /** `setupTiles` without the drawing: lay the tiles out in order, then shuffle. */
    method SetupTiles(rounds: seq<seq<int>>) returns (solvable: bool)
      requires Valid()
      requires forall k :: 0 <= k < |rounds| ==> IsRound(rounds[k])
      modifies this, tiles
      ensures Valid() && tiles == old(tiles) && gameStarted == old(gameStarted)
      ensures var d := ShuffleRounds(Identity(), old(emptyIndex), rounds);
        tiles[..] == d.tiles && emptyIndex == d.emptyIndex && solvable == d.solvable
    {
      var i := 0;
      while i < TileCount
        invariant 0 <= i <= TileCount && tiles == old(tiles)
        invariant emptyIndex == old(emptyIndex) && gameStarted == old(gameStarted)
        invariant forall k :: 0 <= k < i ==> tiles[k] == k
      {
        tiles[i] := i;
        i := i + 1;
      }
      assert tiles[..] == Identity();
      CompleteIsIdentity(tiles[..]);
      solvable := ShuffleTiles(rounds);
    }

    /**
     * `shuffleTiles`: Fisher-Yates passes, each followed by locating the blank, until
     * `isSolvable()` accepts or the supplied rounds run out.
     */
    method ShuffleTiles(rounds: seq<seq<int>>) returns (solvable: bool)
      requires Valid()
      requires forall k :: 0 <= k < |rounds| ==> IsRound(rounds[k])
      modifies this`emptyIndex, tiles
      ensures Valid() && tiles == old(tiles)
      ensures var d := ShuffleRounds(old(tiles[..]), old(emptyIndex), rounds);
        tiles[..] == d.tiles && emptyIndex == d.emptyIndex && solvable == d.solvable
    {
      ghost var goal := ShuffleRounds(tiles[..], emptyIndex, rounds);
      solvable := false;
      var r := 0;
      assert rounds[r..] == rounds;
      while !solvable && r < |rounds|
        invariant 0 <= r <= |rounds|
        invariant Valid()
        invariant solvable ==> goal == Deal(tiles[..], emptyIndex, true)
        invariant !solvable ==> goal == ShuffleRounds(tiles[..], emptyIndex, rounds[r..])
        decreases |rounds| - r, if solvable then 0 else 1
      {
        ShuffleRoundsAt(tiles[..], emptyIndex, rounds, r);
        solvable := Attempt(rounds[r]);
        r := r + 1;
      }
      if !solvable {
        assert rounds[r..] == [];
      }
    }

    /** One attempt of the retry loop (game.js:63-71): shuffle, locate the blank, test the board. */
    method Attempt(js: seq<int>) returns (solvable: bool)
      requires Valid() && IsRound(js)
      modifies this`emptyIndex, tiles
      ensures Valid()
      ensures tiles[..] == ShufflePass(old(tiles[..]), js, TileCount - 1)
      ensures emptyIndex == IndexOf(tiles[..], Blank) && 0 <= emptyIndex
      ensures solvable == Solvable(tiles[..], emptyIndex)
    {
      ghost var before := tiles[..];
      FisherYates(js);
      ArrangementKept(before, tiles[..]);
      BlankSlot(tiles[..]);
      emptyIndex := IndexOf(tiles[..], Blank);
      solvable := IsSolvable();
    }

    /** One Fisher-Yates pass (game.js:64-67): for i from 15 down to 1, swap slot i with slot js[i]. */
    method FisherYates(js: seq<int>)
      requires tiles.Length == TileCount && IsRound(js)
      modifies tiles
      ensures tiles[..] == ShufflePass(old(tiles[..]), js, TileCount - 1)
    {
      var i := tiles.Length - 1;
      while i > 0
        invariant 0 <= i <= TileCount - 1
        invariant ShufflePass(tiles[..], js, i) == ShufflePass(old(tiles[..]), js, TileCount - 1)
      {
        var j := js[i];
        var t := tiles[i];
        tiles[i] := tiles[j];
        tiles[j] := t;
        i := i - 1;
      }
    }

    /** `countInversions`: the nested loops over all pairs of slots. */
    method CountInversions() returns (inversionCount: nat)
      requires tiles.Length == TileCount
      ensures inversionCount == Inversions(tiles[..])
    {
      inversionCount := 0;
      var i := 0;
      while i < TileCount
        invariant 0 <= i <= TileCount
        invariant inversionCount + Inversions(tiles[i..]) == Inversions(tiles[..])
      {
        ghost var before := inversionCount;
        var j := i + 1;
        while j < TileCount
          invariant i + 1 <= j <= TileCount
          invariant inversionCount == before + CountBelow(tiles[i], tiles[i + 1..j])
        {
          // The guard's blank tests compare a tile record with 15 and always hold.
          assert tiles[i + 1..j + 1] == tiles[i + 1..j] + [tiles[j]];
          CountBelowConcat(tiles[i], tiles[i + 1..j], [tiles[j]]);
          if tiles[i] > tiles[j] {
            inversionCount := inversionCount + 1;
          }
          j := j + 1;
        }
        assert tiles[i..][1..] == tiles[i + 1..];
        assert tiles[i + 1..TileCount] == tiles[i + 1..];
        i := i + 1;
      }
    }

    /** `isSolvable` for the current tiles and `emptyIndex` (grid size 4, so the even-grid branch). */
    method IsSolvable() returns (solvable: bool)
      requires tiles.Length == TileCount
      ensures solvable == Solvable(tiles[..], emptyIndex)
    {
      var inversionCount := CountInversions();
      var emptyTileRow := FloorDiv(emptyIndex, GridSize) + 1;
      if Rem(emptyTileRow, 2) == 0 {
        solvable := inversionCount % 2 == 1;
      } else {
        solvable := inversionCount % 2 == 0;
      }
    }

    /** `checkCompletion`: scan until a slot holds another tile. */
    method CheckCompletion() returns (complete: bool)
      ensures complete == IsComplete(tiles[..])
    {
      var i := 0;
      while i < tiles.Length
        invariant 0 <= i <= tiles.Length
        invariant forall k :: 0 <= k < i ==> tiles[k] == k
      {
        if tiles[i] != i {
          return false;
        }
        i := i + 1;
      }
      return true;
    }

    /** `moveTile`: mark the game started, and slide the clicked tile if it is next to the empty slot. */
    method MoveTile(clickedIndex: int)
      requires tiles.Length == TileCount && -1 <= emptyIndex < TileCount
      requires 0 <= clickedIndex < TileCount
      modifies this`gameStarted, this`emptyIndex, tiles
      ensures State() == MoveStep(old(State()), clickedIndex)
    {
      gameStarted := true;
      var clickedRow := FloorDiv(clickedIndex, GridSize);
      var clickedCol := Rem(clickedIndex, GridSize);
      var emptyRow := FloorDiv(emptyIndex, GridSize);
      var emptyCol := Rem(emptyIndex, GridSize);
      if (Abs(clickedRow - emptyRow) == 1 && clickedCol == emptyCol)
        || (Abs(clickedCol - emptyCol) == 1 && clickedRow == emptyRow)
      {
        NoNeighbourOfSentinel(clickedIndex);
        var t := tiles[clickedIndex];
        tiles[clickedIndex] := tiles[emptyIndex];
        tiles[emptyIndex] := t;
        emptyIndex := clickedIndex;
      }
    }

    /** The click handler once the clicked slot is known (game.js:173-183), without the redraws. */
    method Click(clickedIndex: int)
      requires Valid() && 0 <= clickedIndex < TileCount
      modifies this, tiles
      ensures Valid() && tiles == old(tiles)
      ensures State() == ClickStep(old(State()), clickedIndex)
    {
      if clickedIndex != emptyIndex {
        ghost var moved := MoveStep(State(), clickedIndex);
        NoNeighbourOfSentinel(clickedIndex);
        MoveTile(clickedIndex);
        assert State() == moved;
        var complete := CheckCompletion();
        if complete {
          gameStarted := false;
          emptyIndex := -1;
        }
      }
    }

    /** `drawTiles(showNumbers)`: the draw calls of its `forEach`, in slot order. */
    method DrawTiles(showNumbers: bool) returns (calls: seq<Blit>)
      requires tiles.Length == TileCount
      ensures calls == DrawList(State(), showNumbers, TileCount)
    {
      calls := [];
      var index := 0;
      while index < tiles.Length
        invariant 0 <= index <= tiles.Length
        invariant calls == DrawList(State(), showNumbers, index)
      {
        var complete := CheckCompletion();
        var tile := tiles[index];
        if index != emptyIndex && !(gameStarted && complete && tile == Blank) {
          var srcX := Rem(tile, GridSize) * SliceSize;
          var srcY := FloorDiv(tile, GridSize) * SliceSize;
          calls := calls + [Blit(index, srcX, srcY, if showNumbers then Number(tile + 1) else NoLabel)];
        }
        index := index + 1;
      }
    }
  }
}
