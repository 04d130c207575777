/**
 * What `drawTiles` (game.js:75-110) draws, without the canvas: which slots are drawn
 * (the skip test at game.js:82), which slice of the 1280x1280 photo each one shows
 * (game.js:86-87) and its number caption. Destination pixels depend on the floating-point
 * tile size and are not modelled; a draw call records the slot instead.
 */
module Render {
  import opened JsMath
  import opened Board
  import opened Moves

  const SrcImageSize: int := 1280
  /** `srcImageSize / gridSize`, exact for a 1280-pixel photo. */
  const SliceSize: int := SrcImageSize / GridSize

  datatype Label = NoLabel | Number(n: int)

  /** One `drawImage` call (and its number, when labels are on). */
  datatype Blit = Blit(slot: int, srcX: int, srcY: int, caption: Label)

  /** The skip test of game.js:82 for tile `tile` in slot `slot`. */
  predicate ShouldDraw(slot: int, tile: int, emptyIndex: int, started: bool, complete: bool)
  {
    slot != emptyIndex && !(started && complete && tile == Blank)
  }

  /** The top-left corner of the slice of the photo that tile `tile` shows. */
  function SourceOrigin(tile: int): (int, int)
  {
    (Rem(tile, GridSize) * SliceSize, FloorDiv(tile, GridSize) * SliceSize)
  }

  /** The slice whose square has its top-left corner at (x, y). */
  function SliceAt(x: int, y: int): int
  {
    FloorDiv(y, SliceSize) * GridSize + FloorDiv(x, SliceSize)
  }

  /** Each tile's slice lies inside the photo, and the tile can be read back from its corner. */
  lemma SourceOriginInImage(tile: int)
    requires 0 <= tile < TileCount
    ensures var (x, y) := SourceOrigin(tile);
      && 0 <= x && x + SliceSize <= SrcImageSize
      && 0 <= y && y + SliceSize <= SrcImageSize
      && SliceAt(x, y) == tile
  {
    var r, c := tile / 4, tile % 4;
    assert tile == 4 * r + c && 0 <= r < 4 && 0 <= c < 4;
    assert SourceOrigin(tile) == (c * 320, r * 320);
    assert (c * 320) / 320 == c;
    assert (r * 320) / 320 == r;
  }

  /** The draw call for slot `slot` of board `s`; the label is the tile number, 1-based. */
  function BlitOf(s: seq<int>, slot: int, showNumbers: bool): Blit
    requires 0 <= slot < |s|
  {
    var (x, y) := SourceOrigin(s[slot]);
    Blit(slot, x, y, if showNumbers then Number(s[slot] + 1) else NoLabel)
  }

  /** Whether `drawTiles` draws slot `slot` in state `st`. */
  predicate Drawn(st: Session, slot: int)
    requires 0 <= slot < |st.tiles|
  {
    ShouldDraw(slot, st.tiles[slot], st.emptyIndex, st.started, IsComplete(st.tiles))
  }

  /**
   * The draw calls `drawTiles` makes for slots 0..n-1, in slot order; `DrawListOrdered`
   * and `DrawListComplete` show there is exactly one per slot that passes the skip test.
   */
  function DrawList(st: Session, showNumbers: bool, n: int): (calls: seq<Blit>)
    requires 0 <= n <= |st.tiles|
    ensures |calls| <= n
    ensures forall k :: 0 <= k < |calls| ==>
      0 <= calls[k].slot < n && Drawn(st, calls[k].slot) && calls[k] == BlitOf(st.tiles, calls[k].slot, showNumbers)
  {
    if n == 0 then []
    else DrawList(st, showNumbers, n - 1) + (if Drawn(st, n - 1) then [BlitOf(st.tiles, n - 1, showNumbers)] else [])
  }

  /** The draw calls come in strictly increasing slot order, so no slot is drawn twice. */
  lemma {:induction false} DrawListOrdered(st: Session, showNumbers: bool, n: int, k: int, l: int)
    requires 0 <= n <= |st.tiles|
    requires 0 <= k < l < |DrawList(st, showNumbers, n)|
    ensures DrawList(st, showNumbers, n)[k].slot < DrawList(st, showNumbers, n)[l].slot
  {
    var prev := DrawList(st, showNumbers, n - 1);
    assert DrawList(st, showNumbers, n) == prev + (if Drawn(st, n - 1) then [BlitOf(st.tiles, n - 1, showNumbers)] else []);
    if l < |prev| {
      DrawListOrdered(st, showNumbers, n - 1, k, l);
    }
  }

  /** Every slot that passes the skip test gets a draw call. */
  lemma {:induction false} DrawListComplete(st: Session, showNumbers: bool, n: int, slot: int)
    requires 0 <= slot < n <= |st.tiles| && Drawn(st, slot)
    ensures exists k :: 0 <= k < |DrawList(st, showNumbers, n)| && DrawList(st, showNumbers, n)[k].slot == slot
  {
    var prev := DrawList(st, showNumbers, n - 1);
    var calls := DrawList(st, showNumbers, n);
    assert calls == prev + (if Drawn(st, n - 1) then [BlitOf(st.tiles, n - 1, showNumbers)] else []);
    if slot < n - 1 {
      DrawListComplete(st, showNumbers, n - 1, slot);
      var k :| 0 <= k < |prev| && prev[k].slot == slot;
      assert calls[k] == prev[k];
    } else {
      assert calls[|prev|].slot == slot;
    }
  }

  /**
   * During play every slot but the empty one is drawn: the extra test for a finished
   * game at game.js:82 never hides anything more, because the blank sits in the empty slot.
   */
  lemma DrawnDuringPlay(st: Session, slot: int)
    requires Invariant(st) && BlankTracked(st) && 0 <= st.emptyIndex && 0 <= slot < TileCount
    ensures Drawn(st, slot) <==> slot != st.emptyIndex
  {
  }

  /** During play fifteen tiles are drawn, none in the empty slot. */
  lemma {:induction false} DrawCountDuringPlay(st: Session, showNumbers: bool, n: int)
    requires Invariant(st) && BlankTracked(st) && 0 <= st.emptyIndex && 0 <= n <= TileCount
    ensures |DrawList(st, showNumbers, n)| == if st.emptyIndex < n then n - 1 else n
  {
    if n > 0 {
      DrawCountDuringPlay(st, showNumbers, n - 1);
      DrawnDuringPlay(st, n - 1);
    }
  }

  /**
   * After victory (`emptyIndex` is -1 and the game is stopped) every slot is drawn, so the
   * whole photo is shown, each slice in its own slot.
   */
  lemma {:induction false} DrawnAfterVictory(st: Session, showNumbers: bool, n: int)
    requires Invariant(st) && st.emptyIndex == -1 && 0 <= n <= TileCount
    ensures var calls := DrawList(st, showNumbers, n);
      && |calls| == n
      && forall k :: 0 <= k < n ==> calls[k].slot == k && SourceOrigin(k) == (calls[k].srcX, calls[k].srcY)
  {
    if n > 0 {
      DrawnAfterVictory(st, showNumbers, n - 1);
      assert Drawn(st, n - 1);
      var calls := DrawList(st, showNumbers, n);
      assert calls == DrawList(st, showNumbers, n - 1) + [BlitOf(st.tiles, n - 1, showNumbers)];
      assert calls[n - 1].slot == n - 1;
      assert st.tiles[n - 1] == n - 1;
    }
  }
}
