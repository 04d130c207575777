/**
 * The board of the 4x4 sliding-tile puzzle (game.js:4-7, 51-54, 127-133).
 * A tile record is reduced to its `index` field, the slice of the photo it shows;
 * the board is the row-major sequence of those indices, one per slot.
 */
module Board {

  const GridSize: int := 4
  const TileCount: int := GridSize * GridSize
  /** The index of the last slice, which stands for the empty slot. */
  const Blank: int := TileCount - 1

  /** The solved arrangement: slot `i` holds tile `i`. */
  function Identity(): seq<int>
  {
    seq(TileCount, i => i)
  }

  /** A board of 16 slots holding tile indices 0..15, each exactly once. */
  predicate IsArrangement(s: seq<int>)
  {
    && |s| == TileCount
    && (forall i :: 0 <= i < |s| ==> 0 <= s[i] < TileCount)
    && (forall v :: 0 <= v < TileCount ==> multiset(s)[v] == 1)
  }

  /** Rearranging an arrangement gives an arrangement. */
  lemma ArrangementKept(s: seq<int>, t: seq<int>)
    requires IsArrangement(s) && |t| == |s| && multiset(t) == multiset(s)
    ensures IsArrangement(t)
  {
    forall i | 0 <= i < |t|
      ensures 0 <= t[i] < TileCount
    {
      assert t[i] in multiset(s);
    }
  }

  /** `checkCompletion`: every slot holds its own tile. */
  predicate IsComplete(s: seq<int>)
  {
    forall i :: 0 <= i < |s| ==> s[i] == i
  }

  /** The destructuring swap `[tiles[i], tiles[j]] = [tiles[j], tiles[i]]`. */
  function Swap(s: seq<int>, i: int, j: int): (r: seq<int>)
    requires 0 <= i < |s| && 0 <= j < |s|
    ensures |r| == |s| && multiset(r) == multiset(s)
    ensures r[i] == s[j] && r[j] == s[i]
    ensures forall k :: 0 <= k < |s| && k != i && k != j ==> r[k] == s[k]
  {
    s[i := s[j]][j := s[i]]
  }

  /** `Array.prototype.findIndex` for the test `tile.index === v`: the first slot holding `v`, or -1. */
  function IndexOf(s: seq<int>, v: int): (k: int)
    ensures -1 <= k < |s|
    ensures k == -1 <==> v !in s
    ensures k >= 0 ==> s[k] == v && v !in s[..k]
  {
    if s == [] then -1
    else if s[0] == v then 0
    else
      var k := IndexOf(s[1..], v);
      assert s == [s[0]] + s[1..];
      if k == -1 then -1
      else
        assert s[..k + 1] == [s[0]] + s[1..][..k];
        k + 1
  }

  /** The board with every occurrence of `v` taken out, order kept. */
  function Without(s: seq<int>, v: int): seq<int>
  {
    if s == [] then [] else (if s[0] == v then [] else [s[0]]) + Without(s[1..], v)
  }

  lemma {:induction false} WithoutConcat(a: seq<int>, b: seq<int>, v: int)
    ensures Without(a + b, v) == Without(a, v) + Without(b, v)
  {
    if a != [] {
      assert (a + b)[1..] == a[1..] + b;
      WithoutConcat(a[1..], b, v);
    } else {
      assert a + b == b;
    }
  }

  lemma {:induction false} WithoutAbsent(s: seq<int>, v: int)
    requires v !in s
    ensures Without(s, v) == s
  {
    if s != [] {
      WithoutAbsent(s[1..], v);
    }
  }

  /** A value held in slot `p` only is absent from the slots before and after it. */
  lemma OnlyAt(s: seq<int>, p: int)
    requires 0 <= p < |s|
    requires forall k :: 0 <= k < |s| && k != p ==> s[k] != s[p]
    ensures s[p] !in s[..p] && s[p] !in s[p + 1..]
  {
    var a, b := s[..p], s[p + 1..];
    forall k | 0 <= k < |a|
      ensures a[k] != s[p]
    {
      assert a[k] == s[k];
    }
    forall k | 0 <= k < |b|
      ensures b[k] != s[p]
    {
      assert b[k] == s[p + 1 + k];
    }
  }

  /** Taking out a value that occurs once is deleting its slot. */
  lemma WithoutAt(s: seq<int>, p: int)
    requires 0 <= p < |s|
    requires forall k :: 0 <= k < |s| && k != p ==> s[k] != s[p]
    ensures Without(s, s[p]) == s[..p] + s[p + 1..]
  {
    var v, a, b := s[p], s[..p], s[p + 1..];
    OnlyAt(s, p);
    WithoutAbsent(a, v);
    WithoutAbsent(b, v);
    WithoutSplit(a, v, b);
    assert s == a + [v] + b;
  }

  /** Taking `v` out of `a + [v] + b` when it occurs in neither part. */
  lemma WithoutSplit(a: seq<int>, v: int, b: seq<int>)
    requires Without(a, v) == a && Without(b, v) == b
    ensures Without(a + [v] + b, v) == a + b
  {
    WithoutConcat(a + [v], b, v);
    WithoutConcat(a, [v], v);
    assert Without([v], v) == [] + Without([], v);
  }

  /** A strictly increasing sequence holds each value at most once. */
  lemma {:induction false} IncreasingOnce(t: seq<int>, v: int)
    requires forall i, j :: 0 <= i < j < |t| ==> t[i] < t[j]
    ensures multiset(t)[v] <= 1
  {
    if t != [] {
      assert t == [t[0]] + t[1..];
      IncreasingOnce(t[1..], v);
      if v == t[0] {
        assert v !in t[1..];
      }
    }
  }

  /** A value held in two slots occurs at least twice. */
  lemma RepeatCounted(s: seq<int>, i: int, j: int)
    requires 0 <= i < j < |s|
    ensures s[i] == s[j] ==> multiset(s)[s[j]] >= 2
  {
    assert s == s[..j] + s[j..];
    assert s[i] in s[..j] && s[j] in s[j..];
    assert multiset(s)[s[j]] == multiset(s[..j])[s[j]] + multiset(s[j..])[s[j]];
  }

  /** Every arrangement holds each tile 0..15 in exactly one slot, and nothing else. */
  lemma ArrangementFacts(s: seq<int>)
    requires IsArrangement(s)
    ensures forall i :: 0 <= i < |s| ==> 0 <= s[i] < TileCount
    ensures forall i, j :: 0 <= i < j < |s| ==> s[i] != s[j]
    ensures forall v :: 0 <= v < TileCount ==> v in s
  {
    forall i, j | 0 <= i < j < |s|
      ensures s[i] != s[j]
    {
      RepeatCounted(s, i, j);
    }
    forall v | 0 <= v < TileCount
      ensures v in s
    {
      assert v in multiset(s);
    }
  }

  /** On a board of 16 slots, being complete means being the solved arrangement, which is an arrangement. */
  lemma CompleteIsIdentity(s: seq<int>)
    requires |s| == TileCount
    ensures IsComplete(s) <==> s == Identity()
    ensures IsComplete(s) ==> IsArrangement(s)
  {
    if IsComplete(s) {
      forall v | 0 <= v < TileCount
        ensures multiset(s)[v] == 1
      {
        IncreasingOnce(s, v);
        assert s[v] == v;
      }
    }
  }

  /** The slot of the blank on an arrangement is the one `findIndex` reports, and no other slot holds it. */
  lemma BlankSlot(s: seq<int>)
    requires IsArrangement(s)
    ensures 0 <= IndexOf(s, Blank) < TileCount && s[IndexOf(s, Blank)] == Blank
    ensures forall k :: 0 <= k < |s| && s[k] == Blank ==> k == IndexOf(s, Blank)
  {
    ArrangementFacts(s);
  }
}
