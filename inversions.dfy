/**
 * Inversion counting (game.js:135-147). `Inversions(s)` counts the pairs of slots
 * i < j with s[i] > s[j]; the lemmas give its algebra over concatenation, which is
 * what the parity arguments about the blank and about moves rest on.
 */
module InversionCount {

  /** How many elements of `t` are smaller than `x`. */
  function CountBelow(x: int, t: seq<int>): (n: nat)
    ensures n <= |t|
  {
    if t == [] then 0 else (if t[0] < x then 1 else 0) + CountBelow(x, t[1..])
  }

  /** How many elements of `t` are larger than `x`. */
  function CountAbove(x: int, t: seq<int>): (n: nat)
    ensures n <= |t|
  {
    if t == [] then 0 else (if t[0] > x then 1 else 0) + CountAbove(x, t[1..])
  }

  /** The pairs (x in a, y in b) with x > y. */
  function Cross(a: seq<int>, b: seq<int>): nat
  {
    if a == [] then 0 else CountBelow(a[0], b) + Cross(a[1..], b)
  }

  /** The pairs of positions i < j with s[i] > s[j]. */
  function Inversions(s: seq<int>): nat
  {
    if s == [] then 0 else CountBelow(s[0], s[1..]) + Inversions(s[1..])
  }

  lemma {:induction false} CountBelowConcat(x: int, a: seq<int>, b: seq<int>)
    ensures CountBelow(x, a + b) == CountBelow(x, a) + CountBelow(x, b)
  {
    if a == [] {
      assert a + b == b;
    } else {
      assert (a + b)[1..] == a[1..] + b;
      CountBelowConcat(x, a[1..], b);
    }
  }

  lemma {:induction false} CountAboveConcat(x: int, a: seq<int>, b: seq<int>)
    ensures CountAbove(x, a + b) == CountAbove(x, a) + CountAbove(x, b)
  {
    if a == [] {
      assert a + b == b;
    } else {
      assert (a + b)[1..] == a[1..] + b;
      CountAboveConcat(x, a[1..], b);
    }
  }

  /** An element not in `t` is either above or below each of its elements. */
  lemma {:induction false} BelowAboveSplit(x: int, t: seq<int>)
    requires x !in t
    ensures CountBelow(x, t) + CountAbove(x, t) == |t|
  {
    if t != [] {
      BelowAboveSplit(x, t[1..]);
    }
  }

  /** Nothing in `t` is below a value that is at most all of them. */
  lemma {:induction false} CountBelowNone(x: int, t: seq<int>)
    requires forall k :: 0 <= k < |t| ==> x <= t[k]
    ensures CountBelow(x, t) == 0
  {
    if t != [] {
      CountBelowNone(x, t[1..]);
    }
  }

  /** Nothing in `t` is above a value that is at least all of them. */
  lemma {:induction false} CountAboveNone(x: int, t: seq<int>)
    requires forall k :: 0 <= k < |t| ==> t[k] <= x
    ensures CountAbove(x, t) == 0
  {
    if t != [] {
      CountAboveNone(x, t[1..]);
    }
  }

  /** Everything in `t` is below a value larger than all of them. */
  lemma {:induction false} CountBelowAll(x: int, t: seq<int>)
    requires forall k :: 0 <= k < |t| ==> t[k] < x
    ensures CountBelow(x, t) == |t|
  {
    if t != [] {
      CountBelowAll(x, t[1..]);
    }
  }

  lemma {:induction false} CrossConcatLeft(a: seq<int>, b: seq<int>, c: seq<int>)
    ensures Cross(a + b, c) == Cross(a, c) + Cross(b, c)
  {
    if a == [] {
      assert a + b == b;
    } else {
      assert (a + b)[1..] == a[1..] + b;
      CrossConcatLeft(a[1..], b, c);
    }
  }

  lemma {:induction false} CrossConcatRight(a: seq<int>, b: seq<int>, c: seq<int>)
    ensures Cross(a, b + c) == Cross(a, b) + Cross(a, c)
  {
    if a != [] {
      CountBelowConcat(a[0], b, c);
      CrossConcatRight(a[1..], b, c);
    }
  }

  /** Pairs against a single later element are the earlier elements above it. */
  lemma {:induction false} CrossSingleRight(a: seq<int>, t: int)
    ensures Cross(a, [t]) == CountAbove(t, a)
  {
    if a != [] {
      CrossSingleRight(a[1..], t);
    }
  }

  /** The inversions of a concatenation: those inside each part plus those across. */
  lemma {:induction false} InversionsConcat(a: seq<int>, b: seq<int>)
    ensures Inversions(a + b) == Inversions(a) + Inversions(b) + Cross(a, b)
  {
    if a == [] {
      assert a + b == b;
    } else {
      assert (a + b)[1..] == a[1..] + b;
      CountBelowConcat(a[0], a[1..], b);
      InversionsConcat(a[1..], b);
    }
  }

  /** A strictly increasing sequence has no inversions. */
  lemma {:induction false} IncreasingNoInversions(s: seq<int>)
    requires forall i, j :: 0 <= i < j < |s| ==> s[i] < s[j]
    ensures Inversions(s) == 0
  {
    if s != [] {
      CountBelowNone(s[0], s[1..]);
      IncreasingNoInversions(s[1..]);
    }
  }

  /**
   * The largest element at position p is inverted with each of the |s| - 1 - p
   * elements after it and with nothing before it.
   */
  lemma InversionsWithMaximum(s: seq<int>, p: int)
    requires 0 <= p < |s|
    requires forall k :: 0 <= k < |s| && k != p ==> s[k] < s[p]
    ensures Inversions(s) == Inversions(s[..p] + s[p + 1..]) + (|s| - 1 - p)
  {
    var a, m, c := s[..p], s[p], s[p + 1..];
    assert s == a + ([m] + c);
    InversionsConcat(a, [m] + c);
    assert ([m] + c)[1..] == c;
    CountBelowAll(m, c);
    CrossConcatRight(a, [m], c);
    CrossSingleRight(a, m);
    CountAboveNone(m, a);
    InversionsConcat(a, c);
  }

  /**
   * Moving an element t backwards over a block m changes the count by the elements of m
   * below t, less those above it; nothing outside the block is affected.
   */
  lemma MoveOverBlock(a: seq<int>, m: seq<int>, t: int, c: seq<int>)
    ensures Inversions(a + ([t] + m) + c) + CountAbove(t, m)
         == Inversions(a + (m + [t]) + c) + CountBelow(t, m)
  {
    var r1, r2 := [t] + m, m + [t];
    InversionsConcat(a + r1, c);
    InversionsConcat(a, r1);
    InversionsConcat(a + r2, c);
    InversionsConcat(a, r2);
    CrossConcatLeft(a, r1, c);
    CrossConcatLeft(a, r2, c);
    CrossConcatRight(a, [t], m);
    CrossConcatRight(a, m, [t]);
    CrossConcatLeft([t], m, c);
    CrossConcatLeft(m, [t], c);
    assert r1[1..] == m;
    InversionsConcat(m, [t]);
    CrossSingleRight(m, t);
  }
}
