// The parts of the smoothing automaton both map generators share: the
// 8-neighbour count of live cells, the number of cells at which two maps
// differ, and the rule that stops smoothing once a step changes as many
// cells as the step before it.

module Automaton {
  import opened Grid

  // ---------------------------------------------------------- neighbour count

  /** The map height as the source reads it: the length of the last column. */
  function Height<T>(g: seq<seq<T>>): nat
  {
    if |g| == 0 then 0 else |g[|g| - 1]|
  }

  /** Cell (x, y) lies on the map and holds the live value. */
  function Alive<T(==)>(g: seq<seq<T>>, live: T, x: int, y: int): (n: nat)
    requires IsRect(g, |g|, Height(g))
    ensures n <= 1
  {
    if 0 <= x < |g| && 0 <= y < Height(g) && g[x][y] == live then 1 else 0
  }

  /** The number of live cells among the eight neighbours of (px, py) that lie on the map. */
  function NeighbourCount<T(==)>(g: seq<seq<T>>, live: T, px: int, py: int): (n: nat)
    requires IsRect(g, |g|, Height(g))
    ensures n <= 8
    ensures |g| == 0 || Height(g) == 0 ==> n == 0
  {
    Alive(g, live, px - 1, py - 1) + Alive(g, live, px - 1, py) + Alive(g, live, px - 1, py + 1) +
    Alive(g, live, px, py - 1) + Alive(g, live, px, py + 1) +
    Alive(g, live, px + 1, py - 1) + Alive(g, live, px + 1, py) + Alive(g, live, px + 1, py + 1)
  }

  /** A window cell that is counted: on the map, live, and not the centre. */
  function Counted<T(==)>(g: seq<seq<T>>, live: T, px: int, py: int, x: int, y: int): nat
    requires IsRect(g, |g|, Height(g))
  {
    if x == px && y == py then 0 else Alive(g, live, x, y)
  }

  /** Counted cells of column x of the window, rows py - 1 up to yEnd - 1. */
  function ColumnSum<T(==)>(g: seq<seq<T>>, live: T, px: int, py: int, x: int, yEnd: int): nat
    requires IsRect(g, |g|, Height(g)) && py - 1 <= yEnd
    decreases yEnd - py
  {
    if yEnd == py - 1 then 0 else ColumnSum(g, live, px, py, x, yEnd - 1) + Counted(g, live, px, py, x, yEnd - 1)
  }

  /** Counted cells of the window's columns px - 1 up to xEnd - 1. */
  function WindowSum<T(==)>(g: seq<seq<T>>, live: T, px: int, py: int, xEnd: int): nat
    requires IsRect(g, |g|, Height(g)) && px - 1 <= xEnd
    decreases xEnd - px
  {
    if xEnd == px - 1 then 0 else WindowSum(g, live, px, py, xEnd - 1) + ColumnSum(g, live, px, py, xEnd - 1, py + 2)
  }

  /** Scanning the 3 by 3 window column by column counts exactly the eight neighbours. */
  lemma {:induction false} WindowIsNeighbours<T>(g: seq<seq<T>>, live: T, px: int, py: int)
    requires IsRect(g, |g|, Height(g))
    ensures WindowSum(g, live, px, py, px + 2) == NeighbourCount(g, live, px, py)
  {
    forall x
      ensures ColumnSum(g, live, px, py, x, py + 2) == Counted(g, live, px, py, x, py - 1) + Counted(g, live, px, py, x, py) + Counted(g, live, px, py, x, py + 1)
    {
      assert ColumnSum(g, live, px, py, x, py + 2) == ColumnSum(g, live, px, py, x, py + 1) + Counted(g, live, px, py, x, py + 1);
      assert ColumnSum(g, live, px, py, x, py + 1) == ColumnSum(g, live, px, py, x, py) + Counted(g, live, px, py, x, py);
      assert ColumnSum(g, live, px, py, x, py) == ColumnSum(g, live, px, py, x, py - 1) + Counted(g, live, px, py, x, py - 1);
    }
    assert WindowSum(g, live, px, py, px + 2) == WindowSum(g, live, px, py, px + 1) + ColumnSum(g, live, px, py, px + 1, py + 2);
    assert WindowSum(g, live, px, py, px + 1) == WindowSum(g, live, px, py, px) + ColumnSum(g, live, px, py, px, py + 2);
    assert WindowSum(g, live, px, py, px) == WindowSum(g, live, px, py, px - 1) + ColumnSum(g, live, px, py, px - 1, py + 2);
    assert Counted(g, live, px, py, px, py) == 0;
    forall x, y | x != px || y != py
      ensures Counted(g, live, px, py, x, y) == Alive(g, live, x, y)
    {
    }
  }

  // ---------------------------------------------------------- changed cells

  /** The number of positions at which two columns of equal length differ. */
  function ColumnChanges<T(==)>(a: seq<T>, b: seq<T>): nat
    requires |a| == |b|
  {
    if |a| == 0 then 0
    else ColumnChanges(a[..|a| - 1], b[..|a| - 1]) + (if a[|a| - 1] != b[|a| - 1] then 1 else 0)
  }

  /** The number of cells of the first xEnd columns at which two maps of one shape differ. */
  function Changes<T(==)>(g: seq<seq<T>>, k: seq<seq<T>>, xEnd: nat): nat
    requires |g| == |k| && xEnd <= |g| && forall x :: 0 <= x < |g| ==> |g[x]| == |k[x]|
  {
    if xEnd == 0 then 0 else Changes(g, k, xEnd - 1) + ColumnChanges(g[xEnd - 1], k[xEnd - 1])
  }

  /** The number of cells at which two maps of one shape differ. */
  function Changed<T(==)>(g: seq<seq<T>>, k: seq<seq<T>>): nat
    requires |g| == |k| && forall x :: 0 <= x < |g| ==> |g[x]| == |k[x]|
  {
    Changes(g, k, |g|)
  }

  /** A map compared with itself has no changed cell. */
  lemma {:induction false} NoChanges<T>(g: seq<seq<T>>, xEnd: nat)
    requires xEnd <= |g|
    ensures Changes(g, g, xEnd) == 0
  {
    if xEnd > 0 {
      NoChanges(g, xEnd - 1);
      NoColumnChanges(g[xEnd - 1]);
    }
  }

  lemma {:induction false} NoColumnChanges<T>(a: seq<T>)
    ensures ColumnChanges(a, a) == 0
  {
    if |a| > 0 {
      NoColumnChanges(a[..|a| - 1]);
    }
  }

  /** Counting one more cell of a column. */
  lemma ColumnChangesStep<T>(a: seq<T>, b: seq<T>, y: nat)
    requires |a| == |b| && y < |a|
    ensures ColumnChanges(a[..y + 1], b[..y + 1]) == ColumnChanges(a[..y], b[..y]) + (if a[y] != b[y] then 1 else 0)
  {
    assert a[..y + 1][..y] == a[..y];
    assert b[..y + 1][..y] == b[..y];
  }

  /** Two maps of one shape with no changed cell are equal. */
  lemma {:induction false} UnchangedEqual<T>(g: seq<seq<T>>, k: seq<seq<T>>, xEnd: nat)
    requires |g| == |k| && xEnd <= |g| && forall x :: 0 <= x < |g| ==> |g[x]| == |k[x]|
    requires Changes(g, k, xEnd) == 0
    ensures forall x :: 0 <= x < xEnd ==> g[x] == k[x]
  {
    if xEnd > 0 {
      UnchangedEqual(g, k, xEnd - 1);
      UnchangedColumnEqual(g[xEnd - 1], k[xEnd - 1]);
    }
  }

  lemma {:induction false} UnchangedColumnEqual<T>(a: seq<T>, b: seq<T>)
    requires |a| == |b| && ColumnChanges(a, b) == 0
    ensures a == b
  {
    if |a| > 0 {
      UnchangedColumnEqual(a[..|a| - 1], b[..|a| - 1]);
      assert a == a[..|a| - 1] + [a[|a| - 1]];
      assert b == b[..|a| - 1] + [b[|a| - 1]];
    }
  }

  /** Replacing b[y] with v only changes whether position y counts. */
  lemma {:induction false} ColumnChangesAfterUpdate<T>(a: seq<T>, b: seq<T>, y: nat, v: T)
    requires |a| == |b| && y < |a|
    ensures ColumnChanges(a, b[y := v]) ==
      ColumnChanges(a, b) - (if a[y] != b[y] then 1 else 0) + (if a[y] != v then 1 else 0)
  {
    var n := |a|;
    if y == n - 1 {
      assert b[y := v][..n - 1] == b[..n - 1];
    } else {
      ColumnChangesAfterUpdate(a[..n - 1], b[..n - 1], y, v);
      assert b[y := v][..n - 1] == b[..n - 1][y := v];
    }
  }

  /** Replacing cell (x, y) of k with v only changes whether that cell counts. */
  lemma {:induction false} ChangesAfterPut<T>(g: seq<seq<T>>, k: seq<seq<T>>, xEnd: nat, x: nat, y: nat, v: T)
    requires |g| == |k| && xEnd <= |g| && forall i :: 0 <= i < |g| ==> |g[i]| == |k[i]|
    requires x < |g| && y < |k[x]|
    ensures Changes(g, k[x := k[x][y := v]], xEnd) == Changes(g, k, xEnd) +
      (if x < xEnd then (if g[x][y] != v then 1 else 0) - (if g[x][y] != k[x][y] then 1 else 0) else 0)
  {
    if xEnd > 0 {
      ChangesAfterPut(g, k, xEnd - 1, x, y, v);
      if xEnd - 1 == x {
        ColumnChangesAfterUpdate(g[x], k[x], y, v);
      }
    }
  }

  // ---------------------------------------------------------- settling

  function Max0(n: int): nat
  {
    if n < 0 then 0 else n
  }

  /**
   * The stopping rule of smoothing until settled, over the change counts c
   * of the steps that ran: at most `maxSmoothing` steps, no step before the
   * last changed as many cells as the step before it, and the run ended at
   * the limit or at a step that did.
   */
  predicate Settled(c: seq<nat>, maxSmoothing: int)
  {
    |c| <= Max0(maxSmoothing) &&
    (forall k :: 1 <= k < |c| - 1 ==> c[k] != c[k - 1]) &&
    (|c| == Max0(maxSmoothing) || (|c| >= 2 && c[|c| - 1] == c[|c| - 2]))
  }

  /** Of the change counts of one run, only one prefix satisfies the stopping rule. */
  lemma SettledUnique(c: seq<nat>, d: seq<nat>, maxSmoothing: int)
    requires Settled(c, maxSmoothing) && Settled(d, maxSmoothing)
    requires |c| <= |d| && c == d[..|c|]
    ensures c == d
  {
  }

  /** No step changed as many cells as the step before it. */
  predicate NoRepeat(c: seq<nat>)
  {
    forall k :: 1 <= k < |c| ==> c[k] != c[k - 1]
  }

  lemma NoRepeatExtend(c: seq<nat>, v: nat)
    requires NoRepeat(c) && (|c| == 0 || c[|c| - 1] != v)
    ensures NoRepeat(c + [v])
  {
  }

  lemma SettledByRepeat(c: seq<nat>, v: nat, maxSmoothing: int)
    requires NoRepeat(c) && |c| >= 1 && c[|c| - 1] == v && |c| < Max0(maxSmoothing)
    ensures Settled(c + [v], maxSmoothing)
  {
  }

  lemma SettledAtLimit(c: seq<nat>, maxSmoothing: int)
    requires NoRepeat(c) && |c| == Max0(maxSmoothing)
    ensures Settled(c, maxSmoothing)
  {
  }
}
