// Integer grid coordinates and snapshots of the two-dimensional arrays that
// both map generators work on. A map is stored column by column and indexed
// [x, y], as `pMap[x][y]` is in both implementations.

module Grid {

  /** A grid coordinate (`Vec2` with integer components, C++ `coord`). */
  datatype Point = Point(x: int, y: int)

  function Add(p: Point, q: Point): Point
  {
    Point(p.x + q.x, p.y + q.y)
  }

  predicate InBounds(p: Point, w: int, h: int)
  {
    0 <= p.x < w && 0 <= p.y < h
  }

  /** p and q are one orthogonal step apart. */
  predicate Adjacent4(p: Point, q: Point)
  {
    (p.x == q.x && (p.y - q.y == 1 || q.y - p.y == 1)) ||
    (p.y == q.y && (p.x - q.x == 1 || q.x - p.x == 1))
  }

  /** p and q are one step apart in one of the eight directions. */
  predicate Adjacent8(p: Point, q: Point)
  {
    p != q && -1 <= p.x - q.x <= 1 && -1 <= p.y - q.y <= 1
  }

  /** Every column of g has height h, and there are w of them. */
  predicate IsRect<T>(g: seq<seq<T>>, w: int, h: int)
  {
    |g| == w && forall x :: 0 <= x < |g| ==> |g[x]| == h
  }

  /** The contents of a grid array, column by column. */
  function Cells<T>(a: array2<T>): (g: seq<seq<T>>)
    reads a
    ensures IsRect(g, a.Length0, a.Length1)
    ensures forall x, y :: 0 <= x < a.Length0 && 0 <= y < a.Length1 ==> g[x][y] == a[x, y]
  {
    seq(a.Length0, x requires 0 <= x < a.Length0 reads a =>
      seq(a.Length1, y requires 0 <= y < a.Length1 reads a => a[x, y]))
  }

  /** Every coordinate of a w by h grid. */
  function Rect(w: int, h: int): (r: set<Point>)
    ensures forall p :: p in r <==> InBounds(p, w, h)
  {
    set x, y | 0 <= x < w && 0 <= y < h :: Point(x, y)
  }

  /** A cell-by-cell copy of a grid array into fresh storage. */
  method Copy<T>(a: array2<T>) returns (b: array2<T>)
    ensures fresh(b) && b.Length0 == a.Length0 && b.Length1 == a.Length1 && Cells(b) == Cells(a)
  {
    b := new T[a.Length0, a.Length1]((x, y) reads a requires 0 <= x < a.Length0 && 0 <= y < a.Length1 => a[x, y]);
    SameCells(Cells(b), Cells(a));
  }

  /** `a[x, y] := v`, seen on the contents: one cell of one column changes. */
  method Write<T>(a: array2<T>, x: int, y: int, v: T)
    requires 0 <= x < a.Length0 && 0 <= y < a.Length1
    modifies a
    ensures Cells(a) == old(Cells(a))[x := old(Cells(a))[x][y := v]]
  {
    ghost var g := Cells(a);
    a[x, y] := v;
    SameCells(Cells(a), g[x := g[x][y := v]]);
  }

  /** Two rectangular grids that agree cell by cell are equal. */
  lemma SameCells<T>(g: seq<seq<T>>, k: seq<seq<T>>)
    requires |g| == |k| && forall x :: 0 <= x < |g| ==> |g[x]| == |k[x]|
    requires forall x, y :: 0 <= x < |g| && 0 <= y < |g[x]| ==> g[x][y] == k[x][y]
    ensures g == k
  {
    forall x | 0 <= x < |g|
      ensures g[x] == k[x]
    {
      assert forall y :: 0 <= y < |g[x]| ==> g[x][y] == k[x][y];
    }
  }
}
