/**
 * `UIBounds`: an integer rectangle (x, y, w, h) used to place interface
 * elements.  C++ `int` overflow is not modelled; `w / 2` in `distance` is
 * C++ division, which truncates toward zero.
 */
module UIBounds {

  datatype Bounds = Bounds(x: int, y: int, w: int, h: int)

  datatype IVec2 = IVec2(x: int, y: int)

  /** C++ integer division by two, truncating toward zero. */
  function Half(v: int): (r: int)
    ensures v >= 0 ==> 0 <= r && 2 * r <= v < 2 * r + 2
    ensures v < 0 ==> r <= 0 && v <= 2 * r < v + 2
  {
    if v >= 0 then v / 2 else -((-v) / 2)
  }

  function XMax(b: Bounds): int { b.x + b.w }

  function YMax(b: Bounds): int { b.y + b.h }

  /** `contains`: inclusive on all four edges. */
  predicate Contains(b: Bounds, px: int, py: int)
  {
    px >= b.x && px <= XMax(b) && py >= b.y && py <= YMax(b)
  }

  /** `intersects`: neither rectangle lies wholly beyond an edge of the other. */
  predicate Intersects(a: Bounds, o: Bounds)
  {
    !(XMax(a) < o.x || YMax(a) < o.y || XMax(o) < a.x || YMax(o) < a.y)
  }

  /** `distance`: the difference of the two integer-halved centres. */
  function Distance(a: Bounds, o: Bounds): IVec2
  {
    IVec2((a.x + Half(a.w)) - (o.x + Half(o.w)), (a.y + Half(a.h)) - (o.y + Half(o.h)))
  }

  /** All four corners lie inside a rectangle of non-negative size, and nothing left or above it does. */
  lemma ContainsIsInclusive(b: Bounds, px: int, py: int)
    requires b.w >= 0 && b.h >= 0
    ensures Contains(b, b.x, b.y) && Contains(b, XMax(b), b.y)
    ensures Contains(b, b.x, YMax(b)) && Contains(b, XMax(b), YMax(b))
    ensures px < b.x || py < b.y || px > XMax(b) || py > YMax(b) ==> !Contains(b, px, py)
  {
  }

  /** The halved centre of a rectangle of non-negative size lies inside it. */
  lemma CentreContained(b: Bounds)
    requires b.w >= 0 && b.h >= 0
    ensures Contains(b, b.x + Half(b.w), b.y + Half(b.h))
  {
  }

  /** `intersects` is symmetric. */
  lemma IntersectsSymmetric(a: Bounds, o: Bounds)
    ensures Intersects(a, o) <==> Intersects(o, a)
  {
  }

  /** For rectangles of non-negative size, `intersects` holds exactly when some point lies in both. */
  lemma IntersectsIffCommonPoint(a: Bounds, o: Bounds)
    requires a.w >= 0 && a.h >= 0 && o.w >= 0 && o.h >= 0
    ensures Intersects(a, o) <==> exists px, py :: Contains(a, px, py) && Contains(o, px, py)
  {
    if Intersects(a, o) {
      var px := if a.x < o.x then o.x else a.x;
      var py := if a.y < o.y then o.y else a.y;
      assert Contains(a, px, py) && Contains(o, px, py);
    }
  }

  /** `distance` is antisymmetric, and zero from a rectangle to itself. */
  lemma DistanceAntisymmetric(a: Bounds, o: Bounds)
    ensures Distance(o, a) == IVec2(-Distance(a, o).x, -Distance(a, o).y)
    ensures Distance(a, a) == IVec2(0, 0)
  {
  }
}
