// The passage-carving geometry shared by both map generators: the
// error-accumulating grid line between two edge cells (`getLine`, in the
// JavaScript version with a real accumulator and `Math.sign`, in the C++
// version with an integer accumulator and a `SIGN` macro that maps 0 to 1)
// and the filled disc painted around each point of it (`drawCircle`).

module Lines {
  import opened Grid

  function Abs(n: int): nat
  {
    if n < 0 then -n else n
  }

  /** The sign of n, with `zeroSign` for 0: 0 for `Math.sign`, 1 for the C++ `SIGN` macro. */
  function Sign(n: int, zeroSign: int): int
  {
    if n < 0 then -1 else if n > 0 then 1 else zeroSign
  }

  /**
   * How a line walks: along the long axis (y when `inverted`) by `step` every
   * point, and along the short axis by `gradientStep` whenever the
   * accumulated error reaches `longest`.
   */
  datatype Axes = Axes(inverted: bool, longest: nat, shortest: nat, step: int, gradientStep: int)

  function LineAxes(from: Point, to: Point, zeroSign: int): (a: Axes)
    ensures a.shortest <= a.longest
  {
    var dx := to.x - from.x;
    var dy := to.y - from.y;
    if Abs(dx) < Abs(dy) then Axes(true, Abs(dy), Abs(dx), Sign(dy, zeroSign), Sign(dx, zeroSign))
    else Axes(false, Abs(dx), Abs(dy), Sign(dx, zeroSign), Sign(dy, zeroSign))
  }

  /** The cell `along` cells down the long axis and `across` cells down the short axis from `from`. */
  function Place(from: Point, a: Axes, along: int, across: int): Point
  {
    if a.inverted then Point(from.x + across, from.y + along) else Point(from.x + along, from.y + across)
  }

  /** The cell reached from `from` by i moves along the long axis and j moves across it. */
  function Walk(from: Point, a: Axes, i: int, j: int): Point
  {
    Place(from, a, i * a.step, j * a.gradientStep)
  }

  /** One more move along the long axis adds `step` to that coordinate. */
  lemma WalkAlong(from: Point, a: Axes, i: int, j: int)
    ensures var p := Walk(from, a, i, j);
      Walk(from, a, i + 1, j) == if a.inverted then p.(y := p.y + a.step) else p.(x := p.x + a.step)
  {
    MulSucc(i, a.step);
  }

  /** One more move across adds `gradientStep` to the other coordinate. */
  lemma WalkAcross(from: Point, a: Axes, i: int, j: int)
    ensures var p := Walk(from, a, i, j);
      Walk(from, a, i, j + 1) == if a.inverted then p.(x := p.x + a.gradientStep) else p.(y := p.y + a.gradientStep)
  {
    MulSucc(j, a.gradientStep);
  }

  /** Twice the error accumulated by point i: longest + 2 * i * shortest. */
  function Error2(a: Axes, i: nat): nat
  {
    a.longest + 2 * (i * a.shortest)
  }

  /** The number of short-axis moves before point i: the floor of (longest / 2 + i * shortest) / longest. */
  function Jumps(a: Axes, i: nat): nat
    requires a.longest > 0
  {
    Error2(a, i) / (2 * a.longest)
  }

  lemma MulSucc(i: int, s: int)
    ensures (i + 1) * s == i * s + s
  {
  }

  /** Point i of the line from `from` with axes a, in closed form. */
  function LinePoint(from: Point, a: Axes, i: nat): Point
    requires a.longest > 0
  {
    Place(from, a, i * a.step, Jumps(a, i) * a.gradientStep)
  }

  /** The line as a list: `longest` points, point i at `LinePoint(from, a, i)`. */
  predicate IsLine(line: seq<Point>, from: Point, a: Axes)
  {
    |line| == a.longest && IsLinePrefix(line, from, a)
  }

  /** The points of `line` are the line's first |line| points. */
  predicate IsLinePrefix(line: seq<Point>, from: Point, a: Axes)
  {
    a.longest > 0 ==> forall i :: 0 <= i < |line| ==> line[i] == LinePoint(from, a, i)
  }

  // ------------------------------------------------------------- arithmetic

  lemma DivModUnique(n: int, d: int, q: int, r: int)
    requires d > 0 && 0 <= r < d && n == q * d + r
    ensures n / d == q && n % d == r
  {
    var q' := n / d;
    var r' := n % d;
    assert n == q' * d + r' && 0 <= r' < d;
    if q > q' {
      MulAtLeast(q - q', d, q, q');
    } else if q < q' {
      MulAtLeast(q' - q, d, q', q);
    }
  }

  lemma MulAtLeast(k: int, d: int, a: int, b: int)
    requires k >= 1 && d > 0 && k == a - b
    ensures a * d >= b * d + d
  {
    assert a * d == b * d + k * d;
    assert (k - 1) * d >= 0;
    assert k * d == (k - 1) * d + d;
  }

  /**
   * One accumulator step: adding s (at most d) to t adds one to t / d
   * exactly when the remainder reaches d.
   */
  lemma AccumulateStep(t: int, s: int, d: int)
    requires d > 0 && 0 <= s <= d
    ensures (t + s) / d == t / d + (if t % d + s >= d then 1 else 0)
    ensures (t + s) % d == t % d + s - (if t % d + s >= d then d else 0)
  {
    var q := t / d;
    var r := t % d;
    if r + s >= d {
      DivModUnique(t + s, d, q + 1, r + s - d);
    } else {
      DivModUnique(t + s, d, q, r + s);
    }
  }

  lemma DivMonotone(a: int, b: int, d: int)
    requires d > 0 && a <= b
    ensures a / d <= b / d
  {
    if a / d > b / d {
      MulAtLeast(a / d - b / d, d, a / d, b / d);
    }
  }

  // ------------------------------------------------------------- JavaScript

  /** The JavaScript accumulator after point i: half of the error left over from the moves taken. */
  function JsAccumulator(a: Axes, i: nat): real
    requires a.longest > 0
  {
    (Error2(a, i) % (2 * a.longest)) as real / 2.0
  }

  /** Adding `shortest` to the accumulator, and taking `longest` off it when it reaches `longest`, is one point further. */
  lemma JsAccumulatorStep(a: Axes, i: nat)
    requires a.shortest <= a.longest && a.longest > 0
    ensures var next := JsAccumulator(a, i) + a.shortest as real;
      if next >= a.longest as real
      then Jumps(a, i + 1) == Jumps(a, i) + 1 && next - a.longest as real == JsAccumulator(a, i + 1)
      else Jumps(a, i + 1) == Jumps(a, i) && next == JsAccumulator(a, i + 1)
  {
    MulSucc(i, a.shortest);
    assert Error2(a, i + 1) == Error2(a, i) + 2 * a.shortest;
    AccumulateStep(Error2(a, i), 2 * a.shortest, 2 * a.longest);
  }

  /**
   * The JavaScript loop's own bookkeeping after i points: how many moves
   * across it has made and its accumulator, starting from `longest / 2`.
   */
  function JsRun(a: Axes, i: nat): (nat, real)
  {
    if i == 0 then (0, a.longest as real / 2.0)
    else
      var r := JsRun(a, i - 1);
      var next := r.1 + a.shortest as real;
      if next >= a.longest as real then (r.0 + 1, next - a.longest as real) else (r.0, next)
  }

  /** The loop's bookkeeping has the closed form `Jumps` and `JsAccumulator`. */
  lemma {:induction false} JsRunClosed(a: Axes, i: nat)
    requires a.shortest <= a.longest && a.longest > 0
    ensures JsRun(a, i) == (Jumps(a, i), JsAccumulator(a, i))
  {
    if i == 0 {
      DivModUnique(Error2(a, 0), 2 * a.longest, 0, a.longest);
    } else {
      JsRunClosed(a, i - 1);
      JsAccumulatorStep(a, i - 1);
    }
  }

  /**
   * The JavaScript `getLine`: `longest` points starting at `from`, the
   * accumulator starting at `longest / 2` as a real number.
   */
  method GetLineJs(from: Point, to: Point) returns (line: seq<Point>)
    ensures IsLine(line, from, LineAxes(from, to, 0))
  {
    ghost var a := LineAxes(from, to, 0);
    line := [];
    var x := from.x;
    var y := from.y;
    var delta := Point(to.x - from.x, to.y - from.y);
    var inverted := false;
    var step := Sign(delta.x, 0);
    var gradientStep := Sign(delta.y, 0);
    var longest := Abs(delta.x);
    var shortest := Abs(delta.y);
    if longest < shortest {
      inverted := true;
      longest := Abs(delta.y);
      shortest := Abs(delta.x);
      step := Sign(delta.y, 0);
      gradientStep := Sign(delta.x, 0);
    }
    assert a == Axes(inverted, longest, shortest, step, gradientStep);
    var gradientAccumulation: real := longest as real / 2.0;
    ghost var jumps: nat := 0;
    var i := 0;
    while i < longest
      invariant 0 <= i <= longest && |line| == i
      invariant IsLinePrefix(line, from, a)
      invariant (jumps, gradientAccumulation) == JsRun(a, i)
      invariant Point(x, y) == Walk(from, a, i, jumps)
    {
      JsRunClosed(a, i);
      WalkAlong(from, a, i, jumps);
      WalkAcross(from, a, i + 1, jumps);
      line := line + [Point(x, y)];
      if inverted {
        y := y + step;
      } else {
        x := x + step;
      }
      gradientAccumulation := gradientAccumulation + shortest as real;
      if gradientAccumulation >= longest as real {
        if inverted {
          x := x + gradientStep;
        } else {
          y := y + gradientStep;
        }
        gradientAccumulation := gradientAccumulation - longest as real;
        jumps := jumps + 1;
      }
      i := i + 1;
    }
  }

  // ------------------------------------------------------------- C++

  /** The C++ accumulator: the integer `longest / 2` plus `i * shortest`. */
  function CppError(a: Axes, i: nat): nat
  {
    a.longest / 2 + i * a.shortest
  }

  /** Adding `shortest` to the integer accumulator, and taking `longest` off it when it reaches `longest`, is one point further. */
  lemma CppAccumulatorStep(a: Axes, i: nat)
    requires a.shortest <= a.longest && a.longest > 0
    ensures var next := CppError(a, i) % a.longest + a.shortest;
      if next >= a.longest
      then CppError(a, i + 1) / a.longest == CppError(a, i) / a.longest + 1 && next - a.longest == CppError(a, i + 1) % a.longest
      else CppError(a, i + 1) / a.longest == CppError(a, i) / a.longest && next == CppError(a, i + 1) % a.longest
  {
    MulSucc(i, a.shortest);
    AccumulateStep(CppError(a, i), a.shortest, a.longest);
  }

  /**
   * The C++ loop's own bookkeeping after i points: how many moves across it
   * has made and its integer accumulator, starting from `longest / 2`.
   */
  function CppRun(a: Axes, i: nat): (nat, int)
  {
    if i == 0 then (0, a.longest / 2)
    else
      var r := CppRun(a, i - 1);
      var next := r.1 + a.shortest;
      if next >= a.longest then (r.0 + 1, next - a.longest) else (r.0, next)
  }

  /** The loop's bookkeeping is the quotient and remainder of `CppError` by `longest`. */
  lemma {:induction false} CppRunClosed(a: Axes, i: nat)
    requires a.shortest <= a.longest && a.longest > 0
    ensures CppRun(a, i) == (CppError(a, i) / a.longest, CppError(a, i) % a.longest)
  {
    if i == 0 {
      DivModUnique(CppError(a, 0), a.longest, 0, a.longest / 2);
    } else {
      CppRunClosed(a, i - 1);
      CppAccumulatorStep(a, i - 1);
    }
  }

  /**
   * The C++ `getLine`: the accumulator starts at the integer `longest / 2`
   * and `SIGN(0)` is 1, yet every point is the one the JavaScript version
   * draws.
   */
  method GetLineCpp(from: Point, to: Point) returns (line: seq<Point>)
    ensures IsLine(line, from, LineAxes(from, to, 0))
  {
    ghost var a := LineAxes(from, to, 1);
    line := [];
    var pos := from;
    var delta := Point(to.x - from.x, to.y - from.y);
    var inverted := false;
    var step := Sign(delta.x, 1);
    var gradientStep := Sign(delta.y, 1);
    var longest := Abs(delta.x);
    var shortest := Abs(delta.y);
    if longest < shortest {
      inverted := true;
      longest := Abs(delta.y);
      shortest := Abs(delta.x);
      step := Sign(delta.y, 1);
      gradientStep := Sign(delta.x, 1);
    }
    assert a == Axes(inverted, longest, shortest, step, gradientStep);
    var gradientAccumulation: int := longest / 2;
    ghost var jumps: nat := 0;
    var i := 0;
    while i < longest
      invariant 0 <= i <= longest && |line| == i
      invariant IsCppPrefix(line, from, a)
      invariant (jumps, gradientAccumulation) == CppRun(a, i)
      invariant pos == Walk(from, a, i, jumps)
    {
      WalkAlong(from, a, i, jumps);
      WalkAcross(from, a, i + 1, jumps);
      line := line + [pos];
      if inverted {
        pos := pos.(y := pos.y + step);
      } else {
        pos := pos.(x := pos.x + step);
      }
      gradientAccumulation := gradientAccumulation + shortest;
      if gradientAccumulation >= longest {
        if inverted {
          pos := pos.(x := pos.x + gradientStep);
        } else {
          pos := pos.(y := pos.y + gradientStep);
        }
        gradientAccumulation := gradientAccumulation - longest;
        jumps := jumps + 1;
      }
      i := i + 1;
    }
    CppLineIsJsLine(from, to, line);
  }

  /** Every point of `line` is where the integer accumulator puts it. */
  ghost predicate IsCppPrefix(line: seq<Point>, from: Point, c: Axes)
  {
    forall k :: 0 <= k < |line| ==> line[k] == Walk(from, c, k, CppRun(c, k).0)
  }

  /** A full C++ line is the JavaScript line. */
  lemma CppLineIsJsLine(from: Point, to: Point, line: seq<Point>)
    requires |line| == LineAxes(from, to, 1).longest && IsCppPrefix(line, from, LineAxes(from, to, 1))
    ensures IsLine(line, from, LineAxes(from, to, 0))
  {
    forall k | 0 <= k < |line|
      ensures line[k] == LinePoint(from, LineAxes(from, to, 0), k)
    {
      CppRunClosed(LineAxes(from, to, 1), k);
      CppPointIsJsPoint(from, to, k);
    }
  }

  /** The integer accumulator of the C++ version makes the same moves as the real one of the JavaScript version. */
  lemma CppJumpsAreJsJumps(a: Axes, i: nat)
    requires a.longest > 0
    ensures CppError(a, i) / a.longest == Jumps(a, i)
  {
    var n := CppError(a, i);
    var L := a.longest;
    var q := n / L;
    var r := n % L;
    assert L == 2 * (L / 2) + L % 2;
    assert n == q * L + r;
    assert Error2(a, i) == 2 * n + L % 2;
    assert q * (2 * L) == 2 * (q * L);
    DivModUnique(Error2(a, i), 2 * L, q, 2 * r + L % 2);
  }

  /** Point i of the C++ line, built on `SIGN`, is point i of the JavaScript line. */
  lemma CppPointIsJsPoint(from: Point, to: Point, i: nat)
    requires i < LineAxes(from, to, 0).longest
    ensures var c := LineAxes(from, to, 1);
      Walk(from, c, i, CppError(c, i) / c.longest) == LinePoint(from, LineAxes(from, to, 0), i)
  {
    var c := LineAxes(from, to, 1);
    var a := LineAxes(from, to, 0);
    CppJumpsAreJsJumps(a, i);
    assert CppError(c, i) == CppError(a, i);
    if a.shortest == 0 {
      assert Jumps(a, i) == 0 by {
        assert Error2(a, i) == a.longest;
        DivModUnique(Error2(a, i), 2 * a.longest, 0, a.longest);
      }
    }
  }

  // ------------------------------------------------------------- properties

  /** The line starts at `from` whenever it has a point at all. */
  lemma LineStartsAtFrom(from: Point, a: Axes)
    requires a.longest > 0
    ensures LinePoint(from, a, 0) == from
  {
    DivModUnique(Error2(a, 0), 2 * a.longest, 0, a.longest);
  }

  /**
   * The point after the last one is `to` itself: the line runs from `from`
   * up to `to`, leaving `to` out.
   */
  lemma LineEndsBeforeTo(from: Point, to: Point)
    requires LineAxes(from, to, 0).longest > 0
    ensures LinePoint(from, LineAxes(from, to, 0), LineAxes(from, to, 0).longest) == to
  {
    var a := LineAxes(from, to, 0);
    var L := a.longest;
    assert Error2(a, L) == a.shortest * (2 * L) + L;
    DivModUnique(Error2(a, L), 2 * L, a.shortest, L);
    SignTimesAbs(to.x - from.x);
    SignTimesAbs(to.y - from.y);
  }

  lemma SignTimesAbs(d: int)
    ensures Abs(d) * Sign(d, 0) == d
  {
  }

  /** The coordinate along the long axis of point i. */
  function Along(a: Axes, p: Point, from: Point): int
  {
    if a.inverted then p.y - from.y else p.x - from.x
  }

  /**
   * Consecutive points are neighbours: one cell along the long axis, and at
   * most one along the short axis.
   */
  lemma LineIsConnected(from: Point, to: Point, i: nat)
    requires i + 1 < LineAxes(from, to, 0).longest
    ensures var a := LineAxes(from, to, 0);
      Adjacent8(LinePoint(from, a, i), LinePoint(from, a, i + 1)) &&
      Along(a, LinePoint(from, a, i + 1), from) - Along(a, LinePoint(from, a, i), from) == a.step
  {
    var a := LineAxes(from, to, 0);
    MulSucc(i, a.shortest);
    MulSucc(i, a.step);
    AccumulateStep(Error2(a, i), 2 * a.shortest, 2 * a.longest);
    MulSucc(Jumps(a, i), a.gradientStep);
  }

  /** Point i lies i cells from `from` along the long axis, in the direction of `to`. */
  lemma AlongIsIndex(from: Point, to: Point, i: nat)
    requires LineAxes(from, to, 0).longest > 0
    ensures var a := LineAxes(from, to, 0);
      Along(a, LinePoint(from, a, i), from) == i * a.step && (a.step == 1 || a.step == -1)
  {
  }

  /** No two points of the line coincide, and none of them is `to`. */
  lemma LineIsSimple(from: Point, to: Point, i: nat, j: nat)
    requires i < j <= LineAxes(from, to, 0).longest
    ensures var a := LineAxes(from, to, 0);
      LinePoint(from, a, i) != LinePoint(from, a, j) && LinePoint(from, a, i) != to
  {
    var a := LineAxes(from, to, 0);
    AlongIsIndex(from, to, i);
    AlongIsIndex(from, to, j);
    LineEndsBeforeTo(from, to);
    AlongIsIndex(from, to, a.longest);
    if a.step == 1 {
      assert i * a.step == i && j * a.step == j;
    } else {
      assert i * a.step == -(i as int) && j * a.step == -(j as int);
    }
  }

  /** The lesser and greater of two integers. */
  function Min(a: int, b: int): int
  {
    if a < b then a else b
  }

  function Max(a: int, b: int): int
  {
    if a < b then b else a
  }

  /** The short axis never moves past `to`: at most `shortest` moves happen. */
  lemma JumpsBounded(a: Axes, i: nat)
    requires i < a.longest && a.shortest <= a.longest
    ensures Jumps(a, i) <= a.shortest
  {
    var L := a.longest;
    assert Error2(a, i) / (2 * L) <= Error2(a, L) / (2 * L) by {
      assert i * a.shortest <= L * a.shortest;
      DivMonotone(Error2(a, i), Error2(a, L), 2 * L);
    }
    assert Error2(a, L) / (2 * L) == a.shortest by {
      assert Error2(a, L) == a.shortest * (2 * L) + L;
      DivModUnique(Error2(a, L), 2 * L, a.shortest, L);
    }
  }

  /** The line never leaves the rectangle spanned by `from` and `to`. */
  lemma LineStaysInBox(from: Point, to: Point, i: nat)
    requires i < LineAxes(from, to, 0).longest
    ensures var p := LinePoint(from, LineAxes(from, to, 0), i);
      Min(from.x, to.x) <= p.x <= Max(from.x, to.x) && Min(from.y, to.y) <= p.y <= Max(from.y, to.y)
  {
    var a := LineAxes(from, to, 0);
    JumpsBounded(a, i);
    var j := Jumps(a, i);
    var along := i * a.step;
    var across := j * a.gradientStep;
    if a.step == 1 {
      assert along == i;
    } else {
      assert along == -(i as int);
    }
    if a.gradientStep == 1 {
      assert across == j;
    } else if a.gradientStep == -1 {
      assert across == -(j as int);
    } else {
      assert across == 0;
    }
    assert LinePoint(from, a, i) == Place(from, a, along, across);
  }

  // ------------------------------------------------------------- discs

  /** Offset (dx, dy) is painted by a disc of radius r: inside the square of side 2r + 1 and the circle. */
  predicate InDisc(dx: int, dy: int, r: int)
  {
    -r <= dx <= r && -r <= dy <= r && dx * dx + dy * dy <= r * r
  }

  /** The square walk adds nothing: a disc of radius r >= 0 is exactly the circle, and one of negative radius is empty. */
  lemma DiscIsCircle(dx: int, dy: int, r: int)
    ensures r >= 0 ==> (InDisc(dx, dy, r) <==> dx * dx + dy * dy <= r * r)
    ensures r < 0 ==> !InDisc(dx, dy, r)
  {
    if r >= 0 && dx * dx + dy * dy <= r * r {
      SquareBound(dx, r, dy * dy);
      SquareBound(dy, r, dx * dx);
    }
  }

  lemma SquareBound(d: int, r: int, rest: int)
    requires r >= 0 && rest >= 0 && d * d + rest <= r * r
    ensures -r <= d <= r
  {
    if d > r {
      SquareGrows(d, r);
    } else if d < -r {
      SquareGrows(-d, r);
    }
  }

  lemma SquareGrows(d: int, r: int)
    requires 0 <= r < d
    ensures d * d > r * r
  {
    MulAtLeast(d - r, d + r, d, r);
    assert d * (d + r) == d * d + d * r;
    assert r * (d + r) == r * d + r * r;
  }

  /**
   * `drawCircle`: paints `brush` on every cell of the map within radius r
   * of `center`, skipping the offsets that fall outside the map.
   */
  method DrawCircle<T>(m: array2<T>, brush: T, center: Point, r: int)
    modifies m
    ensures forall x, y :: 0 <= x < m.Length0 && 0 <= y < m.Length1 ==>
      m[x, y] == if InDisc(x - center.x, y - center.y, r) then brush else old(m[x, y])
  {
    var dx := -r;
    while dx <= r
      invariant -r <= dx || r < 0
      invariant forall x, y :: 0 <= x < m.Length0 && 0 <= y < m.Length1 ==>
        m[x, y] == if x - center.x < dx && InDisc(x - center.x, y - center.y, r) then brush else old(m[x, y])
    {
      DrawDiscColumn(m, brush, center, r, dx);
      dx := dx + 1;
    }
  }

  /** Paints the cells of the disc in the column dx from the centre. */
  method DrawDiscColumn<T>(m: array2<T>, brush: T, center: Point, r: int, dx: int)
    requires -r <= dx <= r
    modifies m
    ensures forall x, y :: 0 <= x < m.Length0 && 0 <= y < m.Length1 ==>
      m[x, y] == if x - center.x == dx && InDisc(dx, y - center.y, r) then brush else old(m[x, y])
  {
    var dy := -r;
    while dy <= r
      invariant -r <= dy
      invariant forall x, y :: 0 <= x < m.Length0 && 0 <= y < m.Length1 ==>
        m[x, y] == if x - center.x == dx && y - center.y < dy && InDisc(dx, y - center.y, r) then brush else old(m[x, y])
    {
      if dx * dx + dy * dy <= r * r {
        var paint := Point(center.x + dx, center.y + dy);
        if !(paint.x < 0 || paint.y < 0 || paint.x >= m.Length0 || paint.y >= m.Length1) {
          m[paint.x, paint.y] := brush;
        }
      }
      dy := dy + 1;
    }
  }
}
