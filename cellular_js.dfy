// The cellular-automaton half of the JavaScript map generator: the symbol
// registry, the random initial layout, the 8-neighbour count, one smoothing
// step, the smoothing driver of `generate`, and obstacle scattering.
//
// `Math.random()` is not modelled: every comparison against it is an
// injected draw, one boolean per cell, given as a grid of the map's shape.

module CellularJs {
  import opened Grid
  import opened Automaton
  import opened SeqSteps

  /**
   * The symbols a map cell holds: the four registry entries ("#", " ", "X",
   * "S") and the player spawn markers "1", "2", ...
   */
  datatype Symbol = Restricted | Free | Blocked | Safe | SpawnMark(player: nat)

  /** The registry strings of the four standard symbols. */
  function Glyph(s: Symbol): (g: string)
    requires !s.SpawnMark?
    ensures |g| == 1
  {
    match s
    case Restricted => "#"
    case Free => " "
    case Blocked => "X"
    case Safe => "S"
  }

  /** The registry maps distinct symbols to distinct strings. */
  lemma GlyphsDistinct(a: Symbol, b: Symbol)
    requires !a.SpawnMark? && !b.SpawnMark?
    ensures Glyph(a) == Glyph(b) <==> a == b
  {
  }

  /** The generation controls and the constructor's defaults for them. */
  datatype Settings = Settings(birthRate: int, deathLimit: int, iterations: int, maxSmoothing: int, passageSize: int)

  const Defaults := Settings(4, 3, -1, 25, 1)

  // ---------------------------------------------------------------- initial map

  /**
   * `createInitialMap`: a w by h map in which a cell is Free when its draw
   * (`Math.random() < 1 - initialChance`) succeeded and Restricted otherwise.
   */
  method CreateInitialMap(w: nat, h: nat, draws: seq<seq<bool>>) returns (m: array2<Symbol>)
    requires IsRect(draws, w, h)
    ensures fresh(m) && m.Length0 == w && m.Length1 == h
    ensures forall x, y :: 0 <= x < w && 0 <= y < h ==> m[x, y] == (if draws[x][y] then Free else Restricted)
  {
    m := new Symbol[w, h]((x, y) => Restricted);
    var x := 0;
    while x < w
      invariant 0 <= x <= w
      invariant forall i, j :: 0 <= i < w && 0 <= j < h ==>
        m[i, j] == (if i < x && draws[i][j] then Free else Restricted)
    {
      var y := 0;
      while y < h
        invariant 0 <= y <= h
        invariant forall i, j :: 0 <= i < w && 0 <= j < h ==>
          m[i, j] == (if (i < x || (i == x && j < y)) && draws[i][j] then Free else Restricted)
      {
        if draws[x][y] {
          m[x, y] := Free;
        }
        y := y + 1;
      }
      x := x + 1;
    }
  }

  // ---------------------------------------------------------- neighbour count

  /**
   * `countAliveNeighbours`: the Free cells among the on-map neighbours of
   * (px, py), the centre excluded; 0 on a map with no width or no height.
   */
  method CountAliveNeighbours(px: int, py: int, ref: array2<Symbol>) returns (alive: int)
    ensures alive == NeighbourCount(Cells(ref), Free, px, py)
  {
    ghost var g := Cells(ref);
    var width := ref.Length0;
    if width == 0 {
      return 0;
    }
    var height := ref.Length1;
    if height == 0 {
      return 0;
    }
    alive := 0;
    var x := px - 1;
    while x <= px + 1
      invariant px - 1 <= x <= px + 2
      invariant alive == WindowSum(g, Free, px, py, x)
    {
      var y := py - 1;
      while y <= py + 1
        invariant py - 1 <= y <= py + 2
        invariant alive == WindowSum(g, Free, px, py, x) + ColumnSum(g, Free, px, py, x, y)
      {
        if x < 0 || y < 0 || x >= width || y >= height {
        } else if x == px && y == py {
        } else if ref[x, y] == Free {
          alive := alive + 1;
        }
        y := y + 1;
      }
      x := x + 1;
    }
    WindowIsNeighbours(g, Free, px, py);
  }

  // ------------------------------------------------------------- one step

  /** The automaton rule for one cell, from the pre-step map g. */
  function NextSymbol(g: seq<seq<Symbol>>, x: int, y: int, birthRate: int, deathLimit: int): Symbol
    requires IsRect(g, |g|, Height(g)) && 0 <= x < |g| && 0 <= y < Height(g)
  {
    var n := NeighbourCount(g, Free, x, y);
    if g[x][y] == Free then
      (if n < deathLimit then Restricted else Free)
    else
      (if n > birthRate then Free else g[x][y])
  }

  /**
   * A cell of g is due to flip: a Free cell with fewer than deathLimit Free
   * neighbours, or any other cell with more than birthRate.
   */
  predicate DueToFlip(g: seq<seq<Symbol>>, x: int, y: int, birthRate: int, deathLimit: int)
    requires IsRect(g, |g|, Height(g)) && 0 <= x < |g| && 0 <= y < Height(g)
  {
    if g[x][y] == Free then NeighbourCount(g, Free, x, y) < deathLimit
    else NeighbourCount(g, Free, x, y) > birthRate
  }

  /** The map after one step: every cell follows the rule applied to the same pre-step map. */
  function Step(g: seq<seq<Symbol>>, birthRate: int, deathLimit: int): (r: seq<seq<Symbol>>)
    requires IsRect(g, |g|, Height(g))
    ensures IsRect(r, |g|, Height(g)) && Height(r) == Height(g)
  {
    seq(|g|, x requires 0 <= x < |g| =>
      seq(Height(g), y requires 0 <= y < Height(g) => NextSymbol(g, x, y, birthRate, deathLimit)))
  }

  /**
   * A step changes a cell exactly when it is due to flip, a Free cell only
   * to Restricted and any other cell only to Free.
   */
  lemma StepFlipsByRule(g: seq<seq<Symbol>>, birthRate: int, deathLimit: int, x: int, y: int)
    requires IsRect(g, |g|, Height(g)) && 0 <= x < |g| && 0 <= y < Height(g)
    ensures var r := Step(g, birthRate, deathLimit);
      (r[x][y] != g[x][y] <==> DueToFlip(g, x, y, birthRate, deathLimit))
      && (r[x][y] != g[x][y] ==> r[x][y] == (if g[x][y] == Free then Restricted else Free))
  {
  }

  /**
   * `simulateStep`: every cell is updated from a copy of the pre-step map,
   * so the new map is `Step` of the old one, and the result is the number
   * of cells that changed.
   */
  method SimulateStep(m: array2<Symbol>, birthRate: int, deathLimit: int) returns (modifyCount: nat)
    modifies m
    ensures Cells(m) == Step(old(Cells(m)), birthRate, deathLimit)
    ensures modifyCount == Changed(old(Cells(m)), Cells(m))
  {
    ghost var g := Cells(m);
    var width := m.Length0;
    var height := m.Length1;
    if width == 0 || height == 0 {
      SameCells(Step(g, birthRate, deathLimit), g);
      NoChanges(g, |g|);
      return 0;
    }
    var ref := Copy(m);
    modifyCount := StepColumns(m, ref, birthRate, deathLimit);
  }

  /**
   * The loop over the columns of `simulateStep`: every cell of m follows
   * the rule applied to the pre-step copy ref.
   */
  method StepColumns(m: array2<Symbol>, ref: array2<Symbol>, birthRate: int, deathLimit: int) returns (modifyCount: nat)
    requires ref != m && m.Length0 == ref.Length0 && m.Length1 == ref.Length1 && m.Length0 > 0
    requires forall i, j {:trigger m[i, j]} :: 0 <= i < m.Length0 && 0 <= j < m.Length1 ==> m[i, j] == ref[i, j]
    modifies m
    ensures Cells(m) == Step(Cells(ref), birthRate, deathLimit)
    ensures modifyCount == Changed(Cells(ref), Cells(m))
  {
    ghost var g := Cells(ref);
    ghost var next := Step(g, birthRate, deathLimit);
    modifyCount := 0;
    var x := 0;
    while x < m.Length0
      invariant 0 <= x <= m.Length0
      invariant Cells(ref) == g
      invariant SteppedBefore(m, g, next, x)
      invariant modifyCount == Changes(g, next, x)
    {
      modifyCount := StepColumn(m, ref, x, birthRate, deathLimit, modifyCount, g, next);
      x := x + 1;
    }
    SameCells(Cells(m), next);
  }

  /** The columns of m before x hold the stepped map next, the others the pre-step map g. */
  ghost predicate SteppedBefore(m: array2<Symbol>, g: seq<seq<Symbol>>, next: seq<seq<Symbol>>, x: int)
    reads m
  {
    IsRect(g, m.Length0, m.Length1) && IsRect(next, m.Length0, m.Length1) &&
    forall i, j {:trigger m[i, j]} :: 0 <= i < m.Length0 && 0 <= j < m.Length1 ==> m[i, j] == (if i < x then next[i][j] else g[i][j])
  }

  /**
   * The rule applied down column x of m, reading the pre-step copy ref;
   * `count` runs on from the changes in the columns before x.
   */
  method StepColumn(m: array2<Symbol>, ref: array2<Symbol>, x: int, birthRate: int, deathLimit: int, modifyCount: nat,
                    ghost g: seq<seq<Symbol>>, ghost next: seq<seq<Symbol>>) returns (count: nat)
    requires ref != m && Cells(ref) == g && m.Length0 == ref.Length0 && m.Length1 == ref.Length1
    requires m.Length0 > 0 && 0 <= x < m.Length0
    requires next == Step(g, birthRate, deathLimit)
    requires forall j {:trigger m[x, j]} :: 0 <= j < m.Length1 ==> m[x, j] == g[x][j]
    requires modifyCount == Changes(g, next, x)
    modifies m
    ensures forall i, j {:trigger m[i, j]} :: 0 <= i < m.Length0 && 0 <= j < m.Length1 ==> m[i, j] == (if i == x then next[i][j] else old(m[i, j]))
    ensures count == Changes(g, next, x + 1)
  {
    var height := m.Length1;
    count := modifyCount;
    var y := 0;
    while y < height
      invariant 0 <= y <= height
      invariant forall i, j {:trigger m[i, j]} :: 0 <= i < m.Length0 && i != x && 0 <= j < height ==> m[i, j] == old(m[i, j])
      invariant forall j {:trigger m[x, j]} :: 0 <= j < height ==> m[x, j] == (if j < y then next[x][j] else g[x][j])
      invariant count == modifyCount + ColumnChanges(g[x][..y], next[x][..y])
    {
      ColumnChangesStep(g[x], next[x], y);
      count := StepCell(m, ref, x, y, birthRate, deathLimit, count, g, next);
      y := y + 1;
    }
    assert g[x][..height] == g[x] && next[x][..height] == next[x];
  }

  /** The rule applied to cell (x, y) of m, counting the cell when it changes. */
  method StepCell(m: array2<Symbol>, ref: array2<Symbol>, x: int, y: int, birthRate: int, deathLimit: int, count: nat,
                  ghost g: seq<seq<Symbol>>, ghost next: seq<seq<Symbol>>) returns (count': nat)
    requires ref != m && Cells(ref) == g && m.Length0 == ref.Length0 && m.Length1 == ref.Length1
    requires 0 <= x < m.Length0 && 0 <= y < m.Length1 && m[x, y] == g[x][y]
    requires next == Step(g, birthRate, deathLimit)
    modifies m
    ensures m[x, y] == next[x][y]
    ensures forall i, j :: 0 <= i < m.Length0 && 0 <= j < m.Length1 && (i != x || j != y) ==> m[i, j] == old(m[i, j])
    ensures count' == count + (if g[x][y] != next[x][y] then 1 else 0)
  {
    count' := count;
    var aliveNeighbours := CountAliveNeighbours(x, y, ref);
    if ref[x, y] == Free {
      if aliveNeighbours < deathLimit {
        count' := count' + 1;
        m[x, y] := Restricted;
      }
    } else {
      if aliveNeighbours > birthRate {
        count' := count' + 1;
        m[x, y] := Free;
      }
    }
  }

  // ------------------------------------------------------------- smoothing

  /** The map after k steps. */
  function Iterate(g: seq<seq<Symbol>>, k: nat, birthRate: int, deathLimit: int): (r: seq<seq<Symbol>>)
    requires IsRect(g, |g|, Height(g))
    ensures IsRect(r, |g|, Height(g)) && Height(r) == Height(g)
  {
    if k == 0 then g else Step(Iterate(g, k - 1, birthRate, deathLimit), birthRate, deathLimit)
  }

  /** The number of cells that each of the first n steps changes. */
  function ModCounts(g: seq<seq<Symbol>>, n: nat, birthRate: int, deathLimit: int): (r: seq<nat>)
    requires IsRect(g, |g|, Height(g))
    ensures |r| == n
  {
    if n == 0 then []
    else
      ModCounts(g, n - 1, birthRate, deathLimit) +
      [Changed(Iterate(g, n - 1, birthRate, deathLimit), Iterate(g, n, birthRate, deathLimit))]
  }

  /**
   * A step that changes nothing reaches a fixed point, so the step after it
   * changes nothing either, and smoothing stops there.
   */
  lemma QuietStepRepeats(g: seq<seq<Symbol>>, k: nat, birthRate: int, deathLimit: int)
    requires IsRect(g, |g|, Height(g))
    requires Changed(Iterate(g, k, birthRate, deathLimit), Iterate(g, k + 1, birthRate, deathLimit)) == 0
    ensures Changed(Iterate(g, k + 1, birthRate, deathLimit), Iterate(g, k + 2, birthRate, deathLimit)) == 0
  {
    var a := Iterate(g, k, birthRate, deathLimit);
    var b := Iterate(g, k + 1, birthRate, deathLimit);
    UnchangedEqual(a, b, |a|);
    SameCells(a, b);
    NoChanges(b, |b|);
  }

  /**
   * The smoothing driver of `generate`: exactly `iterations` steps when it is
   * not negative; otherwise steps until the change counts are `Settled`.
   * `counts` lists how many cells each step changed.
   */
  method Smooth(m: array2<Symbol>, s: Settings) returns (ghost counts: seq<nat>)
    modifies m
    ensures Cells(m) == Iterate(old(Cells(m)), |counts|, s.birthRate, s.deathLimit)
    ensures counts == ModCounts(old(Cells(m)), |counts|, s.birthRate, s.deathLimit)
    ensures s.iterations >= 0 ==> |counts| == s.iterations
    ensures s.iterations < 0 ==> Settled(counts, s.maxSmoothing)
  {
    if s.iterations >= 0 {
      counts := RunSteps(m, s.iterations, s.birthRate, s.deathLimit);
    } else {
      counts := RunUntilSettled(m, s.maxSmoothing, s.birthRate, s.deathLimit);
    }
  }

  /** The fixed-count branch: `iterations` steps. */
  method RunSteps(m: array2<Symbol>, iterations: nat, birthRate: int, deathLimit: int) returns (ghost counts: seq<nat>)
    modifies m
    ensures Cells(m) == Iterate(old(Cells(m)), |counts|, birthRate, deathLimit)
    ensures counts == ModCounts(old(Cells(m)), |counts|, birthRate, deathLimit)
    ensures |counts| == iterations
  {
    ghost var g := Cells(m);
    counts := [];
    var i := 0;
    while i < iterations
      invariant 0 <= i <= iterations && |counts| == i
      invariant Cells(m) == Iterate(g, i, birthRate, deathLimit)
      invariant counts == ModCounts(g, |counts|, birthRate, deathLimit)
    {
      var modCount := Advance(m, birthRate, deathLimit, g, counts);
      counts := counts + [modCount];
      i := i + 1;
    }
  }

  /** The settling branch: steps until a step changes as many cells as the one before, at most `maxSmoothing`. */
  method RunUntilSettled(m: array2<Symbol>, maxSmoothing: int, birthRate: int, deathLimit: int) returns (ghost counts: seq<nat>)
    modifies m
    ensures Cells(m) == Iterate(old(Cells(m)), |counts|, birthRate, deathLimit)
    ensures counts == ModCounts(old(Cells(m)), |counts|, birthRate, deathLimit)
    ensures Settled(counts, maxSmoothing)
  {
    ghost var g := Cells(m);
    counts := [];
    // Number.MAX_VALUE: no step count equals it
    var lastModCount: Option<nat> := None;
    var iterCount := 0;
    ghost var stopped := false;
    while iterCount < maxSmoothing
      invariant 0 <= iterCount <= Max0(maxSmoothing) && |counts| == iterCount
      invariant Cells(m) == Iterate(g, iterCount, birthRate, deathLimit)
      invariant counts == ModCounts(g, |counts|, birthRate, deathLimit)
      invariant lastModCount == if iterCount == 0 then None else Some(counts[iterCount - 1])
      invariant NoRepeat(counts)
    {
      var modCount := Advance(m, birthRate, deathLimit, g, counts);
      ghost var before := counts;
      counts := counts + [modCount];
      iterCount := iterCount + 1;
      if lastModCount == Some(modCount) {
        SettledByRepeat(before, modCount, maxSmoothing);
        stopped := true;
        break;
      }
      NoRepeatExtend(before, modCount);
      lastModCount := Some(modCount);
    }
    if !stopped {
      SettledAtLimit(counts, maxSmoothing);
    }
  }

  /** One `simulateStep` call, read as step k + 1 from the initial map g. */
  method Advance(m: array2<Symbol>, birthRate: int, deathLimit: int, ghost g: seq<seq<Symbol>>, ghost counts: seq<nat>)
    returns (modCount: nat)
    requires IsRect(g, |g|, Height(g)) && Cells(m) == Iterate(g, |counts|, birthRate, deathLimit)
    requires counts == ModCounts(g, |counts|, birthRate, deathLimit)
    modifies m
    ensures Cells(m) == Iterate(g, |counts| + 1, birthRate, deathLimit)
    ensures counts + [modCount] == ModCounts(g, |counts| + 1, birthRate, deathLimit)
  {
    modCount := SimulateStep(m, birthRate, deathLimit);
  }

  // ------------------------------------------------------------- obstacles

  /**
   * `spawnObstacles`: a Free cell whose draw (`Math.random() <=
   * obstacleChance`) succeeds becomes Blocked; nothing else changes.
   */
  method SpawnObstacles(m: array2<Symbol>, draws: seq<seq<bool>>)
    requires IsRect(draws, m.Length0, m.Length1)
    modifies m
    ensures forall x, y :: 0 <= x < m.Length0 && 0 <= y < m.Length1 ==>
      m[x, y] == (if old(m[x, y]) == Free && draws[x][y] then Blocked else old(m[x, y]))
  {
    var x := 0;
    while x < m.Length0
      invariant 0 <= x <= m.Length0
      invariant forall i, j :: 0 <= i < m.Length0 && 0 <= j < m.Length1 ==>
        m[i, j] == (if i < x && old(m[i, j]) == Free && draws[i][j] then Blocked else old(m[i, j]))
    {
      var y := 0;
      while y < m.Length1
        invariant 0 <= y <= m.Length1
        invariant forall i, j :: 0 <= i < m.Length0 && 0 <= j < m.Length1 ==>
          m[i, j] == (if (i < x || (i == x && j < y)) && old(m[i, j]) == Free && draws[i][j] then Blocked else old(m[i, j]))
      {
        if m[x, y] == Free && draws[x][y] {
          m[x, y] := Blocked;
        }
        y := y + 1;
      }
      x := x + 1;
    }
  }
}
