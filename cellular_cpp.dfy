// The cellular-automaton half of the C++ map generator: the tile kinds, the
// random initial layout, the neighbour count, one smoothing step, the
// smoothing driver of `generateMap`, and obstacle placement.
//
// Unlike the JavaScript version, one C++ step reads each cell's state from
// the snapshot `REF_MAP` but counts its neighbours on the live map, so the
// cells updated earlier in the sweep (column by column, top to bottom) feed
// into the counts of later ones. `random()` is not modelled: its values are
// injected, one per cell, as a grid of the map's shape.

module CellularCpp {
  import opened Grid
  import opened Automaton
  import opened GameMap

  /**
   * The tile kinds the generator writes. The declaration of `ETileType` is
   * not part of this model, so which value a zero-filled map holds is the
   * map's `zero`.
   */
  datatype Tile = Free | Restricted | Safe | Obstacle | SpawnPoint

  /** The generator's members and the constructor's defaults for them. */
  datatype Settings = Settings(birthRate: nat, deathLimit: nat, initialChance: real, iterations: int,
                               maxIterations: nat, passageRadius: int, obstacleChance: real)

  const Defaults := Settings(4, 3, 0.55, -1, 25, 1, 0.25)

  // ---------------------------------------------------------------- initial map

  /**
   * `createInitialMap`: a zero-filled w by h map in which a cell becomes
   * Free when its roll is at most `initialChance` (the opposite sense to the
   * JavaScript draw); every other cell keeps the zero tile.
   */
  method CreateInitialMap(w: nat, h: nat, zero: Tile, rolls: seq<seq<real>>, initialChance: real) returns (m: Map<Tile>)
    requires IsRect(rolls, w, h)
    ensures fresh(m) && fresh(m.data) && m.Valid() && m.width == w && m.height == h && m.zero == zero
    ensures forall x, y :: 0 <= x < w && 0 <= y < h ==>
      m.data[x, y] == (if rolls[x][y] <= initialChance then Free else zero)
  {
    m := new Map.Sized(zero, w, h);
    var x := 0;
    while x < w
      invariant 0 <= x <= w
      invariant m.Valid() && m.width == w && m.height == h && fresh(m.data)
      invariant forall i, j :: 0 <= i < w && 0 <= j < h ==>
        m.data[i, j] == (if i < x && rolls[i][j] <= initialChance then Free else zero)
    {
      var y := 0;
      while y < h
        invariant 0 <= y <= h
        invariant m.Valid() && m.width == w && m.height == h && fresh(m.data)
        invariant forall i, j :: 0 <= i < w && 0 <= j < h ==>
          m.data[i, j] == (if (i < x || (i == x && j < y)) && rolls[i][j] <= initialChance then Free else zero)
      {
        if rolls[x][y] <= initialChance {
          m.data[x, y] := Free;
        }
        y := y + 1;
      }
      x := x + 1;
    }
  }

  // ---------------------------------------------------------- neighbour count

  /**
   * `countAliveNeighbours`: the Free tiles among the on-map neighbours of p,
   * p itself excluded.
   */
  method CountAliveNeighbours(p: Point, m: Map<Tile>) returns (alive: nat)
    requires m.Valid()
    ensures alive == NeighbourCount(m.Cells(), Free, p.x, p.y)
  {
    ghost var g := m.Cells();
    alive := 0;
    var x := p.x - 1;
    while x <= p.x + 1
      invariant p.x - 1 <= x <= p.x + 2
      invariant alive == WindowSum(g, Free, p.x, p.y, x)
    {
      var y := p.y - 1;
      while y <= p.y + 1
        invariant p.y - 1 <= y <= p.y + 2
        invariant alive == WindowSum(g, Free, p.x, p.y, x) + ColumnSum(g, Free, p.x, p.y, x, y)
      {
        if x < 0 || y < 0 || x >= m.Width() || y >= m.Height() {
        } else if x == p.x && y == p.y {
        } else if m.data[x, y] == Free {
          alive := alive + 1;
        }
        y := y + 1;
      }
      x := x + 1;
    }
    WindowIsNeighbours(g, Free, p.x, p.y);
  }

  // ------------------------------------------------------------- one step

  /** The rule for a tile in `state` with n live neighbours. */
  function NextTile(state: Tile, n: nat, birthRate: nat, deathLimit: nat): Tile
  {
    if state == Free then (if n < deathLimit then Restricted else Free)
    else (if n > birthRate then Free else state)
  }

  /** A grid of ref's shape. */
  predicate Shaped(g: seq<seq<Tile>>, ref: seq<seq<Tile>>)
  {
    IsRect(ref, |ref|, Height(ref)) && IsRect(g, |ref|, Height(ref))
  }

  /** g with the tile at (x, y) replaced by t. */
  function Put(g: seq<seq<Tile>>, x: nat, y: nat, t: Tile): seq<seq<Tile>>
    requires x < |g| && y < |g[x]|
  {
    g[x := g[x][y := t]]
  }

  /**
   * Column x of cur with its cells 0 .. yEnd - 1 updated in order: each
   * takes the rule applied to its state in ref and its neighbour count on
   * the map as updated so far.
   */
  function SweepColumn(ref: seq<seq<Tile>>, cur: seq<seq<Tile>>, x: nat, yEnd: nat, birthRate: nat, deathLimit: nat)
    : (r: seq<seq<Tile>>)
    requires Shaped(cur, ref) && x < |ref| && yEnd <= Height(ref)
    ensures Shaped(r, ref)
  {
    if yEnd == 0 then cur
    else
      var c := SweepColumn(ref, cur, x, yEnd - 1, birthRate, deathLimit);
      Put(c, x, yEnd - 1, NextTile(ref[x][yEnd - 1], NeighbourCount(c, Free, x, yEnd - 1), birthRate, deathLimit))
  }

  /** The map after the sweep has covered its first xEnd columns. */
  function Sweep(ref: seq<seq<Tile>>, xEnd: nat, birthRate: nat, deathLimit: nat): (r: seq<seq<Tile>>)
    requires IsRect(ref, |ref|, Height(ref)) && xEnd <= |ref|
    ensures Shaped(r, ref)
  {
    if xEnd == 0 then ref
    else SweepColumn(ref, Sweep(ref, xEnd - 1, birthRate, deathLimit), xEnd - 1, Height(ref), birthRate, deathLimit)
  }

  /** One whole C++ step. */
  function Step(ref: seq<seq<Tile>>, birthRate: nat, deathLimit: nat): (r: seq<seq<Tile>>)
    requires IsRect(ref, |ref|, Height(ref))
    ensures Shaped(r, ref)
  {
    Sweep(ref, |ref|, birthRate, deathLimit)
  }

  /** Tile (i, j) comes before tile (x, y) in the sweep order. */
  predicate Before(i: int, j: int, x: int, y: int)
  {
    i < x || (i == x && j < y)
  }

  /**
   * The map as it stands when the sweep reaches tile (x, y): the tiles
   * before it hold their values in fin, the others still those of ref.
   */
  function Mix(ref: seq<seq<Tile>>, fin: seq<seq<Tile>>, x: int, y: int): (r: seq<seq<Tile>>)
    requires Shaped(fin, ref)
    ensures Shaped(r, ref)
  {
    seq(|ref|, i requires 0 <= i < |ref| =>
      seq(Height(ref), j requires 0 <= j < Height(ref) => if Before(i, j, x, y) then fin[i][j] else ref[i][j]))
  }

  /**
   * `simulateStep`: the map becomes the sweep of its old contents and the
   * result is the number of tiles that changed.
   */
  method SimulateStep(m: Map<Tile>, birthRate: nat, deathLimit: nat) returns (modifyCount: nat)
    requires m.Valid()
    modifies m.data
    ensures m.Cells() == Step(old(m.Cells()), birthRate, deathLimit)
    ensures modifyCount == Changed(old(m.Cells()), m.Cells())
  {
    ghost var ref := m.Cells();
    var refMap := CopyOf(m);
    ghost var fin := Step(ref, birthRate, deathLimit);
    modifyCount := SweepColumns(m, refMap, birthRate, deathLimit, ref, fin);
  }

  /** The loop over the columns, from left to right. */
  method SweepColumns(m: Map<Tile>, refMap: Map<Tile>, birthRate: nat, deathLimit: nat,
                      ghost ref: seq<seq<Tile>>, ghost fin: seq<seq<Tile>>) returns (modifyCount: nat)
    requires m.Valid() && refMap.Valid() && refMap.Cells() == ref && refMap.data != m.data
    requires m.Cells() == ref && fin == Step(ref, birthRate, deathLimit)
    modifies m.data
    ensures m.Cells() == fin
    ensures modifyCount == Changed(ref, fin)
  {
    MixNone(ref, fin);
    modifyCount := 0;
    var width := m.Width();
    var x := 0;
    while x < width
      modifies m.data
      invariant 0 <= x <= width == |ref|
      invariant m.Cells() == Mix(ref, fin, x, 0)
      invariant modifyCount == Changes(ref, fin, x)
    {
      var columnCount := SweepColumnOf(m, refMap, x, birthRate, deathLimit, ref, fin);
      assert Changes(ref, fin, x + 1) == Changes(ref, fin, x) + ColumnChanges(ref[x], fin[x]);
      modifyCount := modifyCount + columnCount;
      x := x + 1;
    }
    MixAll(ref, fin);
  }

  /** The rule applied down column x, each count taken on the live map. */
  method SweepColumnOf(m: Map<Tile>, refMap: Map<Tile>, x: nat, birthRate: nat, deathLimit: nat,
                       ghost ref: seq<seq<Tile>>, ghost fin: seq<seq<Tile>>) returns (count: nat)
    requires m.Valid() && refMap.Valid() && refMap.Cells() == ref && refMap.data != m.data
    requires IsRect(ref, m.width, m.height) && fin == Step(ref, birthRate, deathLimit) && x < m.width
    requires m.Cells() == Mix(ref, fin, x, 0)
    modifies m.data
    ensures m.Cells() == Mix(ref, fin, x + 1, 0)
    ensures count == ColumnChanges(ref[x], fin[x])
  {
    count := 0;
    var height := m.Height();
    var y := 0;
    while y < height
      modifies m.data
      invariant 0 <= y <= height
      invariant m.Cells() == Mix(ref, fin, x, y)
      invariant count == ColumnChanges(ref[x][..y], fin[x][..y])
    {
      ColumnChangesStep(ref[x], fin[x], y);
      count := SweepCell(m, refMap, x, y, birthRate, deathLimit, count, ref, fin);
      y := y + 1;
    }
    MixColumnEnd(ref, fin, x);
    assert ref[x][..height] == ref[x] && fin[x][..height] == fin[x];
  }

  /** The rule applied to tile (x, y): state from the snapshot, count from the live map. */
  method SweepCell(m: Map<Tile>, refMap: Map<Tile>, x: nat, y: nat, birthRate: nat, deathLimit: nat, count: nat,
                   ghost ref: seq<seq<Tile>>, ghost fin: seq<seq<Tile>>) returns (count': nat)
    requires m.Valid() && refMap.Valid() && refMap.Cells() == ref && refMap.data != m.data
    requires IsRect(ref, m.width, m.height) && fin == Step(ref, birthRate, deathLimit) && x < m.width && y < m.height
    requires m.Cells() == Mix(ref, fin, x, y)
    modifies m.data
    ensures m.Cells() == Mix(ref, fin, x, y + 1)
    ensures count' == count + (if ref[x][y] != fin[x][y] then 1 else 0)
  {
    SweepCharacterized(ref, birthRate, deathLimit, x, y);
    MixStep(ref, fin, x, y);
    count' := count;
    var aliveNeighbours := CountAliveNeighbours(Point(x, y), m);
    if refMap.data[x, y] == Free {
      if aliveNeighbours < deathLimit {
        count' := count' + 1;
        Write(m.data, x, y, Restricted);
      }
    } else {
      if aliveNeighbours > birthRate {
        count' := count' + 1;
        Write(m.data, x, y, Free);
      }
    }
    if count' == count {
      assert Mix(ref, fin, x, y)[x][y := fin[x][y]] == Mix(ref, fin, x, y)[x];
    }
  }

  /** Before the sweep every tile is still the snapshot's. */
  lemma MixNone(ref: seq<seq<Tile>>, fin: seq<seq<Tile>>)
    requires Shaped(fin, ref)
    ensures Mix(ref, fin, 0, 0) == ref
  {
    SameCells(Mix(ref, fin, 0, 0), ref);
  }

  /** After the last column every tile is the result's. */
  lemma MixAll(ref: seq<seq<Tile>>, fin: seq<seq<Tile>>)
    requires Shaped(fin, ref)
    ensures Mix(ref, fin, |ref|, 0) == fin
  {
    SameCells(Mix(ref, fin, |ref|, 0), fin);
  }

  /** The end of column x is the start of column x + 1. */
  lemma MixColumnEnd(ref: seq<seq<Tile>>, fin: seq<seq<Tile>>, x: nat)
    requires Shaped(fin, ref)
    ensures Mix(ref, fin, x, Height(ref)) == Mix(ref, fin, x + 1, 0)
  {
    SameCells(Mix(ref, fin, x, Height(ref)), Mix(ref, fin, x + 1, 0));
  }

  /** Advancing past tile (x, y) writes its final value there and nowhere else. */
  lemma MixStep(ref: seq<seq<Tile>>, fin: seq<seq<Tile>>, x: nat, y: nat)
    requires Shaped(fin, ref) && x < |ref| && y < Height(ref)
    ensures Mix(ref, fin, x, y + 1) == Put(Mix(ref, fin, x, y), x, y, fin[x][y])
  {
    SameCells(Mix(ref, fin, x, y + 1), Put(Mix(ref, fin, x, y), x, y, fin[x][y]));
  }

  // ------------------------------------------------------------- the sweep's meaning

  /**
   * Every tile of the step's result is the rule applied to its state before
   * the step and to its neighbour count on the map as it stood at its turn:
   * the tiles before it already updated, the others not yet.
   */
  lemma SweepCharacterized(ref: seq<seq<Tile>>, birthRate: nat, deathLimit: nat, x: nat, y: nat)
    requires IsRect(ref, |ref|, Height(ref)) && x < |ref| && y < Height(ref)
    ensures var fin := Step(ref, birthRate, deathLimit);
      fin[x][y] == NextTile(ref[x][y], NeighbourCount(Mix(ref, fin, x, y), Free, x, y), birthRate, deathLimit)
  {
    var fin := Step(ref, birthRate, deathLimit);
    var before := Sweep(ref, x, birthRate, deathLimit);
    var c := SweepColumn(ref, before, x, y, birthRate, deathLimit);
    FinalIsTurnValue(ref, birthRate, deathLimit, x, y);
    forall i, j | 0 <= i < |ref| && 0 <= j < Height(ref)
      ensures c[i][j] == Mix(ref, fin, x, y)[i][j]
    {
      if Before(i, j, x, y) {
        if i < x {
          SweepColumnKeeps(ref, before, x, y, birthRate, deathLimit, i, j);
          SweepKeepsDone(ref, birthRate, deathLimit, i, x);
          SweepKeepsDone(ref, birthRate, deathLimit, i, |ref|);
        } else {
          SweepColumnSettles(ref, before, x, y, j, birthRate, deathLimit);
          FinalIsTurnValue(ref, birthRate, deathLimit, x, j);
        }
      } else {
        SweepColumnKeeps(ref, before, x, y, birthRate, deathLimit, i, j);
        SweepLeavesLaterColumns(ref, x, birthRate, deathLimit);
      }
    }
    SameCells(c, Mix(ref, fin, x, y));
  }

  /** A tile swept in column x keeps the value it took at its turn. */
  lemma {:induction false} SweepColumnSettles(ref: seq<seq<Tile>>, cur: seq<seq<Tile>>, x: nat, yEnd: nat, j: nat,
                                              birthRate: nat, deathLimit: nat)
    requires Shaped(cur, ref) && x < |ref| && j < yEnd <= Height(ref)
    ensures SweepColumn(ref, cur, x, yEnd, birthRate, deathLimit)[x][j]
         == SweepColumn(ref, cur, x, j + 1, birthRate, deathLimit)[x][j]
  {
    if yEnd > j + 1 {
      SweepColumnSettles(ref, cur, x, yEnd - 1, j, birthRate, deathLimit);
    }
  }

  /** Once column i is swept, sweeping later columns leaves it alone. */
  lemma {:induction false} SweepKeepsDone(ref: seq<seq<Tile>>, birthRate: nat, deathLimit: nat, i: nat, xEnd: nat)
    requires IsRect(ref, |ref|, Height(ref)) && i < xEnd <= |ref|
    ensures Sweep(ref, xEnd, birthRate, deathLimit)[i] == Sweep(ref, i + 1, birthRate, deathLimit)[i]
  {
    if xEnd > i + 1 {
      SweepKeepsDone(ref, birthRate, deathLimit, i, xEnd - 1);
      var prev := Sweep(ref, xEnd - 1, birthRate, deathLimit);
      forall j | 0 <= j < Height(ref)
        ensures Sweep(ref, xEnd, birthRate, deathLimit)[i][j] == prev[i][j]
      {
        SweepColumnKeeps(ref, prev, xEnd - 1, Height(ref), birthRate, deathLimit, i, j);
      }
      SameColumn(Sweep(ref, xEnd, birthRate, deathLimit)[i], prev[i]);
    }
  }

  /** The step's tile (i, j) is the value the sweep gave it at its turn. */
  lemma FinalIsTurnValue(ref: seq<seq<Tile>>, birthRate: nat, deathLimit: nat, i: nat, j: nat)
    requires IsRect(ref, |ref|, Height(ref)) && i < |ref| && j < Height(ref)
    ensures Step(ref, birthRate, deathLimit)[i][j]
         == SweepColumn(ref, Sweep(ref, i, birthRate, deathLimit), i, j + 1, birthRate, deathLimit)[i][j]
  {
    SweepKeepsDone(ref, birthRate, deathLimit, i, |ref|);
    SweepColumnSettles(ref, Sweep(ref, i, birthRate, deathLimit), i, Height(ref), j, birthRate, deathLimit);
  }

  /** Sweeping column x up to row yEnd leaves tile (i, j) alone unless it is one of the swept cells. */
  lemma {:induction false} SweepColumnKeeps(ref: seq<seq<Tile>>, cur: seq<seq<Tile>>, x: nat, yEnd: nat,
                                            birthRate: nat, deathLimit: nat, i: nat, j: nat)
    requires Shaped(cur, ref) && x < |ref| && yEnd <= Height(ref)
    requires i < |ref| && j < Height(ref) && (i != x || j >= yEnd)
    ensures SweepColumn(ref, cur, x, yEnd, birthRate, deathLimit)[i][j] == cur[i][j]
  {
    if yEnd > 0 {
      SweepColumnKeeps(ref, cur, x, yEnd - 1, birthRate, deathLimit, i, j);
    }
  }

  /** The first xEnd columns of the sweep leave every later column as it was. */
  lemma {:induction false} SweepLeavesLaterColumns(ref: seq<seq<Tile>>, xEnd: nat, birthRate: nat, deathLimit: nat)
    requires IsRect(ref, |ref|, Height(ref)) && xEnd <= |ref|
    ensures forall i :: xEnd <= i < |ref| ==> Sweep(ref, xEnd, birthRate, deathLimit)[i] == ref[i]
  {
    if xEnd > 0 {
      SweepLeavesLaterColumns(ref, xEnd - 1, birthRate, deathLimit);
      var prev := Sweep(ref, xEnd - 1, birthRate, deathLimit);
      forall i | xEnd <= i < |ref|
        ensures Sweep(ref, xEnd, birthRate, deathLimit)[i] == ref[i]
      {
        forall j | 0 <= j < Height(ref)
          ensures Sweep(ref, xEnd, birthRate, deathLimit)[i][j] == ref[i][j]
        {
          SweepColumnKeeps(ref, prev, xEnd - 1, Height(ref), birthRate, deathLimit, i, j);
        }
        SameColumn(Sweep(ref, xEnd, birthRate, deathLimit)[i], ref[i]);
      }
    }
  }

  lemma SameColumn(a: seq<Tile>, b: seq<Tile>)
    requires |a| == |b| && forall j :: 0 <= j < |a| ==> a[j] == b[j]
    ensures a == b
  {
  }
  // ---------------------------------------------------- the simultaneous rule

  /** The rule applied to every tile at once, all counts taken on g. */
  function StepTiles(g: seq<seq<Tile>>, birthRate: nat, deathLimit: nat): (r: seq<seq<Tile>>)
    requires IsRect(g, |g|, Height(g))
    ensures Shaped(r, g)
  {
    seq(|g|, x requires 0 <= x < |g| =>
      seq(Height(g), y requires 0 <= y < Height(g) => NextTile(g[x][y], NeighbourCount(g, Free, x, y), birthRate, deathLimit)))
  }

  /**
   * Reading counts from the live map changes which maps a step reaches, but
   * not which maps a step leaves alone: a map is a fixed point of the sweep
   * exactly when it is one of the simultaneous rule.
   */
  lemma SweepFixedPoint(g: seq<seq<Tile>>, birthRate: nat, deathLimit: nat)
    requires IsRect(g, |g|, Height(g))
    ensures Step(g, birthRate, deathLimit) == g <==> StepTiles(g, birthRate, deathLimit) == g
  {
    if Step(g, birthRate, deathLimit) == g {
      forall x, y | 0 <= x < |g| && 0 <= y < Height(g)
        ensures StepTiles(g, birthRate, deathLimit)[x][y] == g[x][y]
      {
        SweepCharacterized(g, birthRate, deathLimit, x, y);
        SameCells(Mix(g, g, x, y), g);
      }
      SameCells(StepTiles(g, birthRate, deathLimit), g);
    }
    if StepTiles(g, birthRate, deathLimit) == g {
      forall x, y | 0 <= x < |g| && 0 <= y < Height(g)
        ensures NextTile(g[x][y], NeighbourCount(g, Free, x, y), birthRate, deathLimit) == g[x][y]
      {
        assert StepTiles(g, birthRate, deathLimit)[x][y] == g[x][y];
      }
      SweepOfFixedPoint(g, |g|, birthRate, deathLimit);
    }
  }

  /** Every tile of g is its own image under the rule, counts taken on g. */
  predicate Stable(g: seq<seq<Tile>>, birthRate: nat, deathLimit: nat)
    requires IsRect(g, |g|, Height(g))
  {
    forall x, y {:trigger NeighbourCount(g, Free, x, y)} :: 0 <= x < |g| && 0 <= y < Height(g) ==>
      NextTile(g[x][y], NeighbourCount(g, Free, x, y), birthRate, deathLimit) == g[x][y]
  }

  /** A stable map survives every partial sweep. */
  lemma {:induction false} SweepOfFixedPoint(g: seq<seq<Tile>>, xEnd: nat, birthRate: nat, deathLimit: nat)
    requires IsRect(g, |g|, Height(g)) && xEnd <= |g| && Stable(g, birthRate, deathLimit)
    ensures Sweep(g, xEnd, birthRate, deathLimit) == g
  {
    if xEnd > 0 {
      SweepOfFixedPoint(g, xEnd - 1, birthRate, deathLimit);
      SweepColumnOfFixedPoint(g, xEnd - 1, Height(g), birthRate, deathLimit);
    }
  }

  lemma {:induction false} SweepColumnOfFixedPoint(g: seq<seq<Tile>>, x: nat, yEnd: nat, birthRate: nat, deathLimit: nat)
    requires IsRect(g, |g|, Height(g)) && x < |g| && yEnd <= Height(g) && Stable(g, birthRate, deathLimit)
    ensures SweepColumn(g, g, x, yEnd, birthRate, deathLimit) == g
  {
    if yEnd > 0 {
      SweepColumnOfFixedPoint(g, x, yEnd - 1, birthRate, deathLimit);
      var y := yEnd - 1;
      var c := SweepColumn(g, g, x, y, birthRate, deathLimit);
      assert SweepColumn(g, g, x, yEnd, birthRate, deathLimit)
          == Put(c, x, y, NextTile(g[x][y], NeighbourCount(c, Free, x, y), birthRate, deathLimit));
      assert NextTile(g[x][y], NeighbourCount(c, Free, x, y), birthRate, deathLimit) == g[x][y];
      assert g[x][y := g[x][y]] == g[x];
    }
  }

  /**
   * A step only moves tiles the way the rule allows: a Free tile may become
   * Restricted, any other tile may become Free, and nothing else changes.
   */
  lemma StepChangesByRule(ref: seq<seq<Tile>>, birthRate: nat, deathLimit: nat, x: nat, y: nat)
    requires IsRect(ref, |ref|, Height(ref)) && x < |ref| && y < Height(ref)
    ensures var t := Step(ref, birthRate, deathLimit)[x][y];
      t == ref[x][y] || (ref[x][y] == Free && t == Restricted) || (ref[x][y] != Free && t == Free)
  {
    SweepCharacterized(ref, birthRate, deathLimit, x, y);
  }

  // ------------------------------------------------------------- smoothing

  /** The map after k steps. */
  function Iterate(g: seq<seq<Tile>>, k: nat, birthRate: nat, deathLimit: nat): (r: seq<seq<Tile>>)
    requires IsRect(g, |g|, Height(g))
    ensures Shaped(r, g) && Height(r) == Height(g)
  {
    if k == 0 then g else Step(Iterate(g, k - 1, birthRate, deathLimit), birthRate, deathLimit)
  }

  /** The number of tiles that each of the first n steps changes. */
  function ModCounts(g: seq<seq<Tile>>, n: nat, birthRate: nat, deathLimit: nat): (r: seq<nat>)
    requires IsRect(g, |g|, Height(g))
    ensures |r| == n
  {
    if n == 0 then []
    else
      ModCounts(g, n - 1, birthRate, deathLimit) +
      [Changed(Iterate(g, n - 1, birthRate, deathLimit), Iterate(g, n, birthRate, deathLimit))]
  }

  /**
   * A step that changes nothing has reached a fixed point, so every later
   * step changes nothing either.
   */
  lemma QuietStepRepeats(g: seq<seq<Tile>>, k: nat, birthRate: nat, deathLimit: nat)
    requires IsRect(g, |g|, Height(g))
    requires Changed(Iterate(g, k, birthRate, deathLimit), Iterate(g, k + 1, birthRate, deathLimit)) == 0
    ensures Changed(Iterate(g, k + 1, birthRate, deathLimit), Iterate(g, k + 2, birthRate, deathLimit)) == 0
  {
    var a := Iterate(g, k, birthRate, deathLimit);
    var b := Iterate(g, k + 1, birthRate, deathLimit);
    UnchangedEqual(a, b, |a|);
    SameCells(a, b);
    NoChanges(b, |b|);
  }

  /**
   * The smoothing part of `generateMap`: exactly `iterations` steps when it
   * is not negative; otherwise steps until the change counts are `Settled`
   * within `maxIterations`. `counts` lists how many tiles each step changed.
   */
  method Smooth(m: Map<Tile>, s: Settings) returns (ghost counts: seq<nat>)
    requires m.Valid()
    modifies m.data
    ensures m.Valid()
    ensures m.Cells() == Iterate(old(m.Cells()), |counts|, s.birthRate, s.deathLimit)
    ensures counts == ModCounts(old(m.Cells()), |counts|, s.birthRate, s.deathLimit)
    ensures s.iterations >= 0 ==> |counts| == s.iterations
    ensures s.iterations < 0 ==> Settled(counts, s.maxIterations)
  {
    if s.iterations >= 0 {
      counts := RunSteps(m, s.iterations, s.birthRate, s.deathLimit);
    } else {
      counts := RunUntilSettled(m, s.maxIterations, s.birthRate, s.deathLimit);
    }
  }

  /** m holds the map k = |counts| steps after g, and counts are those steps' change counts. */
  ghost predicate Smoothed(m: Map<Tile>, g: seq<seq<Tile>>, counts: seq<nat>, birthRate: nat, deathLimit: nat)
    reads m, m.data
  {
    m.Valid() && IsRect(g, |g|, Height(g)) &&
    m.Cells() == Iterate(g, |counts|, birthRate, deathLimit) &&
    counts == ModCounts(g, |counts|, birthRate, deathLimit)
  }

  /** The fixed-count branch: `iterations` steps. */
  method RunSteps(m: Map<Tile>, iterations: nat, birthRate: nat, deathLimit: nat) returns (ghost counts: seq<nat>)
    requires m.Valid()
    modifies m.data
    ensures m.Valid()
    ensures m.Cells() == Iterate(old(m.Cells()), |counts|, birthRate, deathLimit)
    ensures counts == ModCounts(old(m.Cells()), |counts|, birthRate, deathLimit)
    ensures |counts| == iterations
  {
    ghost var g := m.Cells();
    counts := [];
    var i := 0;
    while i < iterations
      invariant i <= iterations && |counts| == i
      invariant Smoothed(m, g, counts, birthRate, deathLimit)
    {
      var modCount := Advance(m, birthRate, deathLimit, g, counts);
      counts := counts + [modCount];
      i := i + 1;
    }
  }

  /**
   * The settling branch: steps until one changes as many tiles as the step
   * before it, at most `maxIterations`. `lastModCount` starts at the `int`
   * conversion of `UINT_MAX`, -1, which no count equals.
   */
  method RunUntilSettled(m: Map<Tile>, maxIterations: nat, birthRate: nat, deathLimit: nat) returns (ghost counts: seq<nat>)
    requires m.Valid()
    modifies m.data
    ensures m.Valid()
    ensures m.Cells() == Iterate(old(m.Cells()), |counts|, birthRate, deathLimit)
    ensures counts == ModCounts(old(m.Cells()), |counts|, birthRate, deathLimit)
    ensures Settled(counts, maxIterations)
  {
    ghost var g := m.Cells();
    counts := [];
    var lastModCount: int := -1;
    var iterCount: nat := 0;
    ghost var stopped := false;
    while iterCount < maxIterations
      invariant iterCount <= maxIterations && |counts| == iterCount
      invariant Smoothed(m, g, counts, birthRate, deathLimit)
      invariant lastModCount == if iterCount == 0 then -1 else counts[iterCount - 1]
      invariant NoRepeat(counts)
    {
      var modCount := Advance(m, birthRate, deathLimit, g, counts);
      ghost var before := counts;
      counts := counts + [modCount];
      iterCount := iterCount + 1;
      var deltaMod := lastModCount - modCount;
      if deltaMod == 0 {
        SettledByRepeat(before, modCount, maxIterations);
        stopped := true;
        break;
      }
      NoRepeatExtend(before, modCount);
      lastModCount := modCount;
    }
    if !stopped {
      SettledAtLimit(counts, maxIterations);
    }
  }

  /** One `simulateStep` call, read as step k + 1 from the initial map g. */
  method Advance(m: Map<Tile>, birthRate: nat, deathLimit: nat, ghost g: seq<seq<Tile>>, ghost counts: seq<nat>)
    returns (modCount: nat)
    requires Smoothed(m, g, counts, birthRate, deathLimit)
    modifies m.data
    ensures Smoothed(m, g, counts + [modCount], birthRate, deathLimit)
  {
    modCount := SimulateStep(m, birthRate, deathLimit);
  }

  // ------------------------------------------------------------- obstacles

  /**
   * `placeObstacles`: a Free tile whose roll is at most `obstacleChance`
   * becomes an Obstacle; nothing else changes.
   */
  method PlaceObstacles(m: Map<Tile>, rolls: seq<seq<real>>, obstacleChance: real)
    requires m.Valid() && IsRect(rolls, m.width, m.height)
    modifies m.data
    ensures m.Valid()
    ensures forall x, y :: 0 <= x < m.width && 0 <= y < m.height ==>
      m.data[x, y] == (if old(m.data[x, y]) == Free && rolls[x][y] <= obstacleChance then Obstacle else old(m.data[x, y]))
  {
    var x := 0;
    while x < m.Width()
      invariant 0 <= x <= m.width
      invariant forall i, j :: 0 <= i < m.width && 0 <= j < m.height ==>
        m.data[i, j] == (if i < x && old(m.data[i, j]) == Free && rolls[i][j] <= obstacleChance then Obstacle else old(m.data[i, j]))
    {
      var y := 0;
      while y < m.Height()
        invariant 0 <= y <= m.height
        invariant forall i, j :: 0 <= i < m.width && 0 <= j < m.height ==>
          m.data[i, j] == (if Before(i, j, x, y) && old(m.data[i, j]) == Free && rolls[i][j] <= obstacleChance
                           then Obstacle else old(m.data[i, j]))
      {
        if m.data[x, y] == Free && rolls[x][y] <= obstacleChance {
          m.data[x, y] := Obstacle;
        }
        y := y + 1;
      }
      x := x + 1;
    }
  }
}
