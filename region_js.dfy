// The JavaScript `Region`: one group of connected free cells, with the map
// size it lies on, its centre of mass, a hit map of its cells, the cells on
// its edge and, after `analyseDepth`, a depth for every cell.
//
// The hit map and depth map are arrays of columns created on demand. Here the
// hit map is a map from a column index to the rows marked "X" in it, so that
// whether a column exists stays visible: reading a row of a column that does
// not exist is a TypeError in `analyseDepth`. The depth map is a map from a
// coordinate to its depth. The list of linked regions is kept by the linking
// pass (module LinkRegions), not here.

module RegionJs {

  import opened SeqSteps
  import opened Grid
  import FloodFill

  /** `center` after `divSet(coordinates.length)`: the mean, or NaN for no coordinates (0 / 0). */
  datatype Centre = Mean(x: real, y: real) | NaN

  function SumX(cs: seq<Point>): int
  {
    if |cs| == 0 then 0 else SumX(cs[..|cs| - 1]) + cs[|cs| - 1].x
  }

  function SumY(cs: seq<Point>): int
  {
    if |cs| == 0 then 0 else SumY(cs[..|cs| - 1]) + cs[|cs| - 1].y
  }

  /** The centre of mass of cs. */
  function CentreOf(cs: seq<Point>): Centre
  {
    if |cs| == 0 then NaN else Mean(SumX(cs) as real / |cs| as real, SumY(cs) as real / |cs| as real)
  }

  /** Row y of column x is marked "X". */
  predicate Marked(hm: map<int, set<int>>, p: Point)
  {
    p.x in hm && p.y in hm[p.x]
  }

  /** The marks of hm are exactly the coordinates cs. */
  ghost predicate MarksExactly(hm: map<int, set<int>>, cs: seq<Point>)
  {
    forall p :: Marked(hm, p) <==> p in cs
  }

  predicate OnBorder(c: Point, w: int, h: int)
  {
    c.x == 0 || c.x == w - 1 || c.y == 0 || c.y == h - 1
  }

  /** A 4-neighbour of c lies on the map and outside the region cs. */
  predicate TouchesOutside(c: Point, cs: seq<Point>, w: int, h: int)
  {
    exists q :: q in FloodFill.Neighbours4(c) && InBounds(q, w, h) && q !in cs
  }

  /** An edge cell: on the map's border, or next to a map cell outside the region. */
  predicate IsEdge(c: Point, cs: seq<Point>, w: int, h: int)
  {
    OnBorder(c, w, h) || TouchesOutside(c, cs, w, h)
  }

  /** The edge cells of the prefix, in the order of cs. */
  function EdgesOf(prefix: seq<Point>, cs: seq<Point>, w: int, h: int): seq<Point>
  {
    if |prefix| == 0 then []
    else
      var c := prefix[|prefix| - 1];
      EdgesOf(prefix[..|prefix| - 1], cs, w, h) + (if IsEdge(c, cs, w, h) then [c] else [])
  }

  /** The first offset (of the four) that lies on the map outside the region, or 4. */
  function FirstOutside(c: Point, cs: seq<Point>, w: int, h: int, k: nat): (r: nat)
    requires k <= 4
    ensures k <= r <= 4
    decreases 4 - k
  {
    if k == 4 then 4
    else
      var q := FloodFill.Neighbours4(c)[k];
      if InBounds(q, w, h) && q !in cs then k else FirstOutside(c, cs, w, h, k + 1)
  }

  /** The columns of the offsets 0 .. k - 1 of c that lie on the map. */
  function ColumnsTried(c: Point, w: int, h: int, k: nat): set<int>
    requires k <= 4
  {
    if k == 0 then {}
    else
      var q := FloodFill.Neighbours4(c)[k - 1];
      ColumnsTried(c, w, h, k - 1) + (if InBounds(q, w, h) then {q.x} else {})
  }

  /** The hit-map columns the edge test of c creates if missing: the on-map offsets up to the first one outside. */
  function Probed(c: Point, cs: seq<Point>, w: int, h: int): set<int>
  {
    var stop := FirstOutside(c, cs, w, h, 0);
    ColumnsTried(c, w, h, if stop < 4 then stop + 1 else 4)
  }

  /** The columns the edge tests of the prefix's non-border cells create if missing. */
  function AllProbed(prefix: seq<Point>, cs: seq<Point>, w: int, h: int): set<int>
  {
    if |prefix| == 0 then {}
    else
      var c := prefix[|prefix| - 1];
      AllProbed(prefix[..|prefix| - 1], cs, w, h) + (if OnBorder(c, w, h) then {} else Probed(c, cs, w, h))
  }

  /** The first loop: register every coordinate, add it to the sum and give it depth 0. */
  method Register(cs: seq<Point>) returns (hm: map<int, set<int>>, depth: map<Point, int>, sx: int, sy: int)
    ensures MarksExactly(hm, cs) && forall x :: x in hm ==> hm[x] != {}
    ensures forall p :: p in depth <==> p in cs
    ensures forall p :: p in depth ==> depth[p] == 0
    ensures sx == SumX(cs) && sy == SumY(cs)
  {
    hm, depth, sx, sy := map[], map[], 0, 0;
    var i := 0;
    while i < |cs|
      invariant 0 <= i <= |cs|
      invariant MarksExactly(hm, cs[..i]) && forall x :: x in hm ==> hm[x] != {}
      invariant forall p :: p in depth <==> p in cs[..i]
      invariant forall p :: p in depth ==> depth[p] == 0
      invariant sx == SumX(cs[..i]) && sy == SumY(cs[..i])
    {
      var c := cs[i];
      assert cs[..i + 1] == cs[..i] + [c] && cs[..i + 1][..i] == cs[..i];
      sx, sy := sx + c.x, sy + c.y;
      if c.x !in hm {
        hm := hm[c.x := {}];
      }
      hm := hm[c.x := hm[c.x] + {c.y}];
      depth := depth[c := 0];
      i := i + 1;
    }
    assert cs[..i] == cs;
  }

  /** The edge test of one cell off the border: try the four offsets, creating missing columns, until one is outside. */
  method TestEdge(hm: map<int, set<int>>, c: Point, ghost cs: seq<Point>, w: int, h: int)
      returns (found: bool, hm': map<int, set<int>>)
    requires MarksExactly(hm, cs)
    ensures found <==> TouchesOutside(c, cs, w, h)
    ensures MarksExactly(hm', cs)
    ensures hm'.Keys == hm.Keys + Probed(c, cs, w, h)
    ensures forall x :: x in hm ==> hm'[x] == hm[x]
    ensures forall x :: x in hm' && x !in hm ==> hm'[x] == {}
  {
    var offsets := FloodFill.Neighbours4(c);
    ghost var stop := FirstOutside(c, cs, w, h, 0);
    found, hm' := false, hm;
    var j := 0;
    while j < 4
      invariant 0 <= j <= stop && j <= 4
      invariant FirstOutside(c, cs, w, h, j) == stop
      invariant MarksExactly(hm', cs)
      invariant hm'.Keys == hm.Keys + ColumnsTried(c, w, h, j)
      invariant forall x :: x in hm ==> hm'[x] == hm[x]
      invariant forall x :: x in hm' && x !in hm ==> hm'[x] == {}
    {
      var q := offsets[j];
      if q.x < 0 || q.y < 0 || q.x >= w || q.y >= h {
        j := j + 1;
        continue;
      } else if q.x !in hm' {
        hm' := hm'[q.x := {}];
      }
      if q.y !in hm'[q.x] {
        found := true;
        assert q !in cs;
        j := j + 1;
        break;
      }
      assert q in cs;
      j := j + 1;
    }
    FirstOutsideMeaning(c, cs, w, h, 0);
  }

  /** FirstOutside finds an offset exactly when one exists. */
  lemma {:induction false} FirstOutsideMeaning(c: Point, cs: seq<Point>, w: int, h: int, k: nat)
    requires k <= 4
    ensures FirstOutside(c, cs, w, h, k) < 4 <==>
      exists j :: k <= j < 4 && InBounds(FloodFill.Neighbours4(c)[j], w, h) && FloodFill.Neighbours4(c)[j] !in cs
    decreases 4 - k
  {
    if k < 4 {
      FirstOutsideMeaning(c, cs, w, h, k + 1);
    }
  }

  /** The second loop: collect the edge cells, letting the edge tests create hit-map columns. */
  method FindEdges(cs: seq<Point>, hm: map<int, set<int>>, w: int, h: int) returns (edges: seq<Point>, hm': map<int, set<int>>)
    requires MarksExactly(hm, cs)
    ensures edges == EdgesOf(cs, cs, w, h)
    ensures MarksExactly(hm', cs)
    ensures hm'.Keys == hm.Keys + AllProbed(cs, cs, w, h)
    ensures forall x :: x in hm ==> hm'[x] == hm[x]
    ensures forall x :: x in hm' && x !in hm ==> hm'[x] == {}
  {
    edges, hm' := [], hm;
    var i := 0;
    while i < |cs|
      invariant 0 <= i <= |cs|
      invariant edges == EdgesOf(cs[..i], cs, w, h)
      invariant MarksExactly(hm', cs)
      invariant hm'.Keys == hm.Keys + AllProbed(cs[..i], cs, w, h)
      invariant forall x :: x in hm ==> hm'[x] == hm[x]
      invariant forall x :: x in hm' && x !in hm ==> hm'[x] == {}
    {
      var c := cs[i];
      assert cs[..i + 1][..i] == cs[..i] && cs[..i + 1][i] == c;
      if c.x == 0 || c.x == w - 1 || c.y == 0 || c.y == h - 1 {
        edges := edges + [c];
      } else {
        var found;
        found, hm' := TestEdge(hm', c, cs, w, h);
        if found {
          edges := edges + [c];
        }
      }
      i := i + 1;
    }
    assert cs[..i] == cs;
  }

  /** A position taken from the search list, with the entry that added it. */
  datatype Trace = Trace(pos: Point, parent: Option<Trace>)

  /** The number of steps back to the start of the search. */
  function Hops(t: Trace): nat
  {
    match t.parent
    case None => 0
    case Some(p) => 1 + Hops(p)
  }

  /** Following parents from t steps between 8-neighbours and ends at root. */
  predicate ChainTo(t: Trace, root: Point)
  {
    match t.parent
    case None => t.pos == root
    case Some(p) => Adjacent8(p.pos, t.pos) && ChainTo(p, root)
  }

  /** The eight neighbours, in the order `analyseDepth` tries them. */
  function Offsets8(p: Point): (ns: seq<Point>)
    ensures |ns| == 8
  {
    [Point(p.x - 1, p.y), Point(p.x + 1, p.y), Point(p.x, p.y - 1), Point(p.x, p.y + 1),
     Point(p.x - 1, p.y - 1), Point(p.x - 1, p.y + 1), Point(p.x + 1, p.y + 1), Point(p.x + 1, p.y - 1)]
  }

  /** On the map and off its border: all eight neighbours are on the map. */
  predicate Interior(p: Point, w: int, h: int)
  {
    1 <= p.x <= w - 2 && 1 <= p.y <= h - 2
  }

  /** Where a depth search stops: a cell outside the region, or a region cell with a neighbour off the map. */
  predicate StopsAt(hm: map<int, set<int>>, p: Point, w: int, h: int)
  {
    !Marked(hm, p) || !Interior(p, w, h)
  }

  /** Every position in the list. */
  function Positions(queue: seq<Trace>): set<Point>
  {
    set t | t in queue :: t.pos
  }

  /** The bookkeeping of one depth search that every step keeps. */
  ghost predicate Searching(root: Point, w: int, h: int, queue: seq<Trace>, searched: set<Point>,
                            expanded: set<Point>, queued: seq<Point>)
  {
    searched <= Rect(w, h) + {root} &&
    (forall u :: u in queue ==> u.pos in searched && ChainTo(u, root) && (u == Trace(root, None) || u.parent.Some?)) &&
    (forall e :: e in expanded ==> Interior(e, w, h) && forall k :: 0 <= k < 8 ==> Offsets8(e)[k] in searched) &&
    FloodFill.Distinct(queued) && (forall p :: p in searched <==> p in queued)
  }

  /**
   * The search from one cell: take positions breadth first, stop at one that
   * is not marked or whose neighbours leave the map, and queue each
   * unsearched neighbour with the current entry as its parent. A missing
   * column in the hit map throws. The list never runs empty: a search that
   * only met interior region cells would have to go on to the left forever.
   * The search is breadth first, so the stopping cell it ends at is one of the
   * nearest: no chain of neighbours from the root reaches a stopping cell in
   * fewer steps.
   */
  method Search(hm: map<int, set<int>>, root: Point, w: int, h: int)
      returns (current: Option<Trace>, thrown: bool, ghost queued: seq<Point>)
    requires Marked(hm, root)
    ensures current.Some? && ChainTo(current.value, root)
    ensures thrown ==> current.value.pos.x !in hm
    ensures !thrown ==> StopsAt(hm, current.value.pos, w, h)
    ensures !thrown && !Interior(root, w, h) ==> current.value == Trace(root, None)
    ensures !thrown && Interior(root, w, h) ==> current.value.parent.Some?
    ensures !thrown ==> forall s :: ChainTo(s, root) && StopsAt(hm, s.pos, w, h) ==> Hops(s) >= Hops(current.value)
    ensures FloodFill.Distinct(queued)
  {
    var rootTrace := Trace(root, None);
    var queue := [rootTrace];
    var searched := {root};
    ghost var expanded: set<Point> := {};
    ghost var level: map<Point, nat> := map[root := 0];
    ghost var lo: nat := 0;
    queued := [root];
    current := Some(rootTrace);
    thrown := false;
    while true
      invariant SearchLoop(hm, root, w, h, queue, searched, expanded, queued, level, lo)
      decreases |Rect(w, h) + {root} - searched|, |queue|
    {
      var t, stop;
      t, stop, thrown, queue, searched, queued, expanded, level, lo :=
        SearchPass(hm, root, w, h, queue, searched, queued, expanded, level, lo);
      current := Some(t);
      if stop {
        break;
      }
    }
  }

  /**
   * One pass of the search loop: take the entry at the front of the list, then
   * throw on a missing column, stop at a cell that is not marked or has a
   * neighbour off the map, or queue its unsearched neighbours.
   */
  method SearchPass(hm: map<int, set<int>>, root: Point, w: int, h: int, queue: seq<Trace>, searched: set<Point>,
                    ghost queued: seq<Point>, ghost expanded: set<Point>, ghost level: map<Point, nat>, ghost lo: nat)
      returns (t: Trace, stop: bool, thrown: bool, queue': seq<Trace>, searched': set<Point>, ghost queued': seq<Point>,
               ghost expanded': set<Point>, ghost level': map<Point, nat>, ghost lo': nat)
    requires Marked(hm, root) && SearchLoop(hm, root, w, h, queue, searched, expanded, queued, level, lo)
    ensures ChainTo(t, root) && FloodFill.Distinct(queued')
    ensures thrown ==> stop && t.pos.x !in hm
    ensures stop && !thrown ==> StopsAt(hm, t.pos, w, h)
    ensures stop && !thrown && !Interior(root, w, h) ==> t == Trace(root, None)
    ensures stop && !thrown && Interior(root, w, h) ==> t.parent.Some?
    ensures stop && !thrown ==> forall s :: ChainTo(s, root) && StopsAt(hm, s.pos, w, h) ==> Hops(s) >= Hops(t)
    ensures !stop ==> SearchLoop(hm, root, w, h, queue', searched', expanded', queued', level', lo')
    ensures !stop ==>
      |Rect(w, h) + {root} - searched'| < |Rect(w, h) + {root} - searched| ||
      (|Rect(w, h) + {root} - searched'| == |Rect(w, h) + {root} - searched| && |queue'| < |queue|)
  {
    t := queue[0];
    assert t in queue;
    SearchedAfterDequeue(searched, expanded, queue);
    queue', searched', queued', expanded', level', lo' := queue[1..], searched, queued, expanded, level, lo;
    stop, thrown := true, false;
    var pos := t.pos;
    if pos.x !in hm {
      thrown := true;
      return;
    }
    if pos.y !in hm[pos.x] {
      FrontNearest(hm, root, w, h, queue, searched, expanded, queued, level, lo);
      return;
    }
    var outOfBounds;
    outOfBounds, queue', searched', queued' := ExpandTrace(t, root, w, h, queue[1..], searched, expanded, queued);
    if outOfBounds {
      ExpandedNearest(hm, root, w, h, queue, searched, expanded, queued, level, lo, queue', searched');
      return;
    }
    stop := false;
    level' := SearchLoopStep(hm, root, w, h, queue, searched, expanded, queued, level, lo, queue', searched', queued');
    expanded', lo' := expanded + {pos}, Hops(t);
  }

  /** What every pass of the search loop keeps. */
  ghost predicate SearchLoop(hm: map<int, set<int>>, root: Point, w: int, h: int, queue: seq<Trace>, searched: set<Point>,
                             expanded: set<Point>, queued: seq<Point>, level: map<Point, nat>, lo: nat)
  {
    |queue| > 0 &&
    Searching(root, w, h, queue, searched, expanded, queued) &&
    (forall p :: p in searched ==> p in expanded || p in Positions(queue)) &&
    (expanded == {} ==> queue == [Trace(root, None)]) &&
    (expanded != {} ==> root in expanded && Interior(root, w, h)) &&
    Levelled(queue, searched, level, lo) &&
    root in level && level[root] == 0 &&
    ExpandedLevels(hm, w, h, expanded, level)
  }

  /** Expanding the entry taken from the front of the list keeps what the search loop keeps. */
  lemma SearchLoopStep(hm: map<int, set<int>>, root: Point, w: int, h: int, taken: seq<Trace>, searched: set<Point>,
                       expanded: set<Point>, queued: seq<Point>, level: map<Point, nat>, lo: nat,
                       queue': seq<Trace>, searched': set<Point>, queued': seq<Point>) returns (level': map<Point, nat>)
    requires SearchLoop(hm, root, w, h, taken, searched, expanded, queued, level, lo)
    requires Marked(hm, taken[0].pos)
    requires Interior(taken[0].pos, w, h) && forall k :: 0 <= k < 8 ==> Offsets8(taken[0].pos)[k] in searched'
    requires Searching(root, w, h, queue', searched', expanded, queued')
    requires forall p :: p in searched' ==> p in expanded || p == taken[0].pos || p in Positions(queue')
    requires |queue'| >= |taken| - 1 && queue'[..|taken| - 1] == taken[1..]
    requires searched <= searched'
    requires forall i :: |taken| - 1 <= i < |queue'| ==>
      Hops(queue'[i]) == Hops(taken[0]) + 1 && queue'[i].pos in searched' && queue'[i].pos !in searched
    ensures SearchLoop(hm, root, w, h, queue', searched', expanded + {taken[0].pos}, queued', level', Hops(taken[0]))
  {
    var t := taken[0];
    assert t in taken;
    level' := GrowLevels(level, searched, searched', Hops(t) + 1, taken[1..], queue');
    QueueStaysFull(root, w, h, queue', searched', expanded, queued', t.pos);
    LevelledAfterExpand(taken, queue', searched', level, level', lo);
    ExpandedLevelsStep(hm, w, h, expanded, level, level', t, searched', taken[1..], queue');
  }

  /** The entry at the front of the list is as near to the root as any stopping cell a chain reaches. */
  lemma FrontNearest(hm: map<int, set<int>>, root: Point, w: int, h: int, queue: seq<Trace>, searched: set<Point>,
                     expanded: set<Point>, queued: seq<Point>, level: map<Point, nat>, lo: nat)
    requires SearchLoop(hm, root, w, h, queue, searched, expanded, queued, level, lo)
    ensures forall s :: ChainTo(s, root) && StopsAt(hm, s.pos, w, h) ==> Hops(s) >= Hops(queue[0])
  {
    LevelsBehindFront(queue, searched, expanded, level, lo);
    FirstStopNearest(hm, root, w, h, expanded, level, Hops(queue[0]));
  }

  /** The same holds once the front entry was expanded, up to the offset that left the map. */
  lemma ExpandedNearest(hm: map<int, set<int>>, root: Point, w: int, h: int, taken: seq<Trace>, searched: set<Point>,
                        expanded: set<Point>, queued: seq<Point>, level: map<Point, nat>, lo: nat,
                        queue': seq<Trace>, searched': set<Point>)
    requires SearchLoop(hm, root, w, h, taken, searched, expanded, queued, level, lo)
    requires |queue'| >= |taken| - 1 && searched <= searched'
    requires forall i :: |taken| - 1 <= i < |queue'| ==>
      Hops(queue'[i]) == Hops(taken[0]) + 1 && queue'[i].pos in searched' && queue'[i].pos !in searched
    ensures forall s :: ChainTo(s, root) && StopsAt(hm, s.pos, w, h) ==> Hops(s) >= Hops(taken[0])
  {
    var t := taken[0];
    assert t in taken;
    LevelsBehindFront(taken, searched, expanded, level, lo);
    var level' := GrowLevels(level, searched, searched', Hops(t) + 1, taken[1..], queue');
    FirstStopNearest(hm, root, w, h, expanded, level', Hops(t));
  }

  /**
   * The hop counts of a breadth-first search: `level` gives every searched
   * cell the hops of the entry that queued it, all within one of the front
   * level `lo`, and the list holds entries in non-decreasing order of hops.
   */
  ghost predicate Levelled(queue: seq<Trace>, searched: set<Point>, level: map<Point, nat>, lo: nat)
  {
    (forall p :: p in searched <==> p in level) &&
    (forall p :: p in level ==> level[p] <= lo + 1) &&
    (forall u :: u in queue ==> u.pos in level && level[u.pos] == Hops(u) && lo <= Hops(u)) &&
    (forall i, j :: 0 <= i < j < |queue| ==> Hops(queue[i]) <= Hops(queue[j]))
  }

  /** Every expanded cell is a marked interior cell whose eight neighbours were queued at most one hop later. */
  ghost predicate ExpandedLevels(hm: map<int, set<int>>, w: int, h: int, expanded: set<Point>, level: map<Point, nat>)
  {
    forall e :: e in expanded ==>
      e in level && Marked(hm, e) && Interior(e, w, h) &&
      forall k :: 0 <= k < 8 ==> Offsets8(e)[k] in level && level[Offsets8(e)[k]] <= level[e] + 1
  }

  /** A cell searched but not expanded is still queued, so its hops are at least the front's. */
  lemma LevelsBehindFront(queue: seq<Trace>, searched: set<Point>, expanded: set<Point>, level: map<Point, nat>, lo: nat)
    requires |queue| > 0 && Levelled(queue, searched, level, lo)
    requires forall p :: p in searched ==> p in expanded || p in Positions(queue)
    ensures forall p :: p in level && p !in expanded ==> level[p] >= Hops(queue[0])
  {
    forall p | p in level && p !in expanded
      ensures level[p] >= Hops(queue[0])
    {
      var u :| u in queue && u.pos == p;
      var k :| 0 <= k < |queue| && queue[k] == u;
      if k > 0 {
        assert Hops(queue[0]) <= Hops(queue[k]);
      }
    }
  }

  /** Expanding the front entry keeps the list in order of hops, with the front level moved to the entry's hops. */
  lemma LevelledAfterExpand(taken: seq<Trace>, queue': seq<Trace>, searched': set<Point>,
                            level: map<Point, nat>, level': map<Point, nat>, lo: nat)
    requires |taken| > 0
    requires forall u :: u in taken ==> u.pos in level && level[u.pos] == Hops(u) && lo <= Hops(u)
    requires forall p :: p in level ==> level[p] <= lo + 1
    requires forall i, j :: 0 <= i < j < |taken| ==> Hops(taken[i]) <= Hops(taken[j])
    requires |queue'| >= |taken| - 1 && queue'[..|taken| - 1] == taken[1..]
    requires LevelsGrown(level, level', searched', Hops(taken[0]) + 1, taken[1..], queue')
    ensures Levelled(queue', searched', level', Hops(taken[0]))
  {
    var n := |taken| - 1;
    forall i | 0 <= i < n
      ensures queue'[i] == taken[i + 1] && Hops(taken[0]) <= Hops(queue'[i]) <= lo + 1
    {
      assert queue'[i] == queue'[..n][i];
      assert taken[i + 1] in taken;
    }
    forall u | u in queue'
      ensures u.pos in level' && level'[u.pos] == Hops(u) && Hops(taken[0]) <= Hops(u)
    {
      var i :| 0 <= i < |queue'| && queue'[i] == u;
      if i < n {
        assert taken[i + 1] in taken;
      }
    }
    assert taken[0] in taken;
  }

  /** Marking the front entry expanded keeps every expanded cell's neighbours within one hop. */
  lemma ExpandedLevelsStep(hm: map<int, set<int>>, w: int, h: int, expanded: set<Point>,
                           level: map<Point, nat>, level': map<Point, nat>, t: Trace,
                           searched': set<Point>, queue: seq<Trace>, queue': seq<Trace>)
    requires ExpandedLevels(hm, w, h, expanded, level)
    requires LevelsGrown(level, level', searched', Hops(t) + 1, queue, queue')
    requires t.pos in level && level[t.pos] == Hops(t) && Marked(hm, t.pos) && Interior(t.pos, w, h)
    requires forall k :: 0 <= k < 8 ==> Offsets8(t.pos)[k] in searched'
    ensures ExpandedLevels(hm, w, h, expanded + {t.pos}, level')
  {
  }

  /** The first stopping entry taken is as near to the root as any stopping cell a chain reaches. */
  lemma FirstStopNearest(hm: map<int, set<int>>, root: Point, w: int, h: int, expanded: set<Point>,
                         level: map<Point, nat>, H: nat)
    requires root in level && level[root] == 0
    requires forall p :: p in level && p !in expanded ==> level[p] >= H
    requires ExpandedLevels(hm, w, h, expanded, level)
    ensures forall s :: ChainTo(s, root) && StopsAt(hm, s.pos, w, h) ==> Hops(s) >= H
  {
    forall s | ChainTo(s, root) && StopsAt(hm, s.pos, w, h)
      ensures Hops(s) >= H
    {
      if Hops(s) < H {
        ShorterChainsExpanded(hm, root, w, h, expanded, level, H, s);
      }
    }
  }

  /** A chain from the root with fewer hops than the front ends at an expanded cell, queued no later than that. */
  lemma {:induction false} ShorterChainsExpanded(hm: map<int, set<int>>, root: Point, w: int, h: int, expanded: set<Point>,
                                                 level: map<Point, nat>, H: nat, s: Trace)
    requires root in level && level[root] == 0
    requires forall p :: p in level && p !in expanded ==> level[p] >= H
    requires ExpandedLevels(hm, w, h, expanded, level)
    requires ChainTo(s, root) && Hops(s) < H
    ensures s.pos in expanded && s.pos in level && level[s.pos] <= Hops(s)
  {
    match s.parent
    case None =>
    case Some(p) =>
      ShorterChainsExpanded(hm, root, w, h, expanded, level, H, p);
      var k := AdjacentOffset(p.pos, s.pos);
      assert Offsets8(p.pos)[k] in level;
  }

  /** An 8-neighbour is one of the eight offsets. */
  lemma AdjacentOffset(p: Point, q: Point) returns (k: nat)
    requires Adjacent8(p, q)
    ensures k < 8 && Offsets8(p)[k] == q
  {
    var dx, dy := q.x - p.x, q.y - p.y;
    k := if dy == 0 then (if dx == -1 then 0 else 1)
      else if dx == 0 then (if dy == -1 then 2 else 3)
      else if dx == -1 then (if dy == -1 then 4 else 5)
      else if dy == 1 then 6 else 7;
  }

  /** Queue every unsearched 8-neighbour of the entry t, stopping at the first that is off the map. */
  method ExpandTrace(t: Trace, root: Point, w: int, h: int, queue: seq<Trace>, searched: set<Point>,
                     ghost expanded: set<Point>, ghost queued: seq<Point>)
      returns (outOfBounds: bool, queue': seq<Trace>, searched': set<Point>, ghost queued': seq<Point>)
    requires ChainTo(t, root) && t.pos in searched
    requires Searching(root, w, h, queue, searched, expanded, queued)
    requires forall p :: p in searched ==> p in expanded || p == t.pos || p in Positions(queue)
    ensures outOfBounds ==> !Interior(t.pos, w, h)
    ensures !outOfBounds ==> Interior(t.pos, w, h) && forall k :: 0 <= k < 8 ==> Offsets8(t.pos)[k] in searched'
    ensures Searching(root, w, h, queue', searched', expanded, queued')
    ensures forall p :: p in searched' ==> p in expanded || p == t.pos || p in Positions(queue')
    ensures |queue'| >= |queue| && queue'[..|queue|] == queue
    ensures |Rect(w, h) + {root} - searched'| + (|queue'| - |queue|) <= |Rect(w, h) + {root} - searched|
    ensures searched <= searched'
    ensures forall i :: |queue| <= i < |queue'| ==>
      Hops(queue'[i]) == Hops(t) + 1 && queue'[i].pos in searched' && queue'[i].pos !in searched
  {
    var offsets := Offsets8(t.pos);
    outOfBounds, queue', searched', queued' := false, queue, searched, queued;
    var j := 0;
    while j < 8
      invariant 0 <= j <= 8
      invariant Expanding(t, j, root, w, h, queue, searched, expanded, queue', searched', queued')
    {
      var o := offsets[j];
      if o.x < 0 || o.y < 0 || o.x >= w || o.y >= h {
        outOfBounds := true;
        NotInterior(t.pos, j, w, h);
        return;
      }
      if o !in searched' {
        ExpandingStep(t, j, root, w, h, queue, searched, expanded, queue', searched', queued');
        queue' := queue' + [Trace(o, Some(t))];
        searched' := searched' + {o};
        queued' := queued' + [o];
      } else {
        ExpandingSkip(t, j, root, w, h, queue, searched, expanded, queue', searched', queued');
      }
      j := j + 1;
    }
    InteriorFromOffsets(t.pos, w, h);
  }

  /** The state of `ExpandTrace` once the first j offsets of t were tried. */
  ghost predicate Expanding(t: Trace, j: int, root: Point, w: int, h: int, queue: seq<Trace>, searched: set<Point>,
                            expanded: set<Point>, queue': seq<Trace>, searched': set<Point>, queued': seq<Point>)
  {
    Tried(t.pos, j, searched', w, h) && searched <= searched' &&
    Searching(root, w, h, queue', searched', expanded, queued') &&
    (forall p :: p in searched' ==> p in expanded || p == t.pos || p in Positions(queue')) &&
    |queue'| >= |queue| && queue'[..|queue|] == queue &&
    |Rect(w, h) + {root} - searched'| + (|queue'| - |queue|) <= |Rect(w, h) + {root} - searched| &&
    NewEntries(queue, queue', searched, searched', Hops(t) + 1)
  }

  /** The entries after `queue` in `queue'` are `n` hops from the root, at cells searched since `searched`. */
  ghost predicate NewEntries(queue: seq<Trace>, queue': seq<Trace>, searched: set<Point>, searched': set<Point>, n: nat)
  {
    forall i :: |queue| <= i < |queue'| ==> Hops(queue'[i]) == n && queue'[i].pos in searched' && queue'[i].pos !in searched
  }

  lemma NewEntriesStep(queue: seq<Trace>, queue': seq<Trace>, searched: set<Point>, searched': set<Point>, n: nat, u: Trace)
    requires NewEntries(queue, queue', searched, searched', n) && |queue'| >= |queue|
    requires Hops(u) == n && u.pos !in searched
    ensures NewEntries(queue, queue' + [u], searched, searched' + {u.pos}, n)
  {
    forall i | |queue| <= i < |queue'| + 1
      ensures Hops((queue' + [u])[i]) == n && (queue' + [u])[i].pos in searched' + {u.pos}
    {
      if i < |queue'| {
        assert (queue' + [u])[i] == queue'[i];
      }
    }
  }

  /** An on-map offset already searched is passed over. */
  lemma ExpandingSkip(t: Trace, j: int, root: Point, w: int, h: int, queue: seq<Trace>, searched: set<Point>,
                      expanded: set<Point>, queue': seq<Trace>, searched': set<Point>, queued': seq<Point>)
    requires 0 <= j < 8
    requires Expanding(t, j, root, w, h, queue, searched, expanded, queue', searched', queued')
    requires InBounds(Offsets8(t.pos)[j], w, h) && Offsets8(t.pos)[j] in searched'
    ensures Expanding(t, j + 1, root, w, h, queue, searched, expanded, queue', searched', queued')
  {
    TriedStep(t.pos, j, searched', searched', w, h);
  }

  /** Queuing the unsearched on-map offset j of t, with t as its parent, keeps the state of the expansion. */
  lemma ExpandingStep(t: Trace, j: int, root: Point, w: int, h: int, queue: seq<Trace>, searched: set<Point>,
                      expanded: set<Point>, queue': seq<Trace>, searched': set<Point>, queued': seq<Point>)
    requires 0 <= j < 8 && ChainTo(t, root)
    requires Expanding(t, j, root, w, h, queue, searched, expanded, queue', searched', queued')
    requires InBounds(Offsets8(t.pos)[j], w, h) && Offsets8(t.pos)[j] !in searched'
    ensures var o := Offsets8(t.pos)[j];
      Expanding(t, j + 1, root, w, h, queue, searched, expanded, queue' + [Trace(o, Some(t))], searched' + {o}, queued' + [o])
  {
    var o := Offsets8(t.pos)[j];
    var u := Trace(o, Some(t));
    assert ChainTo(u, root) by {
      Adjacent8Offsets(t.pos, j);
    }
    QueueAppend(queue', u);
    FewerUnsearched(Rect(w, h) + {root}, searched', o);
    SearchingStep(root, w, h, queue', searched', expanded, queued', u);
    TriedStep(t.pos, j, searched', searched' + {o}, w, h);
    NewEntriesStep(queue, queue', searched, searched', Hops(t) + 1, u);
    var queue'', searched'' := queue' + [u], searched' + {o};
    assert queue''[..|queue|] == queue'[..|queue|];
    assert forall p :: p in searched'' ==> p in expanded || p == t.pos || p in Positions(queue'') by {
      assert Positions(queue'') == Positions(queue') + {o};
    }
  }

  /**
   * `level'` extends `level` with cells at `n` hops, each queued by one of
   * the entries that follow `queue` in `queue'`; it covers exactly `searched'`.
   */
  ghost predicate LevelsGrown(level: map<Point, nat>, level': map<Point, nat>, searched': set<Point>, n: nat,
                              queue: seq<Trace>, queue': seq<Trace>)
  {
    |queue'| >= |queue| &&
    (forall p :: p in searched' <==> p in level') &&
    (forall p :: p in level ==> p in level' && level'[p] == level[p]) &&
    (forall p :: p in level' ==> level'[p] <= n && (p in level || level'[p] == n)) &&
    (forall i :: |queue| <= i < |queue'| ==> Hops(queue'[i]) == n && queue'[i].pos in level' && level'[queue'[i].pos] == n)
  }

  /** The levels after an expansion: the cells it searched are one hop beyond the entry expanded. */
  lemma GrowLevels(level: map<Point, nat>, searched: set<Point>, searched': set<Point>, n: nat,
                   queue: seq<Trace>, queue': seq<Trace>) returns (level': map<Point, nat>)
    requires forall p :: p in searched <==> p in level
    requires searched <= searched' && forall p :: p in level ==> level[p] <= n
    requires |queue'| >= |queue|
    requires forall i :: |queue| <= i < |queue'| ==> Hops(queue'[i]) == n && queue'[i].pos in searched' && queue'[i].pos !in searched
    ensures LevelsGrown(level, level', searched', n, queue, queue')
  {
    level' := map p | p in searched' :: if p in level then level[p] else n;
  }

  /** The first j offsets of p are on the map and searched. */
  ghost predicate Tried(p: Point, j: int, searched: set<Point>, w: int, h: int)
  {
    forall k :: 0 <= k < j && k < 8 ==> InBounds(Offsets8(p)[k], w, h) && Offsets8(p)[k] in searched
  }

  lemma TriedStep(p: Point, j: int, searched: set<Point>, searched': set<Point>, w: int, h: int)
    requires 0 <= j < 8 && Tried(p, j, searched, w, h) && searched <= searched'
    requires InBounds(Offsets8(p)[j], w, h) && Offsets8(p)[j] in searched'
    ensures Tried(p, j + 1, searched', w, h)
  {
  }

  /** Queuing a new on-map neighbour with a chain back to the root keeps the bookkeeping. */
  lemma SearchingStep(root: Point, w: int, h: int, queue: seq<Trace>, searched: set<Point>,
                      expanded: set<Point>, queued: seq<Point>, u: Trace)
    requires Searching(root, w, h, queue, searched, expanded, queued)
    requires InBounds(u.pos, w, h) && u.pos !in searched && ChainTo(u, root) && u.parent.Some?
    ensures Searching(root, w, h, queue + [u], searched + {u.pos}, expanded, queued + [u.pos])
  {
    assert forall v :: v in queue + [u] ==> v in queue || v == u;
  }

  /** Removing the first entry: every searched position is still expanded, queued or the one just taken. */
  lemma SearchedAfterDequeue(searched: set<Point>, expanded: set<Point>, queue: seq<Trace>)
    requires |queue| > 0
    requires forall p :: p in searched ==> p in expanded || p in Positions(queue)
    ensures forall p :: p in searched ==> p in expanded || p == queue[0].pos || p in Positions(queue[1..])
  {
    forall p | p in searched && p !in expanded && p != queue[0].pos
      ensures p in Positions(queue[1..])
    {
      var t :| t in queue && t.pos == p;
      var k :| 0 <= k < |queue| && queue[k] == t;
      assert queue[1..][k - 1] == t;
    }
  }

  lemma QueueAppend(queue: seq<Trace>, t: Trace)
    ensures Positions(queue + [t]) == Positions(queue) + {t.pos}
  {
    assert forall u :: u in queue + [t] <==> u in queue || u == t;
  }

  lemma Adjacent8Offsets(p: Point, j: int)
    requires 0 <= j < 8
    ensures Adjacent8(p, Offsets8(p)[j])
  {
  }

  /** Searching an on-map cell leaves one cell fewer to search. */
  lemma FewerUnsearched(all: set<Point>, searched: set<Point>, o: Point)
    requires o in all && o !in searched
    ensures |all - (searched + {o})| + 1 == |all - searched|
  {
    assert all - searched == (all - (searched + {o})) + {o};
  }

  /** An offset off the map means the cell is not interior. */
  lemma NotInterior(p: Point, j: int, w: int, h: int)
    requires 0 <= j < 8 && !InBounds(Offsets8(p)[j], w, h)
    ensures !Interior(p, w, h)
  {
  }

  /** All eight offsets on the map means the cell is interior. */
  lemma InteriorFromOffsets(p: Point, w: int, h: int)
    requires forall k :: 0 <= k < 8 ==> InBounds(Offsets8(p)[k], w, h)
    ensures Interior(p, w, h)
  {
    assert InBounds(Offsets8(p)[4], w, h) && InBounds(Offsets8(p)[6], w, h);
  }

  /** After an expansion the list is not empty, since some searched cell is not yet expanded and so is queued; and the bookkeeping holds with the cell expanded. */
  lemma QueueStaysFull(root: Point, w: int, h: int, queue: seq<Trace>, searched: set<Point>,
                       expanded: set<Point>, queued: seq<Point>, pos: Point)
    requires Searching(root, w, h, queue, searched, expanded, queued)
    requires root in expanded + {pos}
    requires Interior(pos, w, h) && forall k :: 0 <= k < 8 ==> Offsets8(pos)[k] in searched
    requires forall p :: p in searched ==> p in expanded || p == pos || p in Positions(queue)
    ensures Searching(root, w, h, queue, searched, expanded + {pos}, queued)
    ensures |queue| > 0
  {
    var p := UnexpandedNeighbour(expanded + {pos}, searched, root, w, h);
    assert p in Positions(queue);
  }

  /** A non-empty set of interior cells has a searched left neighbour outside it. */
  lemma UnexpandedNeighbour(expanded: set<Point>, searched: set<Point>, root: Point, w: int, h: int) returns (p: Point)
    requires root in expanded
    requires forall e :: e in expanded ==> Interior(e, w, h) && forall k :: 0 <= k < 8 ==> Offsets8(e)[k] in searched
    ensures p in searched && p !in expanded
  {
    LeftmostExists(expanded, root);
    var e :| e in expanded && Point(e.x - 1, e.y) !in expanded;
    assert Offsets8(e)[0] in searched;
    p := Point(e.x - 1, e.y);
  }

  /** A set of cells with non-negative columns has a cell whose left neighbour is outside it. */
  lemma {:induction false} LeftmostExists(s: set<Point>, p: Point)
    requires p in s && p.x >= 0
    requires forall e :: e in s ==> e.x >= 0
    ensures exists e :: e in s && Point(e.x - 1, e.y) !in s
    decreases p.x
  {
    var q := Point(p.x - 1, p.y);
    if q !in s {
      assert p in s && Point(p.x - 1, p.y) !in s;
    } else {
      LeftmostExists(s, q);
    }
  }

  /** The depth recorded for a trace: -1, then one more per entry along the parents. */
  method TraceBack(t: Trace) returns (depth: int)
    ensures depth == Hops(t)
  {
    depth := -1;
    var current := Some(t);
    while current.Some?
      invariant current.Some? ==> depth + 1 + Hops(current.value) == Hops(t)
      invariant current.None? ==> depth == Hops(t)
      decreases current
    {
      depth := depth + 1;
      current := current.value.parent;
    }
  }

  /** Each parent step moves at most one row and one column. */
  lemma {:induction false} HopsCoverDistance(t: Trace, root: Point)
    requires ChainTo(t, root)
    ensures -(Hops(t) as int) <= t.pos.x - root.x <= Hops(t) && -(Hops(t) as int) <= t.pos.y - root.y <= Hops(t)
  {
    match t.parent
    case None =>
    case Some(p) =>
      HopsCoverDistance(p, root);
  }

  /**
   * d is the depth `analyseDepth` records for c: the length of a chain of
   * 8-neighbours from c to a stopping cell, and no such chain is shorter.
   */
  ghost predicate DepthOf(hm: map<int, set<int>>, c: Point, d: int, w: int, h: int)
  {
    (Interior(c, w, h) ==> d >= 1) && (!Interior(c, w, h) ==> d == 0) &&
    (exists t :: ChainTo(t, c) && Hops(t) == d && StopsAt(hm, t.pos, w, h)) &&
    forall t :: ChainTo(t, c) && StopsAt(hm, t.pos, w, h) ==> Hops(t) >= d
  }

  class Region {
    var mapWidth: int
    var mapHeight: int
    var coordinates: seq<Point>
    var center: Centre
    var hitMap: map<int, set<int>>
    var depthMap: map<Point, int>
    var edges: seq<Point>

    /** Every coordinate is marked on the hit map. */
    predicate Valid()
      reads this
    {
      forall p :: p in coordinates ==> Marked(hitMap, p)
    }

    /**
     * The state the constructor leaves: the map size, the centre of mass,
     * depth 0 for every coordinate, a hit map marking exactly the
     * coordinates (plus the empty columns the edge tests create) and the
     * edge cells in order.
     */
    ghost predicate Built(w: int, h: int)
      reads this
    {
      mapWidth == w && mapHeight == h &&
      center == CentreOf(coordinates) &&
      (forall p :: p in depthMap <==> p in coordinates) &&
      (forall p :: p in depthMap ==> depthMap[p] == 0) &&
      MarksExactly(hitMap, coordinates) &&
      (forall x :: x in hitMap ==> hitMap[x] != {} || x in AllProbed(coordinates, coordinates, w, h)) &&
      (forall x :: x in AllProbed(coordinates, coordinates, w, h) ==> x in hitMap) &&
      edges == EdgesOf(coordinates, coordinates, w, h) &&
      Valid()
    }

    /**
     * Registers the coordinates, averages the centre of mass and collects
     * the edge cells; the edge tests add an empty hit-map column for every
     * on-map offset column they look at that had none.
     */
    constructor(coords: seq<Point>, w: int, h: int)
      ensures coordinates == coords && Built(w, h)
    {
      var hm, depth, sx, sy := Register(coords);
      var es, hm' := FindEdges(coords, hm, w, h);
      mapWidth, mapHeight := w, h;
      coordinates := coords;
      center := if |coords| == 0 then NaN else Mean(sx as real / |coords| as real, sy as real / |coords| as real);
      hitMap := hm';
      depthMap := depth;
      edges := es;
    }

    /**
     * For every coordinate, search outwards until leaving the region or
     * reaching the map's border, and record the length of the chain back
     * to the coordinate as its depth.
     */
    method AnalyseDepth() returns (thrown: bool)
      requires Valid()
      modifies this
      ensures mapWidth == old(mapWidth) && mapHeight == old(mapHeight) && coordinates == old(coordinates)
      ensures center == old(center) && hitMap == old(hitMap) && edges == old(edges)
      ensures forall p :: p !in coordinates ==> (p in depthMap <==> p in old(depthMap))
      ensures forall p :: p !in coordinates && p in depthMap ==> depthMap[p] == old(depthMap)[p]
      ensures !thrown ==> forall c :: c in coordinates ==> c in depthMap && DepthOf(hitMap, c, depthMap[c], mapWidth, mapHeight)
      ensures Valid()
    {
      thrown := false;
      var i := 0;
      while i < |coordinates|
        invariant 0 <= i <= |coordinates|
        invariant mapWidth == old(mapWidth) && mapHeight == old(mapHeight) && coordinates == old(coordinates)
        invariant center == old(center) && hitMap == old(hitMap) && edges == old(edges)
        invariant forall p :: p !in coordinates ==> (p in depthMap <==> p in old(depthMap))
        invariant forall p :: p !in coordinates && p in depthMap ==> depthMap[p] == old(depthMap)[p]
        invariant forall k :: 0 <= k < i ==> coordinates[k] in depthMap && DepthOf(hitMap, coordinates[k], depthMap[coordinates[k]], mapWidth, mapHeight)
      {
        var c := coordinates[i];
        var current, threw, _ := Search(hitMap, c, mapWidth, mapHeight);
        if threw {
          thrown := true;
          return;
        }
        var depth := TraceBack(current.value);
        assert DepthOf(hitMap, c, depth, mapWidth, mapHeight);
        depthMap := depthMap[c := depth];
        i := i + 1;
      }
    }
  }

  /** The edges are the region's edge cells, each kept once per occurrence and in order. */
  lemma {:induction false} EdgesAreEdgeCells(prefix: seq<Point>, cs: seq<Point>, w: int, h: int)
    ensures forall c :: c in EdgesOf(prefix, cs, w, h) <==> c in prefix && IsEdge(c, cs, w, h)
    ensures |EdgesOf(prefix, cs, w, h)| <= |prefix|
  {
    if |prefix| > 0 {
      var front := prefix[..|prefix| - 1];
      EdgesAreEdgeCells(front, cs, w, h);
      assert prefix == front + [prefix[|prefix| - 1]];
    }
  }

  /** The coordinate with the smallest column. */
  function Leftmost(cs: seq<Point>): (r: Point)
    requires |cs| > 0
    ensures r in cs && forall c :: c in cs ==> r.x <= c.x
  {
    if |cs| == 1 then cs[0]
    else
      var l := Leftmost(cs[1..]);
      assert forall c :: c in cs ==> c == cs[0] || c in cs[1..];
      if cs[0].x <= l.x then cs[0] else l
  }

  /** A region with a coordinate on the map has an edge cell: its leftmost cell. */
  lemma NonEmptyRegionHasEdge(cs: seq<Point>, w: int, h: int)
    requires |cs| > 0 && forall c :: c in cs ==> InBounds(c, w, h)
    ensures |EdgesOf(cs, cs, w, h)| > 0
  {
    var l := Leftmost(cs);
    if !OnBorder(l, w, h) {
      var q := Point(l.x - 1, l.y);
      assert q in FloodFill.Neighbours4(l) && InBounds(q, w, h) && q !in cs;
    }
    EdgesAreEdgeCells(cs, cs, w, h);
  }

  /** The column sum of on-map coordinates lies between 0 and the count times the last column. */
  lemma {:induction false} SumXBounds(cs: seq<Point>, w: int, h: int)
    requires forall c :: c in cs ==> InBounds(c, w, h)
    ensures 0 <= SumX(cs) <= |cs| * (w - 1)
  {
    if |cs| > 0 {
      var front := cs[..|cs| - 1];
      assert forall c :: c in front ==> c in cs;
      assert cs[|cs| - 1] in cs;
      SumXBounds(front, w, h);
      MulStep(|front|, w - 1);
    }
  }

  /** The row sum of on-map coordinates lies between 0 and the count times the last row. */
  lemma {:induction false} SumYBounds(cs: seq<Point>, w: int, h: int)
    requires forall c :: c in cs ==> InBounds(c, w, h)
    ensures 0 <= SumY(cs) <= |cs| * (h - 1)
  {
    if |cs| > 0 {
      var front := cs[..|cs| - 1];
      assert forall c :: c in front ==> c in cs;
      assert cs[|cs| - 1] in cs;
      SumYBounds(front, w, h);
      MulStep(|front|, h - 1);
    }
  }

  lemma MulStep(n: int, m: int)
    ensures (n + 1) * m == n * m + m
  {
  }

  /** The centre of a non-empty region on the map lies within the map. */
  lemma CentreOnMap(cs: seq<Point>, w: int, h: int)
    requires |cs| > 0 && forall c :: c in cs ==> InBounds(c, w, h)
    ensures CentreOf(cs).Mean?
    ensures 0.0 <= CentreOf(cs).x <= (w - 1) as real && 0.0 <= CentreOf(cs).y <= (h - 1) as real
  {
    SumXBounds(cs, w, h);
    SumYBounds(cs, w, h);
    MeanBound(SumX(cs), |cs|, w - 1);
    MeanBound(SumY(cs), |cs|, h - 1);
  }

  lemma MeanBound(s: int, n: nat, m: int)
    requires n > 0 && 0 <= s <= n * m
    ensures 0.0 <= s as real / n as real <= m as real
  {
    assert (n * m) as real == n as real * m as real;
    assert s as real <= n as real * m as real;
  }
}
