// `findPath` in both generators: a best-first search over a grid of nodes,
// one per map cell, that keeps an open list of cells, sorts it by f score
// before every step, takes the front cell, and relaxes its four orthogonal
// neighbours that hold the traversable value. A neighbour joins the open
// list when it has no parent yet, and takes the front cell as its parent
// when that gives it a strictly smaller g score. The path is read back along
// the parent links from the last cell taken.
//
// The JavaScript sorts the open list by ascending f (a stable sort) and the
// C++ by descending f, so the C++ always takes the highest f first; both take
// the front entry. The JavaScript rebuilds a path from the last cell taken
// even when that is not the goal; the C++ returns an empty path then.
//
// The map is only read, so the search works on its contents `g`, a list of
// columns. The node grid is a fresh `array2<Node>` that the search relaxes in
// place.

module PathSearch {

  import opened SeqSteps
  import opened Grid
  import Sorting

  /** A score: a number of steps, or the initial maximum (`Number.MAX_VALUE`, `UINT_MAX`), above every number. */
  datatype Score = Finite(n: nat) | Max

  /** An `AStarNode`: its cell, the cell of the node that introduced it, and its g, h and f scores. */
  datatype Node = Node(pos: Point, parent: Option<Point>, g: Score, h: Score, f: Score)

  /** The end of the sorted open list that is taken first: the lowest f (JavaScript) or the highest (C++). */
  datatype Order = LowestFirst | HighestFirst

  function Abs(n: int): nat
  {
    if n < 0 then -n else n
  }

  /** The heuristic of both versions: the Manhattan distance. */
  function Manhattan(p: Point, q: Point): nat
  {
    Abs(p.x - q.x) + Abs(p.y - q.y)
  }

  /** `a > n` where the initial maximum is above every number. */
  predicate Exceeds(a: Score, n: nat)
  {
    a.Max? || a.n > n
  }

  /** The neighbour offsets in the order both versions try them: down, up, right, left. */
  function Offset(i: nat): (o: Point)
    requires i < 4
    ensures Adjacent4(o, Point(0, 0))
  {
    if i == 0 then Point(0, 1) else if i == 1 then Point(0, -1) else if i == 2 then Point(1, 0) else Point(-1, 0)
  }

  /** The four offsets reach every orthogonal neighbour. */
  lemma OffsetsCover(p: Point, q: Point)
    requires Adjacent4(p, q)
    ensures exists i :: 0 <= i < 4 && q == Add(p, Offset(i))
  {
    if q == Add(p, Offset(0)) {
    } else if q == Add(p, Offset(1)) {
    } else if q == Add(p, Offset(2)) {
    } else {
      assert q == Add(p, Offset(3));
    }
  }

  // ------------------------------------------------------------- walks

  /** p is on the map and holds the traversable value. */
  ghost predicate Open<T>(g: seq<seq<T>>, t: T, p: Point)
  {
    0 <= p.x < |g| && 0 <= p.y < |g[p.x]| && g[p.x][p.y] == t
  }

  /** path leads away from start one orthogonal step at a time, over traversable cells only. */
  ghost predicate Walk<T>(g: seq<seq<T>>, t: T, start: Point, path: seq<Point>)
  {
    (forall k :: 0 <= k < |path| ==> Open(g, t, path[k])) &&
    (|path| > 0 ==> Adjacent4(start, path[0])) &&
    (forall k :: 0 <= k < |path| - 1 ==> Adjacent4(path[k], path[k + 1]))
  }

  /** Some walk from start ends at p. */
  ghost predicate Reaches<T>(g: seq<seq<T>>, t: T, start: Point, p: Point)
  {
    exists path :: Walk(g, t, start, path) && |path| > 0 && path[|path| - 1] == p
  }

  /** Every traversable neighbour of a cell of s is in s. */
  ghost predicate Closed<T>(g: seq<seq<T>>, t: T, s: set<Point>)
  {
    forall p, q :: p in s && Adjacent4(p, q) && Open(g, t, q) ==> q in s
  }

  /** A walk from a cell of a closed set never leaves it. */
  lemma {:induction false} WalkStaysIn<T>(g: seq<seq<T>>, t: T, start: Point, s: set<Point>, path: seq<Point>, k: nat)
    requires start in s && Closed(g, t, s) && Walk(g, t, start, path) && k < |path|
    ensures path[k] in s
    decreases k
  {
    if k > 0 {
      WalkStaysIn(g, t, start, s, path, k - 1);
    }
  }

  // ------------------------------------------------------------- the node grid

  /** The parent q of a cell p with g score n: a neighbour on the grid with a strictly smaller g score. */
  ghost predicate ParentOk(nav: array2<Node>, p: Point, q: Point, n: nat)
    reads nav
  {
    Adjacent4(p, q) && 0 <= q.x < nav.Length0 && 0 <= q.y < nav.Length1 &&
    nav[q.x, q.y].g.Finite? && nav[q.x, q.y].g.n < n
  }

  /**
   * The node of cell (x, y): the start has no parent and g 0; a cell the
   * search has reached has a parent, is traversable, and scores h by the
   * heuristic and f as g + h; every other cell is untouched.
   */
  ghost predicate CellOk<T>(nav: array2<Node>, g: seq<seq<T>>, t: T, start: Point, end: Point, reached: set<Point>, x: int, y: int)
    reads nav
    requires 0 <= x < nav.Length0 && 0 <= y < nav.Length1
  {
    var p, node := Point(x, y), nav[x, y];
    node.pos == p &&
    (p == start ==> node.parent.None? && node.g == Finite(0) && node.h == Finite(Manhattan(end, p)) && node.f == node.h) &&
    (p != start && p !in reached ==> node.parent.None? && node.g.Max?) &&
    (p in reached ==>
      Open(g, t, p) && node.parent.Some? && node.g.Finite? && node.h == Finite(Manhattan(end, p)) &&
      node.f == Finite(node.g.n + node.h.n) && ParentOk(nav, p, node.parent.value, node.g.n))
  }

  /** Every node of the grid is as `CellOk` says; the start is on the grid and not among the reached cells. */
  ghost predicate NavOk<T>(nav: array2<Node>, g: seq<seq<T>>, t: T, start: Point, end: Point, reached: set<Point>)
    reads nav
  {
    IsRect(g, nav.Length0, nav.Length1) && InBounds(start, nav.Length0, nav.Length1) && start !in reached &&
    (forall p :: p in reached ==> InBounds(p, nav.Length0, nav.Length1)) &&
    forall x, y :: 0 <= x < nav.Length0 && 0 <= y < nav.Length1 ==> CellOk(nav, g, t, start, end, reached, x, y)
  }

  /** The g score of a cell, 0 off the grid or while it is the maximum. */
  function Steps(nav: array2<Node>, p: Point): nat
    reads nav
  {
    if 0 <= p.x < nav.Length0 && 0 <= p.y < nav.Length1 && nav[p.x, p.y].g.Finite? then nav[p.x, p.y].g.n else 0
  }

  /** The sort key of a cell: its f score (finite for every cell on the open list). */
  function Key(nav: array2<Node>, p: Point): real
    reads nav
  {
    if 0 <= p.x < nav.Length0 && 0 <= p.y < nav.Length1 && nav[p.x, p.y].f.Finite? then nav[p.x, p.y].f.n as real else 0.0
  }

  function Keys(nav: array2<Node>, queue: seq<Point>): (r: seq<real>)
    reads nav
    ensures |r| == |queue| && forall k :: 0 <= k < |queue| ==> r[k] == Key(nav, queue[k])
  {
    seq(|queue|, k requires 0 <= k < |queue| reads nav => Key(nav, queue[k]))
  }

  // ------------------------------------------------------------- the open list

  /** Every neighbour of p that is traversable is the start or reached. */
  ghost predicate Covered<T>(g: seq<seq<T>>, t: T, start: Point, reached: set<Point>, p: Point)
  {
    forall q :: Adjacent4(p, q) && Open(g, t, q) ==> q == start || q in reached
  }

  /**
   * The open list and the cells already expanded: the list holds the start
   * and reached cells, each reached cell at most once and only until it is
   * expanded; every reached cell is expanded, listed or the one being
   * expanded (`pending`); the goal was never expanded; and every expanded
   * cell has all its traversable neighbours reached.
   */
  ghost predicate Frontier<T>(g: seq<seq<T>>, t: T, start: Point, end: Point, queue: seq<Point>,
                              reached: set<Point>, expanded: set<Point>, pending: Option<Point>)
  {
    (forall k :: 0 <= k < |queue| ==> queue[k] == start || queue[k] in reached) &&
    (forall i, j :: 0 <= i < j < |queue| && queue[i] == queue[j] ==> queue[i] == start) &&
    (forall k :: 0 <= k < |queue| && queue[k] != start ==> queue[k] !in expanded) &&
    (forall p :: p in reached || p == start ==> p in expanded || p in queue || pending == Some(p)) &&
    (pending.Some? ==>
      pending.value != end && (pending.value == start || pending.value in reached) &&
      (pending.value != start ==> pending.value !in expanded && pending.value !in queue)) &&
    (forall p :: p in expanded ==> p == start || p in reached) &&
    end !in expanded &&
    (forall p :: p in expanded ==> Covered(g, t, start, reached, p))
  }

  /**
   * Sort the open list by f, lowest or highest first, and take the front
   * entry: the taken cell has the lowest (highest) key of the list and is the
   * first such entry; the rest stays in sorted order.
   */
  method Pick(nav: array2<Node>, queue: seq<Point>, order: Order) returns (current: Point, rest: seq<Point>, ghost perm: seq<nat>)
    requires |queue| > 0
    ensures Sorting.IsPermutation(perm, |queue|)
    ensures current == queue[perm[0]] && rest == Sorting.Permute(queue, perm)[1..]
    ensures order == LowestFirst ==> forall k :: 0 <= k < |queue| ==>
      Key(nav, current) < Key(nav, queue[k]) || (Key(nav, current) == Key(nav, queue[k]) && perm[0] <= k)
    ensures order == HighestFirst ==> forall k :: 0 <= k < |queue| ==>
      Key(nav, current) > Key(nav, queue[k]) || (Key(nav, current) == Key(nav, queue[k]) && perm[0] <= k)
  {
    var keys := Keys(nav, queue);
    var sortKeys := if order == LowestFirst then Sorting.Negated(keys) else keys;
    var p := Sorting.SortDescending(sortKeys);
    var sorted := Sorting.Permute(queue, p);
    current, rest, perm := sorted[0], sorted[1..], p;
    forall k | 0 <= k < |queue|
      ensures sortKeys[perm[0]] > sortKeys[k] || (sortKeys[perm[0]] == sortKeys[k] && perm[0] <= k)
    {
      Sorting.HeadLeads(sortKeys, perm, k);
    }
  }

  /** Taking the front entry keeps the bookkeeping, with the taken cell pending. */
  lemma PickKeepsFrontier<T>(g: seq<seq<T>>, t: T, start: Point, end: Point, queue: seq<Point>,
                             reached: set<Point>, expanded: set<Point>, perm: seq<nat>, current: Point, rest: seq<Point>)
    requires Frontier(g, t, start, end, queue, reached, expanded, None)
    requires Sorting.IsPermutation(perm, |queue|) && |queue| > 0
    requires current == queue[perm[0]] && rest == Sorting.Permute(queue, perm)[1..]
    requires current != end
    ensures Frontier(g, t, start, end, rest, reached, expanded, Some(current))
    ensures |rest| + 1 == |queue|
  {
    var sorted := Sorting.Permute(queue, perm);
    forall p | p in reached || p == start
      ensures p in expanded || p in rest || Some(current) == Some(p)
    {
      if p !in expanded {
        var k :| 0 <= k < |queue| && queue[k] == p;
        Sorting.PermuteIsPermutation(queue, perm, k);
        var l :| 0 <= l < |queue| && sorted[l] == queue[k];
        if l > 0 {
          assert rest[l - 1] == p;
        }
      }
    }
    if current != start {
      forall l | 0 <= l < |rest|
        ensures rest[l] != current
      {
        assert rest[l] == queue[perm[l + 1]];
        assert perm[0] != perm[l + 1];
      }
    }
    forall i, j | 0 <= i < j < |rest| && rest[i] == rest[j]
      ensures rest[i] == start
    {
      assert rest[i] == queue[perm[i + 1]] && rest[j] == queue[perm[j + 1]];
      assert perm[i + 1] != perm[j + 1];
    }
  }

  /**
   * One neighbour `coord` of the cell `current` being expanded: skip it off
   * the map or when it is not traversable; list it when it has no parent;
   * and make `current` its parent when that lowers its g score.
   */
  method Visit<T(==)>(nav: array2<Node>, g: seq<seq<T>>, t: T, start: Point, end: Point, current: Point, coord: Point,
                      queue: seq<Point>, ghost reached: set<Point>, ghost expanded: set<Point>)
      returns (queue': seq<Point>, ghost reached': set<Point>)
    requires NavOk(nav, g, t, start, end, reached) && Adjacent4(coord, current)
    requires Frontier(g, t, start, end, queue, reached, expanded, Some(current))
    modifies nav
    ensures NavOk(nav, g, t, start, end, reached') && Frontier(g, t, start, end, queue', reached', expanded, Some(current))
    ensures Open(g, t, coord) ==> coord == start || coord in reached'
    ensures reached' == reached || (coord !in reached && InBounds(coord, nav.Length0, nav.Length1) && reached' == reached + {coord})
    ensures reached' == reached ==> queue' == queue || (coord == start && queue' == queue + [start])
  {
    queue', reached' := queue, reached;
    if coord.x < 0 || coord.y < 0 || coord.x >= nav.Length0 || coord.y >= nav.Length1 {
      return;
    }
    if g[coord.x][coord.y] != t {
      return;
    }
    assert CellOk(nav, g, t, start, end, reached, coord.x, coord.y);
    assert CellOk(nav, g, t, start, end, reached, current.x, current.y);
    if nav[coord.x, coord.y].parent.None? {
      queue' := queue + [coord];
      if coord != start {
        reached' := reached + {coord};
      }
    }
    var cg := nav[current.x, current.y].g.n;
    if Exceeds(nav[coord.x, coord.y].g, cg + 1) {
      Relax(nav, g, t, start, end, current, coord, reached, reached');
    }
  }

  /** `coord` takes `current` as its parent, one step further from the start. */
  method Relax<T>(nav: array2<Node>, g: seq<seq<T>>, t: T, start: Point, end: Point, current: Point, coord: Point,
                  ghost reached: set<Point>, ghost reached': set<Point>)
    requires NavOk(nav, g, t, start, end, reached) && Adjacent4(coord, current) && Open(g, t, coord)
    requires current == start || current in reached
    requires reached' == reached || (coord !in reached && coord != start && reached' == reached + {coord})
    requires coord != start && InBounds(coord, nav.Length0, nav.Length1)
    requires nav[current.x, current.y].g.Finite? && Exceeds(nav[coord.x, coord.y].g, nav[current.x, current.y].g.n + 1)
    requires coord in reached' && (coord !in reached ==> nav[coord.x, coord.y].parent.None?)
    modifies nav
    ensures NavOk(nav, g, t, start, end, reached')
  {
    var cg := nav[current.x, current.y].g.n;
    var h := Manhattan(end, coord);
    nav[coord.x, coord.y] := nav[coord.x, coord.y].(parent := Some(current), g := Finite(cg + 1), h := Finite(h), f := Finite(cg + 1 + h));
    forall x, y | 0 <= x < nav.Length0 && 0 <= y < nav.Length1
      ensures CellOk(nav, g, t, start, end, reached', x, y)
    {
      assert old(CellOk(nav, g, t, start, end, reached, x, y));
    }
  }

  /** `current` was taken from the list and is not the goal: visit its four neighbours in order. */
  method Expand<T(==)>(nav: array2<Node>, g: seq<seq<T>>, t: T, start: Point, end: Point, current: Point,
                       queue: seq<Point>, ghost reached: set<Point>, ghost expanded: set<Point>)
      returns (queue': seq<Point>, ghost reached': set<Point>)
    requires NavOk(nav, g, t, start, end, reached)
    requires Frontier(g, t, start, end, queue, reached, expanded, Some(current))
    modifies nav
    ensures NavOk(nav, g, t, start, end, reached') && Frontier(g, t, start, end, queue', reached', expanded + {current}, None)
    ensures reached <= reached' && forall p :: p in reached' ==> InBounds(p, nav.Length0, nav.Length1)
    ensures reached' == reached && current == start ==> queue' == queue
  {
    queue', reached' := queue, reached;
    var i := 0;
    while i < 4
      invariant 0 <= i <= 4
      invariant NavOk(nav, g, t, start, end, reached') && Frontier(g, t, start, end, queue', reached', expanded, Some(current))
      invariant reached <= reached' && forall p :: p in reached' ==> InBounds(p, nav.Length0, nav.Length1)
      invariant forall j :: 0 <= j < i && Open(g, t, Add(current, Offset(j))) ==> Add(current, Offset(j)) == start || Add(current, Offset(j)) in reached'
      invariant reached' == reached && current == start ==> queue' == queue
    {
      ghost var before := reached';
      queue', reached' := Visit(nav, g, t, start, end, current, Add(current, Offset(i)), queue', reached', expanded);
      i := i + 1;
    }
    forall q | Adjacent4(current, q) && Open(g, t, q)
      ensures q == start || q in reached'
    {
      OffsetsCover(current, q);
    }
  }

  /**
   * The search loop: start with the start cell listed at g 0, and take
   * cells until the goal is taken or the list runs out. `last` is the last
   * cell taken; the list starts non-empty, so there always is one. When the
   * list runs out, the cells reached are closed under traversable steps, so
   * the goal is not reachable.
   */
  method Search<T(==)>(g: seq<seq<T>>, w: nat, h: nat, start: Point, end: Point, t: T, order: Order)
      returns (nav: array2<Node>, last: Point, ghost reached: set<Point>)
    requires IsRect(g, w, h) && InBounds(start, w, h)
    ensures fresh(nav) && nav.Length0 == w && nav.Length1 == h
    ensures NavOk(nav, g, t, start, end, reached)
    ensures last == start || last in reached
    ensures last == end || (end != start && !Reaches(g, t, start, end))
  {
    nav := NewGrid(g, w, h, start, end, t);
    reached := {};
    ghost var expanded: set<Point> := {};
    var queue := [start];
    last := start;
    while |queue| > 0
      invariant NavOk(nav, g, t, start, end, reached) && Frontier(g, t, start, end, queue, reached, expanded, None)
      invariant forall p :: p in reached ==> InBounds(p, w, h)
      invariant last == start || last in reached
      decreases |Rect(w, h) - reached|, |Rect(w, h) - expanded|, |queue|
    {
      var rest;
      ghost var perm;
      last, rest, perm := Pick(nav, queue, order);
      if last == end {
        break;
      }
      PickKeepsFrontier(g, t, start, end, queue, reached, expanded, perm, last, rest);
      ghost var reached0, expanded0, size0 := reached, expanded, |queue|;
      queue, reached := Expand(nav, g, t, start, end, last, rest, reached, expanded);
      Progress(Rect(w, h), reached0, reached, expanded0, last, start, size0, |queue|);
      expanded := expanded + {last};
    }
    if last != end {
      Exhausted(g, t, start, end, reached, expanded);
    }
  }

  /** The node grid before the search: every node untouched but the start's, scored g 0 and f = h. */
  method NewGrid<T>(g: seq<seq<T>>, w: nat, h: nat, start: Point, end: Point, t: T) returns (nav: array2<Node>)
    requires IsRect(g, w, h) && InBounds(start, w, h)
    ensures fresh(nav) && nav.Length0 == w && nav.Length1 == h
    ensures NavOk(nav, g, t, start, end, {})
  {
    nav := new Node[w, h]((x, y) => Node(Point(x, y), None, Max, Max, Max));
    var h0 := Manhattan(end, start);
    nav[start.x, start.y] := nav[start.x, start.y].(g := Finite(0), h := Finite(h0), f := Finite(h0));
  }

  /** Growing a set of cells leaves fewer outside it, strictly fewer when a cell of `all` was added. */
  lemma Fewer(all: set<Point>, a: set<Point>, b: set<Point>)
    requires a <= b
    ensures |all - b| <= |all - a|
    ensures (exists p :: p in all && p in b && p !in a) ==> |all - b| < |all - a|
  {
    Sorting.SubsetSize(all - b, all - a);
    if exists p :: p in all && p in b && p !in a {
      var p :| p in all && p in b && p !in a;
      Sorting.SubsetSize(all - b, all - a - {p});
    }
  }

  /**
   * One step of the search makes progress: it reaches a new cell, or
   * expands a cell for the first time, or shortens the list.
   */
  lemma Progress(all: set<Point>, reached0: set<Point>, reached: set<Point>, expanded0: set<Point>,
                 current: Point, start: Point, n0: nat, n: nat)
    requires reached0 <= reached <= all && current in all
    requires current != start ==> current !in expanded0
    requires reached == reached0 && current == start ==> n < n0
    ensures |all - reached| < |all - reached0| ||
      (|all - reached| == |all - reached0| &&
       (|all - (expanded0 + {current})| < |all - expanded0| ||
        (|all - (expanded0 + {current})| == |all - expanded0| && n < n0)))
  {
    Fewer(all, reached0, reached);
    Fewer(all, expanded0, expanded0 + {current});
    if reached != reached0 {
      var p :| p in reached && p !in reached0;
    }
  }

  /** When the list runs out, the goal is out of reach. */
  lemma Exhausted<T>(g: seq<seq<T>>, t: T, start: Point, end: Point, reached: set<Point>, expanded: set<Point>)
    requires Frontier(g, t, start, end, [], reached, expanded, None)
    ensures end != start && !Reaches(g, t, start, end)
  {
    assert Closed(g, t, expanded) by {
      forall p, q | p in expanded && Adjacent4(p, q) && Open(g, t, q)
        ensures q in expanded
      {
        assert Covered(g, t, start, reached, p);
      }
    }
    assert start in expanded;
    forall path | Walk(g, t, start, path) && |path| > 0
      ensures path[|path| - 1] != end
    {
      WalkStaysIn(g, t, start, expanded, path, |path| - 1);
    }
  }

  // ------------------------------------------------------------- the path

  /** `rev` runs from `last` back along parent links to `cur`, with g scores falling all the way. */
  ghost predicate Chain(nav: array2<Node>, reached: set<Point>, last: Point, rev: seq<Point>, cur: Point)
    reads nav
  {
    (|rev| == 0 ==> cur == last) &&
    (|rev| > 0 ==> rev[0] == last && Adjacent4(rev[|rev| - 1], cur)) &&
    (forall k :: 0 <= k < |rev| - 1 ==> Adjacent4(rev[k], rev[k + 1])) &&
    (forall k :: 0 <= k < |rev| ==> rev[k] in reached && Steps(nav, rev[k]) > Steps(nav, cur)) &&
    (forall i, j :: 0 <= i < j < |rev| ==> Steps(nav, rev[i]) > Steps(nav, rev[j]))
  }

  /**
   * Follow the parent links from `last` until a node without parent, listing
   * each cell, then reverse the list: a walk from the start to `last` that
   * leaves out the start and never repeats a cell.
   */
  method TraceBack<T>(nav: array2<Node>, g: seq<seq<T>>, t: T, start: Point, end: Point, ghost reached: set<Point>, last: Point)
      returns (path: seq<Point>)
    requires NavOk(nav, g, t, start, end, reached) && (last == start || last in reached)
    ensures Walk(g, t, start, path)
    ensures forall k :: 0 <= k < |path| ==> path[k] != start
    ensures forall i, j :: 0 <= i < j < |path| ==> path[i] != path[j]
    ensures |path| == 0 <==> last == start
    ensures |path| > 0 ==> path[|path| - 1] == last
  {
    var rev := ParentChain(nav, g, t, start, end, reached, last);
    path := Reversed(rev);
    ChainIsWalk(nav, g, t, start, end, reached, last, rev);
  }

  /** The parent-link loop: the cells from `last` back to the start, the start left out. */
  method ParentChain<T>(nav: array2<Node>, g: seq<seq<T>>, t: T, start: Point, end: Point, ghost reached: set<Point>, last: Point)
      returns (rev: seq<Point>)
    requires NavOk(nav, g, t, start, end, reached) && (last == start || last in reached)
    ensures Chain(nav, reached, last, rev, start)
  {
    rev := [];
    var cur := last;
    assert CellOk(nav, g, t, start, end, reached, cur.x, cur.y);
    while nav[cur.x, cur.y].parent.Some?
      invariant cur == start || cur in reached
      invariant Chain(nav, reached, last, rev, cur)
      decreases Steps(nav, cur)
    {
      assert CellOk(nav, g, t, start, end, reached, cur.x, cur.y);
      rev := rev + [nav[cur.x, cur.y].pos];
      cur := nav[cur.x, cur.y].parent.value;
      assert CellOk(nav, g, t, start, end, reached, cur.x, cur.y);
    }
    assert CellOk(nav, g, t, start, end, reached, cur.x, cur.y);
  }

  /** A parent chain read backwards is a walk from the start that never repeats a cell. */
  lemma ChainIsWalk<T>(nav: array2<Node>, g: seq<seq<T>>, t: T, start: Point, end: Point, reached: set<Point>, last: Point, rev: seq<Point>)
    requires NavOk(nav, g, t, start, end, reached) && (last == start || last in reached)
    requires Chain(nav, reached, last, rev, start)
    ensures Walk(g, t, start, Reversed(rev))
    ensures forall k :: 0 <= k < |rev| ==> Reversed(rev)[k] != start
    ensures forall i, j :: 0 <= i < j < |rev| ==> Reversed(rev)[i] != Reversed(rev)[j]
    ensures |rev| == 0 <==> last == start
    ensures |rev| > 0 ==> Reversed(rev)[|rev| - 1] == last
  {
    var path := Reversed(rev);
    forall k | 0 <= k < |path|
      ensures Open(g, t, path[k]) && path[k] != start
    {
      assert path[k] in reached;
      assert CellOk(nav, g, t, start, end, reached, path[k].x, path[k].y);
    }
    if last != start {
      assert CellOk(nav, g, t, start, end, reached, last.x, last.y);
    }
  }

  // ------------------------------------------------------------- the two versions

  /**
   * JavaScript `findPath`: a start off the grid makes the first node access a
   * TypeError (None). Otherwise the path is a walk from the start that ends
   * at the goal whenever the goal can be reached at all; when it cannot, the
   * path leads to the last cell the search took instead.
   */
  method FindPathJs<T(==)>(start: Point, end: Point, m: array2<T>, t: T) returns (r: Option<seq<Point>>, ghost last: Point)
    ensures r.None? <==> !InBounds(start, m.Length0, m.Length1)
    ensures r.Some? ==> Walk(Cells(m), t, start, r.value)
    ensures r.Some? ==> forall k :: 0 <= k < |r.value| ==> r.value[k] != start
    ensures r.Some? ==> forall i, j :: 0 <= i < j < |r.value| ==> r.value[i] != r.value[j]
    ensures r.Some? ==> (|r.value| == 0 <==> last == start) && (|r.value| > 0 ==> r.value[|r.value| - 1] == last)
    ensures r.Some? ==> last == end || !Reaches(Cells(m), t, start, end)
    ensures r.Some? && end != start && Reaches(Cells(m), t, start, end) ==> |r.value| > 0 && r.value[|r.value| - 1] == end
  {
    if !InBounds(start, m.Length0, m.Length1) {
      return None, start;
    }
    var g := Cells(m);
    var nav, taken;
    ghost var reached;
    nav, taken, reached := Search(g, m.Length0, m.Length1, start, end, t, LowestFirst);
    var path := TraceBack(nav, g, t, start, end, reached, taken);
    last := taken;
    r := Some(path);
  }

  /**
   * C++ `findPath`: the start must be on the map (the node grid is indexed
   * at it unchecked). The path is non-empty exactly when the goal differs
   * from the start and can be reached, and then it is a walk from the start
   * to the goal that never repeats a cell.
   */
  method FindPathCpp<T(==)>(start: Point, end: Point, m: array2<T>, t: T) returns (path: seq<Point>)
    requires InBounds(start, m.Length0, m.Length1)
    ensures Walk(Cells(m), t, start, path)
    ensures forall k :: 0 <= k < |path| ==> path[k] != start
    ensures forall i, j :: 0 <= i < j < |path| ==> path[i] != path[j]
    ensures |path| > 0 <==> end != start && Reaches(Cells(m), t, start, end)
    ensures |path| > 0 ==> path[|path| - 1] == end
  {
    var g := Cells(m);
    var nav, last, reached := Search(g, m.Length0, m.Length1, start, end, t, HighestFirst);
    path := [];
    if last == end {
      path := TraceBack(nav, g, t, start, end, reached, last);
    }
  }
}
