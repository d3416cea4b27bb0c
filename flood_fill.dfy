// The labelling pass shared by the JavaScript and C++ region identifiers:
// scan the map column by column, and from every cell not yet flagged that
// holds the wanted symbol run a breadth-first fill over 4-neighbours. A
// `hitMap` of flags keeps each cell from being looked at twice.
//
// The map is given column by column. A column shorter than the scan height
// holds nothing in its missing rows (in the JavaScript an absent entry is
// `undefined` and never equals the wanted symbol); the C++ map is
// rectangular.

module FloodFill {
  import opened Grid
  import Sorting

  /** The four orthogonal neighbours, in the order both identifiers try them. */
  function Neighbours4(p: Point): (ns: seq<Point>)
    ensures |ns| == 4
  {
    [Point(p.x - 1, p.y), Point(p.x + 1, p.y), Point(p.x, p.y - 1), Point(p.x, p.y + 1)]
  }

  lemma Neighbours4AreAdjacent(p: Point, q: Point)
    ensures q in Neighbours4(p) <==> Adjacent4(p, q)
  {
  }

  lemma Neighbours4Symmetric(p: Point, q: Point)
    ensures q in Neighbours4(p) <==> p in Neighbours4(q)
  {
  }

  /** Map cell p exists and holds ident. */
  predicate Holds<T(==)>(g: seq<seq<T>>, ident: T, p: Point)
  {
    0 <= p.x < |g| && 0 <= p.y < |g[p.x]| && g[p.x][p.y] == ident
  }

  predicate Distinct(s: seq<Point>)
  {
    forall i, j :: 0 <= i < j < |s| ==> s[i] != s[j]
  }

  /** s[k] is a 4-neighbour of an earlier entry. */
  predicate FollowsEarlier(s: seq<Point>, k: int)
    requires 0 <= k < |s|
  {
    exists j :: 0 <= j < k && Adjacent4(s[j], s[k])
  }

  /** Every coordinate after the first is a 4-neighbour of an earlier one. */
  predicate Chained(s: seq<Point>)
  {
    forall k :: 0 < k < |s| ==> FollowsEarlier(s, k)
  }

  /** parent[k] is the earlier position from which s[k] was reached. */
  predicate ReachedFrom(s: seq<Point>, parent: seq<nat>)
  {
    |parent| == |s| && forall k :: 0 < k < |s| ==> parent[k] < k && Adjacent4(s[parent[k]], s[k])
  }

  lemma ReachedIsChained(s: seq<Point>, parent: seq<nat>)
    requires ReachedFrom(s, parent)
    ensures Chained(s)
  {
    forall k | 0 < k < |s|
      ensures FollowsEarlier(s, k)
    {
      var j := parent[k];
      assert 0 <= j < k && Adjacent4(s[j], s[k]);
    }
  }

  /** Every coordinate of every region. */
  function Members(rs: seq<seq<Point>>): set<Point>
  {
    set i, p | 0 <= i < |rs| && p in rs[i] :: p
  }

  lemma MembersAppend(rs: seq<seq<Point>>, r: seq<Point>)
    ensures Members(rs + [r]) == Members(rs) + set p | p in r
  {
    var rs' := rs + [r];
    forall p | p in Members(rs')
      ensures p in Members(rs) + set p | p in r
    {
      var i :| 0 <= i < |rs'| && p in rs'[i];
      if i < |rs| {
        assert p in rs[i];
      }
    }
    forall p | p in Members(rs) + set p | p in r
      ensures p in Members(rs')
    {
      if p in Members(rs) {
        var i :| 0 <= i < |rs| && p in rs[i];
        assert p in rs'[i];
      } else {
        assert p in rs'[|rs|];
      }
    }
  }

  /** No coordinate lies in two regions. */
  predicate Disjoint(rs: seq<seq<Point>>)
  {
    forall i, j, p :: 0 <= i < j < |rs| && p in rs[i] ==> p !in rs[j]
  }

  /** No region can be grown: every in-bounds neighbour holding ident is already in it. */
  predicate Closed<T(==)>(g: seq<seq<T>>, ident: T, w: int, h: int, rs: seq<seq<Point>>)
  {
    forall i, p, q :: 0 <= i < |rs| && p in rs[i] && q in Neighbours4(p) && InBounds(q, w, h) && Holds(g, ident, q) ==> q in rs[i]
  }

  /** The regions found so far: nonempty, repeat-free, chained, of ident cells, disjoint and closed. */
  ghost predicate Found<T>(g: seq<seq<T>>, ident: T, w: int, h: int, rs: seq<seq<Point>>)
  {
    (forall i :: 0 <= i < |rs| ==> |rs[i]| > 0 && Distinct(rs[i]) && Chained(rs[i])) &&
    (forall i, p :: 0 <= i < |rs| && p in rs[i] ==> InBounds(p, w, h) && Holds(g, ident, p)) &&
    Disjoint(rs) && Closed(g, ident, w, h, rs)
  }

  /** Every flagged ident cell belongs to a region. */
  ghost predicate Covered<T>(g: seq<seq<T>>, ident: T, rs: seq<seq<Point>>, flagged: set<Point>)
  {
    forall p :: p in flagged && Holds(g, ident, p) ==> p in Members(rs)
  }

  /** The hit map's true cells are exactly `flagged`. */
  ghost predicate Tracks(hit: array2<bool>, flagged: set<Point>)
    reads hit
  {
    (forall p :: p in flagged ==> InBounds(p, hit.Length0, hit.Length1)) &&
    forall x, y :: 0 <= x < hit.Length0 && 0 <= y < hit.Length1 ==> (hit[x, y] <==> Point(x, y) in flagged)
  }

  /** log lists the flagged cells in the order they were flagged, each once. */
  ghost predicate Logged(log: seq<Point>, flagged: set<Point>)
  {
    Distinct(log) && forall p :: p in log <==> p in flagged
  }

  /**
   * The state of a fill in progress: `enclosed` holds the coordinates taken
   * off the worklist, `queue` the worklist; the first `settled` entries of
   * `enclosed` have had all their neighbours looked at.
   */
  ghost predicate Filling<T>(g: seq<seq<T>>, ident: T, w: int, h: int, rs: seq<seq<Point>>, flagged: set<Point>,
                                 enclosed: seq<Point>, queue: seq<Point>, parent: seq<nat>, settled: nat)
  {
    var trace := enclosed + queue;
    |trace| > 0 && settled <= |enclosed| &&
    (forall p :: p in trace ==> InBounds(p, w, h) && Holds(g, ident, p) && p in flagged && p !in Members(rs)) &&
    Distinct(trace) && ReachedFrom(trace, parent) &&
    (forall p :: p in flagged && Holds(g, ident, p) ==> p in Members(rs) || p in trace) &&
    (forall k, q :: 0 <= k < settled && q in Neighbours4(enclosed[k]) && InBounds(q, w, h) ==> q in flagged)
  }

  /** p comes before q in the column-by-column scan. */
  predicate ScanBefore(p: Point, q: Point)
  {
    p.x < q.x || (p.x == q.x && p.y < q.y)
  }

  /**
   * Regions in the order of their first cells in the scan, each first cell
   * the earliest cell of its region, all of them before the scan position
   * (x, y).
   */
  ghost predicate ScanOrdered(rs: seq<seq<Point>>, x: int, y: int)
  {
    (forall i :: 0 <= i < |rs| ==> |rs[i]| > 0 && ScanBefore(rs[i][0], Point(x, y))) &&
    (forall i, j :: 0 <= i < j < |rs| && |rs[i]| > 0 && |rs[j]| > 0 ==> ScanBefore(rs[i][0], rs[j][0])) &&
    (forall i, p :: 0 <= i < |rs| && |rs[i]| > 0 && p in rs[i] ==> p == rs[i][0] || ScanBefore(rs[i][0], p))
  }

  /**
   * The identifiers' scan: the regions of 4-connected cells holding ident,
   * each listed in the order its fill reached it, regions in the order
   * their first cell comes in the column-by-column scan.
   */
  method FindRegions<T(==)>(g: seq<seq<T>>, ident: T, w: nat, h: nat) returns (rs: seq<seq<Point>>, ghost log: seq<Point>)
    requires |g| == w
    ensures Found(g, ident, w, h, rs)
    ensures forall p :: InBounds(p, w, h) && Holds(g, ident, p) ==> p in Members(rs)
    ensures Logged(log, Rect(w, h))
    ensures ScanOrdered(rs, w, 0)
  {
    var hit := new bool[w, h]((x, y) => false);
    ghost var flagged: set<Point> := {};
    log := [];
    rs := [];
    var x := 0;
    while x < w
      invariant 0 <= x <= w
      invariant Tracks(hit, flagged) && Logged(log, flagged)
      invariant Found(g, ident, w, h, rs) && Covered(g, ident, rs, flagged) && Members(rs) <= flagged
      invariant forall i, j :: 0 <= i < x && 0 <= j < h ==> Point(i, j) in flagged
      invariant ScanOrdered(rs, x, 0)
    {
      var y := 0;
      while y < h
        invariant 0 <= y <= h
        invariant Tracks(hit, flagged) && Logged(log, flagged)
        invariant Found(g, ident, w, h, rs) && Covered(g, ident, rs, flagged) && Members(rs) <= flagged
        invariant forall i, j :: 0 <= i < w && 0 <= j < h && (i < x || (i == x && j < y)) ==> Point(i, j) in flagged
        invariant ScanOrdered(rs, x, y)
      {
        rs, flagged, log := ScanCell(g, ident, w, h, hit, x, y, rs, flagged, log);
        y := y + 1;
      }
      NextColumn(rs, x, h);
      x := x + 1;
    }
    forall p | InBounds(p, w, h)
      ensures p in flagged
    {
      assert Point(p.x, p.y) in flagged;
    }
    assert flagged == Rect(w, h);
  }

  /** One cell of the scan: flag it if it is not yet flagged, and fill a new region from it when it holds ident. */
  method ScanCell<T(==)>(g: seq<seq<T>>, ident: T, w: nat, h: nat, hit: array2<bool>, x: nat, y: nat,
                         rs: seq<seq<Point>>, ghost flagged: set<Point>, ghost log: seq<Point>)
    returns (rs': seq<seq<Point>>, ghost flagged': set<Point>, ghost log': seq<Point>)
    requires |g| == w && hit.Length0 == w && hit.Length1 == h && x < w && y < h
    requires Tracks(hit, flagged) && Logged(log, flagged)
    requires Found(g, ident, w, h, rs) && Covered(g, ident, rs, flagged) && Members(rs) <= flagged
    requires forall i, j :: 0 <= i < w && 0 <= j < h && (i < x || (i == x && j < y)) ==> Point(i, j) in flagged
    requires ScanOrdered(rs, x, y)
    modifies hit
    ensures Tracks(hit, flagged') && Logged(log', flagged')
    ensures Found(g, ident, w, h, rs') && Covered(g, ident, rs', flagged') && Members(rs') <= flagged'
    ensures flagged <= flagged' && Point(x, y) in flagged'
    ensures ScanOrdered(rs', x, y + 1)
  {
    rs', flagged', log' := rs, flagged, log;
    var p := Point(x, y);
    if !hit[x, y] {
      hit[x, y] := true;
      flagged' := flagged + {p};
      log' := log + [p];
      if Holds(g, ident, p) {
        var enclosed;
        enclosed, flagged', log' := Fill(g, ident, w, h, hit, p, rs, flagged', log');
        rs' := rs + [enclosed];
        MembersAppend(rs, enclosed);
        NewRegionOrdered(rs, enclosed, x, y, w, h, flagged);
      }
    }
    if rs' == rs {
      LaterPosition(rs, x, y);
    }
  }

  /** A region first reached at (x, y), with no cell flagged before, extends the scan order. */
  lemma NewRegionOrdered(rs: seq<seq<Point>>, r: seq<Point>, x: int, y: int, w: int, h: int, flagged: set<Point>)
    requires ScanOrdered(rs, x, y) && |r| > 0 && r[0] == Point(x, y)
    requires forall i, j :: 0 <= i < w && 0 <= j < h && (i < x || (i == x && j < y)) ==> Point(i, j) in flagged
    requires forall p :: p in r ==> p == Point(x, y) || (p !in flagged && InBounds(p, w, h))
    ensures ScanOrdered(rs + [r], x, y + 1)
  {
    var rs' := rs + [r];
    forall i, p | 0 <= i < |rs'| && p in rs'[i]
      ensures p == rs'[i][0] || ScanBefore(rs'[i][0], p)
    {
      if i == |rs| {
        assert rs'[i] == r;
        if p != Point(x, y) {
          assert !(p.x < x || (p.x == x && p.y < y));
        }
      } else {
        assert rs'[i] == rs[i];
      }
    }
  }

  /** The scan position moving on by one row keeps the scan order. */
  lemma LaterPosition(rs: seq<seq<Point>>, x: int, y: int)
    requires ScanOrdered(rs, x, y)
    ensures ScanOrdered(rs, x, y + 1)
  {
  }

  /** The scan moving on to the next column keeps the scan order. */
  lemma NextColumn(rs: seq<seq<Point>>, x: int, y: int)
    requires ScanOrdered(rs, x, y)
    ensures ScanOrdered(rs, x + 1, 0)
  {
  }

  /**
   * The breadth-first fill from `start`: take the front of the worklist,
   * record it, and flag and queue each of its in-bounds unflagged
   * neighbours that holds ident (a neighbour that does not hold ident is
   * flagged all the same).
   */
  method Fill<T(==)>(g: seq<seq<T>>, ident: T, w: nat, h: nat, hit: array2<bool>, start: Point,
                     ghost rs: seq<seq<Point>>, ghost flagged0: set<Point>, ghost log0: seq<Point>)
    returns (enclosed: seq<Point>, ghost flagged: set<Point>, ghost log: seq<Point>)
    requires |g| == w && hit.Length0 == w && hit.Length1 == h
    requires Tracks(hit, flagged0) && Logged(log0, flagged0)
    requires Found(g, ident, w, h, rs) && Members(rs) <= flagged0
    requires forall p :: p in flagged0 && Holds(g, ident, p) ==> p in Members(rs) || p == start
    requires start in flagged0 && InBounds(start, w, h) && Holds(g, ident, start) && start !in Members(rs)
    modifies hit
    ensures Tracks(hit, flagged) && Logged(log, flagged) && flagged0 <= flagged
    ensures Found(g, ident, w, h, rs + [enclosed]) && Covered(g, ident, rs + [enclosed], flagged)
    ensures Members(rs + [enclosed]) <= flagged
    ensures |enclosed| > 0 && enclosed[0] == start
    ensures forall p :: p in enclosed ==> p == start || p !in flagged0
  {
    enclosed := [];
    var queue := [start];
    ghost var parent: seq<nat> := [0];
    flagged, log := flagged0, log0;
    while |queue| > 0
      invariant Tracks(hit, flagged) && Logged(log, flagged) && flagged0 <= flagged
      invariant Filling(g, ident, w, h, rs, flagged, enclosed, queue, parent, |enclosed|)
      invariant (enclosed + queue)[0] == start
      invariant flagged <= Rect(w, h) && Members(rs) <= flagged
      decreases |Rect(w, h) - flagged|, |queue|
    {
      ghost var before := flagged;
      Dequeue(g, ident, w, h, rs, flagged, enclosed, queue, parent);
      var current := queue[0];
      queue := queue[1..];
      enclosed := enclosed + [current];
      queue, parent, flagged, log := Expand(g, ident, w, h, hit, rs, enclosed, queue, parent, flagged, log);
      SmallerRemainder(w, h, before, flagged);
    }
    CloseRegion(g, ident, w, h, rs, flagged, enclosed, parent);
    MembersAppend(rs, enclosed);
    assert enclosed + queue == enclosed;
  }

  /** Taking the front of the worklist onto `enclosed` leaves the trace as it was. */
  lemma Dequeue<T>(g: seq<seq<T>>, ident: T, w: int, h: int, rs: seq<seq<Point>>, flagged: set<Point>,
                   enclosed: seq<Point>, queue: seq<Point>, parent: seq<nat>)
    requires |queue| > 0
    requires Filling(g, ident, w, h, rs, flagged, enclosed, queue, parent, |enclosed|)
    ensures (enclosed + [queue[0]]) + queue[1..] == enclosed + queue
    ensures Filling(g, ident, w, h, rs, flagged, enclosed + [queue[0]], queue[1..], parent, |enclosed|)
  {
    assert (enclosed + [queue[0]]) + queue[1..] == enclosed + queue;
  }

  /** Looks at the four neighbours of the coordinate just taken off the worklist. */
  method Expand<T(==)>(g: seq<seq<T>>, ident: T, w: nat, h: nat, hit: array2<bool>,
                       ghost rs: seq<seq<Point>>, enclosed: seq<Point>, queue: seq<Point>, ghost parent: seq<nat>,
                       ghost flagged: set<Point>, ghost log: seq<Point>)
    returns (queue': seq<Point>, ghost parent': seq<nat>, ghost flagged': set<Point>, ghost log': seq<Point>)
    requires |g| == w && hit.Length0 == w && hit.Length1 == h
    requires Tracks(hit, flagged) && Logged(log, flagged) && flagged <= Rect(w, h)
    requires |enclosed| > 0
    requires Filling(g, ident, w, h, rs, flagged, enclosed, queue, parent, |enclosed| - 1)
    requires Members(rs) <= flagged
    modifies hit
    ensures Tracks(hit, flagged') && Logged(log', flagged') && flagged <= flagged' <= Rect(w, h)
    ensures Filling(g, ident, w, h, rs, flagged', enclosed, queue', parent', |enclosed|)
    ensures flagged' == flagged ==> queue' == queue
    ensures (enclosed + queue')[0] == (enclosed + queue)[0]
  {
    var current := enclosed[|enclosed| - 1];
    queue', parent', flagged', log' := queue, parent, flagged, log;
    var i := 0;
    while i < 4
      invariant 0 <= i <= 4
      invariant Tracks(hit, flagged') && Logged(log', flagged') && flagged <= flagged' <= Rect(w, h)
      invariant Filling(g, ident, w, h, rs, flagged', enclosed, queue', parent', |enclosed| - 1)
      invariant forall k :: 0 <= k < i && InBounds(Neighbours4(current)[k], w, h) ==> Neighbours4(current)[k] in flagged'
      invariant flagged' == flagged ==> queue' == queue
      invariant (enclosed + queue')[0] == (enclosed + queue)[0]
    {
      queue', parent', flagged', log' := Visit(g, ident, w, h, hit, Neighbours4(current)[i], rs, enclosed, queue', parent', flagged', log');
      i := i + 1;
    }
    forall k, q | 0 <= k < |enclosed| && q in Neighbours4(enclosed[k]) && InBounds(q, w, h)
      ensures q in flagged'
    {
      if k < |enclosed| - 1 {
        assert q in flagged';
      }
    }
  }

  /** Flagging more cells leaves fewer unflagged ones. */
  lemma SmallerRemainder(w: int, h: int, a: set<Point>, b: set<Point>)
    requires a <= b <= Rect(w, h)
    ensures |Rect(w, h) - b| <= |Rect(w, h) - a|
    ensures a != b ==> |Rect(w, h) - b| < |Rect(w, h) - a|
  {
    var r := Rect(w, h);
    assert r - b <= r - a;
    if a != b {
      var q :| q in b && q !in a;
      assert (r - b) + {q} <= r - a;
      Shrinks(r - b, r - a, q);
    } else {
      assert r - b == r - a;
    }
  }

  lemma Shrinks(small: set<Point>, big: set<Point>, q: Point)
    requires small + {q} <= big && q !in small
    ensures |small| < |big|
  {
    SubsetSize(small + {q}, big);
  }

  lemma SubsetSize(a: set<Point>, b: set<Point>)
    requires a <= b
    ensures |a| <= |b|
  {
    if a != {} {
      var x :| x in a;
      SubsetSize(a - {x}, b - {x});
    }
  }

  /**
   * One neighbour q of the coordinate being expanded: skip it when it is off
   * the map or already flagged; otherwise flag it, and queue it when it
   * holds ident.
   */
  method Visit<T(==)>(g: seq<seq<T>>, ident: T, w: nat, h: nat, hit: array2<bool>, q: Point,
                      ghost rs: seq<seq<Point>>, enclosed: seq<Point>, queue: seq<Point>, ghost parent: seq<nat>,
                      ghost flagged: set<Point>, ghost log: seq<Point>)
    returns (queue': seq<Point>, ghost parent': seq<nat>, ghost flagged': set<Point>, ghost log': seq<Point>)
    requires |g| == w && hit.Length0 == w && hit.Length1 == h
    requires Tracks(hit, flagged) && Logged(log, flagged) && flagged <= Rect(w, h)
    requires |enclosed| > 0 && q in Neighbours4(enclosed[|enclosed| - 1])
    requires Filling(g, ident, w, h, rs, flagged, enclosed, queue, parent, |enclosed| - 1)
    requires Members(rs) <= flagged
    modifies hit
    ensures Tracks(hit, flagged') && Logged(log', flagged') && flagged <= flagged' <= Rect(w, h)
    ensures Filling(g, ident, w, h, rs, flagged', enclosed, queue', parent', |enclosed| - 1)
    ensures InBounds(q, w, h) ==> q in flagged'
    ensures flagged' == flagged ==> queue' == queue
    ensures (enclosed + queue')[0] == (enclosed + queue)[0]
  {
    queue', parent', flagged', log' := queue, parent, flagged, log;
    if q.x < 0 || q.y < 0 || q.x >= w || q.y >= h {
      return;
    } else if hit[q.x, q.y] {
      return;
    }
    hit[q.x, q.y] := true;
    flagged' := flagged + {q};
    log' := log + [q];
    if Holds(g, ident, q) {
      queue' := queue + [q];
      parent' := parent + [|enclosed| - 1];
      var trace := enclosed + queue;
      assert enclosed + queue' == trace + [q];
      assert trace[|enclosed| - 1] == enclosed[|enclosed| - 1];
      Neighbours4AreAdjacent(enclosed[|enclosed| - 1], q);
    }
  }

  /** When the worklist runs dry the enclosed coordinates form a closed, chained region disjoint from the earlier ones. */
  lemma CloseRegion<T>(g: seq<seq<T>>, ident: T, w: int, h: int, rs: seq<seq<Point>>, flagged: set<Point>,
                           enclosed: seq<Point>, parent: seq<nat>)
    requires Found(g, ident, w, h, rs)
    requires Filling(g, ident, w, h, rs, flagged, enclosed, [], parent, |enclosed|)
    ensures Found(g, ident, w, h, rs + [enclosed])
    ensures Covered(g, ident, rs + [enclosed], flagged)
  {
    assert enclosed + [] == enclosed;
    var rs' := rs + [enclosed];
    ReachedIsChained(enclosed, parent);
    MembersAppend(rs, enclosed);
    forall i, p, q | 0 <= i < |rs'| && p in rs'[i] && q in Neighbours4(p) && InBounds(q, w, h) && Holds(g, ident, q)
      ensures q in rs'[i]
    {
      if i == |rs| {
        var k :| 0 <= k < |enclosed| && enclosed[k] == p;
        assert q in flagged;
        if q in Members(rs) {
          var j :| 0 <= j < |rs| && q in rs[j];
          Neighbours4Symmetric(p, q);
        }
      } else {
        assert p in rs[i];
      }
    }
    forall i, j, p | 0 <= i < j < |rs'| && p in rs'[i]
      ensures p !in rs'[j]
    {
      if j == |rs| {
        assert p in Members(rs);
      }
    }
  }

  /** Reordering the regions keeps them the regions of the map: every property of Found, and the same cells. */
  lemma FoundPermuted<T>(g: seq<seq<T>>, ident: T, w: int, h: int, rs: seq<seq<Point>>, perm: seq<nat>)
    requires Found(g, ident, w, h, rs) && Sorting.IsPermutation(perm, |rs|)
    ensures Found(g, ident, w, h, Sorting.Permute(rs, perm))
    ensures Members(Sorting.Permute(rs, perm)) == Members(rs)
  {
    var ps := Sorting.Permute(rs, perm);
    forall i, j, p | 0 <= i < j < |ps| && p in ps[i]
      ensures p !in ps[j]
    {
      if perm[i] < perm[j] {
        assert p in rs[perm[i]];
      } else {
        assert perm[j] < perm[i] && p in rs[perm[i]];
      }
    }
    forall p | p in Members(rs)
      ensures p in Members(ps)
    {
      var i :| 0 <= i < |rs| && p in rs[i];
      Sorting.PermuteIsPermutation(rs, perm, i);
      var l :| 0 <= l < |rs| && ps[l] == rs[i];
    }
  }

  /** Ordered by size, larger first, and regions of equal size in the scan order of their first cells. */
  predicate SizeOrdered(rs: seq<seq<Point>>)
  {
    forall k, l :: 0 <= k < l < |rs| ==>
      |rs[k]| > |rs[l]| || (|rs[k]| == |rs[l]| && |rs[k]| > 0 && |rs[l]| > 0 && ScanBefore(rs[k][0], rs[l][0]))
  }

  /** The region sizes as sort keys. */
  function Sizes(rs: seq<seq<Point>>): (keys: seq<real>)
    ensures |keys| == |rs| && forall k :: 0 <= k < |rs| ==> keys[k] == |rs[k]| as real
  {
    seq(|rs|, k requires 0 <= k < |rs| => |rs[k]| as real)
  }

  /** A stable sort by decreasing size of regions in scan order orders them by size, then by first cell. */
  lemma StableSizeOrder<T>(g: seq<seq<T>>, ident: T, w: int, h: int, rs: seq<seq<Point>>, perm: seq<nat>, x: int, y: int)
    requires Found(g, ident, w, h, rs) && ScanOrdered(rs, x, y)
    requires Sorting.IsPermutation(perm, |rs|) && Sorting.StablyDescending(Sizes(rs), perm)
    ensures SizeOrdered(Sorting.Permute(rs, perm))
  {
  }
}
