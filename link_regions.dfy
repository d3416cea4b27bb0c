// `linkRegions` in both generators: flag the first (largest) region as the
// main one, then pass over the regions again and again; every region not yet
// linked to the main one is joined to the region at position `iter` of the
// list sorted by centre distance from it, by painting free cells along a line
// between the closest pair of their edge cells. The pass number `iter` grows
// by one per pass.
//
// A region is seen here through its centre and its edge cells (a `Site`);
// the links and "linked to main" flags are kept as lists indexed by region
// position: `links[k]` lists the positions region k was joined to, in order.
// Distances are compared through their squares, which orders them as the
// square roots do.

module LinkRegions {
  import opened Grid
  import Sorting
  import Lines
  import GameMap

  /** What `linkRegions` reads of a region: its centre of mass and its edge cells. */
  datatype Site = Site(cx: real, cy: real, edges: seq<Point>)

  /** How a run ends: normally, with a JavaScript TypeError, or on a C++ out-of-range read. */
  datatype Outcome = Done | Threw | Undefined

  /** The squared distance between two centres. */
  function CentreDistance(a: Site, b: Site): real
  {
    (a.cx - b.cx) * (a.cx - b.cx) + (a.cy - b.cy) * (a.cy - b.cy)
  }

  /** The squared distance of every centre from the centre of region i. */
  function Distances(sites: seq<Site>, i: nat): (d: seq<real>)
    requires i < |sites|
    ensures |d| == |sites| && forall k :: 0 <= k < |sites| ==> d[k] == CentreDistance(sites[k], sites[i])
  {
    seq(|sites|, k requires 0 <= k < |sites| => CentreDistance(sites[k], sites[i]))
  }

  /** The squared distance between two cells. */
  function SqDistance(p: Point, q: Point): int
  {
    (p.x - q.x) * (p.x - q.x) + (p.y - q.y) * (p.y - q.y)
  }

  /** (A', B') comes before (A, B) in the edge loops: A' first, then B'. */
  predicate Before(A': int, B': int, A: int, B: int)
  {
    A' < A || (A' == A && B' < B)
  }

  /**
   * (a, b) is the pair kept after the edge loops have looked at every pair
   * before (A, B): no looked-at pair is closer, and every looked-at pair
   * before it is strictly farther (only a strictly closer pair replaces the
   * one kept).
   */
  predicate BestUpTo(ea: seq<Point>, eb: seq<Point>, a: int, b: int, A: int, B: int)
  {
    0 <= a < |ea| && 0 <= b < |eb| && ((a == 0 && b == 0) || Before(a, b, A, B)) &&
    forall A', B' :: 0 <= A' < |ea| && 0 <= B' < |eb| && Before(A', B', A, B) ==>
      SqDistance(ea[a], eb[b]) <= SqDistance(ea[A'], eb[B']) &&
      (Before(A', B', a, b) ==> SqDistance(ea[a], eb[b]) < SqDistance(ea[A'], eb[B']))
  }

  /** The closest pair of cells, the first such pair in the loops' order. */
  predicate BestPair(ea: seq<Point>, eb: seq<Point>, a: int, b: int)
  {
    BestUpTo(ea, eb, a, b, |ea|, 0)
  }

  /** The edge loops: start from the two first cells, and take every strictly closer pair. */
  method BestEdges(ea: seq<Point>, eb: seq<Point>) returns (a: nat, b: nat)
    requires |ea| > 0 && |eb| > 0
    ensures BestPair(ea, eb, a, b)
  {
    a, b := 0, 0;
    var best := SqDistance(ea[0], eb[0]);
    var A := 0;
    while A < |ea|
      invariant 0 <= A <= |ea|
      invariant BestUpTo(ea, eb, a, b, A, 0) && best == SqDistance(ea[a], eb[b])
    {
      a, b, best := BestInRow(ea, eb, A, a, b, best);
      NextRow(ea, eb, a, b, A);
      A := A + 1;
    }
  }

  /** The inner edge loop for the cell ea[A]. */
  method BestInRow(ea: seq<Point>, eb: seq<Point>, A: nat, a: nat, b: nat, best: int) returns (a': nat, b': nat, best': int)
    requires A < |ea| && BestUpTo(ea, eb, a, b, A, 0) && best == SqDistance(ea[a], eb[b])
    ensures BestUpTo(ea, eb, a', b', A, |eb|) && best' == SqDistance(ea[a'], eb[b'])
  {
    a', b', best' := a, b, best;
    var B := 0;
    while B < |eb|
      invariant 0 <= B <= |eb|
      invariant BestUpTo(ea, eb, a', b', A, B) && best' == SqDistance(ea[a'], eb[b'])
    {
      var d := SqDistance(ea[A], eb[B]);
      if d < best' {
        a', b', best' := A, B, d;
      }
      B := B + 1;
    }
  }

  lemma NextRow(ea: seq<Point>, eb: seq<Point>, a: int, b: int, A: int)
    requires BestUpTo(ea, eb, a, b, A, |eb|)
    ensures BestUpTo(ea, eb, a, b, A + 1, 0)
  {
  }

  /** The first pair is the closest whenever no other pair is closer, whatever its place. */
  lemma BestPairIsClosest(ea: seq<Point>, eb: seq<Point>, a: int, b: int, A: int, B: int)
    requires BestPair(ea, eb, a, b) && 0 <= A < |ea| && 0 <= B < |eb|
    ensures SqDistance(ea[a], eb[b]) <= SqDistance(ea[A], eb[B])
    ensures SqDistance(ea[a], eb[b]) == SqDistance(ea[A], eb[B]) ==> (A == a && B == b) || Before(a, b, A, B)
  {
    assert Before(A, B, |ea|, 0);
  }

  /** There is one closest pair that comes first in the loops' order. */
  lemma BestPairUnique(ea: seq<Point>, eb: seq<Point>, a: int, b: int, a': int, b': int)
    requires BestPair(ea, eb, a, b) && BestPair(ea, eb, a', b')
    ensures a == a' && b == b'
  {
    BestPairIsClosest(ea, eb, a, b, a', b');
    BestPairIsClosest(ea, eb, a', b', a, b);
  }

  /** The partner chosen in pass iter is the one region at that position of the nearest-first order. */
  lemma NearestUnique(sites: seq<Site>, i: nat, iter: nat, j: nat, j': nat)
    requires i < |sites| && NearestAt(sites, i, iter, j) && NearestAt(sites, i, iter, j')
    ensures j == j'
  {
    var keys := Sorting.Negated(Distances(sites, i));
    var p :| Sorting.IsPermutation(p, |sites|) && Sorting.StablyDescending(keys, p) && iter < |p| && p[iter] == j;
    var q :| Sorting.IsPermutation(q, |sites|) && Sorting.StablyDescending(keys, q) && iter < |q| && q[iter] == j';
    Sorting.StableUnique(keys, p, q);
  }

  /** Cell (x, y) lies within radius r of some point of the line. */
  predicate Painted(line: seq<Point>, r: int, x: int, y: int)
  {
    exists k :: 0 <= k < |line| && Lines.InDisc(x - line[k].x, y - line[k].y, r)
  }

  /** `drawCircle` at every point of the line: a cell becomes brush exactly when it is within r of the line. */
  method PaintLine<T>(m: array2<T>, brush: T, line: seq<Point>, r: int)
    modifies m
    ensures forall x, y :: 0 <= x < m.Length0 && 0 <= y < m.Length1 ==>
      m[x, y] == if Painted(line, r, x, y) then brush else old(m[x, y])
  {
    var j := 0;
    while j < |line|
      invariant 0 <= j <= |line|
      invariant forall x, y :: 0 <= x < m.Length0 && 0 <= y < m.Length1 ==>
        m[x, y] == if Painted(line[..j], r, x, y) then brush else old(m[x, y])
    {
      Lines.DrawCircle(m, brush, line[j], r);
      PaintedStep(line, r, j);
      j := j + 1;
    }
    assert line[..j] == line;
  }

  lemma PaintedStep(line: seq<Point>, r: int, j: int)
    requires 0 <= j < |line|
    ensures forall x, y :: Painted(line[..j + 1], r, x, y) <==>
      Painted(line[..j], r, x, y) || Lines.InDisc(x - line[j].x, y - line[j].y, r)
  {
    forall x, y
      ensures Painted(line[..j + 1], r, x, y) <==>
        Painted(line[..j], r, x, y) || Lines.InDisc(x - line[j].x, y - line[j].y, r)
    {
      if Painted(line[..j + 1], r, x, y) {
        var k :| 0 <= k < j + 1 && Lines.InDisc(x - line[..j + 1][k].x, y - line[..j + 1][k].y, r);
        if k < j {
          assert line[..j][k] == line[k];
        }
      }
      if Painted(line[..j], r, x, y) {
        var k :| 0 <= k < j && Lines.InDisc(x - line[..j][k].x, y - line[..j][k].y, r);
        assert line[..j + 1][k] == line[k];
      }
      if Lines.InDisc(x - line[j].x, y - line[j].y, r) {
        assert line[..j + 1][j] == line[j];
      }
    }
  }

  // ------------------------------------------------------------- links

  /** Every link names a region position below n, and there is a list per region. */
  predicate LinksIn(links: seq<seq<nat>>, n: nat)
  {
    |links| == n && forall k, l :: 0 <= k < n && l in links[k] ==> l < n
  }

  /** Links come in pairs: k is listed by l as often as l is listed by k. */
  predicate Symmetric(links: seq<seq<nat>>)
  {
    forall k, l :: 0 <= k < |links| && 0 <= l < |links| ==> multiset(links[k])[l] == multiset(links[l])[k]
  }

  /** `links[i].push(j)` and `links[j].push(i)`. */
  function Join(links: seq<seq<nat>>, i: nat, j: nat): (r: seq<seq<nat>>)
    requires i < |links| && j < |links|
    ensures |r| == |links|
  {
    var once := links[i := links[i] + [j]];
    once[j := once[j] + [i]]
  }

  /** After joining i and j, the list of k counts l once more for each end of the new link. */
  lemma JoinCount(links: seq<seq<nat>>, i: nat, j: nat, k: nat, l: nat)
    requires i < |links| && j < |links| && k < |links|
    ensures multiset(Join(links, i, j)[k])[l] ==
      multiset(links[k])[l] + (if k == i && l == j then 1 else 0) + (if k == j && l == i then 1 else 0)
    ensures l in Join(links, i, j)[k] <==> l in links[k] || (k == i && l == j) || (k == j && l == i)
  {
    var once := links[i := links[i] + [j]];
    if k == i && k == j {
      assert Join(links, i, j)[k] == links[k] + [j] + [i];
    } else if k == i {
      assert Join(links, i, j)[k] == links[k] + [j];
    } else if k == j {
      assert Join(links, i, j)[k] == links[k] + [i];
    } else {
      assert Join(links, i, j)[k] == links[k];
    }
  }

  /** Joining two regions keeps the links in pairs. */
  lemma JoinSymmetric(links: seq<seq<nat>>, i: nat, j: nat)
    requires Symmetric(links) && i < |links| && j < |links|
    ensures Symmetric(Join(links, i, j))
  {
    var r := Join(links, i, j);
    forall k, l | 0 <= k < |links| && 0 <= l < |links|
      ensures multiset(r[k])[l] == multiset(r[l])[k]
    {
      JoinCount(links, i, j, k, l);
      JoinCount(links, i, j, l, k);
    }
  }

  /** Joining two regions adds exactly the two new links. */
  lemma JoinMembers(links: seq<seq<nat>>, i: nat, j: nat)
    requires i < |links| && j < |links|
    ensures forall k, l :: 0 <= k < |links| && l in Join(links, i, j)[k] ==> l in links[k] || (k == i && l == j) || (k == j && l == i)
    ensures i in Join(links, i, j)[j] && j in Join(links, i, j)[i]
  {
    forall k, l | 0 <= k < |links| && l in Join(links, i, j)[k]
      ensures l in links[k] || (k == i && l == j) || (k == j && l == i)
    {
      JoinCount(links, i, j, k, l);
    }
    JoinCount(links, i, j, i, j);
    JoinCount(links, i, j, j, i);
  }

  /** Joining two regions keeps the links in pairs and in range, and touches only the two lists. */
  lemma JoinKeepsPairs(links: seq<seq<nat>>, i: nat, j: nat)
    requires LinksIn(links, |links|) && Symmetric(links) && i < |links| && j < |links|
    ensures LinksIn(Join(links, i, j), |links|) && Symmetric(Join(links, i, j))
    ensures forall k :: 0 <= k < |links| && k != i && k != j ==> Join(links, i, j)[k] == links[k]
    ensures i in Join(links, i, j)[j] && j in Join(links, i, j)[i]
    ensures forall k, l :: 0 <= k < |links| && l in Join(links, i, j)[k] ==> l in links[k] || (k == i && l == j) || (k == j && l == i)
  {
    JoinSymmetric(links, i, j);
    JoinMembers(links, i, j);
  }

  /** Every region linked to main has all its links linked to main. */
  predicate Closed(links: seq<seq<nat>>, linked: seq<bool>)
    requires LinksIn(links, |linked|)
  {
    forall k, l :: 0 <= k < |linked| && linked[k] && l in links[k] ==> linked[l]
  }

  /** The number of regions not linked to main. */
  function Unflagged(linked: seq<bool>): nat
  {
    if |linked| == 0 then 0 else Unflagged(linked[..|linked| - 1]) + (if linked[|linked| - 1] then 0 else 1)
  }

  /** Raising flags never adds unflagged regions, and raising one more removes one. */
  lemma {:induction false} UnflaggedShrinks(a: seq<bool>, b: seq<bool>)
    requires |a| == |b| && forall k :: 0 <= k < |a| && a[k] ==> b[k]
    ensures Unflagged(b) <= Unflagged(a)
    ensures (exists k :: 0 <= k < |a| && !a[k] && b[k]) ==> Unflagged(b) < Unflagged(a)
  {
    if |a| > 0 {
      var n := |a| - 1;
      UnflaggedShrinks(a[..n], b[..n]);
      if exists k :: 0 <= k < |a| && !a[k] && b[k] {
        var k :| 0 <= k < |a| && !a[k] && b[k];
        if k < n {
          assert !a[..n][k] && b[..n][k];
        }
      }
    }
  }

  /** p is a walk along links from region a to region b: each region after the first is linked from the one before. */
  ghost predicate Walk(links: seq<seq<nat>>, p: seq<nat>, a: nat, b: nat)
  {
    |p| > 0 && p[0] == a && p[|p| - 1] == b &&
    (forall t :: 0 <= t < |p| ==> p[t] < |links|) &&
    (forall t :: 0 <= t < |p| - 1 ==> p[t + 1] in links[p[t]])
  }

  /** Region b can be reached from region a along links. */
  ghost predicate Joined(links: seq<seq<nat>>, a: nat, b: nat)
  {
    exists p :: Walk(links, p, a, b)
  }

  /** No region of p is flagged. */
  ghost predicate Avoids(p: seq<nat>, flags: seq<bool>)
  {
    forall t :: 0 <= t < |p| ==> p[t] < |flags| && !flags[p[t]]
  }

  /** Region k can be reached from region r along links through regions none of which is flagged. */
  ghost predicate Reached(links: seq<seq<nat>>, flags: seq<bool>, r: nat, k: nat)
  {
    exists p :: Walk(links, p, r, k) && Avoids(p, flags)
  }

  /** Every flagged region is joined to region 0 along links. */
  ghost predicate MainReaches(links: seq<seq<nat>>, linked: seq<bool>)
  {
    forall k :: 0 <= k < |linked| && linked[k] ==> Joined(links, 0, k)
  }

  /** A region on its own is a walk. */
  lemma WalkHere(links: seq<seq<nat>>, r: nat)
    requires r < |links|
    ensures Walk(links, [r], r, r)
  {
  }

  /** A walk to b followed by a walk from a region linked from b is a walk. */
  lemma WalkConcat(links: seq<seq<nat>>, p: seq<nat>, q: seq<nat>, a: nat, b: nat, c: nat, d: nat)
    requires Walk(links, p, a, b) && Walk(links, q, c, d) && c in links[b]
    ensures Walk(links, p + q, a, d)
  {
    var w := p + q;
    forall t | 0 <= t < |w| - 1
      ensures w[t + 1] in links[w[t]]
    {
      if t < |p| - 1 {
        assert w[t] == p[t] && w[t + 1] == p[t + 1];
      } else if t == |p| - 1 {
        assert w[t] == b && w[t + 1] == c;
      } else {
        assert w[t] == q[t - |p|] && w[t + 1] == q[t - |p| + 1];
      }
    }
  }

  /** A walk to b followed by a walk from b, sharing b, is a walk. */
  lemma WalkThrough(links: seq<seq<nat>>, p: seq<nat>, q: seq<nat>, a: nat, b: nat, d: nat)
    requires Walk(links, p, a, b) && Walk(links, q, b, d)
    ensures Joined(links, a, d)
  {
    if |q| == 1 {
      assert Walk(links, p, a, d);
    } else {
      var q' := q[1..];
      assert Walk(links, q', q[1], d) && q[1] in links[b];
      WalkConcat(links, p, q', a, b, q[1], d);
    }
  }

  /** Adding a link keeps every walk. */
  lemma WalkAfterJoin(links: seq<seq<nat>>, i: nat, j: nat, p: seq<nat>, a: nat, b: nat)
    requires i < |links| && j < |links| && Walk(links, p, a, b)
    ensures Walk(Join(links, i, j), p, a, b)
  {
    forall t | 0 <= t < |p| - 1
      ensures p[t + 1] in Join(links, i, j)[p[t]]
    {
      JoinCount(links, i, j, p[t], p[t + 1]);
    }
  }

  /** Adding a link keeps every flagged region joined to region 0. */
  lemma MainReachesAfterJoin(links: seq<seq<nat>>, linked: seq<bool>, i: nat, j: nat)
    requires |links| == |linked| && i < |links| && j < |links| && MainReaches(links, linked)
    ensures MainReaches(Join(links, i, j), linked)
  {
    forall k | 0 <= k < |linked| && linked[k]
      ensures Joined(Join(links, i, j), 0, k)
    {
      var p :| Walk(links, p, 0, k);
      WalkAfterJoin(links, i, j, p, 0, k);
    }
  }

  /** A walk through unflagged regions from a newly flagged region ends at a flagged one, when newly flagged regions have all their links flagged. */
  lemma {:induction false} FlagsCoverWalk(links: seq<seq<nat>>, linked: seq<bool>, linked': seq<bool>, p: seq<nat>, r: nat, k: nat)
    requires LinksIn(links, |linked|) && |linked'| == |linked|
    requires Walk(links, p, r, k) && Avoids(p, linked) && linked'[r]
    requires forall k, l :: 0 <= k < |linked| && linked'[k] && !linked[k] && l in links[k] ==> linked'[l]
    ensures linked'[k]
    decreases |p|
  {
    if |p| > 1 {
      var n := |p| - 1;
      assert Walk(links, p[..n], r, p[n - 1]);
      FlagsCoverWalk(links, linked, linked', p[..n], r, p[n - 1]);
      assert k in links[p[n - 1]];
    }
  }

  /** Stepping first from r to a region c it links to extends a walk from c through unflagged regions, when r is unflagged too. */
  lemma ReachedFromLink(links: seq<seq<nat>>, linked: seq<bool>, before: seq<bool>, r: nat, c: nat, k: nat)
    requires |before| == |linked| && r < |linked| && !linked[r] && r < |links| && c in links[r]
    requires forall t :: 0 <= t < |linked| && linked[t] ==> before[t]
    requires Reached(links, before, c, k)
    ensures Reached(links, linked, r, k)
  {
    var p :| Walk(links, p, c, k) && Avoids(p, before);
    WalkHere(links, r);
    WalkConcat(links, [r], p, r, r, c, k);
    assert Avoids([r] + p, linked);
  }

  /**
   * The JavaScript `recurseLink`: a region already flagged stops the walk;
   * otherwise flag it and walk its links in order. The regions flagged are
   * exactly those reachable from r through regions that were not flagged.
   */
  method RecurseLink(links: seq<seq<nat>>, linked: seq<bool>, r: nat) returns (linked': seq<bool>)
    requires r < |linked| && LinksIn(links, |linked|)
    ensures |linked'| == |linked| && linked'[r]
    ensures forall k :: 0 <= k < |linked| ==> (linked'[k] <==> linked[k] || Reached(links, linked, r, k))
    ensures forall k, l :: 0 <= k < |linked| && linked'[k] && !linked[k] && l in links[k] ==> linked'[l]
    decreases Unflagged(linked)
  {
    if linked[r] {
      return linked;
    }
    linked' := linked[r := true];
    WalkHere(links, r);
    assert Avoids([r], linked);
    UnflaggedShrinks(linked, linked');
    assert forall t :: 0 <= t < |links[r]| ==> links[r][t] in links[r];
    var j := 0;
    while j < |links[r]|
      invariant 0 <= j <= |links[r]|
      invariant forall t :: 0 <= t < |links[r]| ==> links[r][t] < |linked|
      invariant |linked'| == |linked| && linked'[r]
      invariant forall k :: 0 <= k < |linked| && linked[k] ==> linked'[k]
      invariant forall k :: 0 <= k < |linked| && linked'[k] && !linked[k] ==> Reached(links, linked, r, k)
      invariant forall t :: 0 <= t < j ==> linked'[links[r][t]]
      invariant forall k, l :: 0 <= k < |linked| && k != r && linked'[k] && !linked[k] && l in links[k] ==> linked'[l]
      invariant Unflagged(linked') < Unflagged(linked)
    {
      ghost var before := linked';
      var c := links[r][j];
      linked' := RecurseLink(links, linked', c);
      forall k | 0 <= k < |linked| && linked'[k] && !linked[k]
        ensures Reached(links, linked, r, k)
      {
        if !before[k] {
          ReachedFromLink(links, linked, before, r, c, k);
        }
      }
      UnflaggedShrinks(before, linked');
      j := j + 1;
    }
    forall l | l in links[r]
      ensures linked'[l]
    {
      var t :| 0 <= t < |links[r]| && links[r][t] == l;
    }
    forall k | 0 <= k < |linked| && Reached(links, linked, r, k)
      ensures linked'[k]
    {
      var p :| Walk(links, p, r, k) && Avoids(p, linked);
      FlagsCoverWalk(links, linked, linked', p, r, k);
    }
  }

  /** Flagging i, which was joined to a flagged region, and walking from it, keeps the flags closed. */
  lemma RelinkCloses(links: seq<seq<nat>>, before: seq<bool>, after: seq<bool>, i: nat)
    requires LinksIn(links, |before|) && |after| == |before| && i < |before|
    requires forall k, l :: 0 <= k < |before| && before[k] && l in links[k] ==> before[l] || l == i
    requires after[i] && forall k :: 0 <= k < |before| && before[k] ==> after[k]
    requires forall k, l :: 0 <= k < |before| && after[k] && !before[k] && l in links[k] ==> after[l]
    ensures Closed(links, after)
  {
  }

  /** region j is at position iter in the stable order of regions by distance from region i, nearest first (JavaScript `sort`). */
  ghost predicate NearestAt(sites: seq<Site>, i: nat, iter: nat, j: nat)
    requires i < |sites|
  {
    exists perm :: Sorting.IsPermutation(perm, |sites|) &&
      Sorting.StablyDescending(Sorting.Negated(Distances(sites, i)), perm) && iter < |perm| && perm[iter] == j
  }

  /** region j is at position iter in an order of regions by distance from region i, farthest first (C++ `std::sort` with `>`). */
  ghost predicate FarthestAt(sites: seq<Site>, i: nat, iter: nat, j: nat)
    requires i < |sites|
  {
    exists perm :: Sorting.IsPermutation(perm, |sites|) &&
      Sorting.Descending(Distances(sites, i), perm) && iter < |perm| && perm[iter] == j
  }

  // ------------------------------------------------------------- JavaScript

  /** The line between the closest pair of edge cells of regions i and j, as `getLine` builds it. */
  ghost predicate PassageLine(sites: seq<Site>, i: nat, j: nat, line: seq<Point>)
    requires i < |sites| && j < |sites|
  {
    exists a, b :: BestPair(sites[i].edges, sites[j].edges, a, b) &&
      Lines.IsLine(line, sites[i].edges[a], Lines.LineAxes(sites[i].edges[a], sites[j].edges[b], 0))
  }

  /**
   * One unlinked region i in pass iter: pick the region at position iter of
   * the nearest-first order, join the closest pair of edge cells with a
   * passage, record the link both ways, and if the partner is linked to
   * main, flag i and everything reachable from it. `proximity[iter]` past
   * the end, or a region with no edge cell, is a TypeError.
   */
  method LinkOneJs<T>(sites: seq<Site>, m: array2<T>, brush: T, passage: int, iter: nat, i: nat,
                      links: seq<seq<nat>>, linked: seq<bool>)
      returns (outcome: Outcome, links': seq<seq<nat>>, linked': seq<bool>, partner: nat, line: seq<Point>)
    requires i < |sites| && |linked| == |sites| && !linked[i]
    requires LinksIn(links, |sites|) && Symmetric(links) && Closed(links, linked) && MainReaches(links, linked)
    modifies m
    ensures outcome != Undefined
    ensures LinksIn(links', |sites|) && Symmetric(links') && |linked'| == |sites| && Closed(links', linked')
    ensures MainReaches(links', linked')
    ensures iter < |sites| ==> partner < |sites| && NearestAt(sites, i, iter, partner)
    ensures outcome == Threw <==> iter >= |sites| || |sites[i].edges| == 0 || |sites[partner].edges| == 0
    ensures outcome == Threw ==> links' == links && linked' == linked && unchanged(m)
    ensures outcome == Done ==> PassageLine(sites, i, partner, line) && links' == Join(links, i, partner)
    ensures outcome == Done ==> forall k :: 0 <= k < |sites| ==>
      (linked'[k] <==> linked[k] || (linked[partner] && Reached(links', linked, i, k)))
    ensures outcome == Done ==> forall x, y :: 0 <= x < m.Length0 && 0 <= y < m.Length1 ==>
      m[x, y] == if Painted(line, passage, x, y) then brush else old(m[x, y])
  {
    var perm := Sorting.SortDescending(Sorting.Negated(Distances(sites, i)));
    partner, line := 0, [];
    if iter >= |sites| {
      return Threw, links, linked, partner, line;
    }
    partner := perm[iter];
    var j := partner;
    var ea, eb := sites[i].edges, sites[j].edges;
    if |ea| == 0 || |eb| == 0 {
      return Threw, links, linked, partner, line;
    }
    var a, b := BestEdges(ea, eb);
    line := Lines.GetLineJs(ea[a], eb[b]);
    PaintLine(m, brush, line, passage);
    JoinKeepsPairs(links, i, j);
    MainReachesAfterJoin(links, linked, i, j);
    links' := Join(links, i, j);
    // Region i was skipped if it was linked, so only the partner can be.
    if linked[j] {
      linked' := RecurseLink(links', linked, i);
      RelinkCloses(links', linked, linked', i);
      NewlyFlaggedReachMain(links', linked, linked', i, j);
    } else {
      linked' := linked;
    }
    outcome := Done;
  }

  /** Regions flagged from i, which is linked from the flagged j, are joined to region 0. */
  lemma NewlyFlaggedReachMain(links: seq<seq<nat>>, linked: seq<bool>, linked': seq<bool>, i: nat, j: nat)
    requires |links| == |linked| == |linked'| && i < |links| && j < |links| && linked[j] && i in links[j]
    requires MainReaches(links, linked)
    requires forall k :: 0 <= k < |linked| ==> (linked'[k] <==> linked[k] || Reached(links, linked, i, k))
    ensures MainReaches(links, linked')
  {
    forall k | 0 <= k < |linked| && linked'[k]
      ensures Joined(links, 0, k)
    {
      if !linked[k] {
        var p :| Walk(links, p, 0, j);
        var q :| Walk(links, q, i, k) && Avoids(q, linked);
        WalkConcat(links, p, q, 0, j, i, k);
      }
    }
  }

  /** One pass of the outer loop: every region not linked to main gets a link. */
  method LinkPassJs<T>(sites: seq<Site>, m: array2<T>, brush: T, passage: int, iter: nat,
                       links: seq<seq<nat>>, linked: seq<bool>)
      returns (outcome: Outcome, links': seq<seq<nat>>, linked': seq<bool>, allLinked: bool)
    requires |linked| == |sites| && LinksIn(links, |sites|) && Symmetric(links) && Closed(links, linked)
    requires MainReaches(links, linked)
    modifies m
    ensures outcome != Undefined
    ensures LinksIn(links', |sites|) && Symmetric(links') && |linked'| == |sites| && Closed(links', linked')
    ensures MainReaches(links', linked')
    ensures forall k :: 0 <= k < |sites| && linked[k] ==> linked'[k]
    ensures outcome == Done && allLinked ==> forall k :: 0 <= k < |sites| ==> linked'[k]
    ensures outcome == Done && iter >= |sites| ==> allLinked
    ensures forall x, y :: 0 <= x < m.Length0 && 0 <= y < m.Length1 ==> m[x, y] == old(m[x, y]) || m[x, y] == brush
  {
    links', linked', allLinked := links, linked, true;
    var i := 0;
    while i < |sites|
      invariant 0 <= i <= |sites|
      invariant LinksIn(links', |sites|) && Symmetric(links') && |linked'| == |sites| && Closed(links', linked')
      invariant MainReaches(links', linked')
      invariant forall k :: 0 <= k < |sites| && linked[k] ==> linked'[k]
      invariant allLinked ==> forall k :: 0 <= k < i ==> linked'[k]
      invariant iter >= |sites| ==> allLinked
      invariant forall x, y :: 0 <= x < m.Length0 && 0 <= y < m.Length1 ==> m[x, y] == old(m[x, y]) || m[x, y] == brush
    {
      if linked'[i] {
        i := i + 1;
        continue;
      }
      ghost var before := linked';
      var partner, line;
      outcome, links', linked', partner, line := LinkOneJs(sites, m, brush, passage, iter, i, links', linked');
      if outcome == Threw {
        return;
      }
      if !linked'[i] {
        allLinked := false;
      }
      i := i + 1;
    }
    outcome := Done;
  }

  /**
   * The JavaScript `linkRegions`: nothing to do without regions; otherwise
   * flag region 0 and run passes 1, 2, ... until a pass finds every region
   * linked. A pass that still meets an unlinked region once `iter` has
   * reached the number of regions reads past the end of the sorted list and
   * throws, so there are at most as many passes as regions. A flagged region
   * is always joined to region 0 along links, so a run that ends normally
   * has joined every region to it.
   */
  method LinkRegionsJs<T>(sites: seq<Site>, m: array2<T>, brush: T, passage: int)
      returns (outcome: Outcome, links: seq<seq<nat>>, linked: seq<bool>)
    modifies m
    ensures outcome != Undefined
    ensures LinksIn(links, |sites|) && Symmetric(links) && |linked| == |sites| && Closed(links, linked)
    ensures MainReaches(links, linked)
    ensures |sites| == 0 ==> outcome == Done && unchanged(m)
    ensures |sites| > 0 ==> linked[0]
    ensures outcome == Done ==> forall k :: 0 <= k < |sites| ==> linked[k] && Joined(links, 0, k)
    ensures forall x, y :: 0 <= x < m.Length0 && 0 <= y < m.Length1 ==> m[x, y] == old(m[x, y]) || m[x, y] == brush
  {
    links := seq(|sites|, k => []);
    linked := seq(|sites|, k => false);
    outcome := Done;
    if |sites| == 0 {
      return;
    }
    linked := linked[0 := true];
    WalkHere(links, 0);
    var iter := 1;
    var allLinked := false;
    while !allLinked
      invariant LinksIn(links, |sites|) && Symmetric(links) && |linked| == |sites| && Closed(links, linked)
      invariant MainReaches(links, linked)
      invariant linked[0] && outcome == Done
      invariant allLinked ==> forall k :: 0 <= k < |sites| ==> linked[k]
      invariant !allLinked ==> iter <= |sites|
      invariant forall x, y :: 0 <= x < m.Length0 && 0 <= y < m.Length1 ==> m[x, y] == old(m[x, y]) || m[x, y] == brush
      decreases if allLinked then 0 else |sites| + 1 - iter
    {
      outcome, links, linked, allLinked := LinkPassJs(sites, m, brush, passage, iter, links, linked);
      if outcome == Threw {
        return;
      }
      iter := iter + 1;
    }
  }

  // ------------------------------------------------------------- C++

  /** Every region in the flag set is joined to region 0 along links. */
  ghost predicate MainReachesSet(links: seq<seq<nat>>, linked: set<nat>)
  {
    forall k :: k in linked ==> Joined(links, 0, k)
  }

  /** relink only ever raises flags. */
  ghost predicate Raises(relink: (seq<seq<nat>>, set<nat>, nat) -> set<nat>)
  {
    forall l, f, r :: f <= relink(l, f, r)
  }

  /** relink only flags regions joined along links to the region it runs on. */
  ghost predicate FollowsLinks(relink: (seq<seq<nat>>, set<nat>, nat) -> set<nat>)
  {
    forall l, f, r, k :: k in relink(l, f, r) && k !in f ==> Joined(l, r, k)
  }

  /** Adding a link, and then flagging from the flagged j along links, keeps the flag set joined to region 0. */
  lemma RelinkReachesMain(links: seq<seq<nat>>, i: nat, j: nat, linked: set<nat>, linked': set<nat>)
    requires i < |links| && j < |links| && MainReachesSet(links, linked)
    requires j in linked || linked' == linked
    requires forall k :: k in linked' && k !in linked ==> Joined(Join(links, i, j), j, k)
    ensures MainReachesSet(Join(links, i, j), linked')
  {
    var links' := Join(links, i, j);
    forall k | k in linked'
      ensures Joined(links', 0, k)
    {
      if k in linked {
        var p :| Walk(links, p, 0, k);
        WalkAfterJoin(links, i, j, p, 0, k);
      } else {
        var p :| Walk(links, p, 0, j);
        WalkAfterJoin(links, i, j, p, 0, j);
        var q :| Walk(links', q, j, k);
        WalkThrough(links', p, q, 0, j, k);
      }
    }
  }

  /**
   * One unlinked region in pass iter, C++: the partner is at position iter
   * of the farthest-first order, the line is the C++ `getLine`, and when the
   * partner is linked to main its `recursiveLinkToMain` runs. That member's
   * body is not part of this model, so it is the parameter relink, from the
   * links, the flags and the region it runs on to the new flags.
   * `proximity[iter]` past the end, or `edges[0]` of a region with no edge
   * cell, is undefined behaviour.
   */
  method LinkOneCpp<T>(sites: seq<Site>, m: GameMap.Map<T>, brush: T, passage: int, iter: nat, i: nat,
                       links: seq<seq<nat>>, linked: set<nat>, relink: (seq<seq<nat>>, set<nat>, nat) -> set<nat>)
      returns (outcome: Outcome, links': seq<seq<nat>>, linked': set<nat>, partner: nat, line: seq<Point>)
    requires i < |sites| && i !in linked && LinksIn(links, |sites|) && Symmetric(links)
    modifies m.data
    ensures outcome != Threw
    ensures LinksIn(links', |sites|) && Symmetric(links')
    ensures iter < |sites| ==> partner < |sites| && FarthestAt(sites, i, iter, partner)
    ensures outcome == Undefined <==> iter >= |sites| || |sites[i].edges| == 0 || |sites[partner].edges| == 0
    ensures outcome == Undefined ==> links' == links && linked' == linked && unchanged(m.data)
    ensures outcome == Done ==> PassageLine(sites, i, partner, line) && links' == Join(links, i, partner)
    ensures outcome == Done ==> linked' == if partner in linked then relink(links', linked, partner) else linked
    ensures outcome == Done ==> forall x, y :: 0 <= x < m.data.Length0 && 0 <= y < m.data.Length1 ==>
      m.data[x, y] == if Painted(line, passage, x, y) then brush else old(m.data[x, y])
    ensures FollowsLinks(relink) && MainReachesSet(links, linked) ==> MainReachesSet(links', linked')
  {
    var perm := Sorting.SortDescending(Distances(sites, i));
    Sorting.StableIsDescending(Distances(sites, i), perm);
    partner, line := 0, [];
    if iter >= |sites| {
      return Undefined, links, linked, partner, line;
    }
    partner := perm[iter];
    var j := partner;
    var ea, eb := sites[i].edges, sites[j].edges;
    if |ea| == 0 || |eb| == 0 {
      return Undefined, links, linked, partner, line;
    }
    var a, b := BestEdges(ea, eb);
    line := Lines.GetLineCpp(ea[a], eb[b]);
    PaintLine(m.data, brush, line, passage);
    JoinKeepsPairs(links, i, j);
    links' := Join(links, i, j);
    // Region i was skipped if it was linked, so only the partner can be.
    if j in linked {
      linked' := relink(links', linked, j);
    } else {
      linked' := linked;
    }
    if FollowsLinks(relink) && MainReachesSet(links, linked) {
      RelinkReachesMain(links, i, j, linked, linked');
    }
    outcome := Done;
  }

  /**
   * One pass of the C++ outer loop. `allLinked` says each region was linked
   * when its turn ended; flags relink lowers later in the pass go unseen,
   * so only a relink that never lowers a flag makes it mean "all linked".
   */
  method LinkPassCpp<T>(sites: seq<Site>, m: GameMap.Map<T>, brush: T, passage: int, iter: nat,
                        links: seq<seq<nat>>, linked: set<nat>, relink: (seq<seq<nat>>, set<nat>, nat) -> set<nat>)
      returns (outcome: Outcome, links': seq<seq<nat>>, linked': set<nat>, allLinked: bool)
    requires LinksIn(links, |sites|) && Symmetric(links)
    modifies m.data
    ensures outcome != Threw
    ensures LinksIn(links', |sites|) && Symmetric(links')
    ensures Raises(relink) ==> linked <= linked'
    ensures Raises(relink) && outcome == Done && allLinked ==> forall k :: 0 <= k < |sites| ==> k in linked'
    ensures FollowsLinks(relink) && MainReachesSet(links, linked) ==> MainReachesSet(links', linked')
    ensures outcome == Done && iter >= |sites| ==> allLinked
    ensures forall x, y :: 0 <= x < m.data.Length0 && 0 <= y < m.data.Length1 ==> m.data[x, y] == old(m.data[x, y]) || m.data[x, y] == brush
  {
    links', linked', allLinked := links, linked, true;
    var reg := 0;
    while reg < |sites|
      invariant 0 <= reg <= |sites|
      invariant LinksIn(links', |sites|) && Symmetric(links')
      invariant Raises(relink) ==> linked <= linked' && (allLinked ==> forall k :: 0 <= k < reg ==> k in linked')
      invariant FollowsLinks(relink) && MainReachesSet(links, linked) ==> MainReachesSet(links', linked')
      invariant iter >= |sites| ==> allLinked
      invariant forall x, y :: 0 <= x < m.data.Length0 && 0 <= y < m.data.Length1 ==> m.data[x, y] == old(m.data[x, y]) || m.data[x, y] == brush
    {
      if reg !in linked' {
        var partner, line;
        outcome, links', linked', partner, line := LinkOneCpp(sites, m, brush, passage, iter, reg, links', linked', relink);
        if outcome == Undefined {
          return;
        }
        if reg !in linked' {
          allLinked := false;
        }
      }
      reg := reg + 1;
    }
    outcome := Done;
  }

  /**
   * The C++ `linkRegions`: the JavaScript loop with the C++ partner choice,
   * line and flag walk. Passes stop at the first one after which
   * `allLinked` holds; like the JavaScript, a pass that meets an unlinked
   * region once `iter` has reached the number of regions ends the run (here
   * in undefined behaviour), so there are at most as many passes as
   * regions, whatever relink does. For a relink that raises flags only
   * along links, a run that ends normally has joined every region to
   * region 0.
   */
  method LinkRegionsCpp<T>(sites: seq<Site>, m: GameMap.Map<T>, brush: T, passage: int,
                           relink: (seq<seq<nat>>, set<nat>, nat) -> set<nat>)
      returns (outcome: Outcome, links: seq<seq<nat>>, linked: set<nat>)
    modifies m.data
    ensures outcome != Threw
    ensures LinksIn(links, |sites|) && Symmetric(links)
    ensures |sites| == 0 ==> outcome == Done && unchanged(m.data)
    ensures Raises(relink) && |sites| > 0 ==> 0 in linked
    ensures Raises(relink) && outcome == Done ==> forall k :: 0 <= k < |sites| ==> k in linked
    ensures FollowsLinks(relink) ==> MainReachesSet(links, linked)
    ensures Raises(relink) && FollowsLinks(relink) && outcome == Done ==> forall k :: 0 <= k < |sites| ==> Joined(links, 0, k)
    ensures forall x, y :: 0 <= x < m.data.Length0 && 0 <= y < m.data.Length1 ==> m.data[x, y] == old(m.data[x, y]) || m.data[x, y] == brush
  {
    links := seq(|sites|, k => []);
    linked := {};
    outcome := Done;
    if |sites| == 0 {
      return;
    }
    linked := {0};
    WalkHere(links, 0);
    var iter := 1;
    var allLinked := false;
    while !allLinked
      invariant LinksIn(links, |sites|) && Symmetric(links) && outcome == Done
      invariant Raises(relink) ==> 0 in linked && (allLinked ==> forall k :: 0 <= k < |sites| ==> k in linked)
      invariant FollowsLinks(relink) ==> MainReachesSet(links, linked)
      invariant !allLinked ==> iter <= |sites|
      invariant forall x, y :: 0 <= x < m.data.Length0 && 0 <= y < m.data.Length1 ==> m.data[x, y] == old(m.data[x, y]) || m.data[x, y] == brush
      decreases if allLinked then 0 else |sites| + 1 - iter
    {
      outcome, links, linked, allLinked := LinkPassCpp(sites, m, brush, passage, iter, links, linked, relink);
      if outcome == Undefined {
        return;
      }
      iter := iter + 1;
    }
  }
}
