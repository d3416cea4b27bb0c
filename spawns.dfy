/**
 * Player spawn placement in both versions of the generator.
 *
 * The depth of every identified cell is gathered into one grid and the cells
 * are listed region by region. Cells of depth 0 (region edges) are dropped and
 * the rest are ordered deepest first. The deepest becomes the first spawn.
 * Every further spawn is the unused candidate that maximises the mean, over
 * the spawns already chosen, of the path length to it plus four times its
 * depth. Finally the spawns are written into the map, and their in-bounds
 * orthogonal neighbours that are Free or Restricted become Safe.
 */
module Spawns {
  import opened Grid
  import opened SeqSteps
  import Sorting
  import PathSearch
  import CellularJs
  import CellularCpp
  import GameMap

  /** A region after its depth analysis: its cells, and the depth of each cell. */
  datatype Analysed = Analysed(coords: seq<Point>, depths: seq<nat>)

  /**
   * How `findPlayerSpawns` ends: spawns placed (true), too few candidates
   * (false), a JS TypeError after the listed cells were marked, or C++
   * undefined behaviour.
   */
  datatype Outcome = Placed(spawns: seq<Point>) | Refused | Threw(marked: seq<Point>) | Undefined

  ghost predicate Distinct<T>(s: seq<T>)
  {
    forall i, j :: 0 <= i < j < |s| ==> s[i] != s[j]
  }

  /** The JS version always writes at least the first spawn. */
  function AtLeastOne(n: nat): nat
  {
    if n == 0 then 1 else n
  }

  predicate Paired(regions: seq<Analysed>)
  {
    forall i :: 0 <= i < |regions| ==> |regions[i].coords| == |regions[i].depths|
  }

  predicate WellFormed(regions: seq<Analysed>, w: int, h: int)
  {
    Paired(regions) &&
    forall i :: 0 <= i < |regions| ==>
      forall k :: 0 <= k < |regions[i].coords| ==> InBounds(regions[i].coords[k], w, h)
  }

  // ---------------------------------------------------------------------------
  // Gathering depths and candidates
  // ---------------------------------------------------------------------------

  /** The cells of all regions, region by region. */
  function Flatten(regions: seq<Analysed>): seq<Point>
  {
    if |regions| == 0 then [] else Flatten(regions[..|regions| - 1]) + regions[|regions| - 1].coords
  }

  /** The depth at `p` after one region's cells were written over `before`: the last write wins. */
  function LastDepth(coords: seq<Point>, depths: seq<nat>, p: Point, before: nat): nat
    requires |coords| == |depths|
  {
    if |coords| == 0 then before
    else if coords[|coords| - 1] == p then depths[|depths| - 1]
    else LastDepth(coords[..|coords| - 1], depths[..|depths| - 1], p, before)
  }

  /** The gathered depth at `p` once every region was written into a zero-filled grid. */
  function DepthAfter(regions: seq<Analysed>, p: Point): nat
    requires Paired(regions)
  {
    if |regions| == 0 then 0
    else
      var r := regions[|regions| - 1];
      LastDepth(r.coords, r.depths, p, DepthAfter(regions[..|regions| - 1], p))
  }

  ghost function DepthGrid(regions: seq<Analysed>, w: nat, h: nat): seq<seq<nat>>
    requires Paired(regions)
  {
    seq(w, x => seq(h, y => DepthAfter(regions, Point(x, y))))
  }

  /** A depth-grid lookup; a point off the grid reads as 0. */
  function Lookup(dm: seq<seq<nat>>, p: Point): nat
  {
    if 0 <= p.x < |dm| && 0 <= p.y < |dm[p.x]| then dm[p.x][p.y] else 0
  }

  /** The filter both versions apply: keep the cells of non-zero depth, in order. */
  function Deep(ps: seq<Point>, dm: seq<seq<nat>>): seq<Point>
  {
    if |ps| == 0 then []
    else Deep(ps[..|ps| - 1], dm) + (if Lookup(dm, ps[|ps| - 1]) != 0 then [ps[|ps| - 1]] else [])
  }

  /** The spawn candidates: every identified cell of non-zero depth, in gathering order. */
  ghost function Candidates(regions: seq<Analysed>, w: nat, h: nat): seq<Point>
    requires Paired(regions)
  {
    Deep(Flatten(regions), DepthGrid(regions, w, h))
  }

  /** The keys the candidates are sorted on. */
  function DepthKeys(ps: seq<Point>, dm: seq<seq<nat>>): (keys: seq<real>)
    ensures |keys| == |ps|
  {
    seq(|ps|, k requires 0 <= k < |ps| => Lookup(dm, ps[k]) as real)
  }

  /** `order` lists the cells of `c` deepest first, ties in the order of `c`. */
  ghost predicate DepthSorted(c: seq<Point>, dm: seq<seq<nat>>, order: seq<Point>)
  {
    exists perm: seq<nat> ::
      Sorting.IsPermutation(perm, |c|) &&
      Sorting.StablyDescending(DepthKeys(c, dm), perm) &&
      order == Sorting.Permute(c, perm)
  }

  /** `order` lists the candidates deepest first, ties in gathering order. */
  ghost predicate DepthOrder(regions: seq<Analysed>, w: nat, h: nat, order: seq<Point>)
    requires Paired(regions)
  {
    DepthSorted(Candidates(regions, w, h), DepthGrid(regions, w, h), order)
  }

  lemma {:induction false} FlattenInBounds(regions: seq<Analysed>, w: int, h: int)
    requires WellFormed(regions, w, h)
    ensures forall p :: p in Flatten(regions) ==> InBounds(p, w, h)
  {
    if |regions| > 0 {
      var front := regions[..|regions| - 1];
      assert WellFormed(front, w, h) by {
        forall i | 0 <= i < |front|
          ensures front[i] == regions[i]
        {
        }
      }
      FlattenInBounds(front, w, h);
      var last := regions[|regions| - 1];
      forall p | p in last.coords
        ensures InBounds(p, w, h)
      {
        var k :| 0 <= k < |last.coords| && last.coords[k] == p;
      }
    }
  }

  lemma {:induction false} LastDepthElsewhere(coords: seq<Point>, depths: seq<nat>, p: Point, before: nat)
    requires |coords| == |depths| && p !in coords
    ensures LastDepth(coords, depths, p, before) == before
  {
    if |coords| > 0 {
      assert p !in coords[..|coords| - 1];
      LastDepthElsewhere(coords[..|coords| - 1], depths[..|depths| - 1], p, before);
    }
  }

  /** Nothing is written off the grid, so every point off it has depth 0. */
  lemma {:induction false} DepthAfterOffGrid(regions: seq<Analysed>, w: int, h: int, p: Point)
    requires WellFormed(regions, w, h) && !InBounds(p, w, h)
    ensures DepthAfter(regions, p) == 0
  {
    if |regions| > 0 {
      var front := regions[..|regions| - 1];
      assert WellFormed(front, w, h) by {
        forall i | 0 <= i < |front|
          ensures front[i] == regions[i]
        {
        }
      }
      DepthAfterOffGrid(front, w, h, p);
      var last := regions[|regions| - 1];
      assert p !in last.coords;
      LastDepthElsewhere(last.coords, last.depths, p, DepthAfter(front, p));
    }
  }

  /** Reading the gathered grid gives the gathered depth, on the grid and off it. */
  lemma LookupDepthGrid(regions: seq<Analysed>, w: nat, h: nat, p: Point)
    requires WellFormed(regions, w, h)
    ensures Lookup(DepthGrid(regions, w, h), p) == DepthAfter(regions, p)
  {
    if !InBounds(p, w, h) {
      DepthAfterOffGrid(regions, w, h, p);
    }
  }

  /** The filter keeps exactly the listed cells of non-zero depth, and never lengthens the list. */
  lemma {:induction false} DeepKeeps(ps: seq<Point>, dm: seq<seq<nat>>)
    ensures forall p :: p in Deep(ps, dm) <==> p in ps && Lookup(dm, p) != 0
    ensures |Deep(ps, dm)| <= |ps|
    ensures |Deep(ps, dm)| == |ps| <==> forall k :: 0 <= k < |ps| ==> Lookup(dm, ps[k]) != 0
  {
    if |ps| > 0 {
      var front := ps[..|ps| - 1];
      var last := ps[|ps| - 1];
      DeepKeeps(front, dm);
      assert ps == front + [last];
      if |Deep(ps, dm)| == |ps| {
        assert Lookup(dm, last) != 0 && |Deep(front, dm)| == |front|;
        forall k | 0 <= k < |ps|
          ensures Lookup(dm, ps[k]) != 0
        {
          if k < |ps| - 1 {
            assert ps[k] == front[k];
          }
        }
      }
      if forall k :: 0 <= k < |ps| ==> Lookup(dm, ps[k]) != 0 {
        assert forall k :: 0 <= k < |front| ==> Lookup(dm, front[k]) != 0 by {
          forall k | 0 <= k < |front|
            ensures Lookup(dm, front[k]) != 0
          {
            assert front[k] == ps[k];
          }
        }
      }
    }
  }

  /** The filter keeps a list without repeats without repeats. */
  lemma {:induction false} DeepDistinct(ps: seq<Point>, dm: seq<seq<nat>>)
    requires Distinct(ps)
    ensures Distinct(Deep(ps, dm))
  {
    if |ps| > 0 {
      var front := ps[..|ps| - 1];
      var last := ps[|ps| - 1];
      DeepDistinct(front, dm);
      DeepKeeps(front, dm);
      assert last !in front;
      var d := Deep(front, dm);
      assert last !in d;
      var r := Deep(ps, dm);
      forall i, j | 0 <= i < j < |r|
        ensures r[i] != r[j]
      {
        if j >= |d| {
          assert r[j] == last && r[i] == d[i];
        } else {
          assert r[i] == d[i] && r[j] == d[j];
        }
      }
    }
  }

  /**
   * The depth gathering of both versions: a zero-filled grid receives every
   * region's depths, region by region, and every cell is appended to the
   * available list.
   */
  method Gather(regions: seq<Analysed>, w: nat, h: nat) returns (depth: array2<nat>, available: seq<Point>)
    requires WellFormed(regions, w, h)
    ensures fresh(depth) && depth.Length0 == w && depth.Length1 == h
    ensures available == Flatten(regions)
    ensures forall x, y :: 0 <= x < w && 0 <= y < h ==> depth[x, y] == DepthAfter(regions, Point(x, y))
  {
    depth := new nat[w, h]((x, y) => 0);
    available := [];
    var i := 0;
    while i < |regions|
      invariant 0 <= i <= |regions|
      invariant available == Flatten(regions[..i])
      invariant forall x, y :: 0 <= x < w && 0 <= y < h ==> depth[x, y] == DepthAfter(regions[..i], Point(x, y))
    {
      assert regions[..i + 1][..i] == regions[..i];
      available := GatherRegion(depth, regions[i], available);
      i := i + 1;
    }
    assert regions[..i] == regions;
  }

  /** One region's pass of the gathering loop. */
  method GatherRegion(depth: array2<nat>, r: Analysed, available: seq<Point>) returns (more: seq<Point>)
    requires |r.coords| == |r.depths|
    requires forall k :: 0 <= k < |r.coords| ==> InBounds(r.coords[k], depth.Length0, depth.Length1)
    modifies depth
    ensures more == available + r.coords
    ensures forall x, y :: 0 <= x < depth.Length0 && 0 <= y < depth.Length1 ==>
      depth[x, y] == LastDepth(r.coords, r.depths, Point(x, y), old(depth[x, y]))
  {
    more := available;
    for j := 0 to |r.coords|
      invariant more == available + r.coords[..j]
      invariant forall x, y :: 0 <= x < depth.Length0 && 0 <= y < depth.Length1 ==>
        depth[x, y] == LastDepth(r.coords[..j], r.depths[..j], Point(x, y), old(depth[x, y]))
    {
      var c := r.coords[j];
      depth[c.x, c.y] := r.depths[j];
      more := more + [c];
      assert r.coords[..j + 1][..j] == r.coords[..j];
      assert r.depths[..j + 1][..j] == r.depths[..j];
    }
    assert r.coords[..|r.coords|] == r.coords;
    assert r.depths[..|r.depths|] == r.depths;
  }

  /**
   * The sort of both versions: deepest first. The JS sort is stable; the C++
   * one is modelled with the same tie order.
   */
  method OrderByDepth(deep: seq<Point>, dm: seq<seq<nat>>) returns (order: seq<Point>, ghost perm: seq<nat>)
    ensures Sorting.IsPermutation(perm, |deep|) && order == Sorting.Permute(deep, perm)
    ensures Sorting.StablyDescending(DepthKeys(deep, dm), perm)
    ensures forall k :: 0 <= k < |deep| ==> Lookup(dm, order[0]) >= Lookup(dm, deep[k])
  {
    var keys := DepthKeys(deep, dm);
    var p := Sorting.SortDescending(keys);
    perm := p;
    order := Sorting.Permute(deep, p);
    forall k | 0 <= k < |deep|
      ensures Lookup(dm, order[0]) >= Lookup(dm, deep[k])
    {
      Sorting.HeadLeads(keys, p, k);
    }
  }

  // ---------------------------------------------------------------------------
  // Choosing the spawns
  // ---------------------------------------------------------------------------

  /** The running sum of both versions: every spawn adds its path length plus `bonus`. */
  function Total(lens: seq<nat>, bonus: nat): nat
  {
    if |lens| == 0 then 0 else Total(lens[..|lens| - 1], bonus) + lens[|lens| - 1] + bonus
  }

  /** The bonus alone already contributes once per spawn. */
  lemma {:induction false} TotalAtLeast(lens: seq<nat>, bonus: nat)
    ensures Total(lens, bonus) >= |lens| * bonus
  {
    if |lens| > 0 {
      TotalAtLeast(lens[..|lens| - 1], bonus);
      assert |lens| * bonus == (|lens| - 1) * bonus + bonus;
    }
  }

  /** `n` is the length of a path the JS search may return from `start` towards `end` over Free cells. */
  ghost predicate JsPathLength(g: seq<seq<CellularJs.Symbol>>, start: Point, end: Point, n: nat)
  {
    exists path: seq<Point> ::
      |path| == n && PathSearch.Walk(g, CellularJs.Free, start, path) &&
      (end != start && PathSearch.Reaches(g, CellularJs.Free, start, end) ==> n > 0 && path[n - 1] == end)
  }

  /** `n` is the length of a path the C++ search may return: empty exactly when `end` is unreachable. */
  ghost predicate CppPathLength(g: seq<seq<CellularCpp.Tile>>, start: Point, end: Point, n: nat)
  {
    exists path: seq<Point> ::
      |path| == n && PathSearch.Walk(g, CellularCpp.Free, start, path) &&
      (n > 0 <==> end != start && PathSearch.Reaches(g, CellularCpp.Free, start, end)) &&
      (n > 0 ==> path[n - 1] == end)
  }

  /** The JS score of candidate `c`: the mean over the spawns of path length plus four times the depth `d`. */
  ghost predicate JsAverage(g: seq<seq<CellularJs.Symbol>>, spawns: seq<Point>, c: Point, d: nat, avg: real)
  {
    |spawns| > 0 &&
    exists lens: seq<nat> ::
      |lens| == |spawns| &&
      (forall q :: 0 <= q < |spawns| ==> JsPathLength(g, spawns[q], c, lens[q])) &&
      avg == Total(lens, 4 * d) as real / |spawns| as real
  }

  /** The C++ score: the same sum, divided with truncation. */
  ghost predicate CppAverage(g: seq<seq<CellularCpp.Tile>>, spawns: seq<Point>, c: Point, d: nat, avg: real)
  {
    |spawns| > 0 &&
    exists lens: seq<nat> ::
      |lens| == |spawns| &&
      (forall q :: 0 <= q < |spawns| ==> CppPathLength(g, spawns[q], c, lens[q])) &&
      avg == (Total(lens, 4 * d) / |spawns|) as real
  }

  /**
   * A selection pass over `cands` after scoring the first |avgs| of them
   * (`avgs[k]` is the score of candidate k when it is not yet `used`):
   * nothing is found while no such score beats 0, and otherwise the first
   * unused candidate with the highest score is held.
   */
  ghost predicate PickedSoFar(cands: seq<Point>, used: seq<Point>, avgs: seq<real>, furthest: Option<Point>, at: nat)
  {
    |avgs| <= |cands| &&
    match furthest
    case None => forall k :: 0 <= k < |avgs| && cands[k] !in used ==> avgs[k] <= 0.0
    case Some(f) =>
      at < |avgs| && cands[at] == f && f !in used && avgs[at] > 0.0 &&
      forall k :: 0 <= k < |avgs| && cands[k] !in used ==> avgs[k] <= avgs[at] && (k < at ==> avgs[k] < avgs[at])
  }

  /** The outcome of a whole selection pass. */
  ghost predicate Picked(cands: seq<Point>, used: seq<Point>, avgs: seq<real>, furthest: Option<Point>, at: nat)
  {
    |avgs| == |cands| && PickedSoFar(cands, used, avgs, furthest, at)
  }

  /**
   * One step of the pass: the next candidate is taken exactly when it is
   * unused and its score beats the best so far (0 while nothing is held).
   */
  lemma PickedStep(cands: seq<Point>, used: seq<Point>, avgs: seq<real>, furthest: Option<Point>, at: nat, x: real)
    requires |avgs| < |cands| && PickedSoFar(cands, used, avgs, furthest, at)
    ensures var take := cands[|avgs|] !in used && x > (if furthest.None? then 0.0 else avgs[at]);
      PickedSoFar(cands, used, avgs + [x], if take then Some(cands[|avgs|]) else furthest, if take then |avgs| else at)
  {
    var more := avgs + [x];
    assert forall k :: 0 <= k < |avgs| ==> more[k] == avgs[k];
  }

  /**
   * Every unused candidate among the first |avgs| carries its JS score,
   * which is at least four times its depth.
   */
  ghost predicate ScoredJs(g: seq<seq<CellularJs.Symbol>>, spawns: seq<Point>, order: seq<Point>, dm: seq<seq<nat>>, avgs: seq<real>)
    requires |avgs| <= |order|
  {
    |avgs| == 0 ||
    (ScoredJs(g, spawns, order, dm, avgs[..|avgs| - 1]) &&
     var k := |avgs| - 1;
     (order[k] !in spawns ==>
       JsAverage(g, spawns, order[k], Lookup(dm, order[k]), avgs[k]) && avgs[k] >= (4 * Lookup(dm, order[k])) as real))
  }

  /** The same for the C++ score. */
  ghost predicate ScoredCpp(g: seq<seq<CellularCpp.Tile>>, spawns: seq<Point>, order: seq<Point>, dm: seq<seq<nat>>, avgs: seq<real>)
    requires |avgs| <= |order|
  {
    |avgs| == 0 ||
    (ScoredCpp(g, spawns, order, dm, avgs[..|avgs| - 1]) &&
     var k := |avgs| - 1;
     (order[k] !in spawns ==>
       CppAverage(g, spawns, order[k], Lookup(dm, order[k]), avgs[k]) && avgs[k] >= (4 * Lookup(dm, order[k])) as real))
  }

  lemma ScoredJsStep(g: seq<seq<CellularJs.Symbol>>, spawns: seq<Point>, order: seq<Point>, dm: seq<seq<nat>>, avgs: seq<real>, x: real)
    requires |avgs| < |order| && ScoredJs(g, spawns, order, dm, avgs)
    requires order[|avgs|] !in spawns ==>
      JsAverage(g, spawns, order[|avgs|], Lookup(dm, order[|avgs|]), x) && x >= (4 * Lookup(dm, order[|avgs|])) as real
    ensures ScoredJs(g, spawns, order, dm, avgs + [x])
  {
    assert (avgs + [x])[..|avgs|] == avgs;
  }

  lemma {:induction false} ScoredJsAt(g: seq<seq<CellularJs.Symbol>>, spawns: seq<Point>, order: seq<Point>, dm: seq<seq<nat>>, avgs: seq<real>, k: nat)
    requires |avgs| <= |order| && ScoredJs(g, spawns, order, dm, avgs) && k < |avgs| && order[k] !in spawns
    ensures JsAverage(g, spawns, order[k], Lookup(dm, order[k]), avgs[k]) && avgs[k] >= (4 * Lookup(dm, order[k])) as real
  {
    if k < |avgs| - 1 {
      ScoredJsAt(g, spawns, order, dm, avgs[..|avgs| - 1], k);
    }
  }

  lemma ScoredCppStep(g: seq<seq<CellularCpp.Tile>>, spawns: seq<Point>, order: seq<Point>, dm: seq<seq<nat>>, avgs: seq<real>, x: real)
    requires |avgs| < |order| && ScoredCpp(g, spawns, order, dm, avgs)
    requires order[|avgs|] !in spawns ==>
      CppAverage(g, spawns, order[|avgs|], Lookup(dm, order[|avgs|]), x) && x >= (4 * Lookup(dm, order[|avgs|])) as real
    ensures ScoredCpp(g, spawns, order, dm, avgs + [x])
  {
    assert (avgs + [x])[..|avgs|] == avgs;
  }

  lemma {:induction false} ScoredCppAt(g: seq<seq<CellularCpp.Tile>>, spawns: seq<Point>, order: seq<Point>, dm: seq<seq<nat>>, avgs: seq<real>, k: nat)
    requires |avgs| <= |order| && ScoredCpp(g, spawns, order, dm, avgs) && k < |avgs| && order[k] !in spawns
    ensures CppAverage(g, spawns, order[k], Lookup(dm, order[k]), avgs[k]) && avgs[k] >= (4 * Lookup(dm, order[k])) as real
  {
    if k < |avgs| - 1 {
      ScoredCppAt(g, spawns, order, dm, avgs[..|avgs| - 1], k);
    }
  }

  /** Only the lower bound of `ScoredJsAt`: an unused candidate scores at least four times its depth. */
  lemma ScoredJsBound(g: seq<seq<CellularJs.Symbol>>, spawns: seq<Point>, order: seq<Point>, dm: seq<seq<nat>>, avgs: seq<real>, k: nat)
    requires |avgs| <= |order| && ScoredJs(g, spawns, order, dm, avgs) && k < |avgs| && order[k] !in spawns
    ensures avgs[k] >= (4 * Lookup(dm, order[k])) as real
  {
    ScoredJsAt(g, spawns, order, dm, avgs, k);
  }

  /** Only the lower bound of `ScoredCppAt`: an unused candidate scores at least four times its depth. */
  lemma ScoredCppBound(g: seq<seq<CellularCpp.Tile>>, spawns: seq<Point>, order: seq<Point>, dm: seq<seq<nat>>, avgs: seq<real>, k: nat)
    requires |avgs| <= |order| && ScoredCpp(g, spawns, order, dm, avgs) && k < |avgs| && order[k] !in spawns
    ensures avgs[k] >= (4 * Lookup(dm, order[k])) as real
  {
    ScoredCppAt(g, spawns, order, dm, avgs, k);
  }

  /** `next` is what the JS selection pass picks after the spawns `prior`. */
  ghost predicate ChosenJs(g: seq<seq<CellularJs.Symbol>>, order: seq<Point>, dm: seq<seq<nat>>, prior: seq<Point>, next: Point)
  {
    exists avgs: seq<real>, at: nat ::
      Picked(order, prior, avgs, Some(next), at) && ScoredJs(g, prior, order, dm, avgs)
  }

  /** `next` is what the C++ selection pass picks after the spawns `prior`. */
  ghost predicate ChosenCpp(g: seq<seq<CellularCpp.Tile>>, order: seq<Point>, dm: seq<seq<nat>>, prior: seq<Point>, next: Point)
  {
    exists avgs: seq<real>, at: nat ::
      Picked(order, prior, avgs, Some(next), at) && ScoredCpp(g, prior, order, dm, avgs)
  }

  /** Each spawn after the first is what the JS selection pass picks after the ones before it. */
  ghost predicate ChainJs(g: seq<seq<CellularJs.Symbol>>, order: seq<Point>, dm: seq<seq<nat>>, chosen: seq<Point>)
    decreases |chosen|
  {
    |chosen| <= 1 ||
    (ChainJs(g, order, dm, chosen[..|chosen| - 1]) && ChosenJs(g, order, dm, chosen[..|chosen| - 1], chosen[|chosen| - 1]))
  }

  /** The chain grows by the candidate a selection pass picks. */
  lemma ChainJsStep(g: seq<seq<CellularJs.Symbol>>, order: seq<Point>, dm: seq<seq<nat>>, chosen: seq<Point>, next: Point,
                       avgs: seq<real>, at: nat)
    requires ChainJs(g, order, dm, chosen)
    requires Picked(order, chosen, avgs, Some(next), at) && ScoredJs(g, chosen, order, dm, avgs)
    ensures ChainJs(g, order, dm, chosen + [next])
  {
    assert ChosenJs(g, order, dm, chosen, next);
    assert (chosen + [next])[..|chosen|] == chosen;
  }

  lemma {:induction false} ChainJsAt(g: seq<seq<CellularJs.Symbol>>, order: seq<Point>, dm: seq<seq<nat>>, chosen: seq<Point>, i: nat)
    requires ChainJs(g, order, dm, chosen) && 1 <= i < |chosen|
    ensures ChosenJs(g, order, dm, chosen[..i], chosen[i])
  {
    var pre := chosen[..|chosen| - 1];
    assert ChainJs(g, order, dm, pre);
    if i < |chosen| - 1 {
      ChainJsAt(g, order, dm, pre, i);
      assert pre[..i] == chosen[..i] && pre[i] == chosen[i];
    }
  }

  /** Each spawn after the first is what the C++ selection pass picks after the ones before it. */
  ghost predicate ChainCpp(g: seq<seq<CellularCpp.Tile>>, order: seq<Point>, dm: seq<seq<nat>>, chosen: seq<Point>)
    decreases |chosen|
  {
    |chosen| <= 1 ||
    (ChainCpp(g, order, dm, chosen[..|chosen| - 1]) && ChosenCpp(g, order, dm, chosen[..|chosen| - 1], chosen[|chosen| - 1]))
  }

  /** The chain grows by the candidate a selection pass picks. */
  lemma ChainCppStep(g: seq<seq<CellularCpp.Tile>>, order: seq<Point>, dm: seq<seq<nat>>, chosen: seq<Point>, next: Point,
                       avgs: seq<real>, at: nat)
    requires ChainCpp(g, order, dm, chosen)
    requires Picked(order, chosen, avgs, Some(next), at) && ScoredCpp(g, chosen, order, dm, avgs)
    ensures ChainCpp(g, order, dm, chosen + [next])
  {
    assert ChosenCpp(g, order, dm, chosen, next);
    assert (chosen + [next])[..|chosen|] == chosen;
  }

  lemma {:induction false} ChainCppAt(g: seq<seq<CellularCpp.Tile>>, order: seq<Point>, dm: seq<seq<nat>>, chosen: seq<Point>, i: nat)
    requires ChainCpp(g, order, dm, chosen) && 1 <= i < |chosen|
    ensures ChosenCpp(g, order, dm, chosen[..i], chosen[i])
  {
    var pre := chosen[..|chosen| - 1];
    assert ChainCpp(g, order, dm, pre);
    if i < |chosen| - 1 {
      ChainCppAt(g, order, dm, pre, i);
      assert pre[..i] == chosen[..i] && pre[i] == chosen[i];
    }
  }

  lemma MeanAtLeast(total: real, n: nat, b: nat)
    requires n > 0 && total >= (n * b) as real
    ensures total / n as real >= b as real
  {
    var q := total / n as real;
    assert q * n as real == total;
    assert (n * b) as real == n as real * b as real;
    if q < b as real {
      assert q * n as real < b as real * n as real;
    }
  }

  lemma MeanAtLeastInt(total: nat, n: nat, b: nat)
    requires n > 0 && total >= n * b
    ensures total / n >= b
  {
    var q := total / n;
    assert total == q * n + total % n;
    assert (q + 1) * n == q * n + n;
    MulCancel(q + 1, b, n);
  }

  lemma {:induction false} MulMono(a: nat, c: nat, n: nat)
    requires a <= c
    ensures a * n <= c * n
  {
    if n > 0 {
      MulMono(a, c, n - 1);
      assert a * n == a * (n - 1) + a && c * n == c * (n - 1) + c;
    }
  }

  lemma MulCancel(a: nat, c: nat, n: nat)
    requires a * n > c * n
    ensures a > c
  {
    if a <= c {
      MulMono(a, c, n);
    }
  }

  /** `found` tells whether `p` is already one of the spawns (the inner loop with a break). */
  method Listed(p: Point, spawns: seq<Point>) returns (found: bool)
    ensures found <==> p in spawns
  {
    found := false;
    var i := 0;
    while i < |spawns|
      invariant 0 <= i <= |spawns|
      invariant p !in spawns[..i]
    {
      if spawns[i] == p {
        return true;
      }
      assert spawns[..i + 1] == spawns[..i] + [spawns[i]];
      i := i + 1;
    }
    assert spawns[..i] == spawns;
  }

  /** `findPath(start, end, ...).length` over Free cells, JS version. */
  method PathLengthJs(m: array2<CellularJs.Symbol>, start: Point, end: Point) returns (n: nat)
    requires InBounds(start, m.Length0, m.Length1)
    ensures JsPathLength(Cells(m), start, end, n)
  {
    var r;
    ghost var last;
    r, last := PathSearch.FindPathJs(start, end, m, CellularJs.Free);
    n := |r.value|;
    assert PathSearch.Walk(Cells(m), CellularJs.Free, start, r.value);
  }

  /** `findPath(start, end, ...).size()` over Free tiles, C++ version. */
  method PathLengthCpp(m: array2<CellularCpp.Tile>, start: Point, end: Point) returns (n: nat)
    requires InBounds(start, m.Length0, m.Length1)
    ensures CppPathLength(Cells(m), start, end, n)
  {
    var path := PathSearch.FindPathCpp(start, end, m, CellularCpp.Free);
    n := |path|;
    assert PathSearch.Walk(Cells(m), CellularCpp.Free, start, path);
  }

  /** One pass of the summing loop: the next spawn's path length joins the list and the sum. */
  lemma LengthsJsStep(g: seq<seq<CellularJs.Symbol>>, spawns: seq<Point>, c: Point, lens: seq<nat>, len: nat, bonus: nat)
    requires |lens| < |spawns|
    requires forall q :: 0 <= q < |lens| ==> JsPathLength(g, spawns[q], c, lens[q])
    requires JsPathLength(g, spawns[|lens|], c, len)
    ensures forall q :: 0 <= q <= |lens| ==> JsPathLength(g, spawns[q], c, (lens + [len])[q])
    ensures Total(lens + [len], bonus) == Total(lens, bonus) + len + bonus
  {
    var more := lens + [len];
    assert more[..|lens|] == lens;
    forall q | 0 <= q <= |lens|
      ensures JsPathLength(g, spawns[q], c, more[q])
    {
      if q < |lens| {
        assert more[q] == lens[q];
      }
    }
  }

  /** The JS summing loop: one path search per spawn, adding its length plus four times the depth. */
  method TotalJs(m: array2<CellularJs.Symbol>, spawns: seq<Point>, c: Point, d: nat) returns (total: nat, ghost lens: seq<nat>)
    requires forall q :: 0 <= q < |spawns| ==> InBounds(spawns[q], m.Length0, m.Length1)
    ensures |lens| == |spawns| && total == Total(lens, 4 * d)
    ensures forall q :: 0 <= q < |spawns| ==> JsPathLength(Cells(m), spawns[q], c, lens[q])
  {
    ghost var g := Cells(m);
    total := 0;
    lens := [];
    for pos := 0 to |spawns|
      invariant |lens| == pos
      invariant forall q :: 0 <= q < pos ==> JsPathLength(g, spawns[q], c, lens[q])
      invariant total == Total(lens, 4 * d)
    {
      var len := PathLengthJs(m, spawns[pos], c);
      total := total + len + d * 4;
      LengthsJsStep(g, spawns, c, lens, len, 4 * d);
      lens := lens + [len];
    }
  }

  /**
   * The JS score of one candidate, with one path search per spawn already
   * chosen. The sum is of small whole numbers, which a JS number holds
   * exactly; only the final division is fractional.
   */
  method AverageJs(m: array2<CellularJs.Symbol>, spawns: seq<Point>, c: Point, d: nat) returns (avg: real)
    requires |spawns| > 0
    requires forall q :: 0 <= q < |spawns| ==> InBounds(spawns[q], m.Length0, m.Length1)
    ensures JsAverage(Cells(m), spawns, c, d, avg)
    ensures avg >= (4 * d) as real
  {
    var total;
    ghost var lens;
    total, lens := TotalJs(m, spawns, c, d);
    TotalAtLeast(lens, 4 * d);
    avg := total as real / |spawns| as real;
    MeanAtLeast(total as real, |spawns|, 4 * d);
    assert |lens| == |spawns| && avg == Total(lens, 4 * d) as real / |spawns| as real;
  }

  /** One pass of the summing loop: the next spawn's path length joins the list and the sum. */
  lemma LengthsCppStep(g: seq<seq<CellularCpp.Tile>>, spawns: seq<Point>, c: Point, lens: seq<nat>, len: nat, bonus: nat)
    requires |lens| < |spawns|
    requires forall q :: 0 <= q < |lens| ==> CppPathLength(g, spawns[q], c, lens[q])
    requires CppPathLength(g, spawns[|lens|], c, len)
    ensures forall q :: 0 <= q <= |lens| ==> CppPathLength(g, spawns[q], c, (lens + [len])[q])
    ensures Total(lens + [len], bonus) == Total(lens, bonus) + len + bonus
  {
    var more := lens + [len];
    assert more[..|lens|] == lens;
    forall q | 0 <= q <= |lens|
      ensures CppPathLength(g, spawns[q], c, more[q])
    {
      if q < |lens| {
        assert more[q] == lens[q];
      }
    }
  }

  /** The C++ summing loop, with the same terms. */
  method TotalCpp(m: array2<CellularCpp.Tile>, spawns: seq<Point>, c: Point, d: nat) returns (total: nat, ghost lens: seq<nat>)
    requires forall q :: 0 <= q < |spawns| ==> InBounds(spawns[q], m.Length0, m.Length1)
    ensures |lens| == |spawns| && total == Total(lens, 4 * d)
    ensures forall q :: 0 <= q < |spawns| ==> CppPathLength(Cells(m), spawns[q], c, lens[q])
  {
    ghost var g := Cells(m);
    total := 0;
    lens := [];
    for pos := 0 to |spawns|
      invariant |lens| == pos
      invariant forall q :: 0 <= q < pos ==> CppPathLength(g, spawns[q], c, lens[q])
      invariant total == Total(lens, 4 * d)
    {
      var len := PathLengthCpp(m, spawns[pos], c);
      total := total + len + d * 4;
      LengthsCppStep(g, spawns, c, lens, len, 4 * d);
      lens := lens + [len];
    }
  }

  /** The C++ score of one candidate: an integer sum divided with truncation. */
  method AverageCpp(m: array2<CellularCpp.Tile>, spawns: seq<Point>, c: Point, d: nat) returns (avg: int)
    requires |spawns| > 0
    requires forall q :: 0 <= q < |spawns| ==> InBounds(spawns[q], m.Length0, m.Length1)
    ensures CppAverage(Cells(m), spawns, c, d, avg as real)
    ensures avg >= 4 * d
  {
    var total;
    ghost var lens;
    total, lens := TotalCpp(m, spawns, c, d);
    TotalAtLeast(lens, 4 * d);
    avg := total / |spawns|;
    MeanAtLeastInt(total, |spawns|, 4 * d);
    assert |lens| == |spawns| && avg == Total(lens, 4 * d) / |spawns|;
  }

  /** One JS selection pass: the first unused candidate with the highest score above 0, if any. */
  method FurthestJs(m: array2<CellularJs.Symbol>, order: seq<Point>, dm: seq<seq<nat>>, spawns: seq<Point>)
    returns (furthest: Option<Point>, ghost avgs: seq<real>, ghost at: nat)
    requires |spawns| > 0
    requires forall q :: 0 <= q < |spawns| ==> InBounds(spawns[q], m.Length0, m.Length1)
    ensures Picked(order, spawns, avgs, furthest, at)
    ensures ScoredJs(Cells(m), spawns, order, dm, avgs)
  {
    furthest := None;
    var best: real := 0.0;
    avgs := [];
    at := 0;
    for aval := 0 to |order|
      invariant |avgs| == aval
      invariant PickedSoFar(order, spawns, avgs, furthest, at)
      invariant best as real == if furthest.None? then 0.0 else avgs[at]
      invariant ScoredJs(Cells(m), spawns, order, dm, avgs)
    {
      furthest, best, avgs, at := ScoreJs(m, order, dm, spawns, aval, furthest, best, avgs, at);
    }
  }

  /** One pass of the candidate loop of `FurthestJs`: scores `order[|avgs|]`. */
  method ScoreJs(m: array2<CellularJs.Symbol>, order: seq<Point>, dm: seq<seq<nat>>, spawns: seq<Point>, aval: nat,
                    furthest: Option<Point>, best: real, ghost avgs: seq<real>, ghost at: nat)
    returns (furthest': Option<Point>, best': real, ghost avgs': seq<real>, ghost at': nat)
    requires |spawns| > 0
    requires forall q :: 0 <= q < |spawns| ==> InBounds(spawns[q], m.Length0, m.Length1)
    requires |avgs| == aval < |order|
    requires PickedSoFar(order, spawns, avgs, furthest, at)
    requires best as real == if furthest.None? then 0.0 else avgs[at]
    requires ScoredJs(Cells(m), spawns, order, dm, avgs)
    ensures |avgs'| == |avgs| + 1 && avgs'[..|avgs|] == avgs
    ensures PickedSoFar(order, spawns, avgs', furthest', at')
    ensures best' as real == if furthest'.None? then 0.0 else avgs'[at']
    ensures ScoredJs(Cells(m), spawns, order, dm, avgs')
  {
    ghost var g := Cells(m);
    var found := Listed(order[aval], spawns);
    if found {
      PickedStep(order, spawns, avgs, furthest, at, 0.0);
      ScoredJsStep(g, spawns, order, dm, avgs, 0.0);
      furthest', best', avgs', at' := furthest, best, avgs + [0.0], at;
      return;
    }
    var avg := AverageJs(m, spawns, order[aval], Lookup(dm, order[aval]));
    PickedStep(order, spawns, avgs, furthest, at, avg);
    ScoredJsStep(g, spawns, order, dm, avgs, avg);
    avgs' := avgs + [avg];
    if avg > best {
      furthest', best', at' := Some(order[aval]), avg, aval;
    } else {
      furthest', best', at' := furthest, best, at;
    }
  }

  /** One C++ selection pass: integer scores, compared strictly against the best so far. */
  method FurthestCpp(m: array2<CellularCpp.Tile>, order: seq<Point>, dm: seq<seq<nat>>, spawns: seq<Point>)
    returns (furthest: Option<Point>, ghost avgs: seq<real>, ghost at: nat)
    requires |spawns| > 0
    requires forall q :: 0 <= q < |spawns| ==> InBounds(spawns[q], m.Length0, m.Length1)
    ensures Picked(order, spawns, avgs, furthest, at)
    ensures ScoredCpp(Cells(m), spawns, order, dm, avgs)
  {
    furthest := None;
    var best: int := 0;
    avgs := [];
    at := 0;
    for aval := 0 to |order|
      invariant |avgs| == aval
      invariant PickedSoFar(order, spawns, avgs, furthest, at)
      invariant best as real == if furthest.None? then 0.0 else avgs[at]
      invariant ScoredCpp(Cells(m), spawns, order, dm, avgs)
    {
      furthest, best, avgs, at := ScoreCpp(m, order, dm, spawns, aval, furthest, best, avgs, at);
    }
  }

  /** One pass of the candidate loop of `FurthestCpp`: scores `order[|avgs|]`. */
  method ScoreCpp(m: array2<CellularCpp.Tile>, order: seq<Point>, dm: seq<seq<nat>>, spawns: seq<Point>, aval: nat,
                    furthest: Option<Point>, best: int, ghost avgs: seq<real>, ghost at: nat)
    returns (furthest': Option<Point>, best': int, ghost avgs': seq<real>, ghost at': nat)
    requires |spawns| > 0
    requires forall q :: 0 <= q < |spawns| ==> InBounds(spawns[q], m.Length0, m.Length1)
    requires |avgs| == aval < |order|
    requires PickedSoFar(order, spawns, avgs, furthest, at)
    requires best as real == if furthest.None? then 0.0 else avgs[at]
    requires ScoredCpp(Cells(m), spawns, order, dm, avgs)
    ensures |avgs'| == |avgs| + 1 && avgs'[..|avgs|] == avgs
    ensures PickedSoFar(order, spawns, avgs', furthest', at')
    ensures best' as real == if furthest'.None? then 0.0 else avgs'[at']
    ensures ScoredCpp(Cells(m), spawns, order, dm, avgs')
  {
    ghost var g := Cells(m);
    var found := Listed(order[aval], spawns);
    if found {
      PickedStep(order, spawns, avgs, furthest, at, 0.0);
      ScoredCppStep(g, spawns, order, dm, avgs, 0.0);
      furthest', best', avgs', at' := furthest, best, avgs + [0.0], at;
      return;
    }
    var avg := AverageCpp(m, spawns, order[aval], Lookup(dm, order[aval]));
    PickedStep(order, spawns, avgs, furthest, at, avg as real);
    ScoredCppStep(g, spawns, order, dm, avgs, avg as real);
    avgs' := avgs + [avg as real];
    if avg > best {
      furthest', best', at' := Some(order[aval]), avg, aval;
    } else {
      furthest', best', at' := furthest, best, at;
    }
  }

  /**
   * The JS selection loop. `complete` is false when a pass found no candidate
   * (`furthest` stays null); that happens only once every candidate is a spawn.
   */
  method SelectJs(m: array2<CellularJs.Symbol>, order: seq<Point>, dm: seq<seq<nat>>, players: nat)
    returns (chosen: seq<Point>, complete: bool)
    requires |order| > 0
    requires forall k :: 0 <= k < |order| ==> InBounds(order[k], m.Length0, m.Length1) && Lookup(dm, order[k]) > 0
    ensures 0 < |chosen| <= AtLeastOne(players) && chosen[0] == order[0]
    ensures complete <==> |chosen| == AtLeastOne(players)
    ensures !complete ==> forall k :: 0 <= k < |order| ==> order[k] in chosen
    ensures Distinct(chosen) && forall i :: 0 <= i < |chosen| ==> chosen[i] in order
    ensures ChainJs(Cells(m), order, dm, chosen)
  {
    chosen := [order[0]];
    var player := 1;
    while player < players
      invariant player == |chosen| <= AtLeastOne(players) && chosen[0] == order[0]
      invariant Distinct(chosen) && forall i :: 0 <= i < |chosen| ==> chosen[i] in order
      invariant ChainJs(Cells(m), order, dm, chosen)
    {
      var furthest, avgs, at := FurthestJs(m, order, dm, chosen);
      if furthest.None? {
        forall k | 0 <= k < |order|
          ensures order[k] in chosen
        {
          if order[k] !in chosen {
            ScoredJsBound(Cells(m), chosen, order, dm, avgs, k);
          }
        }
        return chosen, false;
      }
      ChainJsStep(Cells(m), order, dm, chosen, furthest.value, avgs, at);
      chosen := chosen + [furthest.value];
      player := player + 1;
    }
    complete := true;
  }

  /**
   * The C++ selection loop; a pass that finds no candidate dereferences a null
   * pointer. The as-written filter can leave cells of depth 0 in `order`, and
   * those may score 0, so a pass can come back empty while such a cell is unused.
   */
  method SelectCpp(m: array2<CellularCpp.Tile>, order: seq<Point>, dm: seq<seq<nat>>, players: nat)
    returns (chosen: seq<Point>, complete: bool)
    requires |order| > 0 && players > 0
    requires forall k :: 0 <= k < |order| ==> InBounds(order[k], m.Length0, m.Length1)
    ensures 0 < |chosen| <= players && chosen[0] == order[0]
    ensures complete <==> |chosen| == players
    ensures !complete ==> forall k :: 0 <= k < |order| ==> order[k] in chosen || Lookup(dm, order[k]) == 0
    ensures Distinct(chosen) && forall i :: 0 <= i < |chosen| ==> chosen[i] in order
    ensures ChainCpp(Cells(m), order, dm, chosen)
  {
    chosen := [order[0]];
    var player := 1;
    while player < players
      invariant player == |chosen| <= players && chosen[0] == order[0]
      invariant Distinct(chosen) && forall i :: 0 <= i < |chosen| ==> chosen[i] in order
      invariant ChainCpp(Cells(m), order, dm, chosen)
    {
      var furthest, avgs, at := FurthestCpp(m, order, dm, chosen);
      if furthest.None? {
        forall k | 0 <= k < |order|
          ensures order[k] in chosen || Lookup(dm, order[k]) == 0
        {
          if order[k] !in chosen {
            ScoredCppBound(Cells(m), chosen, order, dm, avgs, k);
          }
        }
        return chosen, false;
      }
      ChainCppStep(Cells(m), order, dm, chosen, furthest.value, avgs, at);
      chosen := chosen + [furthest.value];
      player := player + 1;
    }
    complete := true;
  }

  /** A list without repeats that lies inside another list is no longer than it. */
  lemma Pigeonhole(inner: seq<Point>, outer: seq<Point>)
    requires Distinct(inner) && forall k :: 0 <= k < |inner| ==> inner[k] in outer
    ensures |inner| <= |outer|
  {
    Sorting.DistinctImageSize(inner);
    Sorting.ImageBound(outer);
    assert Sorting.Image(inner) <= Sorting.Image(outer) by {
      forall v | v in Sorting.Image(inner)
        ensures v in Sorting.Image(outer)
      {
        var k :| 0 <= k < |inner| && inner[k] == v;
        var l :| 0 <= l < |outer| && outer[l] == v;
      }
    }
    Sorting.SubsetSize(Sorting.Image(inner), Sorting.Image(outer));
  }

  // ---------------------------------------------------------------------------
  // Marking the map
  // ---------------------------------------------------------------------------

  /** `p` is an orthogonal neighbour of one of the spawns. */
  ghost predicate Near(spawns: seq<Point>, p: Point)
  {
    exists k :: 0 <= k < |spawns| && Adjacent4(spawns[k], p)
  }

  /** The safe-zone offsets in the order both versions try them: right, left, down, up. */
  function SafeOffset(j: nat): Point
    requires j < 4
  {
    if j == 0 then Point(1, 0) else if j == 1 then Point(-1, 0) else if j == 2 then Point(0, 1) else Point(0, -1)
  }

  /** `p` is one of the first `j` safe-zone cells around `s`. */
  predicate Around(s: Point, p: Point, j: nat)
  {
    (j > 0 && p == Add(s, SafeOffset(0))) || (j > 1 && p == Add(s, SafeOffset(1))) ||
    (j > 2 && p == Add(s, SafeOffset(2))) || (j > 3 && p == Add(s, SafeOffset(3)))
  }

  /** The spawn-marking loop: spawn `k` receives `mark(k)`. */
  method WriteMarks<T>(m: array2<T>, spawns: seq<Point>, mark: nat -> T)
    requires Distinct(spawns)
    requires forall k :: 0 <= k < |spawns| ==> 0 <= spawns[k].x < m.Length0 && 0 <= spawns[k].y < m.Length1
    modifies m
    ensures forall k :: 0 <= k < |spawns| ==> m[spawns[k].x, spawns[k].y] == mark(k)
    ensures forall x, y :: 0 <= x < m.Length0 && 0 <= y < m.Length1 && Point(x, y) !in spawns ==> m[x, y] == old(m[x, y])
  {
    for i := 0 to |spawns|
      invariant forall k :: 0 <= k < i ==> m[spawns[k].x, spawns[k].y] == mark(k)
      invariant forall x, y :: 0 <= x < m.Length0 && 0 <= y < m.Length1 && Point(x, y) !in spawns[..i] ==> m[x, y] == old(m[x, y])
    {
      m[spawns[i].x, spawns[i].y] := mark(i);
      assert spawns[..i + 1] == spawns[..i] + [spawns[i]];
    }
    assert spawns[..|spawns|] == spawns;
  }

  /** The safe zone around one spawn: in-bounds neighbours that are `free` or `restricted` become `safe`. */
  method MarkAround<T(==)>(m: array2<T>, s: Point, free: T, restricted: T, safe: T)
    modifies m
    ensures forall x, y :: 0 <= x < m.Length0 && 0 <= y < m.Length1 ==>
      m[x, y] == if Adjacent4(s, Point(x, y)) && (old(m[x, y]) == free || old(m[x, y]) == restricted) then safe else old(m[x, y])
  {
    for j := 0 to 4
      invariant forall x, y :: 0 <= x < m.Length0 && 0 <= y < m.Length1 ==>
        m[x, y] == if Around(s, Point(x, y), j) && (old(m[x, y]) == free || old(m[x, y]) == restricted) then safe else old(m[x, y])
    {
      var o := Add(s, SafeOffset(j));
      if o.x < 0 || o.y < 0 || o.x >= m.Length0 || o.y >= m.Length1 {
        continue;
      }
      if m[o.x, o.y] == free || m[o.x, o.y] == restricted {
        m[o.x, o.y] := safe;
      }
    }
  }

  /**
   * Both marking loops: every spawn receives its mark, and every other cell
   * next to a spawn that was `free` or `restricted` becomes `safe`.
   */
  method MarkSpawns<T(==)>(m: array2<T>, spawns: seq<Point>, mark: nat -> T, free: T, restricted: T, safe: T)
    requires Distinct(spawns)
    requires forall k :: 0 <= k < |spawns| ==> 0 <= spawns[k].x < m.Length0 && 0 <= spawns[k].y < m.Length1
    requires forall k :: 0 <= k < |spawns| ==> mark(k) != free && mark(k) != restricted
    modifies m
    ensures forall k :: 0 <= k < |spawns| ==> m[spawns[k].x, spawns[k].y] == mark(k)
    ensures forall x, y :: 0 <= x < m.Length0 && 0 <= y < m.Length1 && Point(x, y) !in spawns ==>
      m[x, y] == if Near(spawns, Point(x, y)) && (old(m[x, y]) == free || old(m[x, y]) == restricted) then safe else old(m[x, y])
  {
    WriteMarks(m, spawns, mark);
    for i := 0 to |spawns|
      invariant forall k :: 0 <= k < |spawns| ==> m[spawns[k].x, spawns[k].y] == mark(k)
      invariant forall x, y :: 0 <= x < m.Length0 && 0 <= y < m.Length1 && Point(x, y) !in spawns ==>
        m[x, y] == if Near(spawns[..i], Point(x, y)) && (old(m[x, y]) == free || old(m[x, y]) == restricted) then safe else old(m[x, y])
    {
      MarkAround(m, spawns[i], free, restricted, safe);
      forall p
        ensures Near(spawns[..i + 1], p) <==> Near(spawns[..i], p) || Adjacent4(spawns[i], p)
      {
        assert forall k :: 0 <= k < i ==> spawns[..i + 1][k] == spawns[..i][k];
        assert spawns[..i + 1][i] == spawns[i];
      }
    }
    assert spawns[..|spawns|] == spawns;
  }

  /**
   * The JS map went from `before` to `after` (both w by h) by marking spawn
   * i with "i+1" and, when `zones` holds, turning each other cell next to a
   * spawn that was free or restricted into a safe cell; nothing else changed.
   */
  ghost predicate MarkedJs(before: seq<seq<CellularJs.Symbol>>, after: seq<seq<CellularJs.Symbol>>, w: nat, h: nat, s: seq<Point>, zones: bool)
  {
    IsRect(before, w, h) && IsRect(after, w, h) &&
    (forall i :: 0 <= i < |s| ==> InBounds(s[i], w, h) && after[s[i].x][s[i].y] == CellularJs.SpawnMark(i + 1)) &&
    (forall x, y :: 0 <= x < w && 0 <= y < h && Point(x, y) !in s ==>
      after[x][y] == if zones && Near(s, Point(x, y)) && (before[x][y] == CellularJs.Free || before[x][y] == CellularJs.Restricted)
                     then CellularJs.Safe else before[x][y])
  }

  /**
   * The C++ map went from `before` to `after` by marking every spawn as a
   * spawn point and turning each other cell next to a spawn that was free or
   * restricted into a safe cell; nothing else changed.
   */
  ghost predicate MarkedCpp(before: seq<seq<CellularCpp.Tile>>, after: seq<seq<CellularCpp.Tile>>, w: nat, h: nat, s: seq<Point>)
  {
    IsRect(before, w, h) && IsRect(after, w, h) &&
    (forall i :: 0 <= i < |s| ==> InBounds(s[i], w, h) && after[s[i].x][s[i].y] == CellularCpp.SpawnPoint) &&
    (forall x, y :: 0 <= x < w && 0 <= y < h && Point(x, y) !in s ==>
      after[x][y] == if Near(s, Point(x, y)) && (before[x][y] == CellularCpp.Free || before[x][y] == CellularCpp.Restricted)
                     then CellularCpp.Safe else before[x][y])
  }

  lemma MarkedJsCells(before: seq<seq<CellularJs.Symbol>>, m: array2<CellularJs.Symbol>, s: seq<Point>, zones: bool)
    requires IsRect(before, m.Length0, m.Length1)
    requires forall i :: 0 <= i < |s| ==> InBounds(s[i], m.Length0, m.Length1) && m[s[i].x, s[i].y] == CellularJs.SpawnMark(i + 1)
    requires forall x, y :: 0 <= x < m.Length0 && 0 <= y < m.Length1 && Point(x, y) !in s ==>
      m[x, y] == if zones && Near(s, Point(x, y)) && (before[x][y] == CellularJs.Free || before[x][y] == CellularJs.Restricted)
                 then CellularJs.Safe else before[x][y]
    ensures MarkedJs(before, Cells(m), m.Length0, m.Length1, s, zones)
  {
  }

  lemma MarkedCppCells(before: seq<seq<CellularCpp.Tile>>, m: array2<CellularCpp.Tile>, s: seq<Point>)
    requires IsRect(before, m.Length0, m.Length1)
    requires forall i :: 0 <= i < |s| ==> InBounds(s[i], m.Length0, m.Length1) && m[s[i].x, s[i].y] == CellularCpp.SpawnPoint
    requires forall x, y :: 0 <= x < m.Length0 && 0 <= y < m.Length1 && Point(x, y) !in s ==>
      m[x, y] == if Near(s, Point(x, y)) && (before[x][y] == CellularCpp.Free || before[x][y] == CellularCpp.Restricted)
                 then CellularCpp.Safe else before[x][y]
    ensures MarkedCpp(before, Cells(m), m.Length0, m.Length1, s)
  {
  }

  /** The JS marking loops: "i+1" on spawn i, then, when `zones` holds, the safe zones. */
  method MarkJs(m: array2<CellularJs.Symbol>, s: seq<Point>, zones: bool)
    requires Distinct(s) && forall k :: 0 <= k < |s| ==> InBounds(s[k], m.Length0, m.Length1)
    modifies m
    ensures MarkedJs(old(Cells(m)), Cells(m), m.Length0, m.Length1, s, zones)
  {
    ghost var before := Cells(m);
    if zones {
      MarkSpawns(m, s, (k: nat) => CellularJs.SpawnMark(k + 1), CellularJs.Free, CellularJs.Restricted, CellularJs.Safe);
    } else {
      WriteMarks(m, s, (k: nat) => CellularJs.SpawnMark(k + 1));
    }
    MarkedJsCells(before, m, s, zones);
  }

  /** The C++ marking loops: every spawn becomes a spawn point, then the safe zones. */
  method MarkCpp(a: array2<CellularCpp.Tile>, s: seq<Point>)
    requires Distinct(s) && forall k :: 0 <= k < |s| ==> InBounds(s[k], a.Length0, a.Length1)
    modifies a
    ensures MarkedCpp(old(Cells(a)), Cells(a), a.Length0, a.Length1, s)
  {
    ghost var before := Cells(a);
    MarkSpawns(a, s, k => CellularCpp.SpawnPoint, CellularCpp.Free, CellularCpp.Restricted, CellularCpp.Safe);
    MarkedCppCells(before, a, s);
  }

  // ---------------------------------------------------------------------------
  // The two versions
  // ---------------------------------------------------------------------------

  /** The gathered grid is the depth grid of the regions. */
  lemma GatheredGrid(regions: seq<Analysed>, depth: array2<nat>, w: nat, h: nat)
    requires Paired(regions) && depth.Length0 == w && depth.Length1 == h
    requires forall x, y :: 0 <= x < w && 0 <= y < h ==> depth[x, y] == DepthAfter(regions, Point(x, y))
    ensures Cells(depth) == DepthGrid(regions, w, h)
  {
    var a := Cells(depth);
    var b := DepthGrid(regions, w, h);
    assert |a| == |b|;
    forall x | 0 <= x < w
      ensures a[x] == b[x]
    {
      assert |a[x]| == |b[x]|;
    }
  }

  /**
   * Facts about the candidate list shared by both versions: each candidate
   * lies on the grid with a positive depth, the ordered list holds exactly the
   * candidates, its head is the deepest, and it has no repeats when no cell
   * was gathered twice.
   */
  lemma OrderFacts(regions: seq<Analysed>, w: nat, h: nat, available: seq<Point>, dm: seq<seq<nat>>, deep: seq<Point>,
                   order: seq<Point>, perm: seq<nat>)
    requires WellFormed(regions, w, h) && available == Flatten(regions) && dm == DepthGrid(regions, w, h)
    requires deep == Deep(available, dm)
    requires Sorting.IsPermutation(perm, |deep|) && order == Sorting.Permute(deep, perm)
    requires Sorting.StablyDescending(DepthKeys(deep, dm), perm)
    requires forall k :: 0 <= k < |deep| ==> Lookup(dm, order[0]) >= Lookup(dm, deep[k])
    ensures deep == Candidates(regions, w, h) && DepthOrder(regions, w, h, order)
    ensures forall k :: 0 <= k < |order| ==> InBounds(order[k], w, h) && Lookup(dm, order[k]) > 0 && order[k] in deep
    ensures forall c :: c in deep ==> c in order
    ensures |order| > 0 ==> forall c :: c in deep ==> DepthAfter(regions, order[0]) >= DepthAfter(regions, c)
    ensures Distinct(available) ==> Distinct(order)
  {
    FlattenInBounds(regions, w, h);
    DeepKeeps(available, dm);
    Sorting.PermuteMembers(deep, perm);
    forall k | 0 <= k < |order|
      ensures InBounds(order[k], w, h) && Lookup(dm, order[k]) > 0 && order[k] in deep
    {
      assert order[k] in deep;
    }
    if |order| > 0 {
      forall c | c in deep
        ensures DepthAfter(regions, order[0]) >= DepthAfter(regions, c)
      {
        var k :| 0 <= k < |deep| && deep[k] == c;
        LookupDepthGrid(regions, w, h, order[0]);
        LookupDepthGrid(regions, w, h, c);
      }
    }
    if Distinct(available) {
      DeepDistinct(available, dm);
      Sorting.PermuteDistinct(deep, perm);
    }
  }

  /**
   * The JS ranking: gather every analysed cell with its depth, keep the ones
   * left with a positive depth and order them deepest first.
   */
  method Rank(regions: seq<Analysed>, w: nat, h: nat) returns (order: seq<Point>, dm: seq<seq<nat>>)
    requires WellFormed(regions, w, h)
    ensures dm == DepthGrid(regions, w, h)
    ensures |order| == |Candidates(regions, w, h)| && DepthOrder(regions, w, h, order)
    ensures forall k :: 0 <= k < |order| ==>
      InBounds(order[k], w, h) && Lookup(dm, order[k]) > 0 && order[k] in Candidates(regions, w, h)
    ensures forall c :: c in order <==> c in Candidates(regions, w, h)
    ensures |order| > 0 ==> forall c :: c in Candidates(regions, w, h) ==> DepthAfter(regions, order[0]) >= DepthAfter(regions, c)
    ensures Distinct(Flatten(regions)) ==> Distinct(order)
  {
    var depth, available := Gather(regions, w, h);
    dm := Cells(depth);
    GatheredGrid(regions, depth, w, h);
    var deep := Deep(available, dm);
    ghost var perm;
    order, perm := OrderByDepth(deep, dm);
    OrderFacts(regions, w, h, available, dm, deep, order, perm);
  }

  /** Spawns drawn from the ordered list are candidates, and the first is among the deepest. */
  lemma SpawnsAmongCandidates(regions: seq<Analysed>, w: nat, h: nat, order: seq<Point>, s: seq<Point>)
    requires Paired(regions)
    requires forall c :: c in order <==> c in Candidates(regions, w, h)
    requires |order| > 0 ==> forall c :: c in Candidates(regions, w, h) ==> DepthAfter(regions, order[0]) >= DepthAfter(regions, c)
    requires |order| > 0 && |s| > 0 && s[0] == order[0] && forall i :: 0 <= i < |s| ==> s[i] in order
    ensures forall i :: 0 <= i < |s| ==> s[i] in Candidates(regions, w, h)
    ensures forall c :: c in Candidates(regions, w, h) ==> DepthAfter(regions, s[0]) >= DepthAfter(regions, c)
  {
  }

  /**
   * JS `findPlayerSpawns`. The map is left alone when there are fewer
   * candidates than players. Otherwise the spawns are chosen and marked
   * "1", "2", ... with their safe zones. When a selection pass finds no
   * candidate, the marking loop writes the spawns chosen so far and then
   * raises a TypeError on the missing one.
   */
  method FindPlayerSpawnsJs(m: array2<CellularJs.Symbol>, regions: seq<Analysed>, players: nat)
    returns (outcome: Outcome, ghost order: seq<Point>)
    requires WellFormed(regions, m.Length0, m.Length1)
    modifies m
    ensures !outcome.Undefined?
    ensures outcome.Refused? <==> |Candidates(regions, m.Length0, m.Length1)| < players
    ensures outcome.Refused? ==> unchanged(m)
    ensures !outcome.Refused? ==> DepthOrder(regions, m.Length0, m.Length1, order)
    ensures outcome.Placed? ==>
      var s := outcome.spawns;
      |order| > 0 && |s| == AtLeastOne(players) && Distinct(s) &&
      (forall i :: 0 <= i < |s| ==> s[i] in Candidates(regions, m.Length0, m.Length1)) &&
      s[0] == order[0] &&
      (forall c :: c in Candidates(regions, m.Length0, m.Length1) ==> DepthAfter(regions, s[0]) >= DepthAfter(regions, c)) &&
      ChainJs(old(Cells(m)), order, DepthGrid(regions, m.Length0, m.Length1), s) &&
      MarkedJs(old(Cells(m)), Cells(m), m.Length0, m.Length1, s, true)
    ensures outcome.Threw? ==>
      var s := outcome.marked;
      (forall c :: c in Candidates(regions, m.Length0, m.Length1) ==> c in s) &&
      MarkedJs(old(Cells(m)), Cells(m), m.Length0, m.Length1, s, false)
    ensures players > 0 && Distinct(Flatten(regions)) ==> !outcome.Threw?
  {
    var sorted, dm := Rank(regions, m.Length0, m.Length1);
    ghost var n := |Candidates(regions, m.Length0, m.Length1)|;
    order := sorted;
    if |sorted| < players {
      return Refused, order;
    }
    outcome := PlaceJs(m, sorted, dm, players);
    if outcome.Placed? {
      SpawnsAmongCandidates(regions, m.Length0, m.Length1, sorted, outcome.spawns);
    }
  }

  /**
   * JS `findPlayerSpawns` once there are enough candidates: choose the spawns
   * from `order`, then mark them, or mark the ones found before a selection
   * pass came back empty.
   */
  method PlaceJs(m: array2<CellularJs.Symbol>, order: seq<Point>, dm: seq<seq<nat>>, players: nat) returns (outcome: Outcome)
    requires players <= |order|
    requires forall k :: 0 <= k < |order| ==> InBounds(order[k], m.Length0, m.Length1) && Lookup(dm, order[k]) > 0
    modifies m
    ensures outcome.Placed? || outcome.Threw?
    ensures outcome.Placed? ==>
      var s := outcome.spawns;
      |order| > 0 && |s| == AtLeastOne(players) && Distinct(s) && s[0] == order[0] &&
      (forall i :: 0 <= i < |s| ==> s[i] in order) &&
      ChainJs(old(Cells(m)), order, dm, s) &&
      MarkedJs(old(Cells(m)), Cells(m), m.Length0, m.Length1, s, true)
    ensures outcome.Threw? ==>
      var s := outcome.marked;
      (forall c :: c in order ==> c in s) &&
      MarkedJs(old(Cells(m)), Cells(m), m.Length0, m.Length1, s, false)
    ensures players > 0 && Distinct(order) ==> !outcome.Threw?
  {
    if |order| == 0 {
      // No candidate at all and no player asked for: `available[0]` is undefined.
      MarkJs(m, [], false);
      return Threw([]);
    }
    var chosen, complete := SelectJs(m, order, dm, players);
    if !complete {
      if players > 0 && Distinct(order) {
        Pigeonhole(order, chosen);
        assert false;
      }
      MarkJs(m, chosen, false);
      return Threw(chosen);
    }
    MarkJs(m, chosen, true);
    outcome := Placed(chosen);
  }

  /**
   * The C++ ranking: gather every analysed cell with its depth, apply the
   * depth-0 filter as written (`EraseAfterRemove`) and order what it leaves
   * deepest first. `kept` is None where the erase is undefined.
   */
  method RankCpp(regions: seq<Analysed>, w: nat, h: nat) returns (kept: Option<seq<Point>>, order: seq<Point>, dm: seq<seq<nat>>)
    requires WellFormed(regions, w, h)
    ensures dm == DepthGrid(regions, w, h)
    ensures kept == EraseAfterRemove(Flatten(regions), dm)
    ensures kept.Some? ==> |order| == |kept.value| && DepthSorted(kept.value, dm, order)
    ensures kept.Some? ==> forall k :: 0 <= k < |order| ==> InBounds(order[k], w, h) && order[k] in Flatten(regions)
    ensures kept.Some? && |order| > 0 ==>
      forall c :: c in Candidates(regions, w, h) ==> DepthAfter(regions, order[0]) >= DepthAfter(regions, c)
    ensures kept.Some? && |Candidates(regions, w, h)| + 1 == |Flatten(regions)| ==>
      DepthOrder(regions, w, h, order) && (forall k :: 0 <= k < |order| ==> Lookup(dm, order[k]) > 0) &&
      (Distinct(Flatten(regions)) ==> Distinct(order))
  {
    var depth, available := Gather(regions, w, h);
    dm := Cells(depth);
    GatheredGrid(regions, depth, w, h);
    kept := EraseAfterRemove(available, dm);
    if kept.None? {
      return kept, [], dm;
    }
    ghost var perm;
    order, perm := OrderByDepth(kept.value, dm);
    assert DepthSorted(kept.value, dm, order);
    FlattenInBounds(regions, w, h);
    Sorting.PermuteMembers(kept.value, perm);
    if |order| > 0 {
      DeepKeeps(available, dm);
      forall c | c in Candidates(regions, w, h)
        ensures DepthAfter(regions, order[0]) >= DepthAfter(regions, c)
      {
        var k :| 0 <= k < |kept.value| && kept.value[k] == c;
        LookupDepthGrid(regions, w, h, order[0]);
        LookupDepthGrid(regions, w, h, c);
      }
    }
    if |Candidates(regions, w, h)| + 1 == |Flatten(regions)| {
      OrderFacts(regions, w, h, available, dm, kept.value, order, perm);
    }
  }

  /**
   * C++ `findPlayerSpawns`, with the depth-0 filter as written. The erase is
   * undefined when no cell has depth 0, asking for no players writes into an
   * empty vector, and a selection pass that finds no candidate dereferences
   * null: all three are undefined behaviour, where the model stops.
   */
  method FindPlayerSpawnsCpp(m: GameMap.Map<CellularCpp.Tile>, regions: seq<Analysed>, players: nat)
    returns (outcome: Outcome, ghost order: seq<Point>)
    requires m.Valid() && WellFormed(regions, m.width, m.height)
    modifies m.data
    ensures m.Valid()
    ensures !outcome.Threw?
    ensures !outcome.Placed? ==> unchanged(m.data)
    ensures EraseAfterRemove(Flatten(regions), DepthGrid(regions, m.width, m.height)).None? ==> outcome.Undefined?
    // The count check sees every gathered cell but one.
    ensures outcome.Refused? <==>
      EraseAfterRemove(Flatten(regions), DepthGrid(regions, m.width, m.height)).Some? && |Flatten(regions)| <= players
    ensures players == 0 ==> outcome.Undefined?
    // Where exactly one cell has depth 0 the filter does what was intended, and so does the rest.
    ensures players > 0 && Distinct(Flatten(regions)) && |Candidates(regions, m.width, m.height)| + 1 == |Flatten(regions)| ==>
      !outcome.Undefined? && (outcome.Placed? ==> DepthOrder(regions, m.width, m.height, order))
    ensures outcome.Placed? ==>
      var s := outcome.spawns;
      var dm := DepthGrid(regions, m.width, m.height);
      DepthSorted(EraseAfterRemove(Flatten(regions), dm).value, dm, order) &&
      |order| > 0 && |s| == players && Distinct(s) &&
      (forall i :: 0 <= i < |s| ==> s[i] in Flatten(regions)) &&
      s[0] == order[0] &&
      (forall c :: c in Candidates(regions, m.width, m.height) ==> DepthAfter(regions, s[0]) >= DepthAfter(regions, c)) &&
      ChainCpp(old(Cells(m.data)), order, dm, s) &&
      MarkedCpp(old(Cells(m.data)), Cells(m.data), m.width, m.height, s)
  {
    var kept, sorted, dm := RankCpp(regions, m.width, m.height);
    order := sorted;
    if kept.None? {
      return Undefined, order;
    }
    if |sorted| < players {
      return Refused, order;
    }
    outcome := PlaceCpp(m.data, sorted, dm, players);
  }

  /**
   * C++ `findPlayerSpawns` once there are enough candidates: choose the
   * spawns from `order` and mark them.
   */
  method PlaceCpp(a: array2<CellularCpp.Tile>, order: seq<Point>, dm: seq<seq<nat>>, players: nat) returns (outcome: Outcome)
    requires players <= |order|
    requires forall k :: 0 <= k < |order| ==> InBounds(order[k], a.Length0, a.Length1)
    modifies a
    ensures outcome.Placed? || outcome.Undefined?
    ensures outcome.Undefined? ==> unchanged(a)
    ensures players == 0 ==> outcome.Undefined?
    ensures players > 0 && Distinct(order) && (forall k :: 0 <= k < |order| ==> Lookup(dm, order[k]) > 0) ==>
      !outcome.Undefined?
    ensures outcome.Placed? ==>
      var s := outcome.spawns;
      |order| > 0 && |s| == players && Distinct(s) && s[0] == order[0] &&
      (forall i :: 0 <= i < |s| ==> s[i] in order) &&
      ChainCpp(old(Cells(a)), order, dm, s) &&
      MarkedCpp(old(Cells(a)), Cells(a), a.Length0, a.Length1, s)
  {
    if players == 0 {
      // `spawnPoints.resize(0)` followed by a write to `spawnPoints[0]`.
      return Undefined;
    }
    var chosen, complete := SelectCpp(a, order, dm, players);
    if !complete {
      if Distinct(order) && forall k :: 0 <= k < |order| ==> Lookup(dm, order[k]) > 0 {
        Pigeonhole(order, chosen);
        assert false;
      }
      return Undefined;
    }
    MarkCpp(a, chosen);
    outcome := Placed(chosen);
  }

  // ---------------------------------------------------------------------------
  // The C++ depth-0 filter as written
  // ---------------------------------------------------------------------------

  /**
   * `available.erase(std::remove_if(...))` with the one-argument `erase`.
   * `remove_if` moves the kept cells to the front and (in libstdc++) leaves
   * the tail as it was; `erase` then removes only the single cell at the
   * returned position. When nothing was removed that position is `end()`
   * and the call is undefined (None).
   */
  function EraseAfterRemove(ps: seq<Point>, dm: seq<seq<nat>>): (r: Option<seq<Point>>)
    // Defined exactly when some cell has depth 0 ...
    ensures r.Some? <==> exists k :: 0 <= k < |ps| && Lookup(dm, ps[k]) == 0
    // ... and then exactly one cell goes, however many have depth 0, so the
    // player-count check sees every other cell, stale copies included.
    ensures r.Some? ==> |r.value| == |ps| - 1
    ensures r.Some? ==> forall p :: p in r.value ==> p in ps
    ensures r.Some? ==> forall p :: p in ps && Lookup(dm, p) != 0 ==> p in r.value
    // With a single cell of depth 0 it agrees with the intended filter.
    ensures r.Some? && |Deep(ps, dm)| + 1 == |ps| ==> r.value == Deep(ps, dm)
  {
    DeepKeeps(ps, dm);
    var kept := Deep(ps, dm);
    if |kept| >= |ps| then None
    else
      assert forall p :: p in ps[|kept| + 1..] ==> p in ps;
      Some(kept + ps[|kept| + 1..])
  }

  /**
   * Three cells of which only the last has depth: the intended filter keeps
   * one cell, so two players are refused, while the as-written one leaves two
   * copies of it, so two players pass the check.
   */
  lemma EraseKeepsStaleCopies()
    ensures var ps := [Point(0, 0), Point(1, 0), Point(2, 0)];
      var dm := [[0], [0], [3]];
      Deep(ps, dm) == [Point(2, 0)] &&
      EraseAfterRemove(ps, dm) == Some([Point(2, 0), Point(2, 0)])
  {
    var ps := [Point(0, 0), Point(1, 0), Point(2, 0)];
    var dm := [[0], [0], [3]];
    assert Lookup(dm, ps[0]) == 0 && Lookup(dm, ps[1]) == 0 && Lookup(dm, ps[2]) == 3;
    assert ps[..1][..0] == [] && ps[..2][..1] == ps[..1] && ps[..3][..2] == ps[..2];
    assert Deep(ps[..1], dm) == [];
    assert Deep(ps[..2], dm) == [];
    assert ps[..3] == ps;
    assert Deep(ps, dm) == [Point(2, 0)];
    assert ps[2..] == [Point(2, 0)];
    assert EraseAfterRemove(ps, dm) == Some([Point(2, 0)] + ps[2..]);
    assert [Point(2, 0)] + [Point(2, 0)] == [Point(2, 0), Point(2, 0)];
  }
}
