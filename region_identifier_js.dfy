// The JavaScript `RegionIdentifier`: label the 4-connected regions of cells
// holding one symbol, wrap each in a `Region`, and sort the regions by size,
// largest first. The map is an array of columns; its width is the number of
// columns and its height the length of the LAST column. A map with no
// columns or an empty last column is refused with an error.

module RegionIdentifierJs {
  import opened Grid
  import FloodFill
  import Sorting
  import RegionJs

  /** Why construction threw. */
  datatype Failure = NoWidth | NoHeight

  /** A thrown error, or the constructed identifier. */
  datatype Outcome = Threw(failure: Failure) | Built(identifier: RegionIdentifier)

  /** The coordinate lists of the regions, in order. */
  ghost function Coordinates(regions: seq<RegionJs.Region>): (cs: seq<seq<Point>>)
    reads set r | r in regions
    ensures |cs| == |regions| && forall k :: 0 <= k < |regions| ==> cs[k] == regions[k].coordinates
  {
    seq(|regions|, k requires 0 <= k < |regions| reads set r | r in regions => regions[k].coordinates)
  }

  /** `new RegionIdentifier(pIdent, pMap)`: the two size checks, then the scan. */
  method Identify<T(==)>(ident: T, g: seq<seq<T>>) returns (outcome: Outcome)
    ensures |g| == 0 <==> outcome == Threw(NoWidth)
    ensures |g| > 0 && |g[|g| - 1]| == 0 <==> outcome == Threw(NoHeight)
    ensures outcome.Built? ==> outcome.identifier.mapWidth == |g| && outcome.identifier.mapHeight == |g[|g| - 1]|
    ensures outcome.Built? ==> outcome.identifier.Valid(ident, g)
  {
    if |g| == 0 {
      return Threw(NoWidth);
    }
    if |g[|g| - 1]| == 0 {
      return Threw(NoHeight);
    }
    var identifier := new RegionIdentifier(ident, g);
    outcome := Built(identifier);
  }

  class RegionIdentifier {
    var mapWidth: nat
    var mapHeight: nat
    var regions: seq<RegionJs.Region>

    /**
     * The regions are those of the map: each a repeat-free, connected,
     * maximal list of cells holding ident, no two sharing a cell, every
     * such cell in one of them; larger regions first, and regions of one
     * size in the scan order of their first cells; each a distinct
     * `Region` built on the map's size.
     */
    ghost predicate Valid<T>(ident: T, g: seq<seq<T>>)
      reads this, set r | r in regions
    {
      var cs := Coordinates(regions);
      FloodFill.Found(g, ident, mapWidth, mapHeight, cs) &&
      (forall p :: InBounds(p, mapWidth, mapHeight) && FloodFill.Holds(g, ident, p) ==> p in FloodFill.Members(cs)) &&
      FloodFill.SizeOrdered(cs) &&
      (forall k, l :: 0 <= k < l < |regions| ==> regions[k] != regions[l]) &&
      (forall k :: 0 <= k < |regions| ==> regions[k].Built(mapWidth, mapHeight))
    }

    constructor<T(==)>(ident: T, g: seq<seq<T>>)
      requires |g| > 0 && |g[|g| - 1]| > 0
      ensures mapWidth == |g| && mapHeight == |g[|g| - 1]|
      ensures forall k :: 0 <= k < |regions| ==> fresh(regions[k])
      ensures Valid(ident, g)
    {
      var w := |g|;
      var h := |g[w - 1]|;
      var found, _ := FloodFill.FindRegions(g, ident, w, h);
      var built := BuildRegions(found, w, h);
      var perm := Sorting.SortDescending(FloodFill.Sizes(found));
      FloodFill.FoundPermuted(g, ident, w, h, found, perm);
      FloodFill.StableSizeOrder(g, ident, w, h, found, perm, w, 0);
      var sorted := Sorting.Permute(built, perm);
      assert Coordinates(sorted) == Sorting.Permute(found, perm);
      mapWidth, mapHeight, regions := w, h, sorted;
    }
  }

  /** One `Region` per coordinate list, each built on a w by h map. */
  method BuildRegions(found: seq<seq<Point>>, w: int, h: int) returns (built: seq<RegionJs.Region>)
    ensures |built| == |found|
    ensures forall k :: 0 <= k < |found| ==> fresh(built[k]) && built[k].coordinates == found[k] && built[k].Built(w, h)
    ensures forall k, l :: 0 <= k < l < |built| ==> built[k] != built[l]
  {
    built := [];
    var i := 0;
    while i < |found|
      invariant 0 <= i <= |found| && |built| == i
      invariant forall k :: 0 <= k < i ==> fresh(built[k]) && built[k].coordinates == found[k] && built[k].Built(w, h)
      invariant forall k, l :: 0 <= k < l < i ==> built[k] != built[l]
    {
      var r := new RegionJs.Region(found[i], w, h);
      built := built + [r];
      i := i + 1;
    }
  }
}
