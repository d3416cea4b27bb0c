// The C++ `RegionIdentifier`: the same scan on a rectangular `gameMap`,
// recording each region as the `Region` constructor's arguments (its cells
// and the map's size), then sorting with `std::sort` by decreasing size.
// The body of the `Region` constructor (Region.cpp) is not part of this
// model, so a region is modelled by what it is built from.

module RegionIdentifierCpp {
  import opened Grid
  import FloodFill
  import Sorting
  import GameMap

  /** `Region(enclosed, width, height)`: the cells of the region and the size of the map it lies on. */
  datatype Region = Region(contained: seq<Point>, width: nat, height: nat)

  /** The cell lists of the regions, in order. */
  function Contained(regions: seq<Region>): (cs: seq<seq<Point>>)
    ensures |cs| == |regions| && forall k :: 0 <= k < |regions| ==> cs[k] == regions[k].contained
  {
    seq(|regions|, k requires 0 <= k < |regions| => regions[k].contained)
  }

  /** Larger regions first; `std::sort` promises nothing about regions of one size. */
  predicate BySize(regions: seq<Region>)
  {
    forall k, l :: 0 <= k < l < |regions| ==> |regions[k].contained| >= |regions[l].contained|
  }

  class RegionIdentifier {
    var regions: seq<Region>

    /**
     * The regions are those of the map: each a repeat-free, connected,
     * maximal list of cells holding ident, no two sharing a cell, every
     * such cell in one of them, larger regions first, each built on the
     * map's size.
     */
    constructor<T(==)>(ident: T, m: GameMap.Map<T>)
      requires m.Valid()
      ensures FloodFill.Found(m.Cells(), ident, m.width, m.height, Contained(regions))
      ensures forall p :: InBounds(p, m.width, m.height) && FloodFill.Holds(m.Cells(), ident, p) ==> p in FloodFill.Members(Contained(regions))
      ensures BySize(regions)
      ensures forall k :: 0 <= k < |regions| ==> regions[k].width == m.width && regions[k].height == m.height
    {
      var g := m.Cells();
      var found, _ := FloodFill.FindRegions(g, ident, m.width, m.height);
      var perm := Sorting.SortDescending(FloodFill.Sizes(found));
      FloodFill.FoundPermuted(g, ident, m.width, m.height, found, perm);
      var sorted := Sorting.Permute(found, perm);
      var w, h := m.width, m.height;
      var rs := seq(|sorted|, k requires 0 <= k < |sorted| => Region(sorted[k], w, h));
      assert Contained(rs) == sorted;
      regions := rs;
    }
  }
}
