// The generator's two-dimensional grid container: a width-by-height block of
// values that is reallocated and zero-filled by `setBounds`, released by
// `dispose`, and deep-copied by assignment.
//
// The storage is an `array2` indexed [x, y]; `zero` is the value a
// zero-filled element of the element type reads as.

module GameMap {
  import Grid

  class Map<T> {
    var data: array2<T>
    var width: nat
    var height: nat
    /** False while the map owns no storage (the C++ null row pointer). */
    var hasStorage: bool
    const zero: T

    /** The dimensions agree with the storage, and an empty map owns nothing. */
    predicate Valid()
      reads this
    {
      data.Length0 == width && data.Length1 == height && (!hasStorage ==> width == 0 && height == 0)
    }

    /** The contents, column by column. */
    function Cells(): (r: seq<seq<T>>)
      reads this, data
      ensures |r| == data.Length0
      ensures forall x :: 0 <= x < data.Length0 ==> |r[x]| == data.Length1
    {
      Grid.Cells(data)
    }

    /** A default map is 0 by 0 and owns no storage. */
    constructor(zero: T)
      ensures Valid() && width == 0 && height == 0 && !hasStorage && this.zero == zero
    {
      this.zero := zero;
      data := new T[0, 0];
      width, height := 0, 0;
      hasStorage := false;
    }

    /** A map built with dimensions is zero-filled at that size. */
    constructor Sized(zero: T, w: nat, h: nat)
      ensures Valid() && width == w && height == h && hasStorage && this.zero == zero && fresh(data)
      ensures forall x, y :: 0 <= x < w && 0 <= y < h ==> data[x, y] == zero
    {
      this.zero := zero;
      data := new T[w, h]((x, y) => zero);
      width, height := w, h;
      hasStorage := true;
    }

    /** `dispose`: releases the storage and resets both dimensions; an empty map is left alone. */
    method Dispose()
      requires Valid()
      modifies this
      ensures Valid() && width == 0 && height == 0 && !hasStorage
      ensures !old(hasStorage) ==> data == old(data)
    {
      if hasStorage {
        data := new T[0, 0];
        hasStorage := false;
        width, height := 0, 0;
      }
    }

    /** `setBounds`: discards the old contents and allocates a zero-filled w by h block. */
    method SetBounds(w: nat, h: nat)
      requires Valid()
      modifies this
      ensures Valid() && width == w && height == h && hasStorage && fresh(data)
      ensures forall x, y :: 0 <= x < w && 0 <= y < h ==> data[x, y] == zero
    {
      Dispose();
      width, height := w, h;
      data := new T[w, h]((x, y) => zero);
      hasStorage := true;
    }

    /**
     * Assignment: takes the other map's dimensions and copies its contents
     * into storage of its own.  Self-assignment is excluded, because
     * `setBounds` would release the source before the copy.
     */
    method Assign(other: Map<T>)
      requires Valid() && other.Valid() && other != this
      modifies this
      ensures Valid() && width == other.width && height == other.height
      ensures fresh(data) && data != other.data
      ensures Cells() == other.Cells()
      ensures other.Cells() == old(other.Cells())
    {
      SetBounds(other.width, other.height);
      var i := 0;
      while i < width
        modifies data
        invariant 0 <= i <= width
        invariant Valid() && width == other.width && height == other.height && fresh(data)
        invariant other.data.Length0 == width && other.data.Length1 == height
        invariant forall x, y :: 0 <= x < i && 0 <= y < height ==> data[x, y] == other.data[x, y]
      {
        var j := 0;
        while j < height
          modifies data
          invariant 0 <= j <= height && i < width
          invariant forall x, y :: 0 <= x < i && 0 <= y < height ==> data[x, y] == other.data[x, y]
          invariant forall y :: 0 <= y < j ==> data[i, y] == other.data[i, y]
        {
          data[i, j] := other.data[i, j];
          j := j + 1;
        }
        i := i + 1;
      }
      assert forall x :: 0 <= x < width ==> Cells()[x] == other.Cells()[x];
    }

    /** `width`. */
    function Width(): (r: nat)
      reads this
      ensures Valid() ==> r == data.Length0
    {
      width
    }

    /** `height`. */
    function Height(): (r: nat)
      reads this
      ensures Valid() ==> r == data.Length1
    {
      height
    }
  }

  /** The copy constructor: a fresh map equal to `other`. */
  method CopyOf<T>(other: Map<T>) returns (m: Map<T>)
    requires other.Valid()
    ensures fresh(m) && m.Valid() && fresh(m.data)
    ensures m.width == other.width && m.height == other.height
    ensures m.Cells() == other.Cells()
  {
    m := new Map(other.zero);
    m.Assign(other);
  }
}
