/**
 * The `Math` interface of the engine: `sign`, `clamp`, `clamp01` and the
 * variadic `smallest` / `largest` folds.  The templates are modelled at
 * `int`; a parameter pack is a first value followed by a sequence.
 */
module EngineMath {

  function Abs(v: int): nat { if v < 0 then -v else v }

  /** `sign`: -1 for negative values, 1 for everything else, 0 included. */
  function Sign(v: int): (r: int)
    ensures r == 1 || r == -1
    ensures r * v == Abs(v)
    ensures v == 0 ==> r == 1
  {
    if v < 0 then -1 else 1
  }

  /** `clamp`: restrict a value to [lo, hi], testing the minimum first. */
  function Clamp(v: int, lo: int, hi: int): (r: int)
    ensures lo <= hi ==> lo <= r <= hi
    ensures lo <= v <= hi ==> r == v
    ensures v < lo ==> r == lo
    ensures lo <= v && hi < v ==> r == hi
  {
    if v < lo then lo else if v > hi then hi else v
  }

  /** `clamp01`: the [0, 1] instance of `clamp`. */
  function Clamp01(v: int): (r: int)
    ensures 0 <= r <= 1
  {
    Clamp(v, 0, 1)
  }

  lemma Clamp01IsClamp(v: int)
    ensures Clamp01(v) == Clamp(v, 0, 1)
    ensures 0 <= v <= 1 ==> Clamp01(v) == v
  {
  }

  /**
   * `extractMin`: walk the rest of the pack, replacing the running value
   * whenever the next one is strictly smaller.
   */
  function ExtractMin(current: int, rest: seq<int>): (r: int)
    ensures r == current || r in rest
    ensures r <= current
    ensures forall i :: 0 <= i < |rest| ==> r <= rest[i]
    decreases |rest|
  {
    if |rest| == 0 then current
    else ExtractMin(if rest[0] < current then rest[0] else current, rest[1..])
  }

  /** `extractMax`: the mirror image of `ExtractMin`. */
  function ExtractMax(current: int, rest: seq<int>): (r: int)
    ensures r == current || r in rest
    ensures r >= current
    ensures forall i :: 0 <= i < |rest| ==> r >= rest[i]
    decreases |rest|
  {
    if |rest| == 0 then current
    else ExtractMax(if rest[0] > current then rest[0] else current, rest[1..])
  }

  /** `smallest(first, args...)`. */
  function Smallest(first: int, args: seq<int>): (r: int)
    ensures r == first || r in args
    ensures r <= first && forall i :: 0 <= i < |args| ==> r <= args[i]
  {
    ExtractMin(first, args)
  }

  /** `largest(first, args...)`. */
  function Largest(first: int, args: seq<int>): (r: int)
    ensures r == first || r in args
    ensures r >= first && forall i :: 0 <= i < |args| ==> r >= args[i]
  {
    ExtractMax(first, args)
  }
}
