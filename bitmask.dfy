/**
 * `Bitmask<T>`: a set of flags held in the integral type underlying an
 * enumeration.  The enumerations used with it are `enum class` types, whose
 * underlying type is a 32-bit `int`, so the mask is modelled as its 32-bit
 * pattern `bv32`; casts of the operands to that type are the identity on
 * the pattern.
 */
module Bitmask {

  import opened BitFlags

  /** The OR of a list of values, folded from the front. */
  function OrAll(values: seq<bv32>): bv32
  {
    if |values| == 0 then 0 else OrAll(values[..|values| - 1]) | values[|values| - 1]
  }

  /** Arithmetic right shift, as `>>` behaves on a signed `int`. */
  function ShiftRightSigned(m: bv32, s: bv5): (r: bv32)
    ensures SignExtended(m, s, r)
  {
    SignCopied(m, s);
    if m & SignBit != 0 then !((!m) >> s) else m >> s
  }

  class Bitmask {
    var mask: bv32

    /** The default constructor: no flags. */
    constructor ()
      ensures mask == 0
    {
      mask := 0;
    }

    /** The copy constructor. */
    constructor Copy(other: Bitmask)
      ensures mask == other.mask
    {
      mask := other.mask;
    }

    /** The variadic constructor: start from 0 and OR in each argument in turn (`extractValues`). */
    constructor FromValues(values: seq<bv32>)
      ensures mask == OrAll(values)
    {
      mask := 0;
      new;
      var i := 0;
      while i < |values|
        invariant 0 <= i <= |values|
        invariant mask == OrAll(values[..i])
      {
        assert values[..i + 1][..i] == values[..i];
        mask := mask | values[i];
        i := i + 1;
      }
      assert values[..|values|] == values;
    }

    /** `nor`: the flags in neither the mask nor `v`, without changing the mask. */
    function Nor(v: bv32): (r: bv32)
      reads this
      ensures Neither(mask, v, r)
    {
      NorMeets(mask, v);
      !(mask | v)
    }

    /** `nand`: the flags not in both the mask and `v`, without changing the mask. */
    function Nand(v: bv32): (r: bv32)
      reads this
      ensures NotBoth(mask, v, r)
    {
      NandMeets(mask, v);
      !(mask & v)
    }

    /** `&`: the flags in both. */
    function And(v: bv32): (r: bv32)
      reads this
      ensures Both(mask, v, r)
    {
      AndMeets(mask, v);
      mask & v
    }

    /** `|`: the flags in either. */
    function Or(v: bv32): (r: bv32)
      reads this
      ensures Either(mask, v, r)
    {
      OrMeets(mask, v);
      mask | v
    }

    /** `^`: the flags in exactly one. */
    function Xor(v: bv32): (r: bv32)
      reads this
      ensures ExactlyOne(mask, v, r)
    {
      XorMeets(mask, v);
      mask ^ v
    }

    /** `~`: the flags not in the mask. */
    function Complement(): (r: bv32)
      reads this
      ensures Missing(mask, r)
    {
      ComplementMeets(mask);
      !mask
    }

    /**
     * `<<` on the signed mask.  Shifts outside [0, 32) are undefined in
     * C++, so the amount is a 5-bit value.  The low `s` bits come out
     * clear; `ShiftLeftDoubles` below relates successive amounts.
     */
    function ShiftLeft(s: bv5): (r: bv32)
      reads this
      ensures LowClear(s, r)
    {
      ShiftClearsLow(mask, s);
      mask << s
    }

    /** `>>` on the signed mask: the sign bit is copied in. */
    function ShiftRight(s: bv5): (r: bv32)
      reads this
      ensures SignExtended(mask, s, r)
    {
      ShiftRightSigned(mask, s)
    }

    /** `==`: no flag differs. */
    predicate Equals(v: bv32)
      reads this
      ensures Equals(v) <==> mask ^ v == 0
    {
      mask == v
    }

    /** `!=`: the negation of `==`. */
    predicate NotEquals(v: bv32)
      reads this
      ensures NotEquals(v) <==> !Equals(v)
    {
      mask != v
    }

    /** `&=`: returns the same object. */
    method AndAssign(v: bv32) returns (self: Bitmask)
      modifies this
      ensures mask == old(mask) & v && self == this
    {
      mask := mask & v;
      self := this;
    }

    /** `|=`: returns the same object. */
    method OrAssign(v: bv32) returns (self: Bitmask)
      modifies this
      ensures mask == old(mask) | v && self == this
    {
      mask := mask | v;
      self := this;
    }

    /** `^=`: returns the same object. */
    method XorAssign(v: bv32) returns (self: Bitmask)
      modifies this
      ensures mask == old(mask) ^ v && self == this
    {
      mask := mask ^ v;
      self := this;
    }

    /** `<<=`. */
    method ShiftLeftAssign(s: bv5) returns (self: Bitmask)
      modifies this
      ensures mask == old(mask) << s && self == this
    {
      mask := mask << s;
      self := this;
    }

    /** `>>=`. */
    method ShiftRightAssign(s: bv5) returns (self: Bitmask)
      modifies this
      ensures mask == ShiftRightSigned(old(mask), s) && self == this
    {
      mask := ShiftRightSigned(mask, s);
      self := this;
    }

    /** `operator=` from a value. */
    method Assign(v: bv32) returns (self: Bitmask)
      modifies this
      ensures mask == v && self == this
    {
      mask := v;
      self := this;
    }
  }

  /** Whether two values have a flag in common. */
  predicate Shares(v: bv32, probe: bv32)
  {
    v & probe != 0
  }

  /** No value in the list has a flag in common with the probe. */
  predicate NoneShare(values: seq<bv32>, probe: bv32)
  {
    forall k :: 0 <= k < |values| ==> !Shares(values[k], probe)
  }

  /**
   * A probe shares no bit with the OR of the constructor arguments exactly
   * when it shares none with any argument: the mask holds precisely the
   * flags that some argument holds.
   */
  lemma {:induction false} OrAllBits(values: seq<bv32>, probe: bv32)
    ensures !Shares(OrAll(values), probe) <==> NoneShare(values, probe)
    decreases |values|
  {
    if |values| > 0 {
      var n := |values|;
      var front := values[..n - 1];
      var last := values[n - 1];
      var a := OrAll(front);
      assert OrAll(values) == a | last;
      OrAllBits(front, probe);
      OrDisjoint(a, last, probe);
      assert NoneShare(values, probe) <==> NoneShare(front, probe) && !Shares(last, probe);
    }
  }

  lemma OrDisjoint(a: bv32, x: bv32, probe: bv32)
    ensures !Shares(a | x, probe) <==> !Shares(a, probe) && !Shares(x, probe)
  {
    assert (a | x) & probe == (a & probe) | (x & probe);
  }

  /** Every argument's flags are present in the constructed mask. */
  lemma {:induction false} OrAllContainsEach(values: seq<bv32>, k: nat)
    requires k < |values|
    ensures values[k] & OrAll(values) == values[k]
    decreases |values|
  {
    var front := values[..|values| - 1];
    if k < |values| - 1 {
      OrAllContainsEach(front, k);
      assert front[k] == values[k];
    }
  }

  /** Each further position of left shift doubles the result, with 32-bit wrap-around. */
  lemma ShiftLeftDoubles(b: Bitmask, s: bv5)
    requires s > 0
    ensures Doubles(b.ShiftLeft(s - 1), b.ShiftLeft(s))
  {
    ShiftDoubles(b.mask, s);
  }

  /** A non-negative mask shifted right is the unsigned shift. */
  lemma ShiftRightNonNegative(m: bv32, s: bv5)
    requires m & SignBit == 0
    ensures ShiftRightSigned(m, s) == m >> s
  {
  }
}
