/**
 * Flag-by-flag descriptions of the results of the bit operators `Bitmask`
 * offers, stated through containment of masks, and the facts that the
 * operators meet them.
 */
module BitFlags {

  /** Every flag. */
  const All: bv32 := 0xFFFF_FFFF

  /** The sign bit of the signed underlying type. */
  const SignBit: bv32 := 0x8000_0000

  // What each operator's result holds, flag by flag, stated through the
  // containment of masks rather than through the operator itself.

  /** `r` holds exactly the flags in neither `m` nor `v`. */
  predicate Neither(m: bv32, v: bv32, r: bv32)
  {
    r & (m | v) == 0 && r | m | v == All
  }

  /** `r` holds exactly the flags not in both `m` and `v`. */
  predicate NotBoth(m: bv32, v: bv32, r: bv32)
  {
    r & m & v == 0 && r | (m & v) == All
  }

  /** `r` holds exactly the flags in both: within each, and missing only flags one of them lacks. */
  predicate Both(m: bv32, v: bv32, r: bv32)
  {
    r | m == m && r | v == v && r | !m | !v == All
  }

  /** `r` holds exactly the flags in either: it holds both, and nothing outside them. */
  predicate Either(m: bv32, v: bv32, r: bv32)
  {
    m | r == r && v | r == r && r & !m & !v == 0
  }

  /** `r` holds exactly the flags in one of `m` and `v` but not the other. */
  predicate ExactlyOne(m: bv32, v: bv32, r: bv32)
  {
    r & m & v == 0 && r | (m & v) == m | v
  }

  /** `r` holds exactly the flags `m` lacks. */
  predicate Missing(m: bv32, r: bv32)
  {
    r & m == 0 && r | m == All
  }

  /** The low `s` bits of `r` are clear. */
  predicate LowClear(s: bv5, r: bv32)
  {
    r & !(All << s) == 0
  }

  /** The sign bit of `m` is kept and fills the `s` bits at the top of `r`. */
  predicate SignExtended(m: bv32, s: bv5, r: bv32)
  {
    r & SignBit == m & SignBit && r & !(All >> s) == (if m & SignBit != 0 then !(All >> s) else 0)
  }

  lemma NorMeets(m: bv32, v: bv32)
    ensures Neither(m, v, !(m | v))
  {
  }

  lemma NandMeets(m: bv32, v: bv32)
    ensures NotBoth(m, v, !(m & v))
  {
  }

  lemma AndMeets(m: bv32, v: bv32)
    ensures Both(m, v, m & v)
  {
  }

  lemma OrMeets(m: bv32, v: bv32)
    ensures Either(m, v, m | v)
  {
  }

  lemma XorMeets(m: bv32, v: bv32)
    ensures ExactlyOne(m, v, m ^ v)
  {
  }

  lemma ComplementMeets(m: bv32)
    ensures Missing(m, !m)
  {
  }

  lemma SignCopied(m: bv32, s: bv5)
    ensures SignExtended(m, s, if m & SignBit != 0 then !((!m) >> s) else m >> s)
  {
  }

  /** `r` is `prev` doubled, with 32-bit wrap-around. */
  predicate Doubles(prev: bv32, r: bv32)
  {
    r == prev + prev
  }

  /** One more position of left shift doubles the result. */
  lemma ShiftDoubles(m: bv32, s: bv5)
    ensures s > 0 ==> Doubles(m << (s - 1), m << s)
  {
  }

  lemma ShiftClearsLow(m: bv32, s: bv5)
    ensures LowClear(s, m << s)
  {
  }
}
