// The engine's fixed-capacity string: a `char` buffer of capacity N plus a
// terminator, with the current length kept beside it.  Every edit truncates
// at the capacity instead of growing.
//
// C-string arguments are modelled as the characters before their terminator
// (a sequence without NUL).  Where the source copies from an uninitialised
// stack buffer, that buffer's prior contents are passed in as `stale`.

module FixedString {

  import opened SeqSteps

  const Nul: char := '\0'

  /** The largest `int`; sizes and indices pass through `int` casts in the source. */
  const IntMax: int := 0x7FFF_FFFF

  /** The number of `size_t` values. */
  const SizeMod: int := 0x1_0000_0000_0000_0000

  function Min(a: int, b: int): int
  {
    if a < b then a else b
  }

  /** A C-string's characters: no terminator inside. */
  predicate NoNul(s: seq<char>)
  {
    forall i :: 0 <= i < |s| ==> s[i] != Nul
  }

  // ---------------------------------------------------------------------
  // Case maps (the C locale's `tolower` and `toupper`)
  // ---------------------------------------------------------------------

  function LowerChar(c: char): char
  {
    if 'A' <= c <= 'Z' then (c as int + 32) as char else c
  }

  function UpperChar(c: char): char
  {
    if 'a' <= c <= 'z' then (c as int - 32) as char else c
  }

  function Lowered(s: seq<char>): (r: seq<char>)
    ensures |r| == |s|
  {
    seq(|s|, i requires 0 <= i < |s| => LowerChar(s[i]))
  }

  function Uppered(s: seq<char>): (r: seq<char>)
    ensures |r| == |s|
  {
    seq(|s|, i requires 0 <= i < |s| => UpperChar(s[i]))
  }

  /** Lower-casing twice is lower-casing once, and upper-casing first makes no difference. */
  lemma LoweredIdempotent(s: seq<char>)
    ensures Lowered(Lowered(s)) == Lowered(s)
    ensures Lowered(Uppered(s)) == Lowered(s)
    ensures Uppered(Uppered(s)) == Uppered(s)
  {
  }

  /** The case maps keep a C-string free of terminators and leave letters only as letters. */
  lemma CaseMapsKeepNoNul(s: seq<char>)
    requires NoNul(s)
    ensures NoNul(Lowered(s)) && NoNul(Uppered(s))
    ensures forall i :: 0 <= i < |s| ==> !('A' <= Lowered(s)[i] <= 'Z') && !('a' <= Uppered(s)[i] <= 'z')
  {
  }

  // ---------------------------------------------------------------------
  // Searching
  // ---------------------------------------------------------------------

  /** `strncmp(s + i, pat, |pat|) == 0` with the window inside the string. */
  predicate MatchesAt(s: seq<char>, pat: seq<char>, i: int)
  {
    0 <= i && i + |pat| <= |s| && s[i..i + |pat|] == pat
  }

  /** The least match position at or after `start`, or -1. */
  function FindIn(s: seq<char>, pat: seq<char>, start: nat): (r: int)
    decreases |s| - start
    ensures r == -1 || (start <= r && MatchesAt(s, pat, r))
  {
    if start + |pat| > |s| then -1
    else if s[start..start + |pat|] == pat then start
    else FindIn(s, pat, start + 1)
  }

  /** `FindIn` finds the least match: none before it, and none at all when it reports -1. */
  lemma {:induction false} FindInLeast(s: seq<char>, pat: seq<char>, start: nat)
    decreases |s| - start
    ensures FindIn(s, pat, start) != -1 ==> forall i :: start <= i < FindIn(s, pat, start) ==> !MatchesAt(s, pat, i)
    ensures FindIn(s, pat, start) == -1 ==> forall i :: start <= i ==> !MatchesAt(s, pat, i)
  {
    if start + |pat| <= |s| && s[start..start + |pat|] != pat {
      FindInLeast(s, pat, start + 1);
    }
  }

  /**
   * An empty pattern matches at every position up to the end, so a search
   * that resumes `|pat|` past its last match resumes where it was: the
   * counting loop of `replace` never ends for an empty `find`.
   */
  lemma EmptyFindStalls(s: seq<char>, pat: seq<char>, found: nat)
    requires |pat| == 0 && found <= |s|
    ensures FindIn(s, pat, found + |pat|) == found
  {
    assert s[found..found + |pat|] == pat;
  }

  /** The greatest match position in [0, from], or -1. */
  function RFindIn(s: seq<char>, pat: seq<char>, from: int): (r: int)
    requires from + |pat| <= |s|
    decreases if from < 0 then 0 else from + 1
    ensures r == -1 || (0 <= r <= from && MatchesAt(s, pat, r))
    ensures r != -1 ==> forall i :: r < i <= from ==> !MatchesAt(s, pat, i)
    ensures r == -1 ==> forall i :: i <= from ==> !MatchesAt(s, pat, i)
  {
    if from < 0 then -1
    else if s[from..from + |pat|] == pat then from
    else RFindIn(s, pat, from - 1)
  }

  /** Whether a character search looks for characters in the chosen or characters outside it. */
  datatype Wanted = InSet | NotInSet

  predicate Hit(c: char, chosen: seq<char>, w: Wanted)
  {
    if w == InSet then c in chosen else c !in chosen
  }

  /** The least index at or after `start` whose character is wanted, or -1. */
  function FirstWhere(s: seq<char>, chosen: seq<char>, w: Wanted, start: nat): (r: int)
    decreases |s| - start
    ensures r == -1 || (start <= r < |s| && Hit(s[r], chosen, w))
    ensures r != -1 ==> forall i :: start <= i < r ==> !Hit(s[i], chosen, w)
    ensures r == -1 ==> forall i :: start <= i < |s| ==> !Hit(s[i], chosen, w)
  {
    if start >= |s| then -1
    else if Hit(s[start], chosen, w) then start
    else FirstWhere(s, chosen, w, start + 1)
  }

  /** The greatest index in [0, from] whose character is wanted, or -1. */
  function LastWhere(s: seq<char>, chosen: seq<char>, w: Wanted, from: int): (r: int)
    requires from < |s|
    decreases if from < 0 then 0 else from + 1
    ensures r == -1 || (0 <= r <= from && Hit(s[r], chosen, w))
    ensures r != -1 ==> forall i :: r < i <= from ==> !Hit(s[i], chosen, w)
    ensures r == -1 ==> forall i :: 0 <= i <= from ==> !Hit(s[i], chosen, w)
  {
    if from < 0 then -1
    else if Hit(s[from], chosen, w) then from
    else LastWhere(s, chosen, w, from - 1)
  }

  /** The first index the backward character searches inspect, as a signed value. */
  function LastStart(length: nat, start: nat): int
  {
    if start >= length then length - 1 else start
  }

  /**
   * The first index `find_last_of` inspects, as the `size_t` it is stored
   * in: for an empty string `length - 1` wraps to the largest `size_t`.
   */
  function LastOfFirstIndex(length: nat, start: nat): nat
    requires length < SizeMod && start < SizeMod
  {
    LastStart(length, start) % SizeMod
  }

  /** `--i` on a `size_t`. */
  function SizeDecrement(i: nat): (r: nat)
    requires i < SizeMod
    ensures r < SizeMod
  {
    (i - 1) % SizeMod
  }

  /**
   * `find_last_of` counts down a `size_t` while `i >= 0`, a guard no `size_t`
   * can fail: on an empty string its first index, and after index 0 with no
   * match its next index, is the largest `size_t`, far outside the buffer.
   */
  lemma FindLastOfLeavesBuffer(capacity: nat, start: nat)
    requires capacity <= IntMax && start < SizeMod
    ensures LastOfFirstIndex(0, start) == SizeMod - 1 > capacity
    ensures SizeDecrement(0) == SizeMod - 1 > capacity
    ensures forall i :: 0 <= i < SizeMod ==> SizeDecrement(i) >= 0
  {
  }

  // ---------------------------------------------------------------------
  // Substrings and replacement
  // ---------------------------------------------------------------------

  /** `substr` by cases: from `start` to the end, or `len` characters, never past the end. */
  function SubstrOf(s: seq<char>, start: nat, len: int): seq<char>
  {
    if start >= |s| then []
    else if len < 0 || start + len >= |s| then s[start..]
    else s[start..start + len]
  }

  /** The number of characters `substr` copies, computed as the source does. */
  function SubstrLength(length: nat, start: nat, len: int): int
  {
    if len < 0 then length - start
    else if start + len >= length then length - start
    else len
  }

  /** The source's length computation picks out exactly the characters `SubstrOf` describes. */
  lemma SubstrLengthAgrees(s: seq<char>, start: nat, len: int)
    ensures SubstrLength(|s|, start, len) <= 0 ==> SubstrOf(s, start, len) == []
    ensures SubstrLength(|s|, start, len) > 0 ==>
      start + SubstrLength(|s|, start, len) <= |s|
      && SubstrOf(s, start, len) == s[start..start + SubstrLength(|s|, start, len)]
  {
  }

  /** A substring is a prefix of the suffix from `start`, as long as asked for when that fits. */
  lemma {:induction false} SubstrIsPrefixOfSuffix(s: seq<char>, start: nat, len: int)
    requires start <= |s|
    ensures SubstrOf(s, start, len) <= s[start..]
    ensures len < 0 ==> SubstrOf(s, start, len) == s[start..]
    ensures 0 <= len ==> |SubstrOf(s, start, len)| == Min(len, |s| - start)
  {
    if start < |s| && 0 <= len && start + len < |s| {
      assert s[start..start + len] == s[start..][..len];
    }
  }

  lemma SliceOfSlice<T>(s: seq<T>, a: nat, b: nat, n: nat)
    requires a <= b <= |s| && n <= b - a
    ensures s[a..b][..n] == s[a..a + n]
  {
  }

  /** `memcpy` of `src` into `buf` at `at`. */
  function Blit(buf: seq<char>, at: nat, src: seq<char>): (r: seq<char>)
    requires at + |src| <= |buf|
    ensures |r| == |buf|
    ensures r[..at] == buf[..at] && r[at..at + |src|] == src && r[at + |src|..] == buf[at + |src|..]
  {
    buf[..at] + src + buf[at + |src|..]
  }

  /**
   * One copy step of `replace`'s construction loop: with the buffer agreeing
   * with `ideal` up to `newProg` (or up to `total`, if that is less), and
   * `seg` next in `ideal`, copying as much of `seg` as fits below `total`
   * extends the agreement past `seg`.
   */
  lemma CopySegment(ideal: seq<char>, buffer: seq<char>, newProg: nat, total: nat, seg: seq<char>, after: seq<char>, toCpy: int)
    requires newProg <= |ideal| && ideal[newProg..] == seg + after
    requires total <= |ideal| && total < |buffer|
    requires buffer[..Min(newProg, total)] == ideal[..Min(newProg, total)]
    requires toCpy == Min(|seg|, total - newProg) && !(toCpy <= 0 && newProg >= total)
    ensures 0 <= toCpy && newProg + toCpy <= total
    ensures newProg + |seg| <= |ideal| && ideal[newProg + |seg|..] == after
    ensures Blit(buffer, newProg, seg[..toCpy])[..Min(newProg + |seg|, total)] == ideal[..Min(newProg + |seg|, total)]
  {
    assert ideal[newProg + |seg|..] == (seg + after)[|seg|..];
    assert ideal[newProg..newProg + toCpy] == (seg + after)[..toCpy];
    var b := Blit(buffer, newProg, seg[..toCpy]);
    assert b[..newProg + toCpy] == ideal[..newProg + toCpy] by {
      assert ideal[..newProg + toCpy] == ideal[..newProg] + ideal[newProg..newProg + toCpy];
    }
  }

  /** The number of occurrences met searching left to right from `from`, each search resuming after the last match. */
  function CountFrom(s: seq<char>, f: seq<char>, from: nat): nat
    requires |f| > 0 && from <= |s|
    decreases |s| - from
  {
    var k := FindIn(s, f, from);
    if k == -1 then 0 else 1 + CountFrom(s, f, k + |f|)
  }

  /** Every occurrence met by `CountFrom` replaced by `r`, without truncation. */
  function ReplaceFrom(s: seq<char>, f: seq<char>, r: seq<char>, from: nat): seq<char>
    requires |f| > 0 && from <= |s|
    decreases |s| - from
  {
    var k := FindIn(s, f, from);
    if k == -1 then s[from..] else s[from..k] + (r + ReplaceFrom(s, f, r, k + |f|))
  }

  /** A search from a match position finds that position. */
  lemma FindAtMatch(s: seq<char>, pat: seq<char>, k: nat)
    requires MatchesAt(s, pat, k)
    ensures FindIn(s, pat, k) == k
  {
  }

  /** One step of the count: an occurrence at the next match, then the count after it. */
  lemma CountStep(s: seq<char>, f: seq<char>, from: nat, k: int)
    requires |f| > 0 && from <= |s| && k == FindIn(s, f, from) != -1
    ensures from <= k && k + |f| <= |s|
    ensures CountFrom(s, f, from) == 1 + CountFrom(s, f, k + |f|)
  {
  }

  /** One step of the replacement: the text up to the next match, then `r`, then the replacement after it. */
  lemma ReplaceStep(s: seq<char>, f: seq<char>, r: seq<char>, from: nat)
    requires |f| > 0 && from <= |s|
    ensures FindIn(s, f, from) == -1 ==> ReplaceFrom(s, f, r, from) == s[from..]
    ensures FindIn(s, f, from) != -1 ==>
      from <= FindIn(s, f, from) && FindIn(s, f, from) + |f| <= |s| &&
      ReplaceFrom(s, f, r, from) == s[from..FindIn(s, f, from)] + (r + ReplaceFrom(s, f, r, FindIn(s, f, from) + |f|))
  {
  }

  lemma MulSucc(c: int, n: int)
    ensures (1 + c) * n == n + c * n
  {
  }

  lemma MulDiff(c: int, a: int, b: int)
    ensures a * c - b * c == c * (a - b)
  {
  }

  /** The occurrences met do not overlap, so they fit in what is left of the string. */
  lemma {:induction false} CountFits(s: seq<char>, f: seq<char>, from: nat)
    requires |f| > 0 && from <= |s|
    decreases |s| - from
    ensures CountFrom(s, f, from) * |f| <= |s| - from
  {
    var k := FindIn(s, f, from);
    if k != -1 {
      var c := CountFrom(s, f, k + |f|);
      CountFits(s, f, k + |f|);
      assert CountFrom(s, f, from) == 1 + c;
      MulSucc(c, |f|);
    }
  }

  /** Each replacement changes the length by |r| - |f|. */
  lemma {:induction false} ReplacedLength(s: seq<char>, f: seq<char>, r: seq<char>, from: nat)
    requires |f| > 0 && from <= |s|
    decreases |s| - from
    ensures |ReplaceFrom(s, f, r, from)| == |s| - from + CountFrom(s, f, from) * (|r| - |f|)
  {
    var k := FindIn(s, f, from);
    ReplaceStep(s, f, r, from);
    if k != -1 {
      CountStep(s, f, from, k);
      ReplacedLength(s, f, r, k + |f|);
      MulSucc(CountFrom(s, f, k + |f|), |r| - |f|);
    }
  }

  /** With no occurrence the replacement is the string itself. */
  lemma NoOccurrenceUnchanged(s: seq<char>, f: seq<char>, r: seq<char>)
    requires |f| > 0
    ensures CountFrom(s, f, 0) == 0 <==> FindIn(s, f, 0) == -1
    ensures CountFrom(s, f, 0) == 0 ==> ReplaceFrom(s, f, r, 0) == s
  {
  }

  /** A suffix split in three at `b` and `c`. */
  lemma SplitThree(s: seq<char>, a: nat, b: nat, c: nat)
    requires a <= b <= c <= |s|
    ensures s[a..] == s[a..b] + (s[b..c] + s[c..])
  {
  }

  /** Replacing a sequence by itself changes nothing. */
  lemma {:induction false} ReplaceBySelf(s: seq<char>, f: seq<char>, from: nat)
    requires |f| > 0 && from <= |s|
    decreases |s| - from
    ensures ReplaceFrom(s, f, f, from) == s[from..]
  {
    var k := FindIn(s, f, from);
    ReplaceStep(s, f, f, from);
    if k != -1 {
      ReplaceBySelf(s, f, k + |f|);
      MatchReplacedBySelf(s, f, from, k, ReplaceFrom(s, f, f, k + |f|));
    }
  }

  /** The step of `ReplaceBySelf`: the match at k put back in place of itself. */
  lemma MatchReplacedBySelf(s: seq<char>, f: seq<char>, from: nat, k: nat, rest: seq<char>)
    requires from <= k && k + |f| <= |s| && s[k..k + |f|] == f && rest == s[k + |f|..]
    ensures s[from..k] + (f + rest) == s[from..]
  {
    SplitThree(s, from, k, k + |f|);
  }

  /** Replacing within a C-string by a C-string gives a C-string. */
  lemma {:induction false} ReplacedNoNul(s: seq<char>, f: seq<char>, r: seq<char>, from: nat)
    requires |f| > 0 && from <= |s| && NoNul(s) && NoNul(r)
    decreases |s| - from
    ensures NoNul(ReplaceFrom(s, f, r, from))
  {
    var k := FindIn(s, f, from);
    if k != -1 {
      ReplacedNoNul(s, f, r, k + |f|);
    }
  }

  // ---------------------------------------------------------------------
  // Comparison
  // ---------------------------------------------------------------------

  /** The sign of `strcmp` on two C-strings: the first differing character decides, a proper prefix is smaller. */
  function StrCmp(a: seq<char>, b: seq<char>): (r: int)
    ensures -1 <= r <= 1
  {
    if |a| == 0 && |b| == 0 then 0
    else if |a| == 0 then -1
    else if |b| == 0 then 1
    else if a[0] < b[0] then -1
    else if a[0] > b[0] then 1
    else StrCmp(a[1..], b[1..])
  }

  /** `strcmp` is zero exactly on equal strings, and swapping its arguments negates it. */
  lemma {:induction false} StrCmpProperties(a: seq<char>, b: seq<char>)
    ensures StrCmp(a, b) == 0 <==> a == b
    ensures StrCmp(b, a) == -StrCmp(a, b)
  {
    if |a| > 0 && |b| > 0 && a[0] == b[0] {
      StrCmpProperties(a[1..], b[1..]);
      assert a == [a[0]] + a[1..] && b == [b[0]] + b[1..];
    }
  }

  /** `strcmp` orders strings transitively. */
  lemma {:induction false} StrCmpTransitive(a: seq<char>, b: seq<char>, c: seq<char>)
    requires StrCmp(a, b) < 0 && StrCmp(b, c) < 0
    ensures StrCmp(a, c) < 0
  {
    if |a| > 0 && |b| > 0 && |c| > 0 && a[0] == b[0] && b[0] == c[0] {
      StrCmpTransitive(a[1..], b[1..], c[1..]);
    }
  }

  // ---------------------------------------------------------------------
  // The string
  // ---------------------------------------------------------------------

  class FString {
    /** N, the most characters the string holds. */
    const capacity: nat
    /** `mString`: N characters and a terminator. */
    var chars: array<char>
    /** `mLength`. */
    var length: nat

    /** The length fits, a terminator follows the contents, and none occurs before it. */
    predicate Valid()
      reads this, chars
    {
      1 <= capacity <= IntMax && chars.Length == capacity + 1 && length <= capacity
      && chars[length] == Nul && NoNul(chars[..length])
    }

    /** The last slot of the buffer holds a terminator. */
    predicate Sealed()
      reads this, chars
    {
      chars.Length == capacity + 1 && chars[capacity] == Nul
    }

    /** The characters before the terminator. */
    function Contents(): (r: seq<char>)
      reads this, chars
      requires length <= chars.Length
      ensures |r| == length
    {
      chars[..length]
    }

    /** The C-string constructor: zero-filled, then assigned from `init` when one is given. */
    constructor(capacity: nat, init: Option<seq<char>>)
      requires 1 <= capacity <= IntMax
      requires init.Some? ==> NoNul(init.value)
      ensures this.capacity == capacity && Valid() && Sealed() && fresh(chars)
      ensures Contents() == if init.Some? then init.value[..Min(|init.value|, capacity)] else []
    {
      this.capacity := capacity;
      chars := new char[capacity + 1](_ => Nul);
      length := 0;
      new;
      if init.Some? {
        AssignCString(init.value);
      }
    }

    /**
     * The one-character constructor.  The length is 1 whatever the
     * character, so a NUL character leaves a string whose terminator is not
     * the first NUL in its buffer.
     */
    constructor FromChar(capacity: nat, c: char)
      requires 1 <= capacity <= IntMax
      ensures this.capacity == capacity && Sealed() && fresh(chars)
      ensures length == 1 && chars[0] == c && chars[1] == Nul
      ensures Valid() <==> c != Nul
      ensures c != Nul ==> Contents() == [c]
    {
      this.capacity := capacity;
      chars := new char[capacity + 1](_ => Nul);
      length := 0;
      new;
      chars[0] := c;
      length := 1;
      chars[length] := Nul;
    }

    /**
     * Construction from another string.  For a different capacity this is
     * the template constructor, which copies the contents and terminates
     * them; for the same capacity C++ picks the implicit copy constructor,
     * which copies the whole buffer, last slot included.
     */
    constructor CopyOf(capacity: nat, other: FString)
      requires 1 <= capacity <= IntMax && other.Valid()
      ensures this.capacity == capacity && Valid() && fresh(chars)
      ensures Contents() == other.Contents()[..Min(other.length, capacity)]
      ensures other.capacity != capacity ==> Sealed()
      ensures other.capacity == capacity ==> chars[..] == other.chars[..] && (Sealed() <==> other.Sealed())
    {
      this.capacity := capacity;
      chars := new char[capacity + 1](_ => Nul);
      length := 0;
      new;
      AssignFString(other);
    }

    /** Assignment from a C-string keeps its first min(strlen, N) characters. */
    method AssignCString(s: seq<char>)
      requires Valid() && NoNul(s)
      modifies this, chars
      ensures Valid() && chars == old(chars)
      ensures Contents() == s[..Min(|s|, capacity)]
      ensures old(Sealed()) ==> Sealed()
    {
      var toCpy := Min(|s|, capacity);
      forall k | 0 <= k < toCpy {
        chars[k] := s[k];
      }
      chars[toCpy] := Nul;
      length := toCpy;
    }

    /**
     * Assignment from another string keeps its first min(length, N)
     * characters.  For the same capacity C++ picks the implicit copy
     * assignment instead of the template, and that copies the whole buffer.
     */
    method AssignFString(other: FString)
      requires Valid() && other.Valid() && other.chars != chars
      modifies this, chars
      ensures Valid() && chars == old(chars)
      ensures Contents() == old(other.Contents())[..Min(old(other.length), capacity)]
      ensures other.capacity != capacity && old(Sealed()) ==> Sealed()
      ensures other.capacity == capacity ==> chars[..] == old(other.chars[..]) && (Sealed() <==> old(other.Sealed()))
    {
      if other.capacity == capacity {
        forall k | 0 <= k < capacity + 1 {
          chars[k] := other.chars[k];
        }
        length := other.length;
        assert chars[..length] == other.chars[..other.length];
        return;
      }
      var toCpy := Min(other.length, capacity);
      forall k | 0 <= k < toCpy {
        chars[k] := other.chars[k];
      }
      chars[toCpy] := Nul;
      length := toCpy;
    }

    /** `clear`. */
    method Clear()
      requires Valid()
      modifies this, chars
      ensures Valid() && Contents() == [] && chars == old(chars)
      ensures old(Sealed()) ==> Sealed()
    {
      chars[0] := Nul;
      length := 0;
    }

    /** `toLower`: a copy with every upper-case letter lowered, the same length as the original. */
    method ToLower() returns (t: FString)
      requires Valid()
      ensures fresh(t) && fresh(t.chars) && t.Valid() && t.capacity == capacity
      ensures t.Contents() == Lowered(Contents())
    {
      var s := Contents();
      t := new FString(capacity, Some(s));
      var i := 0;
      while t.chars[i] != Nul
        modifies t.chars
        invariant 0 <= i <= t.length == |s| && t.chars.Length == capacity + 1
        invariant t.chars[t.length] == Nul
        invariant forall k :: 0 <= k < i ==> t.chars[k] == LowerChar(s[k])
        invariant forall k :: i <= k < t.length ==> t.chars[k] == s[k]
        decreases t.length - i
      {
        t.chars[i] := LowerChar(t.chars[i]);
        i := i + 1;
      }
      CaseMapsKeepNoNul(s);
      assert t.chars[..t.length] == Lowered(s);
    }

    /** `toUpper`: a copy with every lower-case letter raised, the same length as the original. */
    method ToUpper() returns (t: FString)
      requires Valid()
      ensures fresh(t) && fresh(t.chars) && t.Valid() && t.capacity == capacity
      ensures t.Contents() == Uppered(Contents())
    {
      var s := Contents();
      t := new FString(capacity, Some(s));
      var i := 0;
      while t.chars[i] != Nul
        modifies t.chars
        invariant 0 <= i <= t.length == |s| && t.chars.Length == capacity + 1
        invariant t.chars[t.length] == Nul
        invariant forall k :: 0 <= k < i ==> t.chars[k] == UpperChar(s[k])
        invariant forall k :: i <= k < t.length ==> t.chars[k] == s[k]
        decreases t.length - i
      {
        t.chars[i] := UpperChar(t.chars[i]);
        i := i + 1;
      }
      CaseMapsKeepNoNul(s);
      assert t.chars[..t.length] == Uppered(s);
    }

    /** `find`: the least position at or after `start` where `pat` matches, or -1. */
    method Find(pat: seq<char>, start: nat) returns (r: int)
      requires Valid() && NoNul(pat) && start <= IntMax
      ensures r == FindIn(Contents(), pat, start)
    {
      var last := length - |pat|;
      var i := start;
      while i <= last
        invariant start <= i
        invariant FindIn(Contents(), pat, i) == FindIn(Contents(), pat, start)
        decreases last - i
      {
        if Contents()[i..i + |pat|] == pat {
          return i;
        }
        i := i + 1;
      }
      return -1;
    }

    /** `rfind`: the greatest position at or before min(length - |pat|, start) where `pat` matches, or -1. */
    method RFind(pat: seq<char>, start: nat) returns (r: int)
      requires Valid() && NoNul(pat) && start <= IntMax
      ensures r == RFindIn(Contents(), pat, Min(length - |pat|, start))
    {
      var last := length - |pat|;
      var i := if last < start then last else start;
      while i >= 0
        invariant i <= Min(last, start)
        invariant RFindIn(Contents(), pat, i) == RFindIn(Contents(), pat, Min(last, start))
        decreases i
      {
        if Contents()[i..i + |pat|] == pat {
          return i;
        }
        i := i - 1;
      }
      return -1;
    }

    /** The inner loop of the character searches: whether `c` is one of `chosen`. */
    static method Occurs(c: char, chosen: seq<char>) returns (found: bool)
      ensures found <==> c in chosen
    {
      var j := 0;
      while j < |chosen|
        invariant 0 <= j <= |chosen|
        invariant forall k :: 0 <= k < j ==> chosen[k] != c
      {
        if c == chosen[j] {
          return true;
        }
        j := j + 1;
      }
      return false;
    }

    /** `find_first_of`: the least index at or after `start` holding one of `chosen`, or -1. */
    method FindFirstOf(chosen: seq<char>, start: nat) returns (r: int)
      requires Valid() && NoNul(chosen)
      ensures r == FirstWhere(Contents(), chosen, InSet, start)
    {
      var i := start;
      while i < length
        invariant start <= i
        invariant FirstWhere(Contents(), chosen, InSet, i) == FirstWhere(Contents(), chosen, InSet, start)
        decreases length - i
      {
        var found := Occurs(chars[i], chosen);
        if found {
          return i;
        }
        i := i + 1;
      }
      return -1;
    }

    /** `find_first_not_of`: the least index at or after `start` holding none of `chosen`, or -1. */
    method FindFirstNotOf(chosen: seq<char>, start: nat) returns (r: int)
      requires Valid() && NoNul(chosen)
      ensures r == FirstWhere(Contents(), chosen, NotInSet, start)
    {
      var i := start;
      while i < length
        invariant start <= i
        invariant FirstWhere(Contents(), chosen, NotInSet, i) == FirstWhere(Contents(), chosen, NotInSet, start)
        decreases length - i
      {
        var flag := Occurs(chars[i], chosen);
        if !flag {
          return i;
        }
        i := i + 1;
      }
      return -1;
    }

    /**
     * `find_last_of` as written: the greatest index at or before the start
     * (the last index when `start` is past the end) holding one of `chosen`.
     * The source's unsigned index never fails its loop guard, so only a call
     * with such an index returns; the precondition keeps to those calls.
     */
    method FindLastOf(chosen: seq<char>, start: nat) returns (r: int)
      requires Valid() && NoNul(chosen)
      requires exists k :: 0 <= k <= LastStart(length, start) && chars[k] in chosen
      ensures 0 <= r && r == LastWhere(Contents(), chosen, InSet, LastStart(length, start))
    {
      var i: nat := if start >= length then length - 1 else start;
      while true
        invariant i <= LastStart(length, start) < length
        invariant LastWhere(Contents(), chosen, InSet, i) == LastWhere(Contents(), chosen, InSet, LastStart(length, start))
        invariant exists k :: 0 <= k <= i && chars[k] in chosen
        decreases i
      {
        var found := Occurs(chars[i], chosen);
        if found {
          return i;
        }
        i := i - 1;
      }
    }

    /** `find_last_of` as intended: the same search, with -1 when no character matches. */
    method FindLastOfIntended(chosen: seq<char>, start: nat) returns (r: int)
      requires Valid() && NoNul(chosen)
      ensures r == LastWhere(Contents(), chosen, InSet, LastStart(length, start))
    {
      var i := LastStart(length, start);
      while i >= 0
        invariant i <= LastStart(length, start)
        invariant LastWhere(Contents(), chosen, InSet, i) == LastWhere(Contents(), chosen, InSet, LastStart(length, start))
        decreases i
      {
        var found := Occurs(chars[i], chosen);
        if found {
          return i;
        }
        i := i - 1;
      }
      return -1;
    }

    /** `find_last_not_of`: the greatest index at or before the start holding none of `chosen`, or -1. */
    method FindLastNotOf(chosen: seq<char>, start: nat) returns (r: int)
      requires Valid() && NoNul(chosen)
      ensures r == LastWhere(Contents(), chosen, NotInSet, LastStart(length, start))
    {
      var i := LastStart(length, start);
      while i >= 0
        invariant i <= LastStart(length, start)
        invariant LastWhere(Contents(), chosen, NotInSet, i) == LastWhere(Contents(), chosen, NotInSet, LastStart(length, start))
        decreases i
      {
        var flag := Occurs(chars[i], chosen);
        if !flag {
          return i;
        }
        i := i - 1;
      }
      return -1;
    }

    /** `substr`: a new string of the same capacity holding `SubstrOf(Contents(), start, len)`. */
    method Substr(start: nat, len: int) returns (t: FString)
      requires Valid() && start <= IntMax && -IntMax - 1 <= len <= IntMax
      ensures fresh(t) && t.Valid() && t.capacity == capacity
      ensures t.Contents() == SubstrOf(Contents(), start, len)
    {
      ghost var s := Contents();
      var n := SubstrLength(length, start, len);
      SubstrLengthAgrees(s, start, len);
      t := new FString(capacity, None);
      if n <= 0 {
        return;
      }
      forall k | 0 <= k < n {
        t.chars[k] := chars[start + k];
      }
      assert t.chars[..n] == s[start..start + n];
      t.length := n;
      t.chars[n] := Nul;
      assert t.chars[..n] == s[start..start + n];
    }

    /** `append`: adds the first min(|s|, N - length) characters of `s`; a full string is left unchanged. */
    method Append(s: seq<char>)
      requires Valid() && NoNul(s)
      modifies this, chars
      ensures Valid() && chars == old(chars)
      ensures Contents() == old(Contents()) + s[..Min(|s|, capacity - old(length))]
      ensures old(Sealed()) ==> Sealed()
    {
      var remaining := capacity - length;
      if remaining != 0 {
        var toCpy := Min(|s|, remaining);
        forall k | 0 <= k < toCpy {
          chars[length + k] := s[k];
        }
        length := length + toCpy;
        chars[length] := Nul;
        assert chars[..length] == old(Contents()) + s[..toCpy];
      }
    }

    /**
     * `prepend`: the first min(|s| + length, N) characters of `s` followed by
     * the old contents.  The whole N + 1 character stack buffer is copied
     * back, so the slots after the terminator take its stale contents.
     */
    method Prepend(s: seq<char>, stale: seq<char>)
      requires Valid() && NoNul(s) && |stale| == capacity + 1
      modifies this, chars
      ensures Valid() && chars == old(chars)
      ensures Contents() == (s + old(Contents()))[..Min(|s| + old(length), capacity)]
      ensures chars[capacity] == if length == capacity then Nul else stale[capacity]
    {
      var total := length + |s|;
      var toCpy := Min(total, capacity);
      var buffer := stale;
      var prepSize := Min(|s|, toCpy);
      buffer := Blit(buffer, 0, s[..prepSize]);
      var oldSize := Min(length, toCpy - prepSize);
      buffer := Blit(buffer, prepSize, Contents()[..oldSize]);
      buffer := buffer[toCpy := Nul];
      ghost var expected := (s + old(Contents()))[..toCpy];
      assert buffer[..toCpy] == expected;
      length := toCpy;
      forall k | 0 <= k < capacity + 1 {
        chars[k] := buffer[k];
      }
      assert chars[..length] == buffer[..toCpy];
    }

    /**
     * The counting loop of `replace`: the number of occurrences of `find`
     * met left to right in `text`, each search (`find` above, whose result
     * is `FindIn`) resuming just past the previous occurrence.
     */
    static method CountOccurrences(text: seq<char>, find: seq<char>) returns (count: nat)
      requires |find| > 0
      ensures count == CountFrom(text, find, 0)
    {
      ghost var from := 0;
      ghost var all := CountFrom(text, find, 0);
      count := 0;
      var found := -|find|;
      found := FindIn(text, find, found + |find|);
      while found != -1
        invariant from <= |text| && found == FindIn(text, find, from)
        invariant count + CountFrom(text, find, from) == all
        decreases |text| - from
      {
        CountStep(text, find, from, found);
        count := count + 1;
        from := found + |find|;
        found := FindIn(text, find, found + |find|);
      }
    }

    /**
     * One copy of `replace`'s construction loop: as much of `seg` as fits
     * below `total` goes into the buffer at `newProg`; `stop` is the loop's
     * exit test, taken when nothing is left to copy and the buffer is full.
     */
    static method CopyChunk(buffer: seq<char>, newProg: nat, total: nat, seg: seq<char>, ghost ideal: seq<char>, ghost after: seq<char>)
      returns (next: seq<char>, stop: bool)
      requires newProg <= |ideal| && ideal[newProg..] == seg + after
      requires total <= |ideal| && total < |buffer|
      requires buffer[..Min(newProg, total)] == ideal[..Min(newProg, total)]
      ensures |next| == |buffer|
      ensures stop <==> newProg >= total
      ensures stop ==> next == buffer
      ensures newProg + |seg| <= |ideal| && ideal[newProg + |seg|..] == after
      ensures next[..Min(newProg + |seg|, total)] == ideal[..Min(newProg + |seg|, total)]
    {
      var toCpy := |seg|;
      toCpy := if toCpy < total - newProg then toCpy else total - newProg;
      if toCpy <= 0 && newProg >= total {
        assert ideal[newProg + |seg|..] == (seg + after)[|seg|..];
        return buffer, true;
      }
      CopySegment(ideal, buffer, newProg, total, seg, after, toCpy);
      next := Blit(buffer, newProg, seg[..toCpy]);
      stop := false;
    }

    /**
     * The copies of `replace`'s construction loop at one occurrence: the
     * text skipped over (`text[oldProg..found]`), then `rep`, each as much
     * as fits below `total`.  `stop` is the loop's exit test.
     */
    static method CopyMatch(text: seq<char>, find: seq<char>, rep: seq<char>, total: nat, buffer: seq<char>, oldProg: nat, newProg: nat, found: int,
                            ghost ideal: seq<char>)
      returns (next: seq<char>, newProg': nat, stop: bool)
      requires |find| > 0 && oldProg <= |text| && found == FindIn(text, find, oldProg) != -1
      requires newProg <= |ideal| && ideal[newProg..] == ReplaceFrom(text, find, rep, oldProg)
      requires total <= |ideal| && total < |buffer|
      requires buffer[..Min(newProg, total)] == ideal[..Min(newProg, total)]
      ensures |next| == |buffer| && found + |find| <= |text|
      ensures stop ==> next[..total] == ideal[..total]
      ensures !stop ==> newProg' <= |ideal| && ideal[newProg'..] == ReplaceFrom(text, find, rep, found + |find|)
      ensures !stop ==> next[..Min(newProg', total)] == ideal[..Min(newProg', total)]
    {
      ReplaceStep(text, find, rep, oldProg);
      ghost var rest := ReplaceFrom(text, find, rep, found + |find|);
      assert ideal[newProg..] == text[oldProg..found] + (rep + rest);
      next, stop := CopyChunk(buffer, newProg, total, text[oldProg..found], ideal, rep + rest);
      newProg' := newProg;
      if stop {
        return;
      }
      newProg' := newProg + (found - oldProg);
      next, stop := CopyChunk(next, newProg', total, rep, ideal, rest);
      if stop {
        return;
      }
      newProg' := newProg' + |rep|;
    }

    /**
     * The construction loop of `replace`: a buffer, starting from the stale
     * stack contents, whose first `total` characters are those of the full
     * replacement of `find` by `rep` in `text`.  Copies stop once `total`
     * characters are in place.
     */
    static method BuildReplacement(text: seq<char>, find: seq<char>, rep: seq<char>, total: nat, stale: seq<char>)
      returns (buffer: seq<char>)
      requires |find| > 0 && total <= |ReplaceFrom(text, find, rep, 0)| && total < |stale|
      ensures |buffer| == |stale|
      ensures buffer[..total] == ReplaceFrom(text, find, rep, 0)[..total]
    {
      ghost var ideal := ReplaceFrom(text, find, rep, 0);
      buffer := stale;
      var oldProg: nat := 0;
      var newProg: nat := 0;
      var found := -|find|;
      var stop := false;
      assert ideal[newProg..] == ideal;
      while true
        invariant oldProg <= |text| && found == oldProg - |find|
        invariant newProg <= |ideal| && ideal[newProg..] == ReplaceFrom(text, find, rep, oldProg)
        invariant |buffer| == |stale|
        invariant buffer[..Min(newProg, total)] == ideal[..Min(newProg, total)]
        decreases |text| + 1 - oldProg
      {
        found := FindIn(text, find, found + |find|);
        buffer, newProg, stop := CopyRound(text, find, rep, total, buffer, oldProg, newProg, found, ideal);
        if stop {
          break;
        }
        oldProg := found + |find|;
      }
    }

    /**
     * One round of `replace`'s construction loop after the search from
     * `oldProg`: the copies at the occurrence found, or, when there is none,
     * the copy of the rest of the text, after which the loop always ends.
     */
    static method CopyRound(text: seq<char>, find: seq<char>, rep: seq<char>, total: nat, buffer: seq<char>, oldProg: nat, newProg: nat, found: int,
                            ghost ideal: seq<char>)
      returns (next: seq<char>, newProg': nat, stop: bool)
      requires |find| > 0 && oldProg <= |text| && found == FindIn(text, find, oldProg)
      requires newProg <= |ideal| && ideal[newProg..] == ReplaceFrom(text, find, rep, oldProg)
      requires total <= |ideal| && total < |buffer|
      requires buffer[..Min(newProg, total)] == ideal[..Min(newProg, total)]
      ensures |next| == |buffer|
      ensures stop ==> next[..total] == ideal[..total]
      ensures !stop ==> found != -1 && found + |find| <= |text| && newProg' <= |ideal|
      ensures !stop ==> ideal[newProg'..] == ReplaceFrom(text, find, rep, found + |find|)
      ensures !stop ==> next[..Min(newProg', total)] == ideal[..Min(newProg', total)]
    {
      if found != -1 {
        next, newProg', stop := CopyMatch(text, find, rep, total, buffer, oldProg, newProg, found, ideal);
      } else {
        ReplaceStep(text, find, rep, oldProg);
        next, stop := CopyChunk(buffer, newProg, total, text[oldProg..], ideal, []);
        newProg' := newProg + (|text| - oldProg);
        stop := true;
      }
    }

    /**
     * The arithmetic and construction of `replace` once `count` occurrences
     * are known: the final length, clamped to the capacity, and the buffer
     * holding that much of the full replacement.
     */
    static method ReplacedBuffer(text: seq<char>, find: seq<char>, rep: seq<char>, count: nat, capacity: nat, stale: seq<char>)
      returns (total: nat, buffer: seq<char>)
      requires |find| > 0 && count == CountFrom(text, find, 0) && |stale| == capacity + 1
      requires NoNul(text) && NoNul(rep)
      ensures total == Min(|ReplaceFrom(text, find, rep, 0)|, capacity)
      ensures |buffer| == capacity + 1 && buffer[..total] == ReplaceFrom(text, find, rep, 0)[..total]
      ensures NoNul(buffer[..total])
    {
      ReplacedLength(text, find, rep, 0);
      ReplacedNoNul(text, find, rep, 0);
      MulDiff(count, |rep|, |find|);
      var finalLength := |text| + |rep| * count - |find| * count;
      total := if finalLength < capacity then finalLength else capacity;
      buffer := BuildReplacement(text, find, rep, total, stale);
    }

    /**
     * `replace` as written: every occurrence of `find`, met left to right,
     * becomes `rep`, truncated at N.  The buffer's first N characters are
     * copied back, so when the result fills the string its terminator is
     * whatever the last slot held before.
     */
    method Replace(find: seq<char>, rep: seq<char>, stale: seq<char>)
      requires Valid() && NoNul(find) && NoNul(rep) && |find| > 0 && |stale| == capacity + 1
      modifies this, chars
      ensures chars == old(chars)
      ensures length == Min(|ReplaceFrom(old(Contents()), find, rep, 0)|, capacity)
      ensures Contents() == ReplaceFrom(old(Contents()), find, rep, 0)[..length]
      ensures CountFrom(old(Contents()), find, 0) == 0 ==> chars[..] == old(chars[..])
      ensures CountFrom(old(Contents()), find, 0) > 0 ==> chars[capacity] == old(chars[capacity])
      ensures length < capacity || old(Sealed()) ==> Valid()
    {
      var text := Contents();
      var count := CountOccurrences(text, find);
      if count == 0 {
        NoOccurrenceUnchanged(text, find, rep);
        return;
      }
      var total, buffer := ReplacedBuffer(text, find, rep, count, capacity, stale);
      length := total;
      buffer := buffer[total := Nul];
      forall k | 0 <= k < capacity {
        chars[k] := buffer[k];
      }
      assert chars[..length] == buffer[..total];
    }

    /**
     * `replace` as intended: the same edit, with the terminator copied back
     * as well, and an empty `find` treated as occurring nowhere.
     */
    method ReplaceIntended(find: seq<char>, rep: seq<char>, stale: seq<char>)
      requires Valid() && NoNul(find) && NoNul(rep) && |stale| == capacity + 1
      modifies this, chars
      ensures Valid() && chars == old(chars)
      ensures |find| > 0 ==> length == Min(|ReplaceFrom(old(Contents()), find, rep, 0)|, capacity)
      ensures |find| > 0 ==> Contents() == ReplaceFrom(old(Contents()), find, rep, 0)[..length]
      ensures |find| == 0 ==> chars[..] == old(chars[..]) && length == old(length)
    {
      if |find| == 0 {
        return;
      }
      var text := Contents();
      var count := CountOccurrences(text, find);
      if count == 0 {
        NoOccurrenceUnchanged(text, find, rep);
        return;
      }
      var total, buffer := ReplacedBuffer(text, find, rep, count, capacity, stale);
      length := total;
      buffer := buffer[total := Nul];
      forall k | 0 <= k < capacity + 1 {
        chars[k] := buffer[k];
      }
      assert chars[..length] == buffer[..total];
    }

    /** `==` and `!=`: `strcmp` is zero exactly when the contents agree. */
    function Equals(other: FString): (b: bool)
      reads this, chars, other, other.chars
      requires Valid() && other.Valid()
      ensures b <==> Contents() == other.Contents()
    {
      StrCmpProperties(Contents(), other.Contents());
      StrCmp(Contents(), other.Contents()) == 0
    }

    /** `<`: `strcmp` is negative. */
    function Less(other: FString): (b: bool)
      reads this, chars, other, other.chars
      requires Valid() && other.Valid()
      ensures b <==> StrCmp(other.Contents(), Contents()) > 0
      ensures b ==> Contents() != other.Contents()
    {
      StrCmpProperties(Contents(), other.Contents());
      StrCmp(Contents(), other.Contents()) < 0
    }

    /** `+` with another string: a new string of capacity N + C holding both, never truncated. */
    method Concat(other: FString) returns (t: FString)
      requires Valid() && other.Valid() && capacity + other.capacity <= IntMax
      ensures fresh(t) && t.Valid() && t.capacity == capacity + other.capacity
      ensures t.Contents() == Contents() + other.Contents()
    {
      t := new FString(capacity + other.capacity, Some(Contents()));
      t.Append(other.Contents());
      assert other.Contents()[..Min(other.length, t.capacity - length)] == other.Contents();
    }

    /** `+` with a C-string: a new string of capacity N, truncated at N. */
    method ConcatCString(s: seq<char>) returns (t: FString)
      requires Valid() && NoNul(s)
      ensures fresh(t) && t.Valid() && t.capacity == capacity
      ensures t.Contents() == (Contents() + s)[..Min(length + |s|, capacity)]
    {
      t := new FString(capacity, Some(Contents()));
      t.Append(s);
      assert (Contents() + s)[..Min(length + |s|, capacity)] == Contents() + s[..Min(|s|, capacity - length)];
    }
  }

  /** The replacement of "a" by "cd" in "ba": one occurrence, giving "bcd". */
  lemma ReplaceInBa()
    ensures CountFrom("ba", "a", 0) == 1
    ensures ReplaceFrom("ba", "a", "cd", 0) == "bcd"
  {
    assert "ba"[0..1] == "b";
    assert MatchesAt("ba", "a", 1);
    FindAtMatch("ba", "a", 1);
    assert FindIn("ba", "a", 0) == 1;
    assert FindIn("ba", "a", 2) == -1;
  }

  /**
   * After `prepend` leaves a stale character in the last slot, a `replace`
   * that fills the string to capacity leaves it without a terminator.
   */
  method ReplaceAfterPrependLosesTerminator() returns (t: FString)
    ensures t.capacity == 3 && t.length == 3 && t.chars.Length == 4
    ensures t.Contents() == "bcd" && t.chars[3] == 'x'
    ensures !t.Valid()
  {
    t := new FString(3, Some("a"));
    t.Prepend("b", "xxxx");
    assert t.Contents() == "ba" && t.chars[3] == 'x';
    ReplaceInBa();
    t.Replace("a", "cd", "yyyy");
  }

  /** With the terminator copied back, the same edits leave a valid string. */
  method ReplaceIntendedAfterPrependKeepsTerminator() returns (t: FString)
    ensures t.Valid() && t.Contents() == "bcd"
  {
    t := new FString(3, Some("a"));
    t.Prepend("b", "xxxx");
    assert t.Contents() == "ba";
    ReplaceInBa();
    t.ReplaceIntended("a", "cd", "yyyy");
  }
}
