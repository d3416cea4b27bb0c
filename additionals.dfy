// `deductLocation`: the location of a resource named relative to another
// file.  The parent's directory is rebuilt segment by segment (a segment is
// the text up to and including a '/' or '\' separator), then the relative
// path's segments are applied to it: "./" is skipped, "../" goes up one
// directory, any other segment is appended, and the relative path's final
// component is appended last.
//
// `std::string::find_first_of` returns `npos` when nothing is found, which
// the source casts to the `int` value -1; that is modelled as -1.  The
// unsigned wrap-arounds in the substring counts are written out where they
// decide the result.

module Additionals {

  predicate IsSep(c: char)
  {
    c == '/' || c == '\\'
  }

  /** No separator in `s`: a single path component. */
  predicate NoSep(s: string)
  {
    forall i :: 0 <= i < |s| ==> !IsSep(s[i])
  }

  /** `find_first_of("/\\", from)`: the first separator at or after `from`, or -1. */
  function FindFirstSep(s: string, from: nat): (k: int)
    requires from <= |s|
    ensures k == -1 || (from <= k < |s| && IsSep(s[k]))
    decreases |s| - from
  {
    if from == |s| then -1
    else if IsSep(s[from]) then from
    else FindFirstSep(s, from + 1)
  }

  /** `FindFirstSep` skips only non-separators. */
  lemma {:induction false} FindFirstSepSkips(s: string, from: nat)
    requires from <= |s|
    ensures FindFirstSep(s, from) == -1 ==> forall i :: from <= i < |s| ==> !IsSep(s[i])
    ensures FindFirstSep(s, from) != -1 ==> forall i :: from <= i < FindFirstSep(s, from) ==> !IsSep(s[i])
    decreases |s| - from
  {
    if from < |s| && !IsSep(s[from]) {
      FindFirstSepSkips(s, from + 1);
    }
  }

  /** The last separator before index `end`, or -1. */
  function LastSepBefore(s: string, end: nat): (k: int)
    requires end <= |s|
    ensures k == -1 || (0 <= k < end && IsSep(s[k]))
    ensures k == -1 ==> forall i :: 0 <= i < end ==> !IsSep(s[i])
    ensures k != -1 ==> forall i :: k < i < end ==> !IsSep(s[i])
  {
    if end == 0 then -1
    else if IsSep(s[end - 1]) then end - 1
    else LastSepBefore(s, end - 1)
  }

  /** The section is "./" or ".\". */
  predicate IsCurrentDir(sub: string)
  {
    |sub| == 2 && sub[0] == '.' && IsSep(sub[1])
  }

  /** The section is "../" or "..\". */
  predicate IsParentDir(sub: string)
  {
    |sub| == 3 && sub[0] == '.' && sub[1] == '.' && IsSep(sub[2])
  }

  /**
   * The "../" step: `current` cut at the last separator at or before index
   * `length() - 2`, then '/' appended.  For a `current` shorter than two
   * characters that index wraps around, so the whole string is searched; when
   * no separator is found, `substr(0, npos)` keeps all of `current`.
   */
  function Up(current: string): string
  {
    var k := LastSepBefore(current, if |current| >= 2 then |current| - 1 else |current|);
    (if k == -1 then current else current[..k]) + "/"
  }

  /** One segment applied to `current`: "./" is skipped, "../" goes up, anything else is appended. */
  function Apply(current: string, sub: string): string
  {
    if IsCurrentDir(sub) then current
    else if IsParentDir(sub) then Up(current)
    else current + sub
  }

  /**
   * The parent loop, given the text `pending` read since `prog` last moved
   * and the text `rest` not yet searched: the result it leaves in `current`.
   * A "./" section does not advance `prog`, so it stays pending and is read
   * again in front of the next segment.
   */
  function ParentRest(pending: string, rest: string, current: string): string
    decreases |rest|
  {
    var k := FindFirstSep(rest, 0);
    if k == -1 then current
    else
      var sub := pending + rest[..k + 1];
      if IsCurrentDir(sub) then ParentRest(sub, rest[k + 1..], current)
      else ParentRest("", rest[k + 1..], Apply(current, sub))
  }

  /**
   * The same loop on positions of the whole parent path: the section being
   * read starts at `prog` and the search for the next separator at `from`.
   */
  function ParentLoop(p: string, current: string, from: nat, prog: nat): string
    requires prog <= from <= |p|
    decreases |p| - from
  {
    var next := FindFirstSep(p, from);
    if next == -1 then current
    else
      var sub := p[prog..next + 1];
      if IsCurrentDir(sub) then ParentLoop(p, current, next + 1, prog)
      else ParentLoop(p, Apply(current, sub), next + 1, next + 1)
  }

  /** The directory the parent loop builds from the parent path. */
  function ParentDir(p: string): string
  {
    ParentRest("", p, "")
  }

  /**
   * The relative loop on the text `rest` not yet read: each segment is
   * applied to `current`, and the text after the last separator is appended
   * when the loop ends.
   */
  function RelRest(rest: string, current: string): string
    decreases |rest|
  {
    var k := FindFirstSep(rest, 0);
    if k == -1 then current + rest
    else RelRest(rest[k + 1..], Apply(current, rest[..k + 1]))
  }

  /** The relative path applied to the directory `base`. */
  function Resolve(base: string, r: string): string
  {
    RelRest(r, base)
  }

  /** `deductLocation(pParent, pRelative)`. */
  function Deduct(parent: string, relative: string): string
  {
    if ':' in relative then relative else Resolve(ParentDir(parent), relative)
  }

  /** `deductLocation(pParent, pRelative)`: its two loops, one after the other. */
  method DeductLocation(parent: string, relative: string) returns (current: string)
    ensures current == Deduct(parent, relative)
  {
    if ':' in relative {
      return relative;
    }
    current := ParentDirectory(parent);
    current := ApplyRelative(current, relative);
  }

  /** The first loop of `deductLocation`: the parent's directory, section by section. */
  method ParentDirectory(parent: string) returns (current: string)
    ensures current == ParentDir(parent)
  {
    current := "";
    var index := -1;
    var prog: nat := 0;
    ParentLoopIsRest(parent, "", 0, 0);
    assert parent[0..] == parent;
    while true
      invariant -1 <= index < |parent| && prog <= index + 1
      invariant ParentLoop(parent, current, index + 1, prog) == ParentDir(parent)
      decreases |parent| - index
    {
      var next := FindFirstSep(parent, index + 1);
      if next == -1 {
        // The section `substr(prog, next + 1 - prog)` is unused.
        break;
      }
      var sub := parent[prog..next + 1];
      index := next;
      if IsCurrentDir(sub) {
        continue;
      } else if IsParentDir(sub) {
        current := Up(current);
      } else {
        current := current + sub;
      }
      prog := prog + |sub|;
    }
  }

  /** The second loop of `deductLocation`: the relative path's segments applied to `base`. */
  method ApplyRelative(base: string, relative: string) returns (current: string)
    ensures current == Resolve(base, relative)
  {
    current := base;
    var index := -1;
    var prog: nat := 0;
    assert relative[0..] == relative;
    while true
      invariant -1 <= index < |relative| && prog == index + 1
      invariant RelRest(relative[prog..], current) == Resolve(base, relative)
      decreases |relative| - index
    {
      var next := FindFirstSep(relative, index + 1);
      SuffixSep(relative, index + 1);
      if next == -1 {
        // Without a further separator the count wraps to the rest of the
        // string (from position 0 it is 0); that section has no separator,
        // so it is appended, and the loop then ends.
        FindFirstSepSkips(relative, prog);
        current := current + relative[prog..];
        break;
      }
      var sub := relative[prog..next + 1];
      RelRestStep(relative, prog, next, current);
      index := next;
      prog := prog + |sub|;
      if IsCurrentDir(sub) {
        continue;
      } else if IsParentDir(sub) {
        current := Up(current);
      } else {
        current := current + sub;
      }
    }
  }

  // ---------------------------------------------------------------------
  // Properties.

  lemma {:induction false} FindFirstSepShift(a: string, r: string, i: nat)
    requires i <= |r|
    ensures FindFirstSep(a + r, |a| + i) == (if FindFirstSep(r, i) == -1 then -1 else |a| + FindFirstSep(r, i))
    decreases |r| - i
  {
    if i < |r| {
      assert (a + r)[|a| + i] == r[i];
      if !IsSep(r[i]) {
        FindFirstSepShift(a, r, i + 1);
      }
    }
  }

  /** Searching from `from` is searching the suffix that starts there. */
  lemma SuffixSep(s: string, from: nat)
    requires from <= |s|
    ensures FindFirstSep(s[from..], 0) == (if FindFirstSep(s, from) == -1 then -1 else FindFirstSep(s, from) - from)
  {
    FindFirstSepShift(s[..from], s[from..], 0);
    assert s[..from] + s[from..] == s;
  }

  /** The sections a loop step reads, as slices of the whole string. */
  lemma SectionStep(s: string, prog: nat, from: nat, next: nat)
    requires prog <= from <= next < |s|
    ensures s[from..][..next - from + 1] == s[from..next + 1]
    ensures s[prog..from] + s[from..next + 1] == s[prog..next + 1]
    ensures s[from..][next - from + 1..] == s[next + 1..]
    ensures s[prog..next + 1][..next + 1 - prog] == s[prog..next + 1]
  {
  }

  /** One pass of the parent loop, on the whole string's positions. */
  lemma ParentRestStep(s: string, prog: nat, from: nat, next: nat, current: string)
    requires prog <= from <= |s| && FindFirstSep(s, from) == next && next != -1
    ensures ParentRest(s[prog..from], s[from..], current) ==
      var sub := s[prog..next + 1];
      if IsCurrentDir(sub) then ParentRest(sub, s[next + 1..], current)
      else ParentRest(s[next + 1..next + 1], s[next + 1..], Apply(current, sub))
  {
    SuffixSep(s, from);
    SectionStep(s, prog, from, next);
    assert s[next + 1..next + 1] == "";
  }

  /** The loop on positions and the loop on the unread suffix agree. */
  lemma {:induction false} ParentLoopIsRest(p: string, current: string, from: nat, prog: nat)
    requires prog <= from <= |p|
    ensures ParentLoop(p, current, from, prog) == ParentRest(p[prog..from], p[from..], current)
    decreases |p| - from
  {
    var next := FindFirstSep(p, from);
    if next == -1 {
      SuffixSep(p, from);
      ParentRestEnd(p[prog..from], p[from..], current);
    } else {
      ParentRestStep(p, prog, from, next, current);
      var sub := p[prog..next + 1];
      if IsCurrentDir(sub) {
        ParentLoopIsRest(p, current, next + 1, prog);
      } else {
        ParentLoopIsRest(p, Apply(current, sub), next + 1, next + 1);
      }
    }
  }

  /** Without a further separator the parent loop ends. */
  lemma ParentRestEnd(pending: string, rest: string, current: string)
    requires FindFirstSep(rest, 0) == -1
    ensures ParentRest(pending, rest, current) == current
  {
  }

  /** One pass of the relative loop, on the whole string's positions. */
  lemma RelRestStep(s: string, from: nat, next: nat, current: string)
    requires from <= |s| && FindFirstSep(s, from) == next && next != -1
    ensures RelRest(s[from..], current) == RelRest(s[next + 1..], Apply(current, s[from..next + 1]))
  {
    SuffixSep(s, from);
    SectionStep(s, from, from, next);
  }

  lemma {:induction false} FindFirstSepPrefix(d: string, f: string, from: nat)
    requires from <= |d| && NoSep(f)
    ensures FindFirstSep(d + f, from) == FindFirstSep(d, from)
    decreases |d| - from
  {
    if from < |d| {
      assert (d + f)[from] == d[from];
      if !IsSep(d[from]) {
        FindFirstSepPrefix(d, f, from + 1);
      }
    } else {
      assert forall i :: from <= i < |d + f| ==> (d + f)[i] == f[i - from];
    }
  }

  /** A segment ending in the first separator of `seg + r`. */
  lemma SegmentSplit(seg: string, r: string)
    requires |seg| > 0 && IsSep(seg[|seg| - 1]) && NoSep(seg[..|seg| - 1])
    ensures FindFirstSep(seg + r, 0) == |seg| - 1
    ensures (seg + r)[..|seg|] == seg && (seg + r)[|seg|..] == r
  {
    FirstSepAfterName(seg + r, |seg| - 1, 0);
  }

  lemma {:induction false} FirstSepAfterName(s: string, k: nat, i: nat)
    requires i <= k < |s| && IsSep(s[k]) && forall j :: 0 <= j < k ==> !IsSep(s[j])
    ensures FindFirstSep(s, i) == k
    decreases k - i
  {
    if i < k {
      FirstSepAfterName(s, k, i + 1);
    }
  }

  lemma {:induction false} ParentRestIgnoresLast(pending: string, d: string, f: string, current: string)
    requires NoSep(f)
    ensures ParentRest(pending, d + f, current) == ParentRest(pending, d, current)
    decreases |d|
  {
    FindFirstSepPrefix(d, f, 0);
    var k := FindFirstSep(d, 0);
    if k != -1 {
      assert (d + f)[..k + 1] == d[..k + 1];
      assert (d + f)[k + 1..] == d[k + 1..] + f;
      var sub := pending + d[..k + 1];
      if IsCurrentDir(sub) {
        ParentRestIgnoresLast(sub, d[k + 1..], f, current);
      } else {
        ParentRestIgnoresLast("", d[k + 1..], f, Apply(current, sub));
      }
    }
  }

  /** The parent's final component, after its last separator, never reaches the result. */
  lemma ParentFileIgnored(d: string, f: string, relative: string)
    requires NoSep(f)
    ensures ParentDir(d + f) == ParentDir(d)
    ensures Deduct(d + f, relative) == Deduct(d, relative)
  {
    ParentRestIgnoresLast("", d, f, "");
  }

  /** Every segment of `p` is plain: none is "./" or "../". */
  predicate Plain(p: string)
    decreases |p|
  {
    var k := FindFirstSep(p, 0);
    k == -1 || (!IsCurrentDir(p[..k + 1]) && !IsParentDir(p[..k + 1]) && Plain(p[k + 1..]))
  }

  /** A directory part, which ends in a separator, with no separator is empty. */
  lemma NoSepThenEmpty(d: string)
    requires FindFirstSep(d, 0) == -1 && (d == [] || IsSep(d[|d| - 1]))
    ensures d == []
  {
    FindFirstSepSkips(d, 0);
  }

  /** The first plain segment of the parent is appended as it stands. */
  lemma ParentPlainStep(d: string, current: string)
    requires Plain(d) && FindFirstSep(d, 0) != -1
    ensures var k := FindFirstSep(d, 0);
      Plain(d[k + 1..]) && d == d[..k + 1] + d[k + 1..] &&
      ParentRest("", d, current) == ParentRest("", d[k + 1..], current + d[..k + 1])
  {
    var k := FindFirstSep(d, 0);
    assert "" + d[..k + 1] == d[..k + 1];
  }

  lemma {:induction false} ParentRestPlain(d: string, current: string)
    requires Plain(d) && (d == [] || IsSep(d[|d| - 1]))
    ensures ParentRest("", d, current) == current + d
    decreases |d|
  {
    var k := FindFirstSep(d, 0);
    if k == -1 {
      NoSepThenEmpty(d);
    } else {
      ParentPlainStep(d, current);
      var tail := d[k + 1..];
      assert tail == [] || tail[|tail| - 1] == d[|d| - 1];
      ParentRestPlain(tail, current + d[..k + 1]);
    }
  }

  /** A parent made of plain directory segments keeps its directory part unchanged. */
  lemma PlainParentKept(d: string, f: string)
    requires Plain(d) && (d == [] || IsSep(d[|d| - 1])) && NoSep(f)
    ensures ParentDir(d + f) == d
  {
    ParentFileIgnored(d, f, "");
    ParentRestPlain(d, "");
  }

  lemma {:induction false} RelRestFinal(d: string, f: string, current: string)
    requires (d == [] || IsSep(d[|d| - 1])) && NoSep(f)
    ensures RelRest(d + f, current) == RelRest(d, current) + f
    decreases |d|
  {
    FindFirstSepPrefix(d, f, 0);
    var k := FindFirstSep(d, 0);
    if k == -1 {
      FindFirstSepSkips(d, 0);
      assert d == [];
      assert d + f == f;
    } else {
      assert (d + f)[..k + 1] == d[..k + 1];
      assert (d + f)[k + 1..] == d[k + 1..] + f;
      RelRestFinal(d[k + 1..], f, Apply(current, d[..k + 1]));
    }
  }

  /**
   * The relative path's final component is appended once, at the very end:
   * resolving `d + f` is resolving the directory part `d`, then adding `f`.
   */
  lemma FinalComponentLast(base: string, d: string, f: string)
    requires (d == [] || IsSep(d[|d| - 1])) && NoSep(f)
    ensures Resolve(base, d + f) == Resolve(base, d) + f
    ensures d == [] ==> Resolve(base, f) == base + f
  {
    RelRestFinal(d, f, base);
    if d == [] {
      assert d + f == f;
      assert FindFirstSep([], 0) == -1;
    }
  }

  /** A leading segment of the relative path, applied to `base`, then the rest. */
  lemma LeadingSegment(base: string, seg: string, r: string)
    requires |seg| > 0 && IsSep(seg[|seg| - 1]) && NoSep(seg[..|seg| - 1])
    ensures IsCurrentDir(seg) ==> Resolve(base, seg + r) == Resolve(base, r)
    ensures IsParentDir(seg) ==> Resolve(base, seg + r) == Resolve(Up(base), r)
    ensures !IsCurrentDir(seg) && !IsParentDir(seg) ==> Resolve(base, seg + r) == Resolve(base + seg, r)
  {
    SegmentSplit(seg, r);
  }

  /** A leading segment of the parent, read together with the pending "./" sections. */
  lemma ParentSegment(pending: string, seg: string, r: string, current: string)
    requires |seg| > 0 && IsSep(seg[|seg| - 1]) && NoSep(seg[..|seg| - 1])
    ensures IsCurrentDir(pending + seg) ==> ParentRest(pending, seg + r, current) == ParentRest(pending + seg, r, current)
    ensures !IsCurrentDir(pending + seg) ==> ParentRest(pending, seg + r, current) == ParentRest("", r, Apply(current, pending + seg))
  {
    SegmentSplit(seg, r);
  }

  /** "./" and ".\" segments of the relative path are dropped. */
  lemma CurrentDirDropped(base: string, r: string)
    ensures Resolve(base, "./" + r) == Resolve(base, r)
    ensures Resolve(base, ".\\" + r) == Resolve(base, r)
  {
    LeadingSegment(base, "./", r);
    LeadingSegment(base, ".\\", r);
  }

  /** "../" and "..\" segments of the relative path go up one directory. */
  lemma ParentDirGoesUp(base: string, r: string)
    ensures Resolve(base, "../" + r) == Resolve(Up(base), r)
    ensures Resolve(base, "..\\" + r) == Resolve(Up(base), r)
  {
    LeadingSegment(base, "../", r);
    LeadingSegment(base, "..\\", r);
  }

  /**
   * Going up cuts `current` at the separator before its trailing one and
   * appends '/': the last directory name is removed.
   */
  lemma UpRemovesLastDirectory(d: string, s: char, name: string, t: char)
    requires IsSep(s) && IsSep(t) && |name| > 0 && NoSep(name)
    ensures Up(d + [s] + name + [t]) == d + "/"
  {
    var c := d + [s] + name + [t];
    assert c[|d|] == s;
    assert forall i :: |d| < i < |c| - 1 ==> c[i] == name[i - |d| - 1];
    assert LastSepBefore(c, |c| - 1) == |d|;
    assert c[..|d|] == d;
  }

  /**
   * With no earlier separator, `find_last_of` finds nothing and the whole of
   * `current` is kept, so going up from a single directory doubles the
   * separator instead of removing the directory.
   */
  lemma UpFromSingleDirectory(name: string, t: char)
    requires IsSep(t) && |name| > 0 && NoSep(name)
    ensures Up(name + [t]) == name + [t] + "/"
  {
    var c := name + [t];
    assert forall i :: 0 <= i < |c| - 1 ==> c[i] == name[i];
    assert LastSepBefore(c, |c| - 1) == -1;
  }

  /** A ':' anywhere in the relative path marks it as absolute: it is returned unchanged. */
  lemma AbsoluteRelativeKept(parent: string, relative: string)
    requires ':' in relative
    ensures Deduct(parent, relative) == relative
  {
  }

  /**
   * A "./" segment of the parent is not removed: it does not advance the
   * start of the next section, so it is copied together with the segment
   * that follows it.
   */
  lemma ParentCurrentDirMerged(a: string, b: string, f: string)
    requires NoSep(a) && a != "." && a != ".." && NoSep(b) && |b| > 0 && NoSep(f)
    ensures ParentDir(a + "/./" + b + "/" + f) == a + "/./" + b + "/"
  {
    calc {
      ParentDir(a + "/./" + b + "/" + f);
      { ParentFileIgnored(a + "/./" + b + "/", f, ""); }
      ParentDir(a + "/./" + b + "/");
      { assert a + "/./" + b + "/" == a + "/" + ("./" + (b + "/")); }
      ParentDir(a + "/" + ("./" + (b + "/")));
      { MergedDirectory(a, b); }
      a + "/" + "./" + b + "/";
      { assert a + "/" + "./" + b + "/" == a + "/./" + b + "/"; }
      a + "/./" + b + "/";
    }
  }

  /** The parent loop on "a/./b/": three sections, the last two merged. */
  lemma MergedDirectory(a: string, b: string)
    requires NoSep(a) && a != "." && a != ".." && NoSep(b) && |b| > 0
    ensures ParentDir(a + "/" + ("./" + (b + "/"))) == a + "/" + "./" + b + "/"
  {
    calc {
      ParentDir(a + "/" + ("./" + (b + "/")));
      { PlainNameFirst(a, "./" + (b + "/")); }
      ParentRest("", "./" + (b + "/"), a + "/");
      { DotSectionPending(b + "/", a + "/"); }
      ParentRest("./", b + "/", a + "/");
      { PendingDotMerged(b, a + "/"); }
      a + "/" + "./" + b + "/";
    }
  }

  /** A first segment "a/", with `a` neither "." nor "..", is copied to the directory. */
  lemma PlainNameFirst(a: string, r: string)
    requires NoSep(a) && a != "." && a != ".."
    ensures ParentRest("", a + "/" + r, "") == ParentRest("", r, a + "/")
  {
    var sa := a + "/";
    assert sa[..|sa| - 1] == a;
    assert a + "/" + r == sa + r;
    ParentSegment("", sa, r, "");
    assert "" + sa == sa;
    if |a| == 1 {
      assert a == [a[0]];
    } else if |a| == 2 {
      assert a == [a[0], a[1]];
    }
    assert !IsCurrentDir(sa) && !IsParentDir(sa);
  }

  /** A "./" segment of the parent stays pending. */
  lemma DotSectionPending(r: string, current: string)
    ensures ParentRest("", "./" + r, current) == ParentRest("./", r, current)
  {
    ParentSegment("", "./", r, current);
    assert "" + "./" == "./";
  }

  /** The pending "./" is copied together with the segment that follows it. */
  lemma PendingDotMerged(b: string, current: string)
    requires NoSep(b) && |b| > 0
    ensures ParentRest("./", b + "/", current) == current + "./" + b + "/"
  {
    var sb := b + "/";
    assert sb[..|sb| - 1] == b;
    assert sb + "" == sb;
    ParentSegment("./", sb, "", current);
    assert FindFirstSep("", 0) == -1;
    assert current + ("./" + sb) == current + "./" + b + "/";
  }

  /** The parent's "./" section then reaches the resolved location. */
  lemma ParentCurrentDirKept(a: string, b: string, f: string, c: string)
    requires NoSep(a) && a != "." && a != ".." && NoSep(b) && |b| > 0 && NoSep(f)
    requires NoSep(c) && ':' !in c
    ensures Deduct(a + "/./" + b + "/" + f, c) == a + "/./" + b + "/" + c
  {
    var d := a + "/./" + b + "/";
    calc {
      Deduct(d + f, c);
      { ParentCurrentDirMerged(a, b, f); }
      Resolve(d, c);
      { FinalComponentLast(d, [], c); }
      d + c;
    }
  }

  /** In the relative path the same "./" segment is dropped. */
  lemma RelativeCurrentDirDropped(d: string, f: string, b: string, c: string)
    requires Plain(d) && (d == [] || IsSep(d[|d| - 1])) && NoSep(f)
    requires NoSep(b) && b != "." && b != ".." && NoSep(c) && ':' !in b && ':' !in c
    ensures Deduct(d + f, "./" + b + "/./" + c) == d + b + "/" + c
  {
    var r := "./" + b + "/./" + c;
    assert ':' !in r;
    PlainParentKept(d, f);
    DotsDroppedAroundName(d, b, c);
  }

  /** "./" segments on both sides of a plain name are dropped. */
  lemma DotsDroppedAroundName(d: string, b: string, c: string)
    requires NoSep(b) && b != "." && b != ".." && NoSep(c)
    ensures Resolve(d, "./" + b + "/./" + c) == d + b + "/" + c
  {
    var sb := b + "/";
    calc {
      Resolve(d, "./" + b + "/./" + c);
      { assert "./" + b + "/./" + c == "./" + (sb + ("./" + c)); }
      Resolve(d, "./" + (sb + ("./" + c)));
      { CurrentDirDropped(d, sb + ("./" + c)); }
      Resolve(d, sb + ("./" + c));
      { PlainNameSegment(d, b, "./" + c); }
      Resolve(d + sb, "./" + c);
      { CurrentDirDropped(d + sb, c); }
      Resolve(d + sb, c);
      { FinalComponentLast(d + sb, [], c); }
      d + sb + c;
      { assert d + sb + c == d + b + "/" + c; }
      d + b + "/" + c;
    }
  }

  /** A relative segment "b/", with `b` neither "." nor "..", is appended. */
  lemma PlainNameSegment(base: string, b: string, r: string)
    requires NoSep(b) && b != "." && b != ".."
    ensures Resolve(base, b + "/" + r) == Resolve(base + (b + "/"), r)
  {
    var sb := b + "/";
    assert sb[..|sb| - 1] == b;
    LeadingSegment(base, sb, r);
    if |b| == 1 {
      assert b == [b[0]];
    } else if |b| == 2 {
      assert b == [b[0], b[1]];
    }
    assert !IsCurrentDir(sb) && !IsParentDir(sb);
  }
}
