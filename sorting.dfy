// The comparison sorts the map generators apply to their lists: regions by
// size, regions by distance from one region, spawn candidates by depth and
// the path search's open list by score. Every one of them orders by a single
// numeric key, so the model sorts the positions of a list by a sequence of
// keys and then reads the list through the resulting permutation.
//
// The JavaScript `Array.prototype.sort` is stable, so its result is the
// stable order. `std::sort` leaves the order of equal keys unspecified; the
// stable order is one of the orders it may produce.

module Sorting {

  /** perm lists every position below n exactly once. */
  predicate IsPermutation(perm: seq<nat>, n: nat)
  {
    |perm| == n &&
    (forall k :: 0 <= k < n ==> perm[k] < n) &&
    (forall k, l :: 0 <= k < l < n ==> perm[k] != perm[l])
  }

  /** Every entry of perm is a position of keys. */
  predicate Indexes(perm: seq<nat>, n: nat)
  {
    forall k :: 0 <= k < |perm| ==> perm[k] < n
  }

  /** Read along perm, the keys never increase. */
  predicate Descending(keys: seq<real>, perm: seq<nat>)
  {
    Indexes(perm, |keys|) &&
    forall k, l :: 0 <= k < l < |perm| ==> keys[perm[k]] >= keys[perm[l]]
  }

  /** Read along perm, the keys never increase and equal keys keep their original order. */
  predicate StablyDescending(keys: seq<real>, perm: seq<nat>)
  {
    Indexes(perm, |keys|) &&
    forall k, l {:trigger keys[perm[k]], keys[perm[l]]} :: 0 <= k < l < |perm| ==>
      keys[perm[k]] > keys[perm[l]] || (keys[perm[k]] == keys[perm[l]] && perm[k] < perm[l])
  }

  /** The list s read through perm. */
  function Permute<T>(s: seq<T>, perm: seq<nat>): (r: seq<T>)
    requires Indexes(perm, |s|)
    ensures |r| == |perm| && forall k :: 0 <= k < |perm| ==> r[k] == s[perm[k]]
  {
    seq(|perm|, k requires 0 <= k < |perm| => s[perm[k]])
  }

  /** Negated keys: an ascending order by keys is a descending order by these. */
  function Negated(keys: seq<real>): (r: seq<real>)
    ensures |r| == |keys| && forall k :: 0 <= k < |keys| ==> r[k] == -keys[k]
  {
    seq(|keys|, k requires 0 <= k < |keys| => -keys[k])
  }

  /**
   * An insertion sort of the positions 0 .. |keys| - 1 by decreasing key.
   * Each new position goes after every position whose key is not smaller,
   * which keeps equal keys in their original order.
   */
  method SortDescending(keys: seq<real>) returns (perm: seq<nat>)
    ensures IsPermutation(perm, |keys|)
    ensures StablyDescending(keys, perm)
  {
    perm := [];
    var i := 0;
    while i < |keys|
      invariant 0 <= i <= |keys|
      invariant IsPermutation(perm, i)
      invariant StablyDescending(keys, perm)
    {
      var j := i;
      while j > 0 && keys[perm[j - 1]] < keys[i]
        invariant 0 <= j <= i
        invariant forall k :: j <= k < i ==> keys[perm[k]] < keys[i]
      {
        j := j - 1;
      }
      InsertKeepsOrder(keys, perm, i, j);
      perm := perm[..j] + [i] + perm[j..];
      i := i + 1;
    }
  }

  /** Putting position i at slot j, where the keys before j are at least keys[i] and the ones after are smaller, keeps the order stable. */
  lemma InsertKeepsOrder(keys: seq<real>, perm: seq<nat>, i: nat, j: nat)
    requires i < |keys| && j <= i
    requires IsPermutation(perm, i) && StablyDescending(keys, perm)
    requires forall k :: j <= k < i ==> keys[perm[k]] < keys[i]
    requires j == 0 || keys[perm[j - 1]] >= keys[i]
    ensures IsPermutation(perm[..j] + [i] + perm[j..], i + 1)
    ensures StablyDescending(keys, perm[..j] + [i] + perm[j..])
  {
    InsertIsPermutation(perm, i, j);
    InsertStaysStable(keys, perm, i, j);
  }

  /** Inserting the next position i anywhere into a permutation of the positions below i gives one of those below i + 1. */
  lemma InsertIsPermutation(perm: seq<nat>, i: nat, j: nat)
    requires j <= i && IsPermutation(perm, i)
    ensures IsPermutation(perm[..j] + [i] + perm[j..], i + 1)
  {
    var r := perm[..j] + [i] + perm[j..];
    assert forall k :: 0 <= k < j ==> r[k] == perm[k];
    assert forall k :: j < k <= i ==> r[k] == perm[k - 1];
  }

  /** The order half of `InsertKeepsOrder`. */
  lemma InsertStaysStable(keys: seq<real>, perm: seq<nat>, i: nat, j: nat)
    requires i < |keys| && j <= i
    requires IsPermutation(perm, i) && StablyDescending(keys, perm)
    requires forall k :: j <= k < i ==> keys[perm[k]] < keys[i]
    requires j == 0 || keys[perm[j - 1]] >= keys[i]
    ensures StablyDescending(keys, perm[..j] + [i] + perm[j..])
  {
    var r := perm[..j] + [i] + perm[j..];
    assert forall k :: 0 <= k < j ==> r[k] == perm[k];
    assert r[j] == i;
    assert forall k :: j < k <= i ==> r[k] == perm[k - 1];
    forall k | 0 <= k < j
      ensures keys[perm[k]] >= keys[i]
    {
      if k < j - 1 {
        assert keys[perm[k]] >= keys[perm[j - 1]];
      }
    }
  }

  /**
   * The stable descending order is unique: two such orders of all
   * positions agree, so a stable sort has exactly one possible result.
   */
  lemma StableUnique(keys: seq<real>, p: seq<nat>, q: seq<nat>)
    requires IsPermutation(p, |keys|) && IsPermutation(q, |keys|)
    requires StablyDescending(keys, p) && StablyDescending(keys, q)
    ensures p == q
  {
    AllSeen(p, |keys|);
    AllSeen(q, |keys|);
    var k := 0;
    while k < |keys|
      invariant 0 <= k <= |keys| && p[..k] == q[..k]
    {
      StableAgreeAt(keys, p, q, k);
      assert p[..k + 1] == p[..k] + [p[k]] && q[..k + 1] == q[..k] + [q[k]];
      k := k + 1;
    }
    assert p == p[..k] && q == q[..k];
  }

  /** Two stable orders agreeing before position k agree at k. */
  lemma StableAgreeAt(keys: seq<real>, p: seq<nat>, q: seq<nat>, k: nat)
    requires IsPermutation(p, |keys|) && IsPermutation(q, |keys|)
    requires StablyDescending(keys, p) && StablyDescending(keys, q)
    requires forall v: nat :: v < |keys| ==> v in Image(p) && v in Image(q)
    requires k < |keys| && p[..k] == q[..k]
    ensures p[k] == q[k]
  {
    var x, y := p[k], q[k];
    assert y in Image(p) && x in Image(q);
    var l :| 0 <= l < |p| && p[l] == y;
    var l' :| 0 <= l' < |q| && q[l'] == x;
    // y comes after the agreed prefix in p, and x after it in q.
    assert forall i :: 0 <= i < k ==> p[i] == q[i] != y by {
      forall i | 0 <= i < k
        ensures p[i] == q[i]
      {
        assert p[i] == p[..k][i];
      }
    }
    assert forall i :: 0 <= i < k ==> q[i] == p[i] != x by {
      forall i | 0 <= i < k
        ensures q[i] == p[i]
      {
        assert q[i] == q[..k][i];
      }
    }
    // Were x and y different, each order would put its own entry at k
    // strictly before the other's.
    assert keys[p[l]] == keys[y] && keys[q[l']] == keys[x];
  }

  /** A stable order is in particular a non-increasing one. */
  lemma StableIsDescending(keys: seq<real>, perm: seq<nat>)
    requires StablyDescending(keys, perm)
    ensures Descending(keys, perm)
  {
  }

  /** The front of a stable descending order has the greatest key, and is the earliest position with that key. */
  lemma HeadLeads(keys: seq<real>, perm: seq<nat>, k: nat)
    requires IsPermutation(perm, |keys|) && StablyDescending(keys, perm) && k < |keys|
    ensures keys[perm[0]] > keys[k] || (keys[perm[0]] == keys[k] && perm[0] <= k)
  {
    AllSeen(perm, |keys|);
    assert k in Image(perm);
    var l :| 0 <= l < |perm| && perm[l] == k;
  }

  /** Reading a permuted list: the entries are those of the list, each position once. */
  lemma PermuteIsPermutation<T>(s: seq<T>, perm: seq<nat>, k: nat)
    requires IsPermutation(perm, |s|) && k < |s|
    ensures exists l :: 0 <= l < |s| && Permute(s, perm)[l] == s[k]
  {
    AllSeen(perm, |s|);
    assert k in Image(perm);
    var l :| 0 <= l < |s| && perm[l] == k;
    assert Permute(s, perm)[l] == s[k];
  }

  /** Reading a list through a permutation keeps exactly its entries. */
  lemma PermuteMembers<T>(s: seq<T>, perm: seq<nat>)
    requires IsPermutation(perm, |s|)
    ensures forall x :: x in Permute(s, perm) <==> x in s
  {
    var r := Permute(s, perm);
    forall x | x in s
      ensures x in r
    {
      var k :| 0 <= k < |s| && s[k] == x;
      PermuteIsPermutation(s, perm, k);
    }
  }

  /** Reading a list without repeats through a permutation gives a list without repeats. */
  lemma PermuteDistinct<T>(s: seq<T>, perm: seq<nat>)
    requires IsPermutation(perm, |s|) && forall i, j :: 0 <= i < j < |s| ==> s[i] != s[j]
    ensures forall i, j :: 0 <= i < j < |perm| ==> Permute(s, perm)[i] != Permute(s, perm)[j]
  {
    var r := Permute(s, perm);
    forall i, j | 0 <= i < j < |perm|
      ensures r[i] != r[j]
    {
      assert r[i] == s[perm[i]] && r[j] == s[perm[j]];
      assert perm[i] != perm[j];
    }
  }

  /** The entries of s, as a set. */
  function Image<T>(s: seq<T>): set<T>
  {
    set l | 0 <= l < |s| :: s[l]
  }

  /** n distinct positions below n cover every position below n. */
  lemma AllSeen(perm: seq<nat>, n: nat)
    requires IsPermutation(perm, n)
    ensures forall k: nat :: k < n ==> k in Image(perm)
  {
    BelowSize(n);
    assert Image(perm) <= Below(n);
    DistinctImageSize(perm);
    SubsetSameSize(Image(perm), Below(n));
  }

  /** The positions 0 .. n - 1. */
  function Below(n: nat): (r: set<nat>)
    ensures forall k: nat :: k in r <==> k < n
  {
    if n == 0 then {} else Below(n - 1) + {n - 1}
  }

  lemma BelowSize(n: nat)
    ensures |Below(n)| == n
  {
    if n > 0 {
      BelowSize(n - 1);
      assert n - 1 !in Below(n - 1);
    }
  }

  /** A list without repeats has as many different entries as positions. */
  lemma DistinctImageSize<T>(s: seq<T>)
    requires forall k, l :: 0 <= k < l < |s| ==> s[k] != s[l]
    ensures |Image(s)| == |s|
  {
    if |s| > 0 {
      var front := s[..|s| - 1];
      DistinctImageSize(front);
      var a := Image(s);
      var b := Image(front);
      assert a == b + {s[|s| - 1]} by {
        forall v | v in a
          ensures v in b + {s[|s| - 1]}
        {
          var l :| 0 <= l < |s| && s[l] == v;
          if l < |s| - 1 {
            assert front[l] == v;
          }
        }
      }
      assert s[|s| - 1] !in b;
    }
  }

  /** A list has at most as many different entries as positions. */
  lemma ImageBound<T>(s: seq<T>)
    ensures |Image(s)| <= |s|
  {
    if |s| > 0 {
      var front := s[..|s| - 1];
      ImageBound(front);
      assert Image(s) <= Image(front) + {s[|s| - 1]} by {
        forall v | v in Image(s)
          ensures v in Image(front) + {s[|s| - 1]}
        {
          var l :| 0 <= l < |s| && s[l] == v;
          if l < |s| - 1 {
            assert front[l] == v;
          }
        }
      }
      SubsetSize(Image(s), Image(front) + {s[|s| - 1]});
    }
  }

  lemma SubsetSize<T>(a: set<T>, b: set<T>)
    requires a <= b
    ensures |a| <= |b|
  {
    if a != {} {
      var x :| x in a;
      SubsetSize(a - {x}, b - {x});
    }
  }

  lemma SubsetSameSize<T>(a: set<T>, b: set<T>)
    requires a <= b && |a| == |b|
    ensures a == b
  {
    if a != b {
      assert exists x :: x in b && x !in a;
      var x :| x in b && x !in a;
      SubsetSize(a, b - {x});
    }
  }
}
