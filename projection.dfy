/**
 * The coordinate projector: every point is reduced to the sum of its
 * coordinates, the points are ordered by that sum (`sort_indexes`), and the
 * order is inverted, so that `sort_sum[r]` is a point and `sort_inv_sum` maps
 * it back to r.
 */
module Projection {
  import opened Geometry
  import opened Common

  /** `perm` holds each of 0 .. n - 1 exactly once. */
  ghost predicate IsPermutation(perm: seq<int>, n: nat) {
    |perm| == n && multiset(perm) == multiset(Iota(n))
  }

  /** A permutation of 0 .. n - 1 is in range, injective and onto. */
  lemma PermutationFacts(perm: seq<int>, n: nat)
    requires IsPermutation(perm, n)
    ensures forall r :: 0 <= r < n ==> 0 <= perm[r] < n
    ensures forall r, s :: 0 <= r < s < n ==> perm[r] != perm[s]
    ensures forall v :: 0 <= v < n ==> v in perm
  {
    forall r | 0 <= r < n ensures 0 <= perm[r] < n {
      assert perm[r] in multiset(perm);
      IotaCount(n, perm[r]);
    }
    forall r, s | 0 <= r < s < n ensures perm[r] != perm[s] {
      if perm[r] == perm[s] {
        var v := perm[r];
        assert perm == perm[..s] + perm[s..];
        assert v in perm[..s] && v in perm[s..];
        assert multiset(perm)[v] == multiset(perm[..s])[v] + multiset(perm[s..])[v];
        IotaCount(n, v);
        assert false;
      }
    }
    forall v | 0 <= v < n ensures v in perm {
      IotaCount(n, v);
      assert v in multiset(perm);
    }
  }

  /** The coordinate sums of lines 93-97. */
  method CoordinateSums(coords: seq<seq<real>>) returns (sums: seq<real>)
    ensures |sums| == |coords|
    ensures forall i :: 0 <= i < |coords| ==> sums[i] == Sum(coords[i])
  {
    var a := new real[|coords|];
    for i := 0 to |coords|
      invariant forall r :: 0 <= r < i ==> a[r] == Sum(coords[r])
    {
      a[i] := Sum(coords[i]);
    }
    sums := a[..];
  }

  /**
   * `sort_indexes(v, idx)`: a permutation of 0 .. |v| - 1 along which v is
   * non-decreasing. The algorithm of `std::sort` is not modelled: an insertion
   * sort by key stands in for it, and no order among equal keys is promised.
   */
  method SortIndexes(v: seq<real>) returns (idx: seq<int>)
    ensures IsPermutation(idx, |v|)
    ensures forall r :: 0 <= r < |v| ==> 0 <= idx[r] < |v|
    ensures forall r, s :: 0 <= r < s < |v| ==> v[idx[r]] <= v[idx[s]]
  {
    var n := |v|;
    var a := new int[n](p => p);
    assert a[..] == Iota(n);
    var j := 1;
    while j < n
      invariant 1 <= j <= n || n == 0
      invariant forall p :: 0 <= p < n ==> 0 <= a[p] < n
      invariant multiset(a[..]) == multiset(Iota(n))
      invariant forall p, q :: 0 <= p < q < j && q < n ==> v[a[p]] <= v[a[q]]
    {
      SiftDown(v, a, j);
      j := j + 1;
    }
    idx := a[..];
  }

  method Swap(a: array<int>, i: nat, j: nat)
    requires i < j < a.Length
    modifies a
    ensures a[i] == old(a[j]) && a[j] == old(a[i])
    ensures forall p :: 0 <= p < a.Length && p != i && p != j ==> a[p] == old(a[p])
    ensures multiset(a[..]) == old(multiset(a[..]))
  {
    a[i], a[j] := a[j], a[i];
  }

  /** One insertion step of the stand-in sort: a[j] moves left into the sorted a[0..j). */
  method SiftDown(v: seq<real>, a: array<int>, j: nat)
    requires j < a.Length == |v|
    requires forall p :: 0 <= p < a.Length ==> 0 <= a[p] < |v|
    requires forall p, q :: 0 <= p < q < j ==> v[a[p]] <= v[a[q]]
    modifies a
    ensures forall p :: 0 <= p < a.Length ==> 0 <= a[p] < |v|
    ensures multiset(a[..]) == old(multiset(a[..]))
    ensures forall p, q :: 0 <= p < q <= j ==> v[a[p]] <= v[a[q]]
  {
    var k := j;
    while k > 0 && v[a[k]] < v[a[k - 1]]
      invariant 0 <= k <= j
      invariant forall p :: 0 <= p < a.Length ==> 0 <= a[p] < |v|
      invariant multiset(a[..]) == old(multiset(a[..]))
      invariant forall p, q :: 0 <= p < q <= j && p != k && q != k ==> v[a[p]] <= v[a[q]]
      invariant forall q :: k < q <= j ==> v[a[k]] < v[a[q]]
    {
      Swap(a, k - 1, k);
      k := k - 1;
    }
  }

  /**
   * Lines 100-104: `sort_inv_sum[sort_sum[r]] = r` for every r, which makes
   * the result the inverse permutation.
   */
  method InvertPermutation(perm: seq<int>) returns (inv: seq<int>)
    requires IsPermutation(perm, |perm|)
    ensures |inv| == |perm|
    ensures forall r :: 0 <= r < |perm| ==> 0 <= perm[r] < |perm| && inv[perm[r]] == r
    ensures forall p :: 0 <= p < |perm| ==> 0 <= inv[p] < |perm| && perm[inv[p]] == p
  {
    var n := |perm|;
    PermutationFacts(perm, n);
    var a := new int[n];
    for i := 0 to n
      invariant forall r :: 0 <= r < i ==> a[perm[r]] == r
    {
      a[perm[i]] := i;
    }
    inv := a[..];
    forall p | 0 <= p < n ensures 0 <= inv[p] < n && perm[inv[p]] == p {
      assert p in perm;
      var r :| 0 <= r < n && perm[r] == p;
      assert inv[p] == r;
    }
  }
}
