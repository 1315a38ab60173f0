/**
 * Small pieces both finders share: the outcome of the size `CHECK`s at the
 * top of a finder, `std::vector<int>::resize` and `std::iota`.
 */
module Common {

  /** Whether the `CHECK`s at the top of a finder held. */
  datatype Status = Ok | CheckFailed

  /** `std::vector<int>::resize(m)`: keep the first m entries, pad with zeros. */
  function Resize(s: seq<int>, m: nat): (r: seq<int>)
    ensures |r| == m
    ensures forall p :: 0 <= p < m ==> r[p] == if p < |s| then s[p] else 0
  {
    if m <= |s| then s[..m] else s + seq(m - |s|, _ => 0)
  }

  /** `std::iota`: 0, 1, ..., n - 1. */
  function Iota(n: nat): (r: seq<int>)
    ensures |r| == n && forall p :: 0 <= p < n ==> r[p] == p
  {
    seq(n, p => p)
  }

  /** `iota` lists each of 0 .. n - 1 exactly once and nothing else. */
  lemma {:induction false} IotaCount(n: nat, v: int)
    ensures multiset(Iota(n))[v] == if 0 <= v < n then 1 else 0
  {
    if n > 0 {
      IotaCount(n - 1, v);
      assert Iota(n) == Iota(n - 1) + [n - 1];
    }
  }
}
