/**
 * The matrix of distances among a point's neighbours (`dist_between_neighbors`):
 * zero on the diagonal, the distance of every pair above it, and the lower
 * triangle copied from the upper one.
 */
module NeighborDistances {
  import opened Geometry

  /** Every neighbour index names a row of `coords`. */
  predicate InRange(coords: seq<seq<real>>, nbrs: seq<int>) {
    forall p :: 0 <= p < |nbrs| ==> 0 <= nbrs[p] < |coords|
  }

  /** The reference matrix: entry (a, b) is the distance between neighbours a and b. */
  ghost function Pairwise(coords: seq<seq<real>>, dim: nat, nbrs: seq<int>): seq<seq<Dist>>
    requires Rows(coords, dim) && InRange(coords, nbrs)
  {
    seq(|nbrs|, a requires 0 <= a < |nbrs| =>
      seq(|nbrs|, b requires 0 <= b < |nbrs| => Norm(coords[nbrs[a]], coords[nbrs[b]])))
  }

  /** The reference matrix is square and symmetric with a zero diagonal and non-negative entries. */
  lemma PairwiseFacts(coords: seq<seq<real>>, dim: nat, nbrs: seq<int>)
    requires Rows(coords, dim) && InRange(coords, nbrs)
    ensures var mat := Pairwise(coords, dim, nbrs);
      |mat| == |nbrs| &&
      (forall a :: 0 <= a < |nbrs| ==> |mat[a]| == |nbrs| && mat[a][a] == Root(0.0)) &&
      (forall a, b :: 0 <= a < |nbrs| && 0 <= b < |nbrs| ==> mat[a][b] == mat[b][a] && mat[a][b].sq >= 0.0)
  {
    var mat := Pairwise(coords, dim, nbrs);
    forall a | 0 <= a < |nbrs| ensures mat[a][a] == Root(0.0) {
      NormFacts(coords[nbrs[a]], coords[nbrs[a]]);
    }
    forall a, b | 0 <= a < |nbrs| && 0 <= b < |nbrs| ensures mat[a][b] == mat[b][a] && mat[a][b].sq >= 0.0 {
      NormFacts(coords[nbrs[a]], coords[nbrs[b]]);
    }
  }

  /** Lines 203-208: the diagonal and the strict upper triangle of the matrix. */
  method FillUpper(coords: seq<seq<real>>, dim: nat, nbrs: seq<int>, d: array2<Dist>)
    requires Rows(coords, dim) && InRange(coords, nbrs)
    requires d.Length0 == d.Length1 == |nbrs|
    modifies d
    ensures forall a, b :: 0 <= a <= b < |nbrs| ==> d[a, b] == Norm(coords[nbrs[a]], coords[nbrs[b]])
  {
    var nn := |nbrs|;
    for j := 0 to nn
      invariant forall a, b :: 0 <= a < j && a <= b < nn ==> d[a, b] == Norm(coords[nbrs[a]], coords[nbrs[b]])
    {
      d[j, j] := Root(0.0);
      NormFacts(coords[nbrs[j]], coords[nbrs[j]]);
      for l := j + 1 to nn
        invariant d[j, j] == Norm(coords[nbrs[j]], coords[nbrs[j]])
        invariant forall b :: j < b < l ==> d[j, b] == Norm(coords[nbrs[j]], coords[nbrs[b]])
        invariant forall a, b :: 0 <= a < j && a <= b < nn ==> d[a, b] == Norm(coords[nbrs[a]], coords[nbrs[b]])
      {
        d[j, l] := Norm(coords[nbrs[j]], coords[nbrs[l]]);
      }
    }
  }

  /** Line 209: the strict lower triangle becomes the transpose of the strict upper one. */
  method MirrorUpper(d: array2<Dist>)
    requires d.Length0 == d.Length1
    modifies d
    ensures forall a, b :: 0 <= a < d.Length0 && 0 <= b < d.Length1 ==>
      d[a, b] == if a <= b then old(d[a, b]) else old(d[b, a])
  {
    var nn := d.Length0;
    for a := 0 to nn
      invariant forall a', b :: 0 <= a' < nn && 0 <= b < nn ==>
        d[a', b] == if a' <= b || a' >= a then old(d[a', b]) else old(d[b, a'])
    {
      for b := 0 to a
        invariant forall a', b' :: 0 <= a' < nn && 0 <= b' < nn ==>
          d[a', b'] == if a' <= b' || a' > a || (a' == a && b' >= b) then old(d[a', b']) else old(d[b', a'])
      {
        d[a, b] := d[b, a];
      }
    }
  }

  /**
   * Lines 201-209 for one point: the matrix is sized to the neighbour count,
   * its upper triangle with the diagonal is filled, and then mirrored.
   */
  method DistanceMatrix(coords: seq<seq<real>>, dim: nat, nbrs: seq<int>) returns (mat: seq<seq<Dist>>)
    requires Rows(coords, dim) && InRange(coords, nbrs)
    ensures mat == Pairwise(coords, dim, nbrs)
  {
    var nn := |nbrs|;
    var d := new Dist[nn, nn];
    FillUpper(coords, dim, nbrs, d);
    MirrorUpper(d);
    forall a, b | 0 <= a < nn && 0 <= b < nn ensures d[a, b] == Norm(coords[nbrs[a]], coords[nbrs[b]]) {
      NormFacts(coords[nbrs[a]], coords[nbrs[b]]);
    }
    mat := seq(nn, a requires 0 <= a < nn reads d => seq(nn, b requires 0 <= b < nn reads d => d[a, b]));
    ghost var ref := Pairwise(coords, dim, nbrs);
    forall a | 0 <= a < nn ensures mat[a] == ref[a] {
      assert forall b :: 0 <= b < nn ==> mat[a][b] == ref[a][b];
    }
  }
}
