/**
 * The search for one point of `find_nearest_neighbors_Veccia_fast` as it is
 * evidently meant to run: the cursors start at i's rank `sort_inv_sum[i]`,
 * and the candidate at position p is the point of rank p, `sort_sum[p]`.
 * This is the loop of lines 133-186 with the two orders exchanged, so the
 * walk follows the coordinate sums in order. Then, by Cauchy-Schwarz, the
 * pruning test drops only points no nearer than the buffer's last slot, and
 * the result is an exact k-nearest list.
 */
module RankSearch {
  import opened SortedBuffer
  import opened Geometry
  import opened FastSearch

  /** The sums are the coordinate sums, and the walk reads the points in ascending order of sum. */
  ghost predicate InSumOrder(qy: Query, sums: seq<real>)
    requires Wf(qy) && |sums| == |qy.coords|
  {
    (forall j :: 0 <= j < |qy.coords| ==> sums[j] == Sum(qy.coords[j])) &&
    (forall p, q :: 0 <= p < q < |qy.coords| ==> sums[qy.sortInv[p]] <= sums[qy.sortInv[q]])
  }

  /** Candidate c cannot improve the buffer: it is held, or it is no nearer than a finite last slot. */
  ghost predicate Beaten(qy: Query, s: seq<Entry>, c: int)
    requires Wf(qy) && 0 <= c < |qy.coords| && |s| == qy.k
  {
    Cand(qy, c) in s ||
    (s[qy.k - 1].key.Fin? && SqDist(qy.coords[c], qy.coords[qy.i]) >= s[qy.k - 1].key.v)
  }

  /**
   * The walk in sum order, from buffer s and a cursor state: every eligible
   * point at a visited position is beaten, and a direction stopped before
   * its end was stopped by a gap that still prunes against the last slot.
   */
  ghost predicate BeatInv(qy: Query, sums: seq<real>, s: seq<Entry>, m: nat,
                          downI: int, upI: int, down: bool, up: bool)
  {
    Wf(qy) && |sums| == |qy.coords| && InSumOrder(qy, sums) &&
    |s| == qy.k && Sorted(s) && Filled(s, m) &&
    0 <= downI <= qy.Pos() <= upI < |qy.coords| &&
    (forall c :: 0 <= c < |qy.coords| && Eligible(qy, c) && downI <= qy.sortSum[c] <= upI ==> Beaten(qy, s, c)) &&
    (!down && downI > 0 ==> Prunes(Gap(sums, qy.sortInv[downI], qy.i), qy.dim, s[qy.k - 1].key)) &&
    (!up && upI < |qy.coords| - 1 ==> Prunes(Gap(sums, qy.sortInv[upI], qy.i), qy.dim, s[qy.k - 1].key))
  }

  lemma SquareMono(a: real, b: real)
    requires 0.0 <= a <= b
    ensures a * a <= b * b
  {
    assert b * b - a * a == (b - a) * (b + a);
  }

  lemma ScaleCancel(a: real, b: real, c: real)
    requires a > 0.0 && a * b > a * c
    ensures b > c
  {
  }

  /**
   * Walking in sum order, a point c lying beyond position d as seen from
   * i's position has a sum at least as far from i's as the point at d.
   */
  lemma GapBeyond(qy: Query, sums: seq<real>, c: int, d: int)
    requires Wf(qy) && |sums| == |qy.coords| && InSumOrder(qy, sums)
    requires 0 <= c < |qy.coords| && 0 <= d < |qy.coords|
    requires qy.sortSum[c] <= d <= qy.Pos() || qy.Pos() <= d <= qy.sortSum[c]
    ensures Gap(sums, qy.sortInv[d], qy.i) <= Gap(sums, c, qy.i)
  {
    var i, e := qy.i, qy.sortInv[d];
    var pc := qy.sortSum[c];
    assert qy.sortInv[pc] == c && qy.sortInv[qy.Pos()] == i;
    if pc <= d <= qy.Pos() {
      assert sums[c] <= sums[e] <= sums[i] by {
        if pc < d { assert sums[qy.sortInv[pc]] <= sums[qy.sortInv[d]]; }
        if d < qy.Pos() { assert sums[qy.sortInv[d]] <= sums[qy.sortInv[qy.Pos()]]; }
      }
      SquareMono(sums[i] - sums[e], sums[i] - sums[c]);
    } else {
      assert sums[i] <= sums[e] <= sums[c] by {
        if qy.Pos() < d { assert sums[qy.sortInv[qy.Pos()]] <= sums[qy.sortInv[d]]; }
        if d < pc { assert sums[qy.sortInv[d]] <= sums[qy.sortInv[pc]]; }
      }
      SquareMono(sums[e] - sums[i], sums[c] - sums[i]);
    }
  }

  /** A pruning gap no larger than a gap bounded by dim times a squared distance puts that distance above the last slot. */
  lemma PruneArith(ge: real, gc: real, sq: real, dim: real, last: real)
    requires 0.0 <= dim && ge <= gc <= dim * sq && ge > dim * last
    ensures sq > last
  {
    if dim == 0.0 {
      assert false;
    }
    ScaleCancel(dim, sq, last);
  }

  /**
   * A gap that prunes at position d also rules out every point c lying
   * beyond d as seen from i's position: its sum is at least as far from
   * i's, and by Cauchy-Schwarz its squared distance exceeds the last slot.
   */
  lemma PruneBeats(qy: Query, sums: seq<real>, s: seq<Entry>, c: int, d: int)
    requires Wf(qy) && |sums| == |qy.coords| && InSumOrder(qy, sums) && |s| == qy.k
    requires 0 <= c < |qy.coords| && 0 <= d < |qy.coords|
    requires Prunes(Gap(sums, qy.sortInv[d], qy.i), qy.dim, s[qy.k - 1].key)
    requires qy.sortSum[c] <= d <= qy.Pos() || qy.Pos() <= d <= qy.sortSum[c]
    ensures Beaten(qy, s, c)
  {
    GapBeyond(qy, sums, c, d);
    SumGapBound(qy.coords[c], qy.coords[qy.i]);
    PruneArith(Gap(sums, qy.sortInv[d], qy.i), Gap(sums, c, qy.i), SqDist(qy.coords[c], qy.coords[qy.i]),
               qy.dim as real, s[qy.k - 1].key.v);
  }

  /**
   * One cursor step of the walk in sum order keeps the buffer sorted, never
   * raises its last slot, keeps every beaten point beaten, and beats the
   * candidate it visits when that one is eligible.
   */
  lemma StepBeats(qy: Query, sums: seq<real>, s: seq<Entry>, m: nat, q: int) returns (m': nat)
    requires Wf(qy) && |sums| == |qy.coords| && InSumOrder(qy, sums)
    requires |s| == qy.k && Sorted(s) && Filled(s, m) && 0 <= q < |qy.coords|
    ensures var r := Step(qy, sums, s, q);
      Sorted(r.0) && Filled(r.0, m') && Le(r.0[qy.k - 1].key, s[qy.k - 1].key) &&
      (r.1 ==> r.0 == s && Prunes(Gap(sums, qy.sortInv[q], qy.i), qy.dim, s[qy.k - 1].key)) &&
      (Eligible(qy, qy.sortInv[q]) ==> Beaten(qy, r.0, qy.sortInv[q])) &&
      (forall c :: 0 <= c < |qy.coords| && Beaten(qy, s, c) ==> Beaten(qy, r.0, c))
  {
    var c, k := qy.sortInv[q], qy.k;
    m' := m;
    if Eligible(qy, c) && Prunes(Gap(sums, c, qy.i), qy.dim, s[k - 1].key) {
      PruneBeats(qy, sums, s, c, q);
    } else if Eligible(qy, c) {
      var x := Cand(qy, c);
      if Lt(x.key, s[k - 1].key) {
        m' := if m < k then m + 1 else m;
        OfferFilled(s, m, x);
        OfferMembers(s, m, x);
        var r := Offer(s, x);
        assert Step(qy, sums, s, q).0 == r;
        assert x in r by {
          var p :| 0 <= p < m' && r[..m'][p] == x;
          assert r[p] == x;
        }
        forall c' | 0 <= c' < |qy.coords| && Beaten(qy, s, c') ensures Beaten(qy, r, c') {
          KeepsBeaten(qy, s, m, x, c');
        }
      }
    }
  }

  /** An accepted offer keeps a beaten point beaten. */
  lemma KeepsBeaten(qy: Query, s: seq<Entry>, m: nat, x: Entry, c: int)
    requires Wf(qy) && |s| == qy.k && Sorted(s) && Filled(s, m)
    requires x.key.Fin? && Lt(x.key, s[qy.k - 1].key)
    requires 0 <= c < |qy.coords| && Beaten(qy, s, c)
    ensures |Offer(s, x)| == |s| && Beaten(qy, Offer(s, x), c)
  {
    var k, y, r := qy.k, Cand(qy, c), Offer(s, x);
    OfferFilled(s, m, x);
    OfferMembers(s, m, x);
    var m' := if m < k then m + 1 else m;
    if y in s {
      var p :| 0 <= p < k && s[p] == y;
      assert p < m && s[..m][p] == y;
      assert y in s[..m];
      if y in r[..m'] {
        var p' :| 0 <= p' < m' && r[..m'][p'] == y;
        assert r[p'] == y;
      } else {
        assert y == s[k - 1] && Le(r[k - 1].key, y.key);
      }
    } else {
      assert Le(r[k - 1].key, s[k - 1].key);
    }
  }

  /**
   * The walk in sum order ends with every eligible point beaten: inside the
   * visited range by the steps, beyond it by the gap that pruned there.
   */
  lemma {:induction false} WalkBeats(qy: Query, sums: seq<real>, s: seq<Entry>, m: nat,
                                     downI: int, upI: int, down: bool, up: bool)
    requires BeatInv(qy, sums, s, m, downI, upI, down, up)
    ensures forall c :: 0 <= c < |qy.coords| && Eligible(qy, c) ==>
      Beaten(qy, Walk(qy, sums, s, downI, upI, down, up), c)
    decreases (if down then downI + 1 else 0) + (if up then |qy.coords| - upI else 0)
  {
    var n := |qy.coords|;
    if !down && !up {
      forall c | 0 <= c < n && Eligible(qy, c) ensures Beaten(qy, s, c) {
        var pc := qy.sortSum[c];
        if pc < downI {
          PruneBeats(qy, sums, s, c, downI);
        } else if pc > upI {
          PruneBeats(qy, sums, s, c, upI);
        }
      }
    } else {
      var down1, up1 := down && downI != 0, up && upI != n - 1;
      var dI := if down1 then downI - 1 else downI;
      var uI := if up1 then upI + 1 else upI;
      var s1, downPruned, m1 := s, false, m;
      if down1 {
        m1 := StepBeats(qy, sums, s, m, dI);
        s1, downPruned := Step(qy, sums, s, dI).0, Step(qy, sums, s, dI).1;
      }
      var s2, upPruned, m2 := s1, false, m1;
      if up1 {
        m2 := StepBeats(qy, sums, s1, m1, uI);
        s2, upPruned := Step(qy, sums, s1, uI).0, Step(qy, sums, s1, uI).1;
      }
      WalkRound(qy, sums, s, downI, upI, down, up, s1, downPruned, s2, upPruned);
      var down', up' := down1 && !downPruned, up1 && !upPruned;
      assert Le(s2[qy.k - 1].key, s[qy.k - 1].key) by {
        LeTrans(s2[qy.k - 1].key, s1[qy.k - 1].key, s[qy.k - 1].key);
      }
      forall c | 0 <= c < n && Eligible(qy, c) && dI <= qy.sortSum[c] <= uI ensures Beaten(qy, s2, c) {
        if qy.sortSum[c] == dI && down1 {
          assert qy.sortInv[dI] == c;
        } else if qy.sortSum[c] == uI && up1 {
          assert qy.sortInv[uI] == c;
        }
      }
      if !down' && dI > 0 {
        var g := Gap(sums, qy.sortInv[dI], qy.i);
        if down1 {
          PrunesLower(g, qy.dim, s1[qy.k - 1].key, s2[qy.k - 1].key);
        } else {
          PrunesLower(g, qy.dim, s[qy.k - 1].key, s2[qy.k - 1].key);
        }
      }
      if !up' && uI < n - 1 {
        var g := Gap(sums, qy.sortInv[uI], qy.i);
        if up1 {
          PrunesLower(g, qy.dim, s1[qy.k - 1].key, s2[qy.k - 1].key);
        } else {
          PrunesLower(g, qy.dim, s[qy.k - 1].key, s2[qy.k - 1].key);
        }
      }
      WalkBeats(qy, sums, s2, m2, dI, uI, down', up');
    }
  }

  /**
   * On the input where the search as written misses the nearest point
   * (`FastSearch.MissesNearest`), the walk by rank finds it. The cursors
   * start at rank 2 of point 3; down, rank 1 is point 2, offered at squared
   * distance 1; up, rank 3 is point 1, whose squared sum gap 64 exceeds
   * 1 * 1; down again, rank 0 is point 0, whose gap 4 exceeds 1 too. The
   * search returns [2].
   */
  lemma FindsNearestByRank(init: seq<int>)
    requires |init| == 1
    ensures var coords := [[0.0], [10.0], [1.0], [2.0]];
      var sums := [0.0, 10.0, 1.0, 2.0];
      var qy := Query(coords, 1, 3, 1, 2, [0, 3, 1, 2], [0, 2, 3, 1]);
      Wf(qy) && Ids(Searches(qy, sums, init)) == [2]
  {
    var coords := [[0.0], [10.0], [1.0], [2.0]];
    var sums := [0.0, 10.0, 1.0, 2.0];
    var qy := Query(coords, 1, 3, 1, 2, [0, 3, 1, 2], [0, 2, 3, 1]);
    assert Wf(qy);
    assert SqDist(coords[2], coords[3]) == 1.0 by {
      assert coords[2][..0] == [];
    }
    var s0 := Start(1, init);
    var x := Cand(qy, 2);
    assert s0[..0] + [x] == [x];
    assert InsertionSort([x]) == [x] by {
      assert [x][..0] == [];
    }
    assert Step(qy, sums, s0, 1) == ([x], false);
    assert Gap(sums, 1, 3) == 64.0 && Gap(sums, 0, 3) == 4.0;
    assert Step(qy, sums, [x], 3) == ([x], true);
    assert Step(qy, sums, [x], 0) == ([x], true);
    WalkRound(qy, sums, s0, 2, 2, true, true, [x], false, [x], true);
    WalkRound(qy, sums, [x], 1, 3, true, false, [x], true, [x], false);
    assert Searches(qy, sums, init) == Walk(qy, sums, [x], 0, 3, false, false);
  }

  /**
   * The search for one point i > k with the cursors walking the ranks: the
   * loop of lines 133-186 started at `sort_inv_sum[i]` and reading the
   * point `sort_sum[p]` at position p. Besides what the search as written
   * delivers, no eligible point left out is nearer than the last one chosen.
   */
  method SearchNeighborsByRank(coords: seq<seq<real>>, dim: nat, sums: seq<real>,
                               sortSum: seq<int>, sortInv: seq<int>,
                               i: nat, k: nat, end: int, init: seq<int>)
    returns (nbrs: seq<int>, row: seq<Dist>)
    requires Rows(coords, dim) && |sums| == |coords| && Inverse(sortSum, sortInv, |coords|)
    requires forall j :: 0 <= j < |coords| ==> sums[j] == Sum(coords[j])
    requires forall r, t :: 0 <= r < t < |coords| ==> sums[sortSum[r]] <= sums[sortSum[t]]
    requires 1 <= k < i < |coords| && k <= end + 1 && |init| == k
    ensures Searched(coords, dim, i, k, end, nbrs, row)
    ensures forall c :: 0 <= c < i && c <= end && c !in nbrs ==>
      SqDist(coords[nbrs[k - 1]], coords[i]) <= SqDist(coords[c], coords[i])
  {
    nbrs, row := SearchNeighbors(coords, dim, sums, sortInv, sortSum, i, k, end, init);
    ghost var qy := Query(coords, dim, i, k, end, sortInv, sortSum);
    ghost var s := Searches(qy, sums, init);
    assert Filled(Start(k, init), 0);
    WalkBeats(qy, sums, Start(k, init), 0, qy.Pos(), qy.Pos(), true, true);
    forall c | 0 <= c < i && c <= end && c !in nbrs
      ensures SqDist(coords[nbrs[k - 1]], coords[i]) <= SqDist(coords[c], coords[i])
    {
      forall p | 0 <= p < k ensures s[p] != Cand(qy, c) {
        assert nbrs[p] != c;
      }
      assert Beaten(qy, s, c);
    }
  }
}
