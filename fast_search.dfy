/**
 * The search for one point i of `find_nearest_neighbors_Veccia_fast`
 * (lines 128-192), as the code is written: two cursors start at position
 * `sort_sum[i]` and move apart, one down and one up; the candidate at
 * position p is point `sort_inv_sum[p]`, offered to the bounded sorted
 * buffer when its index is below i and not above `end_search_at`, unless the
 * gap between coordinate sums prunes that direction. Since `sort_sum[r]` is
 * the point of rank r and `sort_inv_sum[p]` the rank of point p, the cursors
 * walk the inverse permutation rather than the coordinate-sum order.
 */
module FastSearch {
  import opened SortedBuffer
  import opened Geometry
  import opened Common

  /** The fixed inputs of one point's search. */
  datatype Query = Query(coords: seq<seq<real>>, dim: nat, i: nat, k: nat, end: int,
                         sortSum: seq<int>, sortInv: seq<int>)
  {
    /** Where both cursors start (lines 135-136): `sort_sum[i]`, the point of rank i used as a position. */
    function Pos(): int
      requires 0 <= i < |sortSum|
    {
      sortSum[i]
    }
  }

  /** `sortSum` and `sortInv` are inverse permutations of 0 .. n - 1. */
  predicate Inverse(sortSum: seq<int>, sortInv: seq<int>, n: nat) {
    |sortSum| == n && |sortInv| == n &&
    (forall r :: 0 <= r < n ==> 0 <= sortSum[r] < n && sortInv[sortSum[r]] == r) &&
    (forall p :: 0 <= p < n ==> 0 <= sortInv[p] < n && sortSum[sortInv[p]] == p)
  }

  ghost predicate Wf(qy: Query) {
    var n := |qy.coords|;
    Rows(qy.coords, qy.dim) && 1 <= qy.k < qy.i < n && qy.k <= qy.end + 1 &&
    Inverse(qy.sortSum, qy.sortInv, n)
  }

  /** A candidate is eligible when its index is below i and not above end_search_at. */
  predicate Eligible(qy: Query, c: int) {
    c < qy.i && c <= qy.end
  }

  /** The buffer entry candidate c makes: its squared distance to i, and c. */
  ghost function Cand(qy: Query, c: int): Entry
    requires Wf(qy) && 0 <= c < |qy.coords|
  {
    Entry(Fin(SqDist(qy.coords[c], qy.coords[qy.i])), c)
  }

  /**
   * The search state once the positions lo .. hi other than i's own have
   * been visited: the buffer is sorted, its first m slots hold distinct
   * eligible candidates from visited positions with their squared distances,
   * the rest are +infinity; and while it is not full, every eligible
   * candidate visited is in it.
   */
  ghost predicate SearchInv(qy: Query, s: seq<Entry>, m: nat, lo: int, hi: int) {
    Wf(qy) && 0 <= lo <= qy.Pos() <= hi < |qy.coords| &&
    |s| == qy.k && Sorted(s) && Filled(s, m) && DistinctIds(s[..m]) &&
    (forall e :: e in s[..m] ==>
      0 <= e.id < |qy.coords| && Eligible(qy, e.id) && e == Cand(qy, e.id) &&
      lo <= qy.sortSum[e.id] <= hi) &&
    (m < qy.k ==> forall q :: lo <= q <= hi && q != qy.Pos() && Eligible(qy, qy.sortInv[q]) ==>
      Cand(qy, qy.sortInv[q]) in s[..m])
  }

  /** Lines 153 and 172: `smd > dim_coords * nn_square_dist[k - 1]`, never true while that slot is +infinity. */
  predicate Prunes(smd: real, dim: nat, last: Ext) {
    last.Fin? && smd > dim as real * last.v
  }

  /** A pruning test that held against a last slot still holds against a last slot no larger. */
  lemma PrunesLower(g: real, dim: nat, a: Ext, b: Ext)
    requires Prunes(g, dim, a) && Le(b, a)
    ensures Prunes(g, dim, b)
  {
    assert dim as real * (a.v - b.v) >= 0.0;
  }

  /** Lines 152 and 171: `smd`, the squared gap between the coordinate sums of c and i. */
  function Gap(sums: seq<real>, c: nat, i: nat): real
    requires c < |sums| && i < |sums|
  {
    (sums[c] - sums[i]) * (sums[c] - sums[i])
  }

  /**
   * One cursor step onto position q (lines 149-164 and 168-183), on values:
   * the buffer afterwards, and whether the step prunes its direction. An
   * ineligible candidate changes nothing, a pruning one stops the direction
   * and changes nothing, any other is offered.
   */
  ghost function Step(qy: Query, sums: seq<real>, s: seq<Entry>, q: int): (r: (seq<Entry>, bool))
    requires Wf(qy) && |sums| == |qy.coords| && |s| == qy.k && 0 <= q < |qy.coords|
    ensures |r.0| == |s|
  {
    var c := qy.sortInv[q];
    if !Eligible(qy, c) then (s, false)
    else if Prunes(Gap(sums, c, qy.i), qy.dim, s[qy.k - 1].key) then (s, true)
    else
      var x := Cand(qy, c);
      InsertionSortSorted(s[..qy.k - 1] + [x]);
      (Offer(s, x), false)
  }

  /** Position q holds a candidate whose gap prunes against `last`: why a cursor stopped short of its end. */
  ghost predicate PrunedAt(qy: Query, sums: seq<real>, q: int, last: Ext)
    requires Wf(qy) && |sums| == |qy.coords|
  {
    0 <= q < |qy.coords| && Prunes(Gap(sums, qy.sortInv[q], qy.i), qy.dim, last)
  }

  /** A step never raises the buffer's last slot, and it prunes only on a gap that prunes against that slot. */
  lemma StepLast(qy: Query, sums: seq<real>, s: seq<Entry>, m: nat, q: int)
    requires Wf(qy) && |sums| == |qy.coords| && |s| == qy.k && Sorted(s) && Filled(s, m)
    requires 0 <= q < |qy.coords|
    ensures Le(Step(qy, sums, s, q).0[qy.k - 1].key, s[qy.k - 1].key)
    ensures Step(qy, sums, s, q).1 ==> PrunedAt(qy, sums, q, s[qy.k - 1].key)
  {
    var c := qy.sortInv[q];
    if Eligible(qy, c) && !Prunes(Gap(sums, c, qy.i), qy.dim, s[qy.k - 1].key) {
      var x := Cand(qy, c);
      if Lt(x.key, s[qy.k - 1].key) {
        OfferFilled(s, m, x);
      }
    }
  }

  /**
   * One round of the loop, a down step to s1 then an up step to s2: a
   * direction stopped earlier still stops on a gap that prunes against the
   * last slot, and so does a direction stopped in this round.
   */
  lemma RoundPrunedAt(qy: Query, sums: seq<real>, s: seq<Entry>, m: nat, lo: int, hi: int,
                      downI: int, upI: int, down: bool, up: bool,
                      s1: seq<Entry>, m1: nat, downPruned: bool, s2: seq<Entry>, upPruned: bool,
                      stopDown: bool, stopUp: bool, stopDown': bool, stopUp': bool, lo': int, hi': int)
    requires Wf(qy) && |sums| == |qy.coords| && |s| == qy.k && Sorted(s) && Filled(s, m)
    requires 0 <= downI < |qy.coords| && 0 <= upI < |qy.coords|
    requires (s1, downPruned) == if down && downI != 0 then Step(qy, sums, s, downI - 1) else (s, false)
    requires Sorted(s1) && Filled(s1, m1)
    requires (s2, upPruned) == if up && upI != |qy.coords| - 1 then Step(qy, sums, s1, upI + 1) else (s1, false)
    requires stopDown ==> PrunedAt(qy, sums, lo - 1, s[qy.k - 1].key)
    requires stopUp ==> PrunedAt(qy, sums, hi + 1, s[qy.k - 1].key)
    requires stopDown' == (stopDown || downPruned) && stopUp' == (stopUp || upPruned)
    requires (stopDown ==> lo' == lo) && (downPruned ==> lo' == downI)
    requires (stopUp ==> hi' == hi) && (upPruned ==> hi' == upI)
    ensures stopDown' ==> PrunedAt(qy, sums, lo' - 1, s2[qy.k - 1].key)
    ensures stopUp' ==> PrunedAt(qy, sums, hi' + 1, s2[qy.k - 1].key)
  {
    var a, b, c := s[qy.k - 1].key, s1[qy.k - 1].key, s2[qy.k - 1].key;
    if down && downI != 0 {
      StepLast(qy, sums, s, m, downI - 1);
    }
    if up && upI != |qy.coords| - 1 {
      StepLast(qy, sums, s1, m1, upI + 1);
    }
    LeTrans(c, b, a);
    if stopDown {
      PrunesLower(Gap(sums, qy.sortInv[lo - 1], qy.i), qy.dim, a, c);
    }
    if stopUp {
      PrunesLower(Gap(sums, qy.sortInv[hi + 1], qy.i), qy.dim, a, c);
    }
    if downPruned {
      PrunesLower(Gap(sums, qy.sortInv[downI - 1], qy.i), qy.dim, b, c);
    }
  }

  /**
   * The `while (up || down)` loop of lines 139-186, on values: from buffer s
   * and the cursor state, the buffer the loop ends with. Each round first
   * stops a cursor that stands at an end, then steps the live cursors down
   * and up in that order.
   */
  ghost function Walk(qy: Query, sums: seq<real>, s: seq<Entry>, downI: int, upI: int, down: bool, up: bool): (r: seq<Entry>)
    requires Wf(qy) && |sums| == |qy.coords| && |s| == qy.k
    requires 0 <= downI < |qy.coords| && 0 <= upI < |qy.coords|
    ensures |r| == |s|
    decreases (if down then downI + 1 else 0) + (if up then |qy.coords| - upI else 0)
  {
    if !down && !up then s
    else
      var down1 := down && downI != 0;
      var up1 := up && upI != |qy.coords| - 1;
      var dI := if down1 then downI - 1 else downI;
      var dStep := if down1 then Step(qy, sums, s, dI) else (s, false);
      var uI := if up1 then upI + 1 else upI;
      var uStep := if up1 then Step(qy, sums, dStep.0, uI) else (dStep.0, false);
      Walk(qy, sums, uStep.0, dI, uI, down1 && !dStep.1, up1 && !uStep.1)
  }

  /** One round of the loop: the walk from a state equals the walk from the state after the round. */
  lemma WalkRound(qy: Query, sums: seq<real>, s: seq<Entry>, downI: int, upI: int, down: bool, up: bool,
                  s1: seq<Entry>, downPruned: bool, s2: seq<Entry>, upPruned: bool)
    requires Wf(qy) && |sums| == |qy.coords| && |s| == qy.k
    requires 0 <= downI < |qy.coords| && 0 <= upI < |qy.coords| && (down || up)
    requires (s1, downPruned) == if down && downI != 0 then Step(qy, sums, s, downI - 1) else (s, false)
    requires (s2, upPruned) == if up && upI != |qy.coords| - 1 then Step(qy, sums, s1, upI + 1) else (s1, false)
    ensures var down1, up1 := down && downI != 0, up && upI != |qy.coords| - 1;
      Walk(qy, sums, s, downI, upI, down, up) ==
      Walk(qy, sums, s2, if down1 then downI - 1 else downI, if up1 then upI + 1 else upI,
           down1 && !downPruned, up1 && !upPruned)
  {
  }

  /** Lines 129-132: the buffer starts at +infinity, holding the resized list as its indices. */
  function Start(k: nat, init: seq<int>): (s: seq<Entry>)
    requires |init| == k
    ensures |s| == k && Ids(s) == init && forall p :: 0 <= p < k ==> s[p].key == Inf
  {
    seq(k, p requires 0 <= p < k => Entry(Inf, init[p]))
  }

  /** The buffer the search for point i ends with, as the code walks the positions. */
  ghost function Searches(qy: Query, sums: seq<real>, init: seq<int>): seq<Entry>
    requires Wf(qy) && |sums| == |qy.coords| && |init| == qy.k
  {
    Walk(qy, sums, Start(qy.k, init), qy.Pos(), qy.Pos(), true, true)
  }

  /** `nbrs` is the list the search for point i leaves, from list `init`, as the code walks the positions. */
  ghost predicate Walked(coords: seq<seq<real>>, dim: nat, sums: seq<real>, sortSum: seq<int>, sortInv: seq<int>,
                         i: nat, k: int, end: int, init: seq<int>, nbrs: seq<int>)
    requires Rows(coords, dim) && |sums| == |coords| && Inverse(sortSum, sortInv, |coords|)
    requires 1 <= k < i < |coords| && k <= end + 1 && |init| == k
  {
    nbrs == Ids(Searches(Query(coords, dim, i, k, end, sortSum, sortInv), sums, init))
  }

  /** Visiting a fresh position q next to the visited range, whose candidate is offered. */
  lemma VisitOffered(qy: Query, s: seq<Entry>, m: nat, lo: int, hi: int, q: int)
    requires SearchInv(qy, s, m, lo, hi)
    requires q == lo - 1 >= 0 || hi + 1 == q < |qy.coords|
    requires Eligible(qy, qy.sortInv[q])
    ensures var s' := Offer(s, Cand(qy, qy.sortInv[q]));
      var m' := if m < qy.k && Lt(Cand(qy, qy.sortInv[q]).key, s[qy.k - 1].key) then m + 1 else m;
      SearchInv(qy, s', m', if q < lo then q else lo, if q > hi then q else hi)
  {
    var x := Cand(qy, qy.sortInv[q]);
    if Lt(x.key, s[qy.k - 1].key) {
      VisitTaken(qy, s, m, lo, hi, q);
    } else {
      VisitRejected(qy, s, m, lo, hi, q);
    }
  }

  /** An eligible candidate no nearer than the last slot leaves the buffer as it was. */
  lemma VisitRejected(qy: Query, s: seq<Entry>, m: nat, lo: int, hi: int, q: int)
    requires SearchInv(qy, s, m, lo, hi)
    requires q == lo - 1 >= 0 || hi + 1 == q < |qy.coords|
    requires Eligible(qy, qy.sortInv[q])
    requires !Lt(Cand(qy, qy.sortInv[q]).key, s[qy.k - 1].key)
    ensures Offer(s, Cand(qy, qy.sortInv[q])) == s
    ensures m == qy.k && SearchInv(qy, s, m, if q < lo then q else lo, if q > hi then q else hi)
  {
    assert s[qy.k - 1].key.Fin?;
  }

  lemma VisitTaken(qy: Query, s: seq<Entry>, m: nat, lo: int, hi: int, q: int)
    requires SearchInv(qy, s, m, lo, hi)
    requires q == lo - 1 >= 0 || hi + 1 == q < |qy.coords|
    requires Eligible(qy, qy.sortInv[q])
    requires Lt(Cand(qy, qy.sortInv[q]).key, s[qy.k - 1].key)
    ensures var m' := if m < qy.k then m + 1 else m;
      SearchInv(qy, Offer(s, Cand(qy, qy.sortInv[q])), m', if q < lo then q else lo, if q > hi then q else hi)
  {
    var c := qy.sortInv[q];
    var x := Cand(qy, c);
    var k := qy.k;
    var lo', hi' := if q < lo then q else lo, if q > hi then q else hi;
    var s' := Offer(s, x);
    var m' := if m < k then m + 1 else m;
    OfferFilled(s, m, x);
    OfferMembers(s, m, x);
    forall e | e in s[..m] ensures e.id != x.id {
      assert qy.sortSum[e.id] != q;
    }
    assert DistinctIds(s'[..m']);
    forall e | e in s'[..m']
      ensures 0 <= e.id < |qy.coords| && Eligible(qy, e.id) && e == Cand(qy, e.id)
      ensures lo' <= qy.sortSum[e.id] <= hi'
    {
    }
    if m' < k {
      forall q' | lo' <= q' <= hi' && q' != qy.Pos() && Eligible(qy, qy.sortInv[q'])
        ensures Cand(qy, qy.sortInv[q']) in s'[..m']
      {
        if q' != q {
          assert Cand(qy, qy.sortInv[q']) in s[..m];
        }
      }
    }
  }

  /** Visiting a fresh position whose candidate is not eligible changes only the range. */
  lemma VisitSkipped(qy: Query, s: seq<Entry>, m: nat, lo: int, hi: int, q: int)
    requires SearchInv(qy, s, m, lo, hi)
    requires q == lo - 1 >= 0 || hi + 1 == q < |qy.coords|
    requires !Eligible(qy, qy.sortInv[q])
    ensures SearchInv(qy, s, m, if q < lo then q else lo, if q > hi then q else hi)
  {
  }

  /** Pruning only fires when the buffer is full. */
  lemma PruneOnlyWhenFull(qy: Query, s: seq<Entry>, m: nat, lo: int, hi: int, smd: real)
    requires SearchInv(qy, s, m, lo, hi)
    requires Prunes(smd, qy.dim, s[qy.k - 1].key)
    ensures m == qy.k
  {
  }

  lemma {:induction false} SetOfSeqBound(s: seq<int>)
    ensures |set v | v in s| <= |s|
  {
    if s != [] {
      var u := s[..|s| - 1];
      SetOfSeqBound(u);
      assert (set v | v in s) == (set v | v in u) + {s[|s| - 1]};
    }
  }

  lemma {:induction false} RangeSize(c: nat)
    ensures |set v | v in Iota(c)| == c
  {
    if c > 0 {
      RangeSize(c - 1);
      var u, w := Iota(c - 1), Iota(c);
      assert w == u + [c - 1];
      assert (set v | v in w) == (set v | v in u) + {c - 1};
    }
  }

  lemma SubsetSize(a: set<int>, b: set<int>)
    requires a <= b
    ensures |a| <= |b|
  {
    assert b == a + (b - a);
  }

  /** A sequence that holds every value 0 .. c - 1 has at least c entries. */
  lemma Pigeonhole(s: seq<int>, c: nat)
    requires forall v :: 0 <= v < c ==> v in s
    ensures |s| >= c
  {
    SetOfSeqBound(s);
    RangeSize(c);
    SubsetSize(set v | v in Iota(c), set v | v in s);
  }

  /**
   * When both cursors ran to the ends without being pruned, every point c
   * other than i was visited exactly once: it is the candidate at position
   * sort_sum[c] and at no other, and that position is not the start. While
   * the buffer is not full, every eligible one of them is held.
   */
  lemma UnprunedScanVisitsAllOthers(qy: Query, s: seq<Entry>, m: nat, c: int)
    requires SearchInv(qy, s, m, 0, |qy.coords| - 1)
    requires 0 <= c < |qy.coords| && c != qy.i
    ensures 0 <= qy.sortSum[c] < |qy.coords| && qy.sortSum[c] != qy.Pos()
    ensures qy.sortInv[qy.sortSum[c]] == c
    ensures forall q :: 0 <= q < |qy.coords| && qy.sortInv[q] == c ==> q == qy.sortSum[c]
    ensures m < qy.k && Eligible(qy, c) ==> Cand(qy, c) in s[..m]
  {
    var q := qy.sortSum[c];
    assert qy.sortInv[q] == c;
    forall q' | 0 <= q' < |qy.coords| && qy.sortInv[q'] == c ensures q' == q {
      assert qy.sortSum[qy.sortInv[q']] == q';
    }
  }

  /** A finished search of a point i > k leaves the buffer full. */
  lemma SearchFills(qy: Query, s: seq<Entry>, m: nat, lo: int, hi: int)
    requires SearchInv(qy, s, m, lo, hi)
    requires m < qy.k ==> lo == 0 && hi == |qy.coords| - 1
    ensures m == qy.k
  {
    if m < qy.k {
      forall c | 0 <= c < qy.k ensures c in Ids(s[..m]) {
        UnprunedScanVisitsAllOthers(qy, s, m, c);
        var x := Cand(qy, c);
        assert x in s[..m];
        var p :| 0 <= p < m && s[..m][p] == x;
        assert Ids(s[..m])[p] == c;
      }
      Pigeonhole(Ids(s[..m]), qy.k);
    }
  }

  /**
   * What the search for one point i > k delivers: k distinct neighbours, each
   * below i and not above end_search_at, ascending by squared distance to i,
   * and the distance row aligned with them.
   */
  ghost predicate Searched(coords: seq<seq<real>>, dim: nat, i: nat, k: int, end: int,
                           nbrs: seq<int>, row: seq<Dist>)
    requires Rows(coords, dim) && i < |coords|
  {
    |nbrs| == k && |row| == k &&
    (forall p :: 0 <= p < k ==> 0 <= nbrs[p] < i && nbrs[p] <= end) &&
    (forall p, q :: 0 <= p < q < k ==> nbrs[p] != nbrs[q]) &&
    (forall p, q :: 0 <= p < q < k ==>
      SqDist(coords[nbrs[p]], coords[i]) <= SqDist(coords[nbrs[q]], coords[i])) &&
    (forall p :: 0 <= p < k ==> row[p] == Norm(coords[nbrs[p]], coords[i]))
  }

  lemma SearchResult(qy: Query, s: seq<Entry>, row: seq<Dist>)
    requires SearchInv(qy, s, qy.k, 0, |qy.coords| - 1)
    requires |row| == qy.k && forall p :: 0 <= p < qy.k ==> s[p].key.Fin? && row[p] == Root(s[p].key.v)
    ensures Searched(qy.coords, qy.dim, qy.i, qy.k, qy.end, Ids(s), row)
    ensures forall p :: 0 <= p < qy.k ==> s[p] == Cand(qy, s[p].id)
  {
    var nbrs := Ids(s);
    assert s[..qy.k] == s;
    forall p | 0 <= p < qy.k ensures s[p] == Cand(qy, nbrs[p]) && Eligible(qy, nbrs[p]) && 0 <= nbrs[p] {
      assert s[p] in s[..qy.k];
    }
    forall p, q | 0 <= p < q < qy.k
      ensures SqDist(qy.coords[nbrs[p]], qy.coords[qy.i]) <= SqDist(qy.coords[nbrs[q]], qy.coords[qy.i])
    {
      assert Le(s[p].key, s[q].key);
    }
  }

  /**
   * Lines 151-163 (down) and 170-182 (up): the candidate c at a cursor's new
   * position is tested against the pruning bound and otherwise offered with
   * its squared distance to i.
   */
  method Consider(coords: seq<seq<real>>, dim: nat, sums: seq<real>, i: nat, c: nat,
                  keys: array<Ext>, ids: array<int>) returns (pruned: bool)
    requires Rows(coords, dim) && |sums| == |coords| && i < |coords| && c < |coords|
    requires keys.Length == ids.Length > 0
    modifies keys, ids
    ensures pruned == Prunes(Gap(sums, c, i), dim, old(keys[keys.Length - 1]))
    ensures Zip(keys[..], ids[..]) ==
      if pruned then old(Zip(keys[..], ids[..]))
      else Offer(old(Zip(keys[..], ids[..])), Entry(Fin(SqDist(coords[c], coords[i])), c))
  {
    var k := keys.Length;
    pruned := Prunes(Gap(sums, c, i), dim, keys[k - 1]);
    if !pruned {
      var sed := SqDist(coords[c], coords[i]);
      var taken := OfferInPlace(keys, ids, Entry(Fin(sed), c));
    }
  }

  /**
   * Lines 148-165 (down) and 167-184 (up): a cursor steps onto position q
   * next to the visited range; an eligible candidate there either prunes the
   * direction or is considered for the buffer.
   */
  method Visit(coords: seq<seq<real>>, dim: nat, sums: seq<real>, sortInv: seq<int>,
               i: nat, end: int, q: nat, keys: array<Ext>, ids: array<int>,
               ghost qy: Query, ghost m: nat, ghost lo: int, ghost hi: int)
    returns (pruned: bool, ghost m': nat)
    requires qy.coords == coords && qy.dim == dim && qy.i == i && qy.end == end
    requires qy.sortInv == sortInv && qy.k == keys.Length == ids.Length && |sums| == |coords|
    requires SearchInv(qy, Zip(keys[..], ids[..]), m, lo, hi)
    requires q == lo - 1 || hi + 1 == q < |coords|
    modifies keys, ids
    ensures (Zip(keys[..], ids[..]), pruned) == Step(qy, sums, old(Zip(keys[..], ids[..])), q)
    ensures m == qy.k ==> m' == qy.k
    ensures pruned ==> m' == qy.k && SearchInv(qy, Zip(keys[..], ids[..]), m', lo, hi)
    ensures !pruned ==>
      SearchInv(qy, Zip(keys[..], ids[..]), m', if q < lo then q else lo, if q > hi then q else hi)
  {
    ghost var s := Zip(keys[..], ids[..]);
    var c := sortInv[q];
    pruned := false;
    m' := m;
    if c < i && c <= end {
      pruned := Consider(coords, dim, sums, i, c, keys, ids);
      if pruned {
        PruneOnlyWhenFull(qy, s, m, lo, hi, Gap(sums, c, i));
      } else {
        VisitOffered(qy, s, m, lo, hi, q);
        m' := if m < qy.k && Lt(Cand(qy, c).key, s[qy.k - 1].key) then m + 1 else m;
      }
    } else {
      VisitSkipped(qy, s, m, lo, hi, q);
    }
  }

  /**
   * Lines 128-192 for one point i > k: the buffer starts at +infinity with
   * the resized list as its indices, the two-cursor scan fills it, and the
   * distance row is read off it.
   */
  method SearchNeighbors(coords: seq<seq<real>>, dim: nat, sums: seq<real>,
                         sortSum: seq<int>, sortInv: seq<int>,
                         i: nat, k: nat, end: int, init: seq<int>)
    returns (nbrs: seq<int>, row: seq<Dist>)
    requires Rows(coords, dim) && |sums| == |coords| && Inverse(sortSum, sortInv, |coords|)
    requires 1 <= k < i < |coords| && k <= end + 1 && |init| == k
    ensures Searched(coords, dim, i, k, end, nbrs, row)
    ensures Walked(coords, dim, sums, sortSum, sortInv, i, k, end, init, nbrs)
    ensures var s := Searches(Query(coords, dim, i, k, end, sortSum, sortInv), sums, init);
      |s| == k && forall p :: 0 <= p < k ==> s[p] == Entry(Fin(SqDist(coords[nbrs[p]], coords[i])), nbrs[p])
  {
    ghost var qy := Query(coords, dim, i, k, end, sortSum, sortInv);
    var keys := new Ext[k](_ => Inf);
    var ids := new int[k](p requires 0 <= p < k => init[p]);
    assert Zip(keys[..], ids[..]) == Start(k, init);
    assert Filled(Zip(keys[..], ids[..]), 0);
    ghost var lo, hi, downPruned, upPruned := Scan(coords, dim, sums, sortSum, sortInv, i, end, keys, ids, qy);
    ghost var s := Zip(keys[..], ids[..]);
    row := DistanceRow(keys);
    nbrs := ids[..];
    assert nbrs == Ids(s);
    SearchResult(qy, s, row);
  }

  /**
   * The walk as the code writes it can miss the nearest point. One
   * coordinate per point, at 0, 10, 1 and 2, with k = 1, end_search_at = 2
   * and i = 3: `sort_sum` is [0, 2, 3, 1] and `sort_inv_sum` is
   * [0, 3, 1, 2]. The cursors start at position sort_sum[3] = 1. Down,
   * position 0 holds point 0, which is offered at squared distance 4. Up,
   * position 2 holds point 1, whose squared sum gap 64 exceeds 1 * 4, so the
   * up direction is pruned. Position 3, holding point 2 at squared distance
   * 1, is never reached, and the search returns [0].
   */
  lemma MissesNearest(init: seq<int>)
    requires |init| == 1
    ensures var coords := [[0.0], [10.0], [1.0], [2.0]];
      var sums := [0.0, 10.0, 1.0, 2.0];
      var qy := Query(coords, 1, 3, 1, 2, [0, 2, 3, 1], [0, 3, 1, 2]);
      Wf(qy) && (forall j :: 0 <= j < 4 ==> sums[j] == Sum(coords[j])) &&
      (forall r, t :: 0 <= r < t < 4 ==> sums[qy.sortSum[r]] <= sums[qy.sortSum[t]]) &&
      Ids(Searches(qy, sums, init)) == [0] &&
      Eligible(qy, 2) && SqDist(coords[2], coords[3]) < SqDist(coords[0], coords[3])
  {
    var coords := [[0.0], [10.0], [1.0], [2.0]];
    var sums := [0.0, 10.0, 1.0, 2.0];
    var qy := Query(coords, 1, 3, 1, 2, [0, 2, 3, 1], [0, 3, 1, 2]);
    assert Wf(qy);
    forall j | 0 <= j < 4 ensures sums[j] == Sum(coords[j]) {
      assert coords[j][..0] == [];
    }
    assert SqDist(coords[0], coords[3]) == 4.0 by {
      assert coords[0][..0] == [];
    }
    assert SqDist(coords[2], coords[3]) == 1.0 by {
      assert coords[2][..0] == [];
    }
    var s0 := Start(1, init);
    var x := Cand(qy, 0);
    assert s0[..0] + [x] == [x];
    assert InsertionSort([x]) == [x] by {
      assert [x][..0] == [];
    }
    assert Step(qy, sums, s0, 0) == ([x], false);
    assert Gap(sums, 1, 3) == 64.0;
    assert Step(qy, sums, [x], 2) == ([x], true);
    WalkRound(qy, sums, s0, 1, 1, true, true, [x], false, [x], true);
    assert Searches(qy, sums, init) == Walk(qy, sums, [x], 0, 2, true, false);
    assert Walk(qy, sums, [x], 0, 2, true, false) == Walk(qy, sums, [x], 0, 2, false, false);
  }

  /** Lines 189-192: the distance row holds the square roots of the buffer's finite keys. */
  method DistanceRow(keys: array<Ext>) returns (row: seq<Dist>)
    requires forall p :: 0 <= p < keys.Length ==> keys[p].Fin?
    ensures |row| == keys.Length && forall p :: 0 <= p < keys.Length ==> row[p] == Root(keys[p].v)
  {
    row := [];
    for j := 0 to keys.Length
      invariant |row| == j && forall p :: 0 <= p < j ==> row[p] == Root(keys[p].v)
    {
      row := row + [Root(keys[j].v)];
    }
  }

  /**
   * Lines 142-144 and 148-165: the down cursor stops at position 0, and
   * otherwise steps down and visits. The visited range grows unless the step
   * prunes the direction; a stopped direction was pruned or reached 0.
   */
  method DownPhase(coords: seq<seq<real>>, dim: nat, sums: seq<real>, sortInv: seq<int>,
                   i: nat, end: int, keys: array<Ext>, ids: array<int>, ghost qy: Query,
                   downI: nat, down: bool, ghost downPruned: bool, ghost m: nat, ghost lo: int, ghost hi: int)
    returns (downI': nat, down': bool, ghost pruned: bool, ghost downPruned': bool, ghost m': nat, ghost lo': int)
    requires qy.coords == coords && qy.dim == dim && qy.i == i && qy.end == end
    requires qy.sortInv == sortInv && qy.k == keys.Length == ids.Length && |sums| == |coords|
    requires SearchInv(qy, Zip(keys[..], ids[..]), m, lo, hi)
    requires lo == (if downPruned then downI + 1 else downI)
    requires (downPruned ==> !down && m == qy.k) && (!down && !downPruned ==> downI == 0)
    modifies keys, ids
    ensures var down1 := down && downI != 0;
      downI' == (if down1 then downI - 1 else downI) &&
      (Zip(keys[..], ids[..]), pruned) ==
        (if down1 then Step(qy, sums, old(Zip(keys[..], ids[..])), downI - 1) else (old(Zip(keys[..], ids[..])), false)) &&
      down' == (down1 && !pruned) && downPruned' == (downPruned || pruned)
    ensures SearchInv(qy, Zip(keys[..], ids[..]), m', lo', hi)
    ensures lo' == (if downPruned' then downI' + 1 else downI')
    ensures (downPruned' ==> !down' && m' == qy.k) && (!down' && !downPruned' ==> downI' == 0)
    ensures (downPruned ==> lo' == lo) && (pruned ==> lo' == downI)
    ensures m == qy.k ==> m' == qy.k
    ensures downI' <= downI && (down ==> (if down' then downI' + 1 else 0) < downI + 1)
  {
    downI', down', pruned, downPruned', m', lo' := downI, down, false, downPruned, m, lo;
    if downI == 0 {
      down' := false;
    }
    if down' {
      downI' := downI - 1;
      var stop;
      stop, m' := Visit(coords, dim, sums, sortInv, i, end, downI', keys, ids, qy, m, lo, hi);
      pruned := stop;
      if stop {
        down' := false;
        downPruned' := true;
      } else {
        lo' := downI';
      }
    }
  }

  /**
   * Lines 145-147 and 167-184: the up cursor stops at the last position,
   * and otherwise steps up and visits. The visited range grows unless the
   * step prunes the direction; a stopped direction was pruned or reached
   * the end.
   */
  method UpPhase(coords: seq<seq<real>>, dim: nat, sums: seq<real>, sortInv: seq<int>,
                 i: nat, end: int, keys: array<Ext>, ids: array<int>, ghost qy: Query,
                 upI: nat, up: bool, ghost upPruned: bool, ghost m: nat, ghost lo: int, ghost hi: int)
    returns (upI': nat, up': bool, ghost pruned: bool, ghost upPruned': bool, ghost m': nat, ghost hi': int)
    requires qy.coords == coords && qy.dim == dim && qy.i == i && qy.end == end
    requires qy.sortInv == sortInv && qy.k == keys.Length == ids.Length && |sums| == |coords|
    requires SearchInv(qy, Zip(keys[..], ids[..]), m, lo, hi) && upI < |coords|
    requires hi == (if upPruned then upI - 1 else upI)
    requires (upPruned ==> !up && m == qy.k) && (!up && !upPruned ==> upI == |coords| - 1)
    modifies keys, ids
    ensures var up1 := up && upI != |coords| - 1;
      upI' == (if up1 then upI + 1 else upI) &&
      (Zip(keys[..], ids[..]), pruned) ==
        (if up1 then Step(qy, sums, old(Zip(keys[..], ids[..])), upI + 1) else (old(Zip(keys[..], ids[..])), false)) &&
      up' == (up1 && !pruned) && upPruned' == (upPruned || pruned)
    ensures SearchInv(qy, Zip(keys[..], ids[..]), m', lo, hi')
    ensures hi' == (if upPruned' then upI' - 1 else upI') && upI' < |coords|
    ensures (upPruned' ==> !up' && m' == qy.k) && (!up' && !upPruned' ==> upI' == |coords| - 1)
    ensures (upPruned ==> hi' == hi) && (pruned ==> hi' == upI)
    ensures m == qy.k ==> m' == qy.k
    ensures upI' >= upI && (up ==> (if up' then |coords| - upI' else 0) < |coords| - upI)
  {
    upI', up', pruned, upPruned', m', hi' := upI, up, false, upPruned, m, hi;
    if upI == |coords| - 1 {
      up' := false;
    }
    if up' {
      upI' := upI + 1;
      var stop;
      stop, m' := Visit(coords, dim, sums, sortInv, i, end, upI', keys, ids, qy, m, lo, hi);
      pruned := stop;
      if stop {
        up' := false;
        upPruned' := true;
      } else {
        hi' := upI';
      }
    }
  }

  /**
   * The state of the loop of lines 139-186: the search invariant over the
   * visited range [lo, hi]; a cursor stands at the range's end, or just
   * past it when its direction was pruned; a stopped direction was pruned
   * (with a full buffer) or reached its end; and a pruned direction stopped
   * on a gap that still prunes against the buffer's last slot.
   */
  ghost predicate ScanInv(qy: Query, sums: seq<real>, s: seq<Entry>, m: nat, lo: int, hi: int,
                          downI: int, upI: int, down: bool, up: bool, downPruned: bool, upPruned: bool)
    requires |sums| == |qy.coords|
  {
    var n := |qy.coords|;
    SearchInv(qy, s, m, lo, hi) && 0 <= downI < n && 0 <= upI < n &&
    lo == (if downPruned then downI + 1 else downI) &&
    hi == (if upPruned then upI - 1 else upI) &&
    (downPruned ==> !down && m == qy.k) && (!down && !downPruned ==> downI == 0) &&
    (upPruned ==> !up && m == qy.k) && (!up && !upPruned ==> upI == n - 1) &&
    (downPruned ==> PrunedAt(qy, sums, lo - 1, s[qy.k - 1].key)) &&
    (upPruned ==> PrunedAt(qy, sums, hi + 1, s[qy.k - 1].key))
  }

  /**
   * How the scan over the visited range [lo, hi] ended, with buffer s: a
   * direction that was not pruned ran to its end, and one that was pruned
   * stopped just past the range, on a gap that prunes against the last slot.
   */
  ghost predicate Stopped(qy: Query, sums: seq<real>, s: seq<Entry>, lo: int, hi: int,
                          downPruned: bool, upPruned: bool)
    requires Wf(qy) && |sums| == |qy.coords| && |s| == qy.k
  {
    (!downPruned ==> lo == 0) && (!upPruned ==> hi == |qy.coords| - 1) &&
    (downPruned ==> PrunedAt(qy, sums, lo - 1, s[qy.k - 1].key)) &&
    (upPruned ==> PrunedAt(qy, sums, hi + 1, s[qy.k - 1].key))
  }

  /** When both cursors have stopped, the loop state says where each direction ended. */
  lemma ScanDone(qy: Query, sums: seq<real>, s: seq<Entry>, m: nat, lo: int, hi: int,
                 downI: int, upI: int, downPruned: bool, upPruned: bool)
    requires |sums| == |qy.coords|
    requires ScanInv(qy, sums, s, m, lo, hi, downI, upI, false, false, downPruned, upPruned)
    ensures SearchInv(qy, s, m, lo, hi) && Stopped(qy, sums, s, lo, hi, downPruned, upPruned)
  {
  }

  /** One round of the loop of lines 139-186: a down step, then an up step. */
  method Round(coords: seq<seq<real>>, dim: nat, sums: seq<real>, sortInv: seq<int>,
               i: nat, end: int, keys: array<Ext>, ids: array<int>, ghost qy: Query,
               downI: nat, upI: nat, down: bool, up: bool, ghost downPruned: bool, ghost upPruned: bool,
               ghost m: nat, ghost lo: int, ghost hi: int)
    returns (downI': nat, upI': nat, down': bool, up': bool, ghost downPruned': bool, ghost upPruned': bool,
             ghost m': nat, ghost lo': int, ghost hi': int)
    requires qy.coords == coords && qy.dim == dim && qy.i == i && qy.end == end
    requires qy.sortInv == sortInv && qy.k == keys.Length == ids.Length && |sums| == |coords|
    requires ScanInv(qy, sums, Zip(keys[..], ids[..]), m, lo, hi, downI, upI, down, up, downPruned, upPruned)
    requires up || down
    modifies keys, ids
    ensures ScanInv(qy, sums, Zip(keys[..], ids[..]), m', lo', hi', downI', upI', down', up', downPruned', upPruned')
    ensures Walk(qy, sums, Zip(keys[..], ids[..]), downI', upI', down', up') ==
            Walk(qy, sums, old(Zip(keys[..], ids[..])), downI, upI, down, up)
    ensures (if down' then downI' + 1 else 0) + (if up' then |coords| - upI' else 0) <
            (if down then downI + 1 else 0) + (if up then |coords| - upI else 0)
  {
    ghost var s0 := Zip(keys[..], ids[..]);
    ghost var prunedNow, downPrunedNow;
    downI', down', downPrunedNow, downPruned', m', lo' :=
      DownPhase(coords, dim, sums, sortInv, i, end, keys, ids, qy, downI, down, downPruned, m, lo, hi);
    ghost var s1, m1 := Zip(keys[..], ids[..]), m';
    upI', up', prunedNow, upPruned', m', hi' :=
      UpPhase(coords, dim, sums, sortInv, i, end, keys, ids, qy, upI, up, upPruned, m', lo', hi);
    WalkRound(qy, sums, s0, downI, upI, down, up, s1, downPrunedNow, Zip(keys[..], ids[..]), prunedNow);
    RoundPrunedAt(qy, sums, s0, m, lo, hi, downI, upI, down, up, s1, m1, downPrunedNow,
                  Zip(keys[..], ids[..]), prunedNow, downPruned, upPruned, downPruned', upPruned', lo', hi');
  }

  /**
   * Lines 133-186: the cursors start at position sort_sum[i] and move apart
   * until each reaches an end or is pruned. The buffer ends as the walk of
   * the loop on values says, full; a direction that was not pruned ran to
   * its end, and one that was pruned stopped just past the visited range, on
   * a gap that prunes against the final last slot. So a scan pruned in
   * neither direction visited every position.
   * (The up cursor's end test, at lines 145-147, runs after the down step
   * here; the down step does not touch the up cursor, so nothing changes.)
   */
  method Scan(coords: seq<seq<real>>, dim: nat, sums: seq<real>, sortSum: seq<int>, sortInv: seq<int>,
              i: nat, end: int, keys: array<Ext>, ids: array<int>, ghost qy: Query)
    returns (ghost lo: int, ghost hi: int, ghost downPruned: bool, ghost upPruned: bool)
    requires qy == Query(coords, dim, i, keys.Length, end, sortSum, sortInv)
    requires keys.Length == ids.Length && |sums| == |coords| && Wf(qy)
    requires SearchInv(qy, Zip(keys[..], ids[..]), 0, qy.Pos(), qy.Pos())
    modifies keys, ids
    ensures Zip(keys[..], ids[..]) == Walk(qy, sums, old(Zip(keys[..], ids[..])), qy.Pos(), qy.Pos(), true, true)
    ensures SearchInv(qy, Zip(keys[..], ids[..]), keys.Length, lo, hi)
    ensures Stopped(qy, sums, Zip(keys[..], ids[..]), lo, hi, downPruned, upPruned)
  {
    var n := |coords|;
    var down, up := true, true;
    var upI, downI := sortSum[i], sortSum[i];
    downPruned, upPruned := false, false;
    ghost var m: nat := 0;
    ghost var w := Walk(qy, sums, Zip(keys[..], ids[..]), downI, upI, down, up);
    lo, hi := downI, upI;
    while up || down
      invariant ScanInv(qy, sums, Zip(keys[..], ids[..]), m, lo, hi, downI, upI, down, up, downPruned, upPruned)
      invariant Walk(qy, sums, Zip(keys[..], ids[..]), downI, upI, down, up) == w
      decreases (if down then downI + 1 else 0) + (if up then n - upI else 0)
    {
      downI, upI, down, up, downPruned, upPruned, m, lo, hi :=
        Round(coords, dim, sums, sortInv, i, end, keys, ids, qy, downI, upI, down, up, downPruned, upPruned, m, lo, hi);
    }
    ScanDone(qy, sums, Zip(keys[..], ids[..]), m, lo, hi, downI, upI, downPruned, upPruned);
    SearchFills(qy, Zip(keys[..], ids[..]), m, lo, hi);
  }
}
