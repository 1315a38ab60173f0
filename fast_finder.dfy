/**
 * `find_nearest_neighbors_Veccia_fast`: the neighbour lists, the distance
 * rows and the neighbour-to-neighbour distance matrices of the points
 * start_at .. num_data - 1, where slot t of each output belongs to point
 * t + start_at.
 */
module FastFinder {
  import opened Geometry
  import opened Projection
  import opened Common
  import opened FastSearch
  import opened NeighborDistances

  /** Lines 81-83: a negative `end_search_at` stands for the last point but one. */
  function SearchEnd(numData: int, endSearchAt: int): (end: int)
    ensures endSearchAt >= 0 ==> end == endSearchAt
    ensures endSearchAt < 0 ==> end + 2 == numData
  {
    if endSearchAt < 0 then numData - 2 else endSearchAt
  }

  /**
   * Lines 86-89: the neighbour count is lowered to end_search_at + 1, the
   * number of candidates the last point can have, when it is larger.
   */
  function ClippedNeighbors(numNeighbors: int, end: int): (k: int)
    ensures k <= numNeighbors && k <= end + 1
    ensures k == numNeighbors || k == end + 1
  {
    if numNeighbors > end + 1 then end + 1 else numNeighbors
  }

  /** With at least one requested neighbour, the clipped count is positive unless there are fewer than two points. */
  lemma ClippedPositive(numData: int, numNeighbors: int, endSearchAt: int)
    requires numNeighbors >= 1
    ensures var k := ClippedNeighbors(numNeighbors, SearchEnd(numData, endSearchAt));
      k >= 1 || k == numData - 1
  {
  }

  /** The distances from point i to each earlier point, in index order. */
  ghost function PrecedingRow(coords: seq<seq<real>>, dim: nat, i: nat): (row: seq<Dist>)
    requires Rows(coords, dim) && i < |coords|
  {
    seq(i, j requires 0 <= j < i => Norm(coords[j], coords[i]))
  }

  /**
   * Lines 109-114 for one point 0 < i <= k: every earlier point is a
   * neighbour, in index order, with its distance to i.
   */
  method Bootstrap(coords: seq<seq<real>>, dim: nat, i: nat, current: seq<int>)
    returns (nbrs: seq<int>, row: seq<Dist>)
    requires Rows(coords, dim) && i < |coords|
    ensures nbrs == Iota(i) && row == PrecedingRow(coords, dim, i)
  {
    nbrs := Resize(current, i);
    var r := new Dist[i];
    for j := 0 to i
      invariant |nbrs| == i
      invariant forall p :: 0 <= p < j ==> nbrs[p] == p && r[p] == Norm(coords[p], coords[i])
    {
      nbrs := nbrs[j := j];
      r[j] := Norm(coords[j], coords[i]);
    }
    row := r[..];
  }

  /** What lines 107-119 leave in the slot of point i, from its old list and row. */
  ghost predicate Booted(coords: seq<seq<real>>, dim: nat, k: int, i: nat,
                         nbrs0: seq<int>, row0: seq<Dist>, nbrs: seq<int>, row: seq<Dist>)
    requires Rows(coords, dim) && i < |coords| && (k >= 1 || k == |coords| - 1)
  {
    (i == 0 ==> nbrs == nbrs0 && row == row0) &&
    (0 < i <= k ==> nbrs == Iota(i) && row == PrecedingRow(coords, dim, i)) &&
    (i > k ==> nbrs == Resize(nbrs0, k) && row == row0)
  }

  /** Lines 107-119: every point up to k gets all earlier points; every later list is resized to k. */
  method BootstrapAll(coords: seq<seq<real>>, dim: nat, k: int, startAt: nat,
                      nearestNeighbors: array<seq<int>>, distObsNeighbors: array<seq<Dist>>)
    requires Rows(coords, dim) && (k >= 1 || k == |coords| - 1)
    requires nearestNeighbors.Length + startAt == |coords| && distObsNeighbors.Length >= nearestNeighbors.Length
    modifies nearestNeighbors, distObsNeighbors
    ensures forall t :: 0 <= t < nearestNeighbors.Length ==>
      Booted(coords, dim, k, t + startAt, old(nearestNeighbors[t]), old(distObsNeighbors[t]),
             nearestNeighbors[t], distObsNeighbors[t])
    ensures forall t :: nearestNeighbors.Length <= t < distObsNeighbors.Length ==>
      distObsNeighbors[t] == old(distObsNeighbors[t])
  {
    for i := startAt to |coords|
      invariant forall t :: 0 <= t < nearestNeighbors.Length ==>
        if t + startAt < i then
          Booted(coords, dim, k, t + startAt, old(nearestNeighbors[t]), old(distObsNeighbors[t]),
                 nearestNeighbors[t], distObsNeighbors[t])
        else nearestNeighbors[t] == old(nearestNeighbors[t]) && distObsNeighbors[t] == old(distObsNeighbors[t])
      invariant forall t :: nearestNeighbors.Length <= t < distObsNeighbors.Length ==>
        distObsNeighbors[t] == old(distObsNeighbors[t])
    {
      var t := i - startAt;
      if i > 0 && i <= k {
        var nbrs, row := Bootstrap(coords, dim, i, nearestNeighbors[t]);
        nearestNeighbors[t] := nbrs;
        distObsNeighbors[t] := row;
      } else if i > k {
        nearestNeighbors[t] := Resize(nearestNeighbors[t], k);
      }
    }
  }

  /**
   * What lines 128-192 leave in the slot of a point i > k whose list was
   * `nbrs0`: k distinct eligible neighbours in ascending order of distance,
   * their distances, and the very list the code's walk of the positions
   * yields.
   */
  ghost predicate SearchedSlot(coords: seq<seq<real>>, dim: nat, sums: seq<real>, sortSum: seq<int>, sortInv: seq<int>,
                               k: int, end: int, i: nat, nbrs0: seq<int>, nbrs: seq<int>, row: seq<Dist>)
  {
    Rows(coords, dim) && |sums| == |coords| && Inverse(sortSum, sortInv, |coords|) &&
    1 <= k < i < |coords| && k <= end + 1 && |nbrs0| == k &&
    Searched(coords, dim, i, k, end, nbrs, row) &&
    Walked(coords, dim, sums, sortSum, sortInv, i, k, end, nbrs0, nbrs)
  }

  /** Slot t of `nn` and `dd` holds what the search of point t + start_at leaves there, from its list in `nn0`. */
  ghost predicate SlotSearched(coords: seq<seq<real>>, dim: nat, sums: seq<real>, sortSum: seq<int>, sortInv: seq<int>,
                               k: int, end: int, startAt: nat, t: int,
                               nn0: seq<seq<int>>, nn: seq<seq<int>>, dd: seq<seq<Dist>>)
  {
    0 <= t < |nn0| && t < |nn| && t < |dd| &&
    SearchedSlot(coords, dim, sums, sortSum, sortInv, k, end, t + startAt, nn0[t], nn[t], dd[t])
  }

  /**
   * The state of the loop of lines 122-196 before point i: the slots of the
   * points k < point < i hold their searched lists and rows, and every other
   * slot is as it was (`nn0`, `dd0`).
   */
  ghost predicate SearchedBefore(coords: seq<seq<real>>, dim: nat, sums: seq<real>, sortSum: seq<int>, sortInv: seq<int>,
                                 k: int, end: int, startAt: nat, i: int,
                                 nn0: seq<seq<int>>, dd0: seq<seq<Dist>>, nn: seq<seq<int>>, dd: seq<seq<Dist>>)
  {
    |nn0| == |nn| && |dd0| == |dd| >= |nn| &&
    (forall t :: 0 <= t < |nn| && k < t + startAt < i ==>
      SlotSearched(coords, dim, sums, sortSum, sortInv, k, end, startAt, t, nn0, nn, dd)) &&
    (forall t :: 0 <= t < |nn| && !(k < t + startAt < i) ==> nn[t] == nn0[t]) &&
    (forall t :: 0 <= t < |dd| && !(k < t + startAt < i) ==> dd[t] == dd0[t])
  }

  /** Storing the search of point i in its slot moves the loop state from i to i + 1. */
  lemma SearchedNext(coords: seq<seq<real>>, dim: nat, sums: seq<real>, sortSum: seq<int>, sortInv: seq<int>,
                     k: int, end: int, startAt: nat, i: nat,
                     nn0: seq<seq<int>>, dd0: seq<seq<Dist>>, nn: seq<seq<int>>, dd: seq<seq<Dist>>,
                     nbrs: seq<int>, row: seq<Dist>)
    requires startAt <= i < |coords| && |nn| + startAt == |coords|
    requires SearchedBefore(coords, dim, sums, sortSum, sortInv, k, end, startAt, i, nn0, dd0, nn, dd)
    requires SearchedSlot(coords, dim, sums, sortSum, sortInv, k, end, i, nn0[i - startAt], nbrs, row)
    ensures SearchedBefore(coords, dim, sums, sortSum, sortInv, k, end, startAt, i + 1,
                           nn0, dd0, nn[i - startAt := nbrs], dd[i - startAt := row])
  {
    var nn', dd' := nn[i - startAt := nbrs], dd[i - startAt := row];
    forall t | 0 <= t < |nn'| && k < t + startAt < i + 1
      ensures SlotSearched(coords, dim, sums, sortSum, sortInv, k, end, startAt, t, nn0, nn', dd')
    {
      if t + startAt < i {
        assert SlotSearched(coords, dim, sums, sortSum, sortInv, k, end, startAt, t, nn0, nn, dd);
      }
    }
  }

  /** Once every point has been visited, each slot is searched or kept, as the ensures of `SearchAll` state it. */
  lemma SearchedSlots(coords: seq<seq<real>>, dim: nat, sums: seq<real>, sortSum: seq<int>, sortInv: seq<int>,
                      k: int, end: int, startAt: nat,
                      nn0: seq<seq<int>>, dd0: seq<seq<Dist>>, nn: seq<seq<int>>, dd: seq<seq<Dist>>)
    requires |nn| + startAt == |coords|
    requires SearchedBefore(coords, dim, sums, sortSum, sortInv, k, end, startAt, |coords|, nn0, dd0, nn, dd)
    ensures |nn0| == |nn| && |dd0| == |dd| >= |nn|
    ensures forall t :: 0 <= t < |nn| ==>
      if t + startAt > k then SearchedSlot(coords, dim, sums, sortSum, sortInv, k, end, t + startAt, nn0[t], nn[t], dd[t])
      else nn[t] == nn0[t] && dd[t] == dd0[t]
    ensures forall t :: |nn| <= t < |dd| ==> dd[t] == dd0[t]
  {
    forall t | 0 <= t < |nn| && t + startAt > k
      ensures SearchedSlot(coords, dim, sums, sortSum, sortInv, k, end, t + startAt, nn0[t], nn[t], dd[t])
    {
      assert SlotSearched(coords, dim, sums, sortSum, sortInv, k, end, startAt, t, nn0, nn, dd);
    }
  }

  /**
   * Lines 122-196: every point i > k from start_at on gets its neighbours
   * from the two-cursor search and its row of distances; other slots are
   * left as they are.
   */
  method SearchAll(coords: seq<seq<real>>, dim: nat, sums: seq<real>, sortSum: seq<int>, sortInv: seq<int>,
                   k: int, end: int, startAt: nat,
                   nearestNeighbors: array<seq<int>>, distObsNeighbors: array<seq<Dist>>)
    requires Rows(coords, dim) && |sums| == |coords| && Inverse(sortSum, sortInv, |coords|)
    requires k < |coords| && k <= end + 1 && (k >= 1 || k == |coords| - 1)
    requires nearestNeighbors.Length + startAt == |coords| && distObsNeighbors.Length >= nearestNeighbors.Length
    requires forall t :: 0 <= t < nearestNeighbors.Length && t + startAt > k ==> |nearestNeighbors[t]| == k
    modifies nearestNeighbors, distObsNeighbors
    ensures forall t :: 0 <= t < nearestNeighbors.Length ==>
      if t + startAt > k then
        SearchedSlot(coords, dim, sums, sortSum, sortInv, k, end, t + startAt,
                     old(nearestNeighbors[t]), nearestNeighbors[t], distObsNeighbors[t])
      else nearestNeighbors[t] == old(nearestNeighbors[t]) && distObsNeighbors[t] == old(distObsNeighbors[t])
    ensures forall t :: nearestNeighbors.Length <= t < distObsNeighbors.Length ==>
      distObsNeighbors[t] == old(distObsNeighbors[t])
  {
    if k < 1 {
      // k == |coords| - 1: no point lies above k
      return;
    }
    var firstI := if startAt <= k then k + 1 else startAt;
    ghost var nn0, dd0 := nearestNeighbors[..], distObsNeighbors[..];
    for i := firstI to |coords|
      invariant SearchedBefore(coords, dim, sums, sortSum, sortInv, k, end, startAt, i,
                               nn0, dd0, nearestNeighbors[..], distObsNeighbors[..])
    {
      ghost var nn, dd := nearestNeighbors[..], distObsNeighbors[..];
      var t := i - startAt;
      var nbrs, row := SearchPoint(coords, dim, sums, sortSum, sortInv, k, end, i, nearestNeighbors[t]);
      SearchedNext(coords, dim, sums, sortSum, sortInv, k, end, startAt, i, nn0, dd0, nn, dd, nbrs, row);
      nearestNeighbors[t] := nbrs;
      distObsNeighbors[t] := row;
      assert nearestNeighbors[..] == nn[t := nbrs] && distObsNeighbors[..] == dd[t := row];
    }
    SearchedSlots(coords, dim, sums, sortSum, sortInv, k, end, startAt,
                  nn0, dd0, nearestNeighbors[..], distObsNeighbors[..]);
  }

  /** Lines 128-194 for one point i > k whose slot holds `init`: the list and the row the search stores there. */
  method SearchPoint(coords: seq<seq<real>>, dim: nat, sums: seq<real>, sortSum: seq<int>, sortInv: seq<int>,
                     k: int, end: int, i: nat, init: seq<int>)
    returns (nbrs: seq<int>, row: seq<Dist>)
    requires Rows(coords, dim) && |sums| == |coords| && Inverse(sortSum, sortInv, |coords|)
    requires 1 <= k < i < |coords| && k <= end + 1 && |init| == k
    ensures SearchedSlot(coords, dim, sums, sortSum, sortInv, k, end, i, init, nbrs, row)
  {
    nbrs, row := SearchNeighbors(coords, dim, sums, sortSum, sortInv, i, k, end, init);
  }

  /** Lines 198-210: every point from start_at on, point 0 excepted, gets the matrix of its neighbours' distances. */
  method AssembleAll(coords: seq<seq<real>>, dim: nat, startAt: nat,
                     nearestNeighbors: array<seq<int>>, distBetweenNeighbors: array<seq<seq<Dist>>>)
    requires Rows(coords, dim)
    requires nearestNeighbors.Length + startAt == |coords| && distBetweenNeighbors.Length >= nearestNeighbors.Length
    requires forall t :: 0 <= t < nearestNeighbors.Length && t + startAt > 0 ==> InRange(coords, nearestNeighbors[t])
    modifies distBetweenNeighbors
    ensures forall t :: 0 <= t < nearestNeighbors.Length ==>
      if t + startAt > 0 then distBetweenNeighbors[t] == Pairwise(coords, dim, nearestNeighbors[t])
      else distBetweenNeighbors[t] == old(distBetweenNeighbors[t])
    ensures forall t :: nearestNeighbors.Length <= t < distBetweenNeighbors.Length ==>
      distBetweenNeighbors[t] == old(distBetweenNeighbors[t])
  {
    var i := if startAt == 0 then 1 else startAt;
    while i < |coords|
      invariant startAt <= i
      invariant forall t :: 0 <= t < distBetweenNeighbors.Length ==>
        if 0 < t + startAt < i && t < nearestNeighbors.Length
        then distBetweenNeighbors[t] == Pairwise(coords, dim, nearestNeighbors[t])
        else distBetweenNeighbors[t] == old(distBetweenNeighbors[t])
    {
      var t := i - startAt;
      distBetweenNeighbors[t] := DistanceMatrix(coords, dim, nearestNeighbors[t]);
      i := i + 1;
    }
  }

  /**
   * Lines 92-104: the coordinate sums, the order that sorts them
   * (sort_sum) and its inverse (sort_inv).
   */
  ghost predicate Ranked(coords: seq<seq<real>>, sums: seq<real>, sortSum: seq<int>, sortInv: seq<int>) {
    |sums| == |coords| && (forall p :: 0 <= p < |coords| ==> sums[p] == Sum(coords[p])) &&
    Inverse(sortSum, sortInv, |coords|) &&
    forall r, s :: 0 <= r < s < |coords| ==> sums[sortSum[r]] <= sums[sortSum[s]]
  }

  /** Lines 92-104: the sums, sorted positions and ranks the search runs on. */
  method Rank(coords: seq<seq<real>>) returns (sums: seq<real>, sortSum: seq<int>, sortInv: seq<int>)
    ensures Ranked(coords, sums, sortSum, sortInv)
  {
    sums := CoordinateSums(coords);
    sortSum := SortIndexes(sums);
    sortInv := InvertPermutation(sortSum);
  }

  /** What the fast finder leaves in the slot of point i > 0. */
  ghost predicate Found(coords: seq<seq<real>>, dim: nat, k: int, end: int, i: nat,
                        nbrs: seq<int>, row: seq<Dist>, mat: seq<seq<Dist>>)
    requires Rows(coords, dim) && 0 < i < |coords|
  {
    (i <= k ==> nbrs == Iota(i) && row == PrecedingRow(coords, dim, i)) &&
    (i > k ==> Searched(coords, dim, i, k, end, nbrs, row)) &&
    InRange(coords, nbrs) && mat == Pairwise(coords, dim, nbrs)
  }

  /**
   * What lines 107-196 leave in the slot of point i, from its old list and
   * row: point 0's slot is kept, a point up to k gets all earlier points and
   * their distances, a later point the search's list and row.
   */
  ghost predicate Listed(coords: seq<seq<real>>, dim: nat, sums: seq<real>, sortSum: seq<int>, sortInv: seq<int>,
                         k: int, end: int, i: nat, nbrs0: seq<int>, row0: seq<Dist>, nbrs: seq<int>, row: seq<Dist>)
  {
    Rows(coords, dim) && i < |coords| &&
    (i == 0 ==> nbrs == nbrs0 && row == row0) &&
    (0 < i <= k ==> nbrs == Iota(i) && row == PrecedingRow(coords, dim, i)) &&
    (i > k ==> 1 <= k && SearchedSlot(coords, dim, sums, sortSum, sortInv, k, end, i, Resize(nbrs0, k), nbrs, row))
  }

  /** Lines 107-196: the bootstrap, then the search of every later point. */
  method Lists(coords: seq<seq<real>>, dim: nat, sums: seq<real>, sortSum: seq<int>, sortInv: seq<int>,
               k: int, end: int, startAt: nat,
               nearestNeighbors: array<seq<int>>, distObsNeighbors: array<seq<Dist>>)
    requires Rows(coords, dim) && |sums| == |coords| && Inverse(sortSum, sortInv, |coords|)
    requires (k >= 1 || k == |coords| - 1) && k <= end + 1
    requires nearestNeighbors.Length + startAt == |coords| && distObsNeighbors.Length >= nearestNeighbors.Length
    modifies nearestNeighbors, distObsNeighbors
    ensures forall t :: 0 <= t < nearestNeighbors.Length ==>
      Listed(coords, dim, sums, sortSum, sortInv, k, end, t + startAt,
             old(nearestNeighbors[t]), old(distObsNeighbors[t]), nearestNeighbors[t], distObsNeighbors[t])
    ensures forall t :: nearestNeighbors.Length <= t < distObsNeighbors.Length ==>
      distObsNeighbors[t] == old(distObsNeighbors[t])
  {
    ghost var given, givenRows := nearestNeighbors[..], distObsNeighbors[..];
    BootstrapAll(coords, dim, k, startAt, nearestNeighbors, distObsNeighbors);
    ghost var booted, bootedRows := nearestNeighbors[..], distObsNeighbors[..];
    if |coords| > k {
      SearchAll(coords, dim, sums, sortSum, sortInv, k, end, startAt, nearestNeighbors, distObsNeighbors);
    }
    forall t | 0 <= t < nearestNeighbors.Length
      ensures Listed(coords, dim, sums, sortSum, sortInv, k, end, t + startAt,
                     given[t], givenRows[t], nearestNeighbors[t], distObsNeighbors[t])
    {
      assert Booted(coords, dim, k, t + startAt, given[t], givenRows[t], booted[t], bootedRows[t]);
    }
  }

  /**
   * Lines 92-210 once the sizes are checked and k clipped: rank the points,
   * bootstrap the first k, search the later ones and assemble every
   * neighbour distance matrix.
   */
  method Run(coords: seq<seq<real>>, dim: nat, k: int, end: int, startAt: nat,
             nearestNeighbors: array<seq<int>>, distObsNeighbors: array<seq<Dist>>,
             distBetweenNeighbors: array<seq<seq<Dist>>>)
    returns (ghost sums: seq<real>, ghost sortSum: seq<int>, ghost sortInv: seq<int>)
    requires Rows(coords, dim) && (k >= 1 || k == |coords| - 1) && k <= end + 1
    requires nearestNeighbors.Length + startAt == |coords|
    requires distObsNeighbors.Length >= nearestNeighbors.Length && distBetweenNeighbors.Length >= nearestNeighbors.Length
    modifies nearestNeighbors, distObsNeighbors, distBetweenNeighbors
    ensures forall t :: 0 <= t < nearestNeighbors.Length ==>
      (t + startAt == 0 ==>
        nearestNeighbors[t] == old(nearestNeighbors[t]) && distObsNeighbors[t] == old(distObsNeighbors[t]) &&
        distBetweenNeighbors[t] == old(distBetweenNeighbors[t])) &&
      (t + startAt > 0 ==> Found(coords, dim, k, end, t + startAt,
        nearestNeighbors[t], distObsNeighbors[t], distBetweenNeighbors[t]))
    ensures Ranked(coords, sums, sortSum, sortInv)
    ensures forall t :: 0 <= t < nearestNeighbors.Length && t + startAt > k ==>
      Walked(coords, dim, sums, sortSum, sortInv, t + startAt, k, end,
             Resize(old(nearestNeighbors[t]), k), nearestNeighbors[t])
    ensures forall t :: nearestNeighbors.Length <= t < distObsNeighbors.Length ==>
      distObsNeighbors[t] == old(distObsNeighbors[t])
    ensures forall t :: nearestNeighbors.Length <= t < distBetweenNeighbors.Length ==>
      distBetweenNeighbors[t] == old(distBetweenNeighbors[t])
  {
    ghost var given, givenRows := nearestNeighbors[..], distObsNeighbors[..];
    var sums', sortSum', sortInv' := Rank(coords);
    sums, sortSum, sortInv := sums', sortSum', sortInv';
    Lists(coords, dim, sums', sortSum', sortInv', k, end, startAt, nearestNeighbors, distObsNeighbors);
    forall t | 0 <= t < nearestNeighbors.Length && t + startAt > 0
      ensures InRange(coords, nearestNeighbors[t])
    {
      assert Listed(coords, dim, sums, sortSum, sortInv, k, end, t + startAt,
                    given[t], givenRows[t], nearestNeighbors[t], distObsNeighbors[t]);
    }
    AssembleAll(coords, dim, startAt, nearestNeighbors, distBetweenNeighbors);
  }

  /**
   * `find_nearest_neighbors_Veccia_fast(coords, num_data, num_neighbors,
   * nearest_neighbors, dist_obs_neighbors, dist_between_neighbors, start_at,
   * end_search_at)`. Returns whether the size `CHECK`s held, the clipped
   * neighbour count, the effective `end_search_at` and whether the count was
   * clipped (when the source logs a message).
   */
  method FindNearestNeighborsFast(coords: seq<seq<real>>, dim: nat, numData: int, numNeighbors: int,
                                  nearestNeighbors: array<seq<int>>, distObsNeighbors: array<seq<Dist>>,
                                  distBetweenNeighbors: array<seq<seq<Dist>>>, startAt: int, endSearchAt: int)
    returns (status: Status, k: int, end: int, clipped: bool,
             ghost sums: seq<real>, ghost sortSum: seq<int>, ghost sortInv: seq<int>)
    requires Rows(coords, dim) && numNeighbors >= 1 && startAt >= 0
    requires distObsNeighbors.Length >= numData - startAt && distBetweenNeighbors.Length >= numData - startAt
    modifies nearestNeighbors, distObsNeighbors, distBetweenNeighbors
    ensures end == SearchEnd(numData, endSearchAt)
    ensures status == Ok <==> nearestNeighbors.Length == numData - startAt && |coords| == numData
    ensures status == CheckFailed ==>
      nearestNeighbors[..] == old(nearestNeighbors[..]) && distObsNeighbors[..] == old(distObsNeighbors[..]) &&
      distBetweenNeighbors[..] == old(distBetweenNeighbors[..])
    ensures status == Ok ==> k == ClippedNeighbors(numNeighbors, end) && clipped == (numNeighbors > end + 1)
    ensures status == Ok ==> forall t :: 0 <= t < nearestNeighbors.Length ==>
      (t + startAt == 0 ==>
        nearestNeighbors[t] == old(nearestNeighbors[t]) && distObsNeighbors[t] == old(distObsNeighbors[t]) &&
        distBetweenNeighbors[t] == old(distBetweenNeighbors[t])) &&
      (t + startAt > 0 ==> Found(coords, dim, k, end, t + startAt,
        nearestNeighbors[t], distObsNeighbors[t], distBetweenNeighbors[t]))
    ensures status == Ok ==> Ranked(coords, sums, sortSum, sortInv)
    ensures status == Ok ==> forall t :: 0 <= t < nearestNeighbors.Length && t + startAt > k ==>
      Walked(coords, dim, sums, sortSum, sortInv, t + startAt, k, end,
             Resize(old(nearestNeighbors[t]), k), nearestNeighbors[t])
    ensures status == Ok ==> forall t :: nearestNeighbors.Length <= t < distObsNeighbors.Length ==>
      distObsNeighbors[t] == old(distObsNeighbors[t])
    ensures status == Ok ==> forall t :: nearestNeighbors.Length <= t < distBetweenNeighbors.Length ==>
      distBetweenNeighbors[t] == old(distBetweenNeighbors[t])
  {
    end := SearchEnd(numData, endSearchAt);
    if !(nearestNeighbors.Length == numData - startAt) || !(|coords| == numData) {
      return CheckFailed, numNeighbors, end, false, [], [], [];
    }
    status := Ok;
    k, clipped := numNeighbors, false;
    if numNeighbors > end + 1 {
      k, clipped := end + 1, true;
    }
    ClippedPositive(numData, numNeighbors, endSearchAt);
    sums, sortSum, sortInv := Run(coords, dim, k, end, startAt, nearestNeighbors, distObsNeighbors, distBetweenNeighbors);
  }
}
