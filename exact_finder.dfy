/**
 * `find_nearest_neighbors_Veccia`: for every point i, the k points with
 * smaller index that are nearest to it, read off a full distance matrix with
 * the bounded sorted buffer.
 */
module ExactFinder {
  import opened SortedBuffer
  import opened Geometry
  import opened Common

  /**
   * nbrs is an exact k-nearest-preceding-neighbour list of point i for the
   * distances `row`: k distinct indices below i, ascending by distance, and
   * no unselected index below i is closer than the last selected one.
   */
  ghost predicate KNearest(nbrs: seq<int>, row: seq<real>, i: nat, k: nat)
    requires i <= |row|
  {
    |nbrs| == k &&
    (forall p :: 0 <= p < k ==> 0 <= nbrs[p] < i) &&
    (forall p, q :: 0 <= p < q < k ==> nbrs[p] != nbrs[q]) &&
    (forall p, q :: 0 <= p < q < k ==> row[nbrs[p]] <= row[nbrs[q]]) &&
    (k > 0 ==> forall c :: 0 <= c < i && c !in nbrs ==> row[nbrs[k - 1]] <= row[c])
  }

  /**
   * The buffer after the candidates 0 .. j - 1 of the scan for one point have
   * been offered: sorted, its first min(j, k) slots finite and holding
   * distinct candidates with their distances, and every candidate already
   * offered either held or, once the buffer is full, no closer than its last
   * slot.
   */
  ghost predicate Scanned(s: seq<Entry>, row: seq<real>, j: nat, k: nat)
    requires j <= |row|
  {
    var m := if j < k then j else k;
    |s| == k && k > 0 && Sorted(s) && Filled(s, m) && DistinctIds(s[..m]) &&
    (forall e :: e in s[..m] ==> 0 <= e.id < j && e.key == Fin(row[e.id])) &&
    (forall c :: 0 <= c < j ==>
      Entry(Fin(row[c]), c) in s[..m] || (m == k && Le(s[k - 1].key, Fin(row[c]))))
  }

  /** Offering candidate j (lines 68-72) keeps the scan invariant. */
  lemma ScanStep(s: seq<Entry>, row: seq<real>, j: nat, k: nat)
    requires j < |row| && Scanned(s, row, j, k)
    ensures Scanned(Offer(s, Entry(Fin(row[j]), j)), row, j + 1, k)
  {
    var x := Entry(Fin(row[j]), j);
    var m := if j < k then j else k;
    var m' := if j + 1 < k then j + 1 else k;
    var r := Offer(s, x);
    if Lt(x.key, s[k - 1].key) {
      OfferFilled(s, m, x);
      OfferMembers(s, m, x);
      assert m' == if m < k then m + 1 else m;
      forall c | 0 <= c < j + 1
        ensures Entry(Fin(row[c]), c) in r[..m'] || (m' == k && Le(r[k - 1].key, Fin(row[c])))
      {
        if c < j && Entry(Fin(row[c]), c) !in r[..m'] {
          if Entry(Fin(row[c]), c) in s[..m] {
            assert Entry(Fin(row[c]), c) == s[k - 1];
          } else {
            LeTrans(r[k - 1].key, s[k - 1].key, Fin(row[c]));
          }
        }
      }
    } else {
      assert s[k - 1].key.Fin?;
      assert m == k && m' == k;
    }
  }

  /** The buffer of a finished scan of point i > k is full and gives its k nearest. */
  lemma ScanResult(s: seq<Entry>, row: seq<real>, i: nat, k: nat)
    requires k < i <= |row| && Scanned(s, row, i, k)
    ensures KNearest(Ids(s), row, i, k)
  {
    var nbrs := Ids(s);
    assert s[..k] == s;
    forall p | 0 <= p < k ensures 0 <= nbrs[p] < i && s[p].key == Fin(row[nbrs[p]]) {
      assert s[p] in s[..k];
    }
    forall p, q | 0 <= p < q < k ensures row[nbrs[p]] <= row[nbrs[q]] {
      assert Le(s[p].key, s[q].key);
    }
    forall c | 0 <= c < i ensures c in nbrs || row[nbrs[k - 1]] <= row[c] {
      if Entry(Fin(row[c]), c) in s[..k] {
        var p :| 0 <= p < k && s[p] == Entry(Fin(row[c]), c);
        assert nbrs[p] == c;
      }
    }
  }

  /**
   * Five collinear points 0, 1, 2, 3, 4 with k = 2: the only exact
   * 2-nearest list of point 4 is [3, 2].
   */
  lemma CollinearExample(nbrs: seq<int>)
    requires KNearest(nbrs, [4.0, 3.0, 2.0, 1.0, 0.0], 4, 2)
    ensures nbrs == [3, 2]
  {
    var row := [4.0, 3.0, 2.0, 1.0, 0.0];
    forall c | 0 <= c < 4 ensures row[c] == 4.0 - c as real {
    }
    assert nbrs[0] > nbrs[1] by {
      assert row[nbrs[0]] <= row[nbrs[1]] && nbrs[0] != nbrs[1];
    }
    forall c | 0 <= c < 4 && c !in nbrs ensures c <= nbrs[1] {
      assert row[nbrs[1]] <= row[c];
    }
    assert 3 in nbrs;
    assert nbrs[0] == 3;
    assert 2 in nbrs;
    assert nbrs == [nbrs[0], nbrs[1]];
  }

  /** Lines 63-73: the scan for one point i > k over its distance row. */
  method NearestPreceding(row: seq<real>, i: nat, k: nat, init: seq<int>) returns (nbrs: seq<int>)
    requires 1 <= k < i <= |row| && |init| == k
    ensures KNearest(nbrs, row, i, k)
  {
    var keys := new Ext[k](_ => Inf);
    var ids := new int[k](p requires 0 <= p < k => init[p]);
    assert Filled(Zip(keys[..], ids[..]), 0);
    for j := 0 to i
      invariant Scanned(Zip(keys[..], ids[..]), row, j, k)
    {
      ghost var s := Zip(keys[..], ids[..]);
      var taken := OfferInPlace(keys, ids, Entry(Fin(row[j]), j));
      ScanStep(s, row, j, k);
    }
    ghost var s := Zip(keys[..], ids[..]);
    ScanResult(s, row, i, k);
    nbrs := ids[..];
    assert nbrs == Ids(s);
  }

  /** Lines 51-54: the list [0, 1, ..., i - 1], written slot by slot into the resized vector. */
  method Prefix(current: seq<int>, i: nat) returns (list: seq<int>)
    ensures list == Iota(i)
  {
    list := Resize(current, i);
    for j := 0 to i
      invariant |list| == i
      invariant forall p :: 0 <= p < j ==> list[p] == p
    {
      list := list[j := j];
    }
  }

  /**
   * `find_nearest_neighbors_Veccia(dist, num_data, num_neighbors, nearest_neighbors)`.
   * Point 0 keeps its list, a point 0 < i <= k gets every earlier point, and
   * every later point gets its exact k nearest preceding points.
   */
  method FindNearestNeighbors(dist: seq<seq<real>>, numData: int, numNeighbors: int,
                              nearestNeighbors: array<seq<int>>) returns (status: Status)
    requires numNeighbors >= 1
    modifies nearestNeighbors
    ensures status == Ok <==>
      nearestNeighbors.Length == numData && |dist| == numData && Rows(dist, numData)
    ensures status == CheckFailed ==> nearestNeighbors[..] == old(nearestNeighbors[..])
    ensures status == Ok ==> forall i :: 0 <= i < numData ==>
      (i == 0 ==> nearestNeighbors[i] == old(nearestNeighbors[i])) &&
      (0 < i <= numNeighbors ==> nearestNeighbors[i] == Iota(i)) &&
      (i > numNeighbors ==> KNearest(nearestNeighbors[i], dist[i], i, numNeighbors))
  {
    if !(nearestNeighbors.Length == numData) || !(|dist| == numData && Rows(dist, numData)) {
      return CheckFailed;
    }
    status := Ok;
    InitLists(numNeighbors, nearestNeighbors);
    if numData > numNeighbors {
      SearchLists(dist, numNeighbors, nearestNeighbors);
    }
  }

  /** Lines 49-59: the lists of points 0 < i <= k become [0, ..., i - 1], later ones are resized to k. */
  method InitLists(k: nat, nearestNeighbors: array<seq<int>>)
    modifies nearestNeighbors
    ensures forall r :: 0 <= r < nearestNeighbors.Length ==>
      nearestNeighbors[r] == (if r == 0 then old(nearestNeighbors[r])
                              else if r <= k then Iota(r)
                              else Resize(old(nearestNeighbors[r]), k))
  {
    for i := 0 to nearestNeighbors.Length
      invariant forall r :: 0 <= r < nearestNeighbors.Length ==>
        nearestNeighbors[r] == (if r >= i || r == 0 then old(nearestNeighbors[r])
                                else if r <= k then Iota(r)
                                else Resize(old(nearestNeighbors[r]), k))
    {
      if i > 0 && i <= k {
        nearestNeighbors[i] := Prefix(nearestNeighbors[i], i);
      } else if i > k {
        nearestNeighbors[i] := Resize(nearestNeighbors[i], k);
      }
    }
  }

  /** Lines 60-75: every point i > k gets its k nearest preceding points; other lists are left as they are. */
  method SearchLists(dist: seq<seq<real>>, k: nat, nearestNeighbors: array<seq<int>>)
    requires 1 <= k < nearestNeighbors.Length == |dist| && Rows(dist, |dist|)
    requires forall r :: k < r < |dist| ==> |nearestNeighbors[r]| == k
    modifies nearestNeighbors
    ensures forall r :: 0 <= r < |dist| ==>
      if r > k then KNearest(nearestNeighbors[r], dist[r], r, k)
      else nearestNeighbors[r] == old(nearestNeighbors[r])
  {
    for i := k + 1 to |dist|
      invariant forall r :: 0 <= r < |dist| ==>
        if k < r < i then KNearest(nearestNeighbors[r], dist[r], r, k)
        else nearestNeighbors[r] == old(nearestNeighbors[r])
    {
      nearestNeighbors[i] := NearestPreceding(dist[i], i, k, nearestNeighbors[i]);
    }
  }
}
