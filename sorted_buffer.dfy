/**
 * The bounded sorted buffer shared by both neighbour searches: a fixed number
 * of (squared distance, point index) slots kept ascending by distance, filled
 * with +infinity at the start, into which a candidate is offered by
 * overwriting the last slot and re-running the insertion sort
 * `sort_vectors_decreasing` (which, despite its name, sorts ascending).
 */
module SortedBuffer {

  /** A distance as the buffer holds it: a finite value or the +infinity sentinel. */
  datatype Ext = Fin(v: real) | Inf

  /** The `<` of doubles, restricted to finite values and +infinity. */
  predicate Lt(x: Ext, y: Ext) {
    x.Fin? && (y.Inf? || x.v < y.v)
  }

  predicate Le(x: Ext, y: Ext) {
    !Lt(y, x)
  }

  /** One slot of the buffer: the key array `a` and the index array `b` read side by side. */
  datatype Entry = Entry(key: Ext, id: int)

  function Zip(a: seq<Ext>, b: seq<int>): (s: seq<Entry>)
    requires |a| == |b|
    ensures |s| == |a|
    ensures forall p :: 0 <= p < |s| ==> s[p].key == a[p] && s[p].id == b[p]
  {
    seq(|a|, p requires 0 <= p < |a| => Entry(a[p], b[p]))
  }

  /** The index array `b` of a buffer. */
  function Ids(s: seq<Entry>): (r: seq<int>)
    ensures |r| == |s| && forall p :: 0 <= p < |s| ==> r[p] == s[p].id
  {
    seq(|s|, p requires 0 <= p < |s| => s[p].id)
  }

  ghost predicate Sorted(s: seq<Entry>) {
    forall p, q :: 0 <= p < q < |s| ==> Le(s[p].key, s[q].key)
  }

  /** The first `m` slots hold finite keys, the others the +infinity sentinel. */
  ghost predicate Filled(s: seq<Entry>, m: nat) {
    m <= |s| && forall p :: 0 <= p < |s| ==> (s[p].key.Fin? <==> p < m)
  }

  ghost predicate DistinctIds(s: seq<Entry>) {
    forall p, q :: 0 <= p < q < |s| ==> s[p].id != s[q].id
  }

  /**
   * One pass of the inner `while` of the insertion sort: `x`, standing after
   * `t`, is swapped leftwards past every entry whose key is strictly larger.
   */
  function InsertBack(t: seq<Entry>, x: Entry): seq<Entry>
  {
    if t == [] || !Lt(x.key, t[|t| - 1].key) then t + [x]
    else InsertBack(t[..|t| - 1], x) + [t[|t| - 1]]
  }

  /** What `sort_vectors_decreasing` computes: insertion sort, one InsertBack per outer step. */
  function InsertionSort(s: seq<Entry>): seq<Entry>
  {
    if s == [] then [] else InsertBack(InsertionSort(s[..|s| - 1]), s[|s| - 1])
  }

  /** Insert-if-smaller: overwrite the last slot with `x` and re-sort, if `x` beats it. */
  function Offer(s: seq<Entry>, x: Entry): seq<Entry>
    requires |s| > 0
  {
    if Lt(x.key, s[|s| - 1].key) then InsertionSort(s[..|s| - 1] + [x]) else s
  }

  lemma LeTrans(x: Ext, y: Ext, z: Ext)
    requires Le(x, y) && Le(y, z)
    ensures Le(x, z)
  {
  }

  /**
   * The pass leaves `x` at a split point p: nothing before p has a key larger
   * than x (equal keys are not passed, since the test is strict), everything
   * from p on has a strictly larger key.
   */
  lemma {:induction false} InsertBackSplit(t: seq<Entry>, x: Entry) returns (p: nat)
    ensures p <= |t| && InsertBack(t, x) == t[..p] + [x] + t[p..]
    ensures forall q :: p <= q < |t| ==> Lt(x.key, t[q].key)
    ensures p > 0 ==> !Lt(x.key, t[p - 1].key)
  {
    if t == [] || !Lt(x.key, t[|t| - 1].key) {
      p := |t|;
    } else {
      var u := t[..|t| - 1];
      p := InsertBackSplit(u, x);
      assert t == u + [t[|t| - 1]];
      assert u[..p] == t[..p];
      assert u[p..] + [t[|t| - 1]] == t[p..];
    }
  }

  /**
   * Equal keys are never swapped: every entry whose key is not larger than
   * x's keeps its slot, and x lands behind all of them.
   */
  lemma InsertBackStable(t: seq<Entry>, x: Entry) returns (p: nat)
    ensures p <= |t| && |InsertBack(t, x)| == |t| + 1 && InsertBack(t, x)[p] == x
    ensures forall q :: 0 <= q < |t| && Le(t[q].key, x.key) ==> q < p && InsertBack(t, x)[q] == t[q]
  {
    p := InsertBackSplit(t, x);
    var r := InsertBack(t, x);
    forall q | 0 <= q < |t| && Le(t[q].key, x.key) ensures q < p && r[q] == t[q] {
      assert r[q] == (t[..p] + [x] + t[p..])[q];
    }
  }

  /** On a sorted prefix the pass yields a sorted permutation of prefix + [x]. */
  lemma InsertBackSorted(t: seq<Entry>, x: Entry)
    requires Sorted(t)
    ensures Sorted(InsertBack(t, x))
    ensures multiset(InsertBack(t, x)) == multiset(t) + multiset{x}
    ensures |InsertBack(t, x)| == |t| + 1
  {
    var p := InsertBackSplit(t, x);
    SplitSorted(t, x, p);
    SplitPermutes(t, x, p);
  }

  lemma SplitPermutes(t: seq<Entry>, x: Entry, p: nat)
    requires p <= |t|
    ensures multiset(t[..p] + [x] + t[p..]) == multiset(t) + multiset{x}
  {
    assert t == t[..p] + t[p..];
  }

  lemma SplitSorted(t: seq<Entry>, x: Entry, p: nat)
    requires Sorted(t) && p <= |t|
    requires forall q :: p <= q < |t| ==> Lt(x.key, t[q].key)
    requires p > 0 ==> !Lt(x.key, t[p - 1].key)
    ensures Sorted(t[..p] + [x] + t[p..])
  {
    var r := t[..p] + [x] + t[p..];
    forall a, b | 0 <= a < b < |r| ensures Le(r[a].key, r[b].key) {
      if b < p {
        assert r[a] == t[a] && r[b] == t[b];
      } else if b == p {
        assert r[a] == t[a] && r[b] == x;
        assert Le(t[a].key, t[p - 1].key);
        LeTrans(t[a].key, t[p - 1].key, x.key);
      } else if a < p {
        assert r[a] == t[a] && r[b] == t[b - 1];
      } else if a == p {
        assert r[a] == x && r[b] == t[b - 1];
        assert Lt(x.key, t[b - 1].key);
      } else {
        assert r[a] == t[a - 1] && r[b] == t[b - 1];
      }
    }
  }

  lemma {:induction false} InsertionSortSorted(s: seq<Entry>)
    ensures |InsertionSort(s)| == |s|
    ensures Sorted(InsertionSort(s))
    ensures multiset(InsertionSort(s)) == multiset(s)
  {
    if s != [] {
      var u := s[..|s| - 1];
      InsertionSortSorted(u);
      InsertBackSorted(InsertionSort(u), s[|s| - 1]);
      assert s == u + [s[|s| - 1]];
    }
  }

  /** Insertion sort leaves an already sorted sequence as it is. */
  lemma {:induction false} InsertionSortOfSorted(s: seq<Entry>)
    requires Sorted(s)
    ensures InsertionSort(s) == s
  {
    if s != [] {
      var u := s[..|s| - 1];
      assert Sorted(u);
      InsertionSortOfSorted(u);
      assert s == u + [s[|s| - 1]];
      if u != [] {
        assert Le(s[|s| - 2].key, s[|s| - 1].key);
      }
    }
  }

  /** On a sorted buffer, an accepted offer is a single backward pass of the new entry. */
  lemma OfferOnSorted(s: seq<Entry>, x: Entry)
    requires |s| > 0 && Sorted(s) && Lt(x.key, s[|s| - 1].key)
    ensures Offer(s, x) == InsertBack(s[..|s| - 1], x)
  {
    var u := s[..|s| - 1];
    assert Sorted(u);
    assert (u + [x])[..|u|] == u;
    InsertionSortOfSorted(u);
  }

  /**
   * An accepted finite offer to a sorted buffer whose first m slots are finite
   * places x at some p <= m among the first |s| - 1 slots of s.
   */
  lemma OfferSplit(s: seq<Entry>, m: nat, x: Entry) returns (p: nat)
    requires |s| > 0 && Sorted(s) && Filled(s, m)
    requires x.key.Fin? && Lt(x.key, s[|s| - 1].key)
    ensures p <= m && p <= |s| - 1
    ensures Offer(s, x) == s[..p] + [x] + s[p..|s| - 1]
    ensures Sorted(Offer(s, x))
  {
    var t := s[..|s| - 1];
    OfferOnSorted(s, x);
    p := InsertBackSplit(t, x);
    assert Sorted(t);
    SplitSorted(t, x, p);
    if p > 0 {
      assert !Lt(x.key, t[p - 1].key);
      assert t[p - 1].key.Fin?;
    }
    assert t[..p] == s[..p] && t[p..] == s[p..|s| - 1];
  }

  /**
   * An accepted finite offer to a sorted buffer whose first m slots are
   * finite keeps it sorted, gains one finite slot unless it was full, and its
   * last key does not grow.
   */
  lemma OfferFilled(s: seq<Entry>, m: nat, x: Entry)
    requires |s| > 0 && Sorted(s) && Filled(s, m)
    requires x.key.Fin? && Lt(x.key, s[|s| - 1].key)
    ensures |Offer(s, x)| == |s| && Sorted(Offer(s, x))
    ensures Filled(Offer(s, x), if m < |s| then m + 1 else m)
    ensures Le(Offer(s, x)[|s| - 1].key, s[|s| - 1].key)
  {
    var p := OfferSplit(s, m, x);
    var r := Offer(s, x);
    var n := |s|;
    assert forall q :: 0 <= q < p ==> r[q] == s[q];
    assert forall q :: p < q < n ==> r[q] == s[q - 1];
    if p < n - 1 {
      assert Le(s[n - 2].key, s[n - 1].key);
    }
  }

  /**
   * What an accepted finite offer keeps: x enters the finite slots, nothing
   * else does, and the only entry that can leave them is the old last one,
   * when the buffer was full; distinct indices stay distinct if x's is new.
   */
  lemma OfferMembers(s: seq<Entry>, m: nat, x: Entry)
    requires |s| > 0 && Sorted(s) && Filled(s, m)
    requires x.key.Fin? && Lt(x.key, s[|s| - 1].key)
    ensures var m' := if m < |s| then m + 1 else m;
      |Offer(s, x)| == |s| &&
      x in Offer(s, x)[..m'] &&
      (forall e :: e in Offer(s, x)[..m'] ==> e == x || e in s[..m]) &&
      (forall e :: e in s[..m] ==> e in Offer(s, x)[..m'] || (m == |s| && e == s[|s| - 1])) &&
      (DistinctIds(s[..m]) && (forall e :: e in s[..m] ==> e.id != x.id) ==> DistinctIds(Offer(s, x)[..m']))
  {
    var p := OfferSplit(s, m, x);
    SplitMembers(s, m, x, p, Offer(s, x));
    if DistinctIds(s[..m]) && (forall e :: e in s[..m] ==> e.id != x.id) {
      SplitDistinct(s, m, x, p, Offer(s, x));
    }
  }

  lemma SplitMembers(s: seq<Entry>, m: nat, x: Entry, p: nat, r: seq<Entry>)
    requires 0 < |s| && m <= |s| && p <= m && p < |s| && r == s[..p] + [x] + s[p..|s| - 1]
    ensures var m' := if m < |s| then m + 1 else m;
      |r| == |s| &&
      x in r[..m'] &&
      (forall e :: e in r[..m'] ==> e == x || e in s[..m]) &&
      (forall e :: e in s[..m] ==> e in r[..m'] || (m == |s| && e == s[|s| - 1]))
  {
    var n := |s|;
    var m' := if m < n then m + 1 else m;
    var u := m' - 1;
    assert r[..m'] == s[..p] + [x] + s[p..u];
    assert s[..m] == s[..p] + s[p..u] + (if m == n then [s[n - 1]] else []);
  }

  lemma SplitDistinct(s: seq<Entry>, m: nat, x: Entry, p: nat, r: seq<Entry>)
    requires 0 < |s| && m <= |s| && p <= m && p < |s| && r == s[..p] + [x] + s[p..|s| - 1]
    requires DistinctIds(s[..m]) && forall e :: e in s[..m] ==> e.id != x.id
    ensures DistinctIds(r[..if m < |s| then m + 1 else m])
  {
    var m' := if m < |s| then m + 1 else m;
    var w := r[..m'];
    var v := s[..m];
    forall a | 0 <= a < m' ensures w[a] == (if a < p then v[a] else if a == p then x else v[a - 1]) {
      if a < p {
        assert r[a] == s[a];
      } else if a > p {
        assert r[a] == s[p..|s| - 1][a - p - 1] == s[a - 1];
      }
    }
    forall a, b | 0 <= a < b < m' ensures w[a].id != w[b].id {
      if a == p {
        assert v[b - 1] in v;
      } else if b == p {
        assert v[a] in v;
      } else {
        var a', b' := if a < p then a else a - 1, if b < p then b else b - 1;
        assert a' < b' && w[a] == v[a'] && w[b] == v[b'];
      }
    }
  }

  /**
   * `sort_vectors_decreasing(a, b, n)`: insertion sort of a[0..n) ascending,
   * moving b[0..n) in lockstep; slots from n on are not touched.
   */
  method SortVectorsDecreasing(a: array<Ext>, b: array<int>, n: nat)
    requires n <= a.Length && n <= b.Length
    modifies a, b
    ensures Zip(a[..n], b[..n]) == InsertionSort(Zip(old(a[..n]), old(b[..n])))
    ensures forall q :: n <= q < a.Length ==> a[q] == old(a[q])
    ensures forall q :: n <= q < b.Length ==> b[q] == old(b[q])
  {
    ghost var s0 := Zip(a[..n], b[..n]);
    if n == 0 {
      return;
    }
    SortSingleton(s0);
    assert Zip(a[..1], b[..1]) == s0[..1];
    var j := 1;
    while j <= n - 1
      invariant 1 <= j <= n
      invariant Zip(a[..j], b[..j]) == InsertionSort(s0[..j])
      invariant forall q :: j <= q < a.Length ==> a[q] == old(a[q])
      invariant forall q :: j <= q < b.Length ==> b[q] == old(b[q])
    {
      ghost var pa, pb := a[..], b[..];
      assert pa[..j] == a[..j] && pb[..j] == b[..j];
      assert s0[j] == Entry(pa[j], pb[j]);
      InsertionPass(a, b, j);
      SortPrefixStep(s0, j);
      j := j + 1;
    }
    assert s0[..n] == s0;
  }

  lemma SortSingleton(s: seq<Entry>)
    requires |s| > 0
    ensures InsertionSort(s[..1]) == s[..1]
  {
    assert s[..1][..0] == [];
  }

  /** The insertion sort of a prefix one longer is one more pass over the sorted shorter prefix. */
  lemma SortPrefixStep(s: seq<Entry>, j: nat)
    requires j < |s|
    ensures InsertionSort(s[..j + 1]) == InsertBack(InsertionSort(s[..j]), s[j])
  {
    assert s[..j + 1][..j] == s[..j];
  }

  /** Where a pass that stops at k leaves x: after t[..k], before the larger t[k..]. */
  lemma {:induction false} InsertBackAt(t: seq<Entry>, x: Entry, k: nat)
    requires k <= |t|
    requires forall q :: k <= q < |t| ==> Lt(x.key, t[q].key)
    requires k == 0 || !Lt(x.key, t[k - 1].key)
    ensures InsertBack(t, x) == t[..k] + [x] + t[k..]
    decreases |t|
  {
    if k < |t| {
      var u := t[..|t| - 1];
      InsertBackAt(u, x, k);
      assert u[..k] == t[..k];
      assert u[k..] + [t[|t| - 1]] == t[k..];
    }
  }

  lemma PassDone(z: seq<Entry>, t: seq<Entry>, x: Entry, k: nat)
    requires |z| == |t| + 1 && k <= |t| && z[k] == x
    requires forall q :: 0 <= q < k ==> z[q] == t[q]
    requires forall q :: k < q < |z| ==> z[q] == t[q - 1]
    requires forall q :: k <= q < |t| ==> Lt(x.key, t[q].key)
    requires k == 0 || !Lt(x.key, t[k - 1].key)
    ensures z == InsertBack(t, x)
  {
    InsertBackAt(t, x, k);
    var r := t[..k] + [x] + t[k..];
    forall q | 0 <= q < |z| ensures z[q] == r[q] {
      if q < k {
        assert r[q] == t[q];
      } else if q == k {
        assert r[q] == x;
      } else {
        assert r[q] == t[q - 1];
      }
    }
  }

  /** The body of the inner `while`: slots k - 1 and k of both arrays trade places. */
  method SwapDown(a: array<Ext>, b: array<int>, k: nat)
    requires 0 < k < a.Length && k < b.Length
    modifies a, b
    ensures a[k - 1] == old(a[k]) && a[k] == old(a[k - 1])
    ensures b[k - 1] == old(b[k]) && b[k] == old(b[k - 1])
    ensures forall q :: 0 <= q < a.Length && q != k - 1 && q != k ==> a[q] == old(a[q])
    ensures forall q :: 0 <= q < b.Length && q != k - 1 && q != k ==> b[q] == old(b[q])
  {
    var v, l := a[k], b[k];
    a[k], b[k] := a[k - 1], b[k - 1];
    a[k - 1], b[k - 1] := v, l;
  }

  /** One iteration of the outer `for`: the entry at j is moved left into the sorted a[0..j). */
  method InsertionPass(a: array<Ext>, b: array<int>, j: nat)
    requires j < a.Length && j < b.Length
    modifies a, b
    ensures Zip(a[..j + 1], b[..j + 1]) == InsertBack(Zip(old(a[..j]), old(b[..j])), Entry(old(a[j]), old(b[j])))
    ensures forall q :: j < q < a.Length ==> a[q] == old(a[q])
    ensures forall q :: j < q < b.Length ==> b[q] == old(b[q])
  {
    ghost var ka, kb := a[..j + 1], b[..j + 1];
    var k := j;
    while k > 0 && Lt(a[k], a[k - 1])
      invariant 0 <= k <= j
      invariant a[k] == ka[j] && b[k] == kb[j]
      invariant forall q {:trigger a[q]} :: 0 <= q < k ==> a[q] == ka[q]
      invariant forall q {:trigger b[q]} :: 0 <= q < k ==> b[q] == kb[q]
      invariant forall q {:trigger a[q]} :: k < q <= j ==> a[q] == ka[q - 1]
      invariant forall q {:trigger b[q]} :: k < q <= j ==> b[q] == kb[q - 1]
      invariant forall q :: k <= q < j ==> Lt(ka[j], ka[q])
      invariant forall q :: j < q < a.Length ==> a[q] == old(a[q])
      invariant forall q :: j < q < b.Length ==> b[q] == old(b[q])
    {
      SwapDown(a, b, k);
      k := k - 1;
    }
    PassResult(a[..], b[..], ka, kb, j, k);
    assert ka[..j] == old(a[..j]) && kb[..j] == old(b[..j]);
  }

  /** The arrays as a finished pass leaves them, read as a buffer. */
  lemma PassResult(na: seq<Ext>, nb: seq<int>, ka: seq<Ext>, kb: seq<int>, j: nat, k: nat)
    requires |ka| == |kb| == j + 1 && j < |na| && j < |nb| && k <= j
    requires na[k] == ka[j] && nb[k] == kb[j]
    requires forall q :: 0 <= q < k ==> na[q] == ka[q] && nb[q] == kb[q]
    requires forall q :: k < q <= j ==> na[q] == ka[q - 1] && nb[q] == kb[q - 1]
    requires forall q :: k <= q < j ==> Lt(ka[j], ka[q])
    requires k == 0 || !Lt(ka[j], ka[k - 1])
    ensures Zip(na[..j + 1], nb[..j + 1]) == InsertBack(Zip(ka[..j], kb[..j]), Entry(ka[j], kb[j]))
  {
    PassDone(Zip(na[..j + 1], nb[..j + 1]), Zip(ka[..j], kb[..j]), Entry(ka[j], kb[j]), k);
  }

  /**
   * Lines 68-72 (and 158-162, 177-181): if x's key is below the last slot's,
   * overwrite the last slot with x and re-sort the whole buffer.
   */
  method OfferInPlace(keys: array<Ext>, ids: array<int>, x: Entry) returns (taken: bool)
    requires keys.Length == ids.Length > 0
    modifies keys, ids
    ensures taken == Lt(x.key, old(keys[keys.Length - 1]))
    ensures Zip(keys[..], ids[..]) == Offer(old(Zip(keys[..], ids[..])), x)
  {
    ghost var ks, js := keys[..], ids[..];
    var k := keys.Length;
    taken := Lt(x.key, keys[k - 1]);
    if taken {
      keys[k - 1] := x.key;
      ids[k - 1] := x.id;
      assert keys[..k] == ks[..k - 1] + [x.key];
      assert ids[..k] == js[..k - 1] + [x.id];
      SortVectorsDecreasing(keys, ids, k);
      ZipLast(ks, js, x);
      assert keys[..k] == keys[..] && ids[..k] == ids[..];
      ghost var s := Zip(ks, js);
      assert Offer(s, x) == InsertionSort(s[..k - 1] + [x]);
    } else {
      assert keys[..] == ks && ids[..] == js;
    }
  }

  lemma ZipLast(a: seq<Ext>, b: seq<int>, x: Entry)
    requires |a| == |b| > 0
    ensures Zip(a[..|a| - 1] + [x.key], b[..|b| - 1] + [x.id]) == Zip(a, b)[..|a| - 1] + [x]
  {
    var l := Zip(a[..|a| - 1] + [x.key], b[..|b| - 1] + [x.id]);
    var r := Zip(a, b)[..|a| - 1] + [x];
    assert forall p :: 0 <= p < |a| ==> l[p] == r[p];
  }
}
