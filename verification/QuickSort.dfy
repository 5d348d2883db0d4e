/** The quick sort test case, for any array and any range of it. */
module QuickSort {
  predicate Sorted(s: seq<int>, p: int, q: int)
    requires p <= q ==> 0 <= p && q < |s|
  {
    forall x, y | p <= x < y <= q :: s[x] <= s[y]
  }

  /** `t` rearranges `s` within positions `p` to `q`. */
  predicate Rearranged(s: seq<int>, t: seq<int>, p: int, q: int) {
    && |t| == |s| && multiset(t) == multiset(s)
    && forall k | 0 <= k < |s| && !(p <= k <= q) :: t[k] == s[k]
  }

  /** With the pivot put into the hole, `s` is a rearrangement of the array at the start. */
  predicate HoleAt(s0: seq<int>, s: seq<int>, p: int, q: int, hole: int, pivot: int) {
    && 0 <= p <= hole <= q < |s| && Rearranged(s0, s[hole := pivot], p, q)
  }

  predicate LowPart(s: seq<int>, p: int, i: int, pivot: int)
    requires 0 <= p && i <= |s|
  {
    forall k | p <= k < i :: s[k] <= pivot
  }

  predicate HighPart(s: seq<int>, j: int, q: int, pivot: int)
    requires -1 <= j && q < |s|
  {
    forall k | j < k <= q :: s[k] > pivot
  }

  /** Moving an element into the hole, and with it the hole to where the element was. */
  lemma HoleMoves(s0: seq<int>, s: seq<int>, p: int, q: int, i: int, j: int, pivot: int)
    requires HoleAt(s0, s, p, q, i, pivot) && p <= j <= q
    ensures HoleAt(s0, s[i := s[j]], p, q, j, pivot)
  {
    MovedMultiset(s, i, j, pivot);
  }

  lemma MovedMultiset(s: seq<int>, i: nat, j: nat, v: int)
    requires i < |s| && j < |s|
    ensures multiset(s[i := s[j]][j := v]) == multiset(s[i := v])
  {
    if i != j {
      assert s[i := s[j]][j] == s[j];
    } else {
      assert s[i := s[j]][j := v] == s[i := v];
    }
  }

  /**
   * The moving hole: it starts at `p`, its element held aside, and ends between the elements that
   * do not exceed the pivot and those that do.
   */
  method Partition(a: array<int>, p: int, q: int) returns (m: int)
    requires 0 <= p <= q < a.Length
    modifies a
    ensures p <= m <= q && a[m] == old(a[p])
    ensures Rearranged(old(a[..]), a[..], p, q)
    ensures LowPart(a[..], p, m, a[m]) && HighPart(a[..], m, q, a[m])
  {
    hide Rearranged;
    ghost var s0 := a[..];
    var pivot := a[p];
    var i, j := p, q;
    Start(s0, p, q);
    while i < j
      invariant p <= i <= j <= q && HoleAt(s0, a[..], p, q, i, pivot)
      invariant LowPart(a[..], p, i, pivot) && HighPart(a[..], j, q, pivot)
      decreases j - i
    {
      ghost var gap := j - i;
      while i < j && a[j] > pivot
        invariant i <= j <= q && j - i <= gap && HighPart(a[..], j, q, pivot)
      {
        j := j - 1;
      }
      ghost var s := a[..];
      HoleMoves(s0, s, p, q, i, j, pivot);
      a[i] := a[j];
      assert a[..] == s[i := s[j]];

      while i < j && a[i] <= pivot
        invariant p <= i <= j && j - i <= gap && LowPart(a[..], p, i, pivot)
        invariant i < j && j - i == gap ==> a[i] <= pivot
      {
        i := i + 1;
      }
      s := a[..];
      HoleMoves(s0, s, p, q, j, i, pivot);
      a[j] := a[i];
      assert a[..] == s[j := s[i]];
    }
    ghost var s := a[..];
    a[i] := pivot;
    assert a[..] == s[i := pivot];
    m := i;
  }

  lemma Start(s: seq<int>, p: int, q: int)
    requires 0 <= p <= q < |s|
    ensures HoleAt(s, s, p, q, p, s[p])
  {
    assert s[p := s[p]] == s;
  }

  // ---------- rearranging ranges ----------

  /** A rearrangement within a range keeps the range's elements. */
  lemma RangeKept(s: seq<int>, t: seq<int>, p: int, q: int)
    requires Rearranged(s, t, p, q) && 0 <= p && p - 1 <= q < |s|
    ensures multiset(t[p..q + 1]) == multiset(s[p..q + 1])
  {
    InThree(s, p, q + 1);
    InThree(t, p, q + 1);
    assert t[..p] == s[..p] && t[q + 1..] == s[q + 1..];
    var outside := multiset(s[..p]) + multiset(s[q + 1..]);
    assert multiset(t[p..q + 1]) == multiset(t) - outside;
    assert multiset(s[p..q + 1]) == multiset(s) - outside;
  }

  lemma InThree(s: seq<int>, i: nat, j: nat)
    requires i <= j <= |s|
    ensures multiset(s) == multiset(s[i..j]) + (multiset(s[..i]) + multiset(s[j..]))
  {
    assert s == s[..i] + s[i..j] + s[j..];
  }

  /** A bound on all elements of a range survives rearranging it. */
  lemma LowKept(s: seq<int>, t: seq<int>, p: int, q: int, pivot: int)
    requires Rearranged(s, t, p, q) && 0 <= p && p - 1 <= q < |s| && LowPart(s, p, q + 1, pivot)
    ensures LowPart(t, p, q + 1, pivot)
  {
    RangeKept(s, t, p, q);
    forall k | p <= k < q + 1
      ensures t[k] <= pivot
    {
      assert t[k] == t[p..q + 1][k - p];
      assert t[k] in multiset(s[p..q + 1]);
      var i :| 0 <= i < |s[p..q + 1]| && s[p..q + 1][i] == t[k];
      assert s[p + i] == t[k];
    }
  }

  lemma HighKept(s: seq<int>, t: seq<int>, p: int, q: int, pivot: int)
    requires Rearranged(s, t, p, q) && 0 <= p && p - 1 <= q < |s| && HighPart(s, p - 1, q, pivot)
    ensures HighPart(t, p - 1, q, pivot)
  {
    RangeKept(s, t, p, q);
    forall k | p - 1 < k <= q
      ensures t[k] > pivot
    {
      assert t[k] == t[p..q + 1][k - p];
      assert t[k] in multiset(s[p..q + 1]);
      var i :| 0 <= i < |s[p..q + 1]| && s[p..q + 1][i] == t[k];
      assert s[p + i] == t[k];
    }
  }

  lemma RearrangedTwice(s: seq<int>, t: seq<int>, u: seq<int>, p: int, q: int, p': int, q': int)
    requires Rearranged(s, t, p, q) && Rearranged(t, u, p', q') && p <= p' && q' <= q
    ensures Rearranged(s, u, p, q)
  {
  }

  lemma SortedJoins(s: seq<int>, p: int, q: int, m: int)
    requires 0 <= p <= m <= q < |s|
    requires Sorted(s, p, m - 1) && Sorted(s, m + 1, q) && LowPart(s, p, m, s[m]) && HighPart(s, m, q, s[m])
    ensures Sorted(s, p, q)
  {
  }

  lemma SortedKept(s: seq<int>, t: seq<int>, p: int, m: int, q: int)
    requires 0 <= p <= m + 1 && m <= q < |s| && Sorted(s, p, m) && Rearranged(s, t, m + 1, q)
    ensures Sorted(t, p, m)
  {
  }

  /** `quick_sort`: the range becomes sorted, by rearranging it and touching nothing else. */
  method Sort(a: array<int>, p: int, q: int)
    requires p < q ==> 0 <= p && q < a.Length
    modifies a
    ensures Rearranged(old(a[..]), a[..], p, q)
    ensures p < q ==> Sorted(a[..], p, q) && forall x, y | p <= x < y <= q :: a[x] <= a[y]
    decreases q - p
  {
    if p >= q {
      return;
    }
    hide Rearranged, Sorted, LowPart, HighPart;
    ghost var s0 := a[..];
    var m := Partition(a, p, q);
    ghost var s1, pivot := a[..], a[m];
    Sort(a, p, m - 1);
    ghost var s2 := a[..];
    Sort(a, m + 1, q);
    ghost var s3 := a[..];
    Recombined(s1, s2, s3, p, q, m);
    RearrangedTwice(s0, s1, s2, p, q, p, m - 1);
    RearrangedTwice(s0, s2, s3, p, q, m + 1, q);
    InOrder(a[..], p, q);
  }

  lemma InOrder(s: seq<int>, p: int, q: int)
    requires 0 <= p && q < |s| && Sorted(s, p, q)
    ensures forall x, y | p <= x < y <= q :: s[x] <= s[y]
  {
  }

  /** Sorting both sides of a partition sorts the whole. */
  lemma Recombined(s1: seq<int>, s2: seq<int>, s3: seq<int>, p: int, q: int, m: int)
    requires 0 <= p <= m <= q < |s1| && LowPart(s1, p, m, s1[m]) && HighPart(s1, m, q, s1[m])
    requires Rearranged(s1, s2, p, m - 1) && Rearranged(s2, s3, m + 1, q)
    requires (p < m - 1 ==> Sorted(s2, p, m - 1)) && (m + 1 < q ==> Sorted(s3, m + 1, q))
    ensures |s3| == |s1| && Sorted(s3, p, q)
  {
    assert |s2| == |s1| && |s3| == |s1| && s3[m] == s2[m] == s1[m];
    assert Sorted(s2, p, m - 1) && Sorted(s3, m + 1, q);
    LowKept(s1, s2, p, m - 1, s1[m]);
    assert HighPart(s2, m, q, s1[m]);
    HighKept(s2, s3, m + 1, q, s1[m]);
    SortedKept(s2, s3, p, m - 1, q);
    assert LowPart(s3, p, m, s1[m]);
    SortedJoins(s3, p, q, m);
  }
}
