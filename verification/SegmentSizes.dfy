/** Running totals over the recorded sizes of segments in flight. */
module SegmentSizes {
  import opened Machine

  /** The total of the first `i` sizes. */
  function Total(sizes: seq<nat>, i: nat): nat
    requires i <= |sizes|
  {
    if i == 0 then 0 else Total(sizes, i - 1) + sizes[i - 1]
  }

  function Sum(sizes: seq<nat>): nat {
    Total(sizes, |sizes|)
  }

  lemma TotalNone(sizes: seq<nat>)
    ensures Total(sizes, 0) == 0
  {
  }

  lemma TotalStep(sizes: seq<nat>, i: nat)
    requires i < |sizes|
    ensures Total(sizes, i + 1) == Total(sizes, i) + sizes[i]
  {
  }

  lemma {:induction false} TotalMonotone(sizes: seq<nat>, i: nat, j: nat)
    requires i <= j <= |sizes|
    ensures Total(sizes, i) <= Total(sizes, j)
  {
    if i < j {
      TotalMonotone(sizes, i, j - 1);
    }
  }

  lemma {:induction false} TotalPrefix(sizes: seq<nat>, more: seq<nat>, i: nat)
    requires i <= |sizes|
    ensures Total(sizes + more, i) == Total(sizes, i)
  {
    if i > 0 {
      TotalPrefix(sizes, more, i - 1);
    }
  }

  lemma SumAppend(sizes: seq<nat>, n: nat)
    ensures Sum(sizes + [n]) == Sum(sizes) + n
  {
    TotalPrefix(sizes, [n], |sizes|);
  }

  lemma {:induction false} TotalDrop(sizes: seq<nat>, k: nat, i: nat)
    requires k + i <= |sizes|
    ensures Total(sizes[k..], i) == Total(sizes, k + i) - Total(sizes, k)
  {
    if i > 0 {
      TotalDrop(sizes, k, i - 1);
    }
  }

  lemma {:induction false} TotalUpdate(sizes: seq<nat>, k: nat, n: nat, i: nat)
    requires k < |sizes| && i <= |sizes|
    ensures Total(sizes[k := n], i) == Total(sizes, i) + (if k < i then n - sizes[k] else 0)
  {
    if i > 0 {
      TotalUpdate(sizes, k, n, i - 1);
    }
  }

  /** Only the last segment may be without payload. */
  ghost predicate Proper(sizes: seq<nat>) {
    forall i :: 0 <= i < |sizes| - 1 ==> sizes[i] > 0
  }

  /** What an acknowledgment of the first `n` bytes leaves of the recorded sizes. Only when it
      falls on the end of a segment are the sizes before it removed. */
  ghost predicate CutSizes(sizes: seq<nat>, n: nat, sizes': seq<nat>) {
    || (exists i: nat :: AtEnd(sizes, n, i) && sizes' == sizes[i..])
    || (exists i: nat :: Inside(sizes, n, i) && sizes' == sizes[i := Total(sizes, i + 1) - n])
    || (Sum(sizes) < n && sizes' == sizes)
  }

  /** `n` is where the `i`-th segment ends (and the first to end there). */
  ghost predicate AtEnd(sizes: seq<nat>, n: nat, i: nat) {
    0 < i <= |sizes| && Total(sizes, i) == n && Total(sizes, i - 1) < n
  }

  /** `n` lies strictly inside segment `i`. */
  ghost predicate Inside(sizes: seq<nat>, n: nat, i: nat) {
    i < |sizes| && Total(sizes, i) < n < Total(sizes, i + 1)
  }

  /** `n` is on the boundary of some segment. */
  ghost predicate OnBoundary(sizes: seq<nat>, n: nat) {
    exists i: nat :: i <= |sizes| && Total(sizes, i) == n
  }

  lemma {:induction false} FirstEnd(sizes: seq<nat>, n: nat, j: nat)
    requires j <= |sizes| && Total(sizes, j) == n && n > 0
    ensures exists i: nat :: i <= j && AtEnd(sizes, n, i)
  {
    if Total(sizes, j - 1) < n {
      assert AtEnd(sizes, n, j);
    } else {
      TotalMonotone(sizes, j - 1, j);
      FirstEnd(sizes, n, j - 1);
    }
  }

  /** The sizes left over add up to the bytes left over exactly if the acknowledgment falls on
      a boundary or inside the front segment. */
  lemma CutSums(sizes: seq<nat>, n: nat, sizes': seq<nat>)
    requires n > 0 && Proper(sizes) && CutSizes(sizes, n, sizes')
    ensures Sum(sizes') == Sum(sizes) - Min(n, Sum(sizes)) <==>
              OnBoundary(sizes, n) || (sizes != [] && n < sizes[0]) || Sum(sizes) == 0
  {
    hide OnBoundary, Total, Proper;
    if i: nat :| AtEnd(sizes, n, i) && sizes' == sizes[i..] {
      CutAtEndSums(sizes, n, i);
    } else if i: nat :| Inside(sizes, n, i) && sizes' == sizes[i := Total(sizes, i + 1) - n] {
      CutInsideSums(sizes, n, i);
    } else {
      NotBeyond(sizes, n);
    }
  }

  lemma CutAtEndSums(sizes: seq<nat>, n: nat, i: nat)
    requires AtEnd(sizes, n, i)
    ensures OnBoundary(sizes, n) && n <= Sum(sizes) && Sum(sizes[i..]) == Sum(sizes) - n
  {
    hide Total;
    TotalDrop(sizes, i, |sizes| - i);
    TotalMonotone(sizes, i, |sizes|);
  }

  lemma CutInsideSums(sizes: seq<nat>, n: nat, i: nat)
    requires Inside(sizes, n, i) && Proper(sizes)
    ensures !OnBoundary(sizes, n) && n <= Sum(sizes) && Total(sizes, i) < n < Total(sizes, i + 1)
    ensures Sum(sizes[i := Total(sizes, i + 1) - n]) == Sum(sizes) - n + Total(sizes, i)
    ensures Total(sizes, i) == 0 <==> n < sizes[0]
  {
    hide Total;
    TotalMonotone(sizes, i + 1, |sizes|);
    TotalUpdate(sizes, i, Total(sizes, i + 1) - n, |sizes|);
    NotOnBoundary(sizes, n, i);
    TotalStep(sizes, i);
    TotalNone(sizes);
    TotalStep(sizes, 0);
    if i > 0 {
      TotalMonotone(sizes, 1, i);
    }
  }

  /** For instance: of two segments of 3 bytes, an acknowledgment of 4 leaves sizes 3 and 2 for the
      2 bytes still in flight. */
  lemma StaleSizesExample()
    ensures CutSizes([3, 3], 4, [3, 2]) && Sum([3, 2]) == 5
  {
    assert Total([3, 3], 1) == 3 && Total([3, 3], 2) == 6;
    assert Inside([3, 3], 4, 1);
    assert [3, 3][1 := Total([3, 3], 2) - 4] == [3, 2];
    assert Total([3, 2], 1) == 3;
  }

  lemma NotOnBoundary(sizes: seq<nat>, n: nat, i: nat)
    requires Inside(sizes, n, i)
    ensures !OnBoundary(sizes, n)
  {
    forall j: nat | j <= |sizes|
      ensures Total(sizes, j) != n
    {
      if j <= i {
        TotalMonotone(sizes, j, i);
      } else {
        TotalMonotone(sizes, i + 1, j);
      }
    }
  }

  lemma NotBeyond(sizes: seq<nat>, n: nat)
    requires Sum(sizes) < n
    ensures !OnBoundary(sizes, n)
    ensures sizes != [] ==> sizes[0] <= n
  {
    forall j: nat | j <= |sizes|
      ensures Total(sizes, j) != n
    {
      TotalMonotone(sizes, j, |sizes|);
    }
    if sizes != [] {
      TotalMonotone(sizes, 1, |sizes|);
      assert Total(sizes, 1) == sizes[0];
    }
  }
}
