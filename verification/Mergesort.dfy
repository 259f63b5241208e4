/** Sorting as the sequential code of the distributed merge sort does it, in place on one array. */
module Mergesort {
  import opened Blocks

  /** The element type of the program, a signed byte. */
  newtype Int8 = x: int | -128 <= x < 128

  ghost predicate Sorted(s: seq<Int8>) {
    forall i, j :: 0 <= i < j < |s| ==> s[i] <= s[j]
  }

  function Merge(a: seq<Int8>, b: seq<Int8>): (r: seq<Int8>)
    ensures |r| == |a| + |b|
  {
    if a == [] then b
    else if b == [] then a
    else if a[0] <= b[0] then [a[0]] + Merge(a[1..], b)
    else [b[0]] + Merge(a, b[1..])
  }

  /** The midpoint is that of the inclusive bounds 0 and |s| - 1. */
  function MergeSorted(s: seq<Int8>): (r: seq<Int8>)
    ensures |r| == |s|
    decreases |s|
  {
    if |s| <= 1 then s
    else
      var m := (|s| - 1) / 2 + 1;
      Merge(MergeSorted(s[..m]), MergeSorted(s[m..]))
  }

  // ---------------------------------------------------------------- the sort is right

  lemma CountedFirst(s: seq<Int8>)
    requires s != []
    ensures multiset(s) == multiset{s[0]} + multiset(s[1..])
  {
    assert s == [s[0]] + s[1..];
  }

  lemma {:induction false} MergePermutes(a: seq<Int8>, b: seq<Int8>)
    ensures multiset(Merge(a, b)) == multiset(a) + multiset(b)
  {
    if a != [] && b != [] {
      var m := Merge(a, b);
      CountedFirst(m);
      if a[0] <= b[0] {
        assert m[0] == a[0] && m[1..] == Merge(a[1..], b);
        MergePermutes(a[1..], b);
        CountedFirst(a);
      } else {
        assert m[0] == b[0] && m[1..] == Merge(a, b[1..]);
        MergePermutes(a, b[1..]);
        CountedFirst(b);
      }
    }
  }

  /** Everything in a merge comes from one of its two halves. */
  lemma MergedFrom(a: seq<Int8>, b: seq<Int8>, i: nat)
    requires i < |Merge(a, b)|
    ensures Merge(a, b)[i] in a || Merge(a, b)[i] in b
  {
    MergePermutes(a, b);
    var m := Merge(a, b);
    assert m[i] in multiset(m);
  }

  lemma {:induction false} MergeSorts(a: seq<Int8>, b: seq<Int8>)
    requires Sorted(a) && Sorted(b)
    ensures Sorted(Merge(a, b))
  {
    if a != [] && b != [] {
      var first, a', b' := if a[0] <= b[0] then a[0] else b[0],
        if a[0] <= b[0] then a[1..] else a, if a[0] <= b[0] then b else b[1..];
      MergeSorts(a', b');
      var rest := Merge(a', b');
      hide Merge;
      forall i | 0 <= i < |rest|
        ensures first <= rest[i]
      {
        MergedFrom(a', b', i);
      }
    }
  }

  lemma {:induction false} MergeSortedSorts(s: seq<Int8>)
    ensures Sorted(MergeSorted(s)) && multiset(MergeSorted(s)) == multiset(s)
    decreases |s|
  {
    if |s| > 1 {
      var m := (|s| - 1) / 2 + 1;
      var l, r := s[..m], s[m..];
      assert MergeSorted(s) == Merge(MergeSorted(l), MergeSorted(r));
      hide Merge, MergeSorted, Sorted;
      MergeSortedSorts(l);
      MergeSortedSorts(r);
      MergeSorts(MergeSorted(l), MergeSorted(r));
      MergePermutes(MergeSorted(l), MergeSorted(r));
      CountedParts(s, m);
    }
  }

  lemma CountedParts(s: seq<Int8>, m: nat)
    requires m <= |s|
    ensures multiset(s) == multiset(s[..m]) + multiset(s[m..])
  {
    assert s == s[..m] + s[m..];
  }

  // ---------------------------------------------------------------- in place

  /** What is still to be merged. */
  function Rest(a: seq<Int8>, b: seq<Int8>, i: nat, j: nat): seq<Int8>
    requires i <= |a| && j <= |b|
  {
    Merge(a[i..], b[j..])
  }

  /** The merge is what was written followed by what is still to be merged. */
  ghost predicate Written(a: seq<Int8>, b: seq<Int8>, i: nat, j: nat, out: seq<Int8>) {
    i <= |a| && j <= |b| && |out| == i + j && Merge(a, b) == out + Rest(a, b, i, j)
  }

  /** The array while `a` and `b` are merged into it, when i and j elements have been taken. */
  ghost predicate Merging(now: seq<Int8>, was: seq<Int8>, left: nat, a: seq<Int8>, b: seq<Int8>, i: nat, j: nat) {
    && i <= |a| && j <= |b| && left + |a| + |b| <= |was|
    && Written(a, b, i, j, Merge(a, b)[..i + j])
    && now == Spliced(was, left, Merge(a, b)[..i + j])
  }

  lemma MergingEnds(now: seq<Int8>, was: seq<Int8>, left: nat, a: seq<Int8>, b: seq<Int8>)
    requires left + |a| + |b| <= |was|
    ensures Merging(was, was, left, a, b, 0, 0)
    ensures Merging(now, was, left, a, b, |a|, |b|) ==> now == Spliced(was, left, Merge(a, b))
  {
    assert Rest(a, b, 0, 0) == Merge(a, b);
    assert Merge(a, b)[..|a| + |b|] == Merge(a, b);
  }

  lemma WrittenNext(m: seq<Int8>, n: nat, x: Int8, rest: seq<Int8>)
    requires n <= |m| && m == m[..n] + ([x] + rest)
    ensures n < |m| && m[..n + 1] == m[..n] + [x] && m == m[..n + 1] + rest
  {
    assert m[n] == x;
  }

  lemma TakeLeft(now: seq<Int8>, was: seq<Int8>, left: nat, a: seq<Int8>, b: seq<Int8>, i: nat, j: nat)
    requires Merging(now, was, left, a, b, i, j)
    requires i < |a| && (j < |b| ==> a[i] <= b[j])
    ensures left + i + j < |now| && Merging(now[left + i + j := a[i]], was, left, a, b, i + 1, j)
  {
    assert a[i..][1..] == a[i + 1..];
    assert Rest(a, b, i, j) == [a[i]] + Rest(a, b, i + 1, j);
    hide Merge, Rest, Spliced;
    WrittenNext(Merge(a, b), i + j, a[i], Rest(a, b, i + 1, j));
    SpliceNext(was, left, Merge(a, b)[..i + j], a[i]);
  }

  lemma TakeRight(now: seq<Int8>, was: seq<Int8>, left: nat, a: seq<Int8>, b: seq<Int8>, i: nat, j: nat)
    requires Merging(now, was, left, a, b, i, j)
    requires j < |b| && (i < |a| ==> a[i] > b[j])
    ensures left + i + j < |now| && Merging(now[left + i + j := b[j]], was, left, a, b, i, j + 1)
  {
    assert b[j..][1..] == b[j + 1..];
    assert Rest(a, b, i, j) == [b[j]] + Rest(a, b, i, j + 1);
    hide Merge, Rest, Spliced;
    WrittenNext(Merge(a, b), i + j, b[j], Rest(a, b, i, j + 1));
    SpliceNext(was, left, Merge(a, b)[..i + j], b[j]);
  }

  method Stretch(arr: array<Int8>, from: nat, n: nat) returns (c: array<Int8>)
    requires from + n <= arr.Length
    ensures fresh(c) && c[..] == arr[from..from + n]
  {
    c := new Int8[n];
    for i := 0 to n
      invariant c[..i] == arr[from..from + i]
    {
      c[i] := arr[from + i];
    }
  }

  /** Merge the adjacent stretches left..mid and mid+1..right, bounds included. */
  method MergeInPlace(arr: array<Int8>, left: int, mid: int, right: int)
    requires 0 <= left <= mid + 1 <= right + 1 <= arr.Length
    modifies arr
    ensures arr[..] == Spliced(old(arr[..]), left, Merge(old(arr[left..mid + 1]), old(arr[mid + 1..right + 1])))
  {
    hide Merge, Merging, Spliced;
    var n1 := mid - left + 1;
    var n2 := right - mid;
    var lower := Stretch(arr, left, n1);
    var upper := Stretch(arr, mid + 1, n2);
    ghost var a, b, was := lower[..], upper[..], arr[..];
    var i, j, k := 0, 0, left;
    MergingEnds(was, was, left, a, b);
    while i < n1 && j < n2
      invariant 0 <= i <= n1 && 0 <= j <= n2 && k == left + i + j
      invariant lower[..] == a && upper[..] == b && Merging(arr[..], was, left, a, b, i, j)
    {
      ghost var now := arr[..];
      if lower[i] <= upper[j] {
        TakeLeft(now, was, left, a, b, i, j);
        arr[k] := lower[i];
        i := i + 1;
      } else {
        TakeRight(now, was, left, a, b, i, j);
        arr[k] := upper[j];
        j := j + 1;
      }
      assert arr[..] == now[k := arr[k]];
      k := k + 1;
    }
    while i < n1
      invariant 0 <= i <= n1 && 0 <= j <= n2 && k == left + i + j && (i < n1 ==> j == n2)
      invariant lower[..] == a && upper[..] == b && Merging(arr[..], was, left, a, b, i, j)
    {
      ghost var now := arr[..];
      TakeLeft(now, was, left, a, b, i, j);
      arr[k] := lower[i];
      assert arr[..] == now[k := arr[k]];
      i := i + 1;
      k := k + 1;
    }
    while j < n2
      invariant i == n1 && 0 <= j <= n2 && k == left + i + j
      invariant lower[..] == a && upper[..] == b && Merging(arr[..], was, left, a, b, i, j)
    {
      ghost var now := arr[..];
      TakeRight(now, was, left, a, b, i, j);
      arr[k] := upper[j];
      assert arr[..] == now[k := arr[k]];
      j := j + 1;
      k := k + 1;
    }
    MergingEnds(arr[..], was, left, a, b);
  }

  // ---------------------------------------------------------------- the recursive sort

  /** The array with left..right sorted. */
  ghost function SortedStretch(s: seq<Int8>, left: nat, n: nat): (r: seq<Int8>)
    requires left + n <= |s|
    ensures |r| == |s|
  {
    Spliced(s, left, MergeSorted(s[left..left + n]))
  }

  lemma MergeSortedHalves(t: seq<Int8>, m: nat)
    requires 1 < |t| && m == (|t| - 1) / 2 + 1
    ensures MergeSorted(t) == Merge(MergeSorted(t[..m]), MergeSorted(t[m..]))
  {
  }

  lemma SortedHalves(s: seq<Int8>, left: nat, m: nat, n: nat)
    requires 1 < n && m == (n - 1) / 2 + 1 && left + n <= |s|
    ensures var s2 := SortedStretch(SortedStretch(s, left, m), left + m, n - m);
      Spliced(s2, left, Merge(s2[left..left + m], s2[left + m..left + n])) == SortedStretch(s, left, n)
  {
    hide Merge, MergeSorted, Spliced;
    var t := s[left..left + n];
    assert t[..m] == s[left..left + m] && t[m..] == s[left + m..left + n];
    var x, y := MergeSorted(t[..m]), MergeSorted(t[m..]);
    SplicedAfter(s, left, x, left + m, left + n);
    SplicedTwice(s, left, x, y);
    SplicedParts(s, left, x, y);
    SplicedOver(s, left, x + y, Merge(x, y));
    MergeSortedHalves(t, m);
  }

  /** Sort the stretch left..right, bounds included, and nothing else. */
  method MergeSort(arr: array<Int8>, left: int, right: int)
    requires 0 <= left <= right + 1 <= arr.Length
    modifies arr
    ensures arr[..] == SortedStretch(old(arr[..]), left, right + 1 - left)
    decreases right - left
  {
    hide Merge, MergeSorted, Spliced;
    if left < right {
      var mid := left + (right - left) / 2;
      MergeSort(arr, left, mid);
      MergeSort(arr, mid + 1, right);
      MergeInPlace(arr, left, mid, right);
      SortedHalves(old(arr[..]), left, mid + 1 - left, right + 1 - left);
    } else {
      ShortStretch(arr[..], left, right + 1 - left);
    }
  }

  lemma ShortStretch(s: seq<Int8>, left: nat, n: nat)
    requires n <= 1 && left + n <= |s|
    ensures SortedStretch(s, left, n) == s
  {
  }
}
