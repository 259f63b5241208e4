/** A buffer of `size` blocks of `n` elements, one for each rank. */
module Blocks {
  import opened Bytes
  import Modular

  lemma {:induction false} BlockFits(i: nat, n: nat, size: nat)
    requires i < size
    ensures 0 <= i * n <= i * n + n <= size * n
  {
    if i + 1 < size {
      BlockFits(i, n, size - 1);
      assert size * n == (size - 1) * n + n;
    } else {
      assert size * n == i * n + n;
    }
  }

  function Block<T>(s: seq<T>, size: nat, n: nat, i: nat): (r: seq<T>)
    requires |s| == size * n && i < size
    ensures |r| == n
  {
    BlockFits(i, n, size);
    s[i * n..i * n + n]
  }

  /** Gathering puts every block in its place. */
  lemma ConcatBlock<T>(blocks: seq<seq<T>>, n: nat, i: nat)
    requires forall r :: 0 <= r < |blocks| ==> |blocks[r]| == n
    requires i < |blocks|
    ensures |Concat(blocks)| == |blocks| * n && Block(Concat(blocks), |blocks|, n, i) == blocks[i]
  {
    ConcatLength(blocks, n);
    BlockFits(i, n, |blocks|);
    var b := Block(Concat(blocks), |blocks|, n, i);
    forall j: nat | j < n
      ensures b[j] == blocks[i][j]
    {
      ConcatAt(blocks, n, i, j);
    }
  }

  /** A buffer is known from its blocks. */
  lemma SameBlocks<T>(s: seq<T>, t: seq<T>, size: nat, n: nat)
    requires |s| == size * n && |t| == size * n
    requires forall i: nat :: i < size ==> Block(s, size, n, i) == Block(t, size, n, i)
    ensures s == t
  {
    hide Block;
    forall k: nat | k < |s|
      ensures s[k] == t[k]
    {
      Located(k, n, size);
      BlockElement(s, size, n, k);
      BlockElement(t, size, n, k);
    }
  }

  lemma BlockElement<T>(s: seq<T>, size: nat, n: nat, k: nat)
    requires |s| == size * n && k < size * n
    ensures n > 0 && k / n < size && s[k] == Block(s, size, n, k / n)[k % n]
  {
    Located(k, n, size);
    BlockFits(k / n, n, size);
  }

  lemma Located(k: nat, n: nat, size: nat)
    requires k < size * n
    ensures n > 0 && k / n < size && k % n < n && k == (k / n) * n + k % n
  {
    Modular.Unfold(k, n);
    if k / n >= size {
      BlockFits(size - 1, n, k / n);
    }
  }

  // ---------------------------------------------------------------- blocks within blocks

  lemma SubSlice<T>(s: seq<T>, from: nat, n: nat, lo: nat, hi: nat)
    requires from + n <= |s| && lo <= hi <= n
    ensures s[from..from + n][lo..hi] == s[from + lo..from + hi]
  {
    var l, r := s[from..from + n][lo..hi], s[from + lo..from + hi];
    assert |l| == |r| && forall k :: 0 <= k < |l| ==> l[k] == r[k];
  }

  lemma Assoc(x: nat, y: nat, z: nat)
    ensures (x * y) * z == x * (y * z)
  {
  }

  lemma NestedOffset(size: nat, rows: nat, n: nat, i: nat, r: nat)
    requires i < size && r < rows
    ensures 0 <= i * rows + r < size * rows
    ensures (i * rows + r) * n == i * (rows * n) + r * n
    ensures size * (rows * n) == (size * rows) * n
  {
    BlockFits(i, rows, size);
    Assoc(size, rows, n);
    Assoc(i, rows, n);
    Distribute(i * rows, r, n);
  }

  lemma Distribute(x: nat, y: nat, z: nat)
    ensures (x + y) * z == x * z + y * z
  {
  }

  lemma BlockIs<T>(s: seq<T>, size: nat, n: nat, i: nat)
    requires |s| == size * n && i < size
    ensures 0 <= i * n <= i * n + n <= |s| && Block(s, size, n, i) == s[i * n..i * n + n]
  {
    BlockFits(i, n, size);
  }

  lemma InnerBlock<T>(s: seq<T>, size: nat, m: nat, i: nat, rows: nat, n: nat, r: nat)
    requires |s| == size * m && i < size && m == rows * n && r < rows
    ensures 0 <= i * m + r * n <= i * m + r * n + n <= |s|
    ensures Block(Block(s, size, m, i), rows, n, r) == s[i * m + r * n..i * m + r * n + n]
  {
    hide Block;
    BlockIs(s, size, m, i);
    BlockIs(Block(s, size, m, i), rows, n, r);
    SubSlice(s, i * m, m, r * n, r * n + n);
  }

  lemma NestedBlock<T>(s: seq<T>, size: nat, rows: nat, n: nat, i: nat, r: nat)
    requires |s| == size * (rows * n) && i < size && r < rows
    ensures |s| == (size * rows) * n && 0 <= i * rows + r < size * rows
    ensures Block(Block(s, size, rows * n, i), rows, n, r) == Block(s, size * rows, n, i * rows + r)
  {
    hide Block;
    NestedOffset(size, rows, n, i, r);
    InnerBlock(s, size, rows * n, i, rows, n, r);
    BlockIs(s, size * rows, n, i * rows + r);
  }

  // ---------------------------------------------------------------- replaced stretches

  /** `was` with the stretch from `left` on replaced. */
  function Spliced<T>(was: seq<T>, left: nat, out: seq<T>): (r: seq<T>)
    requires left + |out| <= |was|
    ensures |r| == |was|
  {
    was[..left] + out + was[left + |out|..]
  }

  lemma SplicedNone<T>(was: seq<T>, p: nat)
    requires p <= |was|
    ensures was == Spliced(was, p, [])
  {
  }

  lemma SpliceNext<T>(was: seq<T>, left: nat, out: seq<T>, x: T)
    requires left + |out| < |was|
    ensures Spliced(was, left, out)[left + |out| := x] == Spliced(was, left, out + [x])
  {
  }

  lemma SplicedAfter<T>(s: seq<T>, left: nat, out: seq<T>, from: nat, to: nat)
    requires left + |out| <= from <= to <= |s|
    ensures Spliced(s, left, out)[from..to] == s[from..to]
  {
  }

  lemma SplicedBefore<T>(s: seq<T>, left: nat, out: seq<T>, from: nat, to: nat)
    requires left + |out| <= |s| && from <= to <= left
    ensures Spliced(s, left, out)[from..to] == s[from..to]
  {
  }

  lemma SplicedThere<T>(s: seq<T>, left: nat, out: seq<T>)
    requires left + |out| <= |s|
    ensures Spliced(s, left, out)[left..left + |out|] == out
  {
  }

  lemma SplicedTwice<T>(s: seq<T>, left: nat, x: seq<T>, y: seq<T>)
    requires left + |x| + |y| <= |s|
    ensures Spliced(Spliced(s, left, x), left + |x|, y) == Spliced(s, left, x + y)
  {
  }

  lemma SplicedParts<T>(s: seq<T>, left: nat, x: seq<T>, y: seq<T>)
    requires left + |x| + |y| <= |s|
    ensures var t := Spliced(s, left, x + y);
      t[left..left + |x|] == x && t[left + |x|..left + |x| + |y|] == y
  {
  }

  lemma SplicedOver<T>(s: seq<T>, left: nat, x: seq<T>, y: seq<T>)
    requires left + |x| <= |s| && |x| == |y|
    ensures Spliced(Spliced(s, left, x), left, y) == Spliced(s, left, y)
  {
  }

  lemma SplicedAll<T>(s: seq<T>, out: seq<T>)
    requires |out| == |s|
    ensures Spliced(s, 0, out) == out
  {
  }
}
