/** The distributed merge sort: scatter, sort each block, gather, and merge the blocks at the root. */
module SortProgram {
  import opened Blocks
  import opened Bytes
  import opened Fmpi
  import opened Mergesort
  import Spmd

  // ---------------------------------------------------------------- elements as bytes

  function ToByte(x: Int8): byte {
    if x < 0 then (x as int + 256) as byte else x as byte
  }

  function FromByte(b: byte): Int8 {
    if b < 128 then b as Int8 else (b as int - 256) as Int8
  }

  function Encode(s: seq<Int8>): (r: seq<byte>)
    ensures |r| == |s|
  {
    seq(|s|, i requires 0 <= i < |s| => ToByte(s[i]))
  }

  function Decode(s: seq<byte>): (r: seq<Int8>)
    ensures |r| == |s|
  {
    seq(|s|, i requires 0 <= i < |s| => FromByte(s[i]))
  }

  lemma EncodeRoundTrip(s: seq<Int8>)
    ensures Decode(Encode(s)) == s
    ensures forall i :: 0 <= i < |s| ==> (Encode(s)[i] as int - s[i] as int) % 256 == 0
  {
    assert forall i :: 0 <= i < |s| ==> FromByte(ToByte(s[i])) == s[i];
  }

  // ---------------------------------------------------------------- the program

  /** `arr` is the root's array; every rank has `n` elements of it to sort. What a rank passes to the gather
      is its block after the local sort. */
  function Sorting(arr: seq<Int8>, size: nat, n: nat): Program {
    Program(size, 0, [Scatter(n), Gather(n)],
            (rank: nat, log: Log, off: nat) => SortData(arr, log, off),
            (log: Log, block: nat, off: nat) => Spmd.ByteAt(Encode(arr), block * n + off))
  }

  function SortData(arr: seq<Int8>, log: Log, off: nat): byte {
    if log == [] then Spmd.ByteAt(Encode(arr), off)
    else Spmd.ByteAt(Encode(MergeSorted(Decode(log[0]))), off)
  }

  /** Each rank is scattered its block, and gathers it back sorted. */
  lemma BlockSorted(arr: seq<Int8>, size: nat, n: nat, i: nat)
    requires |arr| == size * n && i < size
    ensures var prog := Sorting(arr, size, n);
      && Result(prog, i, 0) == Encode(Block(arr, size, n, i))
      && Slice(prog, i, LogOf(prog, i, 1), 0, n) == Encode(MergeSorted(Block(arr, size, n, i)))
  {
    hide MergeSorted, Encode, Decode, GatheredBlock;
    var prog := Sorting(arr, size, n);
    BlockFits(i, n, size);
    Spmd.SliceOf(prog, 0, [], i * n, n, Encode(arr));
    Spmd.FirstLogs(prog, i);
    Spmd.FirstLogs(prog, 0);
    var mine := Block(arr, size, n, i);
    EncodeBlock(arr, size, n, i);
    assert prog.ops[0] == Scatter(n);
    EncodeRoundTrip(mine);
    Spmd.SliceOf(prog, i, LogOf(prog, i, 1), 0, n, Encode(MergeSorted(mine)));
  }

  /** The root's array after the gather holds every block sorted. */
  lemma GatheredSorted(arr: seq<Int8>, size: nat, n: nat)
    requires |arr| == size * n && size > 0
    ensures var g := Decode(Result(Sorting(arr, size, n), 0, 1));
      && |g| == size * n
      && forall i: nat :: i < size ==> Block(g, size, n, i) == MergeSorted(Block(arr, size, n, i))
  {
    hide Result, LogOf, Slice, Block, Decode, Encode, MergeSorted, SortData, Spmd.ByteAt;
    var prog := Sorting(arr, size, n);
    var r := Result(prog, 0, 1);
    Spmd.GatheredBlocks(prog, 1, 0);
    forall i: nat | i < size
      ensures Block(Decode(r), size, n, i) == MergeSorted(Block(arr, size, n, i))
    {
      Spmd.GatheredBlocks(prog, 1, i);
      BlockSorted(arr, size, n, i);
      DecodeBlock(r, size, n, i);
      EncodeRoundTrip(MergeSorted(Block(arr, size, n, i)));
    }
  }

  lemma DecodeBlock(r: seq<byte>, size: nat, n: nat, i: nat)
    requires |r| == size * n && i < size
    ensures Block(Decode(r), size, n, i) == Decode(Block(r, size, n, i))
  {
    hide FromByte;
    BlockFits(i, n, size);
  }

  lemma EncodeBlock(s: seq<Int8>, size: nat, n: nat, i: nat)
    requires |s| == size * n && i < size
    ensures Block(Encode(s), size, n, i) == Encode(Block(s, size, n, i))
  {
    hide ToByte;
    BlockFits(i, n, size);
  }

  // ---------------------------------------------------------------- the root's merges

  /** The first `i` blocks merged, one after the other. */
  function PrefixMerge(s: seq<Int8>, size: nat, n: nat, i: nat): (r: seq<Int8>)
    requires |s| == size * n && i <= size
    ensures |r| == i * n
  {
    if i == 0 then []
    else
      Next(i - 1, n);
      Merge(PrefixMerge(s, size, n, i - 1), Block(s, size, n, i - 1))
  }

  lemma Next(i: nat, n: nat)
    ensures (i + 1) * n == i * n + n
  {
  }

  /** If every block of `g` is the sorted block of `s`, the merges sort `s`. */
  lemma {:induction false} PrefixMergeSorts(s: seq<Int8>, g: seq<Int8>, size: nat, n: nat, i: nat)
    requires |s| == size * n && |g| == size * n && i <= size
    requires forall j: nat :: j < size ==> Block(g, size, n, j) == MergeSorted(Block(s, size, n, j))
    ensures 0 <= i * n <= |s|
    ensures Sorted(PrefixMerge(g, size, n, i))
    ensures multiset(PrefixMerge(g, size, n, i)) == multiset(s[..i * n])
  {
    hide Merge, MergeSorted, Sorted;
    if i == 0 {
      EmptySorted();
    } else {
      PrefixMergeSorts(s, g, size, n, i - 1);
      BlockFits(i - 1, n, size);
      Next(i - 1, n);
      var mine := Block(s, size, n, i - 1);
      MergeSortedSorts(mine);
      MergeSorts(PrefixMerge(g, size, n, i - 1), MergeSorted(mine));
      MergePermutes(PrefixMerge(g, size, n, i - 1), MergeSorted(mine));
      assert s[..i * n] == s[..(i - 1) * n] + mine;
    }
  }

  lemma EmptySorted()
    ensures Sorted([])
  {
  }

  /** The root's loop. */
  method RootMerges(arr: array<Int8>, size: nat, n: nat)
    requires arr.Length == size * n && size > 0
    modifies arr
    ensures arr[..] == PrefixMerge(old(arr[..]), size, n, size)
  {
    hide Merge, Block, PrefixMerge, Spliced;
    ghost var s := arr[..];
    FirstMerge(s, size, n);
    for i := 1 to size
      invariant 0 <= i * n <= |s| == arr.Length
      invariant arr[..] == Spliced(s, 0, PrefixMerge(s, size, n, i))
    {
      BlockFits(i, n, size);
      Next(i, n);
      var mid := i * n - 1;
      NextMerge(s, size, n, i);
      MergeInPlace(arr, 0, mid, (i + 1) * n - 1);
    }
    SplicedAll(s, PrefixMerge(s, size, n, size));
  }

  lemma FirstMerge(s: seq<Int8>, size: nat, n: nat)
    requires |s| == size * n && size > 0
    ensures 0 <= 1 * n <= |s| && s == Spliced(s, 0, PrefixMerge(s, size, n, 1))
  {
    BlockFits(0, n, size);
    assert PrefixMerge(s, size, n, 0) == [];
  }

  lemma NextMerge(s: seq<Int8>, size: nat, n: nat, i: nat)
    requires |s| == size * n && 0 < i < size
    ensures 0 <= i * n <= i * n + n == (i + 1) * n <= |s|
    ensures var t := Spliced(s, 0, PrefixMerge(s, size, n, i));
      Spliced(t, 0, Merge(t[0..i * n], t[i * n..(i + 1) * n])) == Spliced(s, 0, PrefixMerge(s, size, n, i + 1))
  {
    hide Merge;
    BlockFits(i, n, size);
    Next(i, n);
    var done, t := PrefixMerge(s, size, n, i), Spliced(s, 0, PrefixMerge(s, size, n, i));
    assert t[0..i * n] == done && t[i * n..(i + 1) * n] == Block(s, size, n, i);
  }

  // ---------------------------------------------------------------- the whole program

  /** What the root ends with, given what the gather left in its array. */
  ghost predicate SortsAtRoot(arr: seq<Int8>, size: nat, n: nat, gathered: seq<byte>) {
    && |gathered| == size * n
    && var out := PrefixMerge(Decode(gathered), size, n, size);
       Sorted(out) && multiset(out) == multiset(arr)
  }

  lemma AtomicSorts(arr: seq<Int8>, size: nat, n: nat)
    requires |arr| == size * n && size > 0
    ensures SortsAtRoot(arr, size, n, Result(Sorting(arr, size, n), 0, 1))
  {
    GatheredSorted(arr, size, n);
    PrefixMergeSorts(arr, Decode(Result(Sorting(arr, size, n), 0, 1)), size, n, size);
    assert arr[..size * n] == arr;
  }

  /** Under every schedule, once the root is through the gather its merges leave the array sorted. */
  lemma EveryRunSorts(arr: seq<Int8>, size: nat, n: nat,
                      jitter: nat, start: nat, run: seq<State>, acts: seq<Action>, t: nat)
    requires |arr| == size * n && size > 0 && DELAY_MS + jitter <= TIMEOUT_MS
    requires IsRun(Sorting(arr, size, n), jitter, start, run, acts) && t <= |acts|
    requires |run[t].root.log| >= 2
    ensures SortsAtRoot(arr, size, n, run[t].root.log[1])
  {
    hide Result, IsRun, SortsAtRoot;
    AtomicSorts(arr, size, n);
    Spmd.RootReceives(Sorting(arr, size, n), jitter, start, run, acts, t, 1);
  }
}
