/** Programs of collectives with root 0: what each rank receives, as facts about blocks. */
module Spmd {
  import opened Bytes
  import opened Blocks
  import opened Fmpi
  import opened FmpiSafety

  /** The bytes of a buffer, and zeros after it. */
  function ByteAt(s: seq<byte>, off: nat): byte {
    if off < |s| then s[off] else 0
  }

  lemma SliceOf(prog: Program, rank: nat, log: Log, from: nat, n: nat, bytes: seq<byte>)
    requires forall off: nat :: prog.data(rank, log, off) == ByteAt(bytes, off)
    requires from + n <= |bytes|
    ensures Slice(prog, rank, log, from, n) == bytes[from..from + n]
  {
  }

  /** The log of a completed program holds the results of its collectives. */
  lemma {:induction false} LogAt(prog: Program, rank: nat, m: nat, k: nat)
    requires k < m <= |prog.ops|
    ensures LogOf(prog, rank, m)[k] == Result(prog, rank, k)
  {
    hide Result;
    if k < m - 1 {
      LogAt(prog, rank, m - 1, k);
    }
  }

  lemma FirstLogs(prog: Program, rank: nat)
    requires 1 <= |prog.ops|
    ensures LogOf(prog, rank, 0) == []
    ensures LogOf(prog, rank, 1) == [Result(prog, rank, 0)]
  {
    hide Result;
  }

  /** The root's buffer after a gather, block by block. */
  lemma GatheredBlocks(prog: Program, k: nat, i: nat)
    requires prog.root == 0 && k < |prog.ops| && prog.ops[k].Gather? && i < prog.size
    ensures var n := prog.ops[k].n;
      && |Result(prog, 0, k)| == prog.size * n
      && Block(Result(prog, 0, k), prog.size, n, i) == Slice(prog, i, LogOf(prog, i, k), 0, n)
  {
    hide Block, Concat;
    var n := prog.ops[k].n;
    var blocks := seq(prog.size, r requires 0 <= r < prog.size => GatheredBlock(prog, k, n, r));
    assert Result(prog, 0, k) == Concat(blocks);
    ConcatBlock(blocks, n, i);
  }

  /** In every reachable state of every run, what the root has received from collective `k` is the result of
      the atomic one. */
  lemma RootReceives(prog: Program, jitter: nat, start: nat, run: seq<State>, acts: seq<Action>, t: nat, k: nat)
    requires prog.Valid() && DELAY_MS + jitter <= TIMEOUT_MS
    requires IsRun(prog, jitter, start, run, acts) && t <= |acts| && k < |run[t].root.log|
    ensures k < |prog.ops| && run[t].root.log[k] == Result(prog, prog.root, k)
  {
    hide Result, Inv, Enabled, Apply, Init;
    RunAgreesWithAtomic(prog, jitter, start, run, acts, t);
    LogAt(prog, prog.root, |run[t].root.log|, k);
  }
}
