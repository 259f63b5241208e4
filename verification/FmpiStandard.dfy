/** The atomic collectives against sections 5.4 to 5.6 of MPI-3.1. */
module FmpiStandard {
  import opened Bytes
  import opened Fmpi

  /** Section 5.6: rank i receives block i of the root's buffer. */
  ghost function MpiScatter(prog: Program, rank: nat, k: nat): seq<byte>
    requires k < |prog.ops| && prog.ops[k].Scatter?
  {
    Slice(prog, prog.root, LogOf(prog, prog.root, k), rank * prog.ops[k].n, prog.ops[k].n)
  }

  /** Section 5.5: the root receives the blocks of all ranks in rank order. */
  ghost function MpiGather(prog: Program, k: nat): seq<byte>
    requires k < |prog.ops| && prog.ops[k].Gather?
  {
    var n := prog.ops[k].n;
    Concat(seq(prog.size, i requires 0 <= i < prog.size => Slice(prog, i, LogOf(prog, i, k), 0, n)))
  }

  /** A scatter of `n` bytes per rank is the standard's for every program with this size and root. */
  ghost predicate ScatterConforms(size: nat, root: nat, n: nat) {
    forall prog: Program, rank: nat, k: nat ::
      prog.size == size && prog.root == root && rank < size && k < |prog.ops| && prog.ops[k] == Scatter(n) ==>
        Result(prog, rank, k) == MpiScatter(prog, rank, k)
  }

  ghost predicate GatherConforms(size: nat, root: nat, n: nat) {
    forall prog: Program, k: nat ::
      prog.size == size && prog.root == root && k < |prog.ops| && prog.ops[k] == Gather(n) ==>
        Result(prog, root, k) == MpiGather(prog, k)
  }

  /** The root copies its own block from offset 0, so scatter conforms exactly when the root is rank 0. */
  lemma ScatterConformsIff(size: nat, root: nat, n: nat)
    requires root < size
    ensures ScatterConforms(size, root, n) <==> root == 0 || n == 0
  {
    if root == 0 || n == 0 {
    } else {
      var prog := Program(size, root, [Scatter(n)], (rank, log, off) => if off < n then 0 else 1, (log, i, off) => 0);
      assert root * n >= n;
      assert prog.ops[0] == Scatter(n);
      assert Result(prog, root, 0)[0] == 0;
      assert MpiScatter(prog, root, 0)[0] == 1;
    }
  }

  lemma GatherMeets(prog: Program, k: nat)
    requires prog.root < prog.size && k < |prog.ops| && prog.ops[k].Gather?
    requires prog.root == 0 || prog.ops[k].n == 0
    ensures Result(prog, prog.root, k) == MpiGather(prog, k)
  {
    var n := prog.ops[k].n;
    assert seq(prog.size, i requires 0 <= i < prog.size => GatheredBlock(prog, k, n, i))
        == seq(prog.size, i requires 0 <= i < prog.size => Slice(prog, i, LogOf(prog, i, k), 0, n));
  }

  /** The root copies its own block to offset 0, over the block of rank 0, so gather conforms exactly
      when the root is rank 0. */
  lemma GatherConformsIff(size: nat, root: nat, n: nat)
    requires root < size
    ensures GatherConforms(size, root, n) <==> root == 0 || n == 0
  {
    if root == 0 || n == 0 {
      forall prog: Program, k: nat
        | prog.size == size && prog.root == root && k < |prog.ops| && prog.ops[k] == Gather(n)
        ensures Result(prog, root, k) == MpiGather(prog, k)
      {
        GatherMeets(prog, k);
      }
    } else {
      var prog := Program(size, root, [Gather(n)], (rank, log, off) => if rank == 0 then 0 else 1, (log, i, off) => 0);
      assert prog.ops[0] == Gather(n);
      assert Result(prog, root, 0)[0] == 1;
      assert MpiGather(prog, 0)[0] == 0;
    }
  }
}
