/** The data phase of the collectives as the loops over ranks and bytes that it is: what each rank puts on its
    lines, and how the receive buffers are filled in place. `lines[i]` is what passes between the root and rank
    `i`; the line of the root itself stays empty. */
module FmpiBuffers {
  import opened Blocks
  import opened Bytes
  import opened Fmpi

  method Send(buffer: array<byte>, from: nat, n: nat) returns (line: seq<byte>)
    requires from + n <= buffer.Length
    ensures line == buffer[from..from + n]
  {
    line := [];
    for i := 0 to n
      invariant line == buffer[from..from + i]
    {
      line := line + [buffer[from + i]];
    }
  }

  method Recv(buffer: array<byte>, at: nat, line: seq<byte>)
    requires at + |line| <= buffer.Length
    modifies buffer
    ensures buffer[..] == Spliced(old(buffer[..]), at, line)
  {
    hide Spliced;
    ghost var was := buffer[..];
    SplicedNone(was, at);
    for i := 0 to |line|
      invariant buffer[..] == Spliced(was, at, line[..i])
    {
      SpliceNext(was, at, line[..i], line[i]);
      assert line[..i] + [line[i]] == line[..i + 1];
      ghost var now := buffer[..];
      buffer[at + i] := line[i];
      assert buffer[..] == now[at + i := line[i]];
    }
    assert line[..|line|] == line;
  }

  method BcastRoot(buffer: array<byte>, size: nat, root: nat) returns (lines: seq<seq<byte>>)
    requires root < size
    ensures |lines| == size
    ensures forall i: nat :: i < size ==> lines[i] == if i == root then [] else buffer[..]
  {
    lines := [];
    for i := 0 to size
      invariant |lines| == i
      invariant forall r: nat :: r < i ==> lines[r] == if r == root then [] else buffer[..]
    {
      if i == root {
        lines := lines + [[]];
      } else {
        var line := Send(buffer, 0, buffer.Length);
        lines := lines + [line];
      }
    }
  }

  /** The root keeps the first block, whatever its own number is. */
  method ScatterRoot(sendbuff: array<byte>, recvbuff: array<byte>, size: nat, root: nat, n: nat)
    returns (lines: seq<seq<byte>>)
    requires root < size && sendbuff.Length == size * n && recvbuff.Length == n && sendbuff != recvbuff
    modifies recvbuff
    ensures |lines| == size
    ensures forall i: nat :: i < size ==> lines[i] == if i == root then [] else Block(sendbuff[..], size, n, i)
    ensures recvbuff[..] == Block(sendbuff[..], size, n, 0)
  {
    hide Block, Spliced;
    ghost var all := sendbuff[..];
    lines := [];
    for i := 0 to size
      invariant |lines| == i && sendbuff[..] == all
      invariant forall r: nat :: r < i ==> lines[r] == if r == root then [] else Block(all, size, n, r)
    {
      if i == root {
        lines := lines + [[]];
      } else {
        BlockIs(all, size, n, i);
        var line := Send(sendbuff, i * n, n);
        lines := lines + [line];
      }
    }
    BlockIs(all, size, n, 0);
    var own := Send(sendbuff, 0, n);
    assert own == all[0 * n..0 * n + n];
    SplicedAll(recvbuff[..], own);
    Recv(recvbuff, 0, own);
  }

  /** A receive buffer after a gather: the root's own block goes to offset 0, and the block with its number is
      left as it was. */
  function Gathered(was: seq<byte>, own: seq<byte>, lines: seq<seq<byte>>, size: nat, root: nat, n: nat)
    : (r: seq<seq<byte>>)
    requires root < size && |was| == size * n && |lines| == size
    ensures |r| == size
  {
    seq(size, i requires 0 <= i < size =>
      if i == 0 then own else if i == root then Block(was, size, n, i) else lines[i])
  }

  /** The first `i` ranks have been received from; the root's own copy comes last. */
  ghost predicate ReceivedFrom(now: seq<byte>, was: seq<byte>, lines: seq<seq<byte>>, size: nat, root: nat, n: nat,
                               i: nat)
  {
    && root < size && |lines| == size && |was| == size * n && |now| == size * n
    && forall r: nat :: r < size ==>
         Block(now, size, n, r) == if r < i && r != root then lines[r] else Block(was, size, n, r)
  }

  lemma BlockReplaced(now: seq<byte>, size: nat, n: nat, i: nat, block: seq<byte>, r: nat)
    requires |now| == size * n && i < size && r < size && |block| == n
    ensures 0 <= i * n <= i * n + n <= |now|
    ensures Block(Spliced(now, i * n, block), size, n, r) == if r == i then block else Block(now, size, n, r)
  {
    hide Block, Spliced;
    BlockIs(now, size, n, i);
    BlockIs(now, size, n, r);
    BlockIs(Spliced(now, i * n, block), size, n, r);
    if r < i {
      BlockFits(r, n, i);
      SplicedBefore(now, i * n, block, r * n, r * n + n);
    } else if r == i {
      SplicedThere(now, i * n, block);
    } else {
      BlockFits(i, n, r);
      SplicedAfter(now, i * n, block, r * n, r * n + n);
    }
  }

  method GatherRoot(sendbuff: array<byte>, recvbuff: array<byte>, lines: seq<seq<byte>>, size: nat, root: nat, n: nat)
    requires root < size && recvbuff.Length == size * n && sendbuff.Length == n && sendbuff != recvbuff
    requires |lines| == size && forall i :: 0 <= i < size && i != root ==> |lines[i]| == n
    modifies recvbuff
    ensures recvbuff[..] == Concat(Gathered(old(recvbuff[..]), sendbuff[..], lines, size, root, n))
  {
    hide Block, Spliced, Gathered;
    ghost var was := recvbuff[..];
    for i := 0 to size
      invariant ReceivedFrom(recvbuff[..], was, lines, size, root, n, i)
    {
      if i != root {
        BlockFits(i, n, size);
        NextReceived(recvbuff[..], was, lines, size, root, n, i);
        Recv(recvbuff, i * n, lines[i]);
      }
    }
    var own := Send(sendbuff, 0, n);
    assert own == sendbuff[..];
    BlockFits(0, n, size);
    OwnCopied(recvbuff[..], was, own, lines, size, root, n);
    Recv(recvbuff, 0, own);
  }

  lemma NextReceived(now: seq<byte>, was: seq<byte>, lines: seq<seq<byte>>, size: nat, root: nat, n: nat, i: nat)
    requires ReceivedFrom(now, was, lines, size, root, n, i) && i < size && i != root && |lines[i]| == n
    requires 0 <= i * n <= i * n + n <= |now|
    ensures ReceivedFrom(Spliced(now, i * n, lines[i]), was, lines, size, root, n, i + 1)
  {
    hide Block, Spliced;
    forall r: nat | r < size
      ensures Block(Spliced(now, i * n, lines[i]), size, n, r) == if r == i then lines[i] else Block(now, size, n, r)
    {
      BlockReplaced(now, size, n, i, lines[i], r);
    }
  }

  lemma OwnCopied(now: seq<byte>, was: seq<byte>, own: seq<byte>, lines: seq<seq<byte>>, size: nat, root: nat, n: nat)
    requires ReceivedFrom(now, was, lines, size, root, n, size) && |own| == n && n <= |now|
    requires forall i :: 0 <= i < size && i != root ==> |lines[i]| == n
    ensures Spliced(now, 0, own) == Concat(Gathered(was, own, lines, size, root, n))
  {
    hide Block, Spliced;
    var blocks := Gathered(was, own, lines, size, root, n);
    ConcatLength(blocks, n);
    assert 0 * n == 0;
    forall r: nat | r < size
      ensures Block(Spliced(now, 0, own), size, n, r) == Block(Concat(blocks), size, n, r)
    {
      BlockReplaced(now, size, n, 0, own, r);
      ConcatBlock(blocks, n, r);
    }
    SameBlocks(Spliced(now, 0, own), Concat(blocks), size, n);
  }

  // ---------------------------------------------------------------- against the atomic collectives

  lemma ScatterLinesAreResults(prog: Program, k: nat, rank: nat, sendbuff: seq<byte>)
    requires k < |prog.ops| && prog.ops[k].Scatter? && prog.Valid() && rank < prog.size
    requires sendbuff == Slice(prog, prog.root, LogOf(prog, prog.root, k), 0, prog.size * prog.ops[k].n)
    ensures Result(prog, rank, k) == Block(sendbuff, prog.size, prog.ops[k].n, if rank == prog.root then 0 else rank)
  {
    var n := prog.ops[k].n;
    BlockFits(rank, n, prog.size);
    BlockFits(0, n, prog.size);
  }

  /** The root's buffer after the gather loop is what the atomic gather hands to the root, when every line
      carries the block its rank sends. */
  lemma GatherBufferIsResult(prog: Program, k: nat, was: seq<byte>, own: seq<byte>, lines: seq<seq<byte>>)
    requires k < |prog.ops| && prog.ops[k].Gather? && prog.Valid()
    requires var n := prog.ops[k].n;
      && |was| == prog.size * n && |lines| == prog.size
      && (forall i: nat :: i < prog.size ==>
            Block(was, prog.size, n, i) == StaleBlocks(prog, LogOf(prog, prog.root, k), n)[i])
      && own == Slice(prog, prog.root, LogOf(prog, prog.root, k), 0, n)
      && (forall i: nat :: i < prog.size && i != prog.root ==> lines[i] == Slice(prog, i, LogOf(prog, i, k), 0, n))
    ensures Result(prog, prog.root, k) == Concat(Gathered(was, own, lines, prog.size, prog.root, prog.ops[k].n))
  {
    hide Slice, StaleBlocks, LogOf, Block;
    var n := prog.ops[k].n;
    assert Gathered(was, own, lines, prog.size, prog.root, n)
        == seq(prog.size, i requires 0 <= i < prog.size => GatheredBlock(prog, k, n, i));
  }
}
