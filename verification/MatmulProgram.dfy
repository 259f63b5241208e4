/** The distributed matrix multiplication: broadcast B, scatter the rows of A, gather the rows of C. */
module MatmulProgram {
  import opened Blocks
  import opened Bytes
  import opened Fmpi
  import opened Matmul
  import opened Words
  import Modular
  import Spmd

  lemma Quadruple(i: nat, n: nat)
    ensures i * (4 * n) == 4 * (i * n)
  {
  }

  lemma DecodeBlock(b: seq<byte>, size: nat, n: nat, i: nat)
    requires |b| == size * (4 * n) && i < size
    ensures |Decode(b)| == size * n
    ensures Block(Decode(b), size, n, i) == Decode(Block(b, size, 4 * n, i))
  {
    hide Decode;
    Quadruple(size, n);
    Quadruple(i, n);
    BlockFits(i, n, size);
    DecodeSlice(b, i * n, n);
  }

  // ---------------------------------------------------------------- the program

  /** Every rank multiplies `rows` rows of A with B, both of `n` columns. */
  ghost function Multiplying(a: seq<word>, b: seq<word>, size: nat, rows: nat, n: nat): Program {
    Program(size, 0, [Bcast(4 * (n * n)), Scatter(4 * (rows * n)), Barrier, Gather(4 * (rows * n)), Barrier],
            (rank: nat, log: Log, off: nat) => Spmd.ByteAt(Passes(a, b, rows, n, log), off),
            (log: Log, block: nat, off: nat) => 0)
  }

  /** The buffer a rank passes to its next collective. */
  ghost function Passes(a: seq<word>, b: seq<word>, rows: nat, n: nat, log: Log): seq<byte> {
    if |log| == 0 then Encode(b)
    else if |log| == 1 then Encode(a)
    else if |log| == 3 then LocalProduct(Decode(log[1]), Decode(log[0]), rows, n)
    else []
  }

  ghost function LocalProduct(a: seq<word>, b: seq<word>, rows: nat, n: nat): seq<byte> {
    if |a| == rows * n && |b| == n * n then Encode(Product(a, b, rows, n)) else []
  }

  /** Every rank receives B and its rows of A. */
  lemma InputsReceived(a: seq<word>, b: seq<word>, size: nat, rows: nat, n: nat, i: nat)
    requires |a| == size * (rows * n) && |b| == n * n && i < size
    ensures var prog := Multiplying(a, b, size, rows, n);
      && Result(prog, i, 0) == Encode(b)
      && Result(prog, i, 1) == Encode(Block(a, size, rows * n, i))
  {
    hide Encode, LocalProduct, Block, Slice, Spmd.ByteAt;
    var prog := Multiplying(a, b, size, rows, n);
    var m := rows * n;
    assert prog.ops[0] == Bcast(4 * (n * n)) && prog.ops[1] == Scatter(4 * m);
    assert prog.root == 0 && LogOf(prog, 0, 0) == [];
    Spmd.SliceOf(prog, 0, [], 0, 4 * (n * n), Encode(b));
    Spmd.FirstLogs(prog, 0);
    BlockIs(a, size, m, i);
    Quadruple(i, m);
    Spmd.SliceOf(prog, 0, LogOf(prog, 0, 1), 4 * (i * m), 4 * m, Encode(a));
    EncodeSlice(a, i * m, m);
  }

  /** What rank `i` passes to the gather. */
  lemma OutputPassed(a: seq<word>, b: seq<word>, size: nat, rows: nat, n: nat, i: nat)
    requires |a| == size * (rows * n) && |b| == n * n && i < size
    ensures var prog := Multiplying(a, b, size, rows, n);
      Slice(prog, i, LogOf(prog, i, 3), 0, 4 * (rows * n)) == Encode(Product(Block(a, size, rows * n, i), b, rows, n))
  {
    hide Encode, Decode, Result, Product, Block;
    var prog := Multiplying(a, b, size, rows, n);
    var log := LogOf(prog, i, 3);
    Spmd.LogAt(prog, i, 3, 0);
    Spmd.LogAt(prog, i, 3, 1);
    InputsReceived(a, b, size, rows, n, i);
    RoundTrip(b);
    RoundTrip(Block(a, size, rows * n, i));
    Spmd.SliceOf(prog, i, log, 0, 4 * (rows * n), Encode(Product(Block(a, size, rows * n, i), b, rows, n)));
  }

  // ---------------------------------------------------------------- rows of rows

  /** The product of all rows, cut into the blocks of the ranks. */
  lemma ProductBlock(a: seq<word>, b: seq<word>, size: nat, rows: nat, n: nat, i: nat)
    requires |a| == size * (rows * n) && |b| == n * n && i < size
    ensures |a| == (size * rows) * n
    ensures Block(Product(a, b, size * rows, n), size, rows * n, i) == Product(Block(a, size, rows * n, i), b, rows, n)
  {
    hide Product, Block, RowTimes;
    Assoc(size, rows, n);
    var mine := Block(a, size, rows * n, i);
    var c := Product(a, b, size * rows, n);
    var l, p := Block(c, size, rows * n, i), Product(mine, b, rows, n);
    forall r: nat | r < rows
      ensures Block(l, rows, n, r) == Block(p, rows, n, r)
    {
      NestedBlock(c, size, rows, n, i, r);
      NestedBlock(a, size, rows, n, i, r);
      ProductRow(a, b, size * rows, n, i * rows + r);
      ProductRow(mine, b, rows, n, r);
    }
    SameBlocks(l, p, rows, n);
  }

  // ---------------------------------------------------------------- the whole program

  /** The gathered matrix is the sequential product. */
  ghost predicate IsProduct(a: seq<word>, b: seq<word>, n: nat, gathered: seq<byte>) {
    |a| == n * n && |b| == n * n && Decode(gathered) == Product(a, b, n, n)
  }

  lemma AtomicMultiplies(a: seq<word>, b: seq<word>, size: nat, rows: nat, n: nat)
    requires size > 0 && size * rows == n && |a| == n * n && |b| == n * n
    ensures IsProduct(a, b, n, Result(Multiplying(a, b, size, rows, n), 0, 3))
  {
    hide Result, Slice, LogOf, Product, Block, Encode, Decode, Passes, Spmd.ByteAt;
    var prog := Multiplying(a, b, size, rows, n);
    var m := rows * n;
    Assoc(size, rows, n);
    var g := Result(prog, 0, 3);
    Spmd.GatheredBlocks(prog, 3, 0);
    DecodeBlock(g, size, m, 0);
    forall i: nat | i < size
      ensures Block(Decode(g), size, m, i) == Block(Product(a, b, n, n), size, m, i)
    {
      Spmd.GatheredBlocks(prog, 3, i);
      OutputPassed(a, b, size, rows, n, i);
      DecodeBlock(g, size, m, i);
      RoundTrip(Product(Block(a, size, m, i), b, rows, n));
      ProductBlock(a, b, size, rows, n, i);
    }
    SameBlocks(Decode(g), Product(a, b, n, n), size, m);
  }

  /** Under every schedule, the root gathers the sequential product. */
  lemma EveryRunMultiplies(a: seq<word>, b: seq<word>, size: nat, rows: nat, n: nat,
                           jitter: nat, start: nat, run: seq<State>, acts: seq<Action>, t: nat)
    requires size > 0 && size * rows == n && |a| == n * n && |b| == n * n && DELAY_MS + jitter <= TIMEOUT_MS
    requires IsRun(Multiplying(a, b, size, rows, n), jitter, start, run, acts) && t <= |acts|
    requires |run[t].root.log| >= 4
    ensures IsProduct(a, b, n, run[t].root.log[3])
  {
    hide Result, IsRun, IsProduct;
    AtomicMultiplies(a, b, size, rows, n);
    Spmd.RootReceives(Multiplying(a, b, size, rows, n), jitter, start, run, acts, t, 3);
  }

  // ---------------------------------------------------------------- the program's own check

  /** Row i of A is all i + 1, and B is all ones. */
  ghost predicate Generated(a: seq<word>, b: seq<word>, n: nat) {
    && |a| == n * n && |b| == n * n
    && (forall k :: 0 <= k < n * n ==> b[k] == 1)
    && (forall i: nat, k: nat :: i < n && k < n ==> At(a, n, i, k) as int == (i + 1) % Modular.WRAP)
  }

  lemma {:induction false} DotOfOnes(row: seq<word>, b: seq<word>, n: nat, i: nat, j: nat, k: nat)
    requires |row| == n && |b| == n * n && j < n && k <= n
    requires forall q :: 0 <= q < n ==> row[q] as int == (i + 1) % Modular.WRAP
    requires forall q :: 0 <= q < n * n ==> b[q] == 1
    ensures Dot(row, b, n, j, k) as int == ((i + 1) * k) % Modular.WRAP
  {
    hide Times, Block;
    if k == 0 {
      DotStart(row, b, n, j);
      assert (i + 1) * 0 == 0;
    } else {
      DotOfOnes(row, b, n, i, j, k - 1);
      DotNext(row, b, n, j, k - 1);
      TimesOne(row[k - 1]);
      AddRemainders(Dot(row, b, n, j, k - 1), row[k - 1], (i + 1) * (k - 1), i + 1);
      assert (i + 1) * k == (i + 1) * (k - 1) + (i + 1);
    }
  }

  lemma TimesOne(x: word)
    ensures Times(x, 1) == x
  {
  }

  lemma AddRemainders(x: word, y: word, p: nat, q: nat)
    requires x as int == p % Modular.WRAP && y as int == q % Modular.WRAP
    ensures Add(x, y) as int == (p + q) % Modular.WRAP
  {
  }

  /** The result the root checks for, (i + 1) * n in row i, is the product. */
  lemma ExpectedResult(a: seq<word>, b: seq<word>, n: nat, i: nat, j: nat)
    requires Generated(a, b, n) && i < n && j < n
    ensures At(Product(a, b, n, n), n, i, j) as int == ((i + 1) * n) % Modular.WRAP
  {
    hide Product, Dot;
    ProductRow(a, b, n, n, i);
    var row := Block(a, n, n, i);
    forall q | 0 <= q < n
      ensures row[q] as int == (i + 1) % Modular.WRAP
    {
      assert row[q] == At(a, n, i, q);
    }
    DotOfOnes(row, b, n, i, j, n);
  }
}
