/** Matrix multiplication on 32-bit integers, in row-major memory. Sums and products wrap, so the elements are
    the words that hold them. */
module Matmul {
  import opened Blocks
  import opened Bytes
  import opened Words

  /** Element (k, j) of a matrix with rows of `n`. */
  function At(m: seq<word>, n: nat, k: nat, j: nat): word
    requires k < n && j < n && |m| == n * n
  {
    Block(m, n, n, k)[j]
  }

  /** The product of the first `k` elements of a row with those of column `j`. */
  function Dot(a: seq<word>, b: seq<word>, n: nat, j: nat, k: nat): word
    requires |a| == n && |b| == n * n && j < n && k <= n
  {
    if k == 0 then 0 else Add(Dot(a, b, n, j, k - 1), Times(a[k - 1], At(b, n, k - 1, j)))
  }

  function RowTimes(a: seq<word>, b: seq<word>, n: nat): (r: seq<word>)
    requires |a| == n && |b| == n * n
    ensures |r| == n
  {
    seq(n, j requires 0 <= j < n => Dot(a, b, n, j, n))
  }

  /** The product of `rows` rows with a square matrix. */
  ghost function Product(a: seq<word>, b: seq<word>, rows: nat, n: nat): (r: seq<word>)
    requires |a| == rows * n && |b| == n * n
    ensures |r| == rows * n
  {
    var r := Concat(ProductRows(a, b, rows, n));
    ConcatLength(ProductRows(a, b, rows, n), n);
    r
  }

  ghost function ProductRows(a: seq<word>, b: seq<word>, rows: nat, n: nat): (r: seq<seq<word>>)
    requires |a| == rows * n && |b| == n * n
    ensures |r| == rows && forall i :: 0 <= i < rows ==> |r[i]| == n
  {
    seq(rows, i requires 0 <= i < rows => RowTimes(Block(a, rows, n, i), b, n))
  }

  lemma ProductRow(a: seq<word>, b: seq<word>, rows: nat, n: nat, i: nat)
    requires |a| == rows * n && |b| == n * n && i < rows
    ensures Block(Product(a, b, rows, n), rows, n, i) == RowTimes(Block(a, rows, n, i), b, n)
  {
    ConcatBlock(ProductRows(a, b, rows, n), n, i);
  }

  /** Row `i` times column `j` over the integers, the first `k` terms. */
  function Sum(a: seq<word>, b: seq<word>, rows: nat, n: nat, i: nat, j: nat, k: nat): nat
    requires |a| == rows * n && |b| == n * n && i < rows && j < n && k <= n
  {
    if k == 0 then 0
    else
      BlockFits(i, n, rows);
      BlockFits(k - 1, n, n);
      Sum(a, b, rows, n, i, j, k - 1) + a[i * n + (k - 1)] as nat * b[(k - 1) * n + j] as nat
  }

  /** Every element of the product is the sum over the integers, modulo 2^32. */
  lemma ProductIs(a: seq<word>, b: seq<word>, rows: nat, n: nat, i: nat, j: nat)
    requires |a| == rows * n && |b| == n * n && i < rows && j < n
    ensures 0 <= i * n + j < |Product(a, b, rows, n)|
    ensures Product(a, b, rows, n)[i * n + j] as int == Sum(a, b, rows, n, i, j, n) % 0x1_0000_0000
  {
    hide Dot, Sum, Product;
    BlockFits(i, n, rows);
    ProductRow(a, b, rows, n, i);
    DotIsSum(a, b, rows, n, i, j, n);
    var row := Block(Product(a, b, rows, n), rows, n, i);
    assert row[j] == Product(a, b, rows, n)[i * n + j];
  }

  lemma {:induction false} DotIsSum(a: seq<word>, b: seq<word>, rows: nat, n: nat, i: nat, j: nat, k: nat)
    requires |a| == rows * n && |b| == n * n && i < rows && j < n && k <= n
    ensures Dot(Block(a, rows, n, i), b, n, j, k) as int == Sum(a, b, rows, n, i, j, k) % 0x1_0000_0000
  {
    hide Add, Times;
    if k > 0 {
      DotIsSum(a, b, rows, n, i, j, k - 1);
      BlockFits(i, n, rows);
      BlockFits(k - 1, n, n);
      var x, y := a[i * n + (k - 1)], b[(k - 1) * n + j];
      assert Block(a, rows, n, i)[k - 1] == x && At(b, n, k - 1, j) == y;
      AddProduct(Dot(Block(a, rows, n, i), b, n, j, k - 1), Sum(a, b, rows, n, i, j, k - 1), x, y);
    }
  }

  lemma AddProduct(d: word, p: nat, x: word, y: word)
    requires d as int == p % 0x1_0000_0000
    ensures Add(d, Times(x, y)) as int == (p + x as nat * y as nat) % 0x1_0000_0000
  {
    var q := x as nat * y as nat;
    Remainders(p, q);
  }

  lemma Remainders(p: nat, q: nat)
    ensures (p % 0x1_0000_0000 + q % 0x1_0000_0000) % 0x1_0000_0000 == (p + q) % 0x1_0000_0000
  {
  }

  // ---------------------------------------------------------------- the loops

  /** The row at offset `a` of left times right, into the row at offset `c` of product. */
  method MultiplyRow(left: array<word>, a: nat, right: array<word>, product: array<word>, c: nat, n: nat)
    requires a + n <= left.Length && right.Length == n * n && c + n <= product.Length
    requires product != left && product != right
    modifies product
    ensures product[..] == old(product[..c]) + RowTimes(left[a..a + n], right[..], n) + old(product[c + n..])
  {
    hide Dot, Block, Add, Times;
    ghost var row, b, was := left[a..a + n], right[..], product[..];
    for j := 0 to n
      invariant forall p :: 0 <= p < c || c + n <= p < product.Length ==> product[p] == was[p]
      invariant forall q :: c <= q < c + j ==> product[q] == Dot(row, b, n, q - c, n)
    {
      product[c + j] := 0;
      DotStart(row, b, n, j);
      for k := 0 to n
        invariant forall p :: 0 <= p < c || c + n <= p < product.Length ==> product[p] == was[p]
        invariant forall q :: c <= q < c + j ==> product[q] == Dot(row, b, n, q - c, n)
        invariant product[c + j] == Dot(row, b, n, j, k)
      {
        DotNext(row, b, n, j, k);
        var x := right[k * n + j];
        product[c + j] := Add(product[c + j], Times(left[a + k], x));
      }
    }
    RowDone(product[..], was, c, row, b, n);
  }

  lemma DotStart(row: seq<word>, b: seq<word>, n: nat, j: nat)
    requires |row| == n && |b| == n * n && j < n
    ensures Dot(row, b, n, j, 0) == 0
  {
  }

  lemma DotNext(row: seq<word>, b: seq<word>, n: nat, j: nat, k: nat)
    requires |row| == n && |b| == n * n && j < n && k < n
    ensures 0 <= k * n + j < |b|
    ensures Dot(row, b, n, j, k + 1) == Add(Dot(row, b, n, j, k), Times(row[k], b[k * n + j]))
  {
    BlockFits(k, n, n);
  }

  lemma RowDone(now: seq<word>, was: seq<word>, c: nat, row: seq<word>, b: seq<word>, n: nat)
    requires |row| == n && |b| == n * n && c + n <= |was| == |now|
    requires forall p :: 0 <= p < c || c + n <= p < |now| ==> now[p] == was[p]
    requires forall q :: c <= q < c + n ==> now[q] == Dot(row, b, n, q - c, n)
    ensures now == was[..c] + RowTimes(row, b, n) + was[c + n..]
  {
    hide Dot;
  }

  /** All rows: the sequential multiplication when `rows` is `n`, the work of one rank otherwise. */
  method Multiply(left: array<word>, right: array<word>, product: array<word>, rows: nat, n: nat)
    requires left.Length == rows * n == product.Length && right.Length == n * n
    requires product != left && product != right
    modifies product
    ensures product[..] == Product(left[..], right[..], rows, n)
  {
    hide Block, Product, RowTimes;
    ghost var a, b := left[..], right[..];
    for i := 0 to rows
      invariant RowsDone(product[..], a, b, rows, n, i)
    {
      BlockFits(i, n, rows);
      ghost var was := product[..];
      MultiplyRow(left, i * n, right, product, i * n, n);
      NextRow(product[..], was, a, b, rows, n, i);
    }
    AllRowsDone(product[..], a, b, rows, n);
  }

  ghost predicate RowsDone(c: seq<word>, a: seq<word>, b: seq<word>, rows: nat, n: nat, i: nat)
    requires |a| == |c| == rows * n && |b| == n * n && i <= rows
  {
    forall r: nat :: r < i ==> Block(c, rows, n, r) == RowTimes(Block(a, rows, n, r), b, n)
  }

  lemma NextRow(now: seq<word>, was: seq<word>, a: seq<word>, b: seq<word>, rows: nat, n: nat, i: nat)
    requires |a| == |was| == |now| == rows * n && |b| == n * n && i < rows && 0 <= i * n <= i * n + n <= |now|
    requires RowsDone(was, a, b, rows, n, i)
    requires now == was[..i * n] + RowTimes(a[i * n..i * n + n], b, n) + was[i * n + n..]
    ensures RowsDone(now, a, b, rows, n, i + 1)
  {
    hide RowTimes, Block;
    forall r: nat | r <= i
      ensures Block(now, rows, n, r) == RowTimes(Block(a, rows, n, r), b, n)
    {
      BlockIs(now, rows, n, r);
      if r < i {
        BlockIs(was, rows, n, r);
        BlockFits(r, n, i);
        assert now[r * n..r * n + n] == was[r * n..r * n + n];
      } else {
        BlockIs(a, rows, n, i);
        assert now[i * n..i * n + n] == RowTimes(a[i * n..i * n + n], b, n);
      }
    }
  }

  lemma AllRowsDone(c: seq<word>, a: seq<word>, b: seq<word>, rows: nat, n: nat)
    requires |a| == |c| == rows * n && |b| == n * n && RowsDone(c, a, b, rows, n, rows)
    ensures c == Product(a, b, rows, n)
  {
    hide RowTimes, Block, Product;
    forall i: nat | i < rows
      ensures Block(c, rows, n, i) == Block(Product(a, b, rows, n), rows, n, i)
    {
      ProductRow(a, b, rows, n, i);
    }
    SameBlocks(c, Product(a, b, rows, n), rows, n);
  }
}
