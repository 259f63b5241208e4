/** The renderer: circles painted over each other, half and half, on a black image in row-major memory with
    three bytes for each pixel. */
module Render {
  import opened Blocks
  import opened Bytes
  import opened Words

  /** Centres, radii and colours of the circles. */
  datatype Scene = Scene(x: seq<word>, y: seq<word>, radius: seq<word>, r: seq<byte>, g: seq<byte>, b: seq<byte>)
  {
    predicate Valid() {
      |x| == |y| == |radius| == |r| == |g| == |b|
    }
  }

  function Square(a: word): word {
    Times(a, a)
  }

  /** In 32-bit arithmetic. */
  predicate IsInsideCircle(cx: word, cy: word, x: word, y: word, r: word) {
    Signed(Add(Square(Wrapped(x as int - cx as int)), Square(Wrapped(y as int - cy as int)))) <= Signed(Square(r))
  }

  /** For the coordinates of an image of any size the device can hold, nothing overflows. */
  lemma InsideIsDistance(cx: word, cy: word, x: word, y: word, r: word)
    requires cx < 0x4000 && cy < 0x4000 && x < 0x4000 && y < 0x4000 && r < 0x4000
    ensures var dx, dy := x as int - cx as int, y as int - cy as int;
      IsInsideCircle(cx, cy, x, y, r) <==> dx * dx + dy * dy <= r as int * r as int
  {
    hide Square, Signed, Add;
    SquareOfDifference(x, cx);
    SquareOfDifference(y, cy);
    SquareOf(r, r as int);
    var a, b := Square(Wrapped(x as int - cx as int)), Square(Wrapped(y as int - cy as int));
    SmallSum(a, b);
    SmallSum(Square(r), 0);
  }

  lemma SquareOf(a: word, d: int)
    requires -0x4000 <= d < 0x4000 && a as int == d % 0x1_0000_0000
    ensures Square(a) as int == d * d < 0x1000_0001
  {
    SquareBound(if d < 0 then -d else d);
    if d < 0 {
      var n := -d;
      assert d * d == n * n;
      assert a as int == 0x1_0000_0000 - n;
      assert a as int * a as int == 0x1_0000_0000 * (0x1_0000_0000 - 2 * n) + n * n;
      Multiple(0x1_0000_0000 - 2 * n, n * n);
    } else {
      Multiple(0, d * d);
    }
  }

  lemma SquareBound(n: nat)
    requires n <= 0x4000
    ensures 0 <= n * n <= 0x1000_0000
  {
    MulMonotone(n, 0x4000, n);
  }

  lemma MulMonotone(a: nat, b: nat, c: nat)
    requires a <= b
    ensures 0 <= a * c <= b * c
  {
    var d := b - a;
    assert d * c >= 0 && b * c == a * c + d * c;
  }

  lemma Multiple(q: nat, r: nat)
    requires r < 0x1_0000_0000
    ensures (0x1_0000_0000 * q + r) % 0x1_0000_0000 == r
  {
  }

  lemma SquareOfDifference(x: word, cx: word)
    requires x < 0x4000 && cx < 0x4000
    ensures var d := x as int - cx as int; Square(Wrapped(x as int - cx as int)) as int == d * d < 0x1000_0001
  {
    hide Square;
    SquareOf(Wrapped(x as int - cx as int), x as int - cx as int);
  }

  lemma SmallSum(a: word, b: word)
    requires a < 0x1000_0001 && b < 0x1000_0001
    ensures Signed(Add(a, b)) == a as int + b as int && Signed(a) == a as int
  {
  }

  /** One channel of the colour of a circle. */
  function Colour(s: Scene, c: nat, channel: nat): byte
    requires s.Valid() && c < |s.x| && channel < 3
  {
    if channel == 0 then s.r[c] else if channel == 1 then s.g[c] else s.b[c]
  }

  /** A pixel of the black image after the first `c` circles. */
  function Shade(s: Scene, px: word, py: word, channel: nat, c: nat): byte
    requires s.Valid() && c <= |s.x| && channel < 3
  {
    if c == 0 then 0
    else
      var under := Shade(s, px, py, channel, c - 1);
      if IsInsideCircle(s.x[c - 1], s.y[c - 1], px, py, s.radius[c - 1])
      then Colour(s, c - 1, channel) / 2 + under / 2
      else under
  }

  ghost predicate Covers(s: Scene, c: nat, px: word, py: word)
    requires s.Valid() && c < |s.x|
  {
    IsInsideCircle(s.x[c], s.y[c], px, py, s.radius[c])
  }

  /** A pixel that no circle covers stays black. */
  lemma {:induction false} Uncovered(s: Scene, px: word, py: word, channel: nat, d: nat)
    requires s.Valid() && d <= |s.x| && channel < 3
    requires forall k: nat :: k < d ==> !Covers(s, k, px, py)
    ensures Shade(s, px, py, channel, d) == 0
  {
    hide IsInsideCircle;
    if d > 0 {
      assert !Covers(s, d - 1, px, py);
      Uncovered(s, px, py, channel, d - 1);
    }
  }

  /** The last circle that covers a pixel gives half of its colour, and half of what was there remains. */
  lemma {:induction false} PaintedOver(s: Scene, px: word, py: word, channel: nat, c: nat, d: nat)
    requires s.Valid() && c < d <= |s.x| && channel < 3 && Covers(s, c, px, py)
    requires forall k: nat :: c < k < d ==> !Covers(s, k, px, py)
    ensures var colour := match channel case 0 => s.r[c] case 1 => s.g[c] case _ => s.b[c];
      Shade(s, px, py, channel, d) == colour / 2 + Shade(s, px, py, channel, c) / 2
  {
    hide IsInsideCircle;
    if c < d - 1 {
      assert !Covers(s, d - 1, px, py);
      PaintedOver(s, px, py, channel, c, d - 1);
    }
  }

  /** Two circles over each other: half of the upper colour and a quarter of the lower. */
  lemma TwoCircles(s: Scene, px: word, py: word)
    requires s.Valid() && |s.x| == 2 && Covers(s, 0, px, py) && Covers(s, 1, px, py)
    ensures Shade(s, px, py, 0, 2) == s.r[1] / 2 + s.r[0] / 4
    ensures Shade(s, px, py, 1, 2) == s.g[1] / 2 + s.g[0] / 4
    ensures Shade(s, px, py, 2, 2) == s.b[1] / 2 + s.b[0] / 4
  {
    hide IsInsideCircle, Shade, Covers;
    forall channel: nat | channel < 3
      ensures Shade(s, px, py, channel, 0) == 0
    {
      Uncovered(s, px, py, channel, 0);
    }
    PaintedOver(s, px, py, 0, 0, 1);
    PaintedOver(s, px, py, 0, 1, 2);
    PaintedOver(s, px, py, 1, 0, 1);
    PaintedOver(s, px, py, 1, 1, 2);
    PaintedOver(s, px, py, 2, 0, 1);
    PaintedOver(s, px, py, 2, 1, 2);
  }

  /** The pixel in row `i` and column `j`. */
  function Pixel(s: Scene, i: nat, j: nat): (r: seq<byte>)
    requires s.Valid()
    ensures |r| == 3
  {
    seq(3, channel requires 0 <= channel < 3 => Shade(s, Wrapped(i), Wrapped(j), channel, |s.x|))
  }

  /** The pixels of one row, from the left. */
  function Pixels(s: Scene, i: nat, n: nat): (r: seq<seq<byte>>)
    requires s.Valid()
    ensures |r| == n && forall j :: 0 <= j < n ==> |r[j]| == 3
  {
    seq(n, j requires 0 <= j < n => Pixel(s, i, j))
  }

  function Row(s: Scene, i: nat, n: nat): (r: seq<byte>)
    requires s.Valid()
    ensures |r| == n * 3
  {
    ConcatLength(Pixels(s, i, n), 3);
    Concat(Pixels(s, i, n))
  }

  function Rows(s: Scene, first: nat, rows: nat, n: nat): (r: seq<seq<byte>>)
    requires s.Valid()
    ensures |r| == rows && forall i :: 0 <= i < rows ==> |r[i]| == n * 3
  {
    var r := seq(rows, i requires 0 <= i < rows => Row(s, first + i, n));
    assert forall i :: 0 <= i < rows ==> r[i] == Row(s, first + i, n);
    r
  }

  /** The rows from `first` on of an image with `n` columns. */
  function Picture(s: Scene, first: nat, rows: nat, n: nat): (r: seq<byte>)
    requires s.Valid()
    ensures |r| == rows * (n * 3)
  {
    ConcatLength(Rows(s, first, rows, n), n * 3);
    Concat(Rows(s, first, rows, n))
  }

  lemma RowAt(s: Scene, i: nat, n: nat, j: nat, channel: nat)
    requires s.Valid() && j < n && channel < 3
    ensures Row(s, i, n)[j * 3 + channel] == Shade(s, Wrapped(i), Wrapped(j), channel, |s.x|)
  {
    hide Shade, Wrapped, Concat;
    assert Pixels(s, i, n)[j] == Pixel(s, i, j);
    ConcatAt(Pixels(s, i, n), 3, j, channel);
  }

  /** Where each byte of the picture is. */
  lemma PictureAt(s: Scene, first: nat, rows: nat, n: nat, i: nat, j: nat, channel: nat)
    requires s.Valid() && i < rows && j < n && channel < 3
    ensures 0 <= i * (n * 3) + (j * 3 + channel) < |Picture(s, first, rows, n)|
    ensures Picture(s, first, rows, n)[i * (n * 3) + (j * 3 + channel)]
         == Shade(s, Wrapped(first + i), Wrapped(j), channel, |s.x|)
  {
    hide Shade, Wrapped, Concat, Row;
    var m, off := n * 3, j * 3 + channel;
    assert off < m;
    var all := Rows(s, first, rows, n);
    assert all[i] == Row(s, first + i, n);
    ConcatAt(all, m, i, off);
    RowAt(s, first + i, n, j, channel);
  }

  // ---------------------------------------------------------------- the loops

  ghost predicate Black(image: seq<byte>, from: nat) {
    forall k :: from <= k < |image| ==> image[k] == 0
  }

  /** The loop over the circles. */
  method RenderPixel(image: array<byte>, at: nat, s: Scene, i: nat, j: nat)
    requires s.Valid() && at + 3 <= image.Length && image[at..at + 3] == [0, 0, 0]
    modifies image
    ensures image[..] == Spliced(old(image[..]), at, Pixel(s, i, j))
  {
    hide Shade, IsInsideCircle, Wrapped, Spliced, Pixel;
    ghost var was := image[..];
    var px, py := Wrapped(i), Wrapped(j);
    ShadeNone(s, px, py);
    assert image[at] == image[at..at + 3][0] && image[at + 1] == image[at..at + 3][1]
        && image[at + 2] == image[at..at + 3][2];
    for c := 0 to |s.x|
      invariant forall k :: 0 <= k < at || at + 3 <= k < image.Length ==> image[k] == was[k]
      invariant image[at] == Shade(s, px, py, 0, c)
      invariant image[at + 1] == Shade(s, px, py, 1, c)
      invariant image[at + 2] == Shade(s, px, py, 2, c)
    {
      ShadeNext(s, px, py, c);
      if IsInsideCircle(s.x[c], s.y[c], px, py, s.radius[c]) {
        image[at] := s.r[c] / 2 + image[at] / 2;
        image[at + 1] := s.g[c] / 2 + image[at + 1] / 2;
        image[at + 2] := s.b[c] / 2 + image[at + 2] / 2;
      }
    }
    PixelDone(image[..], was, at, s, i, j);
  }

  lemma ShadeNone(s: Scene, px: word, py: word)
    requires s.Valid()
    ensures forall channel: nat :: channel < 3 ==> Shade(s, px, py, channel, 0) == 0
  {
  }

  lemma ShadeNext(s: Scene, px: word, py: word, c: nat)
    requires s.Valid() && c < |s.x|
    ensures forall channel: nat :: channel < 3 ==>
      Shade(s, px, py, channel, c + 1) ==
      if IsInsideCircle(s.x[c], s.y[c], px, py, s.radius[c])
      then Colour(s, c, channel) / 2 + Shade(s, px, py, channel, c) / 2
      else Shade(s, px, py, channel, c)
  {
  }

  lemma PixelDone(now: seq<byte>, was: seq<byte>, at: nat, s: Scene, i: nat, j: nat)
    requires s.Valid() && at + 3 <= |was| == |now|
    requires forall k :: 0 <= k < at || at + 3 <= k < |now| ==> now[k] == was[k]
    requires forall channel: nat :: channel < 3 ==>
               now[at + channel] == Shade(s, Wrapped(i), Wrapped(j), channel, |s.x|)
    ensures now == Spliced(was, at, Pixel(s, i, j))
  {
    hide Shade, Wrapped;
  }

  /** One row, from offset `at` on. */
  method RenderRow(image: array<byte>, at: nat, s: Scene, i: nat, n: nat)
    requires s.Valid() && at + n * 3 <= image.Length && Black(image[..], at)
    modifies image
    ensures image[..] == Spliced(old(image[..]), at, Row(s, i, n))
  {
    hide Spliced, Pixel, Row, Pixels, Concat;
    ghost var was := image[..];
    FirstBlocks(was, at, Pixels(s, i, n), 3);
    for j := 0 to n
      invariant PaintedTo(image[..], was, at, Pixels(s, i, n), 3, j)
    {
      BlackAfter(image[..], was, at, Pixels(s, i, n), 3, j);
      ghost var now := image[..];
      RenderPixel(image, at + j * 3, s, i, j);
      PixelOf(s, i, j, n);
      NextBlock(now, was, at, Pixels(s, i, n), 3, j);
    }
    RowPainted(image[..], was, at, s, i, n);
  }

  /** All rows: the sequential renderer when `first` is 0 and `rows` is `n`, the work of one rank otherwise. */
  method RenderRows(image: array<byte>, s: Scene, first: nat, rows: nat, n: nat)
    requires s.Valid() && image.Length == rows * (n * 3) && Black(image[..], 0)
    modifies image
    ensures image[..] == Picture(s, first, rows, n)
  {
    hide Spliced, Row, Rows, Picture, Concat;
    ghost var was := image[..];
    FirstBlocks(was, 0, Rows(s, first, rows, n), n * 3);
    for i := 0 to rows
      invariant PaintedTo(image[..], was, 0, Rows(s, first, rows, n), n * 3, i)
    {
      BlackAfter(image[..], was, 0, Rows(s, first, rows, n), n * 3, i);
      ghost var now := image[..];
      RenderRow(image, i * (n * 3), s, first + i, n);
      RowOf(s, first, rows, n, i);
      NextBlock(now, was, 0, Rows(s, first, rows, n), n * 3, i);
    }
    PicturePainted(image[..], was, s, first, rows, n);
  }

  /** The image with the first `i` blocks of `size` bytes painted. */
  ghost predicate PaintedTo(now: seq<byte>, was: seq<byte>, at: nat, blocks: seq<seq<byte>>, size: nat, i: nat) {
    && i <= |blocks| && (forall r :: 0 <= r < |blocks| ==> |blocks[r]| == size)
    && |Concat(blocks[..i])| == i * size
    && 0 <= at + i * size <= at + |blocks| * size <= |was|
    && now == Spliced(was, at, Concat(blocks[..i]))
  }

  lemma FirstBlocks(was: seq<byte>, at: nat, blocks: seq<seq<byte>>, size: nat)
    requires forall r :: 0 <= r < |blocks| ==> |blocks[r]| == size
    requires at + |blocks| * size <= |was|
    ensures PaintedTo(was, was, at, blocks, size, 0)
  {
  }

  lemma BlackAfter(now: seq<byte>, was: seq<byte>, at: nat, blocks: seq<seq<byte>>, size: nat, i: nat)
    requires PaintedTo(now, was, at, blocks, size, i) && i < |blocks| && Black(was, at)
    ensures 0 <= at + i * size <= at + i * size + size <= |now| && Black(now, at + i * size)
  {
    BlockFits(i, size, |blocks|);
  }

  lemma NextBlock(now: seq<byte>, was: seq<byte>, at: nat, blocks: seq<seq<byte>>, size: nat, i: nat)
    requires PaintedTo(now, was, at, blocks, size, i) && i < |blocks|
    ensures at + i * size + size <= |now|
    ensures PaintedTo(Spliced(now, at + i * size, blocks[i]), was, at, blocks, size, i + 1)
  {
    hide Spliced, Concat;
    BlockFits(i, size, |blocks|);
    ConcatPrefix(blocks, i);
    SplicedTwice(was, at, Concat(blocks[..i]), blocks[i]);
    assert (i + 1) * size == i * size + size;
  }

  lemma PixelOf(s: Scene, i: nat, j: nat, n: nat)
    requires s.Valid() && j < n
    ensures Pixels(s, i, n)[j] == Pixel(s, i, j)
  {
  }

  lemma RowOf(s: Scene, first: nat, rows: nat, n: nat, i: nat)
    requires s.Valid() && i < rows
    ensures Rows(s, first, rows, n)[i] == Row(s, first + i, n)
  {
  }

  lemma RowPainted(now: seq<byte>, was: seq<byte>, at: nat, s: Scene, i: nat, n: nat)
    requires s.Valid() && at + n * 3 <= |was| && PaintedTo(now, was, at, Pixels(s, i, n), 3, n)
    ensures now == Spliced(was, at, Row(s, i, n))
  {
    assert Pixels(s, i, n)[..n] == Pixels(s, i, n);
  }

  lemma PicturePainted(now: seq<byte>, was: seq<byte>, s: Scene, first: nat, rows: nat, n: nat)
    requires s.Valid() && |was| == rows * (n * 3) && PaintedTo(now, was, 0, Rows(s, first, rows, n), n * 3, rows)
    ensures now == Picture(s, first, rows, n)
  {
    assert Rows(s, first, rows, n)[..rows] == Rows(s, first, rows, n);
    SplicedAll(was, Picture(s, first, rows, n));
  }
}
