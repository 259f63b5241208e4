/** The distributed renderer: broadcast the scene, render each rank's rows, gather the image, stream it to the
    laptop and reassemble it there. */
module RenderProgram {
  import opened Blocks
  import opened Bytes
  import opened Fmpi
  import opened Render
  import opened Words
  import Echo
  import Goodbye
  import Spmd

  // ---------------------------------------------------------------- the collectives

  /** Every rank renders `rows` rows of `n` pixels. */
  function Rendering(s: Scene, size: nat, rows: nat, n: nat): Program
    requires s.Valid()
  {
    var c := |s.x|;
    Program(size, 0, [Bcast(4 * c), Bcast(4 * c), Bcast(4 * c), Bcast(c), Bcast(c), Bcast(c), Gather(rows * (n * 3))],
            (rank: nat, log: Log, off: nat) => Spmd.ByteAt(Passes(s, rows, n, rank, log), off),
            (log: Log, block: nat, off: nat) => 0)
  }

  /** The buffer a rank passes to its next collective. */
  function Passes(s: Scene, rows: nat, n: nat, rank: nat, log: Log): seq<byte>
    requires s.Valid()
  {
    if |log| < 6 then Part(s, |log|)
    else if |log| == 6 && Received(log).Valid() then Picture(Received(log), rank * rows, rows, n)
    else []
  }

  /** The part of the scene that the `k`-th broadcast carries. */
  function Part(s: Scene, k: nat): seq<byte> {
    match k
    case 0 => Encode(s.x)
    case 1 => Encode(s.y)
    case 2 => Encode(s.radius)
    case 3 => s.r
    case 4 => s.g
    case _ => s.b
  }

  /** The scene as a rank received it. */
  function Received(log: Log): Scene
    requires |log| == 6
  {
    Scene(Decode(log[0]), Decode(log[1]), Decode(log[2]), log[3], log[4], log[5])
  }

  lemma PartSizes(s: Scene, size: nat, rows: nat, n: nat, k: nat)
    requires s.Valid() && k < 6
    ensures Rendering(s, size, rows, n).ops[k] == Bcast(|Part(s, k)|)
  {
    hide Encode, Passes;
  }

  /** Broadcast `k` hands its part of the scene to every rank. */
  lemma PartReceived(s: Scene, size: nat, rows: nat, n: nat, rank: nat, k: nat)
    requires s.Valid() && k < 6
    ensures Result(Rendering(s, size, rows, n), rank, k) == Part(s, k)
  {
    hide Part, Encode, Spmd.ByteAt;
    var prog := Rendering(s, size, rows, n);
    PartSizes(s, size, rows, n, k);
    var log := LogOf(prog, 0, k);
    assert |log| == k && Passes(s, rows, n, 0, log) == Part(s, k);
    forall off: nat
      ensures prog.data(0, log, off) == Spmd.ByteAt(Part(s, k), off)
    {
    }
    Spmd.SliceOf(prog, 0, log, 0, |Part(s, k)|, Part(s, k));
  }

  /** Every rank receives the scene. */
  lemma SceneReceived(s: Scene, size: nat, rows: nat, n: nat, rank: nat)
    requires s.Valid()
    ensures Received(LogOf(Rendering(s, size, rows, n), rank, 6)) == s
  {
    hide Encode, Decode, Result, Received, Passes;
    var prog := Rendering(s, size, rows, n);
    PartReceived(s, size, rows, n, rank, 0);
    PartReceived(s, size, rows, n, rank, 1);
    PartReceived(s, size, rows, n, rank, 2);
    PartReceived(s, size, rows, n, rank, 3);
    PartReceived(s, size, rows, n, rank, 4);
    PartReceived(s, size, rows, n, rank, 5);
    ReceivedIs(prog, rank, s);
  }

  lemma ReceivedIs(prog: Program, rank: nat, s: Scene)
    requires |prog.ops| == 7
    requires Result(prog, rank, 0) == Encode(s.x) && Result(prog, rank, 1) == Encode(s.y)
    requires Result(prog, rank, 2) == Encode(s.radius)
    requires Result(prog, rank, 3) == s.r && Result(prog, rank, 4) == s.g && Result(prog, rank, 5) == s.b
    ensures Received(LogOf(prog, rank, 6)) == s
  {
    hide Encode, Decode, Result;
    Spmd.LogAt(prog, rank, 6, 0);
    Spmd.LogAt(prog, rank, 6, 1);
    Spmd.LogAt(prog, rank, 6, 2);
    Spmd.LogAt(prog, rank, 6, 3);
    Spmd.LogAt(prog, rank, 6, 4);
    Spmd.LogAt(prog, rank, 6, 5);
    RoundTrip(s.x);
    RoundTrip(s.y);
    RoundTrip(s.radius);
  }

  /** What rank `i` passes to the gather. */
  lemma RowsPassed(s: Scene, size: nat, rows: nat, n: nat, i: nat)
    requires s.Valid()
    ensures var prog := Rendering(s, size, rows, n);
      Slice(prog, i, LogOf(prog, i, 6), 0, rows * (n * 3)) == Picture(s, i * rows, rows, n)
  {
    hide Result, Picture, Received, Slice, Spmd.ByteAt;
    var prog := Rendering(s, size, rows, n);
    SceneReceived(s, size, rows, n, i);
    Spmd.SliceOf(prog, i, LogOf(prog, i, 6), 0, rows * (n * 3), Picture(s, i * rows, rows, n));
  }

  // ---------------------------------------------------------------- the image

  lemma PictureRow(s: Scene, first: nat, rows: nat, n: nat, r: nat)
    requires s.Valid() && r < rows
    ensures Block(Picture(s, first, rows, n), rows, n * 3, r) == Row(s, first + r, n)
  {
    hide Row;
    ConcatBlock(Rows(s, first, rows, n), n * 3, r);
  }

  /** The image of all rows, cut into the blocks of the ranks. */
  lemma PictureBlock(s: Scene, size: nat, rows: nat, n: nat, i: nat)
    requires s.Valid() && i < size
    ensures |Picture(s, 0, size * rows, n)| == size * (rows * (n * 3))
    ensures Block(Picture(s, 0, size * rows, n), size, rows * (n * 3), i) == Picture(s, i * rows, rows, n)
  {
    hide Picture, Block, Row;
    Assoc(size, rows, n * 3);
    var whole := Picture(s, 0, size * rows, n);
    var l, p := Block(whole, size, rows * (n * 3), i), Picture(s, i * rows, rows, n);
    forall r: nat | r < rows
      ensures Block(l, rows, n * 3, r) == Block(p, rows, n * 3, r)
    {
      NestedBlock(whole, size, rows, n * 3, i, r);
      PictureRow(s, 0, size * rows, n, i * rows + r);
      PictureRow(s, i * rows, rows, n, r);
    }
    SameBlocks(l, p, rows, n * 3);
  }

  /** The gathered image is the sequential one. */
  lemma AtomicRenders(s: Scene, size: nat, rows: nat, n: nat)
    requires s.Valid() && size > 0 && size * rows == n
    ensures Result(Rendering(s, size, rows, n), 0, 6) == Picture(s, 0, n, n)
  {
    hide Result, Slice, LogOf, Picture, Block, Passes, Spmd.ByteAt;
    var prog := Rendering(s, size, rows, n);
    var m := rows * (n * 3);
    var g := Result(prog, 0, 6);
    Spmd.GatheredBlocks(prog, 6, 0);
    PictureBlock(s, size, rows, n, 0);
    forall i: nat | i < size
      ensures Block(g, size, m, i) == Block(Picture(s, 0, n, n), size, m, i)
    {
      Spmd.GatheredBlocks(prog, 6, i);
      RowsPassed(s, size, rows, n, i);
      PictureBlock(s, size, rows, n, i);
    }
    SameBlocks(g, Picture(s, 0, n, n), size, m);
  }

  /** Under every schedule, the root gathers the sequential image. */
  lemma EveryRunRenders(s: Scene, size: nat, rows: nat, n: nat,
                        jitter: nat, start: nat, run: seq<State>, acts: seq<Action>, t: nat)
    requires s.Valid() && size > 0 && size * rows == n && DELAY_MS + jitter <= TIMEOUT_MS
    requires IsRun(Rendering(s, size, rows, n), jitter, start, run, acts) && t <= |acts|
    requires |run[t].root.log| >= 7
    ensures run[t].root.log[6] == Picture(s, 0, n, n)
  {
    hide Result, IsRun, Picture;
    AtomicRenders(s, size, rows, n);
    Spmd.RootReceives(Rendering(s, size, rows, n), jitter, start, run, acts, t, 6);
  }

  // ---------------------------------------------------------------- to the laptop

  /** The root sends the image pixel by pixel: the bytes in the order they have in memory. */
  method SendBackToLaptop(image: array<byte>, n: nat) returns (sent: seq<byte>)
    requires image.Length == n * (n * 3)
    ensures sent == image[..]
  {
    sent := [];
    for i := 0 to n
      invariant 0 <= i * (n * 3) <= image.Length && sent == image[..i * (n * 3)]
    {
      BlockFits(i, n * 3, n);
      for j := 0 to n
        invariant sent == image[..i * (n * 3) + j * 3]
      {
        for idx := 0 to 3
          invariant sent == image[..i * (n * 3) + j * 3 + idx]
        {
          sent := sent + [image[i * (n * 3) + j * 3 + idx]];
        }
      }
      assert (i + 1) * (n * 3) == i * (n * 3) + n * 3;
    }
  }

  /** From the gathered image to the laptop, whatever the schedule of the collectives and however the stream is cut:
      what the laptop stores is the beginning of the sequential picture; it is the whole picture exactly when no chunk
      of the image looks like a goodbye; and none can if the exit string is not in the picture before its last byte. */
  method ShowOnLaptop(s: Scene, size: nat, rows: nat, n: nat,
                      jitter: nat, start: nat, ghost run: seq<State>, ghost acts: seq<Action>, t: nat,
                      image: array<byte>, laptop: Echo.Laptop, chunks: seq<seq<byte>>, text: seq<byte>)
    returns (sent: seq<byte>, taken: nat)
    requires s.Valid() && size > 0 && size * rows == n && DELAY_MS + jitter <= TIMEOUT_MS
    requires IsRun(Rendering(s, size, rows, n), jitter, start, run, acts) && t <= |acts|
    requires |run[t].root.log| >= 7 && image[..] == run[t].root.log[6]
    requires laptop.Valid() && laptop.n == n && laptop.Arrived() == 0 && laptop.image != image
    requires Concat(chunks) == image[..] + text
    modifies laptop, laptop.image
    ensures sent == image[..] == Picture(s, 0, n, n) && |sent| == laptop.image.Length
    ensures laptop.Valid() && Echo.StopsAfter(|sent|, chunks, taken)
    ensures laptop.image[..] == Spliced(old(laptop.image[..]), 0, sent[..laptop.Arrived()])
    ensures laptop.Arrived() == |sent| <==> Echo.Uninterrupted(|sent|, chunks)
    ensures Echo.Uninterrupted(|sent|, chunks) ==> laptop.image[..] == Picture(s, 0, n, n)
    ensures !Goodbye.Occurs(sent[..|sent| - 1]) ==> Echo.Uninterrupted(|sent|, chunks)
  {
    hide IsRun, Picture, Concat, Spliced, Echo.Uninterrupted, Echo.StopsAfter, Goodbye.Occurs;
    EveryRunRenders(s, size, rows, n, jitter, start, run, acts, t);
    sent := SendBackToLaptop(image, n);
    taken := Echo.Reassemble(laptop, sent, text, chunks);
  }

  /** Three circles of radius 0 whose half colours spell the exit string. */
  const GOODBYE := Scene([0, 0, 0], [0, 1, 2], [0, 0, 0], [0x88, 0x8A, 0x42], [0x9E, 0x42, 0x14], [0x9C, 0x42, 0])

  lemma OnlyCentre(c: word, j: word)
    requires c < 3 && j < 3
    ensures IsInsideCircle(0, c, 0, j, 0) <==> c == j
  {
    hide IsInsideCircle;
    InsideIsDistance(0, c, 0, j, 0);
  }

  lemma GoodbyeNext(j: word, channel: nat, c: nat)
    requires j < 3 && channel < 3 && c < 3
    ensures Shade(GOODBYE, 0, j, channel, c + 1) ==
      if c == j as nat then Colour(GOODBYE, c, channel) / 2 + Shade(GOODBYE, 0, j, channel, c) / 2
      else Shade(GOODBYE, 0, j, channel, c)
  {
    hide IsInsideCircle, Shade;
    OnlyCentre(c as word, j);
    assert GOODBYE.x[c] == 0 && GOODBYE.y[c] == c as word && GOODBYE.radius[c] == 0;
    ShadeNext(GOODBYE, 0, j, c);
  }

  lemma GoodbyeShade(j: word, channel: nat)
    requires j < 3 && channel < 3
    ensures Shade(GOODBYE, 0, j, channel, 3) == Colour(GOODBYE, j as nat, channel) / 2
  {
    hide Shade;
    ShadeNone(GOODBYE, 0, j);
    GoodbyeNext(j, channel, 0);
    GoodbyeNext(j, channel, 1);
    GoodbyeNext(j, channel, 2);
  }

  lemma GoodbyeByte(n: nat, k: nat)
    requires n >= 3 && k < 8
    ensures 0 <= k < |Picture(GOODBYE, 0, n, n)| && Picture(GOODBYE, 0, n, n)[k] == Goodbye.EXIT[k]
  {
    hide Picture, Shade;
    PictureAt(GOODBYE, 0, n, n, 0, k / 3, k % 3);
    GoodbyeShade((k / 3) as word, k % 3);
  }

  /** The condition is needed: there is a scene whose picture, of any size, is not stored whole under some cutting,
      whatever text follows it. */
  lemma GoodbyePicture(n: nat, text: seq<byte>)
    requires n >= 3
    ensures GOODBYE.Valid() && Picture(GOODBYE, 0, n, n)[..8] == Goodbye.EXIT
    ensures var picture := Picture(GOODBYE, 0, n, n);
      exists chunks :: Echo.IsCutting(chunks, picture + text) && !Echo.Uninterrupted(|picture|, chunks)
  {
    hide Picture, Echo.IsCutting, Echo.Uninterrupted, Goodbye.Done;
    var picture := Picture(GOODBYE, 0, n, n);
    assert |picture| == n * (n * 3) >= 9;
    forall k: nat | k < 8
      ensures picture[k] == Goodbye.EXIT[k]
    {
      GoodbyeByte(n, k);
    }
    var body := picture[..|picture| - 1];
    assert body[0..8] == Goodbye.EXIT;
    assert Goodbye.OccursAt(body, 0);
    Echo.EveryCuttingIff(picture, text);
  }
}
