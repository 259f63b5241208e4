/** The laptop's loop over the chunks that the serial line happens to deliver: it reassembles the image from them,
    echoes the text that follows, and stops when it believes that the Pi has said goodbye. */
module Echo {
  import opened Blocks
  import opened Bytes
  import opened Goodbye

  /** Offset of component `idx` of pixel (x, y) in an image of `n` by `n` pixels. */
  function Offset(n: nat, x: nat, y: nat, idx: nat): nat {
    x * (n * 3) + y * 3 + idx
  }

  function Min(a: nat, b: nat): nat {
    if a <= b then a else b
  }

  lemma OffsetFits(n: nat, x: nat, y: nat, idx: nat)
    requires x < n && y < n && idx < 3
    ensures Offset(n, x, y, idx) < n * (n * 3)
  {
    BlockFits(x, n * 3, n);
  }

  lemma OffsetNext(n: nat, x: nat, y: nat, idx: nat)
    requires x < n && y < n && idx < 3
    ensures Offset(n, x, y, idx) + 1 ==
      if idx + 1 < 3 then Offset(n, x, y, idx + 1)
      else if y + 1 < n then Offset(n, x, y + 1, 0)
      else Offset(n, x + 1, 0, 0)
  {
    assert (x + 1) * (n * 3) == x * (n * 3) + n * 3;
  }

  // ---------------------------------------------------------------- when the loop stops

  /** The image is not complete when chunk `k` comes. */
  ghost predicate InImage(total: nat, chunks: seq<seq<byte>>, k: nat)
    requires k < |chunks|
  {
    |Concat(chunks[..k])| < total
  }

  /** What `PiDone` gets to see of chunk `k`: image bytes as they are, text cleaned. */
  ghost function Seen(total: nat, chunks: seq<seq<byte>>, k: nat): seq<byte>
    requires k < |chunks|
  {
    if InImage(total, chunks, k) then chunks[k] else Clean(chunks[k])
  }

  /** `taken` chunks are read: the loop stops behind the first chunk that says goodbye. */
  ghost predicate StopsAfter(total: nat, chunks: seq<seq<byte>>, taken: nat) {
    && taken <= |chunks|
    && (forall k: nat :: k + 1 < taken ==> !Done(Seen(total, chunks, k)))
    && (taken < |chunks| ==> taken > 0 && Done(Seen(total, chunks, taken - 1)))
  }

  /** Chunk `k` ends before the image does and looks like a goodbye. */
  ghost predicate Interrupts(total: nat, chunks: seq<seq<byte>>, k: nat)
    requires k < |chunks|
  {
    |Concat(chunks[..k + 1])| < total && Done(chunks[k])
  }

  ghost predicate Uninterrupted(total: nat, chunks: seq<seq<byte>>) {
    forall k: nat :: k < |chunks| ==> !Interrupts(total, chunks, k)
  }

  lemma {:induction false} Longer(chunks: seq<seq<byte>>, j: nat, k: nat)
    requires j <= k <= |chunks|
    ensures |Concat(chunks[..j])| <= |Concat(chunks[..k])|
  {
    hide Concat;
    if j < k {
      Longer(chunks, j, k - 1);
      ConcatPrefix(chunks, k - 1);
    }
  }

  /** Behind the image, the loop stops at the first chunk of text that says goodbye. */
  lemma StopsAtGoodbye(total: nat, chunks: seq<seq<byte>>, taken: nat)
    requires StopsAfter(total, chunks, taken)
    ensures forall k: nat :: k < |chunks| && !InImage(total, chunks, k) && SaysGoodbye(chunks[k]) ==> taken <= k + 1
    ensures taken < |chunks| && !InImage(total, chunks, taken - 1) ==> SaysGoodbye(chunks[taken - 1])
  {
    hide InImage, SaysGoodbye, Done, Clean;
    if taken < |chunks| {
      TextFoundIff(chunks[taken - 1]);
    }
    forall k: nat | k < |chunks| && !InImage(total, chunks, k) && SaysGoodbye(chunks[k])
      ensures taken <= k + 1
    {
      TextFoundIff(chunks[k]);
      assert Done(Seen(total, chunks, k));
    }
  }

  /** Text, the exit string, more text in one chunk: nothing is read after it, if the first byte of the exit string is
      not in the text before. */
  lemma NothingAfterGoodbye(total: nat, chunks: seq<seq<byte>>, taken: nat, k: nat, p: seq<byte>, q: seq<byte>)
    requires StopsAfter(total, chunks, taken) && k < |chunks| && !InImage(total, chunks, k)
    requires chunks[k] == p + EXIT + q && 0x44 !in p
    ensures taken <= k + 1
  {
    hide StopsAfter, InImage, SaysGoodbye;
    GoodbyeInText(p, q);
    StopsAtGoodbye(total, chunks, taken);
  }

  /** For a given cutting of a stream that is long enough, the whole image is read exactly when nothing in it
      interrupts the loop. */
  lemma WholeIff(total: nat, chunks: seq<seq<byte>>, taken: nat)
    requires StopsAfter(total, chunks, taken) && |Concat(chunks)| >= total
    ensures |Concat(chunks[..taken])| >= total <==> Uninterrupted(total, chunks)
  {
    hide Concat, Done, Clean;
    if |Concat(chunks[..taken])| < total {
      assert chunks[..|chunks|] == chunks;
      Longer(chunks, taken - 1, taken);
      assert Interrupts(total, chunks, taken - 1);
    } else {
      forall k: nat | k < |chunks|
        ensures !Interrupts(total, chunks, k)
      {
        if k + 1 >= taken {
          Longer(chunks, taken, k + 1);
        } else {
          Longer(chunks, k, k + 1);
          assert !Done(Seen(total, chunks, k));
        }
      }
    }
  }

  /** The stream as the reads deliver it: none is empty, and none is longer than the buffer. */
  ghost predicate IsCutting(chunks: seq<seq<byte>>, stream: seq<byte>) {
    Concat(chunks) == stream && forall k :: 0 <= k < |chunks| ==> 1 <= |chunks[k]| <= 4095
  }

  /** An image without the exit string before its last byte interrupts nothing. */
  lemma CleanImage(sent: seq<byte>, text: seq<byte>, chunks: seq<seq<byte>>)
    requires sent != [] && Concat(chunks) == sent + text && !Occurs(sent[..|sent| - 1])
    ensures Uninterrupted(|sent|, chunks)
  {
    hide Concat, Done, Occurs;
    forall k: nat | k < |chunks|
      ensures !Interrupts(|sent|, chunks, k)
    {
      if Interrupts(|sent|, chunks, k) {
        ConcatPrefix(chunks, k);
        DoneOccurs(chunks[k]);
        var lo := |Concat(chunks[..k])|;
        var hi := lo + |chunks[k]|;
        assert chunks[k] == (sent + text)[lo..hi] == sent[..|sent| - 1][lo..hi];
        OccursWithin(sent[..|sent| - 1], lo, hi);
      }
    }
  }

  /** A stream in chunks of one byte. */
  function Singles(s: seq<byte>): seq<seq<byte>> {
    seq(|s|, i requires 0 <= i < |s| => [s[i]])
  }

  lemma {:induction false} ConcatSingles(s: seq<byte>)
    ensures Concat(Singles(s)) == s
  {
    if s != [] {
      ConcatSingles(s[1..]);
      assert Singles(s)[1..] == Singles(s[1..]);
    }
  }

  lemma {:induction false} ConcatSum<T>(a: seq<seq<T>>, b: seq<seq<T>>)
    ensures Concat(a + b) == Concat(a) + Concat(b)
  {
    hide Concat;
    ConcatStep(a);
    ConcatStep(a + b);
    if a == [] {
      assert a + b == b;
    } else {
      ConcatSum(a[1..], b);
      assert (a + b)[1..] == a[1..] + b;
    }
  }

  lemma ConcatStep<T>(a: seq<seq<T>>)
    ensures Concat(a) == if a == [] then [] else a[0] + Concat(a[1..])
  {
  }

  /** A cutting in which the exit string is a chunk of its own. */
  function CutAt(stream: seq<byte>, i: nat): seq<seq<byte>>
    requires i + 8 <= |stream|
  {
    Singles(stream[..i]) + ([stream[i..i + 8]] + Singles(stream[i + 8..]))
  }

  lemma CutAtIsCutting(stream: seq<byte>, i: nat)
    requires i + 8 <= |stream|
    ensures IsCutting(CutAt(stream, i), stream)
    ensures |Singles(stream[..i])| == i < |CutAt(stream, i)| && CutAt(stream, i)[i] == stream[i..i + 8]
    ensures |Concat(CutAt(stream, i)[..i + 1])| == i + 8
  {
    hide Concat;
    var before, exit, after := Singles(stream[..i]), [stream[i..i + 8]], Singles(stream[i + 8..]);
    ConcatSum(before, exit + after);
    ConcatSum(exit, after);
    ConcatSum(before, exit);
    ConcatSingles(stream[..i]);
    ConcatSingles(stream[i + 8..]);
    ConcatOne(stream[i..i + 8]);
    assert CutAt(stream, i)[..i + 1] == before + exit;
    assert stream == stream[..i] + (stream[i..i + 8] + stream[i + 8..]);
  }

  lemma ConcatOne<T>(s: seq<T>)
    ensures Concat([s]) == s
  {
    assert [s][1..] == [];
  }

  /** However the stream is cut the whole image is read, if and only if the exit string does not stand in the image
      before its last byte. */
  lemma EveryCuttingIff(sent: seq<byte>, text: seq<byte>)
    requires sent != []
    ensures (forall chunks :: IsCutting(chunks, sent + text) ==> Uninterrupted(|sent|, chunks))
       <==> !Occurs(sent[..|sent| - 1])
  {
    hide Concat, Done, CutAt;
    if Occurs(sent[..|sent| - 1]) {
      var i: nat :| OccursAt(sent[..|sent| - 1], i);
      var stream := sent + text;
      assert stream[i..i + 8] == sent[..|sent| - 1][i..i + 8] == EXIT;
      CutAtIsCutting(stream, i);
      ExitIsDone();
      assert Interrupts(|sent|, CutAt(stream, i), i);
    } else {
      forall chunks | IsCutting(chunks, sent + text)
        ensures Uninterrupted(|sent|, chunks)
      {
        CleanImage(sent, text, chunks);
      }
    }
  }

  // ---------------------------------------------------------------- the image

  class Laptop {
    const n: nat            // the image has n by n pixels
    const image: array<byte>
    var x: nat
    var y: nat
    var idx: nat

    ghost predicate Valid()
      reads this
    {
      && n > 0 && image.Length == n * (n * 3)
      && (if x == n then y == 0 && idx == 0 else x < n && y < n && idx < 3)
    }

    /** How many bytes of the image have arrived. */
    ghost function Arrived(): (p: nat)
      requires Valid()
      reads this
      ensures p <= image.Length && (x < n <==> p < image.Length)
    {
      if x < n then OffsetFits(n, x, y, idx); Offset(n, x, y, idx) else n * (n * 3)
    }

    constructor (n: nat, image: array<byte>)
      requires n > 0 && image.Length == n * (n * 3)
      ensures this.n == n && this.image == image && Valid() && Arrived() == 0
    {
      this.n := n;
      this.image := image;
      x, y, idx := 0, 0, 0;
    }

    /** Go on to the next component; true at the end of the image. */
    method UpdatePixel() returns (complete: bool)
      requires Valid() && x < n
      modifies this
      ensures Valid() && Arrived() == old(Arrived()) + 1
      ensures complete <==> Arrived() == image.Length
    {
      OffsetNext(n, x, y, idx);
      idx := idx + 1;
      if idx == 3 {
        idx := 0;
        y := y + 1;
        if y == n {
          y := 0;
          x := x + 1;
        }
      }
      complete := x == n;
    }

    /** Store a chunk where the last one ended, and drop what is beyond the image. */
    method UpdateImage(buf: seq<byte>)
      requires Valid() && x < n
      modifies this, image
      ensures Valid()
      ensures var p := old(Arrived());
        Arrived() == Min(p + |buf|, image.Length)
        && image[..] == Spliced(old(image[..]), p, buf[..Arrived() - p])
    {
      hide Spliced, Offset;
      ghost var was, p := image[..], Arrived();
      SplicedNone(was, p);
      for i := 0 to |buf|
        invariant Valid() && x < n && Arrived() == p + i
        invariant image[..] == Spliced(was, p, buf[..i])
      {
        SpliceNext(was, p, buf[..i], buf[i]);
        assert buf[..i] + [buf[i]] == buf[..i + 1];
        OffsetFits(n, x, y, idx);
        Store(buf[i]);
        var complete := UpdatePixel();
        if complete {
          return;
        }
      }
    }

    /** image[x][y][idx] = b */
    method Store(b: byte)
      requires Valid() && x < n
      modifies image
      ensures image[..] == old(image[..])[Arrived() := b]
    {
      OffsetFits(n, x, y, idx);
      image[x * (n * 3) + y * 3 + idx] := b;
    }

    /** One chunk: into the image while it is not complete, and to the screen from then on. */
    method Take(chunk: seq<byte>) returns (done: bool, text: seq<byte>)
      requires Valid()
      modifies this, image
      ensures Valid()
      ensures var p, total := old(Arrived()), image.Length;
        if p < total then
          && Arrived() == Min(p + |chunk|, total)
          && image[..] == Spliced(old(image[..]), p, chunk[..Arrived() - p])
          && text == [] && done == Done(chunk)
        else
          && Arrived() == p && image[..] == old(image[..])
          && text == Clean(chunk) && done == Done(Clean(chunk))
    {
      hide Spliced, Offset, Clean, Done;
      var buf := new byte[|chunk|](i requires 0 <= i < |chunk| => chunk[i]);
      assert buf[..] == chunk;
      text := [];
      if x < n {
        UpdateImage(buf[..]);
      } else {
        RemoveNonprint(buf);
        text := buf[..];
      }
      done := PiDone(buf[..]);
    }

    /** The reading loop: the first `first` chunks go into the image, and all others to the screen, until one of the
        `taken` chunks looks like a goodbye. */
    method Receive(chunks: seq<seq<byte>>) returns (taken: nat, printed: seq<byte>, ghost first: nat)
      requires Valid() && Arrived() == 0
      modifies this, image
      ensures Valid() && StopsAfter(image.Length, chunks, taken)
      ensures Arrived() == Min(|Concat(chunks[..taken])|, image.Length) <= |Concat(chunks)|
      ensures image[..] == Spliced(old(image[..]), 0, Concat(chunks)[..Arrived()])
      ensures first <= taken && printed == Clean(Concat(chunks[first..taken]))
      ensures forall k: nat :: k < taken ==> (k < first <==> InImage(image.Length, chunks, k))
    {
      hide Spliced, Concat, Clean, Done, Seen, Laptop.Valid;
      NothingYet(chunks, 0);
      SplicedNone(image[..], 0);
      ghost var whole, was, total := Concat(chunks), image[..], image.Length;
      taken, printed, first := 0, [], 0;
      var done := false;
      while !done && taken < |chunks|
        invariant 0 <= first <= taken <= |chunks|
        invariant Valid() && Arrived() == Min(|Concat(chunks[..taken])|, total) <= |whole|
        invariant image[..] == Spliced(was, 0, whole[..Arrived()])
        invariant printed == Clean(Concat(chunks[first..taken])) && (Arrived() < total ==> first == taken)
        invariant forall k: nat :: k < taken ==> (k < first <==> InImage(total, chunks, k))
        invariant SoFar(total, chunks, taken, done)
        decreases |chunks| - taken
      {
        ghost var p, now := Arrived(), image[..];
        NothingYet(chunks, taken);
        ConcatPrefix(chunks, taken);
        NextTaken(total, chunks, taken);
        var text;
        done, text := Take(chunks[taken]);
        if p < total {
          SplicedBehind(whole, was, now, p, chunks[taken], Arrived());
          first := first + 1;
          NothingYet(chunks, first);
        } else {
          MorePrinted(chunks, first, taken);
        }
        printed := printed + text;
        taken := taken + 1;
      }
    }
  }

  /** No chunk but perhaps the last of those taken said goodbye. */
  ghost predicate SoFar(total: nat, chunks: seq<seq<byte>>, taken: nat, done: bool)
    requires taken <= |chunks|
  {
    && (forall k: nat :: k + 1 < taken ==> !Done(Seen(total, chunks, k)))
    && done == (taken > 0 && Done(Seen(total, chunks, taken - 1)))
  }

  lemma NextTaken(total: nat, chunks: seq<seq<byte>>, taken: nat)
    requires taken < |chunks| && SoFar(total, chunks, taken, false)
    ensures SoFar(total, chunks, taken + 1, Done(Seen(total, chunks, taken)))
    ensures Seen(total, chunks, taken)
         == if |Concat(chunks[..taken])| < total then chunks[taken] else Clean(chunks[taken])
  {
    hide Done, Concat, Clean;
    forall k: nat | k + 1 < taken + 1
      ensures !Done(Seen(total, chunks, k))
    {
      if k + 1 == taken {
        assert k == taken - 1;
      }
    }
  }

  lemma NothingYet(chunks: seq<seq<byte>>, k: nat)
    requires k <= |chunks|
    ensures Concat(chunks[..0]) == [] && Clean(Concat(chunks[k..k])) == []
  {
    assert chunks[k..k] == [];
  }

  /** The chunk goes behind what has arrived. */
  lemma SplicedBehind<T>(whole: seq<T>, was: seq<T>, now: seq<T>, p: nat, chunk: seq<T>, q: nat)
    requires p + |chunk| <= |whole| && whole[p..p + |chunk|] == chunk && p <= q <= p + |chunk| && q <= |was|
    requires now == Spliced(was, 0, whole[..p])
    ensures Spliced(now, p, chunk[..q - p]) == Spliced(was, 0, whole[..q])
  {
  }

  lemma MorePrinted(chunks: seq<seq<byte>>, first: nat, k: nat)
    requires first <= k < |chunks|
    ensures Clean(Concat(chunks[first..k])) + Clean(chunks[k]) == Clean(Concat(chunks[first..k + 1]))
  {
    hide Concat;
    ConcatPrefix(chunks[first..], k - first);
    assert chunks[first..][..k - first] == chunks[first..k] && chunks[first..][..k - first + 1] == chunks[first..k + 1];
  }

  lemma Beginning<T>(sent: seq<T>, text: seq<T>, was: seq<T>, p: nat)
    requires p <= |sent| == |was|
    ensures (sent + text)[..p] == sent[..p]
    ensures p == |sent| ==> Spliced(was, 0, sent[..p]) == sent
  {
  }

  /** For every cutting of the image and the text behind it: what is stored is the beginning of the image as it was
      sent; it is the whole image exactly when nothing interrupts the loop; and nothing can, if the exit string does
      not stand in the image before its last byte. */
  method Reassemble(laptop: Laptop, sent: seq<byte>, text: seq<byte>, chunks: seq<seq<byte>>) returns (taken: nat)
    requires laptop.Valid() && laptop.Arrived() == 0 && |sent| == laptop.image.Length
    requires Concat(chunks) == sent + text
    modifies laptop, laptop.image
    ensures laptop.Valid() && StopsAfter(|sent|, chunks, taken)
    ensures laptop.image[..] == Spliced(old(laptop.image[..]), 0, sent[..laptop.Arrived()])
    ensures laptop.Arrived() == |sent| <==> Uninterrupted(|sent|, chunks)
    ensures Uninterrupted(|sent|, chunks) ==> laptop.image[..] == sent
    ensures !Occurs(sent[..|sent| - 1]) ==> Uninterrupted(|sent|, chunks)
  {
    hide Concat, StopsAfter, Uninterrupted, Occurs, Clean, Seen, Spliced;
    ghost var was := laptop.image[..];
    var printed;
    ghost var first;
    taken, printed, first := laptop.Receive(chunks);
    WholeIff(|sent|, chunks, taken);
    Beginning(sent, text, was, laptop.Arrived());
    if !Occurs(sent[..|sent| - 1]) {
      CleanImage(sent, text, chunks);
    }
  }

  /** Two chunks, the exit string and one byte: the second is never read. */
  lemma SecondChunkIgnored(total: nat, taken: nat)
    requires total >= 9 && StopsAfter(total, [EXIT, [1]], taken)
    ensures taken == 1 && |Concat([EXIT, [1]][..taken])| == 8 < |Concat([EXIT, [1]])|
  {
    ExitIsDone();
    var chunks := [EXIT, [1]];
    assert chunks[..0] == [] && chunks[..1] == [EXIT] && chunks[..2] == chunks;
    assert Done(Seen(total, chunks, 0));
    ConcatOne(EXIT);
    assert chunks[1..] == [[1]];
    ConcatOne<byte>([1]);
  }
}
