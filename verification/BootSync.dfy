/** The Unix side finds the word boundary in a stream that starts with garbage or in the middle of a word. */
module BootSync {
  import opened Bytes
  import opened Boot
  import opened BootPi
  import opened BootProtocol

  /** The word that starts at byte `p` of the garbage, which the first GET_PROG_INFO may complete. */
  function Window(g: seq<byte>, p: nat): word
    requires p < |g|
  {
    FromLittleEndian((g + LittleEndian(GET_PROG_INFO))[p..p + 4])
  }

  /** No four bytes that start in the garbage look like an opcode the loop reacts to. */
  ghost predicate Clean(g: seq<byte>) {
    forall p: nat :: p < |g| ==> Window(g, p) != GET_PROG_INFO && Window(g, p) != PRINT_STRING
  }

  lemma AskBytes()
    ensures LittleEndian(GET_PROG_INFO) == [0x22, 0x22, 0x11, 0x11]
  {
  }

  /** An opcode the loop does not want costs four bytes and one more. */
  lemma Missed(s: seq<byte>)
    requires |s| >= 5
    requires FromLittleEndian(s[..4]) != GET_PROG_INFO && FromLittleEndian(s[..4]) != PRINT_STRING
    ensures match Sync(s[5..])
            case Synced(tries, rest) => Sync(s) == Synced(tries + 1, rest)
            case _ => true
  {
    hide FromLittleEndian;
    assert s[4..][1..] == s[5..];
  }

  /** The word read from byte `e` of a repeated GET_PROG_INFO is no opcode. */
  lemma Straddles(e: nat, t: seq<byte>)
    requires 1 <= e <= 3
    ensures var s := LittleEndian(GET_PROG_INFO)[e..] + (LittleEndian(GET_PROG_INFO) + t);
      && FromLittleEndian(s[..4]) != GET_PROG_INFO && FromLittleEndian(s[..4]) != PRINT_STRING
      && s[5..] == LittleEndian(GET_PROG_INFO)[e + 1..] + t
  {
    AskBytes();
    hide LittleEndian;
    var s := LittleEndian(GET_PROG_INFO)[e..] + (LittleEndian(GET_PROG_INFO) + t);
    if e == 1 {
      assert s[..4] == [0x22, 0x11, 0x11, 0x22];
    } else if e == 2 {
      assert s[..4] == [0x11, 0x11, 0x22, 0x22];
    } else {
      assert s[..4] == [0x11, 0x22, 0x22, 0x11];
    }
  }

  lemma {:induction false} Aligned(k: nat, tail: seq<byte>)
    requires k >= 1
    ensures Sync(Repeat(GET_PROG_INFO, k) + tail) == Synced(1, Repeat(GET_PROG_INFO, k - 1) + tail)
  {
    hide LittleEndian, GetOp;
    var rest := Repeat(GET_PROG_INFO, k - 1) + tail;
    assert Repeat(GET_PROG_INFO, k) + tail == LittleEndian(GET_PROG_INFO) + rest;
    OpAtFront(GET_PROG_INFO, rest);
  }

  /** A stream that starts at byte `e` of a word is aligned with the (5 - e)-th opcode read: the fourth at
      the latest. */
  lemma {:induction false} MidWord(e: nat, k: nat, tail: seq<byte>)
    requires 1 <= e <= 4 && k >= 5 - e
    ensures Sync(LittleEndian(GET_PROG_INFO)[e..] + Repeat(GET_PROG_INFO, k) + tail)
         == Synced(5 - e, Repeat(GET_PROG_INFO, k - (5 - e)) + tail)
    decreases 4 - e
  {
    hide LittleEndian, Sync;
    var s := LittleEndian(GET_PROG_INFO)[e..] + Repeat(GET_PROG_INFO, k) + tail;
    if e == 4 {
      assert s == Repeat(GET_PROG_INFO, k) + tail;
      Aligned(k, tail);
    } else {
      var t := Repeat(GET_PROG_INFO, k - 1) + tail;
      assert s == LittleEndian(GET_PROG_INFO)[e..] + (LittleEndian(GET_PROG_INFO) + t);
      Straddles(e, t);
      MidWord(e + 1, k - 1, tail);
      assert LittleEndian(GET_PROG_INFO)[e + 1..] + Repeat(GET_PROG_INFO, k - 1) + tail
          == LittleEndian(GET_PROG_INFO)[e + 1..] + t;
      Missed(s);
    }
  }

  lemma CleanSuffix(g: seq<byte>)
    requires Clean(g) && |g| >= 5
    ensures Clean(g[5..])
  {
    hide LittleEndian, FromLittleEndian;
    forall p: nat | p < |g[5..]|
      ensures Window(g[5..], p) == Window(g, p + 5)
    {
      assert (g[5..] + LittleEndian(GET_PROG_INFO))[p..p + 4] == (g + LittleEndian(GET_PROG_INFO))[p + 5..p + 9];
    }
  }

  /** After `g` bytes of garbage the loop is aligned within ceil(|g| / 5) + 4 opcodes. */
  lemma {:induction false} GarbageSkipped(g: seq<byte>, k: nat, tail: seq<byte>) returns (left: nat)
    requires Clean(g) && k >= 6
    ensures left < k
    ensures var r := Sync(g + Repeat(GET_PROG_INFO, k) + tail);
      r.Synced? && r.tries <= (|g| + 4) / 5 + 4 && r.rest == Repeat(GET_PROG_INFO, left) + tail
    decreases |g|
  {
    hide LittleEndian, FromLittleEndian, Sync;
    var asks := Repeat(GET_PROG_INFO, k);
    var s := g + asks + tail;
    if g == [] {
      assert s == asks + tail;
      Aligned(k, tail);
      left := k - 1;
    } else {
      assert asks == LittleEndian(GET_PROG_INFO) + Repeat(GET_PROG_INFO, k - 1);
      assert s[..4] == (g + LittleEndian(GET_PROG_INFO))[0..4];
      assert FromLittleEndian(s[..4]) == Window(g, 0);
      if |g| < 5 {
        var e := 5 - |g|;
        assert s[5..] == LittleEndian(GET_PROG_INFO)[e..] + Repeat(GET_PROG_INFO, k - 1) + tail;
        MidWord(e, k - 1, tail);
        left := k - 1 - (5 - e);
      } else {
        assert s[5..] == g[5..] + asks + tail;
        CleanSuffix(g);
        left := GarbageSkipped(g[5..], k, tail);
      }
      Missed(s);
    }
  }

  /** From there on the boot goes as if the stream had started with some number of whole words. */
  lemma GarbageDoesNotMatter(g: seq<byte>, k: nat, tail: seq<byte>, prog: seq<byte>)
    requires Clean(g) && k >= 6 && |prog| < 0x1_0000_0000
    ensures exists asks: nat ::
              && 1 <= asks <= k
              && UnixRun(g + Repeat(GET_PROG_INFO, k) + tail, prog)
                 == UnixRun(Repeat(GET_PROG_INFO, asks) + tail, prog)
  {
    hide Sync, Clean, ProgInfo, UnixDrain;
    var left := GarbageSkipped(g, k, tail);
    Aligned(left + 1, tail);
    assert UnixRun(g + Repeat(GET_PROG_INFO, k) + tail, prog)
        == UnixRun(Repeat(GET_PROG_INFO, left + 1) + tail, prog);
  }
}
