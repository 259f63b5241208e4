/** What each half of the boot protocol demands of the bytes it reads, whatever they are: the words in numbers, where
    they stand, and what is withheld when one of them is wrong. */
module BootWire {
  import opened Bytes
  import opened Boot
  import opened BootPi
  import opened BootProtocol

  /** The four bytes from `i` on, the lowest first. */
  function WordAt(s: seq<byte>, i: nat): int
    requires i + 4 <= |s|
  {
    s[i] as int + 256 * s[i + 1] as int + 0x10000 * s[i + 2] as int + 0x1000000 * s[i + 3] as int
  }

  lemma WordIs(s: seq<byte>, i: nat)
    requires i + 4 <= |s|
    ensures FromLittleEndian(s[i..i + 4]) as int == WordAt(s, i)
  {
  }

  lemma Digits(a: nat, b: nat, c: nat, d: nat)
    requires a < 256 && b < 256 && c < 256 && d < 256
    ensures var u := a + 256 * b + 0x10000 * c + 0x1000000 * d;
      u % 256 == a && u / 256 % 256 == b && u / 0x10000 % 256 == c && u / 0x1000000 == d
  {
    var u := a + 256 * (b + 256 * (c + 256 * d));
    assert u / 256 == b + 256 * (c + 256 * d) && u % 256 == a;
    assert u / 0x10000 == c + 256 * d && u / 0x1000000 == d;
  }

  lemma WordThere(s: seq<byte>, i: nat)
    requires i + 4 <= |s|
    ensures LittleEndian(FromLittleEndian(s[i..i + 4])) == s[i..i + 4]
  {
    var w := s[i..i + 4];
    Digits(w[0] as nat, w[1] as nat, w[2] as nat, w[3] as nat);
    Parts(FromLittleEndian(w));
  }

  lemma Parts(u: word)
    ensures var b := LittleEndian(u); var n := u as int;
      && b[0] as int == n % 256 && b[1] as int == n / 256 % 256
      && b[2] as int == n / 0x10000 % 256 && b[3] as int == n / 0x1000000
  {
  }

  // ---------------------------------------------------------------- the Pi

  /** Everything that the Pi has checked when it says BOOT_SUCCESS: two opcodes, a range that does not collide, all of
      the code, and its checksum. */
  ghost predicate Accepts(s: seq<byte>, loader: Loader) {
    && |s| >= 20 && WordAt(s, 0) == 0x33334444 && WordAt(s, 16) == 0x77778888
    && !Collides(loader, WordAt(s, 4) as word, WordAt(s, 8) as word)
    && |s| >= 20 + WordAt(s, 8)
    && Crc(s[20..20 + WordAt(s, 8)]) as int == WordAt(s, 12)
  }

  /** For every stream: the Pi succeeds exactly when it accepts, and then the code is where it was told to put it. */
  lemma PiSucceedsIff(asks: nat, s: seq<byte>, mem: Memory, loader: Loader)
    ensures var r := PiRun(asks, s, mem, loader);
      && (r.status == Success <==> Accepts(s, loader))
      && (r.status == Success ==>
            ReadBack(r.mem, WordAt(s, 4) as word, WordAt(s, 8)) == s[20..20 + WordAt(s, 8)])
  {
    hide FromLittleEndian, LittleEndian, Crc, Collides, Store, ReadBack, PrintMessage;
    if |s| >= 20 {
      WordIs(s, 0);
      WordIs(s, 4);
      WordIs(s, 8);
      WordIs(s, 12);
      WordIs(s, 16);
      assert s[0..4] == s[..4] && s[16..][..4] == s[16..20];
      var base, n := FromLittleEndian(s[4..8]), FromLittleEndian(s[8..12]);
      if |s| >= 20 + n as nat {
        var code := s[20..20 + n as nat];
        assert s[16..][4..4 + n as nat] == code;
        StoreReadBack(mem, base, code);
      }
    }
  }

  /** The Pi writes nothing before it has seen both opcodes and a range that does not collide. */
  lemma PiWritesOnlyIf(asks: nat, s: seq<byte>, mem: Memory, loader: Loader)
    requires PiRun(asks, s, mem, loader).mem != mem
    ensures |s| > 20 && WordAt(s, 0) == 0x33334444 && WordAt(s, 16) == 0x77778888
    ensures !Collides(loader, WordAt(s, 4) as word, WordAt(s, 8) as word)
  {
    hide FromLittleEndian, LittleEndian, Crc, Collides, ReadBack, PrintMessage;
    if |s| >= 20 {
      WordIs(s, 0);
      WordIs(s, 4);
      WordIs(s, 8);
      WordIs(s, 16);
      assert s[0..4] == s[..4] && s[16..][..4] == s[16..20];
    }
  }

  // ---------------------------------------------------------------- the Unix side

  /** The word `u` stands at `i`. */
  ghost predicate Stands(s: seq<byte>, i: nat, u: word) {
    i + 4 <= |s| && s[i..i + 4] == LittleEndian(u)
  }

  lemma OpStep(s: seq<byte>)
    requires |s| >= 4
    ensures GetOp(s) ==
      if FromLittleEndian(s[..4]) != PRINT_STRING then Op(FromLittleEndian(s[..4]), s[4..])
      else if |s| < 8 then NeedMore
      else if FromLittleEndian(s[4..8]) >= 512 then TooLong
      else if |s| < 8 + PrintLength(FromLittleEndian(s[4..8])) then NeedMore
      else GetOp(s[8 + PrintLength(FromLittleEndian(s[4..8]))..])
  {
    hide FromLittleEndian, PrintLength;
  }

  /** An opcode that is read stands directly before what is left. */
  lemma {:induction false} OpStands(s: seq<byte>)
    requires GetOp(s).Op?
    ensures var rest := GetOp(s).rest;
      |rest| + 4 <= |s| && s[|s| - |rest|..] == rest && Stands(s, |s| - |rest| - 4, GetOp(s).op)
    decreases |s|
  {
    hide LittleEndian, FromLittleEndian, GetOp, PrintLength, Stands;
    LongEnough(s);
    OpStep(s);
    var rest := GetOp(s).rest;
    if FromLittleEndian(s[..4]) == PRINT_STRING {
      var skip := 8 + PrintLength(FromLittleEndian(s[4..8]));
      var t := s[skip..];
      OpStands(t);
      SuffixStands(s, t, |t| - |rest| - 4, GetOp(s).op);
      SuffixOfSuffix(s, t, rest);
    } else {
      FrontStands(s);
    }
  }

  lemma LongEnough(s: seq<byte>)
    requires GetOp(s).Op?
    ensures |s| >= 4
  {
  }

  lemma FrontStands(s: seq<byte>)
    requires |s| >= 4
    ensures s[|s| - |s[4..]|..] == s[4..] && Stands(s, 0, FromLittleEndian(s[..4]))
  {
    hide LittleEndian, FromLittleEndian;
    WordThere(s, 0);
    assert s[0..4] == s[..4];
  }

  lemma {:induction false} AwaitedStands(s: seq<byte>, wanted: word)
    requires Await(s, wanted).Op?
    ensures var rest := Await(s, wanted).rest;
      |rest| + 4 <= |s| && s[|s| - |rest|..] == rest && Stands(s, |s| - |rest| - 4, wanted)
    decreases |s|
  {
    hide LittleEndian, GetOp;
    OpStands(s);
    var t := GetOp(s).rest;
    if GetOp(s).op != wanted {
      AwaitedStands(t, wanted);
      SuffixStands(s, t, |t| - |Await(t, wanted).rest| - 4, wanted);
      SuffixOfSuffix(s, t, Await(t, wanted).rest);
    }
  }

  lemma SuffixStands(s: seq<byte>, t: seq<byte>, i: nat, u: word)
    requires |t| <= |s| && s[|s| - |t|..] == t && Stands(t, i, u)
    ensures Stands(s, |s| - |t| + i, u)
  {
    hide LittleEndian;
    assert s[|s| - |t| + i..|s| - |t| + i + 4] == t[i..i + 4];
  }

  lemma SuffixOfSuffix(s: seq<byte>, t: seq<byte>, r: seq<byte>)
    requires |r| <= |t| <= |s| && s[|s| - |t|..] == t && t[|t| - |r|..] == r
    ensures s[|s| - |r|..] == r
  {
    assert s[|s| - |r|..] == s[|s| - |t|..][|t| - |r|..];
  }

  lemma {:induction false} SyncStands(s: seq<byte>)
    requires Sync(s).Synced?
    ensures var rest := Sync(s).rest;
      |rest| + 4 <= |s| && s[|s| - |rest|..] == rest && Stands(s, |s| - |rest| - 4, GET_PROG_INFO)
    decreases |s|
  {
    hide LittleEndian, GetOp;
    OpStands(s);
    var t := GetOp(s).rest;
    if GetOp(s).op != GET_PROG_INFO {
      SyncStands(t[1..]);
      var rest := Sync(s).rest;
      assert s[|s| - |t[1..]|..] == t[1..];
      SuffixStands(s, t[1..], |t[1..]| - |rest| - 4, GET_PROG_INFO);
      SuffixOfSuffix(s, t[1..], rest);
    }
  }

  /** All that the Unix side sends, in numbers: its four words, and then the code. */
  function Sent(prog: seq<byte>): seq<byte>
    requires |prog| < 0x1_0000_0000
  {
    Told(prog) + (LittleEndian(0x77778888) + prog)
  }

  function Told(prog: seq<byte>): seq<byte>
    requires |prog| < 0x1_0000_0000
  {
    LittleEndian(0x33334444) + LittleEndian(0x8000) + LittleEndian(|prog| as word) + LittleEndian(Crc(prog))
  }

  /** The words that must have been read, one after the other: the request, the two of the echo, and the verdict. */
  ghost predicate Asked(s: seq<byte>, i: nat) {
    Stands(s, i, 0x11112222)
  }

  ghost predicate Echoed(s: seq<byte>, i: nat, j: nat, prog: seq<byte>) {
    Stands(s, i, 0x55556666) && i + 4 <= j && Stands(s, j, Crc(prog))
  }

  /** Whatever the Unix side reads: it sends nothing before a GET_PROG_INFO; it sends the code only behind a GET_CODE
      and the right checksum; and it succeeds only on a BOOT_SUCCESS behind them. */
  lemma UnixOnlyIf(s: seq<byte>, prog: seq<byte>)
    requires |prog| < 0x1_0000_0000
    ensures var r := UnixRun(s, prog);
      && (r.out == [] || r.out == Told(prog) || r.out == Sent(prog))
      && (r.out != [] ==> exists i: nat :: Asked(s, i))
      && (r.out == Sent(prog) ==>
            exists i: nat, j: nat, k: nat :: Asked(s, i) && i + 4 <= j && Echoed(s, j, k, prog))
      && (r.status == Success ==> r.out == Sent(prog))
      && (r.status == Success ==>
            exists i: nat, j: nat, k: nat, l: nat ::
              Asked(s, i) && i + 4 <= j && Echoed(s, j, k, prog) && k + 4 <= l && Stands(s, l, 0x9999AAAA))
  {
    hide LittleEndian, GetOp, Await, Sync, Crc, Stands, UnixDrain;
    NothingIsNotTold(prog);
    if Sync(s).Synced? {
      SyncStands(s);
      var t := Sync(s).rest;
      var i := |s| - |t| - 4;
      assert Asked(s, i);
      DrainOnlyIf(s, t, prog);
    }
  }

  lemma NothingIsNotTold(prog: seq<byte>)
    requires |prog| < 0x1_0000_0000
    ensures |Told(prog)| == 16 && |Sent(prog)| == 20 + |prog| && ProgInfo(prog) == Told(prog)
    ensures Told(prog) + [] == Told(prog)
  {
  }

  lemma DrainOnlyIf(s: seq<byte>, t: seq<byte>, prog: seq<byte>)
    requires |prog| < 0x1_0000_0000 && |t| <= |s| && s[|s| - |t|..] == t
    ensures var r := UnixDrain(t, prog);
      && (r.out == [] || r.out == LittleEndian(0x77778888) + prog)
      && (r.out != [] ==> exists j: nat, k: nat :: |s| - |t| <= j && Echoed(s, j, k, prog))
      && (r.status == Success ==> r.out != [])
      && (r.status == Success ==>
            exists j: nat, k: nat, l: nat ::
              |s| - |t| <= j && Echoed(s, j, k, prog) && k + 4 <= l && Stands(s, l, 0x9999AAAA))
  {
    hide LittleEndian, GetOp, Await, Crc, Stands;
    if Await(t, GET_CODE).Op? {
      AwaitedStands(t, GET_CODE);
      var e := Await(t, GET_CODE).rest;
      SuffixStands(s, t, |t| - |e| - 4, GET_CODE);
      SuffixOfSuffix(s, t, e);
      if GetOp(e).Op? && GetOp(e).op == Crc(prog) {
        OpStands(e);
        var f := GetOp(e).rest;
        SuffixStands(s, e, |e| - |f| - 4, Crc(prog));
        SuffixOfSuffix(s, e, f);
        var j, k := |s| - |e| - 4, |s| - |f| - 4;
        assert |s| - |t| <= j && Echoed(s, j, k, prog);
        assert LittleEndian(PUT_CODE) + prog + [] == LittleEndian(PUT_CODE) + prog;
        if Await(f, BOOT_SUCCESS).Op? {
          AwaitedStands(f, BOOT_SUCCESS);
          var g := Await(f, BOOT_SUCCESS).rest;
          SuffixStands(s, f, |f| - |g| - 4, BOOT_SUCCESS);
          assert Stands(s, |s| - |g| - 4, 0x9999AAAA);
        }
      }
    }
  }

  /** The code is withheld exactly when the echoed word is not the checksum of the program. */
  lemma CodeSentIff(prog: seq<byte>, asks: nat, echo: word, rest: seq<byte>)
    requires |prog| < 0x1_0000_0000 && asks > 0 && echo != 0xDDDDEEEE
    ensures var s := Repeat(0x11112222, asks) + (LittleEndian(0x55556666) + (LittleEndian(echo) + rest));
      var r := UnixRun(s, prog);
      if echo == Crc(prog) then r.out == Sent(prog) else r.out == Told(prog) && r.status == Failed
  {
    hide LittleEndian, GetOp, Await, Crc, Repeat, UnixFinish;
    var t := LittleEndian(GET_CODE) + (LittleEndian(echo) + rest);
    FirstAsk(asks, t);
    AwaitSkips(asks - 1, t);
    AwaitFinds(LittleEndian(echo) + rest);
    OpAtFront(echo, rest);
    NothingIsNotTold(prog);
    FinishSaysNothing(rest);
    assert LittleEndian(PUT_CODE) + prog + [] == LittleEndian(PUT_CODE) + prog;
  }

  lemma FirstAsk(asks: nat, t: seq<byte>)
    requires asks > 0
    ensures Sync(Repeat(GET_PROG_INFO, asks) + t) == Synced(1, Repeat(GET_PROG_INFO, asks - 1) + t)
  {
    hide LittleEndian, GetOp;
    var rest := Repeat(GET_PROG_INFO, asks - 1) + t;
    assert Repeat(GET_PROG_INFO, asks) + t == LittleEndian(GET_PROG_INFO) + rest;
    OpAtFront(GET_PROG_INFO, rest);
  }

  lemma FinishSaysNothing(s: seq<byte>)
    ensures UnixFinish(s).out == []
  {
    hide Await;
  }

  /** Damage to the four words that changes the checksum is caught by the echo: the Pi sends back what it read, and the
      Unix side keeps the code. */
  lemma EchoCatchesDamage(prog: seq<byte>, asks: nat, base: word, n: word, cksum: word, mem: Memory, loader: Loader)
    requires |prog| < 0x1_0000_0000 && asks > 0 && !Collides(loader, base, n)
    requires cksum != Crc(prog) && cksum != 0xDDDDEEEE
    ensures var read := LittleEndian(0x33334444) + LittleEndian(base) + LittleEndian(n) + LittleEndian(cksum);
      var r := UnixRun(PiRun(asks, read, mem, loader).out, prog);
      r.out == Told(prog) && r.status == Failed
  {
    hide LittleEndian, FromLittleEndian, Crc, Collides, UnixRun, PiCode, Repeat;
    var read := LittleEndian(0x33334444) + LittleEndian(base) + LittleEndian(n) + LittleEndian(cksum);
    InfoRead(base, n, cksum, [], mem, loader);
    assert read + [] == read;
    NoCodeYet(mem, base, n, cksum);
    var echo := LittleEndian(GET_CODE) + LittleEndian(cksum);
    assert Repeat(GET_PROG_INFO, asks) + (echo + [])
        == Repeat(GET_PROG_INFO, asks) + (LittleEndian(0x55556666) + (LittleEndian(cksum) + []));
    CodeSentIff(prog, asks, cksum, []);
  }

  lemma NoCodeYet(mem: Memory, base: word, n: word, cksum: word)
    ensures PiCode([], mem, base, n, cksum) == PiOutcome(Reading, [], mem)
  {
  }

  /** After a BOOT_ERROR the Unix side waits for ever, however often the Pi asks again. */
  lemma ErrorHangs(prog: seq<byte>, asks: nat, again: nat)
    requires |prog| < 0x1_0000_0000 && asks > 0 && Crc(prog) != 0xDDDDEEEE
    ensures var answer := PrintMessage(CRC_MESSAGE) + (LittleEndian(0xBBBBCCCC) + Repeat(0x11112222, again));
      UnixRun(Repeat(0x11112222, asks) + (LittleEndian(0x55556666) + (LittleEndian(Crc(prog)) + answer)), prog)
        == Outcome(Reading, Sent(prog))
  {
    hide LittleEndian, GetOp, Await, Crc, Repeat, PrintMessage;
    var more := LittleEndian(BOOT_ERROR) + Repeat(GET_PROG_INFO, again);
    var answer := PrintMessage(CRC_MESSAGE) + more;
    var t := LittleEndian(GET_CODE) + (LittleEndian(Crc(prog)) + answer);
    FirstAsk(asks, t);
    AwaitSkips(asks - 1, t);
    AwaitFinds(LittleEndian(Crc(prog)) + answer);
    OpAtFront(Crc(prog), answer);
    NothingIsNotTold(prog);
    ErrorIgnored(again);
    assert LittleEndian(PUT_CODE) + prog + [] == LittleEndian(PUT_CODE) + prog;
  }

  lemma ErrorIgnored(again: nat)
    ensures Await(PrintMessage(CRC_MESSAGE) + (LittleEndian(BOOT_ERROR) + Repeat(GET_PROG_INFO, again)), BOOT_SUCCESS)
         == NeedMore
  {
    hide LittleEndian, GetOp, PrintMessage, Repeat;
    var asks := Repeat(GET_PROG_INFO, again);
    PrintRead(CRC_MESSAGE, LittleEndian(BOOT_ERROR) + asks);
    OpAtFront(BOOT_ERROR, asks);
    AwaitBlocks(again, 4 * again, BOOT_SUCCESS);
    assert asks[..4 * again] == asks;
  }

  /** A print message of 1 to 511 bytes is skipped, a longer one ends the boot, and an empty one swallows all that
      follows. */
  lemma PrintsSkippedIff(n: word, text: seq<byte>, rest: seq<byte>)
    requires |text| == n as nat
    ensures var s := LittleEndian(0xDDDDEEEE) + (LittleEndian(n) + (text + rest));
      if n >= 512 then GetOp(s) == TooLong
      else if n > 0 then GetOp(s) == GetOp(rest)
      else |rest| < 0x1_0000_0000 ==> GetOp(s) == NeedMore
  {
    hide LittleEndian, FromLittleEndian, GetOp;
    WordRoundTrip(PRINT_STRING);
    WordRoundTrip(n);
    var s := LittleEndian(PRINT_STRING) + (LittleEndian(n) + (text + rest));
    assert s[..4] == LittleEndian(PRINT_STRING) && s[4..8] == LittleEndian(n);
    OpStep(s);
    if 0 < n < 512 {
      assert s[8 + n as nat..] == rest;
    }
  }
}
