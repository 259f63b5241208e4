/** A boot over a line that delivers garbage before the Pi's first word: both halves running against each other, as
    in BootProtocol, with the garbage in front of everything the Unix side reads. */
module BootGarbage {
  import opened Boot
  import opened BootPi
  import opened BootProtocol
  import opened BootSync
  import opened Bytes

  /** What has been put on the line to the Unix side. */
  function Line(setup: Setup, garbage: seq<byte>, s: State): seq<byte> {
    garbage + PiSide(setup, s).out
  }

  ghost predicate CanStep(setup: Setup, garbage: seq<byte>, s: State, a: Action)
    requires |setup.prog| < 0x1_0000_0000
  {
    match a
    case AskAgain => s.pi == []
    case UnixReads => |s.unix| < |Line(setup, garbage, s)|
    case PiReads => |s.pi| < |UnixSide(setup, s).out|
  }

  ghost function Step(setup: Setup, garbage: seq<byte>, s: State, a: Action): State
    requires |setup.prog| < 0x1_0000_0000 && CanStep(setup, garbage, s, a)
  {
    match a
    case AskAgain => s.(sends := s.sends + 1)
    case UnixReads => s.(unix := s.unix + [Line(setup, garbage, s)[|s.unix|]])
    case PiReads => s.(pi := s.pi + [UnixSide(setup, s).out[|s.pi|]])
  }

  ghost predicate IsGarbledRun(setup: Setup, garbage: seq<byte>, run: seq<State>, acts: seq<Action>)
    requires |setup.prog| < 0x1_0000_0000
  {
    && |run| == |acts| + 1
    && run[0] == START
    && forall t :: 0 <= t < |acts| ==>
         CanStep(setup, garbage, run[t], acts[t]) && run[t + 1] == Step(setup, garbage, run[t], acts[t])
  }

  // ---------------------------------------------------------------- reading a prefix

  /** An opcode does not depend on what comes after it. */
  lemma {:induction false} OpExtends(s: seq<byte>, t: seq<byte>)
    requires GetOp(s).Op?
    ensures GetOp(s + t) == Op(GetOp(s).op, GetOp(s).rest + t)
    decreases |s|
  {
    hide FromLittleEndian;
    assert (s + t)[..4] == s[..4];
    if FromLittleEndian(s[..4]) == PRINT_STRING {
      var n := 8 + PrintLength(FromLittleEndian(s[4..8]));
      assert (s + t)[4..8] == s[4..8] && (s + t)[n..] == s[n..] + t;
      OpExtends(s[n..], t);
    } else {
      assert (s + t)[4..] == s[4..] + t;
    }
  }

  /** An opcode is not read before all of it has come. */
  lemma {:induction false} OpTooShort(s: seq<byte>, m: nat)
    requires GetOp(s).Op? && m < |s| - |GetOp(s).rest|
    ensures GetOp(s[..m]) == NeedMore
    decreases |s|
  {
    hide FromLittleEndian;
    if m >= 4 {
      assert s[..m][..4] == s[..4];
      if m >= 8 {
        assert s[..m][4..8] == s[4..8];
        var n := 8 + PrintLength(FromLittleEndian(s[4..8]));
        if m >= n {
          assert s[..m][n..] == s[n..][..m - n];
          OpTooShort(s[n..], m - n);
        }
      }
    }
  }

  /** The same for the search for the first GET_PROG_INFO. */
  lemma {:induction false} SyncExtends(s: seq<byte>, t: seq<byte>)
    requires Sync(s).Synced?
    ensures Sync(s + t) == Synced(Sync(s).tries, Sync(s).rest + t)
    decreases |s|
  {
    hide GetOp;
    OpExtends(s, t);
    var rest := GetOp(s).rest;
    if GetOp(s).op != GET_PROG_INFO {
      assert (rest + t)[1..] == rest[1..] + t;
      SyncExtends(rest[1..], t);
    }
  }

  lemma {:induction false} SyncTooShort(s: seq<byte>, m: nat)
    requires Sync(s).Synced? && m < |s| - |Sync(s).rest|
    ensures Sync(s[..m]) == NotYet
    decreases |s|
  {
    hide GetOp;
    var rest := GetOp(s).rest;
    var used := |s| - |rest|;
    if m < used {
      OpTooShort(s, m);
    } else {
      OpWithin(s, used, m);
      if m > used {
        assert rest[..m - used][1..] == rest[1..][..m - used - 1];
        SyncTooShort(rest[1..], m - used - 1);
      }
    }
  }

  lemma OpWithin(s: seq<byte>, used: nat, m: nat)
    requires GetOp(s).Op? && used == |s| - |GetOp(s).rest| <= m <= |s|
    ensures GetOp(s[..m]) == Op(GetOp(s).op, GetOp(s).rest[..m - used])
    decreases |s|
  {
    hide FromLittleEndian;
    assert s[..m][..4] == s[..4];
    if FromLittleEndian(s[..4]) == PRINT_STRING {
      var n := 8 + PrintLength(FromLittleEndian(s[4..8]));
      assert s[..m][4..8] == s[4..8];
      OpWithin(s[n..], used - n, m - n);
      assert s[..m][n..] == s[n..][..m - n];
    } else {
      assert s[..m][4..] == s[4..][..m - 4];
    }
  }

  /** The garbage and as many GET_PROG_INFO words as it takes to find the word boundary. */
  function Head(garbage: seq<byte>, asks: nat): (r: seq<byte>)
    ensures |r| == |garbage| + 4 * asks
  {
    garbage + Repeat(GET_PROG_INFO, asks)
  }

  /** The Unix side is aligned at the end of the head, and not before. */
  ghost predicate IsHead(garbage: seq<byte>, asks: nat) {
    && asks >= 1
    && Sync(Head(garbage, asks)).Synced? && Sync(Head(garbage, asks)).rest == []
  }

  lemma HeadExists(garbage: seq<byte>) returns (asks: nat)
    requires Clean(garbage)
    ensures 1 <= asks <= 6 && IsHead(garbage, asks)
  {
    hide Sync, Clean, Repeat;
    var left := GarbageSkipped(garbage, 6, []);
    asks := 6 - left;
    var s := garbage + Repeat(GET_PROG_INFO, 6) + [];
    RepeatSplit(GET_PROG_INFO, asks, left);
    assert s == Head(garbage, asks) + (Repeat(GET_PROG_INFO, left) + []);
    SyncWithin(s, |Head(garbage, asks)|);
    assert s[..|Head(garbage, asks)|] == Head(garbage, asks);
  }

  lemma {:induction false} RepeatSplit(u: word, a: nat, b: nat)
    ensures Repeat(u, a + b) == Repeat(u, a) + Repeat(u, b)
  {
    hide LittleEndian;
    if a > 0 {
      RepeatSplit(u, a - 1, b);
      assert Repeat(u, a + b) == LittleEndian(u) + (Repeat(u, a - 1) + Repeat(u, b));
    }
  }

  lemma {:induction false} SyncWithin(s: seq<byte>, m: nat)
    requires Sync(s).Synced? && |s| - |Sync(s).rest| <= m <= |s|
    ensures Sync(s[..m]) == Synced(Sync(s).tries, Sync(s).rest[..m - (|s| - |Sync(s).rest|)])
    decreases |s|
  {
    hide GetOp;
    var op := GetOp(s);
    var used := |s| - |op.rest|;
    if op.op != GET_PROG_INFO {
      var next := op.rest[1..];
      OpWithin(s, used, m);
      assert op.rest[..m - used][1..] == next[..m - used - 1];
      SyncWithin(next, m - used - 1);
    } else {
      OpWithin(s, used, m);
    }
  }

  // ---------------------------------------------------------------- the boot without garbage that it looks like

  /** The state of BootProtocol that looks the same to the Pi and to the Unix side from the word boundary on: one
      GET_PROG_INFO has been read, and the head counts for no more. */
  function Clear(garbage: seq<byte>, asks: nat, s: State): State {
    if |s.unix| < |Head(garbage, asks)| || s.sends < asks then START
    else State(s.sends - asks + 1, LittleEndian(GET_PROG_INFO) + s.unix[|Head(garbage, asks)|..], s.pi)
  }

  ghost predicate GarbledInv(setup: Setup, garbage: seq<byte>, asks: nat, s: State) {
    && Good(setup) && IsHead(garbage, asks) && s.sends >= 1
    && if |s.unix| < |Head(garbage, asks)| then
         s.pi == [] && |s.unix| <= |garbage| + 4 * s.sends && s.unix == Head(garbage, s.sends)[..|s.unix|]
       else
         && s.sends >= asks && s.unix[..|Head(garbage, asks)|] == Head(garbage, asks)
         && Inv(setup, Clear(garbage, asks, s))
  }

  /** Before the boundary the Unix side is silent and the Pi only asks. */
  lemma NotYetAligned(setup: Setup, garbage: seq<byte>, asks: nat, s: State)
    requires GarbledInv(setup, garbage, asks, s) && |s.unix| < |Head(garbage, asks)|
    ensures UnixSide(setup, s) == Outcome(Reading, [])
    ensures PiSide(setup, s) == PiOutcome(Reading, Repeat(GET_PROG_INFO, s.sends), setup.mem)
    ensures Line(setup, garbage, s) == Head(garbage, s.sends)
  {
    hide Sync, Repeat, Good, Inv;
    var m := |s.unix|;
    HeadPrefix(garbage, asks, s.sends, m);
    SyncTooShort(Head(garbage, asks), m);
    assert Repeat(GET_PROG_INFO, s.sends) + [] == Repeat(GET_PROG_INFO, s.sends);
  }

  lemma HeadPrefix(garbage: seq<byte>, a: nat, b: nat, m: nat)
    requires m <= |garbage| + 4 * a && m <= |garbage| + 4 * b
    ensures Head(garbage, a)[..m] == Head(garbage, b)[..m]
  {
    hide Repeat;
    if a <= b {
      RepeatSplit(GET_PROG_INFO, a, b - a);
    } else {
      RepeatSplit(GET_PROG_INFO, b, a - b);
    }
  }

  /** After it, both sides are as in the boot without garbage. */
  lemma AlignedLooksClear(setup: Setup, garbage: seq<byte>, asks: nat, s: State)
    requires GarbledInv(setup, garbage, asks, s) && |s.unix| >= |Head(garbage, asks)|
    ensures var c := Clear(garbage, asks, s);
      && UnixSide(setup, s) == UnixSide(setup, c)
      && PiSide(setup, s).status == PiSide(setup, c).status && PiSide(setup, s).mem == PiSide(setup, c).mem
      && Line(setup, garbage, s) == Head(garbage, asks - 1) + PiSide(setup, c).out
  {
    hide Sync, Repeat, Good, Inv, UnixDrain, PiInfo, LittleEndian, ProgInfo, GetOp;
    var head := Head(garbage, asks);
    var tail := s.unix[|head|..];
    assert s.unix == head + tail;
    SyncExtends(head, tail);
    assert [] + tail == tail;
    FirstAsk(tail);
    RepeatSplit(GET_PROG_INFO, asks - 1, s.sends - asks + 1);
  }

  lemma FirstAsk(tail: seq<byte>)
    ensures Sync(LittleEndian(GET_PROG_INFO) + tail) == Synced(1, tail)
  {
    hide LittleEndian, GetOp;
    OpAtFront(GET_PROG_INFO, tail);
  }

  // ---------------------------------------------------------------- every reachable state

  lemma StartGarbled(setup: Setup, garbage: seq<byte>, asks: nat)
    requires Good(setup) && IsHead(garbage, asks)
    ensures GarbledInv(setup, garbage, asks, START)
  {
    hide Good, Inv, IsHead, Sync;
    assert asks >= 1 by {
      AtLeastOne(garbage, asks);
    }
  }

  lemma AtLeastOne(garbage: seq<byte>, asks: nat)
    requires IsHead(garbage, asks)
    ensures asks >= 1
  {
  }

  /** The first state after the boundary. */
  lemma {:induction false} Asked(setup: Setup, n: nat)
    requires Good(setup) && n >= 1
    ensures Inv(setup, State(n, [], []))
  {
    hide Inv, Good;
    if n == 1 {
      StartHolds(setup);
    } else {
      Asked(setup, n - 1);
      AskAgainKeeps(setup, State(n - 1, [], []));
    }
  }

  lemma AskedAndRead(setup: Setup, n: nat)
    requires Good(setup) && n >= 1
    ensures Inv(setup, State(n, LittleEndian(GET_PROG_INFO), []))
  {
    hide UnixRun, PiRun, ToPi, LittleEndian, Crc, Collides, Answer;
    Asked(setup, n);
    PiOnPrefix(setup, n, 0);
    assert ToPi(setup.prog)[..0] == [];
    assert ToUnix(setup.prog, n)[..4] == LittleEndian(GET_PROG_INFO);
  }

  lemma AskKeeps(setup: Setup, garbage: seq<byte>, asks: nat, s: State)
    requires GarbledInv(setup, garbage, asks, s) && s.pi == []
    ensures GarbledInv(setup, garbage, asks, s.(sends := s.sends + 1))
  {
    hide Good, Inv, IsHead, Sync, LittleEndian, Head;
    if |s.unix| < |Head(garbage, asks)| {
      HeadPrefix(garbage, s.sends, s.sends + 1, |s.unix|);
    } else {
      AskAgainKeeps(setup, Clear(garbage, asks, s));
    }
  }

  lemma ReadKeeps(setup: Setup, garbage: seq<byte>, asks: nat, s: State)
    requires GarbledInv(setup, garbage, asks, s) && CanStep(setup, garbage, s, UnixReads)
    ensures GarbledInv(setup, garbage, asks, Step(setup, garbage, s, UnixReads))
  {
    hide Crc, Collides, IsHead, Inv, Sync, LittleEndian, UnixSide, PiSide, Head;
    var s' := Step(setup, garbage, s, UnixReads);
    var m, c := |s.unix|, |Head(garbage, asks)|;
    if m < c {
      NotYetAligned(setup, garbage, asks, s);
      assert s'.unix == Head(garbage, s.sends)[..m + 1];
      if m + 1 == c {
        HeadPrefix(garbage, asks, s.sends, c);
        assert Head(garbage, asks)[..c] == Head(garbage, asks) && s'.unix[..c] == s'.unix;
        assert LittleEndian(GET_PROG_INFO) + s'.unix[c..] == LittleEndian(GET_PROG_INFO);
        AskedAndRead(setup, s.sends - asks + 1);
      }
    } else {
      AlignedLooksClear(setup, garbage, asks, s);
      ClearReads(setup, garbage, asks, s);
      assert s'.unix[..c] == s.unix[..c];
    }
  }

  /** A byte read after the boundary is a byte read in the boot without garbage. */
  lemma ClearReads(setup: Setup, garbage: seq<byte>, asks: nat, s: State)
    requires GarbledInv(setup, garbage, asks, s) && CanStep(setup, garbage, s, UnixReads)
    requires |s.unix| >= |Head(garbage, asks)|
    ensures Inv(setup, Clear(garbage, asks, Step(setup, garbage, s, UnixReads)))
  {
    hide Crc, Collides, IsHead, Inv, Sync, LittleEndian, UnixSide, PiSide;
    AlignedLooksClear(setup, garbage, asks, s);
    var s', c := Step(setup, garbage, s, UnixReads), Clear(garbage, asks, s);
    var h := |Head(garbage, asks)|;
    assert |Head(garbage, asks - 1)| == h - 4 && |c.unix| == |s.unix| - h + 4;
    assert Line(setup, garbage, s)[|s.unix|] == PiSide(setup, c).out[|c.unix|];
    assert s'.unix[h..] == s.unix[h..] + [s'.unix[|s.unix|]];
    assert Clear(garbage, asks, s') == Apply(setup, c, UnixReads);
    UnixReadsKeeps(setup, c);
  }

  lemma PiReadKeeps(setup: Setup, garbage: seq<byte>, asks: nat, s: State)
    requires GarbledInv(setup, garbage, asks, s) && CanStep(setup, garbage, s, PiReads)
    ensures GarbledInv(setup, garbage, asks, Step(setup, garbage, s, PiReads))
  {
    hide Good, IsHead, Inv, Sync, LittleEndian, UnixSide, PiSide, Head;
    if |s.unix| < |Head(garbage, asks)| {
      NotYetAligned(setup, garbage, asks, s);
    } else {
      AlignedLooksClear(setup, garbage, asks, s);
      PiReadsKeeps(setup, Clear(garbage, asks, s));
    }
  }

  lemma {:induction false} GarbledReachable(setup: Setup, garbage: seq<byte>, asks: nat,
                                            run: seq<State>, acts: seq<Action>, t: nat)
    requires Good(setup) && IsHead(garbage, asks) && IsGarbledRun(setup, garbage, run, acts) && t <= |acts|
    ensures GarbledInv(setup, garbage, asks, run[t])
  {
    hide GarbledInv, CanStep, Step, IsHead;
    if t == 0 {
      StartGarbled(setup, garbage, asks);
    } else {
      GarbledReachable(setup, garbage, asks, run, acts, t - 1);
      StepKeepsGarbled(setup, garbage, asks, run[t - 1], acts[t - 1]);
    }
  }

  lemma StepKeepsGarbled(setup: Setup, garbage: seq<byte>, asks: nat, s: State, a: Action)
    requires GarbledInv(setup, garbage, asks, s) && CanStep(setup, garbage, s, a)
    ensures GarbledInv(setup, garbage, asks, Step(setup, garbage, s, a))
  {
    hide GarbledInv, UnixSide, PiSide, Line;
    match a
    case AskAgain => AskKeeps(setup, garbage, asks, s);
    case UnixReads => ReadKeeps(setup, garbage, asks, s);
    case PiReads => PiReadKeeps(setup, garbage, asks, s);
  }

  // ---------------------------------------------------------------- success

  /** What is left to do: asking until there are enough words for the boundary, reading up to it, and then the boot. */
  ghost function ToDo(setup: Setup, garbage: seq<byte>, asks: nat, s: State): (nat, int)
    requires |setup.prog| < 0x1_0000_0000
  {
    var c := |Head(garbage, asks)|;
    if |s.unix| < c then (1, c - |s.unix| + (if s.sends < asks then asks - s.sends else 0))
    else (0, Left(setup, Clear(garbage, asks, s)))
  }

  ghost predicate Sooner(a: (nat, int), b: (nat, int)) {
    0 <= a.1 && (a.0 < b.0 || (a.0 == b.0 && a.1 < b.1))
  }

  /** Until both sides are done some step brings the end closer. */
  lemma GoesOn(setup: Setup, garbage: seq<byte>, asks: nat, s: State) returns (a: Action)
    requires GarbledInv(setup, garbage, asks, s) && |setup.prog| < 0x1_0000_0000 && !BothDone(setup, s)
    ensures CanStep(setup, garbage, s, a)
    ensures GarbledInv(setup, garbage, asks, Step(setup, garbage, s, a))
    ensures Sooner(ToDo(setup, garbage, asks, Step(setup, garbage, s, a)), ToDo(setup, garbage, asks, s))
  {
    hide Good, IsHead, Inv, Sync, LittleEndian, UnixSide, PiSide, Left;
    if |s.unix| < |Head(garbage, asks)| {
      NotYetAligned(setup, garbage, asks, s);
      a := if |s.unix| < |garbage| + 4 * s.sends then UnixReads else AskAgain;
      StepKeepsGarbled(setup, garbage, asks, s, a);
      var s' := Step(setup, garbage, s, a);
      if |s'.unix| >= |Head(garbage, asks)| {
        LeftBounded(setup, Clear(garbage, asks, s'));
      }
    } else {
      a := ClearGoesOn(setup, garbage, asks, s);
      StepKeepsGarbled(setup, garbage, asks, s, a);
    }
  }

  lemma ClearGoesOn(setup: Setup, garbage: seq<byte>, asks: nat, s: State) returns (a: Action)
    requires GarbledInv(setup, garbage, asks, s) && |setup.prog| < 0x1_0000_0000 && !BothDone(setup, s)
    requires |s.unix| >= |Head(garbage, asks)|
    ensures a != AskAgain && CanStep(setup, garbage, s, a)
    ensures var s' := Step(setup, garbage, s, a);
      && |s'.unix| >= |Head(garbage, asks)|
      && 0 <= Left(setup, Clear(garbage, asks, s')) < Left(setup, Clear(garbage, asks, s))
  {
    hide Good, IsHead, Inv, Sync, LittleEndian, UnixSide, PiSide, Left;
    AlignedLooksClear(setup, garbage, asks, s);
    var c := Clear(garbage, asks, s);
    a := ReadOn(setup, c);
    LeftBounded(setup, Apply(setup, c, a));
    var s', h := Step(setup, garbage, s, a), |Head(garbage, asks)|;
    assert |Head(garbage, asks - 1)| == h - 4 && |c.unix| == |s.unix| - h + 4;
    if a == UnixReads {
      assert Line(setup, garbage, s)[|s.unix|] == PiSide(setup, c).out[|c.unix|];
      assert s'.unix[h..] == s.unix[h..] + [s'.unix[|s.unix|]];
    }
    assert Clear(garbage, asks, s') == Apply(setup, c, a);
  }

  ghost predicate LeadsTo(setup: Setup, garbage: seq<byte>, s: State, acts: seq<Action>, s': State)
    requires |setup.prog| < 0x1_0000_0000
    decreases |acts|
  {
    if acts == [] then s == s'
    else CanStep(setup, garbage, s, acts[0]) && LeadsTo(setup, garbage, Step(setup, garbage, s, acts[0]), acts[1..], s')
  }

  lemma {:induction false} Completes(setup: Setup, garbage: seq<byte>, asks: nat, s: State, left: (nat, int))
    returns (acts: seq<Action>, s': State)
    requires GarbledInv(setup, garbage, asks, s) && |setup.prog| < 0x1_0000_0000
    requires left == ToDo(setup, garbage, asks, s)
    ensures LeadsTo(setup, garbage, s, acts, s') && GarbledInv(setup, garbage, asks, s') && BothDone(setup, s')
    decreases left.0, left.1
  {
    hide GarbledInv, CanStep, Step, ToDo, BothDone;
    if BothDone(setup, s) {
      return [], s;
    }
    var a := GoesOn(setup, garbage, asks, s);
    var next := Step(setup, garbage, s, a);
    var rest;
    rest, s' := Completes(setup, garbage, asks, next, ToDo(setup, garbage, asks, next));
    acts := [a] + rest;
    assert acts[1..] == rest;
  }

  lemma GarbledSafe(setup: Setup, garbage: seq<byte>, asks: nat, s: State)
    requires GarbledInv(setup, garbage, asks, s) && |setup.prog| < 0x1_0000_0000 && setup.Valid()
    ensures UnixSide(setup, s).status != Failed && PiSide(setup, s).status != Failed
    ensures UnixSide(setup, s).status == Success ==> Booted(setup, s)
    ensures LoaderKept(setup, PiSide(setup, s).mem)
  {
    hide IsHead, Sync, LittleEndian, UnixSide, PiSide, Inv, LoaderKept, ReadBack, Address, Crc, Collides;
    if |s.unix| < |Head(garbage, asks)| {
      NotYetAligned(setup, garbage, asks, s);
      KeptAtFirst(setup);
    } else {
      AlignedLooksClear(setup, garbage, asks, s);
      ClearSafe(setup, Clear(garbage, asks, s));
    }
  }

  lemma KeptAtFirst(setup: Setup)
    ensures LoaderKept(setup, setup.mem)
  {
  }

  lemma ClearSafe(setup: Setup, c: State)
    requires Inv(setup, c) && setup.Valid()
    ensures UnixSide(setup, c).status != Failed && PiSide(setup, c).status != Failed
    ensures UnixSide(setup, c).status == Success ==> Booted(setup, c)
    ensures LoaderKept(setup, PiSide(setup, c).mem)
  {
    hide UnixRun, PiRun, Crc, Collides, Store, ReadBack, Load, Address, Answer, ProgInfo, LoaderKept;
    Views(setup, c);
    if |c.pi| == |ToPi(setup.prog)| {
      BootedMemory(setup, PiSide(setup, c).mem);
    }
    PrefixKeepsLoader(setup, c);
  }

  /** After clean garbage a boot is as good as without: in every reachable state no side has failed and the bootloader
      is untouched; the Unix side succeeds only when the program is in place and all else is unchanged; and some
      schedule leads there. */
  lemma GarbledBootSucceeds(setup: Setup, garbage: seq<byte>, run: seq<State>, acts: seq<Action>, t: nat)
    returns (more: seq<Action>, last: State)
    requires Good(setup) && Clean(garbage) && IsGarbledRun(setup, garbage, run, acts) && t <= |acts|
    ensures var s := run[t];
      && UnixSide(setup, s).status != Failed && PiSide(setup, s).status != Failed
      && (UnixSide(setup, s).status == Success ==> Booted(setup, s))
      && LoaderKept(setup, PiSide(setup, s).mem)
    ensures LeadsTo(setup, garbage, run[t], more, last) && Booted(setup, last)
  {
    hide GarbledInv, CanStep, Step, ToDo, Booted, LoaderKept, UnixSide, PiSide, IsHead, Clean, Crc, Collides;
    var asks := HeadExists(garbage);
    GarbledReachable(setup, garbage, asks, run, acts, t);
    GarbledSafe(setup, garbage, asks, run[t]);
    more, last := Completes(setup, garbage, asks, run[t], ToDo(setup, garbage, asks, run[t]));
    GarbledSafe(setup, garbage, asks, last);
  }
}
