/** Both halves of the boot protocol running against each other over reliable byte channels, under any
    interleaving of single-byte reads and any number of repeated GET_PROG_INFO words. */
module BootProtocol {
  import opened Bytes
  import opened Boot
  import opened BootPi
  import Crc32

  /** One boot: the program sent, the Pi's memory before, and where its bootloader lies. */
  datatype Setup = Setup(prog: seq<byte>, mem: Memory, loader: Loader)
  {
    ghost predicate Valid() {
      && ARMBASE as nat + |prog| < 0x1_0000_0000     // the addresses do not wrap
      && !Collides(loader, ARMBASE, |prog| as word)
    }
  }

  /** How often the Pi has asked, and what each side has read. */
  datatype State = State(sends: nat, unix: seq<byte>, pi: seq<byte>)

  const START := State(1, [], [])

  function UnixSide(setup: Setup, s: State): Outcome
    requires |setup.prog| < 0x1_0000_0000
  {
    UnixRun(s.unix, setup.prog)
  }

  function PiSide(setup: Setup, s: State): PiOutcome {
    PiRun(s.sends, s.pi, setup.mem, setup.loader)
  }

  datatype Action = AskAgain | UnixReads | PiReads

  ghost predicate Enabled(setup: Setup, s: State, a: Action)
    requires |setup.prog| < 0x1_0000_0000
  {
    match a
    case AskAgain => s.pi == []
    case UnixReads => |s.unix| < |PiSide(setup, s).out|
    case PiReads => |s.pi| < |UnixSide(setup, s).out|
  }

  ghost function Apply(setup: Setup, s: State, a: Action): State
    requires |setup.prog| < 0x1_0000_0000 && Enabled(setup, s, a)
  {
    match a
    case AskAgain => s.(sends := s.sends + 1)
    case UnixReads => s.(unix := s.unix + [PiSide(setup, s).out[|s.unix|]])
    case PiReads => s.(pi := s.pi + [UnixSide(setup, s).out[|s.pi|]])
  }

  ghost predicate IsRun(setup: Setup, run: seq<State>, acts: seq<Action>)
    requires |setup.prog| < 0x1_0000_0000
  {
    && |run| == |acts| + 1
    && run[0] == START
    && forall t :: 0 <= t < |acts| ==> Enabled(setup, run[t], acts[t]) && run[t + 1] == Apply(setup, run[t], acts[t])
  }

  // ---------------------------------------------------------------- the two transcripts

  function ToPi(prog: seq<byte>): seq<byte>
    requires |prog| < 0x1_0000_0000
  {
    ProgInfo(prog) + (LittleEndian(PUT_CODE) + prog)
  }

  function Verdict(): seq<byte> {
    PrintMessage(SUCCESS_MESSAGE) + LittleEndian(BOOT_SUCCESS)
  }

  function Answer(prog: seq<byte>): (r: seq<byte>) {
    LittleEndian(GET_CODE) + LittleEndian(Crc(prog)) + Verdict()
  }

  function ToUnix(prog: seq<byte>, sends: nat): seq<byte> {
    Repeat(GET_PROG_INFO, sends) + Answer(prog)
  }

  // ---------------------------------------------------------------- opcodes on a prefix of a stream

  lemma OpAtFront(u: word, t: seq<byte>)
    requires u != PRINT_STRING
    ensures GetOp(LittleEndian(u) + t) == Op(u, t)
  {
    var s := LittleEndian(u) + t;
    WordRoundTrip(u);
    assert s[..4] == LittleEndian(u) && s[4..] == t;
  }

  /** A print message is skipped, and blocks while it is incomplete. */
  lemma PrintRead(msg: string, t: seq<byte>)
    requires 1 <= |msg| < 512
    ensures GetOp(PrintMessage(msg) + t) == GetOp(t)
  {
    hide LittleEndian, FromLittleEndian, Text;
    var s := PrintMessage(msg) + t;
    WordRoundTrip(PRINT_STRING);
    WordRoundTrip(|msg| as word);
    assert s[..4] == LittleEndian(PRINT_STRING) && s[4..8] == LittleEndian(|msg| as word);
    assert s[8 + |msg|..] == t;
  }

  lemma PrintPartial(msg: string, m: nat)
    requires 1 <= |msg| < 512 && m < |PrintMessage(msg)|
    ensures GetOp(PrintMessage(msg)[..m]) == NeedMore
  {
    hide LittleEndian, FromLittleEndian, Text;
    WordRoundTrip(PRINT_STRING);
    WordRoundTrip(|msg| as word);
    var opcode, length := LittleEndian(PRINT_STRING), LittleEndian(|msg| as word);
    var s := PrintMessage(msg)[..m];
    assert PrintMessage(msg) == opcode + (length + Text(msg));
    if m >= 4 {
      TakePast(opcode, length + Text(msg), m);
      if m >= 8 {
        TakePast(length, Text(msg), m - 4);
        assert s[4..8] == s[4..][..4] == length;
      }
    }
  }

  lemma TakePast(a: seq<byte>, b: seq<byte>, m: nat)
    requires |a| <= m <= |a| + |b|
    ensures (a + b)[..m] == a + b[..m - |a|] && (a + b)[..m][..|a|] == a
  {
  }

  lemma MessageLength()
    ensures 1 <= |SUCCESS_MESSAGE| < 512
  {
  }

  // ---------------------------------------------------------------- the Unix side on a prefix of its stream

  lemma {:induction false} AwaitSkips(n: nat, t: seq<byte>)
    ensures Await(Repeat(GET_PROG_INFO, n) + t, GET_CODE) == Await(t, GET_CODE)
  {
    hide LittleEndian, GetOp;
    if n == 0 {
      assert Repeat(GET_PROG_INFO, n) + t == t;
    } else {
      var rest := Repeat(GET_PROG_INFO, n - 1) + t;
      assert Repeat(GET_PROG_INFO, n) + t == LittleEndian(GET_PROG_INFO) + rest;
      OpAtFront(GET_PROG_INFO, rest);
      AwaitSkips(n - 1, t);
    }
  }

  lemma {:induction false} AwaitBlocks(n: nat, m: nat, wanted: word)
    requires m <= 4 * n && wanted != GET_PROG_INFO
    ensures Await(Repeat(GET_PROG_INFO, n)[..m], wanted) == NeedMore
  {
    hide LittleEndian;
    if m >= 4 {
      var rest := Repeat(GET_PROG_INFO, n - 1)[..m - 4];
      assert Repeat(GET_PROG_INFO, n)[..m] == LittleEndian(GET_PROG_INFO) + rest;
      OpAtFront(GET_PROG_INFO, rest);
      AwaitBlocks(n - 1, m - 4, wanted);
    }
  }

  /** BOOT_SUCCESS is seen exactly when its last byte has come. */
  lemma FinishOnPrefix(m: nat)
    requires m <= |Verdict()|
    ensures UnixFinish(Verdict()[..m]) == Outcome(if m == |Verdict()| then Success else Reading, [])
  {
    hide LittleEndian, GetOp;
    MessageLength();
    var p := PrintMessage(SUCCESS_MESSAGE);
    if m < |p| {
      assert Verdict()[..m] == p[..m];
      PrintPartial(SUCCESS_MESSAGE, m);
    } else {
      var t := LittleEndian(BOOT_SUCCESS)[..m - |p|];
      assert Verdict()[..m] == p + t;
      PrintRead(SUCCESS_MESSAGE, t);
      if m == |Verdict()| {
        assert t == LittleEndian(BOOT_SUCCESS) + [];
        OpAtFront(BOOT_SUCCESS, []);
      } else {
        ShortRead(t);
      }
    }
  }

  lemma ShortRead(t: seq<byte>)
    requires |t| < 4
    ensures GetOp(t) == NeedMore
  {
  }

  /** What the Unix side has sent after `m` bytes of the answer. */
  lemma DrainOnPrefix(prog: seq<byte>, n: nat, m: nat)
    requires m <= |Answer(prog)| && Crc(prog) != PRINT_STRING
    ensures var r := UnixDrain(Repeat(GET_PROG_INFO, n) + Answer(prog)[..m], prog);
      && r.status == (if m == |Answer(prog)| then Success else Reading)
      && r.out == if m < 8 then [] else LittleEndian(PUT_CODE) + prog
  {
    hide LittleEndian, GetOp, Await, Verdict, Crc, UnixFinish, Repeat;
    var s := Answer(prog)[..m];
    AwaitSkips(n, s);
    if m < 4 {
      ShortAwait(s);
    } else {
      var t := s[4..];
      assert s == LittleEndian(GET_CODE) + t;
      AwaitFinds(t);
      if m < 8 {
        ShortRead(t);
      } else {
        assert t == LittleEndian(Crc(prog)) + Verdict()[..m - 8];
        OpAtFront(Crc(prog), Verdict()[..m - 8]);
        FinishOnPrefix(m - 8);
        assert LittleEndian(PUT_CODE) + prog + [] == LittleEndian(PUT_CODE) + prog;
      }
    }
  }

  lemma ShortAwait(t: seq<byte>)
    requires |t| < 4
    ensures Await(t, GET_CODE) == NeedMore
  {
  }

  lemma AwaitFinds(t: seq<byte>)
    ensures Await(LittleEndian(GET_CODE) + t, GET_CODE) == Op(GET_CODE, t)
  {
    hide LittleEndian, GetOp;
    OpAtFront(GET_CODE, t);
  }

  /** What the Unix side has sent after the first `m` bytes of its stream. */
  lemma UnixOnPrefix(prog: seq<byte>, sends: nat, m: nat)
    requires |prog| < 0x1_0000_0000 && Crc(prog) != PRINT_STRING
    requires sends >= 1 && m <= |ToUnix(prog, sends)|
    ensures var r := UnixRun(ToUnix(prog, sends)[..m], prog);
      && r.status == (if m == |ToUnix(prog, sends)| then Success else Reading)
      && r.out == if m < 4 then [] else if m < 4 * sends + 8 then ProgInfo(prog) else ToPi(prog)
  {
    hide LittleEndian, GetOp, UnixDrain, Answer, ProgInfo, Crc;
    var s := ToUnix(prog, sends)[..m];
    if m < 4 {
      ShortRead(s);
    } else {
      var more := Repeat(GET_PROG_INFO, sends - 1);
      var rest := (more + Answer(prog))[..m - 4];
      assert s == LittleEndian(GET_PROG_INFO) + rest;
      OpAtFront(GET_PROG_INFO, rest);
      if m < 4 * sends {
        assert rest == more[..m - 4];
        AwaitBlocks(sends - 1, m - 4, GET_CODE);
        DrainBlocks(rest, prog);
        assert ProgInfo(prog) + [] == ProgInfo(prog);
      } else {
        assert rest == more + Answer(prog)[..m - 4 * sends];
        DrainOnPrefix(prog, sends - 1, m - 4 * sends);
        assert ProgInfo(prog) + [] == ProgInfo(prog);
      }
    }
  }

  lemma DrainBlocks(s: seq<byte>, prog: seq<byte>)
    requires Await(s, GET_CODE) == NeedMore
    ensures UnixDrain(s, prog) == Outcome(Reading, [])
  {
  }

  // ---------------------------------------------------------------- the Pi on a prefix of its stream

  lemma DistinctAddresses(base: word, i: nat, j: nat)
    requires i < j < 0x1_0000_0000
    ensures Address(base, i) != Address(base, j)
  {
  }

  lemma {:induction false} StoredAt(mem: Memory, base: word, data: seq<byte>, i: nat)
    requires i < |data| <= 0x1_0000_0000
    ensures Load(Store(mem, base, data), Address(base, i)) == data[i]
  {
    hide Address;
    var last := |data| - 1;
    if i < last {
      DistinctAddresses(base, i, last);
      StoredAt(mem, base, data[..last], i);
    }
  }

  lemma StoreReadBack(mem: Memory, base: word, data: seq<byte>)
    requires |data| <= 0x1_0000_0000
    ensures ReadBack(Store(mem, base, data), base, |data|) == data
  {
    forall i | 0 <= i < |data|
      ensures ReadBack(Store(mem, base, data), base, |data|)[i] == data[i]
    {
      StoredAt(mem, base, data, i);
    }
  }

  lemma {:induction false} StoreElsewhere(mem: Memory, base: word, data: seq<byte>, a: nat)
    requires forall i: nat :: i < |data| ==> a != Address(base, i)
    ensures (a in Store(mem, base, data) <==> a in mem)
    ensures Load(Store(mem, base, data), a) == Load(mem, a)
  {
    if data != [] {
      StoreElsewhere(mem, base, data[..|data| - 1], a);
    }
  }

  lemma InfoWords(prog: seq<byte>, t: seq<byte>)
    requires |prog| < 0x1_0000_0000
    ensures var s := ProgInfo(prog) + t;
      && FromLittleEndian(s[..4]) == PUT_PROG_INFO
      && FromLittleEndian(s[4..8]) == ARMBASE
      && FromLittleEndian(s[8..12]) == |prog| as word
      && FromLittleEndian(s[12..16]) == Crc(prog)
      && s[16..] == t
  {
    hide LittleEndian, FromLittleEndian, Crc;
    var s := ProgInfo(prog) + t;
    WordRoundTrip(PUT_PROG_INFO);
    WordRoundTrip(ARMBASE);
    WordRoundTrip(|prog| as word);
    WordRoundTrip(Crc(prog));
    assert s[..4] == LittleEndian(PUT_PROG_INFO) && s[4..8] == LittleEndian(ARMBASE);
    assert s[8..12] == LittleEndian(|prog| as word) && s[12..16] == LittleEndian(Crc(prog));
  }

  /** The Pi while PUT_CODE and the code come in. */
  lemma CodeOnPrefix(prog: seq<byte>, mem: Memory, m: nat)
    requires |prog| < 0x1_0000_0000 && m <= 4 + |prog|
    ensures var r := PiCode((LittleEndian(PUT_CODE) + prog)[..m], mem, ARMBASE, |prog| as word, Crc(prog));
      if m < 4 + |prog| then r.status == Reading && r.out == []
      else r.status == Success && r.out == Verdict() && r.mem == Store(mem, ARMBASE, prog)
  {
    hide LittleEndian, FromLittleEndian, Crc, Text, PrintMessage, Store, ReadBack;
    var s := (LittleEndian(PUT_CODE) + prog)[..m];
    WordRoundTrip(PUT_CODE);
    if m >= 4 {
      assert s[..4] == LittleEndian(PUT_CODE);
      if m == 4 + |prog| {
        assert s[4..4 + |prog|] == prog;
        StoreReadBack(mem, ARMBASE, prog);
      }
    }
  }

  /** What the Pi has sent after the first `m` bytes of its stream. */
  lemma PiOnPrefix(setup: Setup, sends: nat, m: nat)
    requires setup.Valid() && m <= |ToPi(setup.prog)|
    ensures var r := PiRun(sends, ToPi(setup.prog)[..m], setup.mem, setup.loader);
      && r.status == (if m == |ToPi(setup.prog)| then Success else Reading)
      && r.out == ToUnix(setup.prog, sends)[..
           if m < 16 then 4 * sends else if m < |ToPi(setup.prog)| then 4 * sends + 8 else |ToUnix(setup.prog, sends)|]
      && (m == |ToPi(setup.prog)| ==> r.mem == Store(setup.mem, ARMBASE, setup.prog))
  {
    hide LittleEndian, FromLittleEndian, Crc, Collides, PiCode, Verdict, ProgInfo, Store;
    var s := ToPi(setup.prog)[..m];
    var code := LittleEndian(PUT_CODE) + setup.prog;
    var asks := Repeat(GET_PROG_INFO, sends);
    var echo := LittleEndian(GET_CODE) + LittleEndian(Crc(setup.prog));
    assert ToUnix(setup.prog, sends) == asks + echo + Verdict();
    if m < 16 {
      InfoPartial(setup, m);
      assert asks + [] == asks;
    } else {
      assert s == ProgInfo(setup.prog) + code[..m - 16];
      InfoWords(setup.prog, code[..m - 16]);
      CodeOnPrefix(setup.prog, setup.mem, m - 16);
      assert asks + (echo + []) == asks + echo;
      assert asks + (echo + Verdict()) == asks + echo + Verdict();
    }
  }

  lemma InfoPartial(setup: Setup, m: nat)
    requires setup.Valid() && m < 16
    ensures PiInfo(ToPi(setup.prog)[..m], setup.mem, setup.loader) == PiOutcome(Reading, [], setup.mem)
  {
    hide LittleEndian, FromLittleEndian, Crc, Collides, PiCode;
    if m >= 4 {
      InfoWords(setup.prog, []);
      assert ToPi(setup.prog)[..m][..4] == (ProgInfo(setup.prog) + [])[..4];
    }
  }

  // ---------------------------------------------------------------- every reachable state

  ghost predicate Good(setup: Setup) {
    setup.Valid() && Crc(setup.prog) != PRINT_STRING
  }

  /** Each side has read a prefix of what the other is meant to send, and no more than was sent. */
  ghost predicate Inv(setup: Setup, s: State) {
    && Good(setup)
    && s.sends >= 1
    && |s.unix| <= |PiSide(setup, s).out| && |s.pi| <= |UnixSide(setup, s).out|
    && |s.unix| <= |ToUnix(setup.prog, s.sends)| && s.unix == ToUnix(setup.prog, s.sends)[..|s.unix|]
    && |s.pi| <= |ToPi(setup.prog)| && s.pi == ToPi(setup.prog)[..|s.pi|]
  }

  lemma Views(setup: Setup, s: State)
    requires Inv(setup, s)
    ensures |ToUnix(setup.prog, s.sends)| > 4 * s.sends + 8 && |ToPi(setup.prog)| > 16
    ensures var u, p, n := UnixSide(setup, s), PiSide(setup, s), |ToPi(setup.prog)|;
      && u.status == (if |s.unix| == |ToUnix(setup.prog, s.sends)| then Success else Reading)
      && u.out == ToPi(setup.prog)[.. if |s.unix| < 4 then 0 else if |s.unix| < 4 * s.sends + 8 then 16 else n]
      && p.status == (if |s.pi| == n then Success else Reading)
      && p.out == ToUnix(setup.prog, s.sends)[..
           if |s.pi| < 16 then 4 * s.sends else if |s.pi| < n then 4 * s.sends + 8 else |ToUnix(setup.prog, s.sends)|]
      && (|s.pi| == n ==> p.mem == Store(setup.mem, ARMBASE, setup.prog))
  {
    hide UnixRun, PiRun, Crc, Store, Collides;
    UnixOnPrefix(setup.prog, s.sends, |s.unix|);
    PiOnPrefix(setup, s.sends, |s.pi|);
    assert ToPi(setup.prog)[..|ToPi(setup.prog)|] == ToPi(setup.prog);
  }

  lemma StartHolds(setup: Setup)
    requires Good(setup)
    ensures Inv(setup, START)
  {
    hide LittleEndian;
  }

  /** Asking once more leaves the start of the stream as it is. */
  lemma AskPrefix(prog: seq<byte>, sends: nat, m: nat)
    requires m <= 4 * sends
    ensures |ToUnix(prog, sends)| >= 4 * sends && |ToUnix(prog, sends + 1)| >= 4 * sends + 4
    ensures ToUnix(prog, sends + 1)[..m] == ToUnix(prog, sends)[..m]
  {
    hide LittleEndian, Answer, Repeat;
    RepeatAppend(GET_PROG_INFO, sends);
  }

  lemma AskAgainKeeps(setup: Setup, s: State)
    requires Inv(setup, s) && s.pi == []
    ensures Inv(setup, s.(sends := s.sends + 1))
  {
    hide UnixRun, PiRun, ToUnix, ToPi, Crc, Store, Collides;
    Views(setup, s);
    PiOnPrefix(setup, s.sends + 1, 0);
    assert ToPi(setup.prog)[..0] == [];
    AskPrefix(setup.prog, s.sends, |s.unix|);
  }

  /** One more byte read does not take back anything that was sent. */
  lemma UnixReadsKeeps(setup: Setup, s: State)
    requires Inv(setup, s) && Enabled(setup, s, UnixReads)
    ensures Inv(setup, Apply(setup, s, UnixReads))
  {
    hide UnixRun, PiRun, ToUnix, ToPi, Crc, Collides;
    var s' := Apply(setup, s, UnixReads);
    Views(setup, s);
    var m := |s.unix|;
    assert s'.unix == ToUnix(setup.prog, s.sends)[..m + 1];
    UnixOnPrefix(setup.prog, s.sends, m + 1);
  }

  lemma PiReadsKeeps(setup: Setup, s: State)
    requires Inv(setup, s) && Enabled(setup, s, PiReads)
    ensures Inv(setup, Apply(setup, s, PiReads))
  {
    hide UnixRun, PiRun, ToUnix, ToPi, Crc, Collides, Store;
    var s' := Apply(setup, s, PiReads);
    Views(setup, s);
    var m := |s.pi|;
    assert s'.pi == ToPi(setup.prog)[..m + 1];
    PiOnPrefix(setup, s.sends, m + 1);
  }

  lemma {:induction false} Reachable(setup: Setup, run: seq<State>, acts: seq<Action>, t: nat)
    requires Good(setup) && IsRun(setup, run, acts) && t <= |acts|
    ensures Inv(setup, run[t])
  {
    hide Inv, Enabled, Apply;
    if t == 0 {
      StartHolds(setup);
    } else {
      Reachable(setup, run, acts, t - 1);
      StepKeeps(setup, run[t - 1], acts[t - 1]);
    }
  }

  lemma StepKeeps(setup: Setup, s: State, a: Action)
    requires Inv(setup, s) && Enabled(setup, s, a)
    ensures Inv(setup, Apply(setup, s, a))
  {
    hide Inv, UnixSide, PiSide;
    match a
    case AskAgain => AskAgainKeeps(setup, s);
    case UnixReads => UnixReadsKeeps(setup, s);
    case PiReads => PiReadsKeeps(setup, s);
  }

  // ---------------------------------------------------------------- success

  /** Both sides are done, and memory holds the program and is otherwise unchanged. */
  ghost predicate Booted(setup: Setup, s: State)
    requires setup.Valid()
  {
    var mem := PiSide(setup, s).mem;
    && UnixSide(setup, s).status == Success && PiSide(setup, s).status == Success
    && ReadBack(mem, ARMBASE, |setup.prog|) == setup.prog
    && forall a: nat :: (forall i: nat :: i < |setup.prog| ==> a != Address(ARMBASE, i)) ==>
         (a in mem <==> a in setup.mem) && Load(mem, a) == Load(setup.mem, a)
  }

  lemma BootedMemory(setup: Setup, mem: Memory)
    requires setup.Valid() && mem == Store(setup.mem, ARMBASE, setup.prog)
    ensures ReadBack(mem, ARMBASE, |setup.prog|) == setup.prog
    ensures forall a: nat :: (forall i: nat :: i < |setup.prog| ==> a != Address(ARMBASE, i)) ==>
         (a in mem <==> a in setup.mem) && Load(mem, a) == Load(setup.mem, a)
  {
    hide Store, ReadBack, Load, Address, Collides;
    StoreReadBack(setup.mem, ARMBASE, setup.prog);
    forall a: nat | forall i: nat :: i < |setup.prog| ==> a != Address(ARMBASE, i)
      ensures (a in mem <==> a in setup.mem) && Load(mem, a) == Load(setup.mem, a)
    {
      StoreElsewhere(setup.mem, ARMBASE, setup.prog, a);
    }
  }

  function Left(setup: Setup, s: State): int
    requires |setup.prog| < 0x1_0000_0000
  {
    |ToUnix(setup.prog, s.sends)| + |ToPi(setup.prog)| - |s.unix| - |s.pi|
  }

  /** Neither side ever fails and the bootloader's own memory is untouched all the while; until both are done one of
      them can read another byte; when nothing is left to read the boot has succeeded. */
  lemma BootSafeAndLive(setup: Setup, run: seq<State>, acts: seq<Action>, t: nat)
    requires Good(setup) && IsRun(setup, run, acts) && t <= |acts|
    ensures var s := run[t];
      && UnixSide(setup, s).status != Failed && PiSide(setup, s).status != Failed
      && (UnixSide(setup, s).status == Success ==> Booted(setup, s))
      && (!Enabled(setup, s, UnixReads) && !Enabled(setup, s, PiReads) ==> Booted(setup, s))
      && 0 <= Left(setup, s)
      && LoaderKept(setup, PiSide(setup, s).mem)
  {
    hide UnixRun, PiRun, Crc, Collides, Store, ReadBack, Load, Address, Answer, ProgInfo, LoaderKept;
    var s := run[t];
    Reachable(setup, run, acts, t);
    Views(setup, s);
    if |s.pi| == |ToPi(setup.prog)| {
      BootedMemory(setup, PiSide(setup, s).mem);
    }
    PrefixKeepsLoader(setup, s);
  }

  ghost predicate LoaderKept(setup: Setup, mem: Memory) {
    forall a: nat :: setup.loader.low as nat <= a < setup.loader.high as nat ==> Load(mem, a) == Load(setup.mem, a)
  }

  lemma PrefixKeepsLoader(setup: Setup, s: State)
    requires setup.Valid() && |s.pi| <= |ToPi(setup.prog)| && s.pi == ToPi(setup.prog)[..|s.pi|]
    ensures LoaderKept(setup, PiSide(setup, s).mem)
  {
    hide PiInfo, Load, Collides, LittleEndian, FromLittleEndian, Crc;
    if |s.pi| >= 16 {
      InfoWords(setup.prog, (LittleEndian(PUT_CODE) + setup.prog)[..|s.pi| - 16]);
      assert s.pi == ProgInfo(setup.prog) + (LittleEndian(PUT_CODE) + setup.prog)[..|s.pi| - 16];
    }
    forall a: nat | setup.loader.low as nat <= a < setup.loader.high as nat
      ensures Load(PiSide(setup, s).mem, a) == Load(setup.mem, a)
    {
      LoaderUntouched(s.pi, setup.mem, setup.loader, a);
    }
  }

  /** Whatever the Pi reads, it writes nothing over its bootloader, if the address range it is told does not wrap. */
  lemma LoaderUntouched(s: seq<byte>, mem: Memory, loader: Loader, a: nat)
    requires loader.low as nat <= a < loader.high as nat
    requires |s| >= 16 ==> FromLittleEndian(s[4..8]) as nat + FromLittleEndian(s[8..12]) as nat < 0x1_0000_0000
    ensures Load(PiInfo(s, mem, loader).mem, a) == Load(mem, a)
  {
    hide FromLittleEndian, LittleEndian, Store, Load, Crc, PrintMessage, Address, Collides;
    if |s| >= 20 && FromLittleEndian(s[..4]) == PUT_PROG_INFO {
      var base, n := FromLittleEndian(s[4..8]), FromLittleEndian(s[8..12]);
      if !Collides(loader, base, n) {
        var code := s[16..];
        var data := if |code| < 4 + n as nat then code[4..] else code[4..4 + n as nat];
        forall i: nat | i < |data|
          ensures a != Address(base, i)
        {
          RangeApart(loader, base, n, a, i);
        }
        StoreElsewhere(mem, base, data, a);
      }
    }
  }

  lemma RangeApart(loader: Loader, base: word, n: word, a: nat, i: nat)
    requires base as nat + n as nat < 0x1_0000_0000 && !Collides(loader, base, n) && i < n as nat
    requires loader.low as nat <= a < loader.high as nat
    ensures a != Address(base, i)
  {
  }

  /** Some byte of the range lies in the bootloader. */
  ghost predicate Overlaps(loader: Loader, base: word, n: word) {
    exists i: nat :: i < n as nat && InLoader(loader, Address(base, i))
  }

  ghost predicate InLoader(loader: Loader, a: nat) {
    loader.low as nat <= a < loader.high as nat
  }

  /** The collision test is right exactly when the range does not reach the end of the address space, or when both of
      its comparisons agree. A range that wraps can pass the test and run over the bootloader. */
  lemma CollisionTestIff(loader: Loader, base: word, n: word)
    requires loader.low < loader.high && n > 0
    ensures (Collides(loader, base, n) <==> Overlaps(loader, base, n))
       <==> (base as nat + n as nat < 0x1_0000_0000
             || (base < loader.high <==> (base as nat + n as nat) % 0x1_0000_0000 > loader.low as nat))
  {
    hide Overlaps;
    var low, high, start, len := loader.low as nat, loader.high as nat, base as nat, n as nat;
    if start + len < 0x1_0000_0000 {
      if start < high && start + len > low {
        OverlapsAt(loader, base, n, if start >= low then 0 else low - start);
      } else {
        Apart(loader, base, n);
      }
    } else if start < high {
      OverlapsAt(loader, base, n, if start >= low then 0 else low - start);
    } else if start + len - 0x1_0000_0000 > low {
      OverlapsAt(loader, base, n, low + 0x1_0000_0000 - start);
    } else {
      Apart(loader, base, n);
    }
  }

  lemma OverlapsAt(loader: Loader, base: word, n: word, i: nat)
    requires i < n as nat && InLoader(loader, Address(base, i))
    ensures Overlaps(loader, base, n)
  {
  }

  lemma Apart(loader: Loader, base: word, n: word)
    requires base >= loader.high || base as nat + n as nat <= loader.low as nat
    requires base as nat + n as nat >= 0x1_0000_0000 ==> base as nat + n as nat - 0x1_0000_0000 <= loader.low as nat
    ensures !Overlaps(loader, base, n)
  {
    forall i: nat | i < n as nat
      ensures !InLoader(loader, Address(base, i))
    {
    }
  }

  // ---------------------------------------------------------------- rank and size

  /** A program after the installer has written the rank and the size into it. */
  function Installed(code: seq<byte>, rank: byte, size: byte): (r: seq<byte>)
    requires |code| >= 2
    ensures |r| == |code|
  {
    code[0 := rank][1 := size]
  }

  /** When the boot of an installed program is over, FMPI_Init reads the rank and the size that the installer wrote,
      the rest of the program is in place after them, and the bootloader is as it was. */
  lemma BootedRankAndSize(code: seq<byte>, rank: byte, size: byte, mem: Memory, loader: Loader,
                          run: seq<State>, acts: seq<Action>, t: nat)
    requires |code| >= 2
    requires var setup := Setup(Installed(code, rank, size), mem, loader);
      Good(setup) && IsRun(setup, run, acts) && t <= |acts| && UnixSide(setup, run[t]).status == Success
    ensures var now := PiSide(Setup(Installed(code, rank, size), mem, loader), run[t]).mem;
      && Load(now, 0x8000) == rank && Load(now, 0x8001) == size
      && (forall i: nat :: 2 <= i < |code| ==> Load(now, ARMBASE as nat + i) == code[i])
      && (forall a: nat :: InLoader(loader, a) ==> Load(now, a) == Load(mem, a))
  {
    hide UnixSide, PiSide, Enabled, Apply, Store, Load, Crc, Collides, ReadBack;
    var setup := Setup(Installed(code, rank, size), mem, loader);
    BootSafeAndLive(setup, run, acts, t);
    var now := PiSide(setup, run[t]).mem;
    forall i: nat | i < |code|
      ensures Load(now, ARMBASE as nat + i) == setup.prog[i]
    {
      ReadBackAt(now, |code|, i);
    }
    assert Load(now, ARMBASE as nat + 0) == setup.prog[0] && Load(now, ARMBASE as nat + 1) == setup.prog[1];
    forall i: nat | 2 <= i < |code|
      ensures Load(now, ARMBASE as nat + i) == code[i]
    {
      assert setup.prog[i] == code[i];
    }
  }

  lemma ReadBackAt(mem: Memory, n: nat, i: nat)
    requires i < n && ARMBASE as nat + n < 0x1_0000_0000
    ensures ReadBack(mem, ARMBASE, n)[i] == Load(mem, ARMBASE as nat + i)
  {
    hide Load;
  }

  // ---------------------------------------------------------------- exactly when a boot can succeed

  ghost predicate Leads(setup: Setup, s: State, acts: seq<Action>, s': State)
    requires |setup.prog| < 0x1_0000_0000
    decreases |acts|
  {
    if acts == [] then s == s'
    else Enabled(setup, s, acts[0]) && Leads(setup, Apply(setup, s, acts[0]), acts[1..], s')
  }

  ghost predicate BothDone(setup: Setup, s: State)
    requires |setup.prog| < 0x1_0000_0000
  {
    UnixSide(setup, s).status == Success && PiSide(setup, s).status == Success
  }

  ghost predicate CanSucceed(setup: Setup, s: State)
    requires |setup.prog| < 0x1_0000_0000
  {
    exists acts, s' :: Leads(setup, s, acts, s') && BothDone(setup, s')
  }

  lemma Prepend(setup: Setup, s: State, a: Action)
    requires |setup.prog| < 0x1_0000_0000 && Enabled(setup, s, a) && CanSucceed(setup, Apply(setup, s, a))
    ensures CanSucceed(setup, s)
  {
    hide UnixSide, PiSide, Enabled, Apply;
    var acts, s' :| Leads(setup, Apply(setup, s, a), acts, s') && BothDone(setup, s');
    assert ([a] + acts)[1..] == acts;
    assert Leads(setup, s, [a] + acts, s');
  }

  /** An action that leaves less to read. */
  lemma ReadOn(setup: Setup, s: State) returns (a: Action)
    requires Inv(setup, s) && !BothDone(setup, s)
    ensures a != AskAgain && Enabled(setup, s, a)
    ensures Inv(setup, Apply(setup, s, a)) && Left(setup, Apply(setup, s, a)) < Left(setup, s)
  {
    hide UnixRun, PiRun, Crc, Collides, Store, ReadBack, Load, Address, ToUnix, ToPi;
    Views(setup, s);
    a := if |s.unix| < |PiSide(setup, s).out| then UnixReads else PiReads;
    StepKeeps(setup, s, a);
  }

  lemma LeftBounded(setup: Setup, s: State)
    requires Inv(setup, s)
    ensures Left(setup, s) >= 0
  {
    hide UnixSide, PiSide, ToUnix, ToPi, Good;
  }

  lemma {:induction false} ReachSuccess(setup: Setup, s: State, left: nat)
    requires |setup.prog| < 0x1_0000_0000 && Inv(setup, s) && left == Left(setup, s)
    ensures CanSucceed(setup, s)
    decreases left
  {
    hide Inv, Enabled, Apply, Left, BothDone;
    if BothDone(setup, s) {
      assert Leads(setup, s, [], s);
    } else {
      var a := ReadOn(setup, s);
      LeftBounded(setup, Apply(setup, s, a));
      ReachSuccess(setup, Apply(setup, s, a), Left(setup, Apply(setup, s, a)));
      Prepend(setup, s, a);
    }
  }

  /** Plain text without a capital U: no word of it is an opcode that the Unix side reacts to once it has started. */
  ghost predicate Plain(s: seq<byte>) {
    forall i :: 0 <= i < |s| ==> s[i] < 0x80 && s[i] != 0x55
  }

  lemma PlainOp(s: seq<byte>)
    requires Plain(s) && |s| >= 4
    ensures GetOp(s).Op? && GetOp(s).rest == s[4..] && GetOp(s).op != GET_CODE && GetOp(s).op != BOOT_SUCCESS
  {
    assert s[..4][3] == s[3];
  }

  lemma {:induction false} PlainAwait(s: seq<byte>)
    requires Plain(s)
    ensures Await(s, GET_CODE) == NeedMore
    decreases |s|
  {
    hide GetOp;
    if |s| < 4 {
      ShortRead(s);
    } else {
      PlainOp(s);
      PlainAwait(s[4..]);
    }
  }

  lemma CollisionIsPlain()
    ensures Plain(COLLISION)
  {
  }

  lemma {:induction false} AsksArePlain(n: nat)
    ensures Plain(Repeat(GET_PROG_INFO, n))
  {
    if n > 0 {
      AsksArePlain(n - 1);
    }
  }

  /** All that the Pi says in a boot that collides. */
  function Refusal(sends: nat): seq<byte> {
    Repeat(GET_PROG_INFO, sends) + COLLISION
  }

  lemma RefusalIsPlain(sends: nat, m: nat)
    requires m <= |Refusal(sends)|
    ensures Plain(Refusal(sends)[..m])
  {
    hide LittleEndian, PanicText;
    CollisionIsPlain();
    AsksArePlain(sends);
  }

  /** What holds for ever when the Pi rejects the address range. */
  ghost predicate Refused(setup: Setup, s: State) {
    && |setup.prog| < 0x1_0000_0000 && Collides(setup.loader, ARMBASE, |setup.prog| as word)
    && s.sends >= 1
    && |s.unix| <= |Refusal(s.sends)| && s.unix == Refusal(s.sends)[..|s.unix|]
    && |s.pi| <= 16 && s.pi == ProgInfo(setup.prog)[..|s.pi|]
    && |s.unix| <= |PiSide(setup, s).out|
  }

  lemma PiWhenRefused(setup: Setup, sends: nat, m: nat)
    requires |setup.prog| < 0x1_0000_0000 && m <= 16 && Collides(setup.loader, ARMBASE, |setup.prog| as word)
    ensures PiRun(sends, ProgInfo(setup.prog)[..m], setup.mem, setup.loader) ==
      if m < 16 then PiOutcome(Reading, Repeat(GET_PROG_INFO, sends), setup.mem)
      else PiOutcome(Failed, Refusal(sends), setup.mem)
  {
    hide LittleEndian, FromLittleEndian, Crc, Collides, PanicText;
    var s := ProgInfo(setup.prog)[..m];
    InfoWords(setup.prog, []);
    assert ProgInfo(setup.prog) + [] == ProgInfo(setup.prog);
    assert Repeat(GET_PROG_INFO, sends) + [] == Repeat(GET_PROG_INFO, sends);
    if m >= 4 {
      assert s[..4] == ProgInfo(setup.prog)[..4];
      if m == 16 {
        assert s == ProgInfo(setup.prog);
      }
    }
  }

  /** The Unix side takes the text of the panic for opcodes it does not know, and waits for more. */
  lemma UnixWhenRefused(prog: seq<byte>, sends: nat, m: nat)
    requires |prog| < 0x1_0000_0000 && sends >= 1 && m <= |Refusal(sends)|
    ensures UnixRun(Refusal(sends)[..m], prog) == Outcome(Reading, if m < 4 then [] else ProgInfo(prog))
  {
    hide LittleEndian, GetOp, Await, ProgInfo, Crc, Plain, PanicText;
    var s := Refusal(sends)[..m];
    if m < 4 {
      ShortRead(s);
    } else {
      var rest := Refusal(sends - 1)[..m - 4];
      assert s == LittleEndian(GET_PROG_INFO) + rest;
      OpAtFront(GET_PROG_INFO, rest);
      RefusalIsPlain(sends - 1, m - 4);
      PlainAwait(rest);
      assert ProgInfo(prog) + [] == ProgInfo(prog);
    }
  }

  lemma RefusedKeeps(setup: Setup, s: State, a: Action)
    requires Refused(setup, s) && Enabled(setup, s, a)
    ensures Refused(setup, Apply(setup, s, a))
  {
    hide UnixRun, PiRun, ProgInfo, Repeat, LittleEndian, Crc, Collides, PanicText;
    PiWhenRefused(setup, s.sends, |s.pi|);
    match a
    case AskAgain =>
      PiWhenRefused(setup, s.sends + 1, 0);
      RepeatAppend(GET_PROG_INFO, s.sends);
    case UnixReads =>
      assert Refusal(s.sends)[..4 * s.sends] == Repeat(GET_PROG_INFO, s.sends);
    case PiReads =>
      UnixWhenRefused(setup.prog, s.sends, |s.unix|);
      assert s.pi + [ProgInfo(setup.prog)[|s.pi|]] == ProgInfo(setup.prog)[..|s.pi| + 1];
      PiWhenRefused(setup, s.sends, |s.pi| + 1);
  }

  /** A boot that collides, in every reachable state: the Pi writes nothing and panics once it has the four words; the
      Unix side takes the text for opcodes it does not know and waits for ever. */
  lemma {:induction false} CollisionHangs(setup: Setup, run: seq<State>, acts: seq<Action>, t: nat)
    requires |setup.prog| < 0x1_0000_0000 && Collides(setup.loader, ARMBASE, |setup.prog| as word)
    requires IsRun(setup, run, acts) && t <= |acts|
    ensures Refused(setup, run[t])
    ensures var s := run[t]; var u, p := UnixSide(setup, s), PiSide(setup, s);
      && u.status == Reading && (u.out == [] || u.out == ProgInfo(setup.prog))
      && p.status != Success && p.mem == setup.mem
      && (p.status == Failed ==> p.out == Repeat(GET_PROG_INFO, s.sends) + COLLISION)
      && (!Enabled(setup, s, UnixReads) && !Enabled(setup, s, PiReads) ==>
            p.status == Failed && u.out == ProgInfo(setup.prog))
  {
    hide UnixRun, PiRun, ProgInfo, Repeat, LittleEndian, Crc, Collides, PanicText, Apply;
    if t == 0 {
      StartIsDoomed(setup);
    } else {
      CollisionHangs(setup, run, acts, t - 1);
      RefusedKeeps(setup, run[t - 1], acts[t - 1]);
    }
    PiWhenRefused(setup, run[t].sends, |run[t].pi|);
    UnixWhenRefused(setup.prog, run[t].sends, |run[t].unix|);
  }

  /** What holds for ever when the echoed checksum is taken for the start of a print message: the Unix side never
      gets as far as sending the code. */
  ghost predicate Stuck(setup: Setup, s: State) {
    && |setup.prog| < 0x1_0000_0000
    && !Collides(setup.loader, ARMBASE, |setup.prog| as word) && Crc(setup.prog) == PRINT_STRING
    && s.sends >= 1
    && |s.unix| <= 4 * s.sends + 8
    && |s.unix| <= |ToUnix(setup.prog, s.sends)| && s.unix == ToUnix(setup.prog, s.sends)[..|s.unix|]
    && |s.pi| <= 16 && s.pi == ProgInfo(setup.prog)[..|s.pi|]
    && |s.unix| <= |PiSide(setup, s).out|
  }

  /** The Pi sees nothing but the four words. */
  lemma PiWhenStuck(setup: Setup, sends: nat, m: nat)
    requires |setup.prog| < 0x1_0000_0000 && m <= 16 && !Collides(setup.loader, ARMBASE, |setup.prog| as word)
    ensures var r := PiRun(sends, ProgInfo(setup.prog)[..m], setup.mem, setup.loader);
      && r.status == Reading
      && r.out == Repeat(GET_PROG_INFO, sends) +
           if m < 16 then [] else LittleEndian(GET_CODE) + LittleEndian(Crc(setup.prog))
  {
    hide LittleEndian, FromLittleEndian, Crc, Collides, PanicText;
    var s := ProgInfo(setup.prog)[..m];
    InfoWords(setup.prog, []);
    assert ProgInfo(setup.prog) + [] == ProgInfo(setup.prog);
    if m >= 4 {
      assert s[..4] == ProgInfo(setup.prog)[..4];
      if m == 16 {
        assert s == ProgInfo(setup.prog);
        assert LittleEndian(GET_CODE) + LittleEndian(Crc(setup.prog)) + []
            == LittleEndian(GET_CODE) + LittleEndian(Crc(setup.prog));
      }
    }
  }

  lemma EchoIsPrint(prog: seq<byte>, n: nat, m: nat)
    requires Crc(prog) == PRINT_STRING && m <= 8
    ensures UnixDrain(Repeat(GET_PROG_INFO, n) + Answer(prog)[..m], prog) == Outcome(Reading, [])
  {
    hide LittleEndian, FromLittleEndian, Await, Verdict, Crc;
    var s := Answer(prog)[..m];
    AwaitSkips(n, s);
    if m < 4 {
      ShortAwait(s);
    } else {
      var t := s[4..];
      assert s == LittleEndian(GET_CODE) + t;
      AwaitFinds(t);
      WordRoundTrip(PRINT_STRING);
      if m == 8 {
        assert t == LittleEndian(PRINT_STRING) && t[..4] == t;
      }
    }
  }

  lemma UnixWhenStuck(setup: Setup, sends: nat, m: nat)
    requires |setup.prog| < 0x1_0000_0000 && sends >= 1
    requires m <= 4 * sends + 8 && Crc(setup.prog) == PRINT_STRING
    requires m <= |ToUnix(setup.prog, sends)|
    ensures UnixRun(ToUnix(setup.prog, sends)[..m], setup.prog)
         == Outcome(Reading, if m < 4 then [] else ProgInfo(setup.prog))
  {
    hide LittleEndian, GetOp, UnixDrain, Answer, ProgInfo, Crc;
    var s := ToUnix(setup.prog, sends)[..m];
    if m < 4 {
      ShortRead(s);
    } else {
      var more := Repeat(GET_PROG_INFO, sends - 1);
      var rest := (more + Answer(setup.prog))[..m - 4];
      assert s == LittleEndian(GET_PROG_INFO) + rest;
      OpAtFront(GET_PROG_INFO, rest);
      if m <= 4 * sends {
        assert rest == more[..m - 4];
        AwaitBlocks(sends - 1, m - 4, GET_CODE);
        DrainBlocks(rest, setup.prog);
      } else {
        assert rest == more + Answer(setup.prog)[..m - 4 * sends];
        EchoIsPrint(setup.prog, sends - 1, m - 4 * sends);
      }
      assert ProgInfo(setup.prog) + [] == ProgInfo(setup.prog);
    }
  }

  lemma StuckKeeps(setup: Setup, s: State, a: Action)
    requires Stuck(setup, s) && Enabled(setup, s, a)
    ensures Stuck(setup, Apply(setup, s, a))
  {
    hide Stuck, UnixSide, PiSide;
    match a
    case AskAgain => StuckAsks(setup, s);
    case UnixReads => StuckUnixReads(setup, s);
    case PiReads => StuckPiReads(setup, s);
  }

  lemma StuckAsks(setup: Setup, s: State)
    requires Stuck(setup, s) && s.pi == []
    ensures Stuck(setup, s.(sends := s.sends + 1))
  {
    hide UnixRun, PiRun, ToUnix, ProgInfo, Repeat, LittleEndian, Crc, Collides;
    assert ProgInfo(setup.prog)[..0] == [];
    PiWhenStuck(setup, s.sends, 0);
    PiWhenStuck(setup, s.sends + 1, 0);
    AskPrefix(setup.prog, s.sends, |s.unix|);
  }

  lemma StuckUnixReads(setup: Setup, s: State)
    requires Stuck(setup, s) && Enabled(setup, s, UnixReads)
    ensures Stuck(setup, Apply(setup, s, UnixReads))
  {
    hide UnixRun, PiRun, ToUnix, ProgInfo, Repeat, LittleEndian, Crc, Collides;
    PiWhenStuck(setup, s.sends, |s.pi|);
    AnswerBegins(setup.prog, s.sends);
  }

  /** The stream up to the checksum. */
  lemma AnswerBegins(prog: seq<byte>, sends: nat)
    ensures var asks, echo := Repeat(GET_PROG_INFO, sends), LittleEndian(GET_CODE) + LittleEndian(Crc(prog));
      && |ToUnix(prog, sends)| >= 4 * sends + 8
      && ToUnix(prog, sends)[..4 * sends] == asks + []
      && ToUnix(prog, sends)[..4 * sends + 8] == asks + echo
  {
    hide LittleEndian, Crc, Repeat, Verdict;
  }

  lemma StuckPiReads(setup: Setup, s: State)
    requires Stuck(setup, s) && Enabled(setup, s, PiReads)
    ensures Stuck(setup, Apply(setup, s, PiReads))
  {
    hide UnixRun, PiRun, ToUnix, ProgInfo, Repeat, LittleEndian, Crc, Collides;
    UnixWhenStuck(setup, s.sends, |s.unix|);
    PiWhenStuck(setup, s.sends, |s.pi|);
    assert s.pi + [ProgInfo(setup.prog)[|s.pi|]] == ProgInfo(setup.prog)[..|s.pi| + 1];
    PiWhenStuck(setup, s.sends, |s.pi| + 1);
  }

  lemma StuckIsNotDone(setup: Setup, s: State)
    requires Stuck(setup, s)
    ensures UnixSide(setup, s).status != Success && PiSide(setup, s).status != Success
  {
    hide UnixRun, PiRun, LittleEndian, Crc, Collides, Verdict, ProgInfo;
    PiWhenStuck(setup, s.sends, |s.pi|);
    UnixWhenStuck(setup, s.sends, |s.unix|);
  }

  lemma {:induction false} NeverBothDone(setup: Setup, s: State, acts: seq<Action>, s': State)
    requires |setup.prog| < 0x1_0000_0000 && (Refused(setup, s) || Stuck(setup, s)) && Leads(setup, s, acts, s')
    ensures !BothDone(setup, s')
    decreases |acts|
  {
    hide Stuck, Refused, Enabled, Apply, UnixSide, PiSide;
    if acts == [] {
      if Refused(setup, s) {
        RefusedIsNotDone(setup, s);
      } else {
        StuckIsNotDone(setup, s);
      }
    } else {
      if Refused(setup, s) {
        RefusedKeeps(setup, s, acts[0]);
      } else {
        StuckKeeps(setup, s, acts[0]);
      }
      NeverBothDone(setup, Apply(setup, s, acts[0]), acts[1..], s');
    }
  }

  lemma RefusedIsNotDone(setup: Setup, s: State)
    requires Refused(setup, s)
    ensures PiSide(setup, s).status != Success
  {
    hide UnixRun, PiRun, LittleEndian, Crc, Collides, ProgInfo, PanicText;
    PiWhenRefused(setup, s.sends, |s.pi|);
  }

  lemma StartIsDoomed(setup: Setup)
    requires |setup.prog| < 0x1_0000_0000
    ensures Collides(setup.loader, ARMBASE, |setup.prog| as word) ==> Refused(setup, START)
    ensures !Collides(setup.loader, ARMBASE, |setup.prog| as word) && Crc(setup.prog) == PRINT_STRING
            ==> Stuck(setup, START)
  {
    hide LittleEndian, Crc, Collides, PanicText;
  }

  /** A boot can succeed exactly when the program does not collide with the bootloader and its checksum is
      not the PRINT_STRING opcode. */
  lemma BootSucceedsIff(setup: Setup)
    requires ARMBASE as nat + |setup.prog| < 0x1_0000_0000
    ensures CanSucceed(setup, START)
       <==> !Collides(setup.loader, ARMBASE, |setup.prog| as word) && Crc(setup.prog) != PRINT_STRING
  {
    hide Collides, Crc, Inv, Stuck, Refused, BothDone, Left;
    if Good(setup) {
      StartHolds(setup);
      LeftBounded(setup, START);
      ReachSuccess(setup, START, Left(setup, START));
    } else {
      StartIsDoomed(setup);
      forall acts, s' | Leads(setup, START, acts, s') ensures !BothDone(setup, s') {
        NeverBothDone(setup, START, acts, s');
      }
    }
  }

  /** Such a program exists: rank 0 of 4, and four bytes of code. */
  lemma UnluckyProgram()
    ensures Crc(Installed([0, 0, 137, 191, 85, 0], 0, 4)) == PRINT_STRING
  {
    assert Installed([0, 0, 137, 191, 85, 0], 0, 4) == [0, 4, 137, 191, 85, 0];
    UnluckyChecksum();
  }

  /** One byte of a checksum. */
  lemma FirstByte(data: seq<byte>, rest: seq<byte>, c: bv32, x: bv32, next: bv32)
    requires data != [] && data[1..] == rest && Crc32.Word(data[0]) == x
    requires Crc32.Eight(Crc32.Xor(c, x)) == next
    ensures Crc32.Run(data, c) == Crc32.Run(rest, next)
  {
    hide Crc32.Shift, Crc32.Eight, Crc32.Xor, Crc32.Word;
    Crc32.ShiftIsEight(Crc32.Xor(c, x));
  }

  lemma SmallWords()
    ensures Crc32.Word(0) == 0 && Crc32.Word(4) == 4 && Crc32.Word(85) == 85
    ensures Crc32.Word(137) == 137 && Crc32.Word(191) == 191
  {
  }

  lemma Unlucky0() ensures Crc32.Eight(Crc32.Xor(0xFFFFFFFF, 0)) == 0x2DFD1072 {}
  lemma Unlucky1() ensures Crc32.Eight(Crc32.Xor(0x2DFD1072, 4)) == 0xB94B2919 {}
  lemma Unlucky2() ensures Crc32.Eight(Crc32.Xor(0xB94B2919, 137)) == 0xF0B6D86D {}
  lemma Unlucky3() ensures Crc32.Eight(Crc32.Xor(0xF0B6D86D, 191)) == 0x682D0520 {}
  lemma Unlucky4() ensures Crc32.Eight(Crc32.Xor(0x682D0520, 85)) == 0x2007A8B6 {}
  lemma Unlucky5() ensures Crc32.Eight(Crc32.Xor(0x2007A8B6, 0)) == 0x22221111 {}

  lemma UnluckyChecksum()
    ensures Crc32.Checksum([0, 4, 137, 191, 85, 0], 0) == 0xDDDDEEEE
  {
    hide Crc32.Shift, Crc32.Eight, Crc32.Xor, Crc32.Word;
    SmallWords();
    Unlucky0();
    FirstByte([0, 4, 137, 191, 85, 0], [4, 137, 191, 85, 0], 0xFFFFFFFF, 0, 0x2DFD1072);
    Unlucky1();
    FirstByte([4, 137, 191, 85, 0], [137, 191, 85, 0], 0x2DFD1072, 4, 0xB94B2919);
    Unlucky2();
    FirstByte([137, 191, 85, 0], [191, 85, 0], 0xB94B2919, 137, 0xF0B6D86D);
    Unlucky3();
    FirstByte([191, 85, 0], [85, 0], 0xF0B6D86D, 191, 0x682D0520);
    Unlucky4();
    FirstByte([85, 0], [0], 0x682D0520, 85, 0x2007A8B6);
    Unlucky5();
    FirstByte([0], [], 0x2007A8B6, 0, 0x22221111);
    Inverted();
  }

  lemma Inverted()
    ensures Crc32.Not(0) == 0xFFFFFFFF && Crc32.Not(0x22221111) == 0xDDDDEEEE
  {
  }

  // ---------------------------------------------------------------- BOOT_ERROR

  /** The last word that the Pi sent. */
  ghost predicate EndsWith(out: seq<byte>, u: word) {
    |out| >= 4 && out[|out| - 4..] == LittleEndian(u)
  }

  /** Given all four words and all of the code, the Pi fails on a collision or a wrong checksum, but it says BOOT_ERROR
      only for the checksum: on a collision it panics in plain text, without an opcode. */
  lemma BootErrorIff(asks: nat, mem: Memory, loader: Loader, base: word, cksum: word, code: seq<byte>)
    requires |code| < 0x1_0000_0000
    ensures var n := |code| as word;
      var info := LittleEndian(PUT_PROG_INFO) + LittleEndian(base) + LittleEndian(n) + LittleEndian(cksum);
      var r := PiRun(asks, info + (LittleEndian(PUT_CODE) + code), mem, loader);
      && (r.status == Success <==> !Collides(loader, base, n) && Crc(code) == cksum)
      && (r.status == Failed <==> Collides(loader, base, n) || Crc(code) != cksum)
      && (EndsWith(r.out, BOOT_ERROR) <==> !Collides(loader, base, n) && Crc(code) != cksum)
      && (Collides(loader, base, n) ==> r.out == Refusal(asks))
  {
    hide LittleEndian, FromLittleEndian, Crc, Collides, PiCode, PrintMessage, PiInfo, Repeat, PanicText;
    var n := |code| as word;
    var rest := LittleEndian(PUT_CODE) + code;
    InfoRead(base, n, cksum, rest, mem, loader);
    CodeVerdict(mem, base, cksum, code);
    DistinctOps();
    PanicEnd();
    var echo, last := LittleEndian(GET_CODE) + LittleEndian(cksum), PiCode(rest, mem, base, n, cksum).out;
    EndOfSum(Repeat(GET_PROG_INFO, asks), echo + last);
    EndOfSum(Repeat(GET_PROG_INFO, asks), COLLISION);
    EndOfSum(echo, last);
  }

  /** The four words of PUT_PROG_INFO, whatever they say. */
  lemma InfoRead(base: word, n: word, cksum: word, rest: seq<byte>, mem: Memory, loader: Loader)
    ensures var info := LittleEndian(PUT_PROG_INFO) + LittleEndian(base) + LittleEndian(n) + LittleEndian(cksum);
      PiInfo(info + rest, mem, loader) ==
        if Collides(loader, base, n) then PiOutcome(Failed, COLLISION, mem)
        else PiSends(LittleEndian(GET_CODE) + LittleEndian(cksum), PiCode(rest, mem, base, n, cksum))
  {
    hide LittleEndian, FromLittleEndian, Crc, Collides, PiCode;
    var info := LittleEndian(PUT_PROG_INFO) + LittleEndian(base) + LittleEndian(n) + LittleEndian(cksum);
    var s := info + rest;
    WordRoundTrip(PUT_PROG_INFO);
    WordRoundTrip(base);
    WordRoundTrip(n);
    WordRoundTrip(cksum);
    assert s[..4] == LittleEndian(PUT_PROG_INFO) && s[4..8] == LittleEndian(base);
    assert s[8..12] == LittleEndian(n) && s[12..16] == LittleEndian(cksum);
    assert s[16..] == rest;
  }

  lemma CodeVerdict(mem: Memory, base: word, cksum: word, code: seq<byte>)
    requires |code| < 0x1_0000_0000
    ensures var r := PiCode(LittleEndian(PUT_CODE) + code, mem, base, |code| as word, cksum);
      && |r.out| >= 4
      && if Crc(code) == cksum then r.status == Success && r.out[|r.out| - 4..] == LittleEndian(BOOT_SUCCESS)
         else r.status == Failed && r.out[|r.out| - 4..] == LittleEndian(BOOT_ERROR)
  {
    hide LittleEndian, FromLittleEndian, Crc, PrintMessage, Store, ReadBack;
    var s := LittleEndian(PUT_CODE) + code;
    WordRoundTrip(PUT_CODE);
    assert s[..4] == LittleEndian(PUT_CODE) && s[4..4 + |code|] == code;
    StoreReadBack(mem, base, code);
  }

  lemma DistinctOps()
    ensures LittleEndian(BOOT_ERROR) != LittleEndian(BOOT_SUCCESS)
  {
    assert LittleEndian(BOOT_ERROR)[0] == 0xCC && LittleEndian(BOOT_SUCCESS)[0] == 0xAA;
  }

  lemma PanicEnd()
    ensures |COLLISION| >= 4 && COLLISION[|COLLISION| - 4..] != LittleEndian(BOOT_ERROR)
  {
    assert LittleEndian(BOOT_ERROR)[0] == 0xCC;
    CollisionIsPlain();
    var n := |COLLISION|;
    assert COLLISION[n - 4..][0] == COLLISION[n - 4];
  }

  lemma EndOfSum(a: seq<byte>, b: seq<byte>)
    requires |b| >= 4
    ensures (a + b)[|a + b| - 4..] == b[|b| - 4..]
  {
  }

  // ---------------------------------------------------------------- damage

  /** If the headers and opcodes arrive intact and the code is damaged only inside one window of at most
      four bytes, the Pi reports BOOT_ERROR and not BOOT_SUCCESS. */
  lemma DamageIsRejected(before: seq<byte>, xs: seq<byte>, ys: seq<byte>, after: seq<byte>,
                         sends: nat, mem: Memory, loader: Loader)
    requires |xs| == |ys| <= 4 && xs != ys
    requires |before + xs + after| < 0x1_0000_0000
    requires !Collides(loader, ARMBASE, |before + xs + after| as word)
    ensures var sent, got := before + xs + after, before + ys + after;
      var r := PiRun(sends, ProgInfo(sent) + LittleEndian(PUT_CODE) + got, mem, loader);
      && r.status == Failed
      && r.out == Repeat(GET_PROG_INFO, sends) + (LittleEndian(GET_CODE) + LittleEndian(Crc(sent))
                  + (PrintMessage(CRC_MESSAGE) + LittleEndian(BOOT_ERROR)))
  {
    hide LittleEndian, FromLittleEndian, Crc, Collides, PiCode, PrintMessage, ProgInfo;
    var sent, got := before + xs + after, before + ys + after;
    var code := LittleEndian(PUT_CODE) + got;
    assert ProgInfo(sent) + LittleEndian(PUT_CODE) + got == ProgInfo(sent) + code;
    InfoWords(sent, code);
    Crc32.BurstDetected(before, xs, ys, after, 0);
    CrcDiffers(sent, got);
    DamagedCode(sent, got, mem);
  }

  lemma CrcDiffers(a: seq<byte>, b: seq<byte>)
    requires Crc32.Checksum(a, 0) != Crc32.Checksum(b, 0)
    ensures Crc(a) != Crc(b)
  {
    hide Crc32.Checksum;
    BackFromInt(Crc32.Checksum(a, 0));
    BackFromInt(Crc32.Checksum(b, 0));
  }

  lemma BackFromInt(x: bv32)
    ensures (x as int) as bv32 == x
  {
  }

  lemma DamagedCode(sent: seq<byte>, got: seq<byte>, mem: Memory)
    requires |sent| == |got| < 0x1_0000_0000 && Crc(sent) != Crc(got)
    ensures var r := PiCode(LittleEndian(PUT_CODE) + got, mem, ARMBASE, |sent| as word, Crc(sent));
      r.status == Failed && r.out == PrintMessage(CRC_MESSAGE) + LittleEndian(BOOT_ERROR)
  {
    hide LittleEndian, FromLittleEndian, Crc, PrintMessage, Store, ReadBack;
    var s := LittleEndian(PUT_CODE) + got;
    WordRoundTrip(PUT_CODE);
    assert s[..4] == LittleEndian(PUT_CODE) && s[4..4 + |got|] == got;
    StoreReadBack(mem, ARMBASE, got);
  }
}
