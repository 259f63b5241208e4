/** The two halves of the boot protocol: what each has sent, and how far it has got, after the bytes
    it has read so far. */
module Boot {
  import opened Bytes
  import Crc32

  const ARMBASE: word := 0x8000
  const GET_PROG_INFO: word := 0x11112222
  const PUT_PROG_INFO: word := 0x33334444
  const GET_CODE: word := 0x55556666
  const PUT_CODE: word := 0x77778888
  const BOOT_SUCCESS: word := 0x9999AAAA
  const BOOT_ERROR: word := 0xBBBBCCCC
  const PRINT_STRING: word := 0xDDDDEEEE

  const SUCCESS_MESSAGE := "hsiangc: success: Received the program! UART finished!"
  const CRC_MESSAGE := "crc32 wrong!"

  function Crc(data: seq<byte>): word {
    Crc32.Checksum(data, 0) as int as word
  }

  function Ascii(c: char): byte {
    if (c as int) < 256 then c as int as byte else 63
  }

  function Text(s: string): (r: seq<byte>)
    ensures |r| == |s|
  {
    seq(|s|, i requires 0 <= i < |s| => Ascii(s[i]))
  }

  /** [PRINT_STRING, length, text] */
  function PrintMessage(s: string): seq<byte>
    requires |s| < 0x1_0000_0000
  {
    LittleEndian(PRINT_STRING) + LittleEndian(|s| as word) + Text(s)
  }

  datatype Status =
    | Reading    // blocked on a byte that has not come
    | Success
    | Failed     // panicked, or reported an error and rebooted

  datatype Outcome = Outcome(status: Status, out: seq<byte>)

  function Sends(out: seq<byte>, rest: Outcome): Outcome {
    rest.(out := out + rest.out)
  }

  // ---------------------------------------------------------------- the Unix side

  /** The next opcode on the stream, with any print messages before it consumed. */
  datatype Op = NeedMore | TooLong | Op(op: word, rest: seq<byte>)

  /** The number of text bytes read for a stated length: a length of 0 wraps around. */
  function PrintLength(n: word): nat {
    if n == 0 then 0x1_0000_0000 else n as nat
  }

  function GetOp(s: seq<byte>): (r: Op)
    ensures r.Op? ==> |r.rest| + 4 <= |s|
    decreases |s|
  {
    if |s| < 4 then NeedMore else
      var op := FromLittleEndian(s[..4]);
      if op != PRINT_STRING then Op(op, s[4..])
      else if |s| < 8 then NeedMore
      else
        var n := FromLittleEndian(s[4..8]);
        if n >= 512 then TooLong
        else if |s| < 8 + PrintLength(n) then NeedMore
        else GetOp(s[8 + PrintLength(n)..])
  }

  /** Step 0: the stream after the first GET_PROG_INFO, and the number of opcodes read to find it. */
  datatype SyncResult = NotYet | Broken | Synced(tries: nat, rest: seq<byte>)

  function Sync(s: seq<byte>): (r: SyncResult)
    ensures r.Synced? ==> |r.rest| + 4 <= |s|
    decreases |s|
  {
    match GetOp(s)
    case NeedMore => NotYet
    case TooLong => Broken
    case Op(op, rest) =>
      if op == GET_PROG_INFO then Synced(1, rest)
      else if rest == [] then NotYet
      else
        match Sync(rest[1..])
        case Synced(tries, r) => Synced(tries + 1, r)
        case other => other
  }

  function ProgInfo(prog: seq<byte>): (r: seq<byte>)
    requires |prog| < 0x1_0000_0000
    ensures |r| == 16
  {
    LittleEndian(PUT_PROG_INFO) + LittleEndian(ARMBASE) + LittleEndian(|prog| as word) + LittleEndian(Crc(prog))
  }

  function UnixRun(s: seq<byte>, prog: seq<byte>): Outcome
    requires |prog| < 0x1_0000_0000
  {
    match Sync(s)
    case NotYet => Outcome(Reading, [])
    case Broken => Outcome(Failed, [])
    case Synced(_, rest) => Sends(ProgInfo(prog), UnixDrain(rest, prog))
  }

  /** Reads opcodes until the wanted one; every other one is ignored, BOOT_ERROR too. */
  function Await(s: seq<byte>, wanted: word): (r: Op)
    ensures r.Op? ==> |r.rest| + 4 <= |s|
    decreases |s|
  {
    match GetOp(s)
    case Op(op, rest) => if op == wanted then Op(op, rest) else Await(rest, wanted)
    case other => other
  }

  /** Steps 2 to 4: waits for GET_CODE and then for the echoed checksum, which is read as an opcode. */
  function UnixDrain(s: seq<byte>, prog: seq<byte>): Outcome {
    match Await(s, GET_CODE)
    case NeedMore => Outcome(Reading, [])
    case TooLong => Outcome(Failed, [])
    case Op(_, echo) =>
      match GetOp(echo)
      case NeedMore => Outcome(Reading, [])
      case TooLong => Outcome(Failed, [])
      case Op(op, rest) =>
        if op != Crc(prog) then Outcome(Failed, []) else Sends(LittleEndian(PUT_CODE) + prog, UnixFinish(rest))
  }

  /** Step 5. */
  function UnixFinish(s: seq<byte>): Outcome {
    match Await(s, BOOT_SUCCESS)
    case NeedMore => Outcome(Reading, [])
    case TooLong => Outcome(Failed, [])
    case Op(_, _) => Outcome(Success, [])
  }

  /** A serial port: what has arrived, how much of it has been read, and what has been written. */
  class Port {
    var input: seq<byte>
    var output: seq<byte>

    constructor (input: seq<byte>)
      ensures this.input == input && this.output == []
    {
      this.input := input;
      this.output := [];
    }

    /** Blocks when nothing is left; a blocked reader does nothing more. */
    method Get8() returns (blocked: bool, b: byte)
      modifies this`input
      ensures blocked == (old(input) == [])
      ensures if blocked then input == [] else b == old(input)[0] && input == old(input)[1..]
    {
      blocked, b := input == [], 0;
      if !blocked {
        b := input[0];
        input := input[1..];
      }
    }

    method Put8(b: byte)
      modifies this`output
      ensures output == old(output) + [b]
    {
      output := output + [b];
    }

    /** Four reads, the lowest byte first. */
    method Get32() returns (blocked: bool, u: word)
      modifies this`input
      ensures blocked == (|old(input)| < 4)
      ensures if blocked then input == []
              else u == FromLittleEndian(old(input)[..4]) && input == old(input)[4..]
    {
      u := 0;
      var b0, b1, b2, b3: byte;
      blocked, b0 := Get8();
      if blocked { return; }
      blocked, b1 := Get8();
      if blocked { return; }
      blocked, b2 := Get8();
      if blocked { return; }
      blocked, b3 := Get8();
      if blocked { return; }
      assert old(input)[..4] == [b0, b1, b2, b3];
      u := b0 as word + b1 as word * 256 + b2 as word * 0x10000 + b3 as word * 0x1000000;
    }

    method Put32(u: word)
      modifies this`output
      ensures output == old(output) + LittleEndian(u)
    {
      Put8((u % 256) as byte);
      Put8((u / 256 % 256) as byte);
      Put8((u / 0x10000 % 256) as byte);
      Put8((u / 0x1000000) as byte);
    }

    method PutAll(data: seq<byte>)
      modifies this`output
      ensures output == old(output) + data
    {
      var i := 0;
      while i < |data|
        invariant 0 <= i <= |data|
        invariant output == old(output) + data[..i]
      {
        Put8(data[i]);
        assert data[..i + 1] == data[..i] + [data[i]];
        i := i + 1;
      }
      assert data[..i] == data;
    }

    /** Reads and drops `n` bytes. */
    method Skip(n: nat) returns (blocked: bool)
      modifies this`input
      ensures blocked == (|old(input)| < n)
      ensures !blocked ==> input == old(input)[n..]
    {
      var i := 0;
      blocked := false;
      while i < n && !blocked
        invariant 0 <= i <= n
        invariant blocked ==> |old(input)| < n
        invariant !blocked ==> i <= |old(input)| && input == old(input)[i..]
      {
        var b: byte;
        blocked, b := Get8();
        i := i + 1;
      }
    }
  }

  /** What reading an opcode came to. */
  datatype OpRead = Blocked | Dead | Got(op: word)

  method ReadOp(fd: Port) returns (r: OpRead)
    modifies fd`input
    ensures match GetOp(old(fd.input))
            case NeedMore => r == Blocked
            case TooLong => r == Dead
            case Op(op, rest) => r == Got(op) && fd.input == rest
    decreases |fd.input|
  {
    var blocked, op := fd.Get32();
    if blocked { return Blocked; }
    if op != PRINT_STRING { return Got(op); }
    var n: word;
    blocked, n := fd.Get32();
    if blocked { return Blocked; }
    assert old(fd.input)[4..][..4] == old(fd.input)[4..8];
    if n >= 512 { return Dead; }
    assert fd.input == old(fd.input)[8..];
    blocked := fd.Skip(PrintLength(n));
    if blocked { return Blocked; }
    assert fd.input == old(fd.input)[8 + PrintLength(n)..];
    r := ReadOp(fd);
  }

  /** Step 0: reads opcodes until GET_PROG_INFO, dropping one byte after each other one. */
  method WaitForStart(fd: Port) returns (status: Status)
    modifies fd`input
    ensures match Sync(old(fd.input))
            case NotYet => status == Reading
            case Broken => status == Failed
            case Synced(_, rest) => status == Success && fd.input == rest
  {
    var s0 := fd.input;
    var r := ReadOp(fd);
    while r.Got? && r.op != GET_PROG_INFO
      invariant match r
                case Blocked => Sync(s0) == NotYet
                case Dead => Sync(s0) == Broken
                case Got(op) =>
                  if op == GET_PROG_INFO then Sync(s0).Synced? && Sync(s0).rest == fd.input
                  else if fd.input == [] then Sync(s0) == NotYet
                  else match Sync(fd.input[1..])
                       case Synced(_, rest) => Sync(s0).Synced? && Sync(s0).rest == rest
                       case other => Sync(s0) == other
      decreases r.Got?, |fd.input|
    {
      var blocked, _ := fd.Get8();
      if blocked { return Reading; }
      r := ReadOp(fd);
    }
    status := if r.Blocked? then Reading else if r.Dead? then Failed else Success;
  }

  method WaitFor(fd: Port, wanted: word) returns (r: OpRead)
    modifies fd`input
    ensures match Await(old(fd.input), wanted)
            case NeedMore => r == Blocked
            case TooLong => r == Dead
            case Op(op, rest) => r == Got(wanted) && fd.input == rest
  {
    var s0 := fd.input;
    r := ReadOp(fd);
    while r.Got? && r.op != wanted
      invariant match r
                case Blocked => Await(s0, wanted) == NeedMore
                case Dead => Await(s0, wanted) == TooLong
                case Got(op) =>
                  Await(s0, wanted) == if op == wanted then Op(op, fd.input) else Await(fd.input, wanted)
      decreases r.Got?, |fd.input|
    {
      r := ReadOp(fd);
    }
  }

  /** The Unix half. */
  method SimpleBoot(fd: Port, prog: seq<byte>) returns (status: Status)
    requires |prog| < 0x1_0000_0000
    modifies fd
    ensures status == UnixRun(old(fd.input), prog).status
    ensures fd.output == old(fd.output) + UnixRun(old(fd.input), prog).out
  {
    hide Sync, Await, GetOp, LittleEndian, FromLittleEndian, Crc;
    status := WaitForStart(fd);
    if status != Success { return; }

    fd.Put32(PUT_PROG_INFO);
    fd.Put32(ARMBASE);
    fd.Put32(|prog| as word);
    fd.Put32(Crc(prog));
    assert fd.output == old(fd.output) + ProgInfo(prog);
    status := SendCode(fd, prog);
    assert forall tail :: old(fd.output) + ProgInfo(prog) + tail == old(fd.output) + (ProgInfo(prog) + tail);
  }

  /** Steps 2 to 5. */
  method SendCode(fd: Port, prog: seq<byte>) returns (status: Status)
    modifies fd
    ensures status == UnixDrain(old(fd.input), prog).status
    ensures fd.output == old(fd.output) + UnixDrain(old(fd.input), prog).out
  {
    hide Await, GetOp, LittleEndian, FromLittleEndian, Crc;
    var r := WaitFor(fd, GET_CODE);
    if r.Blocked? { return Reading; }
    if r.Dead? { return Failed; }

    r := ReadOp(fd);
    if r.Blocked? { return Reading; }
    if r.Dead? { return Failed; }
    if r.op != Crc(prog) { return Failed; }

    fd.Put32(PUT_CODE);
    fd.PutAll(prog);
    assert fd.output == old(fd.output) + (LittleEndian(PUT_CODE) + prog);
    r := WaitFor(fd, BOOT_SUCCESS);
    status := if r.Blocked? then Reading else if r.Dead? then Failed else Success;
  }
}
