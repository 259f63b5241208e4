/** The Pi's half of the boot protocol. */
module BootPi {
  import opened Bytes
  import opened Boot

  type Memory = map<nat, byte>

  /** The bootloader's own code, which a program must not overwrite: [low, high). */
  datatype Loader = Loader(low: word, high: word)

  function Address(base: word, i: nat): nat {
    (base as nat + i) % 0x1_0000_0000
  }

  function Load(mem: Memory, a: nat): byte {
    if a in mem then mem[a] else 0
  }

  /** Byte `i` of the data goes to address base + i. */
  function Store(mem: Memory, base: word, data: seq<byte>): Memory
    decreases |data|
  {
    if data == [] then mem
    else Store(mem, base, data[..|data| - 1])[Address(base, |data| - 1) := data[|data| - 1]]
  }

  function ReadBack(mem: Memory, base: word, n: nat): (r: seq<byte>)
    ensures |r| == n
  {
    seq(n, i requires 0 <= i < n => Load(mem, Address(base, i)))
  }

  predicate Collides(loader: Loader, base: word, n: word) {
    (base as nat + n as nat) % 0x1_0000_0000 > loader.low as nat && base < loader.high
  }

  datatype PiOutcome = PiOutcome(status: Status, out: seq<byte>, mem: Memory)

  function PiSends(out: seq<byte>, rest: PiOutcome): PiOutcome {
    rest.(out := out + rest.out)
  }

  // ---------------------------------------------------------------- panics

  /** What a panic in line `line` prints, and the farewell of the reboot after it: plain text, no opcodes. */
  function PanicText(line: string, msg: string): seq<byte> {
    Text("PANIC:get-code.h:get_code:" + line + ":" + msg + "\n" + "DONE!!!\n")
  }

  const NO_INFO := PanicText("169", "PUT_PROG_INFO wrong!")
  const COLLISION := PanicText("195", "Boot Error")
  const NO_CODE := PanicText("211", "PUT_CODE wrong!")

  // ---------------------------------------------------------------- the protocol as a function of the bytes read

  function Repeat(u: word, n: nat): (r: seq<byte>)
    ensures |r| == 4 * n
  {
    if n == 0 then [] else LittleEndian(u) + Repeat(u, n - 1)
  }

  /** `sends` is the number of times GET_PROG_INFO was sent before the first byte was seen. */
  function PiRun(sends: nat, s: seq<byte>, mem: Memory, loader: Loader): PiOutcome {
    PiSends(Repeat(GET_PROG_INFO, sends), PiInfo(s, mem, loader))
  }

  /** Steps 2 to 4: the four words of PUT_PROG_INFO. */
  function PiInfo(s: seq<byte>, mem: Memory, loader: Loader): PiOutcome {
    if |s| < 4 then PiOutcome(Reading, [], mem)
    else if FromLittleEndian(s[..4]) != PUT_PROG_INFO then PiOutcome(Failed, NO_INFO, mem)
    else if |s| < 16 then PiOutcome(Reading, [], mem)
    else
      var base, n, cksum := FromLittleEndian(s[4..8]), FromLittleEndian(s[8..12]), FromLittleEndian(s[12..16]);
      if Collides(loader, base, n) then PiOutcome(Failed, COLLISION, mem)
      else PiSends(LittleEndian(GET_CODE) + LittleEndian(cksum), PiCode(s[16..], mem, base, n, cksum))
  }

  /** Step 5: PUT_CODE and the code, stored as it comes. */
  function PiCode(s: seq<byte>, mem: Memory, base: word, n: word, cksum: word): PiOutcome {
    if |s| < 4 then PiOutcome(Reading, [], mem)
    else if FromLittleEndian(s[..4]) != PUT_CODE then PiOutcome(Failed, NO_CODE, mem)
    else if |s| < 4 + n as nat then PiOutcome(Reading, [], Store(mem, base, s[4..]))
    else PiVerify(Store(mem, base, s[4..4 + n as nat]), base, n, cksum)
  }

  /** Steps 6 and 7: the checksum of what is in memory. */
  function PiVerify(mem: Memory, base: word, n: word, cksum: word): PiOutcome {
    if Crc(ReadBack(mem, base, n as nat)) != cksum
    then PiOutcome(Failed, PrintMessage(CRC_MESSAGE) + LittleEndian(BOOT_ERROR), mem)
    else PiOutcome(Success, PrintMessage(SUCCESS_MESSAGE) + LittleEndian(BOOT_SUCCESS), mem)
  }

  // ---------------------------------------------------------------- the code

  class Pi {
    const port: Port
    var mem: Memory

    constructor (port: Port, mem: Memory)
      ensures this.port == port && this.mem == mem
    {
      this.port := port;
      this.mem := mem;
    }

    method Put8(a: nat, b: byte)
      modifies this`mem
      ensures mem == old(mem)[a := b]
    {
      mem := mem[a := b];
    }

    method Putk(s: string)
      requires |s| < 0x1_0000_0000
      modifies port`output
      ensures port.output == old(port.output) + PrintMessage(s)
    {
      hide LittleEndian;
      port.Put32(PRINT_STRING);
      port.Put32(|s| as word);
      port.PutAll(Text(s));
    }

    /** Steps 2 to 7, after GET_PROG_INFO has been sent once and again after every timeout. */
    method GetCode(timeouts: nat, loader: Loader) returns (status: Status)
      modifies this`mem, port
      ensures var all := PiRun(timeouts + 1, old(port.input), old(mem), loader);
        status == all.status && port.output == old(port.output) + all.out && mem == all.mem
    {
      hide LittleEndian, FromLittleEndian;
      WaitForData(timeouts);
      status := GetInfo(loader);
    }

    method WaitForData(timeouts: nat)
      modifies port`output
      ensures port.output == old(port.output) + Repeat(GET_PROG_INFO, timeouts + 1)
    {
      hide LittleEndian;
      port.Put32(GET_PROG_INFO);
      var i := 0;
      assert Repeat(GET_PROG_INFO, 1) == LittleEndian(GET_PROG_INFO) + Repeat(GET_PROG_INFO, 0);
      while i < timeouts
        invariant 0 <= i <= timeouts
        invariant port.output == old(port.output) + Repeat(GET_PROG_INFO, i + 1)
      {
        port.Put32(GET_PROG_INFO);
        RepeatAppend(GET_PROG_INFO, i + 1);
        i := i + 1;
      }
    }

    method GetInfo(loader: Loader) returns (status: Status)
      modifies this`mem, port
      ensures var all := PiInfo(old(port.input), old(mem), loader);
        status == all.status && port.output == old(port.output) + all.out && mem == all.mem
    {
      hide LittleEndian, FromLittleEndian, Crc, Text, Collides, PiCode;
      var s := port.input;
      var blocked, op := port.Get32();
      if blocked { return Reading; }
      if op != PUT_PROG_INFO {
        port.PutAll(NO_INFO);
        return Failed;
      }
      var base, n, cksum: word;
      blocked, base := port.Get32();
      if blocked { return Reading; }
      blocked, n := port.Get32();
      if blocked { return Reading; }
      blocked, cksum := port.Get32();
      if blocked { return Reading; }
      assert s[4..][..4] == s[4..8] && s[4..][4..][..4] == s[8..12] && s[4..][4..][4..][..4] == s[12..16];
      assert port.input == s[16..];
      if Collides(loader, base, n) {
        port.PutAll(COLLISION);
        return Failed;
      }
      port.Put32(GET_CODE);
      port.Put32(cksum);
      status := StoreCode(base, n, cksum);
    }

    method StoreCode(base: word, n: word, cksum: word) returns (status: Status)
      modifies this`mem, port
      ensures var all := PiCode(old(port.input), old(mem), base, n, cksum);
        status == all.status && port.output == old(port.output) + all.out && mem == all.mem
    {
      hide LittleEndian, FromLittleEndian, Crc, Text;
      var blocked, op := port.Get32();
      if blocked { return Reading; }
      if op != PUT_CODE {
        port.PutAll(NO_CODE);
        return Failed;
      }
      var data := port.input;
      assert data == old(port.input)[4..];
      var i := 0;
      while i < n as nat
        invariant 0 <= i <= n as nat
        invariant i <= |data| && port.input == data[i..]
        invariant mem == Store(old(mem), base, data[..i])
        invariant port.output == old(port.output)
      {
        var b: byte;
        blocked, b := port.Get8();
        if blocked {
          assert data[..i] == data;
          return Reading;
        }
        Put8(Address(base, i), b);
        assert data[..i + 1][..i] == data[..i] && data[..i + 1][i] == b;
        i := i + 1;
      }
      assert data[..n as nat] == old(port.input)[4..4 + n as nat];
      if Crc(ReadBack(mem, base, n as nat)) != cksum {
        Putk(CRC_MESSAGE);
        port.Put32(BOOT_ERROR);
        return Failed;
      }
      Putk(SUCCESS_MESSAGE);
      port.Put32(BOOT_SUCCESS);
      status := Success;
    }
  }

  lemma {:induction false} RepeatAppend(u: word, n: nat)
    ensures Repeat(u, n) + LittleEndian(u) == Repeat(u, n + 1)
  {
    hide LittleEndian;
    if n > 0 {
      RepeatAppend(u, n - 1);
      assert Repeat(u, n) + LittleEndian(u) == LittleEndian(u) + (Repeat(u, n - 1) + LittleEndian(u));
    }
  }
}
