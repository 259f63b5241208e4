/** Remote memory between two ranks: the client's PUT and GET commands and the interrupt handler that serves
    them, as a labelled transition system over single channel operations. */
module Async {
  import opened Bytes
  import opened Modular

  const SYNC_SIGNAL: byte := 7
  const DELAY_MS: nat := 20
  const TIMEOUT_MS: nat := 100
  const LISTEN_MS: nat := 1000

  // ---------------------------------------------------------------- packets

  datatype Command = PutWord(address: word, value: word) | GetWord(address: word)

  /** The four bytes of a word, highest first. */
  function BigEndian(u: word): (r: seq<byte>)
    ensures |r| == 4
  {
    var b := LittleEndian(u);
    [b[3], b[2], b[1], b[0]]
  }

  function FromBigEndian(s: seq<byte>): word
    requires |s| == 4
  {
    FromLittleEndian([s[3], s[2], s[1], s[0]])
  }

  /** The packed structure: command, address, data. */
  function PacketOf(c: Command): (r: seq<byte>)
    ensures |r| == 9
  {
    match c
    case PutWord(address, value) => [1] + BigEndian(address) + BigEndian(value)
    case GetWord(address) => [2] + BigEndian(address) + BigEndian(0)
  }

  /** The server's reading of it; other command bytes are ignored. */
  datatype Request = Store(address: word, data: word) | Load(address: word) | Unknown

  function ReadPacket(p: seq<byte>): Request
    requires |p| == 9
  {
    var address, data := FromBigEndian(p[1..5]), FromBigEndian(p[5..9]);
    if p[0] == 1 then Store(address, data) else if p[0] == 2 then Load(address) else Unknown
  }

  lemma PacketRoundTrip(c: Command)
    ensures ReadPacket(PacketOf(c)) ==
      match c case PutWord(address, value) => Store(address, value) case GetWord(address) => Load(address)
  {
    hide LittleEndian, FromLittleEndian;
    var p := PacketOf(c);
    assert p[1..5] == BigEndian(c.address);
    BigEndianRoundTrip(c.address);
    if c.PutWord? {
      assert p[5..9] == BigEndian(c.value);
      BigEndianRoundTrip(c.value);
    }
  }

  /** The packet on the wire: the command, then address and data with the highest byte first. */
  lemma PacketLayout(c: Command)
    ensures var p := PacketOf(c);
      && p[0] == (if c.PutWord? then 1 else 2)
      && p[1] as int * 0x1000000 + p[2] as int * 0x10000 + p[3] as int * 0x100 + p[4] as int == c.address as int
      && p[5] as int * 0x1000000 + p[6] as int * 0x10000 + p[7] as int * 0x100 + p[8] as int
         == if c.PutWord? then c.value as int else 0
  {
    WordBytes(c.address);
    WordBytes(if c.PutWord? then c.value else 0);
  }

  lemma WordBytes(u: word)
    ensures var b := LittleEndian(u);
      b[3] as int * 0x1000000 + b[2] as int * 0x10000 + b[1] as int * 0x100 + b[0] as int == u as int
  {
    WordRoundTrip(u);
  }

  lemma BigEndianRoundTrip(u: word)
    ensures FromBigEndian(BigEndian(u)) == u
  {
    hide LittleEndian, FromLittleEndian;
    var b := LittleEndian(u);
    assert [b[0], b[1], b[2], b[3]] == b;
    WordRoundTrip(u);
  }

  // ---------------------------------------------------------------- the word map

  type Memory = map<word, word>

  function At(m: Memory, a: word): word {
    if a in m then m[a] else 0
  }

  /** The memory after the first `k` commands. */
  function MemoryAfter(m: Memory, cs: seq<Command>, k: nat): Memory
    requires k <= |cs|
  {
    if k == 0 then m
    else
      var m' := MemoryAfter(m, cs, k - 1);
      match cs[k - 1] case PutWord(a, v) => m'[a := v] case GetWord(_) => m'
  }

  /** What the gets among the first `k` commands return. */
  function Returns(m: Memory, cs: seq<Command>, k: nat): seq<word>
    requires k <= |cs|
  {
    if k == 0 then []
    else
      match cs[k - 1]
      case PutWord(_, _) => Returns(m, cs, k - 1)
      case GetWord(a) => Returns(m, cs, k - 1) + [At(MemoryAfter(m, cs, k - 1), a)]
  }

  /** A get returns the value of the last put to its address, and the original contents if there was none. */
  lemma {:induction false} LastPutWins(m: Memory, cs: seq<Command>, k: nat, a: word, i: nat)
    requires i < k <= |cs| && cs[i].PutWord? && cs[i].address == a
    requires forall j :: i < j < k && cs[j].PutWord? ==> cs[j].address != a
    ensures At(MemoryAfter(m, cs, k), a) == cs[i].value
  {
    if i < k - 1 {
      LastPutWins(m, cs, k - 1, a, i);
    }
  }

  lemma {:induction false} NoPutKeeps(m: Memory, cs: seq<Command>, k: nat, a: word)
    requires k <= |cs|
    requires forall j :: 0 <= j < k && cs[j].PutWord? ==> cs[j].address != a
    ensures At(MemoryAfter(m, cs, k), a) == At(m, a)
  {
    if k > 0 {
      NoPutKeeps(m, cs, k - 1, a);
    }
  }

  // ---------------------------------------------------------------- what each get returns

  /** The number of gets among the first `k` commands. */
  function Gets(cs: seq<Command>, k: nat): nat
    requires k <= |cs|
  {
    if k == 0 then 0 else Gets(cs, k - 1) + (if cs[k - 1].GetWord? then 1 else 0)
  }

  /** `i` is the last put to address `a` before command `j`. */
  ghost predicate LastPut(cs: seq<Command>, a: word, j: nat, i: nat) {
    && i < j <= |cs| && cs[i].PutWord? && cs[i].address == a
    && NoPut(cs, a, i + 1, j)
  }

  ghost predicate NoPut(cs: seq<Command>, a: word, from: nat, to: nat) {
    forall i :: from <= i < to && i < |cs| && cs[i].PutWord? ==> cs[i].address != a
  }

  /** The results of the gets among the first `k` commands: one for each, in order, the value of the last put to its
      address before it, or the original contents of the memory if there was none. */
  ghost predicate Answered(m: Memory, cs: seq<Command>, k: nat, results: seq<word>)
    requires k <= |cs|
  {
    && |results| == Gets(cs, k)
    && forall j: nat :: j < k && cs[j].GetWord? ==> AnsweredAt(m, cs, j, results)
  }

  ghost predicate AnsweredAt(m: Memory, cs: seq<Command>, j: nat, results: seq<word>)
    requires j < |cs|
  {
    && Gets(cs, j) < |results|
    && var x, a := results[Gets(cs, j)], cs[j].address;
       && (forall i: nat :: LastPut(cs, a, j, i) ==> x == cs[i].value)
       && (NoPut(cs, a, 0, j) ==> x == At(m, a))
  }

  lemma {:induction false} GetsLater(cs: seq<Command>, j: nat, k: nat)
    requires j < k <= |cs| && cs[j].GetWord?
    ensures Gets(cs, j) < Gets(cs, k)
  {
    if j < k - 1 {
      GetsLater(cs, j, k - 1);
    }
  }

  /** The results of the word map are those. */
  lemma {:induction false} ReturnsAnswered(m: Memory, cs: seq<Command>, k: nat)
    requires k <= |cs|
    ensures Answered(m, cs, k, Returns(m, cs, k))
  {
    hide MemoryAfter, LastPut, NoPut, At;
    if k > 0 {
      ReturnsAnswered(m, cs, k - 1);
      var before, now := Returns(m, cs, k - 1), Returns(m, cs, k);
      forall j: nat | j < k && cs[j].GetWord?
        ensures AnsweredAt(m, cs, j, now)
      {
        if j < k - 1 {
          assert AnsweredAt(m, cs, j, before);
          assert now[Gets(cs, j)] == before[Gets(cs, j)];
        } else {
          LastAnswered(m, cs, j);
        }
      }
    }
  }

  lemma LastAnswered(m: Memory, cs: seq<Command>, j: nat)
    requires j < |cs|
    ensures var x, a := At(MemoryAfter(m, cs, j), cs[j].address), cs[j].address;
      && (forall i: nat :: LastPut(cs, a, j, i) ==> x == cs[i].value)
      && (NoPut(cs, a, 0, j) ==> x == At(m, a))
  {
    hide MemoryAfter, At;
    var a := cs[j].address;
    forall i: nat | LastPut(cs, a, j, i)
      ensures At(MemoryAfter(m, cs, j), a) == cs[i].value
    {
      LastPutWins(m, cs, j, a, i);
    }
    if NoPut(cs, a, 0, j) {
      NoPutKeeps(m, cs, j, a);
    }
  }

  /** For every get one of the two cases holds. */
  lemma {:induction false} SomeCase(cs: seq<Command>, a: word, j: nat) returns (i: nat)
    requires j <= |cs|
    ensures LastPut(cs, a, j, i) || NoPut(cs, a, 0, j)
  {
    i := 0;
    if j > 0 {
      i := j - 1;
      if !(cs[j - 1].PutWord? && cs[j - 1].address == a) {
        i := SomeCase(cs, a, j - 1);
      }
    }
  }

  // ---------------------------------------------------------------- states

  datatype ClientPc =
    | CStart                   // the line is about to be pulled low
    | CSync                    // SYNC is next
    | CWait(deadline: nat)     // listening for the reply
    | CSend(j: nat)            // byte j of the packet is next
    | CRecv                    // reading the four bytes of a get

  /** `k` commands are done, and the gets among them returned `results`. */
  datatype Client = Client(k: nat, pc: ClientPc, got: seq<byte>, results: seq<word>)

  datatype ServerPc =
    | SIdle                    // interrupts on
    | SListen(until: nat)      // in the handler, reading one byte
    | SReply(due: nat)         // in the delay before the reply
    | SRecv                    // reading the packet
    | SAct(due: nat)           // in the delay before it is served
    | SSend(j: nat, data: word)

  datatype Server = Server(pc: ServerPc, buf: seq<byte>, mem: Memory)

  datatype State = State(now: nat, client: Client, server: Server)

  function Init(m: Memory, now: nat): State {
    State(now, Client(0, CStart, [], []), Server(SIdle, [], m))
  }

  // ---------------------------------------------------------------- the line

  /** What becomes of a falling edge on an idle server: the interrupt comes when the line is high again, and is taken
      for that of a rising edge; it wakes the server too late for the byte; or in time for it. */
  datatype Wake = Missed | Late | InTime

  /** The line is pulled low. A server in the handler forgets the edge: it clears its events before it leaves. */
  function Woken(s: Server, now: nat, wake: Wake): Server {
    if s.pc.SIdle? && wake != Missed then s.(pc := SListen(now + LISTEN_MS)) else s
  }

  /** A byte put on the server's line. */
  function ServerTakes(s: Server, b: byte, now: nat, wake: Wake): Server {
    match s.pc
    case SIdle => if wake == InTime then s.(pc := SReply(now + DELAY_MS)) else Woken(s, now, wake)
    case SListen(_) => s.(pc := SReply(now + DELAY_MS))
    case SRecv => Server(if |s.buf| == 8 then SAct(now + DELAY_MS) else SRecv, s.buf + [b], s.mem)
    case _ => s
  }

  function ClientTakes(c: Client, b: byte): Client {
    match c.pc
    case CWait(_) => c.(pc := if b == SYNC_SIGNAL then CSend(0) else CSync)
    case CRecv => if |c.got| < 4 then c.(got := c.got + [b]) else c
    case _ => c
  }

  // ---------------------------------------------------------------- actions

  datatype Action =
    | Tick
    | ClientStep(wake: Wake)
    | ClientTimeout
    | ServerStep
    | ServerTimeout

  /** Time may pass at any moment, so that every delay may be longer than it should be. */
  predicate Enabled(cs: seq<Command>, s: State, a: Action) {
    match a
    case Tick => true
    case ClientStep(_) =>
      && s.client.k < |cs|
      && (match s.client.pc
          case CStart => true
          case CSync => true
          case CWait(_) => false
          case CSend(j) => j < 9
          case CRecv => |s.client.got| == 4)
    case ClientTimeout => s.client.pc.CWait? && s.now > s.client.pc.deadline
    case ServerStep =>
      (match s.server.pc
       case SReply(due) => s.now >= due
       case SAct(due) => s.now >= due && |s.server.buf| == 9
       case SSend(j, _) => j <= 4
       case _ => false)
    case ServerTimeout => s.server.pc.SListen? && s.now > s.server.pc.until
  }

  /** The client after the last byte of the packet. */
  function Sent(c: Client, command: Command): Client {
    match command
    case PutWord(_, _) => Client(c.k + 1, CStart, [], c.results)
    case GetWord(_) => c.(pc := CRecv, got := [])
  }

  function ClientApplies(cs: seq<Command>, s: State, wake: Wake): State
    requires Enabled(cs, s, ClientStep(wake))
  {
    var c := s.client;
    match c.pc
    case CStart => s.(client := c.(pc := CSync), server := Woken(s.server, s.now, wake))
    case CSync =>
      s.(client := c.(pc := CWait(s.now + TIMEOUT_MS)), server := ServerTakes(s.server, SYNC_SIGNAL, s.now, wake))
    case CWait(_) => s
    case CSend(j) =>
      s.(client := if j == 8 then Sent(c, cs[c.k]) else c.(pc := CSend(j + 1)),
         server := ServerTakes(s.server, PacketOf(cs[c.k])[j], s.now, wake))
    case CRecv => s.(client := Client(c.k + 1, CStart, [], c.results + [FromLittleEndian(c.got)]))
  }

  /** Serving the packet. */
  function Served(s: Server): Server
    requires |s.buf| == 9
  {
    match ReadPacket(s.buf)
    case Store(a, v) => Server(SIdle, s.buf, s.mem[a := v])
    case Load(a) => s.(pc := SSend(0, At(s.mem, a)))
    case Unknown => s.(pc := SIdle)
  }

  function ServerApplies(cs: seq<Command>, s: State): State
    requires Enabled(cs, s, ServerStep)
  {
    match s.server.pc
    case SReply(_) => s.(client := ClientTakes(s.client, SYNC_SIGNAL), server := s.server.(pc := SRecv, buf := []))
    case SAct(_) => s.(server := Served(s.server))
    case SSend(j, data) =>
      if j == 4 then s.(server := s.server.(pc := SIdle))
      else s.(client := ClientTakes(s.client, LittleEndian(data)[j]), server := s.server.(pc := SSend(j + 1, data)))
    case _ => s
  }

  function Apply(cs: seq<Command>, s: State, a: Action): State
    requires Enabled(cs, s, a)
  {
    match a
    case Tick => s.(now := s.now + 1)
    case ClientStep(wake) => ClientApplies(cs, s, wake)
    case ClientTimeout => s.(client := s.client.(pc := CSync))
    case ServerStep => ServerApplies(cs, s)
    case ServerTimeout => s.(server := s.server.(pc := SIdle))
  }

  ghost predicate IsRun(m: Memory, cs: seq<Command>, start: nat, run: seq<State>, acts: seq<Action>) {
    && |run| == |acts| + 1
    && run[0] == Init(m, start)
    && forall t :: 0 <= t < |acts| ==>
         Enabled(cs, run[t], acts[t]) && run[t + 1] == Apply(cs, run[t], acts[t])
  }

  // ---------------------------------------------------------------- the invariant

  ghost predicate Syncs(buf: seq<byte>) {
    forall i :: 0 <= i < |buf| ==> buf[i] == SYNC_SIGNAL
  }

  /** The server when the client is before or in the handshake of command `k`: free, about to answer, still busy
      with the command before, or, after its answer came too late, taking the client's SYNC bytes for a packet.
      Nine of them make a command that it ignores. */
  ghost predicate BeforePacket(m: Memory, cs: seq<Command>, c: Client, s: Server)
    requires c.k <= |cs|
  {
    match s.pc
    case SIdle => s.mem == MemoryAfter(m, cs, c.k)
    case SListen(_) => s.mem == MemoryAfter(m, cs, c.k)
    case SReply(_) => s.mem == MemoryAfter(m, cs, c.k)
    case SRecv => s.mem == MemoryAfter(m, cs, c.k) && |s.buf| < 9 && Syncs(s.buf)
    case SAct(_) =>
      if Syncs(s.buf) then |s.buf| == 9 && s.mem == MemoryAfter(m, cs, c.k)
      else
        && 0 < c.k && cs[c.k - 1].PutWord? && s.buf == PacketOf(cs[c.k - 1])
        && s.mem == MemoryAfter(m, cs, c.k - 1)
    case SSend(j, _) => j == 4 && s.mem == MemoryAfter(m, cs, c.k)
  }

  /** The server while the client reads the answer to a get. */
  ghost predicate Answering(m: Memory, cs: seq<Command>, c: Client, s: Server)
    requires c.k < |cs|
  {
    && cs[c.k].GetWord? && s.mem == MemoryAfter(m, cs, c.k)
    && var value := At(s.mem, cs[c.k].address);
       match s.pc
       case SAct(_) => s.buf == PacketOf(cs[c.k]) && c.got == []
       case SSend(j, data) => data == value && j <= 4 && c.got == LittleEndian(value)[..j]
       case SIdle => c.got == LittleEndian(value)
       case _ => false
  }

  ghost predicate Inv(m: Memory, cs: seq<Command>, s: State) {
    var c := s.client;
    && c.k <= |cs| && c.results == Returns(m, cs, c.k)
    && match c.pc
       case CSend(j) =>
         && j < 9 && c.k < |cs| && s.server.pc.SRecv?
         && s.server.buf == PacketOf(cs[c.k])[..j] && s.server.mem == MemoryAfter(m, cs, c.k)
       case CRecv => c.k < |cs| && Answering(m, cs, c, s.server)
       case _ => BeforePacket(m, cs, c, s.server) && (c.pc.CStart? || c.k < |cs|)
  }

  lemma ClientStepKeeps(m: Memory, cs: seq<Command>, s: State, wake: Wake)
    requires Inv(m, cs, s) && Enabled(cs, s, ClientStep(wake))
    ensures Inv(m, cs, Apply(cs, s, ClientStep(wake)))
  {
    hide LittleEndian, FromLittleEndian, PacketOf, ReadPacket;
    if s.client.pc.CSend? {
      NotSyncs(cs[s.client.k]);
      PacketGrows(PacketOf(cs[s.client.k]), s.client.pc.j);
    }
    if s.client.pc.CRecv? {
      AnswerRead(m, cs, s.client, s.server);
    }
  }

  lemma NotSyncs(c: Command)
    ensures !Syncs(PacketOf(c))
  {
    assert PacketOf(c)[0] != SYNC_SIGNAL;
  }

  lemma SyncsUnknown(buf: seq<byte>)
    requires Syncs(buf) && |buf| == 9
    ensures ReadPacket(buf).Unknown?
  {
  }

  lemma PacketGrows(p: seq<byte>, j: nat)
    requires j < |p|
    ensures p[..j] + [p[j]] == p[..j + 1] && p[..|p|] == p
  {
  }

  /** The four bytes a get has read are the value. */
  lemma AnswerRead(m: Memory, cs: seq<Command>, c: Client, s: Server)
    requires c.k < |cs| && Answering(m, cs, c, s) && |c.got| == 4
    ensures FromLittleEndian(c.got) == At(MemoryAfter(m, cs, c.k), cs[c.k].address)
    ensures MemoryAfter(m, cs, c.k + 1) == MemoryAfter(m, cs, c.k)
  {
    var value := At(s.mem, cs[c.k].address);
    WordRoundTrip(value);
    assert c.got == LittleEndian(value);
  }

  lemma ServerStepKeeps(m: Memory, cs: seq<Command>, s: State)
    requires Inv(m, cs, s) && Enabled(cs, s, ServerStep)
    ensures Inv(m, cs, Apply(cs, s, ServerStep))
  {
    hide LittleEndian, FromLittleEndian, PacketOf, ReadPacket;
    if s.server.pc.SAct? {
      if s.client.pc.CRecv? {
        PacketRoundTrip(cs[s.client.k]);
      } else if Syncs(s.server.buf) {
        SyncsUnknown(s.server.buf);
      } else {
        PacketRoundTrip(cs[s.client.k - 1]);
      }
    }
    if s.server.pc.SSend? && s.server.pc.j < 4 {
      PacketGrows(LittleEndian(s.server.pc.data), s.server.pc.j);
    }
    if s.client.pc.CWait? {
      EmptyPacket(cs, s.client.k);
    }
  }

  lemma EmptyPacket(cs: seq<Command>, k: nat)
    requires k < |cs|
    ensures PacketOf(cs[k])[..0] == []
  {
  }

  lemma StepKeeps(m: Memory, cs: seq<Command>, s: State, a: Action)
    requires Inv(m, cs, s) && Enabled(cs, s, a)
    ensures Inv(m, cs, Apply(cs, s, a))
  {
    match a
    case ClientStep(wake) => ClientStepKeeps(m, cs, s, wake);
    case ServerStep => ServerStepKeeps(m, cs, s);
    case _ =>
  }

  lemma {:induction false} Reachable(m: Memory, cs: seq<Command>, start: nat,
                                     run: seq<State>, acts: seq<Action>, t: nat)
    requires IsRun(m, cs, start, run, acts) && t <= |acts|
    ensures Inv(m, cs, run[t])
  {
    hide Apply, Enabled;
    if t > 0 {
      Reachable(m, cs, start, run, acts, t - 1);
      hide Inv;
      StepKeeps(m, cs, run[t - 1], acts[t - 1]);
    }
  }

  /** In every reachable state each get that is done has returned the value of the last put to its address before it, or
      the original contents if there was none, and when the client and the server are both at rest the remote memory is
      that of the word map. */
  lemma RefinesWordMap(m: Memory, cs: seq<Command>, start: nat,
                       run: seq<State>, acts: seq<Action>, t: nat)
    requires IsRun(m, cs, start, run, acts) && t <= |acts|
    ensures var c, s := run[t].client, run[t].server;
      && c.k <= |cs| && c.results == Returns(m, cs, c.k) && Answered(m, cs, c.k, c.results)
      && (c.pc.CStart? && s.pc.SIdle? ==> s.mem == MemoryAfter(m, cs, c.k))
  {
    hide Apply, Enabled, Init, Answered;
    Reachable(m, cs, start, run, acts, t);
    ReturnsAnswered(m, cs, run[t].client.k);
  }

  /** The reply on the wire: when a get has read its four bytes they are the value, the lowest byte first. */
  lemma ReplyLayout(m: Memory, cs: seq<Command>, start: nat, run: seq<State>, acts: seq<Action>, t: nat)
    requires IsRun(m, cs, start, run, acts) && t <= |acts|
    requires run[t].client.pc.CRecv? && |run[t].client.got| == 4
    ensures var c := run[t].client;
      && c.k < |cs| && cs[c.k].GetWord?
      && c.got[0] as int + c.got[1] as int * 0x100 + c.got[2] as int * 0x10000 + c.got[3] as int * 0x1000000
         == At(MemoryAfter(m, cs, c.k), cs[c.k].address) as int
  {
    hide Apply, Enabled, Init;
    Reachable(m, cs, start, run, acts, t);
    AnswerRead(m, cs, run[t].client, run[t].server);
  }

  // ---------------------------------------------------------------- progress

  /** How far the server is from serving the current packet. */
  function ServerWeight(c: Client, s: Server): nat {
    match s.pc
    case SAct(_) => if c.pc.CRecv? then 10 else 40
    case SSend(j, _) => if c.pc.CRecv? then 9 - (if j <= 4 then j else 4) else 39
    case SIdle => if c.pc.CRecv? then 4 else 30
    case SListen(_) => 30
    case SReply(_) => 29
    case SRecv =>
      if c.pc.CSend? then 28 - (if c.pc.j <= 9 then c.pc.j else 9)
      else 60 - (if |s.buf| <= 9 then |s.buf| else 9)
  }

  /** Before an answer that is on its way the client had better be reading; before any other it had better try
      again. */
  function ClientWeight(c: Client, s: Server): nat {
    match c.pc
    case CStart => 3
    case CSync => if s.pc.SReply? then 2 else 1
    case CWait(_) => if s.pc.SReply? then 1 else 2
    case _ => 0
  }

  function Clock(s: State): nat {
    match s.server.pc
    case SReply(due) => Monus(due, s.now)
    case SAct(due) => Monus(due, s.now)
    case _ => if s.client.pc.CWait? then Monus(s.client.pc.deadline + 1, s.now) else 0
  }

  type Measure = (nat, nat, nat, nat)

  function MeasureOf(cs: seq<Command>, s: State): Measure {
    (Monus(|cs|, s.client.k), ServerWeight(s.client, s.server), ClientWeight(s.client, s.server), Clock(s))
  }

  ghost predicate Less(a: Measure, b: Measure) {
    a.0 < b.0 || (a.0 == b.0 && (a.1 < b.1 || (a.1 == b.1 && (a.2 < b.2 || (a.2 == b.2 && a.3 < b.3)))))
  }

  /** A step that brings the server, or else the client, further. */
  function NextAction(s: State): Action {
    match s.server.pc
    case SReply(due) =>
      if s.client.pc.CStart? || s.client.pc.CSync? then ClientStep(InTime) else if s.now < due then Tick else ServerStep
    case SAct(due) => if s.now < due then Tick else ServerStep
    case SSend(_, _) => ServerStep
    case _ =>
      if !s.client.pc.CWait? then ClientStep(InTime)
      else if s.now > s.client.pc.deadline then ClientTimeout
      else Tick
  }

  /** No reachable state is stuck before the last command is done, and whatever has been lost, some step makes
      progress. */
  lemma NeverStuck(m: Memory, cs: seq<Command>, s: State)
    requires Inv(m, cs, s) && s.client.k < |cs|
    ensures Enabled(cs, s, NextAction(s))
    ensures Less(MeasureOf(cs, Apply(cs, s, NextAction(s))), MeasureOf(cs, s))
  {
    hide LittleEndian, FromLittleEndian, PacketOf, ReadPacket, MemoryAfter, Returns, At, Syncs;
    match NextAction(s)
    case ServerStep => ServerMoves(m, cs, s);
    case ClientStep(_) => ClientMoves(m, cs, s);
    case _ =>
  }

  lemma ServerMoves(m: Memory, cs: seq<Command>, s: State)
    requires Inv(m, cs, s) && s.client.k < |cs| && NextAction(s) == ServerStep
    ensures Enabled(cs, s, ServerStep)
    ensures Less(MeasureOf(cs, Apply(cs, s, ServerStep)), MeasureOf(cs, s))
  {
    hide LittleEndian, FromLittleEndian, PacketOf, ReadPacket, MemoryAfter, Returns, At, Syncs;
    if s.server.pc.SAct? {
      ActHasPacket(m, cs, s);
    }
  }

  lemma ClientMoves(m: Memory, cs: seq<Command>, s: State)
    requires Inv(m, cs, s) && s.client.k < |cs| && NextAction(s) == ClientStep(InTime)
    ensures Enabled(cs, s, ClientStep(InTime))
    ensures Less(MeasureOf(cs, Apply(cs, s, ClientStep(InTime))), MeasureOf(cs, s))
  {
    hide LittleEndian, FromLittleEndian, PacketOf, ReadPacket, MemoryAfter, Returns, At, Syncs;
  }

  lemma ActHasPacket(m: Memory, cs: seq<Command>, s: State)
    requires Inv(m, cs, s) && s.server.pc.SAct?
    ensures |s.server.buf| == 9
    ensures s.client.pc.CRecv? ==> ReadPacket(s.server.buf).Load?
  {
    hide ReadPacket, PacketOf;
    if s.client.pc.CRecv? {
      PacketRoundTrip(cs[s.client.k]);
    }
  }

  ghost predicate Leads(cs: seq<Command>, s: State, acts: seq<Action>, s': State)
    decreases |acts|
  {
    if acts == [] then s == s'
    else Enabled(cs, s, acts[0]) && Leads(cs, Apply(cs, s, acts[0]), acts[1..], s')
  }

  /** From every reachable state some schedule completes the commands. */
  lemma {:induction false} CanComplete(m: Memory, cs: seq<Command>, s: State, measure: Measure)
    returns (acts: seq<Action>, s': State)
    requires Inv(m, cs, s) && measure == MeasureOf(cs, s)
    ensures Leads(cs, s, acts, s') && Inv(m, cs, s')
    ensures s'.client.k == |cs| && s'.client.results == Returns(m, cs, |cs|)
    ensures Answered(m, cs, |cs|, s'.client.results)
    decreases measure.0, measure.1, measure.2, measure.3
  {
    hide Apply, Enabled, MeasureOf, NextAction, Answered;
    if s.client.k == |cs| {
      ReturnsAnswered(m, cs, |cs|);
      return [], s;
    }
    NeverStuck(m, cs, s);
    StepKeeps(m, cs, s, NextAction(s));
    var next := Apply(cs, s, NextAction(s));
    var rest;
    rest, s' := CanComplete(m, cs, next, MeasureOf(cs, next));
    acts := [NextAction(s)] + rest;
    assert acts[1..] == rest;
  }
}
