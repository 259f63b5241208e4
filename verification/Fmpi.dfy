/** The collectives of the message-passing library as a labelled transition system: one program
    counter for the root and one for each worker, interleaved one channel operation at a time. */
module Fmpi {
  import opened Bytes

  const SEND_SIGNAL: byte := 5
  const SYNC_SIGNAL: byte := 7
  const DELAY_MS: nat := 70
  const TIMEOUT_MS: nat := 200

  /** One collective call. `n` is count * data_size, the bytes that go to or come from one rank. */
  datatype Op = Bcast(n: nat) | Scatter(n: nat) | Gather(n: nat) | Barrier
  {
    function Bytes(): nat {
      match this
      case Barrier => 0
      case _ => n
    }
  }

  /** What a rank received in each collective it has completed. */
  type Log = seq<seq<byte>>

  /** A program run identically by every rank. The local computation is arbitrary but deterministic, so
      the memory a rank passes to its next collective is a function of its rank and of what it
      received before: `data(rank, log, offset)` is the byte at that offset of the buffer.
      `stale(log, block, offset)` is what the root's receive buffer held before a gather. */
  datatype Program = Program(
    size: nat,
    root: nat,
    ops: seq<Op>,
    data: (nat, Log, nat) -> byte,
    stale: (Log, nat, nat) -> byte)
  {
    ghost predicate Valid() {
      root < size
    }
  }

  function Slice(prog: Program, rank: nat, log: Log, offset: nat, n: nat): (r: seq<byte>)
    ensures |r| == n
  {
    seq(n, j requires 0 <= j < n => prog.data(rank, log, offset + j))
  }

  function StaleBlocks(prog: Program, log: Log, n: nat): (r: seq<seq<byte>>)
    ensures |r| == prog.size
    ensures forall i :: 0 <= i < prog.size ==> |r[i]| == n
  {
    seq(prog.size, i requires 0 <= i < prog.size => seq(n, j requires 0 <= j < n => prog.stale(log, i, j)))
  }

  // ---------------------------------------------------------------- atomic collectives

  /** The log of `rank` after the first `k` collectives, each performed in one indivisible step. */
  ghost function LogOf(prog: Program, rank: nat, k: nat): (r: Log)
    requires k <= |prog.ops|
    ensures |r| == k
    decreases k, 0
  {
    if k == 0 then [] else LogOf(prog, rank, k - 1) + [Result(prog, rank, k - 1)]
  }

  /** What the `k`-th collective, performed atomically, hands to `rank`. */
  ghost function Result(prog: Program, rank: nat, k: nat): seq<byte>
    requires k < |prog.ops|
    decreases k, 2
  {
    var rootLog := LogOf(prog, prog.root, k);
    match prog.ops[k]
    case Bcast(n) => Slice(prog, prog.root, rootLog, 0, n)
    case Scatter(n) => Slice(prog, prog.root, rootLog, if rank == prog.root then 0 else rank * n, n)
    case Gather(n) =>
      if rank != prog.root then [] else
        Concat(seq(prog.size, i requires 0 <= i < prog.size => GatheredBlock(prog, k, n, i)))
    case Barrier => []
  }

  /** Block `i` of the root's receive buffer after a gather: the root copies its own block to offset 0
      and never writes the block with its own number. */
  ghost function GatheredBlock(prog: Program, k: nat, n: nat, i: nat): (r: seq<byte>)
    requires k < |prog.ops| && i < prog.size
    ensures |r| == n
    decreases k, 1
  {
    if i == 0 then Slice(prog, prog.root, LogOf(prog, prog.root, k), 0, n)
    else if i == prog.root then StaleBlocks(prog, LogOf(prog, prog.root, k), n)[i]
    else Slice(prog, i, LogOf(prog, i, k), 0, n)
  }

  // ---------------------------------------------------------------- states

  datatype RootPc =
    | RIdle                          // between collectives
    | RSync(i: nat)                  // head of the loop over ranks in the handshake
    | RWait(i: nat, deadline: nat)   // SYNC sent to i, listening for its reply
    | RSend(i: nat, j: nat)          // broadcast or scatter: byte j for rank i is next
    | RSignal(i: nat)                // gather: SEND signal for rank i is next
    | RRecv(i: nat, j: nat)          // gather: reading byte j from rank i
    | RDone                          // all channel operations of the collective are over

  datatype WorkerPc =
    | WIdle
    | WSync                          // reading until SYNC
    | WReply(due: nat)               // in the delay before the reply
    | WRecv(j: nat)                  // reading byte j
    | WSignal                        // gather: reading until SEND
    | WDelay(due: nat)               // gather: in the delay before the data
    | WPut(j: nat)                   // gather: byte j is next
    | WDone

  datatype Root = Root(log: Log, pc: RootPc, blocks: seq<seq<byte>>)
  datatype Worker = Worker(log: Log, pc: WorkerPc, buf: seq<byte>)

  /** `workers[root]` is a placeholder that no action touches. `now` is in milliseconds. */
  datatype State = State(now: nat, root: Root, workers: seq<Worker>)

  function Init(prog: Program, now: nat): State {
    State(now, Root([], RIdle, []), seq(prog.size, i => Worker([], WIdle, [])))
  }

  // ---------------------------------------------------------------- the unbuffered channel

  /** Whether the worker's next channel operation is a read, so that a byte put now is taken. */
  predicate WorkerReads(prog: Program, w: Worker) {
    match w.pc
    case WSync => true
    case WSignal => true
    case WRecv(j) => |w.log| < |prog.ops| && j < prog.ops[|w.log|].Bytes()
    case _ => false
  }

  /** The worker after a byte was put on its line: unchanged if it was not reading. */
  function WorkerTakes(prog: Program, w: Worker, b: byte, now: nat): Worker {
    if !WorkerReads(prog, w) then w else
      match w.pc
      case WSync => if b == SYNC_SIGNAL then w.(pc := WReply(now + DELAY_MS)) else w
      case WSignal => if b == SEND_SIGNAL then w.(pc := WDelay(now + DELAY_MS)) else w
      case WRecv(j) => w.(pc := WRecv(j + 1), buf := w.buf + [b])
      case _ => w
  }

  /** Whether the root is reading the line of rank `i`. */
  predicate RootReads(prog: Program, r: Root, i: nat) {
    match r.pc
    case RWait(k, _) => k == i
    case RRecv(k, j) => k == i && |r.log| < |prog.ops| && j < prog.ops[|r.log|].Bytes()
                        && i < |r.blocks| && j < |r.blocks[i]|
    case _ => false
  }

  function RootTakes(prog: Program, r: Root, i: nat, b: byte): Root {
    if !RootReads(prog, r, i) then r else
      match r.pc
      case RWait(_, _) => r.(pc := if b == SYNC_SIGNAL then RSync(i + 1) else RSync(i))
      case RRecv(_, j) =>
        var block: seq<byte> := r.blocks[i][j := b];
        r.(pc := RRecv(i, j + 1), blocks := r.blocks[i := block])
      case _ => r
  }

  // ---------------------------------------------------------------- actions

  datatype Action =
    | Tick                 // one millisecond passes
    | RootStep             // the root's next operation
    | Timeout              // the root gives up on a reply
    | WorkerStep(w: nat)   // the next operation of worker w

  datatype Kind = Sync | Signal | Data

  /** The byte an action puts on a line, and whether the peer takes it. */
  datatype Event = Silent | Put(from: nat, to: nat, kind: Kind, b: byte, taken: bool)

  ghost predicate IsWorker(prog: Program, s: State, w: nat) {
    w < prog.size && w != prog.root && w < |s.workers|
  }

  /** A worker answers at most `jitter` milliseconds after its delay, so time may not run past that. */
  ghost predicate Enabled(prog: Program, jitter: nat, s: State, a: Action) {
    match a
    case Tick =>
      forall w: nat :: IsWorker(prog, s, w) && s.workers[w].pc.WReply? ==> s.now < s.workers[w].pc.due + jitter
    case RootStep => RootEnabled(prog, s)
    case Timeout => s.root.pc.RWait? && s.now > s.root.pc.deadline
    case WorkerStep(w) => IsWorker(prog, s, w) && WorkerEnabled(prog, s.now, s.workers[w])
  }

  ghost predicate RootEnabled(prog: Program, s: State) {
    && |s.root.log| < |prog.ops|
    && |s.workers| == prog.size
    && match s.root.pc
       case RIdle => true
       case RSync(i) => i <= prog.size
       case RWait(_, _) => false
       case RSend(i, j) => i <= prog.size
       case RSignal(i) => i <= prog.size
       case RRecv(i, j) => j == prog.ops[|s.root.log|].Bytes()
       case RDone => prog.ops[|s.root.log|].Gather? ==> 0 < |s.root.blocks|
  }

  ghost predicate WorkerEnabled(prog: Program, now: nat, w: Worker) {
    && |w.log| < |prog.ops|
    && match w.pc
       case WIdle => true
       case WSync => false
       case WReply(due) => now >= due
       case WRecv(j) => j == prog.ops[|w.log|].Bytes()
       case WSignal => false
       case WDelay(due) => now >= due
       case WPut(j) => true
       case WDone => true
  }

  /** The byte that the root's next operation would send and its destination, if it sends one. */
  ghost function RootPuts(prog: Program, s: State): Event
    requires RootEnabled(prog, s)
  {
    var op := prog.ops[|s.root.log|];
    match s.root.pc
    case RSync(i) =>
      if i == prog.size || i == prog.root then Silent
      else Put(prog.root, i, Sync, SYNC_SIGNAL, WorkerReads(prog, s.workers[i]))
    case RSend(i, j) =>
      if i == prog.size || i == prog.root || j == op.Bytes() then Silent
      else Put(prog.root, i, Data,
               prog.data(prog.root, s.root.log, if op.Scatter? then i * op.n + j else j),
               WorkerReads(prog, s.workers[i]))
    case RSignal(i) =>
      if i == prog.size || i == prog.root then Silent
      else Put(prog.root, i, Signal, SEND_SIGNAL, WorkerReads(prog, s.workers[i]))
    case _ => Silent
  }

  ghost function WorkerPuts(prog: Program, s: State, w: nat): Event
    requires IsWorker(prog, s, w) && WorkerEnabled(prog, s.now, s.workers[w])
  {
    var me := s.workers[w];
    match me.pc
    case WReply(_) => Put(w, prog.root, Sync, SYNC_SIGNAL, RootReads(prog, s.root, w))
    case WPut(j) =>
      if j == prog.ops[|me.log|].Bytes() then Silent
      else Put(w, prog.root, Data, prog.data(w, me.log, j), RootReads(prog, s.root, w))
    case _ => Silent
  }

  ghost function EventOf(prog: Program, jitter: nat, s: State, a: Action): Event
    requires Enabled(prog, jitter, s, a)
  {
    match a
    case RootStep => RootPuts(prog, s)
    case WorkerStep(w) => WorkerPuts(prog, s, w)
    case _ => Silent
  }

  /** What the root's buffer holds when it returns from its current collective. */
  function RootReturns(prog: Program, r: Root): seq<byte>
    requires |r.log| < |prog.ops|
    requires prog.ops[|r.log|].Gather? ==> 0 < |r.blocks|
  {
    match prog.ops[|r.log|]
    case Bcast(n) => Slice(prog, prog.root, r.log, 0, n)
    case Scatter(n) => Slice(prog, prog.root, r.log, 0, n)
    case Gather(n) => Concat(r.blocks[0 := Slice(prog, prog.root, r.log, 0, n)])
    case Barrier => []
  }

  /** The root's own control flow, apart from the effect of its byte on the peer. */
  ghost function RootAdvances(prog: Program, s: State): Root
    requires RootEnabled(prog, s)
  {
    var r := s.root;
    var op := prog.ops[|r.log|];
    match r.pc
    case RIdle => r.(pc := RSync(0), blocks := if op.Gather? then StaleBlocks(prog, r.log, op.n) else [])
    case RSync(i) =>
      if i == prog.size then
        r.(pc := match op case Bcast(_) => RSend(0, 0) case Scatter(_) => RSend(0, 0)
                          case Gather(_) => RSignal(0) case Barrier => RDone)
      else if i == prog.root then r.(pc := RSync(i + 1))
      else r.(pc := RWait(i, s.now + TIMEOUT_MS))
    case RWait(_, _) => r
    case RSend(i, j) =>
      if i == prog.size then r.(pc := RDone)
      else if i == prog.root || j == op.Bytes() then r.(pc := RSend(i + 1, 0))
      else r.(pc := RSend(i, j + 1))
    case RSignal(i) =>
      if i == prog.size then r.(pc := RDone)
      else if i == prog.root then r.(pc := RSignal(i + 1))
      else r.(pc := RRecv(i, 0))
    case RRecv(i, j) => r.(pc := RSignal(i + 1))
    case RDone => Root(r.log + [RootReturns(prog, r)], RIdle, [])
  }

  ghost function WorkerAdvances(prog: Program, now: nat, w: Worker): Worker
    requires WorkerEnabled(prog, now, w)
  {
    var op := prog.ops[|w.log|];
    match w.pc
    case WIdle => w.(pc := WSync, buf := [])
    case WSync => w
    case WReply(_) =>
      w.(pc := match op case Bcast(_) => WRecv(0) case Scatter(_) => WRecv(0)
                        case Gather(_) => WSignal case Barrier => WDone)
    case WRecv(_) => w.(pc := WDone)
    case WSignal => w
    case WDelay(_) => w.(pc := WPut(0))
    case WPut(j) => w.(pc := if j == op.Bytes() then WDone else WPut(j + 1))
    case WDone => Worker(w.log + [w.buf], WIdle, [])
  }

  ghost function Apply(prog: Program, jitter: nat, s: State, a: Action): State
    requires Enabled(prog, jitter, s, a)
  {
    match a
    case Tick => s.(now := s.now + 1)
    case Timeout => s.(root := s.root.(pc := RSync(s.root.pc.i)))
    case RootStep =>
      var s' := s.(root := RootAdvances(prog, s));
      (match RootPuts(prog, s)
       case Silent => s'
       case Put(_, i, _, b, _) =>
         s'.(workers := s.workers[i := WorkerTakes(prog, s.workers[i], b, s.now)]))
    case WorkerStep(w) =>
      var s' := s.(workers := s.workers[w := WorkerAdvances(prog, s.now, s.workers[w])]);
      (match WorkerPuts(prog, s, w)
       case Silent => s'
       case Put(_, _, _, b, _) => s'.(root := RootTakes(prog, s.root, w, b)))
  }

  /** A run from an initial state under any schedule. */
  ghost predicate IsRun(prog: Program, jitter: nat, start: nat, run: seq<State>, acts: seq<Action>) {
    && |run| == |acts| + 1
    && run[0] == Init(prog, start)
    && forall t :: 0 <= t < |acts| ==>
         Enabled(prog, jitter, run[t], acts[t]) && run[t + 1] == Apply(prog, jitter, run[t], acts[t])
  }
}
