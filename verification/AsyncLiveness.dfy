/** When the commands on remote memory complete in every fair run: exactly when a reply to a SYNC cannot come after the
    client has given up waiting for it. */
module AsyncLiveness {
  import opened Async
  import opened Bytes
  import opened Modular

  /** Who takes a step: time passes, or one of the two ranks does something. */
  datatype Party = TheClock | TheClient | TheServer

  ghost predicate Of(a: Action, p: Party) {
    match a
    case Tick => p == TheClock
    case ClientStep(_) => p == TheClient
    case ClientTimeout => p == TheClient
    case ServerStep => p == TheServer
    case ServerTimeout => p == TheServer
  }

  ghost predicate Ready(cs: seq<Command>, s: State, p: Party) {
    match p
    case TheClock => true
    case TheClient => Enabled(cs, s, ClientStep(InTime)) || Enabled(cs, s, ClientTimeout)
    case TheServer => Enabled(cs, s, ServerStep) || Enabled(cs, s, ServerTimeout)
  }

  // ---------------------------------------------------------------- fair runs

  ghost predicate IsEndlessRun(m: Memory, cs: seq<Command>, start: nat, run: nat -> State, acts: nat -> Action) {
    && run(0) == Init(m, start)
    && forall t: nat :: Enabled(cs, run(t), acts(t)) && run(t + 1) == Apply(cs, run(t), acts(t))
  }

  /** The reply is out at most `jitter` milliseconds after the delay before it. */
  ghost predicate Prompt(jitter: nat, s: State) {
    s.server.pc.SReply? ==> s.now <= s.server.pc.due + jitter
  }

  /** From `t` on the party gets a turn, or is at some time not ready for one. */
  ghost predicate GetsTurn(cs: seq<Command>, run: nat -> State, acts: nat -> Action, t: nat, p: Party) {
    exists u: nat :: u >= t && TurnAt(cs, run, acts, u, p)
  }

  ghost predicate TurnAt(cs: seq<Command>, run: nat -> State, acts: nat -> Action, u: nat, p: Party) {
    Ready(cs, run(u), p) ==> Of(acts(u), p)
  }

  /** A SYNC for a server whose interrupts are on. */
  ghost predicate IdleSync(s: State, a: Action) {
    a.ClientStep? && s.client.pc.CSync? && s.server.pc.SIdle?
  }

  ghost predicate IdleSyncAt(run: nat -> State, acts: nat -> Action, u: nat) {
    IdleSync(run(u), acts(u))
  }

  ghost predicate InTimeAt(run: nat -> State, acts: nat -> Action, u: nat) {
    IdleSyncAt(run, acts, u) && acts(u).wake == InTime
  }

  /** If such a SYNC comes from `t` on, then one comes that wakes the server in time. */
  ghost predicate WokenFrom(run: nat -> State, acts: nat -> Action, t: nat) {
    (exists u: nat :: u >= t && IdleSyncAt(run, acts, u)) ==>
    exists u: nat :: u >= t && InTimeAt(run, acts, u)
  }

  /** Replies are prompt; neither time nor a rank that can take a step is passed over for ever; and the server is not
      for ever woken too late. */
  ghost predicate Fair(cs: seq<Command>, jitter: nat, run: nat -> State, acts: nat -> Action) {
    && (forall t: nat :: Prompt(jitter, run(t)))
    && (forall t: nat, p: Party :: GetsTurn(cs, run, acts, t, p))
    && (forall t: nat :: WokenFrom(run, acts, t))
  }

  /** All commands are done, and every get has returned the value of the last put to its address. */
  ghost predicate Complete(m: Memory, cs: seq<Command>, s: State) {
    s.client.k == |cs| && Answered(m, cs, |cs|, s.client.results)
  }

  // ---------------------------------------------------------------- no reply is late

  /** A reply finds the client waiting, and so the server reads a packet only while the client sends one. */
  ghost predicate OnTime(s: State) {
    match s.server.pc
    case SReply(due) => s.client.pc.CWait? && s.client.pc.deadline + DELAY_MS == due + TIMEOUT_MS
    case SRecv => s.client.pc.CSend?
    case _ => true
  }

  lemma OnTimeKept(m: Memory, cs: seq<Command>, jitter: nat, s: State, a: Action)
    requires Inv(m, cs, s) && Enabled(cs, s, a) && OnTime(s) && Prompt(jitter, s) && DELAY_MS + jitter <= TIMEOUT_MS
    ensures OnTime(Apply(cs, s, a))
  {
    hide LittleEndian, FromLittleEndian, PacketOf, ReadPacket, MemoryAfter, Returns, At, Syncs;
  }

  lemma {:induction false} EndlessReachable(m: Memory, cs: seq<Command>, start: nat, jitter: nat,
                                            run: nat -> State, acts: nat -> Action, t: nat)
    requires IsEndlessRun(m, cs, start, run, acts) && Fair(cs, jitter, run, acts) && DELAY_MS + jitter <= TIMEOUT_MS
    ensures Inv(m, cs, run(t)) && OnTime(run(t))
  {
    hide Inv, Enabled, Apply, GetsTurn, WokenFrom, OnTime;
    if t == 0 {
      StartIsOnTime(m, cs, start);
    } else {
      EndlessReachable(m, cs, start, jitter, run, acts, t - 1);
      StepKeeps(m, cs, run(t - 1), acts(t - 1));
      OnTimeKept(m, cs, jitter, run(t - 1), acts(t - 1));
    }
  }

  lemma StartIsOnTime(m: Memory, cs: seq<Command>, start: nat)
    ensures Inv(m, cs, Init(m, start)) && OnTime(Init(m, start))
  {
  }

  // ---------------------------------------------------------------- the party whose turn brings the end closer

  /** The server is free and the client tries to reach it. */
  ghost predicate Calling(s: State) {
    (s.server.pc.SIdle? || s.server.pc.SListen?) && !s.client.pc.CSend? && !s.client.pc.CRecv?
  }

  ghost function Helpful(s: State): Party {
    match s.server.pc
    case SReply(due) => if s.now < due then TheClock else TheServer
    case SAct(due) => if s.now < due then TheClock else TheServer
    case SSend(_, _) => TheServer
    case _ => if s.client.pc.CWait? && s.now <= s.client.pc.deadline then TheClock else TheClient
  }

  /** Commands left, and what is left of the current one. */
  ghost function Level(cs: seq<Command>, s: State): (nat, nat) {
    (Monus(|cs|, s.client.k), ServerWeight(s.client, s.server))
  }

  /** How long the helpful party may have to be waited for. */
  ghost function Wait(s: State): (nat, nat) {
    match s.server.pc
    case SReply(due) => (0, Monus(due, s.now))
    case SAct(due) => (0, Monus(due, s.now))
    case _ =>
      match s.client.pc
      case CStart => if Calling(s) then (2, 0) else (0, 0)
      case CWait(deadline) => if Calling(s) then (1, Monus(deadline + 1, s.now)) else (0, 0)
      case _ => (0, 0)
  }

  ghost predicate Shorter(a: (nat, nat), b: (nat, nat)) {
    a.0 < b.0 || (a.0 == b.0 && a.1 < b.1)
  }

  ghost predicate Closer(cs: seq<Command>, s: State, s': State) {
    Shorter(Level(cs, s'), Level(cs, s)) || (Level(cs, s') == Level(cs, s) && Shorter(Wait(s'), Wait(s)))
  }

  ghost predicate Unchanged(cs: seq<Command>, s: State, s': State) {
    && Level(cs, s') == Level(cs, s) && Wait(s') == Wait(s) && Helpful(s') == Helpful(s)
    && (s'.client.k == |cs| <==> s.client.k == |cs|)
  }

  lemma HelpfulReady(m: Memory, cs: seq<Command>, s: State)
    requires Inv(m, cs, s) && OnTime(s) && s.client.k < |cs|
    ensures Ready(cs, s, Helpful(s))
  {
    hide LittleEndian, FromLittleEndian, PacketOf, ReadPacket, MemoryAfter, Returns, At, Syncs;
    if s.server.pc.SAct? {
      ActHasPacket(m, cs, s);
    }
  }

  /** A SYNC that wakes the server in time brings the end closer, and one that does not costs nothing that has been
      done. Any other step brings the end closer, or changes nothing and is not the helpful party's. */
  ghost predicate Helps(cs: seq<Command>, s: State, a: Action, s': State) {
    if IdleSync(s, a) then
      if a.wake == InTime then Shorter(Level(cs, s'), Level(cs, s)) else Level(cs, s') == Level(cs, s)
    else
      Closer(cs, s, s') || (Unchanged(cs, s, s') && !Of(a, Helpful(s)))
  }

  lemma StepHelps(m: Memory, cs: seq<Command>, s: State, a: Action)
    requires Inv(m, cs, s) && Enabled(cs, s, a) && OnTime(s) && s.client.k < |cs|
    requires OnTime(Apply(cs, s, a))
    ensures Helps(cs, s, a, Apply(cs, s, a))
  {
    hide LittleEndian, FromLittleEndian, PacketOf, ReadPacket, MemoryAfter, Returns, At, Syncs;
    if s.server.pc.SAct? {
      ActHasPacket(m, cs, s);
    }
  }

  // ---------------------------------------------------------------- every fair run

  ghost predicate FairRun(m: Memory, cs: seq<Command>, start: nat, jitter: nat, run: nat -> State, acts: nat -> Action)
  {
    IsEndlessRun(m, cs, start, run, acts) && Fair(cs, jitter, run, acts) && DELAY_MS + jitter <= TIMEOUT_MS
  }

  /** The step at `t`. */
  lemma StepAt(m: Memory, cs: seq<Command>, start: nat, jitter: nat, run: nat -> State, acts: nat -> Action, t: nat)
    requires FairRun(m, cs, start, jitter, run, acts) && run(t).client.k < |cs|
    ensures Helps(cs, run(t), acts(t), run(t + 1))
    ensures run(t + 1).client.k <= |cs|
  {
    hide Inv, Enabled, Apply, Fair, Level, Wait, Helpful, OnTime;
    EndlessReachable(m, cs, start, jitter, run, acts, t);
    EndlessReachable(m, cs, start, jitter, run, acts, t + 1);
    StepHelps(m, cs, run(t), acts(t));
    WithinCommands(m, cs, run(t + 1));
  }

  lemma WithinCommands(m: Memory, cs: seq<Command>, s: State)
    requires Inv(m, cs, s)
    ensures s.client.k <= |cs|
  {
  }

  /** From `t` to `v` the end got closer, or nothing changed up to `v` or to a SYNC for an idle server before it. */
  lemma {:induction false} UntilThen(m: Memory, cs: seq<Command>, start: nat, jitter: nat, run: nat -> State,
                                     acts: nat -> Action, t: nat, v: nat)
    returns (u: nat)
    requires FairRun(m, cs, start, jitter, run, acts) && run(t).client.k < |cs| && t <= v
    ensures t <= u <= v
    ensures Closer(cs, run(t), run(u))
         || (Unchanged(cs, run(t), run(u)) && (u == v || IdleSyncAt(run, acts, u)))
  {
    hide FairRun, Level, Wait, Helpful, IdleSync;
    u := v;
    if t < v {
      u := UntilThen(m, cs, start, jitter, run, acts, t, v - 1);
      if !Closer(cs, run(t), run(u)) && !IdleSyncAt(run, acts, u) {
        StillRunning(m, cs, start, jitter, run, acts, t, u);
        StepAt(m, cs, start, jitter, run, acts, u);
        u := v;
      }
    }
  }

  lemma StillRunning(m: Memory, cs: seq<Command>, start: nat, jitter: nat, run: nat -> State, acts: nat -> Action,
                     t: nat, u: nat)
    requires FairRun(m, cs, start, jitter, run, acts) && run(t).client.k < |cs| && Unchanged(cs, run(t), run(u))
    ensures run(u).client.k < |cs|
  {
    hide Inv, Fair, OnTime, IsEndlessRun;
    EndlessReachable(m, cs, start, jitter, run, acts, u);
    WithinCommands(m, cs, run(u));
  }

  /** What has been done of the commands is never undone. */
  lemma {:induction false} LevelLater(m: Memory, cs: seq<Command>, start: nat, jitter: nat, run: nat -> State,
                                      acts: nat -> Action, t: nat, v: nat)
    requires FairRun(m, cs, start, jitter, run, acts) && t <= v
    ensures run(v).client.k >= |cs| || Level(cs, run(v)) == Level(cs, run(t))
         || Shorter(Level(cs, run(v)), Level(cs, run(t)))
  {
    hide FairRun, Level, Wait, Helpful, IdleSync;
    if t < v {
      LevelLater(m, cs, start, jitter, run, acts, t, v - 1);
      if run(v - 1).client.k < |cs| {
        StepAt(m, cs, start, jitter, run, acts, v - 1);
      } else {
        DoneStaysDone(m, cs, start, jitter, run, acts, v - 1);
      }
    }
  }

  lemma DoneStaysDone(m: Memory, cs: seq<Command>, start: nat, jitter: nat, run: nat -> State, acts: nat -> Action,
                      t: nat)
    requires FairRun(m, cs, start, jitter, run, acts) && run(t).client.k >= |cs|
    ensures run(t + 1).client.k >= |cs|
  {
    hide Inv, Fair;
    assert Enabled(cs, run(t), acts(t)) && run(t + 1) == Apply(cs, run(t), acts(t));
  }

  /** The end comes closer, or a SYNC for an idle server is sent. */
  lemma GetsCloserOrCalls(m: Memory, cs: seq<Command>, start: nat, jitter: nat, run: nat -> State,
                          acts: nat -> Action, t: nat)
    returns (u: nat)
    requires FairRun(m, cs, start, jitter, run, acts) && run(t).client.k < |cs|
    ensures Closer(cs, run(t), run(u)) || (u >= t && IdleSyncAt(run, acts, u))
  {
    hide Inv, IsEndlessRun, Level, Wait, Helpful, Ready, OnTime, IdleSync, WokenFrom;
    var p := Helpful(run(t));
    assert GetsTurn(cs, run, acts, t, p);
    var v: nat :| v >= t && TurnAt(cs, run, acts, v, p);
    u := UntilThen(m, cs, start, jitter, run, acts, t, v);
    if !Closer(cs, run(t), run(u)) && !IdleSyncAt(run, acts, u) {
      StillRunning(m, cs, start, jitter, run, acts, t, v);
      EndlessReachable(m, cs, start, jitter, run, acts, v);
      HelpfulReady(m, cs, run(v));
      StepAt(m, cs, start, jitter, run, acts, v);
      u := v + 1;
    }
  }

  lemma GetsCloser(m: Memory, cs: seq<Command>, start: nat, jitter: nat, run: nat -> State, acts: nat -> Action, t: nat)
    returns (u: nat)
    requires FairRun(m, cs, start, jitter, run, acts) && run(t).client.k < |cs|
    ensures Closer(cs, run(t), run(u)) || run(u).client.k >= |cs|
  {
    hide Level, Wait, GetsTurn, IsEndlessRun;
    u := GetsCloserOrCalls(m, cs, start, jitter, run, acts, t);
    if !Closer(cs, run(t), run(u)) {
      assert WokenFrom(run, acts, t);
      var v: nat :| v >= t && InTimeAt(run, acts, v);
      LevelLater(m, cs, start, jitter, run, acts, t, v);
      u := v;
      if run(v).client.k < |cs| {
        StepAt(m, cs, start, jitter, run, acts, v);
        u := v + 1;
      }
    }
  }

  lemma {:induction false} FairFrom(m: Memory, cs: seq<Command>, start: nat, jitter: nat, run: nat -> State,
                                    acts: nat -> Action, t: nat, level: (nat, nat), wait: (nat, nat))
    returns (u: nat)
    requires FairRun(m, cs, start, jitter, run, acts) && level == Level(cs, run(t)) && wait == Wait(run(t))
    ensures run(u).client.k >= |cs|
    decreases level.0, level.1, wait.0, wait.1
  {
    hide FairRun, Level, Wait;
    if run(t).client.k >= |cs| {
      return t;
    }
    u := GetsCloser(m, cs, start, jitter, run, acts, t);
    if run(u).client.k < |cs| {
      u := FairFrom(m, cs, start, jitter, run, acts, u, Level(cs, run(u)), Wait(run(u)));
    }
  }

  /** When no reply can be late, every fair run completes the commands. */
  lemma FairRunsComplete(m: Memory, cs: seq<Command>, start: nat, jitter: nat, run: nat -> State, acts: nat -> Action)
    returns (u: nat)
    requires IsEndlessRun(m, cs, start, run, acts) && Fair(cs, jitter, run, acts) && DELAY_MS + jitter <= TIMEOUT_MS
    ensures Complete(m, cs, run(u))
  {
    hide IsEndlessRun, Fair, Level, Wait, OnTime, Answered;
    u := FairFrom(m, cs, start, jitter, run, acts, 0, Level(cs, run(0)), Wait(run(0)));
    EndlessReachable(m, cs, start, jitter, run, acts, u);
    ReturnsAnswered(m, cs, |cs|);
  }

  // ---------------------------------------------------------------- a fair run that never completes

  /** The client gives up one millisecond before the reply is sent. The server reads nine SYNCs as a packet, ignores it,
      and everything begins again. */
  ghost predicate Lost(s: State) {
    && s.client.k == 0
    && match s.client.pc
       case CStart => s.server.pc.SIdle?
       case CSync =>
         (match s.server.pc
          case SIdle => true
          case SListen(until) => s.now <= until
          case SReply(due) => s.now + DELAY_MS == due + TIMEOUT_MS + 1
          case SRecv => |s.server.buf| < 9 && Syncs(s.server.buf)
          case _ => false)
       case CWait(deadline) =>
         && s.now <= deadline + 1
         && (match s.server.pc
             case SIdle => true
             case SReply(due) => deadline + DELAY_MS == due + TIMEOUT_MS
             case SRecv => |s.server.buf| < 9 && Syncs(s.server.buf)
             case SAct(due) =>
               && deadline + DELAY_MS == due + TIMEOUT_MS
               && |s.server.buf| == 9 && Syncs(s.server.buf)
             case _ => false)
       case _ => false
  }

  /** The client waits until it may give up, and the server acts then. */
  ghost function Lazy(s: State): Action {
    match s.client.pc
    case CWait(deadline) =>
      if s.now <= deadline then Tick else if s.server.pc.SAct? then ServerStep else ClientTimeout
    case CSync => if s.server.pc.SReply? then ServerStep else ClientStep(InTime)
    case _ => ClientStep(InTime)
  }

  lemma LostKept(cs: seq<Command>, s: State)
    requires cs != [] && Lost(s)
    ensures Enabled(cs, s, Lazy(s)) && Lost(Apply(cs, s, Lazy(s)))
  {
    hide LittleEndian, FromLittleEndian, PacketOf, ReadPacket;
    if s.server.pc.SAct? {
      SyncsUnknown(s.server.buf);
    }
  }

  ghost function LazyAt(m: Memory, cs: seq<Command>, start: nat, t: nat): (s: State)
    requires cs != []
    ensures Lost(s)
  {
    if t == 0 then Init(m, start)
    else
      var s := LazyAt(m, cs, start, t - 1);
      LostKept(cs, s);
      Apply(cs, s, Lazy(s))
  }

  lemma LazyNext(m: Memory, cs: seq<Command>, start: nat, t: nat)
    requires cs != []
    ensures var s := LazyAt(m, cs, start, t);
      Lost(s) && Enabled(cs, s, Lazy(s)) && LazyAt(m, cs, start, t + 1) == Apply(cs, s, Lazy(s))
  {
    LostKept(cs, LazyAt(m, cs, start, t));
  }

  /** The number of steps before time passes. */
  ghost function UntilTick(s: State): nat {
    match s.client.pc
    case CStart => 2
    case CSync => if s.server.pc.SReply? then 2 else 1
    case CWait(deadline) => if s.now <= deadline then 0 else if s.server.pc.SAct? then 4 else 3
    case _ => 0
  }

  lemma {:induction false} TimePasses(m: Memory, cs: seq<Command>, start: nat, t: nat) returns (u: nat)
    requires cs != []
    ensures u >= t && Lazy(LazyAt(m, cs, start, u)) == Tick
    decreases UntilTick(LazyAt(m, cs, start, t))
  {
    hide LazyAt, PacketOf, ReadPacket, FromLittleEndian, LittleEndian;
    u := t;
    var s := LazyAt(m, cs, start, t);
    if Lazy(s) != Tick {
      LazyNext(m, cs, start, t);
      if s.server.pc.SAct? {
        SyncsUnknown(s.server.buf);
      }
      u := TimePasses(m, cs, start, t + 1);
    }
  }

  lemma {:induction false} ServerActs(m: Memory, cs: seq<Command>, start: nat, t: nat) returns (u: nat)
    requires cs != []
    ensures u >= t
    ensures var s := LazyAt(m, cs, start, u); Ready(cs, s, TheServer) ==> Lazy(s) == ServerStep
    decreases var s := LazyAt(m, cs, start, t);
      if s.client.pc.CWait? then 1 + Monus(s.client.pc.deadline + 1, s.now) else 0
  {
    hide LazyAt, PacketOf, ReadPacket, FromLittleEndian, LittleEndian;
    u := t;
    LazyNext(m, cs, start, t);
    var s := LazyAt(m, cs, start, t);
    if Ready(cs, s, TheServer) && Lazy(s) != ServerStep {
      u := ServerActs(m, cs, start, t + 1);
    }
  }

  lemma ClientActs(m: Memory, cs: seq<Command>, start: nat, t: nat) returns (u: nat)
    requires cs != []
    ensures u >= t
    ensures var s := LazyAt(m, cs, start, u); Ready(cs, s, TheClient) ==> Of(Lazy(s), TheClient)
  {
    hide LazyAt, PacketOf, ReadPacket, FromLittleEndian, LittleEndian;
    LazyNext(m, cs, start, t);
    var s := LazyAt(m, cs, start, t);
    u := t;
    if Lazy(s) == ServerStep {
      if s.server.pc.SAct? {
        SyncsUnknown(s.server.buf);
      }
      u := t + 1;
    }
  }

  /** When a reply can be late there is a fair run, for every memory and every commands, in which the first command is
      never done. */
  lemma LateForEver(m: Memory, cs: seq<Command>, start: nat, jitter: nat)
    returns (run: nat -> State, acts: nat -> Action)
    requires cs != [] && DELAY_MS + jitter > TIMEOUT_MS
    ensures IsEndlessRun(m, cs, start, run, acts) && Fair(cs, jitter, run, acts)
    ensures forall t: nat :: run(t).client.k == 0
  {
    hide LazyAt, Apply, Enabled, Ready, Lazy;
    run := (t: nat) => LazyAt(m, cs, start, t);
    acts := (t: nat) => Lazy(LazyAt(m, cs, start, t));
    LazyStart(m, cs, start);
    forall t: nat
      ensures Enabled(cs, run(t), acts(t)) && run(t + 1) == Apply(cs, run(t), acts(t))
      ensures Prompt(jitter, run(t)) && run(t).client.k == 0
    {
      LazyNext(m, cs, start, t);
    }
    forall t: nat, p: Party
      ensures GetsTurn(cs, run, acts, t, p)
    {
      var u: nat;
      match p {
        case TheClock => u := TimePasses(m, cs, start, t);
        case TheClient => u := ClientActs(m, cs, start, t);
        case TheServer => u := ServerActs(m, cs, start, t);
      }
      assert TurnAt(cs, run, acts, u, p);
    }
    forall t: nat
      ensures WokenFrom(run, acts, t)
    {
      AlwaysInTime(m, cs, start, run, acts, t);
    }
  }

  lemma LazyStart(m: Memory, cs: seq<Command>, start: nat)
    requires cs != []
    ensures LazyAt(m, cs, start, 0) == Init(m, start)
  {
  }

  lemma AlwaysInTime(m: Memory, cs: seq<Command>, start: nat, run: nat -> State, acts: nat -> Action, t: nat)
    requires cs != []
    requires forall u: nat :: run(u) == LazyAt(m, cs, start, u) && acts(u) == Lazy(LazyAt(m, cs, start, u))
    ensures WokenFrom(run, acts, t)
  {
    hide LazyAt;
    if u: nat :| u >= t && IdleSyncAt(run, acts, u) {
      assert InTimeAt(run, acts, u);
    }
  }

  /** Some command is given. Every fair run completes if and only if the client cannot give up before the reply. */
  lemma FairRunsCompleteIff(m: Memory, cs: seq<Command>, start: nat, jitter: nat)
    requires cs != []
    ensures (forall run: nat -> State, acts: nat -> Action ::
               IsEndlessRun(m, cs, start, run, acts) && Fair(cs, jitter, run, acts) ==>
               exists u: nat :: Complete(m, cs, run(u)))
       <==> DELAY_MS + jitter <= TIMEOUT_MS
  {
    hide IsEndlessRun, Fair;
    if DELAY_MS + jitter <= TIMEOUT_MS {
      forall run: nat -> State, acts: nat -> Action |
        IsEndlessRun(m, cs, start, run, acts) && Fair(cs, jitter, run, acts)
        ensures exists u: nat :: Complete(m, cs, run(u))
      {
        var u := FairRunsComplete(m, cs, start, jitter, run, acts);
      }
    } else {
      var run, acts := LateForEver(m, cs, start, jitter);
      assert forall u: nat :: !Complete(m, cs, run(u));
    }
  }
}
