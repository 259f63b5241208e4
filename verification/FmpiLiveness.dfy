/** Every endless run in which no party is passed over for ever completes the program. */
module FmpiLiveness {
  import opened Fmpi
  import opened FmpiProgress
  import opened FmpiSafety

  /** Who takes a step: time passes, or a rank does something. */
  datatype Party = Clock | TheRoot | TheWorker(w: nat)

  ghost predicate Of(a: Action, p: Party) {
    match a
    case Tick => p == Clock
    case RootStep => p == TheRoot
    case Timeout => p == TheRoot
    case WorkerStep(w) => p == TheWorker(w)
  }

  ghost predicate Ready(prog: Program, jitter: nat, s: State, p: Party) {
    match p
    case Clock => Enabled(prog, jitter, s, Tick)
    case TheRoot => Enabled(prog, jitter, s, RootStep) || Enabled(prog, jitter, s, Timeout)
    case TheWorker(w) => Enabled(prog, jitter, s, WorkerStep(w))
  }

  // ---------------------------------------------------------------- the party whose turn brings the end closer

  ghost predicate CanMove(prog: Program, s: State, w: nat) {
    IsWorker(prog, s, w) && WorkerEnabled(prog, s.now, s.workers[w])
  }

  ghost predicate Delayed(prog: Program, s: State, w: nat) {
    IsWorker(prog, s, w) && (s.workers[w].pc.WReply? || s.workers[w].pc.WDelay?)
  }

  /** The first worker from `w` on that can move, if any. */
  ghost function FirstMover(prog: Program, s: State, w: nat): (r: nat)
    ensures forall v: nat :: w <= v < r ==> !CanMove(prog, s, v)
    ensures r < prog.size ==> w <= r && CanMove(prog, s, r)
    ensures r >= prog.size ==> forall v: nat :: w <= v < prog.size ==> !CanMove(prog, s, v)
    decreases prog.size - w
  {
    if w >= prog.size then prog.size else if CanMove(prog, s, w) then w else FirstMover(prog, s, w + 1)
  }

  ghost function FirstDelayed(prog: Program, s: State, w: nat): (r: nat)
    ensures forall v: nat :: w <= v < r ==> !Delayed(prog, s, v)
    ensures r < prog.size ==> w <= r && Delayed(prog, s, r)
    ensures r >= prog.size ==> forall v: nat :: w <= v < prog.size ==> !Delayed(prog, s, v)
    decreases prog.size - w
  {
    if w >= prog.size then prog.size else if Delayed(prog, s, w) then w else FirstDelayed(prog, s, w + 1)
  }

  /** A worker that can move; failing that, time if a worker is in a delay or the root waits; otherwise the root. */
  ghost function Helpful(prog: Program, s: State): Party {
    var m := FirstMover(prog, s, 0);
    if m < prog.size then TheWorker(m)
    else if FirstDelayed(prog, s, 0) < prog.size then Clock
    else if s.root.pc.RWait? && s.now <= s.root.pc.deadline then Clock
    else TheRoot
  }

  /** How long that party may have to be waited for, while no work is done. */
  ghost function Wait(prog: Program, s: State): (nat, nat) {
    var m, d := FirstMover(prog, s, 0), FirstDelayed(prog, s, 0);
    if m < prog.size then (0, m)
    else if d < prog.size then (2, WorkerClock(s.now, s.workers[d].pc))
    else if s.root.pc.RWait? then (1, RootClock(s.now, s.root.pc))
    else (0, 0)
  }

  ghost predicate Shorter(a: (nat, nat), b: (nat, nat)) {
    a.0 < b.0 || (a.0 == b.0 && a.1 < b.1)
  }

  lemma NoMoverIsQuiet(prog: Program, s: State)
    requires FirstMover(prog, s, 0) >= prog.size
    ensures forall w: nat :: IsWorker(prog, s, w) ==> !Quiet(prog, s.now, s.workers[w])
  {
    forall w: nat | IsWorker(prog, s, w)
      ensures !Quiet(prog, s.now, s.workers[w])
    {
      assert !CanMove(prog, s, w);
    }
  }

  /** With no worker able to move or in a delay, one that the root has not synchronised is waiting for its SYNC. */
  lemma Listening(prog: Program, jitter: nat, s: State, w: nat)
    requires Inv(prog, jitter, s) && IsWorker(prog, s, w)
    requires FirstMover(prog, s, 0) >= prog.size && FirstDelayed(prog, s, 0) >= prog.size
    requires Caught(prog, |s.root.log|, w, s.workers[w])
    ensures || (s.workers[w].pc == WSync && |s.root.log| < |prog.ops|)
            || |s.workers[w].log| == |s.root.log| == |prog.ops|
  {
    hide Caught;
    assert !CanMove(prog, s, w) && !Delayed(prog, s, w);
    NoMoverIsQuiet(prog, s);
    CaughtWorker(prog, |s.root.log|, w, s.now, s.workers[w]);
  }

  /** The helpful party can take a step. */
  lemma HelpfulReady(prog: Program, jitter: nat, s: State)
    requires Inv(prog, jitter, s) && !Finished(prog, s)
    ensures Ready(prog, jitter, s, Helpful(prog, s))
  {
    if FirstMover(prog, s, 0) >= prog.size {
      NoMoverIsQuiet(prog, s);
      if FirstDelayed(prog, s, 0) < prog.size || (s.root.pc.RWait? && s.now <= s.root.pc.deadline) {
        TimeCanPass(prog, jitter, s);
      } else if !s.root.pc.RWait? {
        RootCanStep(prog, jitter, s);
      }
    }
  }

  lemma TimeCanPass(prog: Program, jitter: nat, s: State)
    requires Inv(prog, jitter, s) && FirstMover(prog, s, 0) >= prog.size
    ensures Enabled(prog, jitter, s, Tick)
  {
    if s.root.pc.RWait? {
      var i := s.root.pc.i;
      assert IsWorker(prog, s, i) && !CanMove(prog, s, i);
      assert WorkerOk(prog, jitter, s.now, |s.root.log|, s.root.pc, i, s.workers[i]);
    }
    TickAllowed(prog, jitter, s);
  }

  /** A root that waits for gathered bytes waits for a worker that can move. */
  lemma NotReading(prog: Program, jitter: nat, s: State)
    requires Inv(prog, jitter, s) && |s.root.log| < |prog.ops|
    requires FirstMover(prog, s, 0) >= prog.size && FirstDelayed(prog, s, 0) >= prog.size
    ensures s.root.pc.RRecv? ==> s.root.pc.j >= prog.ops[|s.root.log|].Bytes()
  {
    hide FirstMover, FirstDelayed;
    if s.root.pc.RRecv? {
      assert !CanMove(prog, s, s.root.pc.i) && !Delayed(prog, s, s.root.pc.i);
    }
  }

  lemma RootCanStep(prog: Program, jitter: nat, s: State)
    requires Inv(prog, jitter, s) && !Finished(prog, s) && !s.root.pc.RWait?
    requires FirstMover(prog, s, 0) >= prog.size && FirstDelayed(prog, s, 0) >= prog.size
    ensures Enabled(prog, jitter, s, RootStep)
  {
    if |s.root.log| == |prog.ops| {
      var w: nat :| IsWorker(prog, s, w) && |s.workers[w].log| != |prog.ops|;
      assert WorkerOk(prog, jitter, s.now, |s.root.log|, s.root.pc, w, s.workers[w]);
      Listening(prog, jitter, s, w);
      assert false;
    } else {
      NotReading(prog, jitter, s);
    }
  }

  // ---------------------------------------------------------------- one step

  /** Work was done, or the wait got shorter. */
  ghost predicate Closer(prog: Program, s: State, s': State) {
    || LessWork(MeasureOf(prog, s'), MeasureOf(prog, s))
    || (SameWork(MeasureOf(prog, s'), MeasureOf(prog, s)) && Shorter(Wait(prog, s'), Wait(prog, s)))
  }

  /** Nothing that matters has changed. */
  ghost predicate Unchanged(prog: Program, s: State, s': State) {
    && SameWork(MeasureOf(prog, s'), MeasureOf(prog, s))
    && Wait(prog, s') == Wait(prog, s) && Helpful(prog, s') == Helpful(prog, s)
    && (Finished(prog, s') <==> Finished(prog, s))
  }

  lemma SameMovers(prog: Program, s: State, s': State, w: nat)
    requires s'.workers == s.workers && s'.now == s.now
    ensures FirstMover(prog, s', w) == FirstMover(prog, s, w)
    ensures FirstDelayed(prog, s', w) == FirstDelayed(prog, s, w)
    decreases prog.size - w
  {
    if w < prog.size {
      SameMovers(prog, s, s', w + 1);
    }
  }

  lemma {:induction false} LaterMovers(prog: Program, s: State, s': State, w: nat)
    requires s'.workers == s.workers && s'.now >= s.now
    ensures FirstMover(prog, s', w) <= FirstMover(prog, s, w)
    ensures FirstDelayed(prog, s', w) == FirstDelayed(prog, s, w)
    decreases prog.size - w
  {
    hide WorkerEnabled;
    if w < prog.size {
      LaterMovers(prog, s, s', w + 1);
      if CanMove(prog, s, w) {
        StillEnabled(prog, s.now, s'.now, s.workers[w]);
      }
    }
  }

  lemma StillEnabled(prog: Program, now: nat, later: nat, w: Worker)
    requires WorkerEnabled(prog, now, w) && now <= later
    ensures WorkerEnabled(prog, later, w)
  {
  }

  lemma TickStep(prog: Program, jitter: nat, s: State)
    requires Inv(prog, jitter, s) && Enabled(prog, jitter, s, Tick)
    ensures var s' := s.(now := s.now + 1);
      Closer(prog, s, s') || (Unchanged(prog, s, s') && Helpful(prog, s) != Clock)
  {
    hide FirstMover, FirstDelayed, WorkerEnabled, Slice, StaleBlocks, Result, LogOf;
    var s' := s.(now := s.now + 1);
    LaterMovers(prog, s, s', 0);
    assert Calls(prog, s') == Calls(prog, s) && Weights(s') == Weights(s);
    var m, d := FirstMover(prog, s, 0), FirstDelayed(prog, s, 0);
    if m >= prog.size && d < prog.size {
      NotYetDue(prog, jitter, s, d);
    } else if m >= prog.size {
      NoneLater(prog, s, s');
    }
  }

  lemma NotYetDue(prog: Program, jitter: nat, s: State, d: nat)
    requires Inv(prog, jitter, s) && Delayed(prog, s, d) && !CanMove(prog, s, d)
    ensures WorkerClock(s.now, s.workers[d].pc) > 0
    ensures WorkerClock(s.now + 1, s.workers[d].pc) < WorkerClock(s.now, s.workers[d].pc)
  {
    hide Slice, StaleBlocks, Result, LogOf;
    assert WorkerOk(prog, jitter, s.now, |s.root.log|, s.root.pc, d, s.workers[d]);
  }

  /** Time alone sets nobody in motion who is not in a delay. */
  lemma NoneLater(prog: Program, s: State, s': State)
    requires s'.workers == s.workers
    requires FirstMover(prog, s, 0) >= prog.size && FirstDelayed(prog, s, 0) >= prog.size
    ensures FirstMover(prog, s', 0) >= prog.size
  {
    forall w: nat | w < prog.size
      ensures !CanMove(prog, s', w)
    {
      assert !CanMove(prog, s, w) && !Delayed(prog, s, w);
    }
  }

  lemma TimeoutStep(prog: Program, jitter: nat, s: State)
    requires Inv(prog, jitter, s) && Enabled(prog, jitter, s, Timeout)
    ensures var s' := Apply(prog, jitter, s, Timeout);
      Closer(prog, s, s') || (Unchanged(prog, s, s') && Helpful(prog, s) != TheRoot)
  {
    hide FirstMover, FirstDelayed, WorkerEnabled, Slice, StaleBlocks, Result, LogOf;
    var s' := Apply(prog, jitter, s, Timeout);
    SameMovers(prog, s, s', 0);
    assert Calls(prog, s') == Calls(prog, s) && Weights(s') == Weights(s);
  }

  /** A SYNC that is lost changes nothing, but then a worker or time is what helps. */
  lemma RootStepStep(prog: Program, jitter: nat, s: State)
    requires Inv(prog, jitter, s) && Enabled(prog, jitter, s, RootStep)
    ensures var s' := Apply(prog, jitter, s, RootStep);
      Closer(prog, s, s') || (Unchanged(prog, s, s') && Helpful(prog, s) != TheRoot)
  {
    hide FirstMover, FirstDelayed, WorkerEnabled, Slice, StaleBlocks, Result, LogOf, Inv;
    var s' := Apply(prog, jitter, s, RootStep);
    if !(s.root.pc.RSync? && RootPuts(prog, s).Put?) {
      RootDecreases(prog, jitter, s);
    } else if s.workers[s.root.pc.i].pc == WSync {
      SyncDecreases(prog, jitter, s);
    } else {
      LostSync(prog, jitter, s);
    }
  }

  lemma LostSync(prog: Program, jitter: nat, s: State)
    requires Inv(prog, jitter, s) && Enabled(prog, jitter, s, RootStep)
    requires s.root.pc.RSync? && RootPuts(prog, s).Put? && s.workers[s.root.pc.i].pc != WSync
    ensures var s' := Apply(prog, jitter, s, RootStep);
      Unchanged(prog, s, s') && Helpful(prog, s) != TheRoot
  {
    hide FirstMover, FirstDelayed, WorkerEnabled, Slice, StaleBlocks, Result, LogOf, Caught;
    var s', i := Apply(prog, jitter, s, RootStep), s.root.pc.i;
    assert IsWorker(prog, s, i);
    RootSyncKeeps(prog, jitter, s);
    assert s'.workers == s.workers;
    SameMovers(prog, s, s', 0);
    assert Calls(prog, s') == Calls(prog, s) && Weights(s') == Weights(s);
    assert WorkerOk(prog, jitter, s.now, |s.root.log|, s.root.pc, i, s.workers[i]);
    if FirstMover(prog, s, 0) >= prog.size && FirstDelayed(prog, s, 0) >= prog.size {
      Listening(prog, jitter, s, i);
      assert false;
    }
  }

  lemma WorkerStepStep(prog: Program, jitter: nat, s: State, w: nat)
    requires Inv(prog, jitter, s) && Enabled(prog, jitter, s, WorkerStep(w))
    ensures Closer(prog, s, Apply(prog, jitter, s, WorkerStep(w)))
  {
    hide FirstMover, FirstDelayed, Slice, StaleBlocks, Result, LogOf, Inv, MeasureOf, Wait;
    if WorkerPuts(prog, s, w).Put? {
      PutDecreases(prog, jitter, s, w);
    } else {
      QuietDecreases(prog, jitter, s, w);
    }
  }

  /** A step does some work, shortens the wait, or is not the helpful party's. */
  lemma StepHelps(prog: Program, jitter: nat, s: State, a: Action)
    requires Inv(prog, jitter, s) && Enabled(prog, jitter, s, a)
    ensures var s' := Apply(prog, jitter, s, a);
      Closer(prog, s, s') || (Unchanged(prog, s, s') && !Of(a, Helpful(prog, s)))
  {
    hide Inv, Closer, Unchanged, Helpful;
    match a
    case Tick => TickStep(prog, jitter, s);
    case Timeout => TimeoutStep(prog, jitter, s);
    case RootStep => RootStepStep(prog, jitter, s);
    case WorkerStep(w) => WorkerStepStep(prog, jitter, s, w);
  }

  // ---------------------------------------------------------------- fair runs

  ghost predicate IsEndlessRun(prog: Program, jitter: nat, start: nat, run: nat -> State, acts: nat -> Action) {
    && run(0) == Init(prog, start)
    && forall t: nat :: Enabled(prog, jitter, run(t), acts(t)) && run(t + 1) == Apply(prog, jitter, run(t), acts(t))
  }

  /** From `t` on the party gets a turn, or is at some time not ready for one. */
  ghost predicate GetsTurn(prog: Program, jitter: nat, run: nat -> State, acts: nat -> Action, t: nat, p: Party) {
    exists u: nat :: u >= t && TurnAt(prog, jitter, run, acts, u, p)
  }

  ghost predicate TurnAt(prog: Program, jitter: nat, run: nat -> State, acts: nat -> Action, u: nat, p: Party) {
    Ready(prog, jitter, run(u), p) ==> Of(acts(u), p)
  }

  /** Neither time nor any rank that can take a step is passed over for ever. */
  ghost predicate Fair(prog: Program, jitter: nat, run: nat -> State, acts: nat -> Action) {
    forall t: nat, p: Party :: GetsTurn(prog, jitter, run, acts, t, p)
  }

  lemma {:induction false} EndlessReachable(prog: Program, jitter: nat, start: nat, run: nat -> State,
                                            acts: nat -> Action, t: nat)
    requires prog.Valid() && DELAY_MS + jitter <= TIMEOUT_MS && IsEndlessRun(prog, jitter, start, run, acts)
    ensures Inv(prog, jitter, run(t))
  {
    hide Inv, Enabled, Apply, Init;
    if t == 0 {
      InitHolds(prog, jitter, start);
    } else {
      EndlessReachable(prog, jitter, start, run, acts, t - 1);
      StepKeeps(prog, jitter, run(t - 1), acts(t - 1));
    }
  }

  /** From `t` to `v` something got closer, or nothing changed and the helpful party had no turn. */
  lemma {:induction false} UntilThen(prog: Program, jitter: nat, start: nat, run: nat -> State, acts: nat -> Action,
                                     t: nat, v: nat)
    returns (u: nat)
    requires prog.Valid() && DELAY_MS + jitter <= TIMEOUT_MS && IsEndlessRun(prog, jitter, start, run, acts)
    requires t <= v
    ensures t <= u <= v
    ensures Closer(prog, run(t), run(u)) || (u == v && Unchanged(prog, run(t), run(v)))
  {
    hide Inv, Enabled, Apply, Init, MeasureOf, Wait, Helpful, Finished;
    u := v;
    if t < v {
      u := UntilThen(prog, jitter, start, run, acts, t, v - 1);
      if !Closer(prog, run(t), run(u)) {
        EndlessReachable(prog, jitter, start, run, acts, v - 1);
        StepHelps(prog, jitter, run(v - 1), acts(v - 1));
        u := v;
      }
    }
  }

  lemma GetsCloser(prog: Program, jitter: nat, start: nat, run: nat -> State, acts: nat -> Action, t: nat)
    returns (u: nat)
    requires prog.Valid() && DELAY_MS + jitter <= TIMEOUT_MS && IsEndlessRun(prog, jitter, start, run, acts)
    requires Fair(prog, jitter, run, acts) && !Finished(prog, run(t))
    ensures Closer(prog, run(t), run(u))
  {
    hide Inv, Enabled, Apply, Init, MeasureOf, Wait, Helpful, Finished, Ready;
    var p := Helpful(prog, run(t));
    assert GetsTurn(prog, jitter, run, acts, t, p);
    var v: nat :| v >= t && TurnAt(prog, jitter, run, acts, v, p);
    u := UntilThen(prog, jitter, start, run, acts, t, v);
    if !Closer(prog, run(t), run(u)) {
      EndlessReachable(prog, jitter, start, run, acts, v);
      HelpfulReady(prog, jitter, run(v));
      StepHelps(prog, jitter, run(v), acts(v));
      u := v + 1;
    }
  }

  lemma {:induction false} FairFrom(prog: Program, jitter: nat, start: nat, run: nat -> State, acts: nat -> Action,
                                    t: nat, m: Measure, wait: (nat, nat))
    returns (u: nat)
    requires prog.Valid() && DELAY_MS + jitter <= TIMEOUT_MS && IsEndlessRun(prog, jitter, start, run, acts)
    requires Fair(prog, jitter, run, acts) && m == MeasureOf(prog, run(t)) && wait == Wait(prog, run(t))
    ensures Finished(prog, run(u))
    decreases m.calls, m.phase, m.ranks, m.bytes, m.steps, wait.0, wait.1
  {
    hide IsEndlessRun, Fair, MeasureOf, Wait, Finished;
    if Finished(prog, run(t)) {
      return t;
    }
    u := GetsCloser(prog, jitter, start, run, acts, t);
    u := FairFrom(prog, jitter, start, run, acts, u, MeasureOf(prog, run(u)), Wait(prog, run(u)));
  }

  /** Every fair run completes the program, with the results of the atomic collectives. */
  lemma FairRunsFinish(prog: Program, jitter: nat, start: nat, run: nat -> State, acts: nat -> Action)
    returns (u: nat)
    requires prog.Valid() && DELAY_MS + jitter <= TIMEOUT_MS && IsEndlessRun(prog, jitter, start, run, acts)
    requires Fair(prog, jitter, run, acts)
    ensures AtomicEnd(prog, run(u))
  {
    hide IsEndlessRun, Fair, MeasureOf, Wait;
    u := FairFrom(prog, jitter, start, run, acts, 0, MeasureOf(prog, run(0)), Wait(prog, run(0)));
    EndlessReachable(prog, jitter, start, run, acts, u);
  }
}
