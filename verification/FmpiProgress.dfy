/** From every reachable state the program can be completed, although the root may retransmit SYNC
    any number of times. */
module FmpiProgress {
  import opened Fmpi
  import opened FmpiSafety
  import opened Modular

  ghost predicate Finished(prog: Program, s: State) {
    && |s.root.log| == |prog.ops|
    && forall w: nat :: IsWorker(prog, s, w) ==> |s.workers[w].log| == |prog.ops|
  }

  // ---------------------------------------------------------------- the measure

  function Total(s: seq<nat>): nat {
    if s == [] then 0 else s[0] + Total(s[1..])
  }

  lemma {:induction false} TotalMonotone(a: seq<nat>, b: seq<nat>)
    requires |a| == |b| && forall i :: 0 <= i < |a| ==> a[i] <= b[i]
    ensures Total(a) <= Total(b)
    ensures (exists i :: 0 <= i < |a| && a[i] < b[i]) ==> Total(a) < Total(b)
  {
    if a != [] {
      TotalMonotone(a[1..], b[1..]);
      if i :| 0 < i < |a| && a[i] < b[i] {
        assert a[1..][i - 1] < b[1..][i - 1];
      }
    }
  }

  function WorkerWeight(pc: WorkerPc): nat {
    match pc
    case WIdle => 6
    case WSync => 5
    case WReply(_) => 4
    case WSignal => 3
    case WRecv(_) => 3
    case WDelay(_) => 2
    case WPut(_) => 1
    case WDone => 0
  }

  function WorkerClock(now: nat, pc: WorkerPc): nat {
    match pc
    case WReply(due) => Monus(due, now)
    case WDelay(due) => Monus(due, now)
    case _ => 0
  }

  function RootClock(now: nat, pc: RootPc): nat {
    match pc
    case RWait(_, deadline) => 1 + Monus(deadline + 1, now)
    case _ => 0
  }

  /** Collectives left, phase of the root, ranks left, bytes left, worker steps left, time left. */
  datatype Measure = Measure(calls: nat, phase: nat, ranks: nat, bytes: nat, steps: nat, time: nat)

  /** Less is left to do, apart from waiting. */
  ghost predicate LessWork(a: Measure, b: Measure) {
    || a.calls < b.calls
    || (a.calls == b.calls && (|| a.phase < b.phase
    || (a.phase == b.phase && (|| a.ranks < b.ranks
    || (a.ranks == b.ranks && (|| a.bytes < b.bytes
    || (a.bytes == b.bytes && a.steps < b.steps)))))))
  }

  ghost predicate SameWork(a: Measure, b: Measure) {
    a.(time := 0) == b.(time := 0)
  }

  ghost predicate Less(a: Measure, b: Measure) {
    LessWork(a, b) || (SameWork(a, b) && a.time < b.time)
  }

  function Calls(prog: Program, s: State): seq<nat> {
    seq(|s.workers|, w requires 0 <= w < |s.workers| => Monus(|prog.ops|, |s.workers[w].log|))
  }

  function Weights(s: State): seq<nat> {
    seq(|s.workers|, w requires 0 <= w < |s.workers| => WorkerWeight(s.workers[w].pc))
  }

  function Clocks(s: State): seq<nat> {
    seq(|s.workers|, w requires 0 <= w < |s.workers| => WorkerClock(s.now, s.workers[w].pc))
  }

  function RootMeasure(prog: Program, r: Root): (nat, nat, nat) {
    var n := if |r.log| < |prog.ops| then prog.ops[|r.log|].Bytes() else 0;
    match r.pc
    case RIdle => (3, 0, 0)
    case RSync(i) => (2, Monus(prog.size, i), 0)
    case RWait(i, _) => (2, Monus(prog.size, i), 0)
    case RSend(i, j) => (1, Monus(prog.size, i), Monus(n, j))
    case RSignal(i) => (1, Monus(prog.size, i), n + 1)
    case RRecv(i, j) => (1, Monus(prog.size, i), Monus(n, j))
    case RDone => (0, 0, 0)
  }

  function MeasureOf(prog: Program, s: State): Measure {
    var (phase, ranks, bytes) := RootMeasure(prog, s.root);
    Measure(Monus(|prog.ops|, |s.root.log|) + Total(Calls(prog, s)), phase, ranks, bytes,
            Total(Weights(s)), RootClock(s.now, s.root.pc) + Total(Clocks(s)))
  }

  // ---------------------------------------------------------------- a step that decreases it

  lemma QuietWorker(prog: Program, now: nat, w: Worker)
    requires Quiet(prog, now, w)
    ensures var w' := WorkerAdvances(prog, now, w);
      if w.pc.WDone? then |w'.log| == |w.log| + 1
      else w'.log == w.log && WorkerWeight(w'.pc) < WorkerWeight(w.pc)
  {
  }

  /** A worker that can move without sending does. */
  lemma QuietDecreases(prog: Program, jitter: nat, s: State, w: nat)
    requires IsWorker(prog, s, w) && Quiet(prog, s.now, s.workers[w])
    ensures Enabled(prog, jitter, s, WorkerStep(w))
    ensures LessWork(MeasureOf(prog, Apply(prog, jitter, s, WorkerStep(w))), MeasureOf(prog, s))
  {
    var s' := Apply(prog, jitter, s, WorkerStep(w));
    QuietWorker(prog, s.now, s.workers[w]);
    assert s' == s.(workers := s.workers[w := WorkerAdvances(prog, s.now, s.workers[w])]);
    if s.workers[w].pc.WDone? {
      TotalMonotone(Calls(prog, s'), Calls(prog, s));
      assert Calls(prog, s')[w] < Calls(prog, s)[w];
    } else {
      TotalMonotone(Weights(s'), Weights(s));
      assert Calls(prog, s') == Calls(prog, s);
      assert Weights(s')[w] < Weights(s)[w];
    }
  }

  ghost predicate RootLess(a: (nat, nat, nat), b: (nat, nat, nat)) {
    a.0 < b.0 || (a.0 == b.0 && (a.1 < b.1 || (a.1 == b.1 && a.2 < b.2)))
  }

  lemma RootMeasureDrops(prog: Program, s: State)
    requires RootPcOk(prog, |s.root.log|, s.root.pc) && RootEnabled(prog, s) && !s.root.pc.RDone?
    requires !(s.root.pc.RSync? && RootPuts(prog, s).Put?)
    ensures RootLess(RootMeasure(prog, RootAdvances(prog, s)), RootMeasure(prog, s.root))
    ensures RootAdvances(prog, s).log == s.root.log
  {
  }

  /** The root's loop moves on. */
  lemma RootDecreases(prog: Program, jitter: nat, s: State)
    requires Inv(prog, jitter, s) && Enabled(prog, jitter, s, RootStep)
    requires !(s.root.pc.RSync? && RootPuts(prog, s).Put?)
    ensures LessWork(MeasureOf(prog, Apply(prog, jitter, s, RootStep)), MeasureOf(prog, s))
  {
    var s' := Apply(prog, jitter, s, RootStep);
    assert s'.root == RootAdvances(prog, s);
    assert Calls(prog, s') == Calls(prog, s);
    if !s.root.pc.RDone? {
      RootMeasureDrops(prog, s);
    }
  }

  /** A SYNC that the worker takes. */
  lemma SyncDecreases(prog: Program, jitter: nat, s: State)
    requires Inv(prog, jitter, s) && Enabled(prog, jitter, s, RootStep)
    requires s.root.pc.RSync? && RootPuts(prog, s).Put? && s.workers[s.root.pc.i].pc == WSync
    ensures LessWork(MeasureOf(prog, Apply(prog, jitter, s, RootStep)), MeasureOf(prog, s))
  {
    var s' := Apply(prog, jitter, s, RootStep);
    var i := s.root.pc.i;
    assert Calls(prog, s') == Calls(prog, s);
    TotalMonotone(Weights(s'), Weights(s));
    assert Weights(s')[i] < Weights(s)[i];
  }

  /** A worker's reply or data byte moves the root on. */
  lemma PutDecreases(prog: Program, jitter: nat, s: State, w: nat)
    requires Inv(prog, jitter, s) && Enabled(prog, jitter, s, WorkerStep(w)) && WorkerPuts(prog, s, w).Put?
    ensures LessWork(MeasureOf(prog, Apply(prog, jitter, s, WorkerStep(w))), MeasureOf(prog, s))
  {
    var s' := Apply(prog, jitter, s, WorkerStep(w));
    assert Calls(prog, s') == Calls(prog, s);
    if s.workers[w].pc.WReply? {
      WorkerReplyKeeps(prog, jitter, s, w);
    } else {
      WorkerDataKeeps(prog, jitter, s, w);
    }
  }

  lemma TimeoutDecreases(prog: Program, jitter: nat, s: State)
    requires Inv(prog, jitter, s) && Enabled(prog, jitter, s, Timeout)
    ensures Less(MeasureOf(prog, Apply(prog, jitter, s, Timeout)), MeasureOf(prog, s))
  {
    var s' := Apply(prog, jitter, s, Timeout);
    assert Calls(prog, s') == Calls(prog, s) && Weights(s') == Weights(s) && Clocks(s') == Clocks(s);
  }

  /** Time passes towards a deadline or the end of a delay. */
  lemma TickDecreases(prog: Program, jitter: nat, s: State)
    requires Inv(prog, jitter, s) && Enabled(prog, jitter, s, Tick)
    requires (s.root.pc.RWait? && s.now <= s.root.pc.deadline)
          || (exists w: nat :: IsWorker(prog, s, w) && WorkerClock(s.now, s.workers[w].pc) > 0)
    ensures Less(MeasureOf(prog, Apply(prog, jitter, s, Tick)), MeasureOf(prog, s))
  {
    var s' := Apply(prog, jitter, s, Tick);
    assert Calls(prog, s') == Calls(prog, s) && Weights(s') == Weights(s);
    TotalMonotone(Clocks(s'), Clocks(s));
    if w: nat :| IsWorker(prog, s, w) && WorkerClock(s.now, s.workers[w].pc) > 0 {
      assert Clocks(s')[w] < Clocks(s)[w];
    }
  }

  /** Nothing forbids time to pass unless the worker being waited for must answer now. */
  lemma TickAllowed(prog: Program, jitter: nat, s: State)
    requires Inv(prog, jitter, s)
    requires s.root.pc.RWait? && s.workers[s.root.pc.i].pc.WReply? ==> s.now < s.workers[s.root.pc.i].pc.due
    ensures Enabled(prog, jitter, s, Tick)
  {
    forall w: nat | IsWorker(prog, s, w) && s.workers[w].pc.WReply?
      ensures s.now < s.workers[w].pc.due + jitter
    {
      assert WorkerOk(prog, jitter, s.now, |s.root.log|, s.root.pc, w, s.workers[w]);
      assert s.root.pc.RWait? && s.root.pc.i == w;
    }
  }

  ghost predicate Improves(prog: Program, jitter: nat, s: State, a: Action) {
    Enabled(prog, jitter, s, a) && Less(MeasureOf(prog, Apply(prog, jitter, s, a)), MeasureOf(prog, s))
  }

  /** A caught-up worker with no quiet step of its own is waiting for SYNC, is in the delay of an empty
      gather, or has finished the program. */
  lemma CaughtWorker(prog: Program, k: nat, rank: nat, now: nat, w: Worker)
    requires k <= |prog.ops| && Caught(prog, k, rank, w) && LogOk(prog, rank, w.log) && !Quiet(prog, now, w)
    ensures || (w.pc == WSync && |w.log| == k < |prog.ops|)
            || (w.pc.WDelay? && now < w.pc.due)
            || (w.pc == WIdle && |w.log| == k == |prog.ops|)
  {
  }

  lemma WaitForDelay(prog: Program, jitter: nat, s: State, w: nat)
    requires Inv(prog, jitter, s) && IsWorker(prog, s, w)
    requires s.workers[w].pc.WDelay? && s.now < s.workers[w].pc.due
    requires !(s.root.pc.RWait? && s.workers[s.root.pc.i].pc.WReply?)
    ensures Improves(prog, jitter, s, Tick)
  {
    TickAllowed(prog, jitter, s);
    TickDecreases(prog, jitter, s);
  }

  /** The root waits for a reply: it comes, or the root gives up and asks again. */
  lemma WaitingImproves(prog: Program, jitter: nat, s: State)
    requires Inv(prog, jitter, s) && s.root.pc.RWait?
    requires forall w: nat :: IsWorker(prog, s, w) ==> !Quiet(prog, s.now, s.workers[w])
    ensures exists a :: Improves(prog, jitter, s, a)
  {
    var i := s.root.pc.i;
    assert IsWorker(prog, s, i);
    if s.workers[i].pc.WReply? {
      if s.now < s.workers[i].pc.due {
        TickAllowed(prog, jitter, s);
        TickDecreases(prog, jitter, s);
        assert Improves(prog, jitter, s, Tick);
      } else {
        PutDecreases(prog, jitter, s, i);
        assert Improves(prog, jitter, s, WorkerStep(i));
      }
    } else if s.now > s.root.pc.deadline {
      TimeoutDecreases(prog, jitter, s);
      assert Improves(prog, jitter, s, Timeout);
    } else {
      TickAllowed(prog, jitter, s);
      TickDecreases(prog, jitter, s);
      assert Improves(prog, jitter, s, Tick);
    }
  }

  /** The root reads gathered data: it comes once the worker's delay is over. */
  lemma ReadingImproves(prog: Program, jitter: nat, s: State)
    requires Inv(prog, jitter, s) && s.root.pc.RRecv? && s.root.pc.j < prog.ops[|s.root.log|].Bytes()
    requires forall w: nat :: IsWorker(prog, s, w) ==> !Quiet(prog, s.now, s.workers[w])
    ensures exists a :: Improves(prog, jitter, s, a)
  {
    var i := s.root.pc.i;
    assert IsWorker(prog, s, i);
    assert Given(prog, |s.root.log|, s.root.pc.j, i, s.workers[i]);
    if s.workers[i].pc.WDelay? {
      WaitForDelay(prog, jitter, s, i);
      assert Improves(prog, jitter, s, Tick);
    } else {
      PutDecreases(prog, jitter, s, i);
      assert Improves(prog, jitter, s, WorkerStep(i));
    }
  }

  /** The root can take its next step; before a SYNC it may be worth waiting for the worker. */
  lemma RunningImproves(prog: Program, jitter: nat, s: State)
    requires Inv(prog, jitter, s) && Enabled(prog, jitter, s, RootStep)
    requires forall w: nat :: IsWorker(prog, s, w) ==> !Quiet(prog, s.now, s.workers[w])
    ensures exists a :: Improves(prog, jitter, s, a)
  {
    if s.root.pc.RSync? && RootPuts(prog, s).Put? {
      var i, k := s.root.pc.i, |s.root.log|;
      assert IsWorker(prog, s, i);
      CaughtWorker(prog, k, i, s.now, s.workers[i]);
      if s.workers[i].pc == WSync {
        SyncDecreases(prog, jitter, s);
        assert Improves(prog, jitter, s, RootStep);
      } else {
        WaitForDelay(prog, jitter, s, i);
        assert Improves(prog, jitter, s, Tick);
      }
    } else {
      RootDecreases(prog, jitter, s);
      assert Improves(prog, jitter, s, RootStep);
    }
  }

  /** No reachable state is stuck: until every rank has finished, some rank can take a step that brings
      the end closer. */
  lemma NeverStuck(prog: Program, jitter: nat, s: State)
    requires Inv(prog, jitter, s) && !Finished(prog, s)
    ensures exists a :: Improves(prog, jitter, s, a)
  {
    if w: nat :| IsWorker(prog, s, w) && Quiet(prog, s.now, s.workers[w]) {
      QuietDecreases(prog, jitter, s, w);
      assert Improves(prog, jitter, s, WorkerStep(w));
    } else if RootEnabled(prog, s) {
      RunningImproves(prog, jitter, s);
    } else if s.root.pc.RWait? {
      WaitingImproves(prog, jitter, s);
    } else if s.root.pc.RRecv? {
      ReadingImproves(prog, jitter, s);
    } else {
      assert |s.root.log| == |prog.ops|;
      var w: nat :| IsWorker(prog, s, w) && |s.workers[w].log| != |prog.ops|;
      CaughtWorker(prog, |prog.ops|, w, s.now, s.workers[w]);
      WaitForDelay(prog, jitter, s, w);
      assert Improves(prog, jitter, s, Tick);
    }
  }

  // ---------------------------------------------------------------- completion

  /** The actions lead from `s` to `s'`. */
  ghost predicate Leads(prog: Program, jitter: nat, s: State, acts: seq<Action>, s': State)
    decreases |acts|
  {
    if acts == [] then s == s'
    else Enabled(prog, jitter, s, acts[0]) && Leads(prog, jitter, Apply(prog, jitter, s, acts[0]), acts[1..], s')
  }

  ghost predicate AtomicEnd(prog: Program, s: State) {
    && Finished(prog, s)
    && s.root.log == LogOf(prog, prog.root, |prog.ops|)
    && forall w: nat :: IsWorker(prog, s, w) ==> s.workers[w].log == LogOf(prog, w, |prog.ops|)
  }

  /** Some schedule completes the program, with the results of the atomic collectives. */
  ghost predicate Completes(prog: Program, jitter: nat, s: State) {
    exists acts, s' :: Leads(prog, jitter, s, acts, s') && AtomicEnd(prog, s')
  }

  lemma Prepend(prog: Program, jitter: nat, s: State, a: Action)
    requires Enabled(prog, jitter, s, a) && Completes(prog, jitter, Apply(prog, jitter, s, a))
    ensures Completes(prog, jitter, s)
  {
    var acts, s' :| Leads(prog, jitter, Apply(prog, jitter, s, a), acts, s') && AtomicEnd(prog, s');
    assert ([a] + acts)[1..] == acts;
    assert Leads(prog, jitter, s, [a] + acts, s');
  }

  lemma EndCompletes(prog: Program, jitter: nat, s: State)
    requires Inv(prog, jitter, s) && Finished(prog, s)
    ensures Completes(prog, jitter, s)
  {
    assert AtomicEnd(prog, s);
    assert Leads(prog, jitter, s, [], s);
  }

  lemma CloserState(prog: Program, jitter: nat, s: State) returns (next: State)
    requires Inv(prog, jitter, s) && !Finished(prog, s)
    ensures Inv(prog, jitter, next) && Less(MeasureOf(prog, next), MeasureOf(prog, s))
    ensures Completes(prog, jitter, next) ==> Completes(prog, jitter, s)
  {
    NeverStuck(prog, jitter, s);
    var a :| Improves(prog, jitter, s, a);
    StepKeeps(prog, jitter, s, a);
    next := Apply(prog, jitter, s, a);
    if Completes(prog, jitter, next) {
      Prepend(prog, jitter, s, a);
    }
  }

  lemma {:induction false} CanComplete(prog: Program, jitter: nat, s: State, m: Measure)
    requires Inv(prog, jitter, s) && m == MeasureOf(prog, s)
    ensures Completes(prog, jitter, s)
    decreases m.calls, m.phase, m.ranks, m.bytes, m.steps, m.time
  {
    if Finished(prog, s) {
      EndCompletes(prog, jitter, s);
    } else {
      var next := CloserState(prog, jitter, s);
      CanComplete(prog, jitter, next, MeasureOf(prog, next));
    }
  }

  /** Whatever happened so far, the run can be completed, with the results of the atomic collectives. */
  lemma EveryRunCanComplete(prog: Program, jitter: nat, start: nat, run: seq<State>, acts: seq<Action>, t: nat)
    requires prog.Valid() && DELAY_MS + jitter <= TIMEOUT_MS
    requires IsRun(prog, jitter, start, run, acts) && t <= |acts|
    ensures Completes(prog, jitter, run[t])
  {
    Reachable(prog, jitter, start, run, acts, t);
    CanComplete(prog, jitter, run[t], MeasureOf(prog, run[t]));
  }
}
