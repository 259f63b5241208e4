/** The barrier against section 5.3 of MPI-3.1: the call returns at any process only after all have entered it. */
module FmpiBarrier {
  import opened Fmpi
  import opened FmpiSafety

  /** The rank has called collective `k`. */
  ghost predicate HasEntered(prog: Program, s: State, rank: nat, k: nat)
    requires rank < |s.workers|
  {
    if rank == prog.root then |s.root.log| > k || (|s.root.log| == k && s.root.pc != RIdle)
    else |s.workers[rank].log| > k || (|s.workers[rank].log| == k && s.workers[rank].pc != WIdle)
  }

  /** The rank has returned from it. */
  ghost predicate HasLeft(prog: Program, s: State, rank: nat, k: nat)
    requires rank < |s.workers|
  {
    if rank == prog.root then |s.root.log| > k else |s.workers[rank].log| > k
  }

  ghost predicate MpiBarrier(prog: Program, s: State, k: nat) {
    && |s.workers| == prog.size
    && forall rank: nat, other: nat :: rank < prog.size && other < prog.size && HasLeft(prog, s, rank, k) ==>
         HasEntered(prog, s, other, k)
  }

  /** The barriers of every program with this size and root are the standard's, in every run. */
  ghost predicate BarrierConforms(size: nat, root: nat) {
    forall prog: Program, jitter: nat, start: nat, run: seq<State>, acts: seq<Action>, t: nat, k: nat ::
      prog.size == size && prog.root == root && DELAY_MS + jitter <= TIMEOUT_MS
      && IsRun(prog, jitter, start, run, acts) && t <= |acts| && k < |prog.ops| && prog.ops[k] == Barrier ==>
        MpiBarrier(prog, run[t], k)
  }

  /** What holds for any number of ranks: the root leaves after all workers have entered, and a worker leaves after the
      root has. */
  lemma RootHoldsBack(prog: Program, jitter: nat, start: nat, run: seq<State>, acts: seq<Action>, t: nat,
                      k: nat, w: nat)
    requires prog.Valid() && DELAY_MS + jitter <= TIMEOUT_MS
    requires IsRun(prog, jitter, start, run, acts) && t <= |acts| && w < prog.size && w != prog.root
    ensures |run[t].workers| == prog.size
    ensures HasLeft(prog, run[t], prog.root, k) ==> HasEntered(prog, run[t], w, k)
    ensures HasLeft(prog, run[t], w, k) ==> HasEntered(prog, run[t], prog.root, k)
  {
    hide Slice, StaleBlocks, Result, LogOf, Enabled, Apply, Init;
    Reachable(prog, jitter, start, run, acts, t);
    var s := run[t];
    assert IsWorker(prog, s, w);
    assert WorkerOk(prog, jitter, s.now, |s.root.log|, s.root.pc, w, s.workers[w]);
  }

  // ---------------------------------------------------------------- two workers

  function OneBarrier(size: nat, root: nat): Program {
    Program(size, root, [Barrier], (rank, log, off) => 0, (log, i, off) => 0)
  }

  /** The worker that the root serves first. */
  function First(root: nat): nat {
    if root == 0 then 1 else 0
  }

  function Second(root: nat): nat {
    if root <= 1 then 2 else 1
  }

  /** One step more when the root passes over its own number. */
  function Skipped(root: nat): nat {
    if root == 0 then 1 else 0
  }

  /** The first worker is served and leaves while the second has not called the barrier. */
  function EarlyAction(root: nat, t: nat): Action {
    var b := 2 + Skipped(root);
    if t == 0 then WorkerStep(First(root))
    else if t <= b then RootStep
    else if t <= b + DELAY_MS then Tick
    else WorkerStep(First(root))
  }

  function Workers(size: nat, root: nat, first: Worker): (r: seq<Worker>)
    ensures |r| == size
  {
    seq(size, i requires 0 <= i < size => if i == First(root) then first else Worker([], WIdle, []))
  }

  function EarlyState(size: nat, root: nat, t: nat): State {
    var b, w := 2 + Skipped(root), First(root);
    if t == 0 then State(0, Root([], RIdle, []), Workers(size, root, Worker([], WIdle, [])))
    else if t == 1 then State(0, Root([], RIdle, []), Workers(size, root, Worker([], WSync, [])))
    else if t < b then State(0, Root([], RSync(0), []), Workers(size, root, Worker([], WSync, [])))
    else if t == b then State(0, Root([], RSync(w), []), Workers(size, root, Worker([], WSync, [])))
    else if t <= b + 1 + DELAY_MS then
      State(t - b - 1, Root([], RWait(w, TIMEOUT_MS), []), Workers(size, root, Worker([], WReply(DELAY_MS), [])))
    else
      State(DELAY_MS, Root([], RSync(w + 1), []),
            Workers(size, root, if t == b + 2 + DELAY_MS then Worker([], WDone, []) else Worker([[]], WIdle, [])))
  }

  lemma EarlyStep(size: nat, root: nat, t: nat)
    requires root < size && size >= 3 && t < 5 + Skipped(root) + DELAY_MS
    ensures Enabled(OneBarrier(size, root), 0, EarlyState(size, root, t), EarlyAction(root, t))
    ensures EarlyState(size, root, t + 1)
         == Apply(OneBarrier(size, root), 0, EarlyState(size, root, t), EarlyAction(root, t))
  {
    var prog := OneBarrier(size, root);
    assert prog.ops[0] == Barrier;
    var s, w := EarlyState(size, root, t), First(root);
    var s' := EarlyState(size, root, t + 1);
    assert IsWorker(prog, s, w);
    assert s'.workers == s.workers[w := s'.workers[w]];
    if t == 0 {
    } else if t <= 2 + Skipped(root) {
      assert s.now == 0;
      if t < 2 + Skipped(root) {
        assert s'.workers == s.workers;
      }
    } else if EarlyAction(root, t) == Tick {
      assert s'.workers == s.workers;
      forall v: nat | IsWorker(prog, s, v) && s.workers[v].pc.WReply?
        ensures s.now < s.workers[v].pc.due
      {
      }
    } else if s.workers[w].pc == WDone {
      assert WorkerAdvances(prog, s.now, s.workers[w]).log == [[]];
    }
  }

  /** A run in which a rank leaves the barrier before another has entered it. */
  lemma LeavesEarly(size: nat, root: nat) returns (run: seq<State>, acts: seq<Action>)
    requires root < size && size >= 3
    ensures IsRun(OneBarrier(size, root), 0, 0, run, acts)
    ensures var last := run[|acts|];
      && |last.workers| == size && Second(root) < size
      && HasLeft(OneBarrier(size, root), last, First(root), 0)
      && !HasEntered(OneBarrier(size, root), last, Second(root), 0)
  {
    var prog, n := OneBarrier(size, root), 5 + Skipped(root) + DELAY_MS;
    acts := seq(n, t requires 0 <= t < n => EarlyAction(root, t));
    run := seq(n + 1, t requires 0 <= t <= n => EarlyState(size, root, t));
    assert run[0] == Init(prog, 0) by {
      assert run[0].workers == Init(prog, 0).workers;
    }
    hide EarlyState, EarlyAction, Enabled, Apply, Init;
    forall t | 0 <= t < |acts|
      ensures Enabled(prog, 0, run[t], acts[t]) && run[t + 1] == Apply(prog, 0, run[t], acts[t])
    {
      EarlyStep(size, root, t);
    }
    EarlyEnd(size, root);
  }

  lemma EarlyEnd(size: nat, root: nat)
    requires root < size && size >= 3
    ensures var last := EarlyState(size, root, 5 + Skipped(root) + DELAY_MS);
      && |last.workers| == size && Second(root) < size
      && HasLeft(OneBarrier(size, root), last, First(root), 0)
      && !HasEntered(OneBarrier(size, root), last, Second(root), 0)
  {
  }

  /** The barrier is the standard's exactly when there is at most one worker. */
  lemma BarrierConformsIff(size: nat, root: nat)
    requires root < size
    ensures BarrierConforms(size, root) <==> size <= 2
  {
    hide HasLeft, HasEntered, Enabled, Apply, Init;
    if size <= 2 {
      forall prog: Program, jitter: nat, start: nat, run: seq<State>, acts: seq<Action>, t: nat, k: nat
        | prog.size == size && prog.root == root && DELAY_MS + jitter <= TIMEOUT_MS
          && IsRun(prog, jitter, start, run, acts) && t <= |acts| && k < |prog.ops| && prog.ops[k] == Barrier
        ensures MpiBarrier(prog, run[t], k)
      {
        AtMostOneWorker(prog, jitter, start, run, acts, t, k);
      }
    } else {
      var run, acts := LeavesEarly(size, root);
      var prog := OneBarrier(size, root);
      assert prog.ops[0] == Barrier;
      assert !MpiBarrier(prog, run[|acts|], 0);
    }
  }

  lemma AtMostOneWorker(prog: Program, jitter: nat, start: nat, run: seq<State>, acts: seq<Action>, t: nat, k: nat)
    requires prog.Valid() && prog.size <= 2 && DELAY_MS + jitter <= TIMEOUT_MS
    requires IsRun(prog, jitter, start, run, acts) && t <= |acts|
    ensures MpiBarrier(prog, run[t], k)
  {
    hide Enabled, Apply, Init, Inv;
    SizeKept(prog, jitter, start, run, acts, t);
    if prog.size == 2 {
      RootHoldsBack(prog, jitter, start, run, acts, t, k, 1 - prog.root);
    }
  }

  lemma SizeKept(prog: Program, jitter: nat, start: nat, run: seq<State>, acts: seq<Action>, t: nat)
    requires prog.Valid() && DELAY_MS + jitter <= TIMEOUT_MS
    requires IsRun(prog, jitter, start, run, acts) && t <= |acts|
    ensures |run[t].workers| == prog.size
  {
    Reachable(prog, jitter, start, run, acts, t);
  }
}
