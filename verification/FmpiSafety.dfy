/** Every reachable state of the collectives agrees with the atomic ones. */
module FmpiSafety {
  import opened Bytes
  import opened Fmpi

  // ---------------------------------------------------------------- where a worker may be

  /** The worker has done every channel operation of collective `k` but has not returned from it. */
  ghost predicate Tail(prog: Program, k: nat, rank: nat, w: Worker)
    requires k < |prog.ops|
  {
    var n := prog.ops[k].Bytes();
    && |w.log| == k
    && w.buf == Result(prog, rank, k)
    && match prog.ops[k]
       case Gather(_) => w.pc == WPut(n) || w.pc == WDone || (n == 0 && w.pc.WDelay?)
       case Barrier => w.pc == WDone
       case _ => w.pc == WRecv(n) || w.pc == WDone
  }

  /** The worker needs nothing more from the root before collective `k`, and has not been
      synchronised in it. */
  ghost predicate Caught(prog: Program, k: nat, rank: nat, w: Worker)
    requires k <= |prog.ops|
  {
    || (|w.log| == k && w.buf == [] && (w.pc == WIdle || (w.pc == WSync && k < |prog.ops|)))
    || (k > 0 && Tail(prog, k - 1, rank, w))
  }

  /** The worker has received exactly `d` bytes of broadcast or scatter `k`. */
  ghost predicate Received(prog: Program, k: nat, d: nat, rank: nat, w: Worker)
    requires k < |prog.ops| && (prog.ops[k].Bcast? || prog.ops[k].Scatter?) && d <= prog.ops[k].n
    requires rank != prog.root
  {
    || (|w.log| == k && w.pc == WRecv(d) && w.buf == Result(prog, rank, k)[..d])
    || (d == prog.ops[k].n && Caught(prog, k + 1, rank, w))
  }

  /** The worker has put exactly `d` bytes of gather `k`. */
  ghost predicate Given(prog: Program, k: nat, d: nat, rank: nat, w: Worker)
    requires k < |prog.ops| && prog.ops[k].Gather? && d <= prog.ops[k].n
  {
    || (|w.log| == k && w.buf == [] && (w.pc == WPut(d) || (d == 0 && w.pc.WDelay?)))
    || (d == prog.ops[k].n && Caught(prog, k + 1, rank, w))
  }

  ghost predicate AwaitsSignal(k: nat, w: Worker) {
    |w.log| == k && w.buf == [] && w.pc == WSignal
  }

  /** The worker has answered the handshake of collective `k` and nothing more has reached it. */
  ghost predicate Synced(prog: Program, k: nat, rank: nat, w: Worker)
    requires k < |prog.ops| && rank != prog.root
  {
    match prog.ops[k]
    case Gather(_) => AwaitsSignal(k, w)
    case Barrier => Caught(prog, k + 1, rank, w)
    case _ => Received(prog, k, 0, rank, w)
  }

  ghost predicate Answering(k: nat, deadline: nat, now: nat, jitter: nat, w: Worker) {
    && |w.log| == k && w.buf == []
    && w.pc.WReply?
    && w.pc.due + TIMEOUT_MS == deadline + DELAY_MS
    && now <= w.pc.due + jitter
  }

  /** Where worker `w` is, given the root's program counter in collective `k`. */
  ghost predicate WorkerOk(prog: Program, jitter: nat, now: nat, k: nat, pc: RootPc, rank: nat, w: Worker)
    requires RootPcOk(prog, k, pc) && rank != prog.root
  {
    match pc
    case RIdle => Caught(prog, k, rank, w)
    case RSync(i) => if rank < i then Synced(prog, k, rank, w) else Caught(prog, k, rank, w)
    case RWait(i, deadline) =>
      if rank < i then Synced(prog, k, rank, w)
      else if rank == i then Caught(prog, k, rank, w) || Answering(k, deadline, now, jitter, w)
      else Caught(prog, k, rank, w)
    case RSend(i, j) => Received(prog, k, if rank < i then prog.ops[k].n else if rank == i then j else 0, rank, w)
    case RSignal(i) => if rank < i then Caught(prog, k + 1, rank, w) else AwaitsSignal(k, w)
    case RRecv(i, j) =>
      if rank < i then Caught(prog, k + 1, rank, w)
      else if rank == i then Given(prog, k, j, rank, w)
      else AwaitsSignal(k, w)
    case RDone => Caught(prog, k + 1, rank, w)
  }

  ghost predicate RootPcOk(prog: Program, k: nat, pc: RootPc) {
    && k <= |prog.ops|
    && (pc != RIdle ==> k < |prog.ops|)
    && match pc
       case RIdle => true
       case RSync(i) => i <= prog.size
       case RWait(i, _) => i < prog.size && i != prog.root
       case RSend(i, j) => (prog.ops[k].Bcast? || prog.ops[k].Scatter?) && i <= prog.size && j <= prog.ops[k].n
                           && (i == prog.size || i == prog.root ==> j == 0)
       case RSignal(i) => prog.ops[k].Gather? && i <= prog.size
       case RRecv(i, j) => prog.ops[k].Gather? && i < prog.size && i != prog.root && j <= prog.ops[k].n
       case RDone => true
  }

  /** Blocks below `i` of the gather buffer are complete, `j` bytes of block `i` are in. */
  ghost predicate Filled(prog: Program, k: nat, i: nat, j: nat, blocks: seq<seq<byte>>)
    requires k < |prog.ops| && prog.ops[k].Gather? && j <= prog.ops[k].n
  {
    var n := prog.ops[k].n;
    && |blocks| == prog.size
    && (forall r :: 0 <= r < prog.size ==> |blocks[r]| == n)
    && (prog.root < prog.size ==> blocks[prog.root] == StaleBlocks(prog, LogOf(prog, prog.root, k), n)[prog.root])
    && (forall r :: 0 <= r < prog.size && r < i && r != prog.root ==>
          blocks[r] == Slice(prog, r, LogOf(prog, r, k), 0, n))
    && (i < prog.size && i != prog.root ==> blocks[i][..j] == Slice(prog, i, LogOf(prog, i, k), 0, n)[..j])
  }

  ghost predicate BlocksOk(prog: Program, k: nat, pc: RootPc, blocks: seq<seq<byte>>)
    requires RootPcOk(prog, k, pc)
  {
    pc != RIdle && prog.ops[k].Gather? ==>
      if pc.RSignal? then Filled(prog, k, pc.i, 0, blocks)
      else if pc.RRecv? then Filled(prog, k, pc.i, pc.j, blocks)
      else Filled(prog, k, if pc.RDone? then prog.size else 0, 0, blocks)
  }

  ghost predicate LogOk(prog: Program, rank: nat, log: Log) {
    |log| <= |prog.ops| && log == LogOf(prog, rank, |log|)
  }

  ghost predicate Inv(prog: Program, jitter: nat, s: State) {
    var k := |s.root.log|;
    && prog.Valid()
    && DELAY_MS + jitter <= TIMEOUT_MS
    && |s.workers| == prog.size
    && LogOk(prog, prog.root, s.root.log)
    && RootPcOk(prog, k, s.root.pc)
    && BlocksOk(prog, k, s.root.pc, s.root.blocks)
    && forall w: nat :: IsWorker(prog, s, w) ==>
         LogOk(prog, w, s.workers[w].log) && WorkerOk(prog, jitter, s.now, k, s.root.pc, w, s.workers[w])
  }

  lemma InitHolds(prog: Program, jitter: nat, now: nat)
    requires prog.Valid() && DELAY_MS + jitter <= TIMEOUT_MS
    ensures Inv(prog, jitter, Init(prog, now))
  {
  }

  // ---------------------------------------------------------------- every action keeps it

  lemma TickKeeps(prog: Program, jitter: nat, s: State)
    requires Inv(prog, jitter, s) && Enabled(prog, jitter, s, Tick)
    ensures Inv(prog, jitter, Apply(prog, jitter, s, Tick))
  {
    var s' := Apply(prog, jitter, s, Tick);
    forall w: nat | IsWorker(prog, s', w)
      ensures WorkerOk(prog, jitter, s'.now, |s'.root.log|, s'.root.pc, w, s'.workers[w])
    {
      assert IsWorker(prog, s, w);
    }
  }

  /** The root gives up only when its SYNC was lost: a reply is due before the deadline. */
  lemma TimeoutKeeps(prog: Program, jitter: nat, s: State)
    requires Inv(prog, jitter, s) && Enabled(prog, jitter, s, Timeout)
    ensures Inv(prog, jitter, Apply(prog, jitter, s, Timeout))
    ensures Caught(prog, |s.root.log|, s.root.pc.i, s.workers[s.root.pc.i])
  {
    var s' := Apply(prog, jitter, s, Timeout);
    assert IsWorker(prog, s, s.root.pc.i);
    forall w: nat | IsWorker(prog, s', w)
      ensures WorkerOk(prog, jitter, s'.now, |s'.root.log|, s'.root.pc, w, s'.workers[w])
    {
      assert IsWorker(prog, s, w);
    }
  }

  /** The root enters its next collective. */
  lemma RootEnterKeeps(prog: Program, jitter: nat, s: State)
    requires Inv(prog, jitter, s) && Enabled(prog, jitter, s, RootStep)
    requires s.root.pc.RIdle?
    ensures Inv(prog, jitter, Apply(prog, jitter, s, RootStep))
  {
    var s' := Apply(prog, jitter, s, RootStep);
    forall w: nat | IsWorker(prog, s', w)
      ensures WorkerOk(prog, jitter, s'.now, |s'.root.log|, s'.root.pc, w, s'.workers[w])
    {
      assert IsWorker(prog, s, w);
    }
  }

  /** The handshake loop skips the root's own number and ends after the last rank. */
  lemma RootSyncSilentKeeps(prog: Program, jitter: nat, s: State)
    requires Inv(prog, jitter, s) && Enabled(prog, jitter, s, RootStep)
    requires s.root.pc.RSync? && RootPuts(prog, s).Silent?
    ensures Inv(prog, jitter, Apply(prog, jitter, s, RootStep))
  {
    var s' := Apply(prog, jitter, s, RootStep);
    forall w: nat | IsWorker(prog, s', w)
      ensures WorkerOk(prog, jitter, s'.now, |s'.root.log|, s'.root.pc, w, s'.workers[w])
    {
      assert IsWorker(prog, s, w);
    }
  }

  /** The sending loop skips the root's own number, goes to the next rank, and ends. */
  lemma RootSendSilentKeeps(prog: Program, jitter: nat, s: State)
    requires Inv(prog, jitter, s) && Enabled(prog, jitter, s, RootStep)
    requires s.root.pc.RSend? && RootPuts(prog, s).Silent?
    ensures Inv(prog, jitter, Apply(prog, jitter, s, RootStep))
  {
    var s' := Apply(prog, jitter, s, RootStep);
    forall w: nat | IsWorker(prog, s', w)
      ensures WorkerOk(prog, jitter, s'.now, |s'.root.log|, s'.root.pc, w, s'.workers[w])
    {
      assert IsWorker(prog, s, w);
    }
  }

  /** The gathering loop skips the root's own number and ends after the last rank. */
  lemma RootSignalSilentKeeps(prog: Program, jitter: nat, s: State)
    requires Inv(prog, jitter, s) && Enabled(prog, jitter, s, RootStep)
    requires s.root.pc.RSignal? && RootPuts(prog, s).Silent?
    ensures Inv(prog, jitter, Apply(prog, jitter, s, RootStep))
  {
    var s' := Apply(prog, jitter, s, RootStep);
    forall w: nat | IsWorker(prog, s', w)
      ensures WorkerOk(prog, jitter, s'.now, |s'.root.log|, s'.root.pc, w, s'.workers[w])
    {
      assert IsWorker(prog, s, w);
    }
  }

  lemma BlockComplete(prog: Program, k: nat, i: nat, blocks: seq<seq<byte>>)
    requires k < |prog.ops| && prog.ops[k].Gather? && i < prog.size && i != prog.root
    requires Filled(prog, k, i, prog.ops[k].n, blocks)
    ensures Filled(prog, k, i + 1, 0, blocks)
  {
    var n := prog.ops[k].n;
    var all := Slice(prog, i, LogOf(prog, i, k), 0, n);
    assert blocks[i] == blocks[i][..n] && all == all[..n];
  }

  /** After the last byte of a block the root goes to the next rank. */
  lemma RootBlockEndKeeps(prog: Program, jitter: nat, s: State)
    requires Inv(prog, jitter, s) && Enabled(prog, jitter, s, RootStep)
    requires s.root.pc.RRecv?
    ensures Inv(prog, jitter, Apply(prog, jitter, s, RootStep))
  {
    var s' := Apply(prog, jitter, s, RootStep);
    BlockComplete(prog, |s.root.log|, s.root.pc.i, s.root.blocks);
    forall w: nat | IsWorker(prog, s', w)
      ensures WorkerOk(prog, jitter, s'.now, |s'.root.log|, s'.root.pc, w, s'.workers[w])
    {
      assert IsWorker(prog, s, w);
    }
  }

  /** The root returns from collective `k` with what the atomic collective gives it. */
  lemma RootReturnsResult(prog: Program, s: State, jitter: nat)
    requires Inv(prog, jitter, s) && Enabled(prog, jitter, s, RootStep) && s.root.pc.RDone?
    ensures RootReturns(prog, s.root) == Result(prog, prog.root, |s.root.log|)
  {
    var k := |s.root.log|;
    if prog.ops[k].Gather? {
      var n := prog.ops[k].n;
      var own := s.root.blocks[0 := Slice(prog, prog.root, s.root.log, 0, n)];
      assert own == seq(prog.size, i requires 0 <= i < prog.size => GatheredBlock(prog, k, n, i));
    }
  }

  lemma RootDoneKeeps(prog: Program, jitter: nat, s: State)
    requires Inv(prog, jitter, s) && Enabled(prog, jitter, s, RootStep) && s.root.pc.RDone?
    ensures Inv(prog, jitter, Apply(prog, jitter, s, RootStep))
  {
    var s' := Apply(prog, jitter, s, RootStep);
    RootReturnsResult(prog, s, jitter);
    forall w: nat | IsWorker(prog, s', w)
      ensures WorkerOk(prog, jitter, s'.now, |s'.root.log|, s'.root.pc, w, s'.workers[w])
    {
      assert IsWorker(prog, s, w);
    }
  }

  /** SYNC reaches a worker only in the handshake loop; anywhere else it is lost. */
  lemma RootSyncKeeps(prog: Program, jitter: nat, s: State)
    requires Inv(prog, jitter, s) && Enabled(prog, jitter, s, RootStep)
    requires s.root.pc.RSync? && RootPuts(prog, s).Put?
    ensures Inv(prog, jitter, Apply(prog, jitter, s, RootStep))
    ensures RootPuts(prog, s).taken <==> s.workers[s.root.pc.i].pc == WSync
  {
    var s' := Apply(prog, jitter, s, RootStep);
    assert IsWorker(prog, s, s.root.pc.i);
    forall w: nat | IsWorker(prog, s', w)
      ensures LogOk(prog, w, s'.workers[w].log)
      ensures WorkerOk(prog, jitter, s'.now, |s'.root.log|, s'.root.pc, w, s'.workers[w])
    {
      assert IsWorker(prog, s, w);
    }
  }

  /** A byte of a broadcast or scatter is always taken, by the worker it is meant for. */
  lemma RootDataKeeps(prog: Program, jitter: nat, s: State)
    requires Inv(prog, jitter, s) && Enabled(prog, jitter, s, RootStep)
    requires s.root.pc.RSend? && RootPuts(prog, s).Put?
    ensures Inv(prog, jitter, Apply(prog, jitter, s, RootStep))
    ensures RootPuts(prog, s).taken
    ensures s.workers[s.root.pc.i].pc == WRecv(s.root.pc.j)
    ensures |s.workers[s.root.pc.i].log| == |s.root.log|
  {
    var s' := Apply(prog, jitter, s, RootStep);
    var i, j, k := s.root.pc.i, s.root.pc.j, |s.root.log|;
    assert IsWorker(prog, s, i);
    var all := Result(prog, i, k);
    assert all[..j + 1] == all[..j] + [all[j]];
    assert RootPuts(prog, s).b == all[j];
    forall w: nat | IsWorker(prog, s', w)
      ensures LogOk(prog, w, s'.workers[w].log)
      ensures WorkerOk(prog, jitter, s'.now, |s'.root.log|, s'.root.pc, w, s'.workers[w])
    {
      assert IsWorker(prog, s, w);
    }
  }

  /** The SEND signal is always taken. */
  lemma RootSignalKeeps(prog: Program, jitter: nat, s: State)
    requires Inv(prog, jitter, s) && Enabled(prog, jitter, s, RootStep)
    requires s.root.pc.RSignal? && RootPuts(prog, s).Put?
    ensures Inv(prog, jitter, Apply(prog, jitter, s, RootStep))
    ensures RootPuts(prog, s).taken && s.workers[s.root.pc.i].pc == WSignal
  {
    var s' := Apply(prog, jitter, s, RootStep);
    assert IsWorker(prog, s, s.root.pc.i);
    forall w: nat | IsWorker(prog, s', w)
      ensures LogOk(prog, w, s'.workers[w].log)
      ensures WorkerOk(prog, jitter, s'.now, |s'.root.log|, s'.root.pc, w, s'.workers[w])
    {
      assert IsWorker(prog, s, w);
    }
  }

  lemma RootStepKeeps(prog: Program, jitter: nat, s: State)
    requires Inv(prog, jitter, s) && Enabled(prog, jitter, s, RootStep)
    ensures Inv(prog, jitter, Apply(prog, jitter, s, RootStep))
    ensures var e := RootPuts(prog, s);
      e.Put? ==> (e.taken <==> e.kind != Sync || s.workers[e.to].pc == WSync)
  {
    match s.root.pc
    case RIdle => RootEnterKeeps(prog, jitter, s);
    case RSync(_) =>
      if RootPuts(prog, s).Silent? { RootSyncSilentKeeps(prog, jitter, s); } else { RootSyncKeeps(prog, jitter, s); }
    case RWait(_, _) =>
    case RSend(_, _) =>
      if RootPuts(prog, s).Silent? { RootSendSilentKeeps(prog, jitter, s); } else { RootDataKeeps(prog, jitter, s); }
    case RSignal(_) =>
      if RootPuts(prog, s).Silent? { RootSignalSilentKeeps(prog, jitter, s); }
      else { RootSignalKeeps(prog, jitter, s); }
    case RRecv(_, _) => RootBlockEndKeeps(prog, jitter, s);
    case RDone => RootDoneKeeps(prog, jitter, s);
  }

  // ---------------------------------------------------------------- workers

  /** Only the acting worker has to be looked at when the root does not change. */
  lemma OthersKeep(prog: Program, jitter: nat, s: State, w: nat, me: Worker)
    requires Inv(prog, jitter, s) && IsWorker(prog, s, w)
    requires LogOk(prog, w, me.log)
    requires WorkerOk(prog, jitter, s.now, |s.root.log|, s.root.pc, w, me)
    ensures Inv(prog, jitter, s.(workers := s.workers[w := me]))
  {
    var s' := s.(workers := s.workers[w := me]);
    forall v: nat | IsWorker(prog, s', v)
      ensures LogOk(prog, v, s'.workers[v].log)
      ensures WorkerOk(prog, jitter, s'.now, |s'.root.log|, s'.root.pc, v, s'.workers[v])
    {
      assert IsWorker(prog, s, v);
    }
  }

  /** A step in which the worker sends nothing. */
  ghost predicate Quiet(prog: Program, now: nat, w: Worker) {
    && WorkerEnabled(prog, now, w)
    && !w.pc.WReply?
    && (w.pc.WPut? ==> w.pc.j == prog.ops[|w.log|].Bytes())
  }

  lemma CaughtAdvances(prog: Program, k: nat, rank: nat, now: nat, w: Worker)
    requires k <= |prog.ops| && Caught(prog, k, rank, w) && Quiet(prog, now, w) && LogOk(prog, rank, w.log)
    ensures var w' := WorkerAdvances(prog, now, w); Caught(prog, k, rank, w') && LogOk(prog, rank, w'.log)
  {
  }

  lemma ReceivedAdvances(prog: Program, k: nat, d: nat, rank: nat, now: nat, w: Worker)
    requires k < |prog.ops| && (prog.ops[k].Bcast? || prog.ops[k].Scatter?) && d <= prog.ops[k].n && rank != prog.root
    requires Received(prog, k, d, rank, w) && Quiet(prog, now, w) && LogOk(prog, rank, w.log)
    ensures var w' := WorkerAdvances(prog, now, w); Received(prog, k, d, rank, w') && LogOk(prog, rank, w'.log)
  {
    assert d == prog.ops[k].n;
    assert Result(prog, rank, k)[..d] == Result(prog, rank, k);
    CaughtAdvances(prog, k + 1, rank, now, w);
  }

  lemma GivenAdvances(prog: Program, k: nat, d: nat, rank: nat, now: nat, w: Worker)
    requires k < |prog.ops| && prog.ops[k].Gather? && d <= prog.ops[k].n && rank != prog.root
    requires Given(prog, k, d, rank, w) && Quiet(prog, now, w) && LogOk(prog, rank, w.log)
    ensures var w' := WorkerAdvances(prog, now, w); Given(prog, k, d, rank, w') && LogOk(prog, rank, w'.log)
  {
    if Caught(prog, k + 1, rank, w) {
      CaughtAdvances(prog, k + 1, rank, now, w);
    }
  }

  lemma SyncedAdvances(prog: Program, k: nat, rank: nat, now: nat, w: Worker)
    requires k < |prog.ops| && rank != prog.root
    requires Synced(prog, k, rank, w) && Quiet(prog, now, w) && LogOk(prog, rank, w.log)
    ensures var w' := WorkerAdvances(prog, now, w); Synced(prog, k, rank, w') && LogOk(prog, rank, w'.log)
  {
    match prog.ops[k]
    case Gather(_) =>
    case Barrier => CaughtAdvances(prog, k + 1, rank, now, w);
    case _ => ReceivedAdvances(prog, k, 0, rank, now, w);
  }

  /** A worker that sends nothing stays where the root expects it. */
  lemma WorkerOkAdvances(prog: Program, jitter: nat, now: nat, k: nat, pc: RootPc, rank: nat, w: Worker)
    requires RootPcOk(prog, k, pc) && rank != prog.root
    requires WorkerOk(prog, jitter, now, k, pc, rank, w) && Quiet(prog, now, w) && LogOk(prog, rank, w.log)
    ensures var w' := WorkerAdvances(prog, now, w);
      WorkerOk(prog, jitter, now, k, pc, rank, w') && LogOk(prog, rank, w'.log)
  {
    match pc
    case RIdle => CaughtAdvances(prog, k, rank, now, w);
    case RSync(i) =>
      if rank < i { SyncedAdvances(prog, k, rank, now, w); } else { CaughtAdvances(prog, k, rank, now, w); }
    case RWait(i, _) =>
      if rank < i { SyncedAdvances(prog, k, rank, now, w); } else { CaughtAdvances(prog, k, rank, now, w); }
    case RSend(i, j) =>
      ReceivedAdvances(prog, k, if rank < i then prog.ops[k].n else if rank == i then j else 0, rank, now, w);
    case RSignal(i) => if rank < i { CaughtAdvances(prog, k + 1, rank, now, w); }
    case RRecv(i, j) =>
      if rank < i { CaughtAdvances(prog, k + 1, rank, now, w); }
      else if rank == i { GivenAdvances(prog, k, j, rank, now, w); }
    case RDone => CaughtAdvances(prog, k + 1, rank, now, w);
  }

  lemma WorkerSilentKeeps(prog: Program, jitter: nat, s: State, w: nat)
    requires Inv(prog, jitter, s) && Enabled(prog, jitter, s, WorkerStep(w))
    requires WorkerPuts(prog, s, w).Silent?
    ensures Inv(prog, jitter, Apply(prog, jitter, s, WorkerStep(w)))
  {
    WorkerOkAdvances(prog, jitter, s.now, |s.root.log|, s.root.pc, w, s.workers[w]);
    OthersKeep(prog, jitter, s, w, WorkerAdvances(prog, s.now, s.workers[w]));
  }

  /** Only the worker the root waits for is answering, and it is in time. */
  lemma AnsweringIsAwaited(prog: Program, jitter: nat, s: State, w: nat)
    requires Inv(prog, jitter, s) && IsWorker(prog, s, w) && s.workers[w].pc.WReply?
    ensures s.root.pc.RWait? && s.root.pc.i == w && s.now <= s.root.pc.deadline
    ensures Answering(|s.root.log|, s.root.pc.deadline, s.now, jitter, s.workers[w])
  {
    assert WorkerOk(prog, jitter, s.now, |s.root.log|, s.root.pc, w, s.workers[w]);
  }

  /** Only the worker the root reads from is sending. */
  lemma SendingIsRead(prog: Program, jitter: nat, s: State, w: nat)
    requires Inv(prog, jitter, s) && IsWorker(prog, s, w) && s.workers[w].pc.WPut?
    requires |s.workers[w].log| < |prog.ops|
    requires s.workers[w].pc.j != prog.ops[|s.workers[w].log|].Bytes()
    ensures s.root.pc == RRecv(w, s.workers[w].pc.j) && s.root.pc.j < prog.ops[|s.root.log|].n
    ensures Given(prog, |s.root.log|, s.root.pc.j, w, s.workers[w]) && |s.workers[w].log| == |s.root.log|
  {
    assert WorkerOk(prog, jitter, s.now, |s.root.log|, s.root.pc, w, s.workers[w]);
  }

  /** The other workers do not see that the root goes from `pc` to `pc'`. */
  lemma OthersUnaware(prog: Program, jitter: nat, now: nat, k: nat, pc: RootPc, pc': RootPc, v: nat, other: Worker)
    requires RootPcOk(prog, k, pc) && RootPcOk(prog, k, pc') && v != prog.root
    requires (pc.RWait? && pc' == RSync(pc.i + 1)) || (pc.RRecv? && pc' == RRecv(pc.i, pc.j + 1))
    requires v != pc.i && WorkerOk(prog, jitter, now, k, pc, v, other)
    ensures WorkerOk(prog, jitter, now, k, pc', v, other)
  {
  }

  /** A worker's reply finds the root listening for it: DELAY_MS + jitter <= TIMEOUT_MS. */
  lemma WorkerReplyKeeps(prog: Program, jitter: nat, s: State, w: nat)
    requires Inv(prog, jitter, s) && Enabled(prog, jitter, s, WorkerStep(w))
    requires s.workers[w].pc.WReply?
    ensures Inv(prog, jitter, Apply(prog, jitter, s, WorkerStep(w)))
    ensures WorkerPuts(prog, s, w).taken && s.root.pc.RWait? && s.root.pc.i == w
    ensures s.now <= s.root.pc.deadline
  {
    AnsweringIsAwaited(prog, jitter, s, w);
    var me := WorkerAdvances(prog, s.now, s.workers[w]);
    var s' := Apply(prog, jitter, s, WorkerStep(w));
    assert s' == State(s.now, s.root.(pc := RSync(w + 1)), s.workers[w := me]);
    assert Synced(prog, |s.root.log|, w, me);
    forall v: nat | IsWorker(prog, s', v)
      ensures LogOk(prog, v, s'.workers[v].log)
      ensures WorkerOk(prog, jitter, s'.now, |s'.root.log|, s'.root.pc, v, s'.workers[v])
    {
      assert IsWorker(prog, s, v);
      if v != w {
        OthersUnaware(prog, jitter, s.now, |s.root.log|, s.root.pc, s'.root.pc, v, s.workers[v]);
      }
    }
  }

  /** One more byte of block `i` is in. */
  lemma FilledByte(prog: Program, k: nat, i: nat, j: nat, blocks: seq<seq<byte>>, blocks': seq<seq<byte>>)
    requires k < |prog.ops| && prog.ops[k].Gather? && j < prog.ops[k].n && i < prog.size && i != prog.root
    requires Filled(prog, k, i, j, blocks)
    requires blocks' == blocks[i := blocks[i][j := prog.data(i, LogOf(prog, i, k), j)]]
    ensures Filled(prog, k, i, j + 1, blocks')
  {
    var all := Slice(prog, i, LogOf(prog, i, k), 0, prog.ops[k].n);
    assert all[..j + 1] == all[..j] + [all[j]];
    assert blocks'[i][..j + 1] == blocks[i][..j] + [all[j]];
  }

  /** Each gathered byte is taken into its place; only the worker being read sends. */
  lemma WorkerDataKeeps(prog: Program, jitter: nat, s: State, w: nat)
    requires Inv(prog, jitter, s) && Enabled(prog, jitter, s, WorkerStep(w))
    requires s.workers[w].pc.WPut? && WorkerPuts(prog, s, w).Put?
    ensures Inv(prog, jitter, Apply(prog, jitter, s, WorkerStep(w)))
    ensures WorkerPuts(prog, s, w).taken
    ensures s.root.pc == RRecv(w, s.workers[w].pc.j)
    ensures |s.workers[w].log| == |s.root.log|
  {
    hide Slice, StaleBlocks, Result, LogOf;
    SendingIsRead(prog, jitter, s, w);
    var s' := Apply(prog, jitter, s, WorkerStep(w));
    var j, k := s.root.pc.j, |s.root.log|;
    FilledByte(prog, k, w, j, s.root.blocks, s'.root.blocks);
    forall v: nat | IsWorker(prog, s', v)
      ensures LogOk(prog, v, s'.workers[v].log)
      ensures WorkerOk(prog, jitter, s'.now, k, s'.root.pc, v, s'.workers[v])
    {
      assert IsWorker(prog, s, v);
      if v != w {
        OthersUnaware(prog, jitter, s.now, k, s.root.pc, s'.root.pc, v, s.workers[v]);
      }
    }
  }

  // ---------------------------------------------------------------- all runs

  lemma StepKeeps(prog: Program, jitter: nat, s: State, a: Action)
    requires Inv(prog, jitter, s) && Enabled(prog, jitter, s, a)
    ensures Inv(prog, jitter, Apply(prog, jitter, s, a))
  {
    match a
    case Tick => TickKeeps(prog, jitter, s);
    case Timeout => TimeoutKeeps(prog, jitter, s);
    case RootStep => RootStepKeeps(prog, jitter, s);
    case WorkerStep(w) =>
      if s.workers[w].pc.WReply? {
        WorkerReplyKeeps(prog, jitter, s, w);
      } else if WorkerPuts(prog, s, w).Silent? {
        WorkerSilentKeeps(prog, jitter, s, w);
      } else {
        WorkerDataKeeps(prog, jitter, s, w);
      }
  }

  lemma {:induction false} Reachable(prog: Program, jitter: nat, start: nat, run: seq<State>, acts: seq<Action>, t: nat)
    requires prog.Valid() && DELAY_MS + jitter <= TIMEOUT_MS
    requires IsRun(prog, jitter, start, run, acts) && t <= |acts|
    ensures Inv(prog, jitter, run[t])
  {
    if t == 0 {
      InitHolds(prog, jitter, start);
    } else {
      Reachable(prog, jitter, start, run, acts, t - 1);
      StepKeeps(prog, jitter, run[t - 1], acts[t - 1]);
    }
  }

  /** In every reachable state each rank has received, in every collective it has completed, exactly
      what the atomic collective gives it. */
  lemma RunAgreesWithAtomic(prog: Program, jitter: nat, start: nat, run: seq<State>, acts: seq<Action>, t: nat)
    requires prog.Valid() && DELAY_MS + jitter <= TIMEOUT_MS
    requires IsRun(prog, jitter, start, run, acts) && t <= |acts|
    ensures LogOk(prog, prog.root, run[t].root.log)
    ensures forall w: nat :: IsWorker(prog, run[t], w) ==> LogOk(prog, w, run[t].workers[w].log)
  {
    Reachable(prog, jitter, start, run, acts, t);
  }

  /** Every data byte, signal and reply is taken, at the position of the same collective it was sent
      for; a SYNC is taken by nobody but a worker waiting for one. */
  ghost predicate Delivered(prog: Program, s: State, e: Event) {
    match e
    case Silent => true
    case Put(from, to, kind, b, taken) =>
      if from == prog.root then
        && IsWorker(prog, s, to)
        && match kind
           case Sync => taken ==> s.workers[to].pc == WSync
           case Signal => taken && s.workers[to].pc == WSignal && |s.workers[to].log| == |s.root.log|
           case Data => && taken && s.root.pc.RSend? && s.root.pc.i == to
                        && s.workers[to].pc == WRecv(s.root.pc.j) && |s.workers[to].log| == |s.root.log|
      else
        && IsWorker(prog, s, from) && to == prog.root && taken
        && match kind
           case Sync => s.root.pc.RWait? && s.root.pc.i == from && s.now <= s.root.pc.deadline
           case Signal => false
           case Data => && s.workers[from].pc.WPut? && s.root.pc == RRecv(from, s.workers[from].pc.j)
                        && |s.workers[from].log| == |s.root.log|
  }

  lemma NoByteLostOrConfused(prog: Program, jitter: nat, start: nat, run: seq<State>, acts: seq<Action>, t: nat)
    requires prog.Valid() && DELAY_MS + jitter <= TIMEOUT_MS
    requires IsRun(prog, jitter, start, run, acts) && t < |acts|
    ensures Delivered(prog, run[t], EventOf(prog, jitter, run[t], acts[t]))
  {
    var s := run[t];
    Reachable(prog, jitter, start, run, acts, t);
    match acts[t]
    case Tick =>
    case Timeout =>
    case RootStep =>
      var e := RootPuts(prog, s);
      if e.Put? {
        match s.root.pc {
          case RSync(_) => RootSyncKeeps(prog, jitter, s);
          case RSend(_, _) => RootDataKeeps(prog, jitter, s);
          case RSignal(_) => RootSignalKeeps(prog, jitter, s); assert IsWorker(prog, s, e.to);
          case _ =>
        }
      }
    case WorkerStep(w) =>
      if s.workers[w].pc.WReply? {
        WorkerReplyKeeps(prog, jitter, s, w);
      } else if WorkerPuts(prog, s, w).Put? {
        WorkerDataKeeps(prog, jitter, s, w);
      }
  }

  /** The worker has entered the handshake of collective `k`, and answered it. */
  ghost predicate HasAnswered(k: nat, w: Worker) {
    |w.log| > k || (|w.log| == k && w.pc != WIdle && w.pc != WSync && !w.pc.WReply?)
  }

  ghost predicate PastSync(pc: RootPc) {
    pc.RSend? || pc.RSignal? || pc.RRecv? || pc.RDone?
  }

  /** Root and workers stay within one collective of each other, the root leaves a handshake only
      after every worker has entered and answered it, and a worker that is about to send gathered
      data is the one whose next byte the root is reading. */
  lemma RanksStayTogether(prog: Program, jitter: nat, start: nat, run: seq<State>, acts: seq<Action>, t: nat, w: nat)
    requires prog.Valid() && DELAY_MS + jitter <= TIMEOUT_MS
    requires IsRun(prog, jitter, start, run, acts) && t <= |acts|
    requires IsWorker(prog, run[t], w)
    ensures var s, me := run[t], run[t].workers[w];
      && |s.root.log| <= |me.log| + 1 && |me.log| <= |s.root.log| + 1
      && (PastSync(s.root.pc) ==> HasAnswered(|s.root.log|, me))
      && (me.pc != WIdle ==> |me.log| < |prog.ops|)
      && (me.pc.WPut? ==> (me.pc.j < prog.ops[|me.log|].Bytes() ==> s.root.pc == RRecv(w, me.pc.j)))
  {
    hide Slice, StaleBlocks, Result, LogOf, Enabled, Apply, Init;
    Reachable(prog, jitter, start, run, acts, t);
  }

  // ---------------------------------------------------------------- the bound on the reply is exact

  /** In every run of every program each byte that matters is taken. */
  ghost predicate NothingLost(jitter: nat) {
    forall prog: Program, start: nat, run: seq<State>, acts: seq<Action>, t: nat ::
      prog.Valid() && IsRun(prog, jitter, start, run, acts) && t < |acts| ==>
        Delivered(prog, run[t], EventOf(prog, jitter, run[t], acts[t]))
  }

  /** One barrier between a root and one worker. */
  function TwoRanks(): Program {
    Program(2, 0, [Barrier], (rank, log, off) => 0, (log, i, off) => 0)
  }

  /** A schedule in which the worker answers later than the root is prepared to wait. */
  function LateAction(t: nat): Action {
    if t == 1 || t == TIMEOUT_MS + 6 then WorkerStep(1)
    else if t < 4 then RootStep
    else if t < TIMEOUT_MS + 5 then Tick
    else Timeout
  }

  function LateState(t: nat): State {
    var idle := Worker([], WIdle, []);
    var asked := Worker([], WReply(DELAY_MS), []);
    if t == 0 then Init(TwoRanks(), 0)
    else if t == 1 then State(0, Root([], RSync(0), []), [idle, idle])
    else if t == 2 then State(0, Root([], RSync(0), []), [idle, idle.(pc := WSync)])
    else if t == 3 then State(0, Root([], RSync(1), []), [idle, idle.(pc := WSync)])
    else if t < TIMEOUT_MS + 6 then State(t - 4, Root([], RWait(1, TIMEOUT_MS), []), [idle, asked])
    else if t == TIMEOUT_MS + 6 then State(TIMEOUT_MS + 1, Root([], RSync(1), []), [idle, asked])
    else State(TIMEOUT_MS + 1, Root([], RSync(1), []), [idle, asked.(pc := WDone)])
  }

  lemma LateStep(jitter: nat, t: nat)
    requires DELAY_MS + jitter > TIMEOUT_MS && t <= TIMEOUT_MS + 6
    ensures Enabled(TwoRanks(), jitter, LateState(t), LateAction(t))
    ensures LateState(t + 1) == Apply(TwoRanks(), jitter, LateState(t), LateAction(t))
  {
    var s := LateState(t);
    assert |s.workers| == 2;
    assert TwoRanks().ops[0] == Barrier;
  }

  /** Replies are never lost if and only if a worker answers within TIMEOUT_MS. */
  lemma NothingLostIff(jitter: nat)
    ensures NothingLost(jitter) <==> DELAY_MS + jitter <= TIMEOUT_MS
  {
    if DELAY_MS + jitter <= TIMEOUT_MS {
      forall prog: Program, start: nat, run: seq<State>, acts: seq<Action>, t: nat
        | prog.Valid() && IsRun(prog, jitter, start, run, acts) && t < |acts|
        ensures Delivered(prog, run[t], EventOf(prog, jitter, run[t], acts[t]))
      {
        NoByteLostOrConfused(prog, jitter, start, run, acts, t);
      }
    } else {
      var prog, last := TwoRanks(), TIMEOUT_MS + 6;
      var acts := seq(last + 1, t requires 0 <= t <= last => LateAction(t));
      var run := seq(last + 2, t requires 0 <= t <= last + 1 => LateState(t));
      forall t | 0 <= t < |acts|
        ensures Enabled(prog, jitter, run[t], acts[t]) && run[t + 1] == Apply(prog, jitter, run[t], acts[t])
      {
        LateStep(jitter, t);
      }
      assert IsRun(prog, jitter, 0, run, acts);
      assert !Delivered(prog, run[last], EventOf(prog, jitter, run[last], acts[last]));
    }
  }
}
