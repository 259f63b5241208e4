/** The lock-free circular queue with one producer (an interrupt handler) and one consumer, interleaved at
    single loads and stores of `head`, `tail` and the buffer. */
module Spsc {
  import opened Modular

  /** What the producer does next while it pushes `x`. */
  datatype Producer<E> =
    | PIdle
    | PFullHead(x: E)            // load head for the test for full
    | PFullTail(x: E, h: nat)    // load tail and test
    | PHead(x: E)                // load head
    | PStore(x: E, h: nat)       // store the element
    | PAdvance(x: E, h: nat)     // store head

  /** What the consumer does next while it pops. `seen` records how many elements had been pushed when
      head was loaded; the code does not use it. */
  datatype Consumer<E> =
    | CIdle
    | CEmptyHead
    | CEmptyTail(h: nat, seen: nat)
    | CTail
    | CLoad(t: nat)
    | CAdvance(t: nat, e: E)

  datatype State<E> = State(
    buf: seq<E>, head: nat, tail: nat,
    producer: Producer<E>, consumer: Consumer<E>,
    pushed: seq<E>, popped: seq<E>)

  datatype Action<E> = Push(x: E) | Pop | Produce | Consume

  /** What a call returns, if the action ends one. */
  datatype Return<E> = None | PushReturns(ok: bool) | PopReturns(ok: bool)

  ghost predicate Enabled<E>(s: State<E>, a: Action<E>) {
    match a
    case Push(_) => s.producer.PIdle?
    case Pop => s.consumer.CIdle?
    case Produce => !s.producer.PIdle? && (s.producer.PStore? ==> s.producer.h < |s.buf|) && |s.buf| > 0
    case Consume => !s.consumer.CIdle? && (s.consumer.CLoad? ==> s.consumer.t < |s.buf|) && |s.buf| > 0
  }

  ghost function Apply<E>(s: State<E>, a: Action<E>): State<E>
    requires Enabled(s, a)
  {
    match a
    case Push(x) => s.(producer := PFullHead(x))
    case Pop => s.(consumer := CEmptyHead)
    case Produce =>
      (match s.producer
       case PIdle => s
       case PFullHead(x) => s.(producer := PFullTail(x, s.head))
       case PFullTail(x, h) => s.(producer := if (h + 1) % |s.buf| == s.tail then PIdle else PHead(x))
       case PHead(x) => s.(producer := PStore(x, s.head))
       case PStore(x, h) => s.(buf := s.buf[h := x], producer := PAdvance(x, h))
       case PAdvance(x, h) => s.(head := (h + 1) % |s.buf|, producer := PIdle, pushed := s.pushed + [x]))
    case Consume =>
      match s.consumer
      case CIdle => s
      case CEmptyHead => s.(consumer := CEmptyTail(s.head, |s.pushed|))
      case CEmptyTail(h, _) => s.(consumer := if h == s.tail then CIdle else CTail)
      case CTail => s.(consumer := CLoad(s.tail))
      case CLoad(t) => s.(consumer := CAdvance(t, s.buf[t]))
      case CAdvance(t, e) => s.(tail := (t + 1) % |s.buf|, consumer := CIdle, popped := s.popped + [e])
  }

  ghost function Returns<E>(s: State<E>, a: Action<E>): Return<E>
    requires Enabled(s, a)
  {
    if a.Produce? && s.producer.PFullTail? && (s.producer.h + 1) % |s.buf| == s.tail then PushReturns(false)
    else if a.Produce? && s.producer.PAdvance? then PushReturns(true)
    else if a.Consume? && s.consumer.CEmptyTail? && s.consumer.h == s.tail then PopReturns(false)
    else if a.Consume? && s.consumer.CAdvance? then PopReturns(true)
    else None
  }

  ghost predicate IsRun<E>(n: nat, run: seq<State<E>>, acts: seq<Action<E>>) {
    && |run| == |acts| + 1
    && |run[0].buf| == n && run[0] == State(run[0].buf, 0, 0, PIdle, CIdle, [], [])
    && forall t :: 0 <= t < |acts| ==> Enabled(run[t], acts[t]) && run[t + 1] == Apply(run[t], acts[t])
  }

  // ---------------------------------------------------------------- the invariant

  /** The elements pushed and not yet popped are in their slots, and there are at most n - 1. */
  ghost predicate Queue<E>(s: State<E>) {
    var n := |s.buf|;
    && n >= 2
    && s.head == |s.pushed| % n && s.tail == |s.popped| % n
    && |s.popped| <= |s.pushed| < |s.popped| + n
    && s.popped == s.pushed[..|s.popped|]
    && forall i :: |s.popped| <= i < |s.pushed| ==> s.buf[i % n] == s.pushed[i]
  }

  ghost predicate HasRoom<E>(s: State<E>) {
    |s.pushed| + 1 < |s.popped| + |s.buf|
  }

  ghost predicate ProducerOk<E>(s: State<E>) {
    match s.producer
    case PIdle => true
    case PFullHead(_) => true
    case PFullTail(_, h) => h == s.head
    case PHead(_) => HasRoom(s)
    case PStore(_, h) => h == s.head && HasRoom(s)
    case PAdvance(x, h) => h == s.head && HasRoom(s) && h < |s.buf| && s.buf[h] == x
  }

  ghost predicate ConsumerOk<E>(s: State<E>) {
    match s.consumer
    case CIdle => true
    case CEmptyHead => true
    case CEmptyTail(h, seen) =>
      |s.popped| <= seen <= |s.pushed| && |s.buf| > 0 && h == seen % |s.buf|
    case CTail => |s.popped| < |s.pushed|
    case CLoad(t) => t == s.tail && |s.popped| < |s.pushed|
    case CAdvance(t, e) => t == s.tail && |s.popped| < |s.pushed| && e == s.pushed[|s.popped|]
  }

  ghost predicate Inv<E>(s: State<E>) {
    Queue(s) && ProducerOk(s) && ConsumerOk(s)
  }

  /** The slot being written is not one that holds an element. */
  lemma SlotIsFree<E>(s: State<E>, i: nat)
    requires Queue(s) && |s.popped| <= i < |s.pushed|
    ensures i % |s.buf| != s.head
  {
    Distinct(i, |s.pushed|, |s.buf|);
  }

  /** The test for full is exact. */
  lemma FullIff<E>(s: State<E>)
    requires Queue(s)
    ensures (s.head + 1) % |s.buf| == s.tail <==> !HasRoom(s)
  {
    var n := |s.buf|;
    Next(|s.pushed|, n);
    if HasRoom(s) {
      Distinct(|s.popped|, |s.pushed| + 1, n);
    } else {
      SameSlot(|s.popped|, n);
      assert |s.pushed| + 1 == |s.popped| + n;
    }
  }

  lemma ProduceKeeps<E>(s: State<E>)
    requires Inv(s) && Enabled(s, Produce)
    ensures Inv(Apply(s, Produce))
  {
    var n := |s.buf|;
    match s.producer
    case PIdle =>
    case PFullHead(_) =>
    case PFullTail(_, _) => FullIff(s);
    case PHead(_) =>
    case PStore(x, h) =>
      forall i | |s.popped| <= i < |s.pushed| ensures s.buf[h := x][i % n] == s.pushed[i] { SlotIsFree(s, i); }
    case PAdvance(_, _) => Next(|s.pushed|, n);
  }

  lemma ConsumeKeeps<E>(s: State<E>)
    requires Inv(s) && Enabled(s, Consume)
    ensures Inv(Apply(s, Consume))
  {
    match s.consumer
    case CIdle =>
    case CEmptyHead =>
    case CEmptyTail(_, _) =>
    case CTail =>
    case CLoad(_) =>
    case CAdvance(_, _) =>
      Next(|s.popped|, |s.buf|);
      assert s.pushed[..|s.popped| + 1] == s.pushed[..|s.popped|] + [s.pushed[|s.popped|]];
  }

  lemma {:induction false} Reachable<E>(n: nat, run: seq<State<E>>, acts: seq<Action<E>>, t: nat)
    requires n >= 2 && IsRun(n, run, acts) && t <= |acts|
    ensures Inv(run[t]) && |run[t].buf| == n
  {
    if t > 0 {
      Reachable(n, run, acts, t - 1);
      var s := run[t - 1];
      match acts[t - 1]
      case Push(_) =>
      case Pop =>
      case Produce => ProduceKeeps(s);
      case Consume => ConsumeKeeps(s);
    }
  }

  // ---------------------------------------------------------------- what users rely on

  /** The elements in the queue, read from the slots. */
  function Contents<E>(s: State<E>): seq<E>
    requires |s.buf| > 0 && |s.popped| <= |s.pushed|
  {
    seq(|s.pushed| - |s.popped|, i requires 0 <= i < |s.pushed| - |s.popped| => s.buf[(|s.popped| + i) % |s.buf|])
  }

  /** In every run, whatever the interleaving: pops come out in the order of the pushes, nothing is lost
      or duplicated, the slots hold exactly what is in between, and there are at most n - 1 elements. */
  lemma FifoUnderInterleaving<E>(n: nat, run: seq<State<E>>, acts: seq<Action<E>>, t: nat)
    requires n >= 2 && IsRun(n, run, acts) && t <= |acts|
    ensures var s := run[t];
      && |s.buf| == n && |s.popped| <= |s.pushed|
      && s.popped <= s.pushed
      && s.pushed == s.popped + Contents(s)
      && |Contents(s)| <= n - 1
  {
    Reachable(n, run, acts, t);
  }

  /** A push fails only when the queue is full at that moment. A pop fails only if the queue was empty when
      it loaded head, which is when it recorded `seen`. */
  lemma FailuresAreHonest<E>(n: nat, run: seq<State<E>>, acts: seq<Action<E>>, t: nat)
    requires n >= 2 && IsRun(n, run, acts) && t < |acts|
    ensures var s, r := run[t], Returns(run[t], acts[t]);
      && (acts[t].Produce? && s.producer.PFullTail? ==>
            (r == PushReturns(false) <==> |s.pushed| - |s.popped| == n - 1))
      && (acts[t].Consume? && s.consumer.CEmptyTail? ==>
            (r == PopReturns(false) <==> s.consumer.seen == |s.popped|))
  {
    var s := run[t];
    Reachable(n, run, acts, t);
    FullIff(s);
    if s.consumer.CEmptyTail? && s.consumer.seen > |s.popped| {
      Distinct(|s.popped|, s.consumer.seen, n);
    }
  }

  /** Every store to the buffer goes to a slot outside the live ones. */
  lemma StoresMissLiveSlots<E>(n: nat, run: seq<State<E>>, acts: seq<Action<E>>, t: nat, i: nat)
    requires n >= 2 && IsRun(n, run, acts) && t < |acts|
    requires acts[t].Produce? && run[t].producer.PStore?
    requires |run[t].popped| <= i < |run[t].pushed|
    ensures i % n != run[t].producer.h
    ensures |run[t + 1].buf| == n && run[t + 1].buf[i % n] == run[t].pushed[i]
  {
    Reachable(n, run, acts, t);
    SlotIsFree(run[t], i);
  }
}
