/** The bit-banged serial line: a sender that sets a pin on a schedule of cycles, and a receiver that
    samples it on its own clock. The level of the pin in every cycle is the sender's history. */
module Uart {
  import opened Bytes
  import opened Modular

  const CYCLES_PER_USEC := 700

  /** All times are in cycles of the sender, `n` of them per bit. The sender reads its counter in at most `read` cycles,
      and a pin it sets changes between `settle` and `write` cycles later. One operation of the receiver takes at most
      `slow`; from seeing the start bit to reading the counter it takes at least `quick`. By cycle `t` the receiver
      has counted `clock(t)` cycles of its own: within the time of one byte it gains or loses at most `drift`, but there
      is no bound on what it gains or loses in the long run. */
  datatype Timing = Timing(n: nat, read: nat, settle: nat, write: nat, quick: nat, slow: nat,
                           drift: nat, clock: nat -> nat)
  {
    /** The receiver's cycles by cycle `t` of the sender. */
    ghost function Mine(t: nat): nat {
      clock(t)
    }

    /** The longest time between two readings of the counter that the receiver compares. */
    function Span(): nat {
      10 * (n + 2 * slow) + drift
    }

    ghost predicate Monotone() {
      forall s: nat, t: nat :: s <= t ==> Mine(s) <= Mine(t)
    }

    ghost predicate Steady() {
      forall s: nat, t: nat :: s <= t <= s + Span() ==> t - s - drift <= Mine(t) - Mine(s) <= t - s + drift
    }

    /** How late an edge of the sender may be. */
    function Jitter(): nat {
      2 * read + write
    }

    /** The sender is done with an edge before the next one is due, and the counters do not pass a whole turn
        during a byte. */
    ghost predicate Valid() {
      && 1 <= read && settle <= write && 1 <= quick <= slow
      && Jitter() <= n
      && Span() + drift + Jitter() < WRAP && drift < Span()
      && Monotone() && Steady()
    }

    /** The receiver is neither ahead of the sender's latest edges nor, after five operations, behind the next, even
        if its clock is off by the drift of one byte. */
    ghost predicate KeepsUp() {
      Jitter() + drift <= quick + settle && write + 5 * slow + drift <= n
    }
  }

  /** The 32-bit counter of a clock that read `offset` at time 0. */
  function Counter(offset: nat, t: nat): nat {
    (offset + t) % WRAP
  }

  /** Elapsed time is right across a wrap of the counter. */
  lemma ElapsedAcrossWrap(offset: nat, s: nat, t: nat)
    requires s <= t < s + WRAP
    ensures Minus(Counter(offset, t), Counter(offset, s)) == t - s
  {
    var a, b := offset + t, offset + s;
    assert a % WRAP - b % WRAP == (t - s) - WRAP * (a / WRAP - b / WRAP);
    if a / WRAP == b / WRAP {
    } else {
      assert a / WRAP == b / WRAP + 1;
    }
  }

  function Pow2(i: nat): nat {
    if i == 0 then 1 else 2 * Pow2(i - 1)
  }

  /** Bit `i` of a byte, the lowest first. */
  function BitOf(b: byte, i: nat): bool
  {
    PowPositive(i);
    (b as int / Pow2(i)) % 2 == 1
  }

  /** b & mask, for a mask of one bit. */
  function Masked(b: byte, mask: nat): bool
    requires mask > 0
  {
    (b as int / mask) % 2 == 1
  }

  lemma PowPositive(i: nat)
    ensures Pow2(i) > 0
  {
  }

  /** The pin after the history: it idles high. */
  function Level(h: seq<bool>, t: nat): bool {
    if t < |h| then h[t] else true
  }

  ghost predicate Held(h: seq<bool>, from: nat, to: nat, v: bool) {
    forall t: nat :: from <= t < to ==> Level(h, t) == v
  }

  /** A byte on the line: sent on the schedule that starts at `s`, with the start bit seen from `fall`. */
  ghost predicate Framed(timing: Timing, h: seq<bool>, s: nat, fall: nat, b: byte) {
    && s + timing.settle <= fall <= s + timing.write
    && Held(h, fall, s + timing.n, false)
    && (forall i: nat :: i < 8 ==>
          Held(h, s + (i + 1) * timing.n + timing.Jitter(), s + (i + 2) * timing.n, BitOf(b, i)))
    && Held(h, s + 9 * timing.n + timing.Jitter(), s + 10 * timing.n, true)
  }

  // ---------------------------------------------------------------- the sender

  class Sender {
    const timing: Timing
    const offset: nat
    var now: nat
    var level: bool
    var hist: seq<bool>

    constructor (timing: Timing, offset: nat)
      requires timing.Valid()
      ensures this.timing == timing && this.offset == offset && now == 0 && level && hist == []
    {
      this.timing, this.offset := timing, offset;
      now, level, hist := 0, true, [];
    }

    ghost predicate Valid()
      reads this
    {
      timing.Valid() && |hist| == now
    }

    /** The history so far is kept, and the pin stayed at `v` since. */
    twostate predicate Extends(v: bool)
      reads this
    {
      && old(now) <= now && old(|hist|) == old(now) && |hist| == now
      && (forall t :: 0 <= t < old(now) ==> hist[t] == old(hist)[t])
      && (forall t :: old(now) <= t < now ==> hist[t] == v)
    }

    method Spend(d: nat)
      requires Valid()
      modifies this`now, this`hist
      ensures Valid() && now == old(now) + d && Extends(level)
    {
      var v := level;
      now := now + d;
      hist := hist + seq(d, _ => v);
    }

    method CycleRead() returns (c: nat)
      requires Valid()
      modifies this`now, this`hist
      ensures Valid() && old(now) < now <= old(now) + timing.read && Extends(level)
      ensures c == Counter(offset, now)
    {
      var d: nat :| 1 <= d <= timing.read;
      Spend(d);
      c := Counter(offset, now);
    }

    /** The new level shows from the time of return. */
    method SetPin(v: bool)
      requires Valid()
      modifies this
      ensures Valid() && old(now) + timing.settle <= now <= old(now) + timing.write
      ensures Extends(old(level)) && level == v
    {
      var d: nat :| timing.settle <= d <= timing.write;
      Spend(d);
      level := v;
    }

    /** Spins until `n` cycles after the counter read `start`, which it did at time `s`. */
    method DelayCycles(start: nat, n: nat, ghost s: nat)
      requires Valid() && start == Counter(offset, s) && s <= now
      requires n + timing.read < WRAP && now + timing.read < s + WRAP
      modifies this`now, this`hist
      ensures Valid() && Extends(level)
      ensures s + n <= now
      ensures now <= old(now) + timing.read || now < s + n + timing.read
    {
      var c := CycleRead();
      ElapsedAcrossWrap(offset, s, now);
      while Minus(c, start) < n
        invariant Valid() && Extends(level)
        invariant now <= old(now) + timing.read || now < s + n + timing.read
        invariant s <= now < s + WRAP && Minus(c, start) == now - s
        decreases s + n - now
      {
        c := CycleRead();
        ElapsedAcrossWrap(offset, s, now);
      }
    }

    /** Waits for `n` cycles after `start` and then sets the pin. */
    method SetAt(start: nat, n: nat, v: bool, ghost s: nat)
      requires Valid() && start == Counter(offset, s) && s <= now
      requires n + timing.read < WRAP && now + timing.read < s + WRAP
      modifies this
      ensures Valid() && Extends(old(level)) && level == v
      ensures s + n <= now
      ensures now <= old(now) + timing.read + timing.write || now < s + n + timing.read + timing.write
    {
      DelayCycles(start, n, s);
      SetPin(v);
    }

    /** The start bit: `start` is the counter at `s`, `fall` the falling edge. */
    method StartBit() returns (start: nat, ghost s: nat, ghost fall: nat)
      requires Valid() && level
      modifies this
      ensures Valid() && !level && old(now) < s <= old(now) + timing.read
      ensures s + timing.settle <= fall <= s + timing.write
      ensures start == Counter(offset, s)
      ensures s + timing.n <= now < s + timing.n + timing.read
      ensures Grows(old(hist), hist, fall, true) && (forall t :: fall <= t < now ==> !hist[t])
    {
      start := CycleRead();
      s := now;
      SetPin(false);
      fall := now;
      DelayCycles(start, timing.n, s);
    }

    /** The eight data bits, on the schedule that started at `s`. */
    method DataBits(b: byte, start: nat, ghost s: nat)
      requires Valid() && !level && start == Counter(offset, s) && s + timing.n <= now < s + timing.n + timing.read
      modifies this
      ensures Valid() && Grows(old(hist), hist, old(now), false)
      ensures s + 8 * timing.n <= now < s + 8 * timing.n + timing.Jitter()
      ensures SentBits(timing, hist, s, b, 8) && level == BitOf(b, 7)
    {
      hide SentBits, BitOf, Pow2, Shown;
      var mask, i := 1, 0;
      NoBits(timing, hist, s, b);
      FirstMask();
      LastShown(b);
      while i < 8
        invariant 0 <= i <= 8 && mask == if i < 8 then Pow2(i) else 0
        invariant Valid() && Grows(old(hist), hist, old(now), false)
        invariant s + After(i, timing.n) <= now
        invariant now < s + After(i, timing.n) + (if i == 0 then timing.read else timing.Jitter())
        invariant SentBits(timing, hist, s, b, i) && level == Shown(b, i)
      {
        DataBit(b, mask, i, start, s);
        MaskDoubles(i);
        mask := mask * 2 % 256;
        i := i + 1;
      }
    }

    method DataBit(b: byte, mask: nat, i: nat, start: nat, ghost s: nat)
      requires Valid() && i < 8 && mask == Pow2(i) && start == Counter(offset, s)
      requires s + After(i, timing.n) <= now
      requires now < s + After(i, timing.n) + (if i == 0 then timing.read else timing.Jitter())
      requires SentBits(timing, hist, s, b, i) && level == Shown(b, i)
      modifies this
      ensures Valid() && Grows(old(hist), hist, old(now), false)
      ensures s + After(i + 1, timing.n) <= now < s + After(i + 1, timing.n) + timing.Jitter()
      ensures SentBits(timing, hist, s, b, i + 1) && level == Shown(b, i + 1)
    {
      hide SentBits, BitOf, Pow2, Counter, Masked, After;
      Schedule(i, timing.n);
      BitValue(b, i);
      SetAt(start, timing.n * (i + 1), Masked(b, mask), s);
      BitShown(timing, old(hist), hist, s, b, i);
    }

    /** Puts one byte; `s` is the start of its schedule and `fall` the falling edge of its start bit. */
    method Put8(b: byte) returns (ghost s: nat, ghost fall: nat)
      requires Valid() && level
      modifies this
      ensures Valid() && level && Grows(old(hist), hist, fall, true)
      ensures old(now) < s <= old(now) + timing.read && Framed(timing, hist, s, fall, b)
      ensures s + 10 * timing.n <= now < s + 10 * timing.n + timing.Jitter()
      ensures Held(hist, s + 9 * timing.n + timing.Jitter(), now, true)
    {
      hide SentBits, BitOf, Framed, Timing.Steady, Timing.Monotone;
      var start: nat;
      start, s, fall := StartBit();
      ghost var h1 := hist;
      DataBits(b, start, s);
      ghost var h2 := hist;
      SetAt(start, timing.n * 9, true, s);
      ghost var h3 := hist;
      DelayCycles(start, timing.n * 10, s);
      FrameComplete(timing, h1, h2, h3, hist, s, fall, b);
    }

    /** The send loop: byte `k` is put on the schedule that starts at `starts[k]`. */
    method Send(buffer: seq<byte>) returns (ghost starts: seq<nat>, ghost falls: seq<nat>)
      requires Valid() && level
      modifies this
      ensures Valid() && level
      ensures Transmitted(timing, hist, old(now), starts, falls, buffer)
      ensures Dense(timing, old(now), starts)
      ensures Continues(old(hist), hist)
    {
      hide Framed, Transmitted, Dense, Held, Grows, Continues, Timing.Valid;
      starts, falls := [], [];
      NothingSent(timing, hist, now);
      var i := 0;
      while i < |buffer|
        invariant 0 <= i <= |buffer| && |starts| == |falls| == i
        invariant Valid() && level && old(now) <= now
        invariant Transmitted(timing, hist, old(now), starts, falls, buffer[..i])
        invariant Dense(timing, old(now), starts)
        invariant if i == 0 then now == old(now)
                  else starts[i - 1] + 10 * timing.n <= now < starts[i - 1] + 10 * timing.n + timing.Jitter()
        invariant Held(hist, Idle(timing, old(now), starts, i), now, true)
        invariant Continues(old(hist), hist)
      {
        ghost var h := hist;
        ghost var s, fall := Put8(buffer[i]);
        StillContinues(old(hist), h, hist, fall);
        FallInside(timing, hist, s, fall, buffer[i]);
        NextByte(timing, h, hist, old(now), starts, falls, buffer[..i], s, fall, buffer[i]);
        DenseNext(timing, old(now), starts, s);
        assert buffer[..i + 1] == buffer[..i] + [buffer[i]];
        starts, falls := starts + [s], falls + [fall];
        i := i + 1;
      }
      assert buffer[..i] == buffer;
    }
  }

  ghost predicate Continues(h: seq<bool>, h': seq<bool>) {
    h <= h'
  }

  lemma StillContinues(h0: seq<bool>, h: seq<bool>, h': seq<bool>, to: nat)
    requires Continues(h0, h) && Grows(h, h', to, true)
    ensures Continues(h0, h')
  {
  }

  /** The sender wastes no time between bytes. */
  ghost predicate Dense(timing: Timing, from: nat, starts: seq<nat>) {
    forall k: nat :: k < |starts| ==> starts[k] <= Latest(timing, from, starts, k)
  }

  /** The latest start of byte `k`. */
  function Latest(timing: Timing, from: nat, starts: seq<nat>, k: nat): nat
    requires k <= |starts|
  {
    (if k == 0 then from else starts[k - 1] + 10 * timing.n + timing.Jitter()) + timing.read
  }

  lemma DenseNext(timing: Timing, from: nat, starts: seq<nat>, s: nat)
    requires Dense(timing, from, starts) && s <= Latest(timing, from, starts, |starts|)
    ensures Dense(timing, from, starts + [s])
  {
    hide Latest;
    var more := starts + [s];
    forall k: nat | k < |more|
      ensures more[k] <= Latest(timing, from, more, k)
    {
      SameLatest(timing, from, starts, s, k);
      if k < |starts| {
        assert more[k] == starts[k];
      }
    }
  }

  lemma SameLatest(timing: Timing, from: nat, starts: seq<nat>, s: nat, k: nat)
    requires k <= |starts|
    ensures Latest(timing, from, starts + [s], k) == Latest(timing, from, starts, k)
  {
  }

  /** From when the line is known to be idle before byte `k`. */
  ghost function Idle(timing: Timing, from: nat, starts: seq<nat>, k: nat): nat
    requires k <= |starts|
  {
    if k == 0 then from else starts[k - 1] + 9 * timing.n + timing.Jitter()
  }

  /** The bytes are on the line one after the other, and it is high between them. */
  ghost predicate Transmitted(timing: Timing, h: seq<bool>, from: nat, starts: seq<nat>, falls: seq<nat>,
                              bytes: seq<byte>)
  {
    && |starts| == |falls| == |bytes|
    && (forall k: nat :: k < |bytes| ==> ByteAt(timing, h, from, starts, falls, k, bytes[k]))
  }

  /** Everything in `h` is kept and the pin stays at `v` up to `to`. */
  ghost predicate Grows(h: seq<bool>, h': seq<bool>, to: nat, v: bool) {
    && |h| <= |h'| && to <= |h'|
    && (forall t :: 0 <= t < |h| ==> h'[t] == h[t])
    && (forall t :: |h| <= t < to ==> h'[t] == v)
  }

  /** When the pin was last set before data bit `i`. */
  function After(i: nat, n: nat): nat {
    if i == 0 then n else i * n
  }

  /** The level before data bit `i`: the start bit or the data bit before. */
  function Shown(b: byte, i: nat): bool {
    i > 0 && BitOf(b, i - 1)
  }

  /** The first `count` data bits are on the line, the last of them perhaps not yet for its full time. */
  ghost predicate SentBits(timing: Timing, h: seq<bool>, s: nat, b: byte, count: nat) {
    forall k: nat, t: nat ::
      k < count && s + (k + 1) * timing.n + timing.Jitter() <= t < s + (k + 2) * timing.n && t < |h| ==>
        h[t] == BitOf(b, k)
  }

  lemma FirstMask()
    ensures Pow2(0) == 1
  {
  }

  lemma MaskDoubles(i: nat)
    requires i < 8
    ensures Pow2(i) * 2 % 256 == if i + 1 < 8 then Pow2(i + 1) else 0
  {
    if i == 0 {} else if i == 1 {} else if i == 2 {} else if i == 3 {}
    else if i == 4 {} else if i == 5 {} else if i == 6 {} else {}
  }

  lemma LastShown(b: byte)
    ensures Shown(b, 8) == BitOf(b, 7) && !Shown(b, 0)
  {
  }

  lemma NoBits(timing: Timing, h: seq<bool>, s: nat, b: byte)
    ensures SentBits(timing, h, s, b, 0)
  {
  }

  lemma BitValue(b: byte, i: nat)
    ensures Pow2(i) > 0 && BitOf(b, i) == Masked(b, Pow2(i))
  {
    PowPositive(i);
  }

  lemma Scaled(i: nat, n: nat)
    requires i < 8
    ensures (i + 1) * n == i * n + n && (i + 1) * n <= 8 * n && n * (i + 1) == (i + 1) * n
  {
  }

  lemma Schedule(i: nat, n: nat)
    requires i < 8
    ensures After(i + 1, n) == n * (i + 1) == (i + 1) * n
    ensures n * (i + 1) == (if i == 0 then After(i, n) else After(i, n) + n) && n * (i + 1) <= 8 * n
  {
    Scaled(i, n);
  }

  lemma Below(k: nat, i: nat, n: nat)
    requires k <= i
    ensures k * n <= i * n
  {
  }

  lemma BitShown(timing: Timing, h: seq<bool>, h': seq<bool>, s: nat, b: byte, i: nat)
    requires SentBits(timing, h, s, b, i) && s + After(i, timing.n) <= |h|
    requires Grows(h, h', |h'|, Shown(b, i))
    requires s + (i + 1) * timing.n <= |h'| <= s + (i + 1) * timing.n + timing.Jitter()
    ensures SentBits(timing, h', s, b, i + 1)
  {
    forall k: nat, t: nat
      | k < i + 1 && s + (k + 1) * timing.n + timing.Jitter() <= t < s + (k + 2) * timing.n && t < |h'|
      ensures h'[t] == BitOf(b, k)
    {
      if k + 2 <= i {
        Below(k + 2, i, timing.n);
      }
    }
  }

  lemma FrameComplete(timing: Timing, h1: seq<bool>, h2: seq<bool>, h3: seq<bool>, h4: seq<bool>,
                      s: nat, fall: nat, b: byte)
    requires timing.Valid() && s + timing.settle <= fall <= s + timing.write
    requires s + timing.n <= |h1| && (forall t :: fall <= t < s + timing.n ==> !h1[t])
    requires s + 8 * timing.n <= |h2| <= s + 8 * timing.n + timing.Jitter() && Grows(h1, h2, |h1|, false)
    requires SentBits(timing, h2, s, b, 8)
    requires Grows(h2, h3, |h3|, BitOf(b, 7)) && s + 9 * timing.n <= |h3| <= s + 9 * timing.n + timing.Jitter()
    requires Grows(h3, h4, |h4|, true) && s + 10 * timing.n <= |h4|
    ensures Framed(timing, h4, s, fall, b)
  {
    hide BitOf;
    forall i: nat, t: nat | i < 8 && s + (i + 1) * timing.n + timing.Jitter() <= t < s + (i + 2) * timing.n
      ensures Level(h4, t) == BitOf(b, i)
    {
      Below(i + 2, 9, timing.n);
      if i < 7 {
        Below(i + 2, 8, timing.n);
      }
    }
  }

  lemma NothingSent(timing: Timing, h: seq<bool>, from: nat)
    ensures Transmitted(timing, h, from, [], [], []) && Dense(timing, from, [])
    ensures Held(h, Idle(timing, from, [], 0), from, true) && Continues(h, h)
  {
  }

  /** What was on the line stays there. */
  lemma HeldKept(h: seq<bool>, h': seq<bool>, from: nat, to: nat, v: bool)
    requires Held(h, from, to, v) && to <= |h| && Grows(h, h', |h|, true)
    ensures Held(h', from, to, v)
  {
    forall t: nat | from <= t < to
      ensures Level(h', t) == v
    {
      assert Level(h, t) == v;
    }
  }

  lemma FramedKept(timing: Timing, h: seq<bool>, h': seq<bool>, s: nat, fall: nat, b: byte)
    requires timing.Valid() && Framed(timing, h, s, fall, b) && s + 10 * timing.n <= |h| && Grows(h, h', |h|, true)
    ensures Framed(timing, h', s, fall, b)
  {
    hide BitOf, Held, Grows;
    HeldKept(h, h', fall, s + timing.n, false);
    HeldKept(h, h', s + 9 * timing.n + timing.Jitter(), s + 10 * timing.n, true);
    forall i: nat | i < 8
      ensures Held(h', s + (i + 1) * timing.n + timing.Jitter(), s + (i + 2) * timing.n, BitOf(b, i))
    {
      Below(i + 2, 9, timing.n);
      HeldKept(h, h', s + (i + 1) * timing.n + timing.Jitter(), s + (i + 2) * timing.n, BitOf(b, i));
    }
  }

  /** Byte `k` of a transmission. */
  ghost predicate ByteAt(timing: Timing, h: seq<bool>, from: nat, starts: seq<nat>, falls: seq<nat>, k: nat, b: byte)
    requires k < |starts| && k < |falls|
  {
    && Framed(timing, h, starts[k], falls[k], b)
    && starts[k] + 10 * timing.n <= |h|
    && from < starts[k]
    && (k > 0 ==> starts[k - 1] + 10 * timing.n < starts[k])
    && Held(h, Idle(timing, from, starts, k), falls[k], true)
  }

  lemma ByteKept(timing: Timing, h: seq<bool>, h': seq<bool>, from: nat, starts: seq<nat>, falls: seq<nat>,
                 s: nat, fall: nat, k: nat, b: byte)
    requires timing.Valid() && k < |starts| == |falls| && ByteAt(timing, h, from, starts, falls, k, b)
    requires Grows(h, h', |h|, true)
    ensures ByteAt(timing, h', from, starts + [s], falls + [fall], k, b)
  {
    assert |h| <= |h'|;
    hide Held, Grows;
    FallInside(timing, h, starts[k], falls[k], b);
    FramedKept(timing, h, h', starts[k], falls[k], b);
    hide Framed;
    HeldKept(h, h', Idle(timing, from, starts, k), falls[k], true);
  }

  lemma IdleGrows(h: seq<bool>, h': seq<bool>, idle: nat, fall: nat)
    requires idle <= |h| <= fall && Held(h, idle, |h|, true) && Grows(h, h', fall, true)
    ensures Held(h', idle, fall, true) && Grows(h, h', |h|, true)
  {
    forall t: nat | idle <= t < fall
      ensures Level(h', t)
    {
      if t < |h| {
        assert Level(h, t);
      }
    }
  }

  lemma NextByte(timing: Timing, h: seq<bool>, h': seq<bool>, from: nat, starts: seq<nat>, falls: seq<nat>,
                 bytes: seq<byte>, s: nat, fall: nat, b: byte)
    requires timing.Valid() && Transmitted(timing, h, from, starts, falls, bytes)
    requires from <= |h| < s <= fall && Grows(h, h', fall, true)
    requires Framed(timing, h', s, fall, b) && s + 10 * timing.n <= |h'|
    requires |bytes| > 0 ==> |h| >= starts[|bytes| - 1] + 10 * timing.n
    requires Held(h, Idle(timing, from, starts, |bytes|), |h|, true)
    ensures Transmitted(timing, h', from, starts + [s], falls + [fall], bytes + [b])
  {
    hide Framed, Held, Grows;
    IdleGrows(h, h', Idle(timing, from, starts, |bytes|), fall);
    forall k: nat | k < |bytes| + 1
      ensures ByteAt(timing, h', from, starts + [s], falls + [fall], k, (bytes + [b])[k])
    {
      if k < |bytes| {
        ByteKept(timing, h, h', from, starts, falls, s, fall, k, bytes[k]);
      }
    }
  }

  lemma FallInside(timing: Timing, h: seq<bool>, s: nat, fall: nat, b: byte)
    requires timing.Valid() && Framed(timing, h, s, fall, b)
    ensures s <= fall < s + 10 * timing.n
  {
  }

  // ---------------------------------------------------------------- the receiver

  /** One reading of a byte: begun at `from`, the pin seen low at `seen`, the counter read at `mine`, the data bits
      sampled at the times `at`, and over at `end`. Up to `upTo` the polling missed nothing. */
  datatype Reading = Reading(from: nat, upTo: nat, seen: nat, mine: nat, at: seq<nat>, end: nat)

  ghost predicate LowFor(h: seq<bool>, t: nat, d: nat) {
    Held(h, t, t + d, false)
  }

  /** No stretch of `d` cycles that starts in [from, to) is low throughout. */
  ghost predicate NoLow(h: seq<bool>, from: nat, to: nat, d: nat) {
    forall t: nat :: from <= t < to ==> !LowFor(h, t, d)
  }

  /** The pin was seen low after two operations at most. */
  ghost predicate Noticed(timing: Timing, h: seq<bool>, from: nat, upTo: nat, seen: nat) {
    && from <= upTo && NoLow(h, from, upTo, 2 * timing.slow)
    && from < seen < upTo + 2 * timing.slow && !Level(h, seen)
  }

  /** The timeout passed, on the receiver's clock, with the pin high. */
  ghost predicate GaveUp(timing: Timing, h: seq<bool>, from: nat, upTo: nat, end: nat, timeout: nat) {
    && from <= upTo && NoLow(h, from, upTo, 2 * timing.slow) && end < upTo + timing.slow
    && timing.Mine(end) >= timing.Mine(from) + timeout * CYCLES_PER_USEC
  }

  /** When sample `i` is taken, `before` being the time of the one before. */
  ghost predicate SampledAt(timing: Timing, mine: nat, before: nat, i: nat, t: nat) {
    && mine + (i + 1) * timing.n < t + timing.drift
    && (t <= mine + (i + 1) * timing.n + timing.drift + 2 * timing.slow || t <= before + 2 * timing.slow)
  }

  ghost predicate SampledOn(timing: Timing, mine: nat, at: seq<nat>) {
    forall i: nat :: i < |at| ==> SampledAt(timing, mine, Before(mine, at, i), i, at[i])
  }

  function Before(mine: nat, at: seq<nat>, i: nat): nat
    requires i <= |at|
  {
    if i == 0 then mine else at[i - 1]
  }

  ghost predicate Took(timing: Timing, h: seq<bool>, r: Reading) {
    && Noticed(timing, h, r.from, r.upTo, r.seen)
    && r.seen + timing.quick <= r.mine <= r.seen + timing.slow
    && |r.at| == 8 && SampledOn(timing, r.mine, r.at)
    && r.mine + 9 * timing.n <= r.end + timing.drift
    && (r.end <= r.mine + 9 * timing.n + timing.drift + timing.slow || r.end <= r.at[7] + timing.slow)
  }

  /** The value of the levels sampled. */
  function Value(h: seq<bool>, at: seq<nat>): nat {
    if at == [] then 0
    else Value(h, at[..|at| - 1]) + (if Level(h, at[|at| - 1]) then 1 else 0) * Pow2(|at| - 1)
  }

  lemma {:induction false} ValueBound(h: seq<bool>, at: seq<nat>)
    ensures Value(h, at) < Pow2(|at|)
  {
    if at != [] {
      ValueBound(h, at[..|at| - 1]);
    }
  }

  /** Reads the pin of a line whose history is `wave`, on a clock of its own. */
  class Receiver {
    const timing: Timing
    const wave: seq<bool>
    const offset: nat       // of the cycle counter
    const usecOffset: nat   // of the microsecond timer
    var now: nat

    constructor (timing: Timing, wave: seq<bool>, offset: nat, usecOffset: nat)
      ensures this.timing == timing && this.wave == wave
      ensures this.offset == offset && this.usecOffset == usecOffset && now == 0
    {
      this.timing, this.wave, this.offset, this.usecOffset := timing, wave, offset, usecOffset;
      now := 0;
    }

    /** The receiver's microseconds by cycle `t`. */
    ghost function Usec(t: nat): nat {
      timing.Mine(t) / CYCLES_PER_USEC
    }

    /** Between `least` and `most` cycles pass. */
    method Spend(least: nat, most: nat)
      requires least <= most
      modifies this`now
      ensures old(now) + least <= now <= old(now) + most
    {
      var d: nat :| least <= d <= most;
      now := now + d;
    }

    method PinRead() returns (v: bool)
      requires timing.Valid()
      modifies this`now
      ensures old(now) < now <= old(now) + timing.slow && v == Level(wave, now)
    {
      Spend(1, timing.slow);
      v := Level(wave, now);
    }

    method CycleRead(least: nat) returns (c: nat)
      requires timing.Valid() && 1 <= least <= timing.slow
      modifies this`now
      ensures old(now) + least <= now <= old(now) + timing.slow && c == Counter(offset, timing.Mine(now))
    {
      Spend(least, timing.slow);
      c := Counter(offset, timing.clock(now));
    }

    method UsecRead() returns (u: nat)
      requires timing.Valid()
      modifies this`now
      ensures old(now) <= now <= old(now) + timing.slow && u == Counter(usecOffset, Usec(now))
    {
      Spend(0, timing.slow);
      u := Counter(usecOffset, timing.clock(now) / CYCLES_PER_USEC);
    }

    /** Polls until the pin is low, or until more than `timeout` microseconds have passed. */
    method WaitUntilLow(timeout: nat) returns (ok: bool, ghost upTo: nat)
      requires timing.Valid() && timeout + 2 * timing.slow + timing.drift + 1 < WRAP
      modifies this`now
      ensures old(now) < now
      ensures if ok then Noticed(timing, wave, old(now), upTo, now)
              else GaveUp(timing, wave, old(now), upTo, now, timeout)
    {
      hide Held, Timing.Steady, Timing.Monotone;
      upTo := now;
      var v := PinRead();
      if !v {
        return true, upTo;
      }
      NoLowUpTo(wave, old(now), upTo, now, 2 * timing.slow);
      upTo := now + 1;
      var start := UsecRead();
      ghost var began := now;
      ghost var late := TimeComes(timing, timing.Mine(began) + (timeout + 1) * CYCLES_PER_USEC);
      while true
        invariant old(now) < upTo && began <= now < upTo + timing.slow && old(now) <= began
        invariant NoLow(wave, old(now), upTo, 2 * timing.slow)
        invariant Usec(now) <= Usec(began) + timeout
        invariant start == Counter(usecOffset, Usec(began))
        decreases late - now
      {
        ghost var before := now;
        NotYet(timing, began, before, late, timeout);
        v := PinRead();
        if !v {
          return true, upTo;
        }
        NoLowUpTo(wave, old(now), upTo, now, 2 * timing.slow);
        upTo := now + 1;
        var u := UsecRead();
        Ordered(timing, old(now), began);
        Ordered(timing, began, before);
        Elapsing(timing, before, now);
        if Minus(u, start) > timeout {
          Ordered(timing, before, now);
          TimerElapsed(usecOffset, timing.Mine(began), timing.Mine(now), timeout);
          return false, upTo;
        }
        TimerRunning(usecOffset, timing.Mine(began), timing.Mine(before), timing.Mine(now), timeout,
                     2 * timing.slow + timing.drift);
      }
    }

    /** Spins until `n` cycles after the counter read `start`, which it did at time `s`. */
    method SpinUntil(start: nat, n: nat, ghost s: nat)
      requires timing.Valid() && start == Counter(offset, timing.Mine(s)) && s <= now
      requires n + timing.drift + timing.slow <= timing.Span() && now + timing.slow <= s + timing.Span()
      modifies this`now
      ensures s + n <= now + timing.drift && old(now) < now
      ensures now <= old(now) + timing.slow || now <= s + n + timing.drift + timing.slow
    {
      hide Timing.Steady, Timing.Monotone;
      var c := CycleRead(1);
      Elapsed(timing, offset, s, now);
      while Minus(c, start) < n
        invariant s <= now <= s + timing.Span() && Minus(c, start) == timing.Mine(now) - timing.Mine(s)
        invariant now - s <= Minus(c, start) + timing.drift && Minus(c, start) <= now - s + timing.drift
        invariant old(now) < now
        invariant now <= old(now) + timing.slow || now <= s + n + timing.drift + timing.slow
        decreases s + n + timing.drift - now
      {
        c := CycleRead(1);
        Elapsed(timing, offset, s, now);
      }
    }

    /** Samples data bit `i`, one bit time after the sample before. */
    method SampleBit(i: nat, start: nat, ghost mine: nat) returns (bit: nat)
      requires timing.Valid() && i < 8 && start == Counter(offset, timing.Mine(mine))
      requires mine <= now <= Late(timing, mine, i)
      modifies this`now
      ensures old(now) < now && SampledAt(timing, mine, old(now), i, now)
      ensures now <= Late(timing, mine, i + 1)
      ensures bit == if Level(wave, now) then 1 else 0
    {
      hide Timing.Steady, Timing.Monotone, Counter, Level;
      Scaled(i, timing.n);
      Scaled(i, timing.n + 2 * timing.slow);
      Drift(i, timing.n, timing.slow);
      SpinUntil(start, (i + 1) * timing.n, mine);
      var v := PinRead();
      bit := if v then 1 else 0;
    }

    /** Reads one byte, or -1 when no start bit comes in time. */
    method Get8Timeout(timeout: nat) returns (val: int, ghost r: Reading)
      requires timing.Valid() && timeout + 2 * timing.slow + timing.drift + 1 < WRAP
      modifies this`now
      ensures r.from == old(now) && r.end == now
      ensures val == -1 ==> r.at == [] && GaveUp(timing, wave, r.from, r.upTo, r.end, timeout)
      ensures val != -1 ==> r.at != [] && Took(timing, wave, r) && val == Value(wave, r.at) < 256
    {
      hide NoLow, Pow2, Counter, SampledAt, SampledOn, Noticed, GaveUp, Level, Late, Timing.Valid;
      ghost var upTo;
      var ok;
      ok, upTo := WaitUntilLow(timeout);
      if !ok {
        return -1, Reading(old(now), upTo, now, now, [], now);
      }
      ghost var seen := now;
      LateBounds(timing, now);
      var start := CycleRead(timing.quick);
      ghost var mine := now;
      LateBounds(timing, mine);
      ghost var at: seq<nat> := [];
      val := 0;
      var i := 0;
      NothingSampled(timing, wave, mine);
      while i < 8
        invariant 0 <= i <= 8 && |at| == i && now == Before(mine, at, i)
        invariant mine <= now <= Late(timing, mine, i)
        invariant SampledOn(timing, mine, at) && val == Value(wave, at)
      {
        var bit := SampleBit(i, start, mine);
        SampledNext(timing, mine, at, now);
        at := at + [now];
        val := val + bit * Pow2(i);
        i := i + 1;
      }
      ValueBound(wave, at);
      EightBits();
      SpinUntil(start, 9 * timing.n, mine);
      r := Reading(old(now), upTo, seen, mine, at, now);
    }

    /** The receive loop. A timeout, -1, is stored as 255. */
    method Recv(count: nat, timeout: nat) returns (buffer: seq<byte>, ghost readings: seq<Reading>)
      requires timing.Valid() && timeout + 2 * timing.slow + timing.drift + 1 < WRAP
      modifies this`now
      ensures |buffer| == count && Readings(timing, wave, old(now), timeout, readings, buffer)
    {
      hide Took, GaveUp, Value;
      buffer, readings := [], [];
      var i := 0;
      while i < count
        invariant 0 <= i <= count && |buffer| == i
        invariant Readings(timing, wave, old(now), timeout, readings, buffer)
        invariant now == Begin(old(now), readings, i)
      {
        ghost var r;
        var val;
        val, r := Get8Timeout(timeout);
        ReadingNext(timing, wave, old(now), timeout, readings, buffer, r, (val % 256) as byte);
        readings := readings + [r];
        buffer := buffer + [(val % 256) as byte];
        i := i + 1;
      }
    }
  }

  /** One reading after the other, each with the byte it stored. */
  ghost predicate Readings(timing: Timing, h: seq<bool>, from: nat, timeout: nat, rs: seq<Reading>, stored: seq<byte>) {
    && |rs| == |stored|
    && forall k: nat :: k < |rs| ==> ReadingAt(timing, h, Begin(from, rs, k), timeout, rs[k], stored[k])
  }

  /** When reading `k` begins. */
  function Begin(from: nat, rs: seq<Reading>, k: nat): nat
    requires k <= |rs|
  {
    if k == 0 then from else rs[k - 1].end
  }

  ghost predicate ReadingAt(timing: Timing, h: seq<bool>, from: nat, timeout: nat, r: Reading, b: byte) {
    && r.from == from
    && if r.at == [] then GaveUp(timing, h, r.from, r.upTo, r.end, timeout) && b == 255
       else Took(timing, h, r) && Value(h, r.at) == b as nat
  }

  lemma NothingSampled(timing: Timing, h: seq<bool>, mine: nat)
    ensures SampledOn(timing, mine, []) && Value(h, []) == 0
  {
  }

  lemma SampledNext(timing: Timing, mine: nat, at: seq<nat>, t: nat)
    requires SampledOn(timing, mine, at) && SampledAt(timing, mine, Before(mine, at, |at|), |at|, t)
    ensures SampledOn(timing, mine, at + [t])
    ensures (at + [t])[..|at|] == at
  {
    hide SampledAt;
    forall i: nat | i < |at| + 1
      ensures SampledAt(timing, mine, Before(mine, at + [t], i), i, (at + [t])[i])
    {
      assert Before(mine, at + [t], i) == Before(mine, at, i);
    }
  }

  lemma ReadingNext(timing: Timing, h: seq<bool>, from: nat, timeout: nat, rs: seq<Reading>, stored: seq<byte>,
                    r: Reading, b: byte)
    requires Readings(timing, h, from, timeout, rs, stored)
    requires ReadingAt(timing, h, Begin(from, rs, |rs|), timeout, r, b)
    ensures Readings(timing, h, from, timeout, rs + [r], stored + [b])
  {
    hide ReadingAt;
    forall k: nat | k < |rs| + 1
      ensures ReadingAt(timing, h, Begin(from, rs + [r], k), timeout, (rs + [r])[k], (stored + [b])[k])
    {
      assert Begin(from, rs + [r], k) == Begin(from, rs, k);
    }
  }

  lemma HeldAt(h: seq<bool>, from: nat, to: nat, v: bool, t: nat)
    requires Held(h, from, to, v) && from <= t < to
    ensures Level(h, t) == v
  {
  }

  lemma NotLow(h: seq<bool>, a: nat, d: nat, t: nat)
    requires a <= t < a + d && Level(h, t)
    ensures !LowFor(h, a, d)
  {
  }

  lemma NoLowUpTo(h: seq<bool>, from: nat, upTo: nat, t: nat, d: nat)
    requires NoLow(h, from, upTo, d) && from <= upTo && t < upTo + d && Level(h, t)
    ensures NoLow(h, from, t + 1, d)
  {
    forall a: nat | from <= a < t + 1
      ensures !LowFor(h, a, d)
    {
      if a >= upTo {
        NotLow(h, a, d, t);
      }
    }
  }

  // ---------------------------------------------------------------- the receiver's clock

  lemma Ordered(timing: Timing, s: nat, t: nat)
    requires timing.Valid() && s <= t
    ensures timing.Mine(s) <= timing.Mine(t)
  {
    hide Timing.Steady;
  }

  lemma OrderedIf(timing: Timing, s: nat, t: nat)
    requires timing.Valid()
    ensures s <= t ==> timing.Mine(s) <= timing.Mine(t)
  {
    hide Timing.Steady;
  }

  lemma Elapsing(timing: Timing, s: nat, t: nat)
    requires timing.Valid() && s <= t <= s + timing.Span()
    ensures t - s - timing.drift <= timing.Mine(t) - timing.Mine(s) <= t - s + timing.drift
    ensures timing.Mine(s) <= timing.Mine(t)
  {
  }

  /** The elapsed time that the counter shows. */
  lemma Elapsed(timing: Timing, offset: nat, s: nat, t: nat)
    requires timing.Valid() && s <= t <= s + timing.Span()
    ensures var d := Minus(Counter(offset, timing.Mine(t)), Counter(offset, timing.Mine(s)));
      d == timing.Mine(t) - timing.Mine(s) && t - s - timing.drift <= d <= t - s + timing.drift
  {
    hide Timing.Steady, Timing.Monotone;
    Elapsing(timing, s, t);
    ElapsedAcrossWrap(offset, timing.Mine(s), timing.Mine(t));
  }

  /** The clock does not stand still for ever. */
  lemma {:induction false} TimeComes(timing: Timing, x: nat) returns (t: nat)
    requires timing.Valid()
    ensures timing.Mine(t) >= x
  {
    hide Timing.Steady, Timing.Monotone;
    t := 0;
    if x > 0 {
      t := TimeComes(timing, x - 1);
      Elapsing(timing, t, t + timing.Span());
      t := t + timing.Span();
    }
  }

  lemma NotYet(timing: Timing, began: nat, t: nat, late: nat, timeout: nat)
    requires timing.Valid() && timing.Mine(late) >= timing.Mine(began) + (timeout + 1) * CYCLES_PER_USEC
    requires timing.Mine(t) / CYCLES_PER_USEC <= timing.Mine(began) / CYCLES_PER_USEC + timeout
    ensures t < late
  {
    hide Timing.Steady;
    if late <= t {
      Ordered(timing, late, t);
    }
  }

  /** A clock that is fast by one cycle in `q`. */
  function Fast(q: nat): nat -> nat
    requires q > 0
  {
    (t: nat) => t + t / q
  }

  /** Such a clock is good enough if it gains no more than the drift in the time of a byte, although in the long run it
      gains more than any bound. */
  lemma FastClock(timing: Timing, q: nat)
    requires q > 0 && timing.clock == Fast(q) && timing.Span() / q + 1 <= timing.drift
    ensures timing.Monotone() && timing.Steady()
    ensures forall k: nat :: timing.Mine(k * q) == k * q + k
  {
    forall s: nat, t: nat | s <= t
      ensures timing.Mine(s) <= timing.Mine(t) && t - s <= timing.Mine(t) - timing.Mine(s)
      ensures t <= s + timing.Span() ==> timing.Mine(t) - timing.Mine(s) <= t - s + timing.drift
    {
      QuotientsOrdered(s, t, q);
      if t <= s + timing.Span() {
        QuotientsClose(s, t, timing.Span(), q);
      }
    }
    forall k: nat
      ensures timing.Mine(k * q) == k * q + k
    {
      assert q * k == k * q;
      Remainder(k * q, q, k, 0);
    }
  }

  lemma QuotientsOrdered(s: nat, t: nat, q: nat)
    requires q > 0 && s <= t
    ensures s / q <= t / q
  {
    Unfold(s, q);
    Unfold(t, q);
    if t / q < s / q {
      MulStep(q, t / q, s / q);
    }
  }

  lemma QuotientsClose(s: nat, t: nat, d: nat, q: nat)
    requires q > 0 && s <= t <= s + d
    ensures t / q <= s / q + d / q + 1
  {
    Unfold(s, q);
    Unfold(t, q);
    Unfold(d, q);
    Spread(q, s / q, d / q);
    if s / q + d / q + 1 < t / q {
      MulStep(q, s / q + d / q + 1, t / q);
    }
  }

  lemma MulStep(q: nat, a: nat, b: nat)
    requires a < b
    ensures q * a + q <= q * b
  {
    var d := b - a - 1;
    assert q * b == q * a + q + q * d;
  }

  lemma Spread(q: nat, a: nat, b: nat)
    ensures q * (a + b + 1) == q * a + q * b + q
  {
  }

  /** The latest end of sample `i - 1`. */
  function Late(timing: Timing, mine: nat, i: nat): nat {
    mine + timing.drift + i * (timing.n + 2 * timing.slow)
  }

  lemma LateBounds(timing: Timing, mine: nat)
    requires timing.Valid()
    ensures mine <= Late(timing, mine, 0) && 1 <= timing.quick <= timing.slow
    ensures Late(timing, mine, 8) + timing.slow <= mine + timing.Span()
    ensures 9 * timing.n + timing.drift + timing.slow <= timing.Span()
  {
    hide Timing.Steady, Timing.Monotone;
  }

  lemma Drift(i: nat, n: nat, slow: nat)
    requires i < 8
    ensures i * n <= i * (n + 2 * slow) && (i + 1) * n <= (i + 1) * (n + 2 * slow) <= 8 * (n + 2 * slow)
  {
    Below(i + 1, 8, n + 2 * slow);
    assert (i + 1) * (n + 2 * slow) == (i + 1) * n + (i + 1) * (2 * slow);
    assert i * (n + 2 * slow) == i * n + i * (2 * slow);
  }

  lemma EightBits()
    ensures Pow2(8) == 256
  {
  }

  // ---------------------------------------------------------------- the lag of the samples

  /** Each sample trails the sender's schedule by at least the jitter and by less than one bit time. */
  ghost predicate Trails(timing: Timing, s: nat, at: seq<nat>) {
    && |at| == 8
    && forall i: nat :: i < 8 ==> s + (i + 1) * timing.n + timing.Jitter() <= at[i] < s + (i + 2) * timing.n
  }

  ghost predicate AllTrail(timing: Timing, starts: seq<nat>, rs: seq<Reading>) {
    |rs| == |starts| && forall k: nat :: k < |rs| ==> Trails(timing, starts[k], rs[k].at)
  }

  /** Samples that trail the schedule are the data bits, whatever made them come when they did. */
  lemma TrailingDecodes(timing: Timing, h: seq<bool>, s: nat, fall: nat, b: byte, at: seq<nat>)
    requires Framed(timing, h, s, fall, b) && Trails(timing, s, at)
    ensures Value(h, at) == b as nat
  {
    hide Value, LowBits;
    TrailingBits(timing, h, s, fall, b, at, 8);
    assert at[..8] == at;
    AllBits(b);
  }

  lemma {:induction false} TrailingBits(timing: Timing, h: seq<bool>, s: nat, fall: nat, b: byte, at: seq<nat>, i: nat)
    requires Framed(timing, h, s, fall, b) && Trails(timing, s, at) && i <= 8
    ensures Value(h, at[..i]) == LowBits(b, i)
  {
    hide BitOf, Pow2;
    if i > 0 {
      TrailingBits(timing, h, s, fall, b, at, i - 1);
      assert at[..i][..i - 1] == at[..i - 1];
      assert Held(h, s + i * timing.n + timing.Jitter(), s + (i + 1) * timing.n, BitOf(b, i - 1)) by {
        assert i - 1 + 1 == i && i - 1 + 2 == i + 1;
      }
      assert Level(h, at[i - 1]) == BitOf(b, i - 1);
    }
  }

  lemma EightSamples(timing: Timing, s: nat, at: seq<nat>)
    requires Trails(timing, s, at)
    ensures |at| == 8
  {
  }

  /** If every sample trails the schedule of its byte, all bytes are decoded. */
  lemma AllDecoded(timing: Timing, h: seq<bool>, from: nat, starts: seq<nat>, falls: seq<nat>, bytes: seq<byte>,
                   begin: nat, timeout: nat, rs: seq<Reading>, stored: seq<byte>)
    requires Transmitted(timing, h, from, starts, falls, bytes)
    requires Readings(timing, h, begin, timeout, rs, stored) && AllTrail(timing, starts, rs)
    ensures stored == bytes
  {
    hide Took, Framed, Held, Trails, Value;
    forall k: nat | k < |bytes|
      ensures stored[k] == bytes[k]
    {
      assert ByteAt(timing, h, from, starts, falls, k, bytes[k]);
      assert ReadingAt(timing, h, Begin(begin, rs, k), timeout, rs[k], stored[k]);
      EightSamples(timing, starts[k], rs[k].at);
      TrailingDecodes(timing, h, starts[k], falls[k], bytes[k], rs[k].at);
    }
  }

  /** The value of the bits below bit `i`. */
  function LowBits(b: byte, i: nat): nat {
    if i == 0 then 0 else LowBits(b, i - 1) + (if BitOf(b, i - 1) then 1 else 0) * Pow2(i - 1)
  }

  lemma {:induction false} LowBitsAre(b: nat, x: byte, i: nat)
    requires x as nat == b
    ensures Pow2(i) > 0 && LowBits(x, i) == b - Pow2(i) * (b / Pow2(i))
  {
    PowPositive(i);
    if i > 0 {
      LowBitsAre(b, x, i - 1);
      Halved(b, Pow2(i - 1));
    }
  }

  lemma Halved(b: nat, p: nat)
    requires p > 0
    ensures b / (2 * p) == (b / p) / 2
    ensures 2 * p * (b / (2 * p)) == p * (b / p) - p * ((b / p) % 2)
  {
    var q := b / p;
    var h, r := q / 2, q % 2;
    Unfold(b, p);
    HalfOf(b, p, q, h, r, b % p);
  }

  lemma HalfOf(b: nat, p: nat, q: nat, h: nat, r: nat, rest: nat)
    requires b == p * q + rest && rest < p && q == 2 * h + r && r < 2
    ensures b / (2 * p) == h && 2 * p * h == p * q - p * r
  {
    TwoParts(p, q, h, r);
    var d := 2 * p;
    assert b == d * h + (p * r + rest);
    Remainder(b, d, h, p * r + rest);
  }

  lemma TwoParts(p: nat, q: nat, h: nat, r: nat)
    requires q == 2 * h + r && r < 2
    ensures p * q == 2 * p * h + p * r && p * r == if r == 0 then 0 else p
  {
  }

  /** The eight data bits on the line, the first one being the lowest. */
  lemma BitsInOrder(b: byte)
    ensures b as int == Digit(b, 0) + 2 * Digit(b, 1) + 4 * Digit(b, 2) + 8 * Digit(b, 3)
                      + 16 * Digit(b, 4) + 32 * Digit(b, 5) + 64 * Digit(b, 6) + 128 * Digit(b, 7)
  {
    hide BitOf, Pow2, LowBits;
    AllBits(b);
    Powers();
    LowBitsNext(b, 7);
    LowBitsNext(b, 6);
    LowBitsNext(b, 5);
    LowBitsNext(b, 4);
    LowBitsNext(b, 3);
    LowBitsNext(b, 2);
    LowBitsNext(b, 1);
    LowBitsNext(b, 0);
  }

  lemma LowBitsNext(b: byte, i: nat)
    ensures LowBits(b, i + 1) as int == LowBits(b, i) + Digit(b, i) * Pow2(i) && LowBits(b, 0) == 0
  {
    hide BitOf, Pow2;
  }

  lemma Powers()
    ensures Pow2(0) == 1 && Pow2(1) == 2 && Pow2(2) == 4 && Pow2(3) == 8
    ensures Pow2(4) == 16 && Pow2(5) == 32 && Pow2(6) == 64 && Pow2(7) == 128
  {
    assert Pow2(3) == 8;
    assert Pow2(6) == 64;
  }

  function Digit(b: byte, i: nat): int {
    if BitOf(b, i) then 1 else 0
  }

  lemma AllBits(b: byte)
    ensures LowBits(b, 8) == b as nat
  {
    LowBitsAre(b as nat, b, 8);
    assert Pow2(8) == 256;
  }

  /** More than `timeout` on the 32-bit timer is more than `timeout` in truth. */
  lemma TimerElapsed(offset: nat, began: nat, now: nat, timeout: nat)
    requires began <= now
    requires Minus(Counter(offset, now / CYCLES_PER_USEC), Counter(offset, began / CYCLES_PER_USEC)) > timeout
    ensures now - began >= timeout * CYCLES_PER_USEC
  {
    var a, b := now / CYCLES_PER_USEC, began / CYCLES_PER_USEC;
    if a < b + WRAP {
      ElapsedAcrossWrap(offset, b, a);
    }
  }

  /** While it is not, the time is what the timer says. */
  lemma TimerRunning(offset: nat, began: nat, before: nat, now: nat, timeout: nat, d: nat)
    requires began <= before <= now <= before + d && timeout + d + 1 < WRAP
    requires before / CYCLES_PER_USEC <= began / CYCLES_PER_USEC + timeout
    requires Minus(Counter(offset, now / CYCLES_PER_USEC), Counter(offset, began / CYCLES_PER_USEC)) <= timeout
    ensures now / CYCLES_PER_USEC <= began / CYCLES_PER_USEC + timeout
  {
    assert now / CYCLES_PER_USEC <= before / CYCLES_PER_USEC + d + 1;
    ElapsedAcrossWrap(offset, began / CYCLES_PER_USEC, now / CYCLES_PER_USEC);
  }

  // ---------------------------------------------------------------- a receiver that keeps up

  /** The falling edge is not missed. */
  lemma EdgeNoticed(timing: Timing, h: seq<bool>, s: nat, fall: nat, b: byte, from: nat, upTo: nat)
    requires timing.Valid() && timing.KeepsUp() && Framed(timing, h, s, fall, b)
    requires from < fall && NoLow(h, from, upTo, 2 * timing.slow)
    ensures upTo <= fall
  {
    if fall < upTo {
      forall t: nat | fall <= t < fall + 2 * timing.slow
        ensures !Level(h, t)
      {
        assert fall <= t < s + timing.n;
      }
      assert LowFor(h, fall, 2 * timing.slow);
    }
  }

  /** A reading that begins on the idle line takes all its samples in time, and ends at the stop bit. */
  lemma ReadingTrails(timing: Timing, h: seq<bool>, s: nat, fall: nat, b: byte, timeout: nat, r: Reading, stored: byte)
    requires timing.Valid() && timing.KeepsUp() && Framed(timing, h, s, fall, b)
    requires r.from < fall && Held(h, r.from, fall, true)
    requires timing.Mine(fall + timing.slow) < timing.Mine(r.from) + timeout * CYCLES_PER_USEC
    requires ReadingAt(timing, h, r.from, timeout, r, stored)
    ensures Trails(timing, s, r.at)
    ensures s + 9 * timing.n + timing.Jitter() <= r.end < s + 10 * timing.n
  {
    hide Value, BitOf;
    EdgeNoticed(timing, h, s, fall, b, r.from, r.upTo);
    OrderedIf(timing, r.end, fall + timing.slow);
    assert r.at != [];
    assert r.seen >= fall by {
      if r.seen < fall {
        HeldAt(h, r.from, fall, true, r.seen);
      }
    }
    hide Framed, Held, NoLow;
    assert s + timing.Jitter() + timing.drift <= r.mine < s + timing.write + 3 * timing.slow;
    SamplesInTime(timing, r.mine, r.at, 8);
    forall i: nat | i < 8
      ensures s + (i + 1) * timing.n + timing.Jitter() <= r.at[i] < s + (i + 2) * timing.n
    {
      Scaled(i, timing.n);
      assert (i + 2) * timing.n == (i + 1) * timing.n + timing.n;
    }
  }

  /** No sample is held up by the one before. */
  lemma {:induction false} SamplesInTime(timing: Timing, mine: nat, at: seq<nat>, count: nat)
    requires timing.KeepsUp() && SampledOn(timing, mine, at) && count <= |at| == 8
    ensures forall i: nat :: i < count ==>
              && mine + (i + 1) * timing.n < at[i] + timing.drift
              && at[i] <= mine + (i + 1) * timing.n + timing.drift + 2 * timing.slow
  {
    if count > 0 {
      var i := count - 1;
      SamplesInTime(timing, mine, at, i);
      Scaled(i, timing.n);
      assert SampledAt(timing, mine, Before(mine, at, i), i, at[i]);
      if i > 0 {
        assert at[i - 1] <= mine + i * timing.n + timing.drift + 2 * timing.slow;
      }
    }
  }

  /** Each byte starts soon enough after the one before for the receiver not to give up, on its clock. */
  ghost predicate Prompt(timing: Timing, from: nat, starts: seq<nat>, falls: seq<nat>, timeout: nat) {
    && |starts| == |falls|
    && forall k: nat :: k < |falls| ==>
         timing.Mine(falls[k] + timing.slow)
           < timing.Mine(Idle(timing, from, starts, k)) + timeout * CYCLES_PER_USEC
  }

  lemma DenseIsPrompt(timing: Timing, h: seq<bool>, idle: nat, starts: seq<nat>, falls: seq<nat>, bytes: seq<byte>,
                      timeout: nat)
    requires timing.Valid() && timing.KeepsUp() && Dense(timing, idle, starts)
    requires Transmitted(timing, h, 0, starts, falls, bytes)
    requires Patient(timing, idle, timeout)
    ensures Prompt(timing, 0, starts, falls, timeout)
  {
    hide Held, Patient, Timing.Valid, Timing.KeepsUp;
    forall k: nat | k < |falls|
      ensures timing.Mine(falls[k] + timing.slow)
            < timing.Mine(Idle(timing, 0, starts, k)) + timeout * CYCLES_PER_USEC
    {
      assert ByteAt(timing, h, 0, starts, falls, k, bytes[k]);
      assert starts[k] <= Latest(timing, idle, starts, k);
      SoonEnough(timing, idle, starts, k, falls[k], timeout);
    }
  }

  lemma SoonEnough(timing: Timing, idle: nat, starts: seq<nat>, k: nat, fall: nat, timeout: nat)
    requires timing.Valid() && timing.KeepsUp() && Patient(timing, idle, timeout)
    requires k < |starts| && starts[k] <= Latest(timing, idle, starts, k)
    requires starts[k] <= fall <= starts[k] + timing.write
    requires k > 0 ==> starts[k - 1] + 10 * timing.n < starts[k]
    ensures timing.Mine(fall + timing.slow) < timing.Mine(Idle(timing, 0, starts, k)) + timeout * CYCLES_PER_USEC
  {
    hide Timing.Steady, Timing.Monotone;
    var begin, end := Idle(timing, 0, starts, k), fall + timing.slow;
    if k == 0 {
      Ordered(timing, end, idle + 2 * timing.n);
    } else {
      assert begin <= end <= begin + 2 * timing.n;
      Elapsing(timing, begin, end);
    }
  }

  /** The receiver waits long enough for the first byte, which may start `idle` cycles after it began to listen, and
      between any two. */
  ghost predicate Patient(timing: Timing, idle: nat, timeout: nat) {
    && timing.Mine(idle + 2 * timing.n) < timing.Mine(0) + timeout * CYCLES_PER_USEC
    && 2 * timing.n + timing.drift < timeout * CYCLES_PER_USEC
  }

  /** A receiver may have been listening since before the transmission. */
  lemma ListensBefore(timing: Timing, h: seq<bool>, idle: nat, starts: seq<nat>, falls: seq<nat>, bytes: seq<byte>)
    requires Transmitted(timing, h, idle, starts, falls, bytes)
    requires forall t: nat :: t < idle ==> Level(h, t)
    ensures Transmitted(timing, h, 0, starts, falls, bytes)
  {
    hide Framed;
    forall k: nat | k < |bytes|
      ensures ByteAt(timing, h, 0, starts, falls, k, bytes[k])
    {
      assert ByteAt(timing, h, idle, starts, falls, k, bytes[k]);
      if k == 0 {
        forall t: nat | t < falls[0]
          ensures Level(h, t)
        {
        }
      }
    }
  }

  lemma Lengths(timing: Timing, h: seq<bool>, from: nat, starts: seq<nat>, falls: seq<nat>, bytes: seq<byte>,
                timeout: nat, rs: seq<Reading>, stored: seq<byte>)
    requires Transmitted(timing, h, from, starts, falls, bytes) && Readings(timing, h, from, timeout, rs, stored)
    ensures |starts| == |bytes| && |rs| == |stored|
  {
  }

  lemma Collected(timing: Timing, starts: seq<nat>, rs: seq<Reading>)
    requires |starts| == |rs| && forall k: nat :: k < |rs| ==> Trails(timing, starts[k], rs[k].at)
    ensures AllTrail(timing, starts, rs)
  {
  }

  /** The stop bit re-frames every byte: lag does not build up, however many bytes there are. */
  lemma {:induction false} KeepsUpTrails(timing: Timing, h: seq<bool>, starts: seq<nat>, falls: seq<nat>,
                                         bytes: seq<byte>, timeout: nat, rs: seq<Reading>, stored: seq<byte>,
                                         from: nat, count: nat)
    requires timing.Valid() && timing.KeepsUp()
    requires Transmitted(timing, h, from, starts, falls, bytes) && Prompt(timing, from, starts, falls, timeout)
    requires Readings(timing, h, from, timeout, rs, stored) && |rs| == |bytes| && count <= |rs|
    ensures forall k: nat :: k < count ==> Trails(timing, starts[k], rs[k].at)
    ensures count > 0 ==> var s := starts[count - 1];
      s + 9 * timing.n + timing.Jitter() <= rs[count - 1].end < s + 10 * timing.n
  {
    hide Framed, Held, Trails, Took, GaveUp, Value, Timing.Valid, Timing.KeepsUp;
    if count > 0 {
      var k := count - 1;
      KeepsUpTrails(timing, h, starts, falls, bytes, timeout, rs, stored, from, k);
      var begin := Begin(from, rs, k);
      assert ByteAt(timing, h, from, starts, falls, k, bytes[k]);
      assert ReadingAt(timing, h, begin, timeout, rs[k], stored[k]);
      FallInside(timing, h, starts[k], falls[k], bytes[k]);
      HeldFrom(h, Idle(timing, from, starts, k), begin, falls[k], true);
      Ordered(timing, Idle(timing, from, starts, k), begin);
      ReadingTrails(timing, h, starts[k], falls[k], bytes[k], timeout, rs[k], stored[k]);
    }
  }

  lemma HeldFrom(h: seq<bool>, from: nat, later: nat, to: nat, v: bool)
    requires Held(h, from, to, v) && from <= later
    ensures Held(h, later, to, v)
  {
  }

  /** A line with one sender and one receiver, who starts listening first. The counters of both may read anything at
      the start and everything may take any time that `timing` allows. `wave` is the history of the pin, `starts` and
      `falls` say when each byte was sent, `readings` how it was read. If each sample trails the sender's schedule by
      at least the jitter and by less than one bit time, the receive loop returns exactly the bytes that the send loop
      was given, however many there are; and each does when the receiver keeps up. */
  method Transfer(timing: Timing, buffer: seq<byte>, idle: nat, timeout: nat,
                  sendOffset: nat, recvOffset: nat, usecOffset: nat)
    returns (got: seq<byte>, ghost wave: seq<bool>, ghost starts: seq<nat>, ghost falls: seq<nat>,
             ghost readings: seq<Reading>)
    requires timing.Valid() && timeout + 2 * timing.slow + timing.drift + 1 < WRAP
    ensures |got| == |buffer| == |readings| == |starts|
    ensures Transmitted(timing, wave, 0, starts, falls, buffer)
    ensures Readings(timing, wave, 0, timeout, readings, got)
    ensures AllTrail(timing, starts, readings) ==> got == buffer
    ensures timing.KeepsUp() && Patient(timing, idle, timeout) ==> AllTrail(timing, starts, readings)
  {
    hide Transmitted, Readings, AllTrail, Prompt, Dense;
    var sender := new Sender(timing, sendOffset);
    sender.Spend(idle);
    starts, falls := sender.Send(buffer);
    wave := sender.hist;
    ListensBefore(timing, sender.hist, idle, starts, falls, buffer);
    var receiver := new Receiver(timing, sender.hist, recvOffset, usecOffset);
    got, readings := receiver.Recv(|buffer|, timeout);
    Lengths(timing, sender.hist, 0, starts, falls, buffer, timeout, readings, got);
    if AllTrail(timing, starts, readings) {
      AllDecoded(timing, sender.hist, 0, starts, falls, buffer, 0, timeout, readings, got);
    }
    if timing.KeepsUp() && Patient(timing, idle, timeout) {
      DenseIsPrompt(timing, sender.hist, idle, starts, falls, buffer, timeout);
      KeepsUpTrails(timing, sender.hist, starts, falls, buffer, timeout, readings, got, 0, |buffer|);
      Collected(timing, starts, readings);
    }
  }
}
