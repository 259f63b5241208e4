/** What a seeded generator returns: the trinomials in numbers, how far seeding has advanced the generator, and closed
    forms of the two congruential recurrences. */
module RandomStream {
  import opened Bytes
  import opened Modular
  import opened Random
  import opened Words

  // ---------------------------------------------------------------- the trinomials

  /** Degree and separation of x^7 + x^3 + 1, x^15 + x + 1, x^31 + x^3 + 1 and x^63 + x + 1. */
  ghost predicate Taps(kind: nat, deg: nat, sep: nat) {
    || (kind == 1 && deg == 7 && sep == 3)
    || (kind == 2 && deg == 15 && sep == 1)
    || (kind == 3 && deg == 31 && sep == 3)
    || (kind == 4 && deg == 63 && sep == 1)
  }

  lemma TapsAre(kind: nat, deg: nat, sep: nat)
    requires Taps(kind, deg, sep)
    ensures Degree(kind) == deg && Separation(kind) == sep && 1 <= kind <= 4
  {
  }

  /** The recurrence of each type, in numbers. */
  lemma Trinomials(kind: nat, deg: nat, sep: nat, first: seq<word>, n: nat)
    requires Taps(kind, deg, sep) && |first| == deg <= n
    ensures |first| == Degree(kind) && sep < deg
    ensures X(kind, first, n) == Add(X(kind, first, n - deg), X(kind, first, n - sep))
  {
    TapsAre(kind, deg, sep);
  }

  /** Each result is the sum of the results `deg` and `sep` calls before it, or one more, modulo 2^31. */
  ghost predicate Follows(outs: seq<word>, deg: nat, sep: nat)
    requires 0 < sep < deg
  {
    forall n: nat :: deg <= n < |outs| ==> IsSum(outs[n - deg], outs[n - sep], outs[n])
  }

  predicate IsSum(a: word, b: word, x: word) {
    || x as int == (a as int + b as int) % 0x8000_0000
    || x as int == (a as int + b as int + 1) % 0x8000_0000
  }

  lemma HalfOfSum(a: word, b: word)
    ensures IsSum(a / 2, b / 2, Add(a, b) / 2)
  {
    Halves(a as nat / 2, a as nat % 2, b as nat / 2, b as nat % 2);
    assert a as nat == 2 * (a as nat / 2) + a as nat % 2 && b as nat == 2 * (b as nat / 2) + b as nat % 2;
    assert (a / 2) as nat == a as nat / 2 && (b / 2) as nat == b as nat / 2;
    assert (Add(a, b) / 2) as nat == ((a as nat + b as nat) % 0x1_0000_0000) / 2;
  }

  lemma Halves(x: nat, r: nat, y: nat, q: nat)
    requires x < 0x8000_0000 && y < 0x8000_0000 && r < 2 && q < 2
    ensures var half := (2 * x + r + (2 * y + q)) % 0x1_0000_0000 / 2;
      half == (x + y) % 0x8000_0000 || half == (x + y + 1) % 0x8000_0000
  {
    var c := if r + q == 2 then 1 else 0;
    var sum := 2 * x + r + (2 * y + q);
    assert sum / 2 == x + y + c;
    if sum < 0x1_0000_0000 {
      assert x + y + c < 0x8000_0000;
    } else {
      assert sum % 0x1_0000_0000 == sum - 0x1_0000_0000;
      assert (x + y + c) % 0x8000_0000 == x + y + c - 0x8000_0000;
    }
  }

  // ---------------------------------------------------------------- streams

  lemma {:induction false} AfterSum(g: Gen, m: nat, n: nat)
    requires g.Valid()
    ensures After(After(g, m), n) == After(g, m + n)
  {
    hide Step;
    if n > 0 {
      AfterSum(g, m, n - 1);
    }
  }

  lemma {:induction false} StreamAt(g: Gen, n: nat, i: nat)
    requires g.Valid() && i < n
    ensures Stream(g, n)[i] == Step(After(g, i)).0
  {
    hide Step, After;
    if i < n - 1 {
      StreamAt(g, n - 1, i);
    }
  }

  lemma StreamOfRecurrence(kind: nat, first: seq<word>, m: nat, n: nat, i: nat)
    requires 1 <= kind <= 4 && |first| == Degree(kind) && i < n
    ensures Stream(After(Additive(kind, first), m), n)[i] == X(kind, first, m + i + Degree(kind)) / 2
  {
    hide Step, X, Xs, Stream, After;
    var start := Additive(kind, first);
    StreamAt(After(start, m), n, i);
    AfterSum(start, m, i);
    RefinesRecurrence(kind, first, m + i);
  }

  /** The results of any additive generator follow its trinomial. */
  lemma StreamFollows(kind: nat, deg: nat, sep: nat, first: seq<word>, m: nat, n: nat)
    requires Taps(kind, deg, sep) && |first| == deg
    ensures 0 < sep < deg && Degree(kind) == deg && 1 <= kind <= 4
    ensures Follows(Stream(After(Additive(kind, first), m), n), deg, sep)
  {
    hide X, Add, Stream, After;
    TapsAre(kind, deg, sep);
    var outs := Stream(After(Additive(kind, first), m), n);
    forall i: nat | deg <= i < n
      ensures IsSum(outs[i - deg], outs[i - sep], outs[i])
    {
      StreamOfRecurrence(kind, first, m, n, i);
      StreamOfRecurrence(kind, first, m, n, i - deg);
      StreamOfRecurrence(kind, first, m, n, i - sep);
      Trinomials(kind, deg, sep, first, m + i + deg);
      HalfOfSum(X(kind, first, m + i), X(kind, first, m + i + deg - sep));
    }
  }

  // ---------------------------------------------------------------- seeding

  function Power(b: nat, e: nat): nat {
    if e == 0 then 1 else b * Power(b, e - 1)
  }

  lemma MulMod(a: int, b: int, m: nat)
    requires m > 0
    ensures (a * (b % m)) % m == (a * b) % m
  {
    var q := b / m;
    assert b == m * q + b % m;
    assert a * b == a * (b % m) + m * (a * q) by {
      assert a * b == a * (m * q) + a * (b % m);
      assert a * (m * q) == m * (a * q);
    }
    Congruent(a * (b % m), a * q, m);
  }

  lemma Congruent(r: int, q: int, m: nat)
    requires m > 0
    ensures (r + m * q) % m == r % m
  {
    var d := r / m;
    assert r == m * d + r % m;
    assert r + m * q == m * (d + q) + r % m;
    var s := (r + m * q) / m;
    assert r + m * q == m * s + (r + m * q) % m;
    Unique(m, s, (r + m * q) % m, d + q, r % m);
  }

  lemma Unique(m: nat, s: int, x: int, t: int, y: int)
    requires m > 0 && 0 <= x < m && 0 <= y < m && m * s + x == m * t + y
    ensures x == y
  {
    var d := t - s;
    assert m * d == m * t - m * s;
    if d >= 1 {
      MulAtLeast(m, d);
    } else if d <= -1 {
      MulAtLeast(m, -d);
    }
  }

  /** Word `i` of the seeded table is the seed times 16807^i modulo 2^31 - 1. */
  lemma {:induction false} SeedWordIs(seed: word, i: nat)
    requires i > 0
    ensures SeedWord(seed, i) == (Power(16807, i) * Signed(seed)) % 2147483647
  {
    hide Schrage, Signed;
    var w := SeedWord(seed, i - 1);
    SeedWordRange(seed, i - 1);
    SchrageIsModular(w);
    assert SeedWord(seed, i) == (16807 * w) % 2147483647;
    if i > 1 {
      SeedWordIs(seed, i - 1);
      MulMod(16807, Power(16807, i - 1) * Signed(seed), 2147483647);
    }
    OneMore(seed, i);
  }

  lemma OneMore(seed: word, i: nat)
    requires i > 0
    ensures 16807 * (Power(16807, i - 1) * Signed(seed)) == Power(16807, i) * Signed(seed)
    ensures Power(16807, 0) * Signed(seed) == Signed(seed)
  {
    hide Signed;
  }

  /** The values before any draw, oldest first: the table from index `sep` on, and around. */
  function FirstWords(kind: nat, seed: word): (first: seq<word>)
    requires 1 <= kind <= 4
    ensures |first| == Degree(kind)
  {
    Window(SeedTable(NonzeroSeed(seed), Degree(kind)), Separation(kind))
  }

  /** The same in numbers. */
  lemma FirstWordsAre(kind: nat, deg: nat, sep: nat, seed: word, i: nat)
    requires Taps(kind, deg, sep) && i < deg
    ensures 1 <= kind <= 4 && |FirstWords(kind, seed)| == deg
    ensures var s, j := Signed(if seed == 0 then 1 else seed), (sep + i) % deg;
      FirstWords(kind, seed)[i] == Wrapped(if j == 0 then s else (Power(16807, j) * s) % 2147483647)
  {
    hide SeedWord, Power, Wrapped, Signed;
    TapsAre(kind, deg, sep);
    var j := (sep + i) % deg;
    SlotOf(sep, i, deg);
    SlotIs(sep, i, deg);
    if j > 0 {
      SeedWordIs(NonzeroSeed(seed), j);
    } else {
      SeedWordFirst(NonzeroSeed(seed));
    }
  }

  lemma SlotIs(tail: nat, i: nat, n: nat)
    requires 0 < n && tail < n && i < n
    ensures Slot(tail, i, n) == (tail + i) % n
  {
  }

  /** Result `n` after seeding: ten rounds of the table, 10 * deg values, have been discarded. */
  lemma SeededStream(kind: nat, deg: nat, sep: nat, seed: word, n: nat, i: nat)
    requires Taps(kind, deg, sep) && i < n
    ensures 1 <= kind <= 4 && |FirstWords(kind, seed)| == Degree(kind)
    ensures Stream(Seeded(kind, seed), n)[i] == X(kind, FirstWords(kind, seed), 11 * deg + i) / 2
  {
    hide X, Stream, After, Window, SeedTable;
    TapsAre(kind, deg, sep);
    StreamOfRecurrence(kind, FirstWords(kind, seed), 10 * deg, n, i);
  }

  /** A sequence that starts with the seeded words, and in which each later value is the sum of the values `deg` and
      `sep` places before it modulo 2^32. */
  ghost predicate Generates(deg: nat, sep: nat, seed: word, f: nat -> word)
    requires 0 < sep < deg
  {
    && (forall k: nat :: k < deg ==>
          var s, j := Signed(if seed == 0 then 1 else seed), (sep + k) % deg;
          f(k) == Wrapped(if j == 0 then s else (Power(16807, j) * s) % 2147483647))
    && (forall k: nat :: k >= deg ==> f(k) as int == (f(k - deg) as int + f(k - sep) as int) % 0x1_0000_0000)
  }

  /** The whole generator in numbers: result `i` after seeding is value 11 * deg + i of that sequence without its lowest
      bit. */
  lemma SeededBy(kind: nat, deg: nat, sep: nat, seed: word, f: nat -> word, n: nat, i: nat)
    requires Taps(kind, deg, sep) && i < n && Generates(deg, sep, seed, f)
    ensures kind <= 4 && Stream(Seeded(kind, seed), n)[i] == f(11 * deg + i) / 2
  {
    hide X, Stream, Seeded, FirstWords, Generates;
    TapsAre(kind, deg, sep);
    SeededStream(kind, deg, sep, seed, n, i);
    SameRecurrence(kind, deg, sep, seed, f, 11 * deg + i);
  }

  lemma {:induction false} SameRecurrence(kind: nat, deg: nat, sep: nat, seed: word, f: nat -> word, n: nat)
    requires Taps(kind, deg, sep) && Generates(deg, sep, seed, f)
    ensures 1 <= kind <= 4 && |FirstWords(kind, seed)| == Degree(kind)
    ensures X(kind, FirstWords(kind, seed), n) == f(n)
  {
    hide FirstWords, Power, Wrapped, Signed;
    TapsAre(kind, deg, sep);
    if n < deg {
      FirstWordsAre(kind, deg, sep, seed, n);
    } else {
      SameRecurrence(kind, deg, sep, seed, f, n - deg);
      SameRecurrence(kind, deg, sep, seed, f, n - sep);
    }
  }

  /** A seed of 0 is a seed of 1. */
  lemma ZeroIsOne(kind: nat, n: nat)
    requires kind <= 4
    ensures Stream(Seeded(kind, 0), n) == Stream(Seeded(kind, 1), n)
  {
  }

  /** The first word of a saved array, in numbers. */
  lemma SavedWordIs(kind: nat, deg: nat, sep: nat, rear: nat)
    requires Taps(kind, deg, sep) && rear < deg
    ensures kind <= 4 && rear < Degree(kind) && SaveWord(kind, rear) as int == 5 * rear + kind && SaveWord(0, rear) == 0
  {
  }

  // ---------------------------------------------------------------- the congruential generator

  /** 1 + b + ... + b^(n - 1) */
  function Geometric(b: nat, n: nat): nat {
    if n == 0 then 0 else b * Geometric(b, n - 1) + 1
  }

  /** Draw `n` of type 0 in closed form, the draws being numbered from 1. */
  lemma {:induction false} LcgIs(x: word, n: nat)
    requires n > 0
    ensures var y := After(Lcg(x), n);
      y.Lcg? && y.x as int == (Power(1103515245, n) * x as nat + 12345 * Geometric(1103515245, n)) % 0x8000_0000
  {
    hide Power, Geometric;
    PowerNext(x, n);
    AfterNext(Lcg(x), n - 1);
    if n > 1 {
      LcgIs(x, n - 1);
      var t := Power(1103515245, n - 1) * x as nat + 12345 * Geometric(1103515245, n - 1);
      MulModPlus(1103515245, t, 12345, 0x8000_0000);
    }
  }

  lemma PowerNext(x: word, n: nat)
    requires n > 0
    ensures Power(1103515245, n) * x as nat + 12345 * Geometric(1103515245, n)
         == 1103515245 * (Power(1103515245, n - 1) * x as nat + 12345 * Geometric(1103515245, n - 1)) + 12345
    ensures Power(1103515245, 0) == 1 && Geometric(1103515245, 0) == 0
  {
    var a, p := 1103515245, Power(1103515245, n - 1);
    assert (a * p) * x as nat == a * (p * x as nat);
  }

  lemma MulModPlus(a: nat, t: nat, c: nat, m: nat)
    requires m > 0
    ensures (a * (t % m) + c) % m == (a * t + c) % m
  {
    var q := t / m;
    assert t == m * q + t % m;
    assert a * t + c == a * (t % m) + c + m * (a * q) by {
      assert a * t == a * (m * q) + a * (t % m);
      assert a * (m * q) == m * (a * q);
    }
    Congruent(a * (t % m) + c, a * q, m);
  }

  /** What type 0 returns after seeding. */
  lemma SeededLcg(seed: word, n: nat, i: nat)
    requires i < n
    ensures Stream(Seeded(0, seed), n)[i] as int ==
      (Power(1103515245, i + 1) * (if seed == 0 then 1 else seed) as nat + 12345 * Geometric(1103515245, i + 1))
        % 0x8000_0000
  {
    hide Power, Geometric, Stream, After;
    var s := NonzeroSeed(seed);
    StreamAt(Lcg(s), n, i);
    AfterNext(Lcg(s), i);
    LcgIs(s, i + 1);
    if i > 0 {
      LcgIs(s, i);
    } else {
      AfterNext(Lcg(s), 0);
    }
  }

  // ---------------------------------------------------------------- the code

  /** `count` draws. */
  method Draws(buf: RandomData, count: nat) returns (outs: seq<word>)
    requires buf.Valid()
    modifies buf`fptr, buf`rptr, buf.arr
    ensures buf.Valid() && outs == Stream(old(buf.Gen()), count) && buf.Gen() == After(old(buf.Gen()), count)
    ensures forall deg: nat, sep: nat :: Taps(buf.rand_type, deg, sep) ==>
              0 < sep < deg && Follows(outs, deg, sep)
  {
    hide Step, Stream, After, RandomData.Gen, Follows;
    outs := [];
    ghost var g := buf.Gen();
    NoDraws(g);
    KindOf(buf);
    for i := 0 to count
      invariant buf.Valid() && outs == Stream(g, i) && buf.Gen() == After(g, i)
    {
      NextDraw(g, i);
      var x := buf.RandomR();
      outs := outs + [x];
    }
    forall deg: nat, sep: nat | Taps(buf.rand_type, deg, sep)
      ensures 0 < sep < deg && Follows(outs, deg, sep)
    {
      assert 1 <= buf.rand_type;
      GenFollows(g, deg, sep, count);
    }
  }

  lemma KindOf(buf: RandomData)
    requires buf.Typed()
    ensures var g := buf.Gen(); if buf.rand_type == 0 then g.Lcg? else g.Additive? && g.kind == buf.rand_type
  {
  }

  lemma NoDraws(g: Gen)
    requires g.Valid()
    ensures Stream(g, 0) == [] && After(g, 0) == g
  {
  }

  lemma NextDraw(g: Gen, i: nat)
    requires g.Valid()
    ensures Stream(g, i + 1) == Stream(g, i) + [Step(After(g, i)).0] && After(g, i + 1) == Step(After(g, i)).1
  {
    hide Step;
  }

  lemma GenFollows(g: Gen, deg: nat, sep: nat, n: nat)
    requires g.Valid() && g.Additive? && Taps(g.kind, deg, sep)
    ensures 0 < sep < deg && Follows(Stream(g, n), deg, sep)
  {
    hide Stream, Follows;
    TapsAre(g.kind, deg, sep);
    NoDraws(g);
    StreamFollows(g.kind, deg, sep, g.window, 0, n);
  }

  /** Seed, then draw: for the additive types draw `n` is the value 11 * deg + n of the recurrence without its lowest
      bit. */
  method SeedAndDraw(buf: RandomData, seed: word, count: nat) returns (outs: seq<word>)
    requires buf.Typed()
    modifies buf`fptr, buf`rptr, buf.arr
    ensures buf.Valid() && outs == Stream(Seeded(buf.rand_type, seed), count)
    ensures forall deg: nat, sep: nat, n: nat :: Taps(buf.rand_type, deg, sep) && n < count ==>
              outs[n] == X(buf.rand_type, FirstWords(buf.rand_type, seed), 11 * deg + n) / 2
  {
    hide Stream, After, X, FirstWords, Seeded;
    buf.SrandomR(seed);
    outs := Draws(buf, count);
    forall deg: nat, sep: nat, n: nat | Taps(buf.rand_type, deg, sep) && n < count
      ensures outs[n] == X(buf.rand_type, FirstWords(buf.rand_type, seed), 11 * deg + n) / 2
    {
      SeededStream(buf.rand_type, deg, sep, seed, count, n);
    }
  }
}
