/** The additive-feedback random generator. A state array holds one word that multiplexes the rear
    pointer and the type, and then the table. */
module Random {
  import opened Bytes
  import opened Modular
  import opened Words

  const MAX_TYPES := 5

  function Degree(kind: nat): nat {
    if kind == 1 then 7 else if kind == 2 then 15 else if kind == 3 then 31 else if kind == 4 then 63 else 0
  }

  function Separation(kind: nat): nat {
    if kind == 1 then 3 else if kind == 2 then 1 else if kind == 3 then 3 else if kind == 4 then 1 else 0
  }

  // ---------------------------------------------------------------- generators as values

  /** The congruential generator of type 0, or the last Degree(kind) values of an additive one, oldest
      first. */
  datatype Gen = Lcg(x: word) | Additive(kind: nat, window: seq<word>)
  {
    ghost predicate Valid() {
      Additive? ==> 1 <= kind <= 4 && |window| == Degree(kind)
    }
  }

  function NextLcg(x: word): word {
    ((x as nat * 1103515245 + 12345) % 0x8000_0000) as word
  }

  /** The result of one call and the generator after it. */
  function Step(g: Gen): (r: (word, Gen))
    requires g.Valid()
    ensures r.1.Valid()
  {
    match g
    case Lcg(x) => (NextLcg(x), Lcg(NextLcg(x)))
    case Additive(kind, w) =>
      var x := Add(w[0], w[Degree(kind) - Separation(kind)]);
      (x / 2, Additive(kind, w[1..] + [x]))
  }

  function After(g: Gen, n: nat): (r: Gen)
    requires g.Valid()
    ensures r.Valid()
  {
    if n == 0 then g else Step(After(g, n - 1)).1
  }

  lemma AfterNext(g: Gen, n: nat)
    requires g.Valid()
    ensures After(g, 0) == g && After(g, n + 1) == Step(After(g, n)).1
  {
  }

  /** The results of the next `n` calls. */
  function Stream(g: Gen, n: nat): (r: seq<word>)
    requires g.Valid()
    ensures |r| == n
  {
    if n == 0 then [] else Stream(g, n - 1) + [Step(After(g, n - 1)).0]
  }

  // ---------------------------------------------------------------- the recurrence

  /** x[n] = x[n - deg] + x[n - sep] mod 2^32, from the first Degree(kind) values. */
  function X(kind: nat, first: seq<word>, n: nat): word
    requires 1 <= kind <= 4 && |first| == Degree(kind)
  {
    if n < Degree(kind) then first[n]
    else Add(X(kind, first, n - Degree(kind)), X(kind, first, n - Separation(kind)))
  }

  /** x[n] to x[n + deg - 1] */
  function Xs(kind: nat, first: seq<word>, n: nat): (r: seq<word>)
    requires 1 <= kind <= 4 && |first| == Degree(kind)
    ensures |r| == Degree(kind)
  {
    seq(Degree(kind), i requires 0 <= i < Degree(kind) => X(kind, first, n + i))
  }

  lemma XsShift(kind: nat, first: seq<word>, n: nat)
    requires 1 <= kind <= 4 && |first| == Degree(kind)
    ensures var w, x := Xs(kind, first, n), X(kind, first, n + Degree(kind));
      x == Add(w[0], w[Degree(kind) - Separation(kind)]) && Xs(kind, first, n + 1) == w[1..] + [x]
  {
  }

  lemma XsFirst(kind: nat, first: seq<word>)
    requires 1 <= kind <= 4 && |first| == Degree(kind)
    ensures Xs(kind, first, 0) == first
  {
    forall i: nat | i < |first|
      ensures Xs(kind, first, 0)[i] == first[i]
    {
      assert X(kind, first, 0 + i) == first[i];
    }
  }

  /** The generator implements the recurrence: after `n` calls it holds x[n] to x[n + deg - 1], and call `n`
      returns x[n + deg] without its lowest bit. */
  lemma {:induction false} RefinesRecurrence(kind: nat, first: seq<word>, n: nat)
    requires 1 <= kind <= 4 && |first| == Degree(kind)
    ensures var g := After(Additive(kind, first), n);
      && g.Additive? && g.kind == kind
      && g.window == Xs(kind, first, n)
      && Step(g).0 == X(kind, first, n + Degree(kind)) / 2
  {
    hide X, Xs, Add;
    if n == 0 {
      XsFirst(kind, first);
    } else {
      RefinesRecurrence(kind, first, n - 1);
      XsShift(kind, first, n - 1);
    }
    XsShift(kind, first, n);
  }

  // ---------------------------------------------------------------- tables in arrays

  /** The values of a table, oldest first, when the front pointer is `front`. */
  function Window(table: seq<word>, front: nat): (r: seq<word>)
    requires |table| > 0
    ensures |r| == |table|
  {
    seq(|table|, i requires 0 <= i < |table| => table[Slot(front, i, |table|)])
  }

  ghost predicate Pointers(kind: nat, front: nat, rear: nat) {
    && 1 <= kind <= 4
    && front < Degree(kind) && rear < Degree(kind)
    && front == Slot(rear, Separation(kind), Degree(kind))
  }

  /** The next place in the table. */
  function Up(p: nat, deg: nat): nat {
    if p + 1 == deg then 0 else p + 1
  }

  lemma PointersUp(front: nat, rear: nat, sep: nat, deg: nat)
    requires 0 < sep < deg && rear < deg && front == Slot(rear, sep, deg)
    ensures Slot(front, deg - sep, deg) == rear
    ensures Up(front, deg) == Slot(Up(rear, deg), sep, deg)
    ensures !(front + 1 == deg && rear + 1 == deg)
  {
    SlotOf(rear, sep, deg);
    SlotOf(front, deg - sep, deg);
    SlotOf(Up(rear, deg), sep, deg);
    hide Slot;
  }

  lemma WindowEnds(table: seq<word>, front: nat, back: nat)
    requires front < |table| && back < |table|
    ensures Window(table, front)[0] == table[front]
    ensures Window(table, front)[back] == table[Slot(front, back, |table|)]
  {
    SlotOf(front, 0, |table|);
    hide Slot;
  }

  lemma Trinomial(kind: nat)
    requires 1 <= kind <= 4
    ensures 0 < Separation(kind) < Degree(kind)
  {
  }

  /** One addition in the table. The pointers never both reach its end. */
  lemma TableStep(kind: nat, table: seq<word>, front: nat, rear: nat)
    requires Pointers(kind, front, rear) && |table| == Degree(kind)
    ensures var x := Add(table[front], table[rear]);
      && Step(Additive(kind, Window(table, front)))
         == (x / 2, Additive(kind, Window(table[front := x], Up(front, |table|))))
      && Pointers(kind, Up(front, |table|), Up(rear, |table|))
      && !(front + 1 == |table| && rear + 1 == |table|)
  {
    Trinomial(kind);
    hide Add, Window, Degree, Separation, Slot;
    var deg, sep := Degree(kind), Separation(kind);
    PointersUp(front, rear, sep, deg);
    WindowEnds(table, front, deg - sep);
    WindowStep(table, front, Add(table[front], table[rear]));
  }

  lemma WindowStep(table: seq<word>, front: nat, x: word)
    requires |table| > 1 && front < |table|
    ensures Window(table[front := x], Up(front, |table|)) == Window(table, front)[1..] + [x]
  {
    var deg := |table|;
    var front' := Up(front, deg);
    hide Slot;
    forall i | 0 <= i < deg
      ensures Window(table[front := x], front')[i] == (Window(table, front)[1..] + [x])[i]
    {
      SlotOf(front', i, deg);
      if i < deg - 1 {
        SlotOf(front, i + 1, deg);
      }
    }
  }

  // ---------------------------------------------------------------- seeding

  /** C division and remainder, which round towards zero. */
  function Quotient(a: int, b: nat): int
    requires b > 0
  {
    if a >= 0 then a / b else -(-a / b)
  }

  function RemainderOf(a: int, b: nat): int
    requires b > 0
  {
    a - b * Quotient(a, b)
  }

  const MODULUS := 2147483647

  ghost predicate Int32(a: int) {
    -0x8000_0000 <= a < 0x8000_0000
  }

  /** The seeding step as the code computes it. */
  function Schrage(w: int): int {
    var hi, lo := Quotient(w, 127773), RemainderOf(w, 127773);
    var t := 16807 * lo - 2836 * hi;
    if t < 0 then t + MODULUS else t
  }

  /** It is multiplication by 16807 modulo 2^31 - 1, for every 32-bit number, negative ones too, and no
      intermediate value leaves the 32-bit signed range. */
  lemma SchrageIsModular(w: int)
    requires Int32(w)
    ensures Schrage(w) == (16807 * w) % MODULUS
    ensures var hi, lo := Quotient(w, 127773), RemainderOf(w, 127773);
      Int32(16807 * lo) && Int32(2836 * hi) && Int32(16807 * lo - 2836 * hi)
  {
    SchrageParts(w);
    var hi, lo := Quotient(w, 127773), RemainderOf(w, 127773);
    var t := 16807 * lo - 2836 * hi;
    hide Quotient, RemainderOf;
    Modulo(16807 * w, if t < 0 then hi - 1 else hi, Schrage(w));
  }

  lemma SchrageParts(w: int)
    requires Int32(w)
    ensures var hi, lo := Quotient(w, 127773), RemainderOf(w, 127773);
      w == 127773 * hi + lo && -127773 < lo < 127773 && -16808 < hi < 16808
  {
  }

  lemma Modulo(a: int, q: int, r: int)
    requires a == MODULUS * q + r && 0 <= r < MODULUS
    ensures a % MODULUS == r
  {
  }

  /** The words of the table before the first draw. */
  function SeedWord(seed: word, i: nat): int {
    if i == 0 then Signed(seed) else Schrage(SeedWord(seed, i - 1))
  }

  lemma {:induction false} SeedWordRange(seed: word, i: nat)
    ensures Int32(SeedWord(seed, i)) && (i > 0 ==> 0 <= SeedWord(seed, i) < MODULUS)
  {
    if i > 0 {
      SeedWordRange(seed, i - 1);
      SchrageIsModular(SeedWord(seed, i - 1));
    }
  }

  /** Multiplication by 16807 can be undone. */
  lemma ZeroComesFromZero(w: int)
    requires (16807 * w) % MODULUS == 0
    ensures w % MODULUS == 0
  {
    var q := (16807 * w) / MODULUS;
    assert 16807 * w == MODULUS * q;
    assert w == MODULUS * (1407677000 * q - 11017 * w);
  }

  lemma {:induction false} SeedWordNonzero(seed: word, i: nat)
    requires Signed(seed) % MODULUS != 0
    ensures SeedWord(seed, i) % MODULUS != 0
  {
    hide Schrage;
    if i > 0 {
      SeedWordNonzero(seed, i - 1);
      SeedWordRange(seed, i - 1);
      SchrageIsModular(SeedWord(seed, i - 1));
      if SeedWord(seed, i) % MODULUS == 0 {
        ZeroComesFromZero(SeedWord(seed, i - 1));
      }
    }
  }

  ghost predicate NoZeroWord(seed: word, deg: nat) {
    forall i: nat :: i < deg ==> SeedWord(seed, i) != 0
  }

  lemma SecondWordZero(seed: word)
    requires seed == 0x7FFF_FFFF || seed == 0x8000_0001
    ensures SeedWord(seed, 1) == 0
  {
    SchrageIsModular(Signed(seed));
  }

  /** The table has no zero word for any seed but the two that are multiples of the modulus. The code replaces
      a seed of 0 by 1. */
  lemma NoZeroWordIff(seed: word, deg: nat)
    requires seed != 0 && deg >= 2
    ensures NoZeroWord(seed, deg) <==> seed != 0x7FFF_FFFF && seed != 0x8000_0001
  {
    hide Schrage, SeedWord;
    if seed == 0x7FFF_FFFF || seed == 0x8000_0001 {
      SecondWordZero(seed);
    } else {
      assert Signed(seed) % MODULUS != 0;
      forall i: nat | i < deg
        ensures SeedWord(seed, i) != 0
      {
        SeedWordNonzero(seed, i);
      }
    }
  }

  function SeedTable(seed: word, deg: nat): (r: seq<word>)
    ensures |r| == deg
  {
    seq(deg, i requires 0 <= i < deg => Wrapped(SeedWord(seed, i)))
  }

  function NonzeroSeed(seed: word): word {
    if seed == 0 then 1 else seed
  }

  /** The generator that seeding sets up: for the additive types the table with the front pointer at
      `sep`, advanced by ten times its length. */
  function Seeded(kind: nat, seed: word): (g: Gen)
    requires kind <= 4
    ensures g.Valid()
  {
    if kind == 0 then Lcg(NonzeroSeed(seed))
    else After(Additive(kind, Window(SeedTable(NonzeroSeed(seed), Degree(kind)), Separation(kind))), 10 * Degree(kind))
  }

  // ---------------------------------------------------------------- the state array

  /** The type and the rear pointer that the first word of a state array multiplexes. The word is read as a
      signed number. */
  function SavedType(w: word): int {
    RemainderOf(Signed(w), MAX_TYPES)
  }

  function SavedRear(w: word): int {
    Quotient(Signed(w), MAX_TYPES)
  }

  function SaveWord(kind: nat, rear: nat): word
    requires kind <= 4 && (kind != 0 ==> rear < Degree(kind))
  {
    if kind == 0 then 0 else (MAX_TYPES * rear + kind) as word
  }

  lemma SaveWordRead(kind: nat, rear: nat)
    requires kind <= 4 && (kind != 0 ==> rear < Degree(kind))
    ensures SavedType(SaveWord(kind, rear)) == kind
    ensures kind != 0 ==> SavedRear(SaveWord(kind, rear)) == rear
  {
  }

  /** A state array that some generator was left in. */
  ghost predicate Saved(a: seq<word>) {
    && |a| >= 2
    && 0 <= SavedType(a[0]) <= 4
    && |a| >= 1 + Degree(SavedType(a[0]))
    && (SavedType(a[0]) != 0 ==> 0 <= SavedRear(a[0]) < Degree(SavedType(a[0])))
  }

  function Front(kind: nat, rear: nat): (r: nat)
    requires 1 <= kind <= 4
    ensures r < Degree(kind)
  {
    Slot(rear, Separation(kind), Degree(kind))
  }

  /** The generator in a state array, given its type and front pointer. */
  function GenOf(a: seq<word>, kind: nat, front: nat): (g: Gen)
    requires kind <= 4 && |a| >= 2 && |a| >= 1 + Degree(kind)
    ensures g.Valid()
  {
    if kind == 0 then Lcg(a[1]) else Additive(kind, Window(a[1..1 + Degree(kind)], front))
  }

  ghost function SavedGen(a: seq<word>): (g: Gen)
    requires Saved(a)
    ensures g.Valid()
  {
    var kind := SavedType(a[0]);
    GenOf(a, kind, if kind == 0 then 0 else Front(kind, SavedRear(a[0])))
  }

  /** The generator does not depend on the first word. */
  lemma GenOfTail(a: seq<word>, b: seq<word>, kind: nat, front: nat)
    requires kind <= 4 && |a| >= 2 && |a| >= 1 + Degree(kind)
    requires |b| == |a| && b[1..] == a[1..]
    ensures GenOf(b, kind, front) == GenOf(a, kind, front)
  {
    assert b[1] == b[1..][0] == a[1..][0] == a[1];
    assert b[1..1 + Degree(kind)] == b[1..][..Degree(kind)] == a[1..][..Degree(kind)] == a[1..1 + Degree(kind)];
  }

  /** Writing the pointer and the type into the first word saves the generator. */
  lemma SavedByWord(a: seq<word>, kind: nat, front: nat, rear: nat)
    requires kind <= 4 && |a| >= 2 && |a| >= 1 + Degree(kind)
    requires kind != 0 ==> Pointers(kind, front, rear)
    ensures var b := a[0 := SaveWord(kind, rear)];
      Saved(b) && SavedGen(b) == GenOf(a, kind, front)
  {
    var b := a[0 := SaveWord(kind, rear)];
    SaveWordRead(kind, rear);
    hide SaveWord, SavedType, SavedRear, Window;
    GenOfTail(a, b, kind, front);
  }

  /** One draw from the array: add the word at the rear into the word at the front and advance. */
  lemma DrawIsStep(a: seq<word>, kind: nat, front: nat, rear: nat)
    requires Pointers(kind, front, rear) && |a| >= 1 + Degree(kind)
    ensures var deg, x := Degree(kind), Add(a[1 + front], a[1 + rear]);
      && Step(GenOf(a, kind, front)) == (x / 2, GenOf(a[1 + front := x], kind, Up(front, deg)))
      && Pointers(kind, Up(front, deg), Up(rear, deg))
      && !(front + 1 == deg && rear + 1 == deg)
  {
    var deg, x := Degree(kind), Add(a[1 + front], a[1 + rear]);
    var table := a[1..1 + deg];
    TableStep(kind, table, front, rear);
    assert a[1 + front := x][1..1 + deg] == table[front := x];
    hide Step, Window, Add, Up;
  }

  lemma LcgIsStep(a: seq<word>, front: nat)
    requires |a| >= 2
    ensures var x := NextLcg(a[1]);
      Step(GenOf(a, 0, front)) == (x, GenOf(a[1 := x], 0, front))
  {
  }

  /** The type for a state array of `n` bytes, if there is one. */
  function TypeFor(n: nat): int {
    if n >= 128 then (if n < 256 then 3 else 4)
    else if n < 32 then (if n < 8 then -1 else 0)
    else if n < 64 then 1 else 2
  }

  /** Any array that is long enough for its type holds the whole table. */
  lemma TypeFits(n: nat)
    requires n >= 8
    ensures 0 <= TypeFor(n) <= 4 && n / 4 >= 1 + Degree(TypeFor(n)) && n / 4 >= 2
    ensures forall kind: nat :: TypeFor(n) < kind <= 4 ==> n / 4 < 1 + Degree(kind)
  {
  }

  lemma SlotUp(c: nat, deg: nat)
    requires deg > 0
    ensures Up(Slot(0, c, deg), deg) == Slot(0, c + 1, deg)
  {
    Next(c, deg);
  }

  lemma SlotTurns(n: nat, deg: nat)
    requires deg > 0
    ensures Slot(0, n * deg, deg) == 0
  {
    Remainder(n * deg, deg, n, 0);
  }

  lemma PointersHome(r: RandomData)
    requires r.Valid() && r.rand_type != 0 && r.rptr == 0
    ensures r.fptr == r.rand_sep && r.rand_deg == Degree(r.rand_type) > 0
  {
  }

  /** The seeding step, statement by statement. */
  lemma SeedWordNext(seed: word, i: nat)
    requires i > 0
    ensures var w := SeedWord(seed, i - 1);
      var t := 16807 * RemainderOf(w, 127773) - 2836 * Quotient(w, 127773);
      SeedWord(seed, i) == if t < 0 then t + MODULUS else t
  {
  }

  lemma SeedWordFirst(seed: word)
    ensures SeedWord(seed, 0) == Signed(seed) && Wrapped(Signed(seed)) == seed
  {
  }

  /** The seeding loop. */
  method FillTable(arr: array<word>, deg: nat, seed: word)
    requires deg > 0 && arr.Length >= 1 + deg
    modifies arr
    ensures arr[1..1 + deg] == SeedTable(seed, deg)
    ensures arr[0] == old(arr[0])
  {
    hide Signed, Wrapped, SeedWord, Schrage, Quotient, RemainderOf;
    SeedWordFirst(seed);
    arr[1] := seed;
    var w := Signed(seed);
    var i := 1;
    while i < deg
      invariant 1 <= i <= deg
      invariant w == SeedWord(seed, i - 1)
      invariant arr[0] == old(arr[0])
      invariant forall j | 1 <= j <= i :: arr[j] == Wrapped(SeedWord(seed, j - 1))
    {
      SeedWordNext(seed, i);
      var hi, lo := Quotient(w, 127773), RemainderOf(w, 127773);
      w := 16807 * lo - 2836 * hi;
      if w < 0 {
        w := w + MODULUS;
      }
      arr[1 + i] := Wrapped(w);
      i := i + 1;
    }
  }

  class RandomData {
    var arr: array<word>    // the state array: the saved word, then the table
    var fptr: nat           // the pointers are indices into the table
    var rptr: nat
    var rand_type: nat
    var rand_deg: nat
    var rand_sep: nat

    ghost predicate Typed()
      reads this
    {
      && rand_type <= 4 && rand_deg == Degree(rand_type) && rand_sep == Separation(rand_type)
      && arr.Length >= 2 && arr.Length >= 1 + rand_deg
    }

    ghost predicate Valid()
      reads this
    {
      Typed() && (rand_type != 0 ==> Pointers(rand_type, fptr, rptr))
    }

    ghost function Gen(): (g: Gen)
      requires Typed()
      reads this, arr
      ensures g.Valid()
    {
      GenOf(arr[..], rand_type, fptr)
    }

    /** One draw. Only one of the pointers is tested for the end of the table: they never both reach it. */
    method RandomR() returns (result: word)
      requires Valid()
      modifies this`fptr, this`rptr, arr
      ensures Valid() && (result, Gen()) == Step(old(Gen()))
      ensures arr[0] == old(arr[0])
      ensures rand_type != 0 ==> rptr == Up(old(rptr), rand_deg)
    {
      hide GenOf, Step, Add, Front, Degree, Separation, Slot;
      ghost var a := arr[..];
      if rand_type == 0 {
        LcgIsStep(a, fptr);
        var val := NextLcg(arr[1]);
        arr[1] := val;
        assert arr[..] == a[1 := val];
        result := val;
      } else {
        DrawIsStep(a, rand_type, fptr, rptr);
        var val := Add(arr[1 + fptr], arr[1 + rptr]);
        arr[1 + fptr] := val;
        assert arr[..] == a[1 + fptr := val];
        result := val / 2;
        fptr := fptr + 1;
        if fptr >= rand_deg {
          fptr := 0;
          rptr := rptr + 1;
        } else {
          rptr := rptr + 1;
          if rptr >= rand_deg {
            rptr := 0;
          }
        }
      }
    }

    /** Seeding: the Schrage recurrence fills the table and ten rounds of draws are discarded, after which both
        pointers are back where they started. */
    method SrandomR(seed: word)
      requires Typed()
      modifies this`fptr, this`rptr, arr
      ensures Valid() && Gen() == Seeded(rand_type, seed)
      ensures rand_type != 0 ==> fptr == rand_sep && rptr == 0
      ensures arr[0] == old(arr[0])
    {
      var s := NonzeroSeed(seed);
      if rand_type == 0 {
        arr[1] := s;
      } else {
        FillTable(arr, rand_deg, s);
        fptr := rand_sep;
        rptr := 0;
        ghost var start := Gen();
        assert start == Additive(rand_type, Window(SeedTable(s, rand_deg), rand_sep));
        Discard();
      }
    }

    /** Ten rounds of draws. */
    method Discard()
      requires Valid() && rand_type != 0 && rptr == 0
      modifies this`fptr, this`rptr, arr
      ensures Valid() && Gen() == After(old(Gen()), 10 * rand_deg)
      ensures fptr == old(fptr) && rptr == 0
      ensures arr[0] == old(arr[0])
    {
      hide Gen, Pointers, Degree, Separation, Step, Slot, Up, After;
      PointersHome(this);
      ghost var start := Gen();
      AfterNext(start, 0);
      SlotTurns(0, rand_deg);
      ghost var c := 0;
      var kc := 10 * rand_deg;
      while kc > 0
        invariant kc >= 0 && kc + c == 10 * rand_deg && rand_deg == Degree(rand_type)
        invariant Valid() && Gen() == After(start, c)
        invariant rptr == Slot(0, c, rand_deg)
        invariant arr[0] == old(arr[0])
      {
        var discard := RandomR();
        SlotUp(c, rand_deg);
        AfterNext(start, c);
        c := c + 1;
        kc := kc - 1;
      }
      SlotTurns(10, rand_deg);
      PointersHome(this);
    }

    /** Start on a state array of `n` bytes: choose the best type that fits, seed, and save the pointer and
        the type in the first word. The state in use before is not saved. */
    method InitstateR(seed: word, state: array<word>, n: nat) returns (ok: bool)
      requires state.Length == n / 4
      modifies this, state
      ensures ok == (n >= 8)
      ensures !ok ==> unchanged(this) && unchanged(state)
      ensures ok ==> Valid() && arr == state && rand_type == TypeFor(n) && Gen() == Seeded(TypeFor(n), seed)
      ensures ok ==> Saved(state[..]) && SavedGen(state[..]) == Gen()
      ensures ok ==> state[0] == SaveWord(rand_type, rptr) && (rand_type != 0 ==> fptr == rand_sep && rptr == 0)
      ensures old(arr) != state ==> old(arr)[..] == old(arr[..])
    {
      var kind := TypeFor(n);
      if kind < 0 {
        return false;
      }
      TypeFits(n);
      rand_type := kind;
      rand_sep := Separation(kind);
      rand_deg := Degree(kind);
      arr := state;
      SrandomR(seed);
      SaveState();
      return true;
    }

    /** Save the pointer and the type in the first word of the state array. */
    method SaveState()
      requires Valid()
      modifies arr
      ensures Valid() && Gen() == old(Gen())
      ensures Saved(arr[..]) && SavedGen(arr[..]) == Gen()
      ensures arr[1..] == old(arr[1..])
      ensures arr[0] == SaveWord(rand_type, rptr)
    {
      ghost var a := arr[..];
      SavedByWord(a, rand_type, fptr, rptr);
      arr[0] := if rand_type == 0 then 0 else (MAX_TYPES * rptr + rand_type) as word;
      assert arr[..] == a[0 := arr[0]];
      GenOfTail(a, arr[..], rand_type, fptr);
    }

    /** Leave the array in use and take up another: any array saved before, or the one in use itself. A first
        word with no type in it is refused, after the array in use has been saved. */
    method SetstateR(state: array<word>) returns (ok: bool)
      requires Valid() && state.Length > 0
      requires state != arr && 0 <= SavedType(state[0]) ==> Saved(state[..])
      modifies this, arr
      ensures ok == (state == old(arr) || 0 <= old(SavedType(state[0])))
      ensures Saved(old(arr)[..]) && SavedGen(old(arr)[..]) == old(Gen())
      ensures state != old(arr) ==> state[..] == old(state[..])
      ensures Valid() && arr == if ok then state else old(arr)
      ensures Gen() == if ok && state != old(arr) then old(SavedGen(state[..])) else old(Gen())
    {
      SaveState();
      var word := state[0];
      var kind := SavedType(word);
      if kind < 0 || kind > 4 {
        return false;
      }
      TakeUp(state, kind);
      return true;
    }

    /** The second half of SetstateR. */
    method TakeUp(state: array<word>, kind: nat)
      requires Saved(state[..]) && kind == SavedType(state[0])
      modifies this
      ensures Valid() && arr == state && Gen() == SavedGen(state[..])
    {
      rand_deg := Degree(kind);
      rand_sep := Separation(kind);
      rand_type := kind;
      if kind != 0 {
        var rear := SavedRear(state[0]);
        rptr := rear;
        fptr := (rear + rand_sep) % rand_deg;
      }
      arr := state;
    }
  }
}
