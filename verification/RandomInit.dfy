/** Initialising state arrays while others are in use: what is saved, what is not, and the streams that come out. */
module RandomInit {
  import opened Bytes
  import opened Modular
  import opened Random
  import opened RandomSwitch
  import opened Words

  // ---------------------------------------------------------------- the array in use before

  /** The first word of the array in use says where its pointers are. It does after setstate_r, and after initstate_r
      until the next draw. */
  ghost predicate WordIsRight(w: word, kind: nat, rear: nat) {
    SavedType(w) == kind && (kind != 0 ==> SavedRear(w) == rear)
  }

  ghost predicate ResumesAs(a: seq<word>, kind: nat, front: nat)
    requires kind <= 4 && |a| >= 2 && |a| >= 1 + Degree(kind)
  {
    Saved(a) && SavedGen(a) == GenOf(a, kind, front)
  }

  /** An array that is left without being saved resumes where it was, whatever is in its table, exactly when its first
      word is right. */
  lemma ResumesIff(w: word, kind: nat, front: nat, rear: nat)
    requires kind <= 4 && (kind != 0 ==> Pointers(kind, front, rear))
    ensures (forall a: seq<word> :: |a| >= 2 && |a| >= 1 + Degree(kind) && a[0] == w ==> ResumesAs(a, kind, front))
       <==> WordIsRight(w, kind, rear)
  {
    if WordIsRight(w, kind, rear) {
      forall a: seq<word> | |a| >= 2 && |a| >= 1 + Degree(kind) && a[0] == w
        ensures ResumesAs(a, kind, front)
      {
        RightResumes(a, kind, front, rear);
      }
    } else {
      var a := Counting(w, if kind == 0 then 1 else Degree(kind));
      WrongDoesNot(a, w, kind, front, rear);
    }
  }

  lemma RightResumes(a: seq<word>, kind: nat, front: nat, rear: nat)
    requires kind <= 4 && |a| >= 2 && |a| >= 1 + Degree(kind) && (kind != 0 ==> Pointers(kind, front, rear))
    requires WordIsRight(a[0], kind, rear)
    ensures ResumesAs(a, kind, front)
  {
    hide Window, SavedType, SavedRear;
  }

  function Counting(w: word, deg: nat): (a: seq<word>)
    requires deg <= 63
    ensures |a| == 1 + deg
  {
    [w] + seq(deg, i requires 0 <= i < deg => i as word)
  }

  lemma WrongDoesNot(a: seq<word>, w: word, kind: nat, front: nat, rear: nat)
    requires kind <= 4 && (kind != 0 ==> Pointers(kind, front, rear)) && !WordIsRight(w, kind, rear)
    requires a == Counting(w, if kind == 0 then 1 else Degree(kind))
    ensures !ResumesAs(a, kind, front)
  {
    hide SavedType, SavedRear, Slot;
    if Saved(a) && SavedType(w) == kind {
      var deg, other := Degree(kind), SavedRear(w);
      Trinomial(kind);
      SlotOf(rear, Separation(kind), deg);
      SlotOf(other, Separation(kind), deg);
      WindowEnds(a[1..1 + deg], front, 0);
      WindowEnds(a[1..1 + deg], Front(kind, other), 0);
      assert Front(kind, other) != front;
    }
  }

  /** Leaving an array with the right word for a newly initialised one and coming back. */
  method Detour(buf: RandomData, b: array<word>, n: nat, seed: word)
    requires buf.Valid() && WordIsRight(buf.arr[0], buf.rand_type, buf.rptr)
    requires b != buf.arr && b.Length == n / 4
    modifies buf, buf.arr, b
    ensures buf.Valid() && buf.arr == old(buf.arr) && buf.Gen() == old(buf.Gen())
  {
    hide GenOf, Saved, SavedGen, Pointers, Degree, Separation, WordIsRight;
    var a := buf.arr;
    LeftBehind(buf);
    ghost var gen := buf.Gen();
    var ok := buf.InitstateR(seed, b, n);
    if ok {
      ok := buf.SetstateR(a);
    }
  }

  lemma LeftBehind(buf: RandomData)
    requires buf.Valid() && WordIsRight(buf.arr[0], buf.rand_type, buf.rptr)
    ensures Saved(buf.arr[..]) && SavedGen(buf.arr[..]) == buf.Gen()
    ensures 0 <= SavedType(buf.arr[0])
  {
    RightResumes(buf.arr[..], buf.rand_type, buf.fptr, buf.rptr);
  }

  // ---------------------------------------------------------------- an input on which a draw is forgotten

  /** The lowest bit of x[n] for type 1 and seed 1. */
  function Odd(n: nat): bool {
    if n < 7 then n == 0 || n >= 4 else Odd(n - 7) != Odd(n - 3)
  }

  function FirstWindow(): (r: seq<word>)
    ensures |r| == 7
  {
    Window(SeedTable(1, 7), 3)
  }

  lemma FirstWords()
    ensures SeedWord(1, 0) == 1 && SeedWord(1, 1) == 16807 && SeedWord(1, 2) == 282475249
    ensures SeedWord(1, 3) == 1622650073 && SeedWord(1, 4) == 984943658
    ensures SeedWord(1, 5) == 1144108930 && SeedWord(1, 6) == 470211272
  {
    assert SeedWord(1, 1) == 16807 && SeedWord(1, 2) == 282475249;
    assert SeedWord(1, 3) == 1622650073;
    assert SeedWord(1, 4) == 984943658;
    assert SeedWord(1, 5) == 1144108930;
  }

  lemma FirstBits(n: nat)
    requires n < 7
    ensures FirstWindow()[n] as int % 2 == (if Odd(n) then 1 else 0)
  {
    FirstWords();
    hide SeedWord, Slot;
    SlotOf(3, n, 7);
  }

  lemma {:induction false} Bits(n: nat)
    ensures X(1, FirstWindow(), n) as int % 2 == (if Odd(n) then 1 else 0)
  {
    hide FirstWindow;
    if n < 7 {
      FirstBits(n);
    } else {
      Bits(n - 7);
      Bits(n - 3);
      SumBits(X(1, FirstWindow(), n - 7), X(1, FirstWindow(), n - 3));
    }
  }

  lemma SumBits(a: word, b: word)
    ensures Add(a, b) as int % 2 == (a as int % 2 + b as int % 2) % 2
  {
    var s := a as int + b as int;
    assert s % WRAP == s || s % WRAP == s - WRAP;
  }

  /** Read from the next front pointer, a table is a different window unless its first two words are the same. */
  lemma Rotated(table: seq<word>, front: nat)
    requires front < |table| && |table| > 2
    ensures var w := Window(table, Up(front, |table|));
      Window(table, front) == w ==> w[0] == w[1]
  {
    hide Slot;
    var n := |table|;
    SlotOf(front, 1, n);
    SlotOf(front, 2, n);
    SlotOf(Up(front, n), 0, n);
    SlotOf(Up(front, n), 1, n);
  }

  /** After seeding with 1 and one draw, the table read from the pointer saved before the draw is not the generator. */
  lemma DrawForgotten(a: seq<word>)
    requires |a| == 8 && SavedType(a[0]) == 1 && SavedRear(a[0]) == 0
    requires GenOf(a, 1, 4) == After(Seeded(1, 1), 1)
    ensures Saved(a) && SavedGen(a) != GenOf(a, 1, 4)
  {
    hide SavedType, SavedRear, After, Slot, X, SeedTable;
    var start := Additive(1, FirstWindow());
    assert Seeded(1, 1) == After(start, 70);
    AfterNext(Seeded(1, 1), 0);
    AfterNext(start, 70);
    RefinesRecurrence(1, FirstWindow(), 71);
    Rotated(a[1..8], 3);
    Bits(71);
    Bits(72);
    Odd71();
    SlotOf(0, 3, 7);
  }

  lemma Odd71()
    ensures !Odd(71) && Odd(72)
  {
  }

  /** Initialise `a` with seed 1, draw once, initialise `b`, and go back to `a`: the draw is forgotten. */
  method DrawThenInit(buf: RandomData, a: array<word>, b: array<word>, n: nat, seed: word)
    returns (ghost before: Gen)
    requires a != b && a.Length == 8 && b.Length == n / 4 && n >= 8
    modifies buf, a, b
    ensures before == After(Seeded(1, 1), 1)
    ensures buf.Valid() && buf.arr == a && buf.Gen() != before
  {
    hide GenOf, Saved, SavedGen, Seeded, After, Step, SavedType, SavedRear;
    var ok := buf.InitstateR(1, a, 32);
    SaveWordRead(1, 0);
    AfterNext(Seeded(1, 1), 0);
    var x := buf.RandomR();
    before := buf.Gen();
    SlotOf(1, 3, 7);
    DrawForgotten(a[..]);
    ok := buf.InitstateR(seed, b, n);
    ok := buf.SetstateR(a);
  }

  // ---------------------------------------------------------------- many initialised arrays

  ghost function Fresh(sizes: seq<nat>, seeds: seq<word>): (gens: seq<Gen>)
    requires |sizes| == |seeds| && forall i :: 0 <= i < |sizes| ==> sizes[i] >= 8
    ensures |gens| == |sizes| && forall i :: 0 <= i < |gens| ==> gens[i].Valid()
  {
    seq(|sizes|, i requires 0 <= i < |sizes| =>
      TypeFits(sizes[i]);
      Seeded(TypeFor(sizes[i]), seeds[i]))
  }

  ghost predicate Arrays(arrays: seq<array<word>>, sizes: seq<nat>) {
    && |arrays| == |sizes|
    && (forall i :: 0 <= i < |sizes| ==> sizes[i] >= 8 && arrays[i].Length == sizes[i] / 4)
    && (forall i, j :: 0 <= i < j < |arrays| ==> arrays[i] != arrays[j])
  }

  /** Initialise one array after the other; the last one stays in use. */
  method InitAll(buf: RandomData, arrays: seq<array<word>>, sizes: seq<nat>, seeds: seq<word>)
    requires Arrays(arrays, sizes) && |seeds| == |sizes| > 0
    modifies buf, arrays
    ensures Holds(buf, arrays, |arrays| - 1, Fresh(sizes, seeds))
  {
    hide Saved, SavedGen, Seeded, TypeFor, RandomData.Gen;
    ghost var gens := Fresh(sizes, seeds);
    for i := 0 to |arrays|
      invariant forall j :: 0 <= j < i ==> SavedAs(arrays[j], gens[j])
      invariant i > 0 ==> buf.Valid() && buf.arr == arrays[i - 1] && buf.Gen() == gens[i - 1]
    {
      var ok := buf.InitstateR(seeds[i], arrays[i], sizes[i]);
    }
  }

  /** Whatever is drawn in whatever order, each array gives the stream of its own seed. */
  method InitAndRun(buf: RandomData, arrays: seq<array<word>>, sizes: seq<nat>, seeds: seq<word>, script: seq<Command>)
    returns (outs: seq<(nat, word)>)
    requires Arrays(arrays, sizes) && |seeds| == |sizes| > 0
    requires forall k :: 0 <= k < |script| && script[k].Switch? ==> script[k].to < |arrays|
    modifies buf, arrays
    ensures outs == Play(Fresh(sizes, seeds), |arrays| - 1, script)
    ensures forall i: nat :: i < |arrays| ==>
              From(outs, i) == Stream(Fresh(sizes, seeds)[i], |From(outs, i)|)
  {
    hide Holds, Fresh, Play, From, Stream;
    InitAll(buf, arrays, sizes, seeds);
    ghost var gens := Fresh(sizes, seeds);
    outs := Run(buf, arrays, |arrays| - 1, script, gens);
    forall i: nat | i < |arrays|
      ensures From(outs, i) == Stream(gens[i], |From(outs, i)|)
    {
      EachArrayAlone(gens, |arrays| - 1, script, i);
    }
  }
}
