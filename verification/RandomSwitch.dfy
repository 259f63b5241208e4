/** One generator record switched among several state arrays. */
module RandomSwitch {
  import opened Bytes
  import opened Random

  /** Draw a number, or go over to another state array. */
  datatype Command = Draw | Switch(to: nat)

  ghost predicate Playable(gens: seq<Gen>, cur: nat, script: seq<Command>) {
    && cur < |gens|
    && (forall i :: 0 <= i < |gens| ==> gens[i].Valid())
    && (forall k :: 0 <= k < |script| && script[k].Switch? ==> script[k].to < |gens|)
  }

  /** What the draws of a script return, each with the array it was drawn from, when every array is a
      generator of its own. */
  ghost function Play(gens: seq<Gen>, cur: nat, script: seq<Command>): seq<(nat, word)>
    requires Playable(gens, cur, script)
    decreases |script|
  {
    if script == [] then []
    else match script[0]
      case Draw =>
        var (x, g) := Step(gens[cur]);
        [(cur, x)] + Play(gens[cur := g], cur, script[1..])
      case Switch(i) => Play(gens, i, script[1..])
  }

  /** The results drawn from one array. */
  ghost function From(outs: seq<(nat, word)>, i: nat): seq<word> {
    if outs == [] then []
    else (if outs[0].0 == i then [outs[0].1] else []) + From(outs[1..], i)
  }

  lemma {:induction false} AfterFront(g: Gen, n: nat)
    requires g.Valid()
    ensures After(g, n + 1) == After(Step(g).1, n)
  {
    hide Step;
    if n > 0 {
      AfterFront(g, n - 1);
    } else {
      assert After(g, 0) == g;
    }
  }

  lemma {:induction false} StreamFront(g: Gen, n: nat)
    requires g.Valid()
    ensures Stream(g, n + 1) == [Step(g).0] + Stream(Step(g).1, n)
  {
    hide Step, After;
    if n == 0 {
      AfterNext(g, 0);
    } else {
      StreamFront(g, n - 1);
      AfterFront(g, n - 1);
    }
  }

  /** Each array gives the stream it would give alone, whatever is drawn from the others in between. */
  lemma {:induction false} EachArrayAlone(gens: seq<Gen>, cur: nat, script: seq<Command>, i: nat)
    requires Playable(gens, cur, script) && i < |gens|
    ensures var own := From(Play(gens, cur, script), i);
      own == Stream(gens[i], |own|)
    decreases |script|
  {
    if script != [] {
      var rest := script[1..];
      match script[0]
      case Switch(j) =>
        EachArrayAlone(gens, j, rest, i);
      case Draw =>
        var (x, g) := Step(gens[cur]);
        hide Step, Stream;
        EachArrayAlone(gens[cur := g], cur, rest, i);
        var outs := Play(gens[cur := g], cur, rest);
        assert ([(cur, x)] + outs)[1..] == outs;
        if cur == i {
          StreamFront(gens[i], |From(outs, i)|);
        }
    }
  }

  /** Array `cur` is in use and every other one is saved. */
  ghost predicate Holds(buf: RandomData, arrays: seq<array<word>>, cur: nat, gens: seq<Gen>)
    reads buf, buf.arr, arrays
  {
    && buf.Valid() && cur < |arrays| == |gens| && buf.arr == arrays[cur]
    && buf.Gen() == gens[cur]
    && (forall i, j :: 0 <= i < j < |arrays| ==> arrays[i] != arrays[j])
    && (forall i :: 0 <= i < |arrays| && i != cur ==> SavedAs(arrays[i], gens[i]))
  }

  ghost predicate SavedAs(a: array<word>, g: Gen)
    reads a
  {
    Saved(a[..]) && SavedGen(a[..]) == g
  }

  lemma Sizes(buf: RandomData, arrays: seq<array<word>>, cur: nat, gens: seq<Gen>)
    requires Holds(buf, arrays, cur, gens)
    ensures cur < |arrays| == |gens| && buf.arr in arrays
  {
  }

  method DrawFrom(buf: RandomData, arrays: seq<array<word>>, cur: nat, ghost gens: seq<Gen>) returns (x: word)
    requires Holds(buf, arrays, cur, gens) && gens[cur].Valid()
    modifies buf, arrays
    ensures x == Step(gens[cur]).0 && Holds(buf, arrays, cur, gens[cur := Step(gens[cur]).1])
  {
    hide Step, Saved, SavedGen;
    x := buf.RandomR();
  }

  method GoTo(buf: RandomData, arrays: seq<array<word>>, cur: nat, to: nat, ghost gens: seq<Gen>)
    requires Holds(buf, arrays, cur, gens) && to < |gens|
    modifies buf, arrays
    ensures Holds(buf, arrays, to, gens)
  {
    hide SavedGen;
    var ok := buf.SetstateR(arrays[to]);
  }

  /** A script run on the arrays themselves. */
  method Run(buf: RandomData, arrays: seq<array<word>>, cur: nat, script: seq<Command>, ghost gens: seq<Gen>)
    returns (outs: seq<(nat, word)>)
    requires Holds(buf, arrays, cur, gens) && Playable(gens, cur, script)
    modifies buf, arrays
    ensures outs == Play(gens, cur, script)
  {
    hide Step, Holds;
    assert cur < |arrays| == |gens| by { Sizes(buf, arrays, cur, gens); }
    outs := [];
    var c := cur;
    ghost var g := gens;
    for k := 0 to |script|
      invariant Holds(buf, arrays, c, g) && Playable(g, c, script[k..])
      invariant Play(gens, cur, script) == outs + Play(g, c, script[k..])
    {
      assert script[k..][1..] == script[k + 1..] && script[k..][0] == script[k];
      match script[k]
      case Draw =>
        var x := DrawFrom(buf, arrays, c, g);
        g := g[c := Step(g[c]).1];
        outs := outs + [(c, x)];
      case Switch(i) =>
        GoTo(buf, arrays, c, i, g);
        c := i;
    }
  }
}
