/** How the laptop recognises that a Pi has said goodbye: the search of a chunk for the exit string, and the cleaning of
    text before it. */
module Goodbye {
  import opened Blocks
  import opened Bytes

  const EXIT: seq<byte> := [0x44, 0x4F, 0x4E, 0x45, 0x21, 0x21, 0x21, 0x0A]    // "DONE!!!" and a newline

  /** The search for the exit string in a C string, with its first `pos` bytes just seen. A byte that does not fit is
      used up: the search begins again behind it. */
  predicate Match(s: seq<byte>, pos: nat)
    requires pos < 8
  {
    && s != [] && s[0] != 0
    && if s[0] != EXIT[pos] then Match(s[1..], 0) else pos == 7 || Match(s[1..], pos + 1)
  }

  predicate Done(s: seq<byte>) {
    Match(s, 0)
  }

  /** The exit string stands somewhere in `s`. */
  ghost predicate Occurs(s: seq<byte>) {
    exists i: nat :: OccursAt(s, i)
  }

  ghost predicate OccursAt(s: seq<byte>, i: nat) {
    i + 8 <= |s| && s[i..i + 8] == EXIT
  }

  lemma OccursWithin(s: seq<byte>, lo: nat, hi: nat)
    requires lo <= hi <= |s| && Occurs(s[lo..hi])
    ensures Occurs(s)
  {
    var i: nat :| OccursAt(s[lo..hi], i);
    SubSlice(s, lo, hi - lo, i, i + 8);
    assert OccursAt(s, lo + i);
  }

  // ---------------------------------------------------------------- which occurrences are found

  /** `p` ends with the first `k` bytes of the exit string. */
  predicate EndsIn(p: seq<byte>, k: nat) {
    k < 8 && k <= |p| && p[|p| - k..] == EXIT[..k]
  }

  /** The length of the beginning of the exit string, not all of it, that `p` ends with. */
  function Begun(p: seq<byte>, most: nat): (k: nat)
    requires most < 8
    ensures k <= most && k <= |p| && EndsIn(p, k)
    ensures forall j: nat :: k < j <= most ==> !EndsIn(p, j)
  {
    if most == 0 || EndsIn(p, most) then most else Begun(p, most - 1)
  }

  /** How many begun and broken off exit strings `p` ends with, one directly behind the other. */
  function Broken(p: seq<byte>): nat
    decreases |p|
  {
    var k := Begun(p, 7);
    if k == 0 then 0 else 1 + Broken(p[..|p| - k])
  }

  /** An exit string that the search finds: no NUL before it, and an even number of broken ones directly before it. Of
      two broken ones the second is passed over because the first byte of it was used up. */
  ghost predicate FoundAt(s: seq<byte>, i: nat) {
    OccursAt(s, i) && 0 !in s[..i] && Broken(s[..i]) % 2 == 0
  }

  /** How much of the exit string the search has just seen after `p`; 8 once it has been found. */
  ghost function Reach(p: seq<byte>): (k: nat)
    ensures k <= 8
    decreases |p|
  {
    if p == [] then 0
    else
      var k := Reach(p[..|p| - 1]);
      if k == 8 then 8 else if p[|p| - 1] == EXIT[k] then k + 1 else 0
  }

  lemma ReachNext(s: seq<byte>, i: nat)
    requires i < |s|
    ensures var k := Reach(s[..i]);
      Reach(s[..i + 1]) == if k == 8 then 8 else if s[i] == EXIT[k] then k + 1 else 0
    ensures 0 !in s[..i + 1] <==> 0 !in s[..i] && s[i] != 0
  {
    var p := s[..i + 1];
    assert p[..|p| - 1] == s[..i] && p[|p| - 1] == s[i];
    assert p == s[..i] + [s[i]];
  }

  lemma {:induction false} SearchFrom(s: seq<byte>, i: nat)
    requires i <= |s| && 0 !in s[..i] && Reach(s[..i]) < 8
    ensures Done(s) == Match(s[i..], Reach(s[..i]))
  {
    hide Reach;
    if i == 0 {
      ReachNone();
      assert s[0..] == s && s[..0] == [];
    } else {
      ReachNext(s, i - 1);
      SearchFrom(s, i - 1);
      assert s[i - 1..][1..] == s[i..];
    }
  }

  lemma ReachNone()
    ensures Reach([]) == 0
  {
  }

  /** When the search succeeds it does so behind some byte. */
  lemma {:induction false} DoneReaches(s: seq<byte>, i: nat) returns (n: nat)
    requires i <= |s| && 0 !in s[..i] && Reach(s[..i]) < 8 && Match(s[i..], Reach(s[..i]))
    ensures 8 <= n <= |s| && 0 !in s[..n] && Reach(s[..n - 1]) == 7 && Reach(s[..n]) == 8
    decreases |s| - i
  {
    hide Reach;
    ReachNext(s, i);
    n := i + 1;
    if Reach(s[..i + 1]) < 8 {
      assert s[i..][1..] == s[i + 1..];
      n := DoneReaches(s, i + 1);
    } else {
      LastBegun(s[..i]);
    }
  }

  lemma {:induction false} ReachesDone(s: seq<byte>, n: nat)
    requires n <= |s| && 0 !in s[..n] && Reach(s[..n]) == 8
    ensures Done(s)
  {
    hide Reach;
    ReachNone();
    assert s[..0] == [];
    if n > 0 {
      ReachNext(s, n - 1);
      if Reach(s[..n - 1]) == 8 {
        ReachesDone(s, n - 1);
      } else {
        SearchFrom(s, n - 1);
      }
    }
  }

  /** What has just been seen is the end of what was read, and before it the search began afresh. */
  lemma {:induction false} LastBegun(p: seq<byte>)
    requires Reach(p) < 8
    ensures var k := Reach(p); EndsIn(p, k) && Reach(p[..|p| - k]) == 0
    decreases |p|
  {
    hide Reach, EndsIn;
    var k := Reach(p);
    if k == 0 {
      EndsInNothing(p);
    } else {
      LastReached(p);
      var q := p[..|p| - 1];
      LastBegun(q);
      OneLonger(p, k);
    }
  }

  lemma EndsInNothing(p: seq<byte>)
    ensures EndsIn(p, 0) && p[..|p| - 0] == p
  {
  }

  lemma LastReached(p: seq<byte>)
    requires 0 < Reach(p) < 8
    ensures p != [] && Reach(p[..|p| - 1]) == Reach(p) - 1 && p[|p| - 1] == EXIT[Reach(p) - 1]
  {
  }

  lemma OneLonger(p: seq<byte>, k: nat)
    requires p != [] && 0 < k < 8 && EndsIn(p[..|p| - 1], k - 1) && p[|p| - 1] == EXIT[k - 1]
    ensures EndsIn(p, k) && p[..|p| - 1][..|p| - 1 - (k - 1)] == p[..|p| - k]
  {
    var q := p[..|p| - 1];
    assert p[|p| - k..] == q[|q| - (k - 1)..] + [p[|p| - 1]];
    assert EXIT[..k] == EXIT[..k - 1] + [EXIT[k - 1]];
  }

  lemma FirstByte(j: nat)
    requires j < 8
    ensures EXIT[0] == 0x44 && (EXIT[j] == 0x44 <==> j == 0)
    ensures EXIT[j] != 0 && EXIT[j] != 32
  {
  }

  /** From a fresh start the exit string is followed; its first byte breaks off what was begun before. */
  lemma {:induction false} ReachAhead(q: seq<byte>, k: nat)
    requires 1 <= k <= 8 && Reach(q) < 8
    ensures Reach(q + EXIT[..k]) == if Reach(q) == 0 then k else 0
  {
    hide Reach;
    FirstByte(k - 1);
    if k == 1 {
      assert q + EXIT[..0] == q;
      OneByteAhead(q, 1);
      FirstByte(Reach(q));
    } else {
      ReachAhead(q, k - 1);
      OneByteAhead(q, k);
    }
  }

  lemma OneByteAhead(q: seq<byte>, k: nat)
    requires 1 <= k <= 8
    ensures var r := Reach(q + EXIT[..k - 1]);
      Reach(q + EXIT[..k]) == if r == 8 then 8 else if EXIT[k - 1] == EXIT[r] then r + 1 else 0
  {
    hide Reach;
    var p := q + EXIT[..k];
    ReachNext(p, |p| - 1);
    assert p[..|p| - 1] == q + EXIT[..k - 1] && p[..|p| - 1 + 1] == p && p[|p| - 1] == EXIT[k - 1];
  }

  lemma {:induction false} NotYetFound(p: seq<byte>, i: nat)
    requires i <= |p| && Reach(p) < 8
    ensures Reach(p[..i]) < 8
    decreases |p| - i
  {
    hide Reach;
    if i < |p| {
      NotYetFound(p, i + 1);
      ReachNext(p, i);
    } else {
      assert p[..i] == p;
    }
  }

  lemma BrokenStep(p: seq<byte>)
    ensures var k := Begun(p, 7); Broken(p) == if k == 0 then 0 else 1 + Broken(p[..|p| - k])
  {
    hide Begun, EndsIn;
  }

  /** The search is at a fresh start exactly behind an even number of broken exit strings. */
  lemma {:induction false} FreshIff(p: seq<byte>)
    requires Reach(p) < 8
    ensures Reach(p) == 0 <==> Broken(p) % 2 == 0
    decreases |p|
  {
    hide Reach, Begun, Broken;
    BrokenStep(p);
    LastBegun(p);
    assert EndsIn(p, Reach(p));
    var k := Begun(p, 7);
    if k > 0 {
      var q := p[..|p| - k];
      assert p == q + EXIT[..k];
      NotYetFound(p, |p| - k);
      ReachAhead(q, k);
      FreshIff(q);
    }
  }

  /** The search succeeds exactly when some exit string is one that it finds. */
  lemma FoundIff(s: seq<byte>)
    ensures Done(s) <==> exists i: nat :: FoundAt(s, i)
  {
    hide Reach, Broken, Match;
    if Done(s) {
      ReachNone();
      assert s[..0] == [] && s[0..] == s;
      var n := DoneReaches(s, 0);
      LastFound(s, n);
      assert FoundAt(s, n - 8);
    }
    if i: nat :| FoundAt(s, i) {
      FoundIsDone(s, i);
    }
  }

  lemma LastFound(s: seq<byte>, n: nat)
    requires 8 <= n <= |s| && 0 !in s[..n] && Reach(s[..n - 1]) == 7 && Reach(s[..n]) == 8
    ensures FoundAt(s, n - 8)
  {
    hide Reach, Broken;
    var p := s[..n - 1];
    LastBegun(p);
    ReachNext(s, n - 1);
    assert p[..|p| - 7] == s[..n - 8];
    FreshIff(s[..n - 8]);
    assert s[n - 8..n] == p[|p| - 7..] + [s[n - 1]];
    assert EXIT == EXIT[..7] + [EXIT[7]];
  }

  lemma FoundIsDone(s: seq<byte>, i: nat)
    requires FoundAt(s, i)
    ensures Done(s)
  {
    hide Reach, Broken, Match;
    var p := s[..i];
    if Reach(p) == 8 {
      ReachesDone(s, i);
    } else {
      FreshIff(p);
      ReachAhead(p, 8);
      assert EXIT[..8] == EXIT && s[..i + 8] == p + EXIT;
      ReachesDone(s, i + 8);
    }
  }

  /** The search. */
  method PiDone(s: seq<byte>) returns (done: bool)
    ensures done == Done(s)
    ensures done <==> exists i: nat :: FoundAt(s, i)
    decreases |s|
  {
    hide FoundAt;
    FoundIff(s);
    var i := 0;
    while i < |s| && s[i] != 0
      invariant 0 <= i < 8 && i <= |s|
      invariant Done(s) == Match(s[i..], i)
    {
      assert s[i..][1..] == s[i + 1..];
      if s[i] != EXIT[i] {
        done := PiDone(s[i + 1..]);
        return;
      }
      i := i + 1;
      if i == 8 {
        return true;
      }
    }
    done := false;
  }

  /** A goodbye behind any text without a NUL and without its own first byte is found, whatever follows it. */
  lemma GoodbyeFound(p: seq<byte>, q: seq<byte>)
    requires 0 !in p && 0x44 !in p
    ensures Done(p + EXIT + q)
  {
    NotBegun(p);
    var s := p + EXIT + q;
    assert s[..|p|] == p && s[|p|..|p| + 8] == EXIT;
    assert FoundAt(s, |p|);
    FoundIff(s);
  }

  /** What the search finds is there. */
  lemma DoneOccurs(s: seq<byte>)
    requires Done(s)
    ensures Occurs(s)
  {
    hide Done, Broken;
    FoundIff(s);
    var i: nat :| FoundAt(s, i);
    assert OccursAt(s, i);
  }

  /** The exit string is found on its own; behind a byte like its first it is missed. */
  lemma ExitIsDone()
    ensures Done(EXIT) && !Done([0x44] + EXIT)
  {
    GoodbyeFound([], []);
    assert [] + EXIT + [] == EXIT && ([0x44] + EXIT)[1..] == EXIT;
    NoSecondD(EXIT[1..]);
    assert !Match(EXIT, 1);
  }

  lemma {:induction false} NoSecondD(s: seq<byte>)
    requires 0x44 !in s
    ensures !Match(s, 0)
  {
    if s != [] {
      NoSecondD(s[1..]);
    }
  }

  lemma BegunByte(p: seq<byte>)
    ensures Begun(p, 7) > 0 ==> 0x44 in p
  {
    hide Begun;
    var k := Begun(p, 7);
    if k > 0 {
      assert p[|p| - k] == p[|p| - k..][0] == EXIT[..k][0];
    }
  }

  lemma NotBegun(p: seq<byte>)
    requires 0x44 !in p
    ensures Broken(p) == 0
  {
    hide Begun, Broken;
    BrokenStep(p);
    BegunByte(p);
  }

  // ---------------------------------------------------------------- cleaning

  /** Unprintable characters become spaces, the carriage return too. */
  function Printable(b: byte): byte {
    if 32 <= b <= 126 || 9 <= b <= 12 then b else 32
  }

  function Clean(s: seq<byte>): seq<byte> {
    seq(|s|, i requires 0 <= i < |s| => Printable(s[i]))
  }

  /** Printable characters, and white space but for the carriage return. */
  predicate IsText(b: byte) {
    (0x20 <= b < 0x7F) || b == 0x09 || b == 0x0A || b == 0x0B || b == 0x0C
  }

  method RemoveNonprint(buf: array<byte>)
    modifies buf
    ensures buf[..] == Clean(old(buf[..]))
    ensures forall i :: 0 <= i < buf.Length ==> buf[i] == if IsText(old(buf[i])) then old(buf[i]) else 0x20
  {
    for i := 0 to buf.Length
      invariant forall k :: 0 <= k < i ==> buf[k] == Printable(old(buf[k]))
      invariant forall k :: i <= k < buf.Length ==> buf[k] == old(buf[k])
    {
      if 32 <= buf[i] <= 126 || (9 <= buf[i] <= 13 && buf[i] != 13) {
        continue;
      }
      buf[i] := 32;
    }
  }

  /** Cleaning keeps every byte of text and replaces every other byte by a space. */
  lemma CleanAt(s: seq<byte>, i: nat)
    requires i < |s|
    ensures Clean(s)[i] == if IsText(s[i]) then s[i] else 0x20
  {
  }

  lemma CleanKeepsIff(s: seq<byte>)
    ensures Clean(s) == s <==> forall i :: 0 <= i < |s| ==> IsText(s[i])
  {
    if Clean(s) == s {
      forall i | 0 <= i < |s|
        ensures IsText(s[i])
      {
        CleanAt(s, i);
      }
    }
  }

  lemma ExitIsKept()
    ensures Clean(EXIT) == EXIT
  {
  }

  /** Cleaning neither makes nor unmakes a byte of the exit string. */
  lemma ExitBytes(s: seq<byte>, from: nat, k: nat, e: nat)
    requires from + k <= |s| && e + k <= 8
    ensures Clean(s)[from..from + k] == EXIT[e..e + k] <==> s[from..from + k] == EXIT[e..e + k]
  {
    var c, e0 := Clean(s)[from..from + k], EXIT[e..e + k];
    var t := s[from..from + k];
    forall i | 0 <= i < k
      ensures c[i] == e0[i] <==> t[i] == e0[i]
    {
      ExitByte(s[from + i], e + i);
    }
    SameBy(c, t, e0);
  }

  lemma SameBy(c: seq<byte>, t: seq<byte>, e: seq<byte>)
    requires |c| == |t| == |e| && forall i :: 0 <= i < |e| ==> (c[i] == e[i] <==> t[i] == e[i])
    ensures c == e <==> t == e
  {
  }

  lemma ExitByte(b: byte, j: nat)
    requires j < 8
    ensures Printable(b) == EXIT[j] <==> b == EXIT[j]
  {
  }

  lemma CleanBegun(p: seq<byte>)
    ensures Begun(Clean(p), 7) == Begun(p, 7)
  {
    hide Begun, Clean, EndsIn;
    CleanLength(p);
    var j, k := Begun(Clean(p), 7), Begun(p, 7);
    CleanEnd(p, j);
    CleanEnd(p, k);
  }

  lemma CleanLength(p: seq<byte>)
    ensures |Clean(p)| == |p|
  {
  }

  lemma CleanEnd(p: seq<byte>, k: nat)
    requires k < 8
    ensures EndsIn(Clean(p), k) <==> EndsIn(p, k)
  {
    if k <= |p| {
      ExitBytes(p, |p| - k, k, 0);
      assert p[|p| - k..|p|] == p[|p| - k..] && Clean(p)[|p| - k..|p|] == Clean(p)[|p| - k..];
    }
  }

  lemma {:induction false} CleanBroken(p: seq<byte>)
    ensures Broken(Clean(p)) == Broken(p)
    decreases |p|
  {
    hide Begun, Broken;
    CleanBegun(p);
    BrokenStep(p);
    BrokenStep(Clean(p));
    var k := Begun(p, 7);
    if k > 0 {
      CleanBroken(p[..|p| - k]);
      assert Clean(p)[..|p| - k] == Clean(p[..|p| - k]);
    }
  }

  /** A goodbye in a text: an exit string with an even number of broken ones directly before it. */
  ghost predicate SaysGoodbye(s: seq<byte>) {
    exists i: nat :: SaidAt(s, i)
  }

  ghost predicate SaidAt(s: seq<byte>, i: nat) {
    OccursAt(s, i) && Broken(s[..i]) % 2 == 0
  }

  /** After cleaning a goodbye is found exactly when the text says it: NULs and other unprintable bytes do not hide
      it. */
  lemma TextFoundIff(s: seq<byte>)
    ensures Done(Clean(s)) <==> SaysGoodbye(s)
  {
    hide FoundAt, SaidAt, Done;
    FoundIff(Clean(s));
    if i: nat :| FoundAt(Clean(s), i) {
      CleanFoundIff(s, i);
      assert SaidAt(s, i);
    }
    if i: nat :| SaidAt(s, i) {
      CleanFoundIff(s, i);
      assert FoundAt(Clean(s), i);
    }
  }

  lemma CleanFoundIff(s: seq<byte>, i: nat)
    ensures FoundAt(Clean(s), i) <==> SaidAt(s, i)
  {
    hide Broken;
    if i + 8 <= |s| {
      ExitBytes(s, i, 8, 0);
      assert EXIT[0..8] == EXIT;
      CleanBroken(s[..i]);
      assert Clean(s)[..i] == Clean(s[..i]);
    }
  }

  /** An exit string behind anything without its first byte is a goodbye, whatever follows it. */
  lemma GoodbyeInText(p: seq<byte>, q: seq<byte>)
    requires 0x44 !in p
    ensures SaysGoodbye(p + EXIT + q)
  {
    NotBegun(p);
    var s := p + EXIT + q;
    assert s[..|p|] == p && s[|p|..|p| + 8] == EXIT;
    assert SaidAt(s, |p|);
  }
}
