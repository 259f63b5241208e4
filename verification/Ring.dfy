/** The circular queue used from one thread: a bounded sequence with bulk operations. */
module Ring {
  import opened Bytes
  import opened Modular

  /** The code's count: unsigned subtraction of the indices, then remainder. */
  function Cnt(head: nat, tail: nat, n: nat): nat
    requires n > 0
  {
    Minus(head, tail) % n
  }

  /** The number of steps from tail to head around the ring. */
  function Distance(head: nat, tail: nat, n: nat): int {
    if head >= tail then head - tail else head + n - tail
  }

  lemma CntOf(head: nat, tail: nat, n: nat)
    requires n > 0 && head < n <= WRAP && tail < n && (head >= tail || WRAP % n == 0)
    ensures Cnt(head, tail, n) == Distance(head, tail, n)
  {
    var d := head - tail;
    if head >= tail {
      Remainder(d, WRAP, 0, d);
      Remainder(d, n, 0, d);
    } else {
      var q := WRAP / n;
      assert d % WRAP == d + WRAP by { Remainder(d + WRAP, WRAP, 0, d + WRAP); }
      Unfold(WRAP, n);
      Shifted(n, q - 1);
      Remainder(d + WRAP, n, q - 1, d + n);
    }
  }

  /** The count is right for all indices exactly when n divides 2^32. */
  lemma CntRightIff(n: nat)
    requires 2 <= n <= WRAP
    ensures (forall head: nat, tail: nat :: head < n && tail < n ==> Cnt(head, tail, n) == Distance(head, tail, n))
       <==> WRAP % n == 0
  {
    if WRAP % n == 0 {
      forall head: nat, tail: nat | head < n && tail < n
        ensures Cnt(head, tail, n) == Distance(head, tail, n)
      {
        CntOf(head, tail, n);
      }
    } else {
      assert (0 - 1) % WRAP == WRAP - 1;
      Unfold(WRAP, n);
      Remainder(WRAP - 1, n, WRAP / n, WRAP % n - 1);
      assert Cnt(0, 1, n) == WRAP % n - 1;
      assert Distance(0, 1, n) == n - 1;
    }
  }

  class Queue<E(0)> {
    const c_buf: array<E>
    var head: nat
    var tail: nat

    ghost predicate Valid()
      reads this
    {
      && 2 <= c_buf.Length <= WRAP && WRAP % c_buf.Length == 0
      && head < c_buf.Length && tail < c_buf.Length
    }

    ghost function Length(): (r: nat)
      requires Valid()
      reads this
      ensures r < c_buf.Length
    {
      Distance(head, tail, c_buf.Length)
    }

    ghost function Contents(): (r: seq<E>)
      requires Valid()
      reads this, c_buf
      ensures |r| == Length()
    {
      Held(c_buf[..], tail, Length())
    }

    constructor (n: nat)
      requires 2 <= n <= WRAP && WRAP % n == 0
      ensures Valid() && fresh(c_buf) && c_buf.Length == n && Contents() == []
    {
      c_buf := new E[n];
      head, tail := 0, 0;
    }

    method Empty() returns (r: bool)
      requires Valid()
      ensures r <==> Contents() == []
    {
      r := head == tail;
    }

    method Full() returns (r: bool)
      requires Valid()
      ensures r <==> |Contents()| == c_buf.Length - 1
    {
      Next(head, c_buf.Length);
      Remainder(head, c_buf.Length, 0, head);
      r := (head + 1) % c_buf.Length == tail;
    }

    method Nelem() returns (r: nat)
      requires Valid()
      ensures r == |Contents()|
    {
      CntOf(head, tail, c_buf.Length);
      r := Cnt(head, tail, c_buf.Length);
    }

    method Nspace() returns (r: nat)
      requires Valid()
      ensures r == c_buf.Length - 1 - |Contents()|
    {
      var k := Nelem();
      r := c_buf.Length - 1 - k;
    }

    method PopNonblock() returns (ok: bool, e: E)
      requires Valid()
      modifies this`tail
      ensures Valid() && ok == (old(Contents()) != [])
      ensures Contents() == if ok then old(Contents())[1..] else old(Contents())
      ensures ok ==> e == old(Contents())[0]
    {
      e := c_buf[tail];
      var isEmpty := Empty();
      if isEmpty { return false, e; }
      Popped(c_buf[..], tail, Length());
      DistanceDown(head, tail, c_buf.Length);
      tail := (tail + 1) % c_buf.Length;
      ok := true;
    }

    /** The element at the front; the caller knows that there is one. */
    method Pop() returns (e: E)
      requires Valid() && Contents() != []
      modifies this`tail
      ensures Valid() && e == old(Contents())[0] && Contents() == old(Contents())[1..]
    {
      var ok;
      ok, e := PopNonblock();
    }

    method Push(x: E) returns (ok: bool)
      requires Valid()
      modifies this`head, c_buf
      ensures Valid() && ok == (|old(Contents())| < c_buf.Length - 1)
      ensures Contents() == if ok then old(Contents()) + [x] else old(Contents())
    {
      var isFull := Full();
      if isFull { return false; }
      ghost var was := c_buf[..];
      DistanceUp(head, tail, c_buf.Length);
      c_buf[head] := x;
      Pushed(was, tail, Length(), head, x);
      head := (head + 1) % c_buf.Length;
      ok := true;
    }

    method Peek() returns (ok: bool, e: E)
      requires Valid()
      ensures ok == (Contents() != []) && (ok ==> e == Contents()[0])
    {
      e := c_buf[tail];
      var isEmpty := Empty();
      ok := !isEmpty;
      Remainder(tail, c_buf.Length, 0, tail);
    }

    /** Element `i` from the front, without taking it. */
    method Get(i: nat) returns (ok: bool, e: E)
      requires Valid()
      ensures ok == (i < |Contents()|) && (ok ==> e == Contents()[i])
    {
      e := c_buf[tail];
      var k := Nelem();
      if i >= k { return false, e; }
      e := c_buf[Slot(tail, i, c_buf.Length)];
      ok := true;
    }

    method PopN(n: nat) returns (data: seq<E>)
      requires Valid() && n <= |Contents()|
      modifies this`tail
      ensures Valid() && data == old(Contents())[..n] && Contents() == old(Contents())[n..]
    {
      data := [];
      var i := 0;
      while i < n
        invariant 0 <= i <= n && Valid()
        invariant data == old(Contents())[..i] && Contents() == old(Contents())[i..]
      {
        var e := Pop();
        data := data + [e];
        i := i + 1;
      }
    }

    /** All of the `n` elements asked for, or none. */
    method PopNNonblock(n: nat) returns (ok: bool, data: seq<E>)
      requires Valid()
      modifies this`tail
      ensures Valid() && ok == (n <= |old(Contents())|)
      ensures if ok then data == old(Contents())[..n] && Contents() == old(Contents())[n..]
              else data == [] && Contents() == old(Contents())
    {
      var k := Nelem();
      if k < n { return false, []; }
      data := PopN(n);
      ok := true;
    }

    /** Looks ahead by popping and then putting the index back. */
    method PeekN(n: nat) returns (ok: bool, data: seq<E>)
      requires Valid()
      modifies this`tail
      ensures Valid() && Contents() == old(Contents()) && tail == old(tail)
      ensures ok == (n <= |Contents()|) && data == if ok then Contents()[..n] else []
    {
      var k := Nelem();
      if n > k { return false, []; }
      var saved := tail;
      ok, data := PopNNonblock(n);
      if !ok { return; }
      tail := saved;
    }

    /** All of `data`, or nothing. */
    method PushN(data: seq<E>) returns (ok: bool)
      requires Valid() && |data| > 0
      modifies this`head, c_buf
      ensures Valid() && ok == (|old(Contents())| + |data| <= c_buf.Length - 1)
      ensures Contents() == if ok then old(Contents()) + data else old(Contents())
    {
      var space := Nspace();
      if space < |data| { return false; }
      var i := 0;
      while i < |data|
        invariant 0 <= i <= |data| && Valid()
        invariant Contents() == old(Contents()) + data[..i]
      {
        var pushed := Push(data[i]);
        assert data[..i + 1] == data[..i] + [data[i]];
        i := i + 1;
      }
      assert data[..i] == data;
      ok := true;
    }

    /** Drops the oldest element to make room. */
    method PushDropping(e: E)
      requires Valid()
      modifies this, c_buf
      ensures Valid()
      ensures Contents() == LastOf(old(Contents()) + [e], c_buf.Length - 1)
    {
      var isFull := Full();
      if isFull {
        var _ := Pop();
      }
      var ok := Push(e);
    }

    /** Any number of dropping pushes, one after the other: what is left are the last elements. */
    method PushAllDropping(es: seq<E>)
      requires Valid()
      modifies this, c_buf
      ensures Valid()
      ensures Contents() == LastOf(old(Contents()) + es, c_buf.Length - 1)
    {
      hide LastOf;
      ghost var s0, k := Contents(), c_buf.Length - 1;
      for i := 0 to |es|
        invariant Valid() && Dropping(Contents(), es[i..], k) == Dropping(s0, es, k)
      {
        PushDropping(es[i]);
        assert es[i..][1..] == es[i + 1..];
      }
      DroppingKeepsLast(s0, es, k);
    }
  }

  /** `k` elements from slot `tail` on. */
  function Held<E>(buf: seq<E>, tail: nat, k: nat): (r: seq<E>)
    requires |buf| > 0
    ensures |r| == k
  {
    seq(k, i requires 0 <= i < k => buf[Slot(tail, i, |buf|)])
  }

  /** The last `k` elements, or all when there are fewer. */
  function LastOf<E>(s: seq<E>, k: nat): seq<E> {
    if |s| <= k then s else s[|s| - k..]
  }

  /** What pushing all of `es`, dropping the oldest when full, leaves of a queue that holds `s`. */
  function Dropping<E>(s: seq<E>, es: seq<E>, k: nat): seq<E>
    decreases |es|
  {
    if es == [] then s else Dropping(LastOf(s + [es[0]], k), es[1..], k)
  }

  /** The last `k` elements pushed are always kept. */
  lemma {:induction false} DroppingKeepsLast<E>(s: seq<E>, es: seq<E>, k: nat)
    requires |s| <= k
    ensures Dropping(s, es, k) == LastOf(s + es, k)
    decreases |es|
  {
    if es == [] {
      assert s + es == s;
    } else {
      hide LastOf;
      var e, rest := [es[0]], es[1..];
      ShortEnough(s + e, k);
      DroppingKeepsLast(LastOf(s + e, k), rest, k);
      LastOfAppend(s + e, rest, k);
      assert (s + e) + rest == s + es;
    }
  }

  lemma ShortEnough<E>(s: seq<E>, k: nat)
    ensures |LastOf(s, k)| <= k
  {
  }

  lemma LastOfAppend<E>(s: seq<E>, t: seq<E>, k: nat)
    ensures LastOf(LastOf(s, k) + t, k) == LastOf(s + t, k)
  {
    var l, r := LastOf(LastOf(s, k) + t, k), LastOf(s + t, k);
    assert |l| == |r|;
    assert forall i :: 0 <= i < |l| ==> l[i] == r[i];
  }

  lemma DistanceUp(head: nat, tail: nat, n: nat)
    requires head < n && tail < n && Distance(head, tail, n) < n - 1
    ensures (head + 1) % n < n
    ensures Distance((head + 1) % n, tail, n) == Distance(head, tail, n) + 1
  {
    Next(head, n);
    Remainder(head, n, 0, head);
  }

  lemma DistanceDown(head: nat, tail: nat, n: nat)
    requires head < n && tail < n && head != tail
    ensures (tail + 1) % n < n
    ensures Distance(head, (tail + 1) % n, n) == Distance(head, tail, n) - 1
  {
    Next(tail, n);
    Remainder(tail, n, 0, tail);
  }

  lemma Popped<E>(buf: seq<E>, tail: nat, k: nat)
    requires tail < |buf| && 0 < k < |buf|
    ensures Held(buf, tail, k)[0] == buf[tail]
    ensures Held(buf, (tail + 1) % |buf|, k - 1) == Held(buf, tail, k)[1..]
  {
    var n := |buf|;
    SlotOf(tail, 0, n);
    SlotOf(tail, 1, n);
    var tail' := Slot(tail, 1, n);
    assert tail' == (tail + 1) % n;
    hide Slot;
    forall i | 0 <= i < k - 1
      ensures Held(buf, tail', k - 1)[i] == Held(buf, tail, k)[1..][i]
    {
      SlotOf(tail, i + 1, n);
      SlotOf(tail', i, n);
    }
  }

  lemma Pushed<E>(buf: seq<E>, tail: nat, k: nat, head: nat, x: E)
    requires tail < |buf| && head < |buf| && k < |buf| - 1 && k == Distance(head, tail, |buf|)
    ensures Held(buf[head := x], tail, k + 1) == Held(buf, tail, k) + [x]
  {
    hide Slot;
    forall i | 0 <= i < k + 1
      ensures Held(buf[head := x], tail, k + 1)[i] == (Held(buf, tail, k) + [x])[i]
    {
      SlotOf(tail, i, |buf|);
    }
  }

  /** A word pushed as four bytes is popped as the same word. */
  method Push32(q: Queue<byte>, x: word) returns (ok: bool)
    requires q.Valid()
    modifies q`head, q.c_buf
    ensures q.Valid() && ok == (|old(q.Contents())| + 4 <= q.c_buf.Length - 1)
    ensures q.Contents() == if ok then old(q.Contents()) + LittleEndian(x) else old(q.Contents())
  {
    hide LittleEndian;
    ok := q.PushN(LittleEndian(x));
  }

  method Pop32Nonblock(q: Queue<byte>) returns (ok: bool, x: word)
    requires q.Valid()
    modifies q`tail
    ensures q.Valid() && ok == (|old(q.Contents())| >= 4)
    ensures forall u: word :: ok && old(q.Contents())[..4] == LittleEndian(u) ==> x == u
    ensures q.Contents() == if ok then old(q.Contents())[4..] else old(q.Contents())
  {
    hide LittleEndian, FromLittleEndian;
    var data;
    ok, data := q.PopNNonblock(4);
    x := 0;
    if ok {
      x := FromLittleEndian(data);
      forall u: word | data == LittleEndian(u) ensures x == u { WordRoundTrip(u); }
    }
  }

  /** A word pushed behind whatever is in the queue is popped unchanged when its turn comes. */
  method Push32Pop32(q: Queue<byte>, x: word) returns (ok: bool, before: seq<byte>, y: word)
    requires q.Valid()
    modifies q, q.c_buf
    ensures q.Valid() && ok == (|old(q.Contents())| + 4 <= q.c_buf.Length - 1)
    ensures if ok then before == old(q.Contents()) && y == x && q.Contents() == []
            else q.Contents() == old(q.Contents())
  {
    hide LittleEndian;
    y, before := 0, [];
    var k := q.Nelem();
    ok := Push32(q, x);
    if ok {
      before := q.PopN(k);
      assert q.Contents()[..4] == LittleEndian(x);
      ok, y := Pop32Nonblock(q);
    }
  }
}
