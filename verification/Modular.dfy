/** Positions on a ring of `n` slots. */
module Modular {
  const WRAP := 0x1_0000_0000

  /** Unsigned 32-bit subtraction. */
  function Minus(a: nat, b: nat): nat {
    (a as int - b as int) % WRAP
  }

  /** Subtraction that stops at zero. */
  function Monus(a: nat, b: nat): nat {
    if a <= b then 0 else a - b
  }

  lemma Unfold(k: nat, n: nat)
    requires n > 0
    ensures k == n * (k / n) + k % n && 0 <= k % n < n
  {
  }

  lemma {:induction false} MulAtLeast(n: nat, q: int)
    requires q >= 1
    ensures n * q >= n
  {
    if q > 1 {
      MulAtLeast(n, q - 1);
      assert n * q == n * (q - 1) + n;
    }
  }

  /** Division with remainder is unique. */
  lemma Remainder(k: nat, n: nat, q: nat, r: nat)
    requires n > 0 && k == n * q + r && r < n
    ensures k % n == r && k / n == q
  {
    Unfold(k, n);
    var d := k / n - q;
    assert n * d == r - k % n by {
      assert n * (k / n) - n * q == n * d;
    }
    if d >= 1 {
      MulAtLeast(n, d);
    } else if d <= -1 {
      MulAtLeast(n, -d);
    }
  }

  lemma Shifted(n: nat, q: nat)
    ensures n * (q + 1) == n * q + n
  {
  }

  lemma Next(k: nat, n: nat)
    requires n > 0
    ensures (k % n + 1) % n == (k + 1) % n
    ensures (k + 1) % n == if k % n + 1 == n then 0 else k % n + 1
  {
    var q, r := k / n, k % n;
    Unfold(k, n);
    if r + 1 == n {
      Shifted(n, q);
      Remainder(k + 1, n, q + 1, 0);
      Remainder(r + 1, n, 1, 0);
    } else {
      Remainder(k + 1, n, q, r + 1);
      Remainder(r + 1, n, 0, r + 1);
    }
  }

  /** A whole turn leads back to the same slot. */
  lemma SameSlot(k: nat, n: nat)
    requires n > 0
    ensures (k + n) % n == k % n
  {
    Unfold(k, n);
    Shifted(n, k / n);
    Remainder(k + n, n, k / n + 1, k % n);
  }

  /** Two positions less than a turn apart use different slots. */
  lemma Distinct(i: nat, j: nat, n: nat)
    requires n > 0 && i < j < i + n
    ensures i % n != j % n
  {
    Unfold(i, n);
    Unfold(j, n);
    var d := j / n - i / n;
    assert n * (j / n) - n * (i / n) == n * d;
    if i % n == j % n {
      if d >= 1 {
        MulAtLeast(n, d);
      } else if d <= -1 {
        MulAtLeast(n, -d);
      }
    }
  }

  /** The slot `i` places after `tail`. */
  function Slot(tail: nat, i: nat, n: nat): (r: nat)
    requires n > 0
    ensures r < n
  {
    (tail + i) % n
  }

  lemma SlotOf(tail: nat, i: nat, n: nat)
    requires tail < n && i < n
    ensures Slot(tail, i, n) == if tail + i < n then tail + i else tail + i - n
  {
    if tail + i < n {
      Remainder(tail + i, n, 0, tail + i);
    } else {
      Remainder(tail + i, n, 1, tail + i - n);
    }
  }
}
