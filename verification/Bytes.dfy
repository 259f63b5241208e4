/** Bytes as the wire carries them, and buffers made of equal blocks. */
module Bytes {
  newtype byte = x: int | 0 <= x < 256

  function Concat<T>(blocks: seq<seq<T>>): seq<T> {
    if blocks == [] then [] else blocks[0] + Concat(blocks[1..])
  }

  lemma {:induction false} ConcatLength<T>(blocks: seq<seq<T>>, n: nat)
    requires forall r :: 0 <= r < |blocks| ==> |blocks[r]| == n
    ensures |Concat(blocks)| == |blocks| * n
  {
    if blocks != [] {
      ConcatLength(blocks[1..], n);
    }
  }

  /** Block `i` starts at offset `i * n`. */
  lemma {:induction false} ConcatAt<T>(blocks: seq<seq<T>>, n: nat, i: nat, j: nat)
    requires forall r :: 0 <= r < |blocks| ==> |blocks[r]| == n
    requires i < |blocks| && j < n
    ensures 0 <= i * n + j < |Concat(blocks)|
    ensures Concat(blocks)[i * n + j] == blocks[i][j]
  {
    if i > 0 {
      ConcatAt(blocks[1..], n, i - 1, j);
      assert i * n == n + (i - 1) * n;
    }
  }

  /** Block `k` follows the blocks before it. */
  lemma {:induction false} ConcatPrefix<T>(blocks: seq<seq<T>>, k: nat)
    requires k < |blocks|
    ensures Concat(blocks[..k + 1]) == Concat(blocks[..k]) + blocks[k]
    ensures Concat(blocks[..k]) + blocks[k] <= Concat(blocks)
  {
    var rest := blocks[1..];
    if k > 0 {
      ConcatPrefix(rest, k - 1);
      assert blocks[..k + 1][1..] == rest[..k] && blocks[..k][1..] == rest[..k - 1];
    }
  }

  newtype word = x: int | 0 <= x < 0x1_0000_0000

  /** The four bytes of a word, lowest first. */
  function LittleEndian(u: word): (r: seq<byte>)
    ensures |r| == 4
  {
    [(u % 256) as byte, (u / 256 % 256) as byte, (u / 0x10000 % 256) as byte, (u / 0x1000000) as byte]
  }

  function FromLittleEndian(s: seq<byte>): word
    requires |s| == 4
  {
    s[0] as word + s[1] as word * 256 + s[2] as word * 0x10000 + s[3] as word * 0x1000000
  }

  lemma WordRoundTrip(u: word)
    ensures FromLittleEndian(LittleEndian(u)) == u
  {
    var n := u as int;
    var q1, q2, q3 := n / 256, n / 0x10000, n / 0x1000000;
    assert n == 256 * q1 + n % 256;
    assert q1 == 256 * q2 + q1 % 256;
    assert q2 == 256 * q3 + q2 % 256;
    assert (u / 256) as int == q1 && (u / 0x10000) as int == q2 && (u / 0x1000000) as int == q3;
  }
}
