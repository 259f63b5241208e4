/** 32-bit words: wrapping arithmetic, and buffers of words as the bytes the collectives carry. */
module Words {
  import opened Blocks
  import opened Bytes
  import opened Modular

  function Add(a: word, b: word): word {
    ((a as nat + b as nat) % WRAP) as word
  }

  function Times(a: word, b: word): word {
    ((a as nat * b as nat) % WRAP) as word
  }

  /** A number stored in a word. */
  function Wrapped(a: int): word {
    (a % WRAP) as word
  }

  /** A word read as a signed number. */
  function Signed(u: word): int {
    if u < 0x8000_0000 then u as int else u as int - WRAP
  }

  // ---------------------------------------------------------------- words as bytes

  function Encode(s: seq<word>): (r: seq<byte>)
    ensures |r| == 4 * |s|
  {
    seq(4 * |s|, k requires 0 <= k < 4 * |s| => LittleEndian(s[k / 4])[k % 4])
  }

  function Decode(b: seq<byte>): (r: seq<word>)
    ensures |r| == |b| / 4
  {
    seq(|b| / 4, k requires 0 <= k < |b| / 4 => FromLittleEndian(b[4 * k..4 * k + 4]))
  }

  /** Four bytes for each word, the lowest first. */
  lemma EncodedAt(s: seq<word>, k: nat)
    requires k < |s|
    ensures var b := Encode(s);
      b[4 * k] as int + 0x100 * b[4 * k + 1] as int + 0x10000 * b[4 * k + 2] as int + 0x1000000 * b[4 * k + 3] as int
        == s[k] as int
  {
    WordRoundTrip(s[k]);
  }

  lemma RoundTrip(s: seq<word>)
    ensures Decode(Encode(s)) == s
  {
    hide LittleEndian, FromLittleEndian;
    forall k: nat | k < |s|
      ensures Decode(Encode(s))[k] == s[k]
    {
      assert Encode(s)[4 * k..4 * k + 4] == LittleEndian(s[k]);
      WordRoundTrip(s[k]);
    }
  }

  lemma EncodeSlice(s: seq<word>, from: nat, n: nat)
    requires from + n <= |s|
    ensures Encode(s)[4 * from..4 * from + 4 * n] == Encode(s[from..from + n])
  {
    hide LittleEndian;
    var l, r := Encode(s)[4 * from..4 * from + 4 * n], Encode(s[from..from + n]);
    forall k: nat | k < 4 * n
      ensures l[k] == r[k]
    {
      assert (4 * from + k) / 4 == from + k / 4 && (4 * from + k) % 4 == k % 4;
    }
  }

  lemma DecodeSlice(b: seq<byte>, from: nat, n: nat)
    requires 4 * from + 4 * n <= |b| && |b| % 4 == 0
    ensures Decode(b)[from..from + n] == Decode(b[4 * from..4 * from + 4 * n])
  {
    hide FromLittleEndian;
    var part := b[4 * from..4 * from + 4 * n];
    forall k: nat | k < n
      ensures Decode(b)[from + k] == Decode(part)[k]
    {
      SubSlice(b, 4 * from, 4 * n, 4 * k, 4 * k + 4);
    }
  }
}
