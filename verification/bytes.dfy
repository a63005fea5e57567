/** Byte-level primitives shared by the block store and the tile store:
    the three-step population count of one byte (`count_bits`), the bit
    reversal of one byte, and sums of population counts over byte strings,
    which both stores use as their hash and as their Hamming distance. */
module Bytes {

  /** Value (0 or 1) of bit `i` of `x`; bit 0 is the least significant. */
  function Bit(x: bv8, i: nat): nat
    requires i < 8
  {
    if (x >> i) & 1 == 1 then 1 else 0
  }

  /** Reference population count: the number of set bits among the lowest `k` bits of `x`. */
  function Ones(x: bv8, k: nat): nat
    requires k <= 8
  {
    if k == 0 then 0 else Ones(x, k - 1) + Bit(x, k - 1)
  }

  /** The pairwise-sum steps of `count_bits`, kept in 8 bits as the source does
      (no intermediate sum exceeds 0xaa, so nothing is truncated). */
  function CountBitsWord(x: bv8): bv8
  {
    var a := (x & 0x55) + ((x >> 1) & 0x55);
    var b := (a & 0x33) + ((a >> 2) & 0x33);
    (b & 0x0f) + ((b >> 4) & 0x0f)
  }

  /** `count_bits`: the number of set bits of one byte. */
  function CountBits(x: bv8): nat
  {
    CountBitsWord(x) as nat
  }

  lemma CountBitsWordSumsBits(x: bv8)
    ensures CountBitsWord(x) == (x & 1) + ((x >> 1) & 1) + ((x >> 2) & 1) + ((x >> 3) & 1)
                              + ((x >> 4) & 1) + ((x >> 5) & 1) + ((x >> 6) & 1) + ((x >> 7) & 1)
  {
  }

  /** The three-step SWAR count agrees with the bit-by-bit reference count. */
  lemma CountBitsIsPopcount(x: bv8)
    ensures CountBits(x) == Ones(x, 8)
  {
    CountBitsWordSumsBits(x);
    OnesUnrolled(x);
  }

  lemma {:induction false} OnesUnrolled(x: bv8)
    ensures Ones(x, 8) == Bit(x, 0) + Bit(x, 1) + Bit(x, 2) + Bit(x, 3) + Bit(x, 4) + Bit(x, 5) + Bit(x, 6) + Bit(x, 7)
  {
    assert Ones(x, 1) == Bit(x, 0);
    assert Ones(x, 2) == Ones(x, 1) + Bit(x, 1);
    assert Ones(x, 3) == Ones(x, 2) + Bit(x, 2);
    assert Ones(x, 4) == Ones(x, 3) + Bit(x, 3);
    assert Ones(x, 5) == Ones(x, 4) + Bit(x, 4);
    assert Ones(x, 6) == Ones(x, 5) + Bit(x, 5);
    assert Ones(x, 7) == Ones(x, 6) + Bit(x, 6);
    assert Ones(x, 8) == Ones(x, 7) + Bit(x, 7);
  }

  /** Facts about the count of one byte used by the hash and distance lemmas. */
  lemma CountBitsFacts(x: bv8)
    ensures CountBits(x) <= 8
    ensures CountBits(x) == 0 <==> x == 0
    ensures CountBits(!x) == 8 - CountBits(x)
    ensures CountBits(Reverse8(x)) == CountBits(x)
  {
    assert CountBitsWord(x) <= 8;
    assert CountBitsWord(!x) == 8 - CountBitsWord(x);
    assert CountBitsWord(Reverse8(x)) == CountBitsWord(x);
  }

  lemma {:induction false} OnesTriangle(x: bv8, y: bv8, k: nat)
    requires k <= 8
    ensures Ones(x, k) <= Ones(y, k) + Ones(x ^ y, k)
  {
    if k > 0 {
      OnesTriangle(x, y, k - 1);
      assert Bit(x, k - 1) <= Bit(y, k - 1) + Bit(x ^ y, k - 1);
    }
  }

  /** One byte's count exceeds another's by at most the count of their difference. */
  lemma CountBitsTriangle(x: bv8, y: bv8)
    ensures CountBits(x) <= CountBits(y) + CountBits(x ^ y)
  {
    CountBitsIsPopcount(x);
    CountBitsIsPopcount(y);
    CountBitsIsPopcount(x ^ y);
    OnesTriangle(x, y, 8);
  }

  /** The three swap steps of `block_flip_x`: adjacent bits, then bit pairs, then nibbles. */
  function Reverse8(t: bv8): bv8
  {
    var a := ((t & 0x55) << 1) | ((t & 0xaa) >> 1);
    var b := ((a & 0x33) << 2) | ((a & 0xcc) >> 2);
    ((b & 0x0f) << 4) | ((b & 0xf0) >> 4)
  }

  /** The swap steps reverse the byte: bit i of the result is bit 7-i of the input. */
  lemma Reverse8Reverses(t: bv8)
    ensures forall i :: 0 <= i < 8 ==> Bit(Reverse8(t), i) == Bit(t, 7 - i)
  {
  }

  /** Reversing twice gives the byte back. */
  lemma Reverse8Involutive(t: bv8)
    ensures Reverse8(Reverse8(t)) == t
  {
  }

  /** Reversing commutes with complementing. */
  lemma Reverse8Complement(t: bv8)
    ensures Reverse8(!t) == !Reverse8(t)
  {
  }

  // ---------------------------------------------------------------------------
  // Byte strings

  /** Total number of set bits in a byte string: the stores' hash before bucketing. */
  function PopSum(s: seq<bv8>): nat
  {
    if |s| == 0 then 0 else PopSum(s[..|s| - 1]) + CountBits(s[|s| - 1])
  }

  /** Byte-wise exclusive or of two equally long strings. */
  function Xor(a: seq<bv8>, b: seq<bv8>): (r: seq<bv8>)
    requires |a| == |b|
    ensures |r| == |a|
  {
    seq(|a|, i requires 0 <= i < |a| => a[i] ^ b[i])
  }

  /** Hamming distance: the number of bit positions in which `a` and `b` differ. */
  function Hamming(a: seq<bv8>, b: seq<bv8>): nat
    requires |a| == |b|
  {
    PopSum(Xor(a, b))
  }

  /** The strings with the order of the bytes reversed. */
  function Rev(s: seq<bv8>): (r: seq<bv8>)
    ensures |r| == |s|
  {
    seq(|s|, i requires 0 <= i < |s| => s[|s| - 1 - i])
  }

  /** Every byte complemented. */
  function Complement(s: seq<bv8>): (r: seq<bv8>)
    ensures |r| == |s|
  {
    seq(|s|, i requires 0 <= i < |s| => !s[i])
  }

  /** Every byte passed through `Reverse8`. */
  function ReverseEach(s: seq<bv8>): (r: seq<bv8>)
    ensures |r| == |s|
  {
    seq(|s|, i requires 0 <= i < |s| => Reverse8(s[i]))
  }

  lemma {:induction false} PopSumAppend(a: seq<bv8>, b: seq<bv8>)
    ensures PopSum(a + b) == PopSum(a) + PopSum(b)
    decreases |b|
  {
    if |b| == 0 {
      assert a + b == a;
    } else {
      assert (a + b)[..|a + b| - 1] == a + b[..|b| - 1];
      PopSumAppend(a, b[..|b| - 1]);
    }
  }

  /** The sum of counts is bounded by the number of bits. */
  lemma {:induction false} PopSumBound(s: seq<bv8>)
    ensures PopSum(s) <= 8 * |s|
  {
    if |s| > 0 {
      PopSumBound(s[..|s| - 1]);
      CountBitsFacts(s[|s| - 1]);
    }
  }

  /** The sum of counts is zero exactly when every byte is zero. */
  lemma {:induction false} PopSumZero(s: seq<bv8>)
    ensures PopSum(s) == 0 <==> forall i :: 0 <= i < |s| ==> s[i] == 0
  {
    if |s| > 0 {
      var p := s[..|s| - 1];
      PopSumZero(p);
      CountBitsFacts(s[|s| - 1]);
      if PopSum(s) == 0 {
        forall i | 0 <= i < |s|
          ensures s[i] == 0
        {
          if i < |s| - 1 {
            assert s[i] == p[i];
          }
        }
      }
    }
  }

  /** Reversing the byte order keeps the count. */
  lemma {:induction false} PopSumRev(s: seq<bv8>)
    ensures PopSum(Rev(s)) == PopSum(s)
  {
    if |s| > 0 {
      var last := s[|s| - 1];
      var p := s[..|s| - 1];
      assert Rev(s) == [last] + Rev(p);
      PopSumRev(p);
      PopSumAppend([last], Rev(p));
      assert [last][..0] == [];
    }
  }

  /** Reversing the bits of every byte keeps the count. */
  lemma {:induction false} PopSumReverseEach(s: seq<bv8>)
    ensures PopSum(ReverseEach(s)) == PopSum(s)
  {
    if |s| > 0 {
      var p := s[..|s| - 1];
      assert ReverseEach(s)[..|s| - 1] == ReverseEach(p);
      PopSumReverseEach(p);
      CountBitsFacts(s[|s| - 1]);
    }
  }

  /** Complementing every byte turns a count of h into 8·|s| - h. */
  lemma {:induction false} PopSumComplement(s: seq<bv8>)
    ensures PopSum(Complement(s)) + PopSum(s) == 8 * |s|
  {
    if |s| > 0 {
      var p := s[..|s| - 1];
      assert Complement(s)[..|s| - 1] == Complement(p);
      PopSumComplement(p);
      CountBitsFacts(s[|s| - 1]);
    }
  }

  /** The Hamming distance is symmetric. */
  lemma HammingSymmetric(a: seq<bv8>, b: seq<bv8>)
    requires |a| == |b|
    ensures Hamming(a, b) == Hamming(b, a)
  {
    assert Xor(a, b) == Xor(b, a);
  }

  /** The Hamming distance is at most the number of bits, and zero exactly for equal strings. */
  lemma HammingBounds(a: seq<bv8>, b: seq<bv8>)
    requires |a| == |b|
    ensures Hamming(a, b) <= 8 * |a|
    ensures Hamming(a, b) == 0 <==> a == b
  {
    PopSumBound(Xor(a, b));
    PopSumZero(Xor(a, b));
    if Hamming(a, b) == 0 {
      forall i | 0 <= i < |a|
        ensures a[i] == b[i]
      {
        assert Xor(a, b)[i] == 0;
      }
    }
  }

  /** Two strings whose counts differ by d are at least d bits apart; this is
      why an approximate search need only visit hash buckets near its own. */
  lemma {:induction false} PopSumDistance(a: seq<bv8>, b: seq<bv8>)
    requires |a| == |b|
    ensures PopSum(a) <= PopSum(b) + Hamming(a, b)
  {
    if |a| > 0 {
      var n := |a| - 1;
      assert Xor(a, b)[..n] == Xor(a[..n], b[..n]);
      PopSumDistance(a[..n], b[..n]);
      CountBitsTriangle(a[n], b[n]);
    }
  }
}
