/** The bit packer and reader of `bits.c`.

    A writer keeps a pending byte that fills from its top bit down; `bits_write`
    splits a value into chunks that fit the room left in the pending byte,
    taking the value's low bits first, and places each chunk most significant
    bit first.  A full byte goes to the buffer.  A reader mirrors this: it
    fetches a byte when no bits are pending and takes chunks from the top of
    what is left, or-ing each one into its result above the bits already read.

    The shifts and masks of the source are `Shr`, `Shl` and `Low` on
    unbounded naturals (no value here overflows its C type), and `a |= b` is
    `a + b` because the bits of `b` always land where `a` is clear: the
    writer's pending byte is clear below its filled bits and the reader's
    result is below `2^read`; both facts are proved.  The stream itself is
    described as a sequence of bits, most significant bit of each byte first. */
module BitStream {

  /** `uint8_t`. */
  type Byte = b: nat | b < 256

  /** `uint32_t`. */
  type U32 = w: nat | w < 0x1_0000_0000

  /** `~0UL`: the offset that marks a stream opened for writing. */
  const WRITE_MODE: nat := 0xffff_ffff_ffff_ffff

  /** `bits_t`: the byte buffer, the pending byte, its number of pending bits,
      and the read offset (`WRITE_MODE` for a writer). */
  datatype Bits = Bits(buf: seq<Byte>, data: Byte, count: nat, offset: nat)

  /** The `min` macro of `bits.c`. */
  function Min(a: nat, b: nat): nat
  {
    if a < b then a else b
  }

  // ---------------------------------------------------------------------------
  // Shifts and masks

  function Pow2(k: nat): (p: nat)
    ensures p > 0
  {
    if k == 0 then 1 else 2 * Pow2(k - 1)
  }

  /** `x >> k`. */
  function Shr(x: nat, k: nat): nat
  {
    if k == 0 then x else Shr(x / 2, k - 1)
  }

  /** `x << k`. */
  function Shl(x: nat, k: nat): nat
  {
    if k == 0 then x else 2 * Shl(x, k - 1)
  }

  /** `x & (2^k - 1)`: the low k bits of x (`x & (0xff >> (8 - k))` for k <= 8). */
  function Low(x: nat, k: nat): (r: nat)
    ensures r < Pow2(k)
  {
    if k == 0 then 0 else 2 * Low(x / 2, k - 1) + x % 2
  }

  /** A value is its high part shifted back plus its low part. */
  lemma {:induction false} ShrLow(x: nat, k: nat)
    ensures x == Shl(Shr(x, k), k) + Low(x, k)
  {
    if k > 0 {
      ShrLow(x / 2, k - 1);
      ShlShift(Shr(x / 2, k - 1), k - 1);
    }
  }

  /** Shifting left by k is doubling, then shifting left by k - 1. */
  lemma {:induction false} ShlShift(a: nat, k: nat)
    ensures Shl(2 * a, k) == 2 * Shl(a, k)
  {
    if k > 0 {
      ShlShift(a, k - 1);
    }
  }

  /** The decomposition of `ShrLow` is the only one with a low part below 2^k. */
  lemma {:induction false} ShlUnique(a: nat, b: nat, k: nat)
    requires b < Pow2(k)
    ensures Shr(Shl(a, k) + b, k) == a && Low(Shl(a, k) + b, k) == b
  {
    if k > 0 {
      ShlShift(a, k - 1);
      assert Shl(a, k) == Shl(2 * a, k - 1) by { ShlShift(a, k - 1); }
      var x := Shl(a, k) + b;
      assert x / 2 == Shl(a, k - 1) + b / 2 && x % 2 == b % 2;
      ShlUnique(a, b / 2, k - 1);
    }
  }

  lemma {:induction false} ShrAdd(x: nat, s: nat, t: nat)
    ensures Shr(Shr(x, s), t) == Shr(x, s + t)
  {
    if s > 0 {
      ShrAdd(x / 2, s - 1, t);
    }
  }

  lemma {:induction false} ShlAdd(a: nat, s: nat, t: nat)
    ensures Shl(Shl(a, s), t) == Shl(a, s + t)
  {
    if t > 0 {
      ShlAdd(a, s, t - 1);
    }
  }

  lemma {:induction false} ShlDistributes(a: nat, b: nat, k: nat)
    ensures Shl(a + b, k) == Shl(a, k) + Shl(b, k)
  {
    if k > 0 {
      ShlDistributes(a, b, k - 1);
    }
  }

  /** A j-bit value shifted left by k, plus a k-bit value, fits in j + k bits. */
  lemma {:induction false} ShlBound(a: nat, c: nat, j: nat, k: nat)
    requires a < Pow2(j) && c < Pow2(k)
    ensures Shl(a, k) + c < Pow2(j + k)
  {
    if k > 0 {
      ShlBound(a, c / 2, j, k - 1);
    } else {
      assert c == 0;
    }
  }

  /** A value whose low bits are clear is its high part shifted back. */
  lemma ShrExact(x: nat, k: nat)
    requires Low(x, k) == 0
    ensures x == Shl(Shr(x, k), k)
  {
    ShrLow(x, k);
  }

  /** The low s + t bits are the low s bits and, above them, the next t bits. */
  lemma {:induction false} LowSplit(x: nat, s: nat, t: nat)
    ensures Low(x, s + t) == Low(x, s) + Shl(Low(Shr(x, s), t), s)
  {
    if s > 0 {
      LowSplit(x / 2, s - 1, t);
      ShlShift(Low(Shr(x / 2, s - 1), t), s - 1);
    }
  }

  /** A k-bit value shifted right past all its bits is 0, and has no bits above k. */
  lemma {:induction false} ShrSmall(x: nat, k: nat, m: nat)
    requires x < Pow2(k) && k <= m
    ensures Shr(x, m) == 0 && Low(x, m) == x
  {
    if m > 0 {
      if k > 0 {
        ShrSmall(x / 2, k - 1, m - 1);
      } else {
        ShrSmall(0, 0, m - 1);
      }
    }
  }

  // ---------------------------------------------------------------------------
  // Bit strings

  /** The low k bits of v, most significant first. */
  function Msb(v: nat, k: nat): (r: seq<bool>)
    ensures |r| == k
  {
    if k == 0 then [] else Msb(v / 2, k - 1) + [v % 2 == 1]
  }

  function Zeros(k: nat): (r: seq<bool>)
    ensures |r| == k && forall i :: 0 <= i < k ==> !r[i]
  {
    seq(k, i => false)
  }

  /** Only the low k bits of v show. */
  lemma {:induction false} MsbLow(v: nat, k: nat)
    ensures Msb(v, k) == Msb(Low(v, k), k)
  {
    if k > 0 {
      var w := Low(v, k);
      assert w / 2 == Low(v / 2, k - 1) && w % 2 == v % 2;
      MsbLow(v / 2, k - 1);
    }
  }

  /** The low k + m bits of v are its bits above the low m, then the low m. */
  lemma {:induction false} MsbSplit(v: nat, k: nat, m: nat)
    ensures Msb(v, k + m) == Msb(Shr(v, m), k) + Msb(v, m)
  {
    if m > 0 {
      MsbSplit(v / 2, k, m - 1);
      assert Msb(v, k + m) == Msb(v / 2, k + m - 1) + [v % 2 == 1];
    }
  }

  lemma {:induction false} MsbZero(k: nat)
    ensures Msb(0, k) == Zeros(k)
  {
    if k > 0 {
      MsbZero(k - 1);
    }
  }

  /** Two values with the same k-bit string agree in their low k bits. */
  lemma {:induction false} MsbInjective(a: nat, b: nat, k: nat)
    requires Msb(a, k) == Msb(b, k)
    ensures Low(a, k) == Low(b, k)
  {
    if k > 0 {
      var ma, mb := Msb(a, k), Msb(b, k);
      assert ma[..k - 1] == Msb(a / 2, k - 1) && mb[..k - 1] == Msb(b / 2, k - 1);
      assert ma[k - 1] == (a % 2 == 1) && mb[k - 1] == (b % 2 == 1);
      MsbInjective(a / 2, b / 2, k - 1);
    }
  }

  /** Equal concatenations with equally long first parts have equal parts. */
  lemma SplitEqual<T>(x: seq<T>, y: seq<T>, x': seq<T>, y': seq<T>)
    requires x + y == x' + y' && |x| == |x'|
    ensures x == x' && y == y'
  {
    assert x == (x + y)[..|x|] && x' == (x' + y')[..|x|];
    assert y == (x + y)[|x|..] && y' == (x' + y')[|x|..];
  }

  /** Bytes as bits, each byte most significant bit first. */
  function Stream(bytes: seq<Byte>): (r: seq<bool>)
    ensures |r| == 8 * |bytes|
  {
    if |bytes| == 0 then [] else Msb(bytes[0], 8) + Stream(bytes[1..])
  }

  lemma {:induction false} StreamAppend(bytes: seq<Byte>, x: Byte)
    ensures Stream(bytes + [x]) == Stream(bytes) + Msb(x, 8)
  {
    if |bytes| > 0 {
      assert (bytes + [x])[1..] == bytes[1..] + [x];
      StreamAppend(bytes[1..], x);
    } else {
      assert Stream([x]) == Msb(x, 8) + Stream([]);
    }
  }

  // ---------------------------------------------------------------------------
  // The chunked layout of one value

  /** The bits `bits_write` lays down for the low n bits of v when the pending
      byte already holds c bits: chunks of at most 8 - c, then 8, bits, low
      chunk first, each chunk most significant bit first. */
  function Chunks(v: nat, n: nat, c: nat): (r: seq<bool>)
    requires c < 8
    ensures |r| == n
    decreases n
  {
    if n == 0 then []
    else
      var size := Min(8 - c, n);
      Msb(v, size) + Chunks(Shr(v, size), n - size, (c + size) % 8)
  }

  /** The first chunk of a layout, and the layout of the rest. */
  lemma ChunksFirst(v: nat, n: nat, c: nat, size: nat, v': nat, n': nat, c': nat)
    requires c < 8 && n > 0 && size == Min(8 - c, n)
    requires v' == Shr(v, size) && n' == n - size && c' == (c + size) % 8
    ensures Chunks(v, n, c) == Msb(v, size) + Chunks(v', n', c')
  {
  }

  /** The layout determines the low n bits of the value. */
  lemma {:induction false} ChunksInjective(a: nat, b: nat, n: nat, c: nat)
    requires c < 8 && Chunks(a, n, c) == Chunks(b, n, c)
    ensures Low(a, n) == Low(b, n)
    decreases n
  {
    if n > 0 {
      var size := Min(8 - c, n);
      var c' := (c + size) % 8;
      SplitEqual(Msb(a, size), Chunks(Shr(a, size), n - size, c'), Msb(b, size), Chunks(Shr(b, size), n - size, c'));
      MsbInjective(a, b, size);
      ChunksInjective(Shr(a, size), Shr(b, size), n - size, (c + size) % 8);
      LowSplit(a, size, n - size);
      LowSplit(b, size, n - size);
    }
  }

  /** A value below 2^read, with `chunk` added above bit `read`: its bits above
      s are those of the value, with the chunk above bit read - s, and its low s
      bits are the value's. */
  lemma SplitValue(acc: nat, chunk: nat, read: nat, s: nat)
    requires acc < Pow2(read) && s <= read
    ensures Shr(acc + Shl(chunk, read), s) == Shr(acc, s) + Shl(chunk, read - s)
    ensures Msb(acc + Shl(chunk, read), s) == Msb(acc, s) && Shr(acc, s) < Pow2(read - s)
  {
    var v, h := acc + Shl(chunk, read), Shr(acc, s) + Shl(chunk, read - s);
    assert v == Shl(h, s) + Low(acc, s) by {
      ShrLow(acc, s);
      ShlAdd(chunk, read - s, s);
      ShlDistributes(Shr(acc, s), Shl(chunk, read - s), s);
    }
    ShlUnique(h, Low(acc, s), s);
    MsbLow(v, s);
    MsbLow(acc, s);
    ShrBound(acc, read - s, s);
  }

  /** Reading a chunk that fits the current byte extends the layout of what
      was read so far by the chunk's bits, when that layout is empty or ends
      on a byte boundary. */
  lemma {:induction false} ChunksExtend(acc: nat, read: nat, c: nat, chunk: nat, size: nat)
    requires c < 8 && acc < Pow2(read) && 0 < size
    requires read == 0 || (c + read) % 8 == 0
    requires size <= 8 - (c + read) % 8
    ensures Chunks(acc + Shl(chunk, read), read + size, c) == Chunks(acc, read, c) + Msb(chunk, size)
    decreases read
  {
    var v := acc + Shl(chunk, read);
    if read == 0 {
      ChunksFirst(v, size, c, size, Shr(v, size), 0, (c + size) % 8);
    } else {
      var s := 8 - c;
      SplitValue(acc, chunk, read, s);
      var h := Shr(acc, s) + Shl(chunk, read - s);
      ChunksExtend(Shr(acc, s), read - s, 0, chunk, size);
      ChunksFirst(v, read + size, c, s, h, read - s + size, 0);
      ChunksFirst(acc, read, c, s, Shr(acc, s), read - s, 0);
      Regroup(Chunks(v, read + size, c), Msb(acc, s), Chunks(h, read - s + size, 0),
              Chunks(Shr(acc, s), read - s, 0), Msb(chunk, size), Chunks(acc, read, c));
    }
  }

  /** A k-bit value shifted right by m <= k fits in k - m bits. */
  lemma {:induction false} ShrBound(x: nat, k: nat, m: nat)
    requires x < Pow2(k + m)
    ensures Shr(x, m) < Pow2(k)
  {
    if m > 0 {
      ShrBound(x / 2, k, m - 1);
    }
  }

  // ---------------------------------------------------------------------------
  // Writing

  lemma Pow2Byte()
    ensures Pow2(8) == 256
  {
    assert Pow2(2) == 4;
    assert Pow2(4) == 16 by { assert Pow2(3) == 8; }
    assert Pow2(6) == 64 by { assert Pow2(5) == 32; }
    assert Pow2(8) == 256 by { assert Pow2(7) == 128; }
  }

  lemma {:induction false} Pow2Mono(a: nat, b: nat)
    requires a <= b
    ensures Pow2(a) <= Pow2(b)
  {
    if a < b {
      Pow2Mono(a, b - 1);
    }
  }

  lemma {:induction false} Pow2Add(a: nat, b: nat)
    ensures Pow2(a + b) == Pow2(a) * Pow2(b)
  {
    if a > 0 {
      Pow2Add(a - 1, b);
    }
  }

  lemma Pow2Word()
    ensures Pow2(32) == 0x1_0000_0000
  {
    Pow2Byte();
    Pow2Add(8, 8);
    assert Pow2(16) == 0x1_0000;
    Pow2Add(16, 16);
  }

  /** The bits a writer holds in its pending byte: the top `count` bits. */
  function Pending(data: Byte, count: nat): seq<bool>
    requires count <= 8
  {
    Msb(Shr(data, 8 - count), count)
  }

  /** A writer's pending byte holds fewer than 8 bits, at its top, and is clear below them. */
  predicate Packing(b: Bits)
  {
    b.count < 8 && Low(b.data, 8 - b.count) == 0
  }

  /** Everything a writer has taken in: the buffered bytes, then the pending bits. */
  function Written(b: Bits): seq<bool>
    requires b.count <= 8
  {
    Stream(b.buf) + Pending(b.data, b.count)
  }

  /** `bits_init_write`: an empty buffer, nothing pending, the write-mode offset. */
  function InitWrite(): (b: Bits)
    ensures Packing(b) && Written(b) == [] && b.offset == WRITE_MODE
  {
    ShrSmall(0, 0, 8);
    Bits([], 0, 0, WRITE_MODE)
  }

  /** One chunk or-ed into the pending byte:
      `bdata |= (data & mask) << ((8 - bcount) - size)`. */
  function PackChunk(bdata: Byte, bcount: nat, data: nat, size: nat): (b: Byte)
    requires bcount < 8 && 1 <= size <= 8 - bcount && Low(bdata, 8 - bcount) == 0
    ensures Low(b, 8 - bcount - size) == 0
  {
    PackChunkFacts(bdata, bcount, data, size);
    bdata + Shl(Low(data, size), 8 - bcount - size)
  }

  lemma PackChunkFacts(bdata: Byte, bcount: nat, data: nat, size: nat)
    requires bcount < 8 && 1 <= size <= 8 - bcount && Low(bdata, 8 - bcount) == 0
    ensures var e := 8 - bcount - size;
      var b := bdata + Shl(Low(data, size), e);
      && b < 256 && Low(b, e) == 0
      && Msb(Shr(b, e), bcount + size) == Pending(bdata, bcount) + Msb(data, size)
  {
    var e := 8 - bcount - size;
    var hi, c := Shr(bdata, 8 - bcount), Low(data, size);
    var x := Shl(hi, size) + c;
    PackJoin(bdata, bcount, size, hi, c, x);
    ShlUnique(x, 0, e);
    PackBound(bdata, bcount, size, hi, c, x);
    PackMsb(data, bcount, size, hi, c, x);
  }

  /** The pending bits, shifted up by the chunk's width, with the chunk below them. */
  lemma PackJoin(bdata: Byte, bcount: nat, size: nat, hi: nat, c: nat, x: nat)
    requires bcount < 8 && 1 <= size <= 8 - bcount && Low(bdata, 8 - bcount) == 0
    requires hi == Shr(bdata, 8 - bcount) && x == Shl(hi, size) + c
    ensures bdata + Shl(c, 8 - bcount - size) == Shl(x, 8 - bcount - size)
  {
    var e := 8 - bcount - size;
    ShrExact(bdata, 8 - bcount);
    ShlAdd(hi, size, e);
    ShlDistributes(Shl(hi, size), c, e);
  }

  lemma PackBound(bdata: Byte, bcount: nat, size: nat, hi: nat, c: nat, x: nat)
    requires bcount < 8 && 1 <= size <= 8 - bcount && c < Pow2(size)
    requires hi == Shr(bdata, 8 - bcount) && x == Shl(hi, size) + c
    ensures Shl(x, 8 - bcount - size) < 256
  {
    Pow2Byte();
    ShrBound(bdata, bcount, 8 - bcount);
    ShlBound(hi, c, bcount, size);
    ShlBound(x, 0, bcount + size, 8 - bcount - size);
  }

  lemma PackMsb(data: nat, bcount: nat, size: nat, hi: nat, c: nat, x: nat)
    requires c == Low(data, size) && x == Shl(hi, size) + c
    ensures Msb(x, bcount + size) == Msb(hi, bcount) + Msb(data, size)
  {
    MsbSplit(x, bcount, size);
    ShlUnique(hi, c, size);
    MsbLow(x, size);
    MsbLow(data, size);
  }

  /** The chunk or-ed in follows the bits already pending. */
  lemma PackChunkPlaces(bdata: Byte, bcount: nat, data: nat, size: nat)
    requires bcount < 8 && 1 <= size <= 8 - bcount && Low(bdata, 8 - bcount) == 0
    ensures Pending(PackChunk(bdata, bcount, data, size), bcount + size) == Pending(bdata, bcount) + Msb(data, size)
  {
    PackChunkFacts(bdata, bcount, data, size);
  }

  /** One pass of the `bits_write` loop: a chunk of `size` bits goes into the
      pending byte, which goes to the buffer once it holds 8 bits. */
  function WriteChunk(b: Bits, data: nat, count: nat): (r: (Bits, nat))
    requires Packing(b) && count > 0
    ensures r.1 == Min(8 - b.count, count) && Packing(r.0) && r.0.offset == b.offset
    ensures r.0.count == (b.count + r.1) % 8 && |r.0.buf| == |b.buf| + (b.count + r.1) / 8
    ensures r.0.buf[..|b.buf|] == b.buf
  {
    var size := Min(8 - b.count, count);
    var bdata := PackChunk(b.data, b.count, data, size);
    if b.count + size == 8 then
      ShrSmall(0, 0, 8);
      assert (b.buf + [bdata])[..|b.buf|] == b.buf;
      (Bits(b.buf + [bdata], 0, 0, b.offset), size)
    else
      (b.(data := bdata, count := b.count + size), size)
  }

  /** A pass appends the low `size` bits of `data` to what the writer holds. */
  lemma WriteChunkWrites(b: Bits, data: nat, count: nat)
    requires Packing(b) && count > 0
    ensures var r := WriteChunk(b, data, count); Written(r.0) == Written(b) + Msb(data, r.1)
  {
    var size := Min(8 - b.count, count);
    var bdata := PackChunk(b.data, b.count, data, size);
    PackChunkPlaces(b.data, b.count, data, size);
    if b.count + size == 8 {
      StreamAppend(b.buf, bdata);
      ByteCompleted(Stream(b.buf), Pending(b.data, b.count), Msb(data, size), bdata);
    } else {
      Regroup(Written(b) + Msb(data, size), Stream(b.buf), Pending(b.data, b.count) + Msb(data, size),
              Pending(b.data, b.count), Msb(data, size), Written(b));
    }
  }

  /** A completed pending byte moves to the buffer unchanged. */
  lemma ByteCompleted(s: seq<bool>, p: seq<bool>, m: seq<bool>, bdata: Byte)
    requires Pending(bdata, 8) == p + m
    ensures s + Msb(bdata, 8) + Pending(0, 0) == s + p + m
  {
    assert Pending(bdata, 8) == Msb(bdata, 8);
  }

  /** The loop of `bits_write`: chunk after chunk until `count` bits are placed. */
  function WriteLoop(b: Bits, data: nat, count: nat): (r: Bits)
    requires Packing(b)
    ensures Packing(r) && r.offset == b.offset
    ensures r.count == (b.count + count) % 8 && |r.buf| == |b.buf| + (b.count + count) / 8
    ensures r.buf[..|b.buf|] == b.buf
    decreases count
  {
    if count == 0 then b
    else
      var (b', size) := WriteChunk(b, data, count);
      var r := WriteLoop(b', Shr(data, size), count - size);
      assert r.buf[..|b.buf|] == r.buf[..|b'.buf|][..|b.buf|];
      r
  }

  /** The loop appends the low `count` bits of `data`, in the chunked layout. */
  lemma {:induction false} WriteLoopWrites(b: Bits, data: nat, count: nat)
    requires Packing(b)
    ensures Written(WriteLoop(b, data, count)) == Written(b) + Chunks(data, count, b.count)
    decreases count
  {
    if count > 0 {
      var (b', size) := WriteChunk(b, data, count);
      WriteChunkWrites(b, data, count);
      WriteLoopWrites(b', Shr(data, size), count - size);
      ChunksFirst(data, count, b.count, size, Shr(data, size), count - size, b'.count);
      AppendStep(Written(WriteLoop(b', Shr(data, size), count - size)), Written(b), Msb(data, size),
                 Written(b'), Chunks(Shr(data, size), count - size, b'.count), Chunks(data, count, b.count));
    }
  }

  /** (w + m) + rest, with m + rest = c, is w + c. */
  lemma AppendStep<T>(s: seq<T>, w: seq<T>, m: seq<T>, w': seq<T>, rest: seq<T>, c: seq<T>)
    requires w' == w + m && s == w' + rest && c == m + rest
    ensures s == w + c
  {
  }

  /** `bits_write`: appends the low `count` bits of `data` in the chunked layout.
      A byte goes to the buffer each time 8 bits have gathered, and fewer than 8
      stay pending. */
  function Write(b: Bits, data: U32, count: nat): (b': Bits)
    requires Packing(b)
    ensures Packing(b') && b'.offset == b.offset
    ensures Written(b') == Written(b) + Chunks(data, count, b.count)
    ensures b'.count == (b.count + count) % 8 && |b'.buf| == |b.buf| + (b.count + count) / 8
    ensures b'.buf[..|b.buf|] == b.buf
    ensures count == 0 ==> b' == b
  {
    WriteLoopWrites(b, data, count);
    WriteLoop(b, data, count)
  }

  /** `bits_flush`: a partly filled pending byte goes to the buffer, its unused
      low bits zero; then nothing is pending. */
  function Flush(b: Bits): (b': Bits)
    requires Packing(b)
    ensures Packing(b') && b'.count == 0 && b'.data == 0 && b'.offset == b.offset
    ensures Stream(b'.buf) == Written(b) + Zeros((8 - b.count) % 8)
    ensures |b'.buf| == (|Written(b)| + 7) / 8 && b'.buf[..|b.buf|] == b.buf
    ensures |b'.buf| == |b.buf| + (if b.count > 0 then 1 else 0)
  {
    ShrSmall(0, 0, 8);
    if b.count > 0 then
      FlushPads(b.data, b.count);
      StreamAppend(b.buf, b.data);
      assert (b.buf + [b.data])[..|b.buf|] == b.buf;
      Bits(b.buf + [b.data], 0, 0, b.offset)
    else
      Bits(b.buf, 0, 0, b.offset)
  }

  /** The byte written by a flush is the pending bits followed by zeros. */
  lemma FlushPads(data: Byte, count: nat)
    requires 0 < count < 8 && Low(data, 8 - count) == 0
    ensures Msb(data, 8) == Pending(data, count) + Zeros(8 - count)
  {
    MsbSplit(data, count, 8 - count);
    MsbLow(data, 8 - count);
    MsbZero(8 - count);
  }

  // ---------------------------------------------------------------------------
  // Reading

  /** A reader: at most 8 pending bits, and an offset within the buffer. */
  predicate Reading(b: Bits)
  {
    b.count <= 8 && b.offset <= |b.buf|
  }

  /** What a reader has still to deliver: the low `count` bits of its pending
      byte, then the bytes from `offset` on. */
  function Remaining(b: Bits): (r: seq<bool>)
    requires Reading(b)
    ensures |r| == Available(b)
  {
    Msb(b.data, b.count) + Stream(b.buf[b.offset..])
  }

  /** The number of bits a reader can still deliver. */
  function Available(b: Bits): nat
    requires Reading(b)
  {
    b.count + 8 * (|b.buf| - b.offset)
  }

  /** The bit position within the current byte: 8 - count, or 0 when nothing
      or a whole byte is pending. */
  function Position(b: Bits): (p: nat)
    ensures p < 8
  {
    if b.count == 0 || b.count >= 8 then 0 else 8 - b.count
  }

  /** `bits_init_read`: the given bytes, nothing pending, offset 0. */
  function InitRead(bytes: seq<Byte>): (b: Bits)
    ensures Reading(b) && Remaining(b) == Stream(bytes) && Position(b) == 0
  {
    Bits(bytes, 0, 0, 0)
  }

  /** The fetch of `bits_read`: the byte at `offset` becomes the pending byte. */
  function Fetch(b: Bits): (b': Bits)
    requires Reading(b) && b.count == 0 && b.offset < |b.buf|
    ensures Reading(b') && b'.count == 8 && b'.buf == b.buf && b'.offset == b.offset + 1
  {
    Bits(b.buf, b.buf[b.offset], 8, b.offset + 1)
  }

  /** A fetch moves a byte from the buffer to the pending bits: nothing is lost. */
  lemma FetchKeepsRemaining(b: Bits)
    requires Reading(b) && b.count == 0 && b.offset < |b.buf|
    ensures Remaining(Fetch(b)) == Remaining(b)
  {
    assert b.buf[b.offset..] == [b.buf[b.offset]] + b.buf[b.offset + 1..];
  }

  /** What one pass of the `bits_read` loop yields: a chunk of `size` bits and
      the reader after it. */
  datatype Taken = Taken(chunk: nat, size: nat, rest: Bits)

  /** One pass of the `bits_read` loop: fetch if nothing is pending, then take
      `size` bits from the top of what is pending. */
  function ReadChunk(b: Bits, want: nat): (r: Taken)
    requires Reading(b) && 0 < want <= Available(b)
    ensures r.size == Min(8 - Position(b), want) && r.chunk < Pow2(r.size)
    ensures Reading(r.rest) && r.rest.buf == b.buf && Available(r.rest) == Available(b) - r.size
    ensures Position(r.rest) == (Position(b) + r.size) % 8
    ensures r.rest.count == (if b.count == 0 then 8 else b.count) - r.size
    ensures r.rest.offset == b.offset + if b.count == 0 then 1 else 0
  {
    var b1 := if b.count == 0 then Fetch(b) else b;
    var size := Min(b1.count, want);
    Taken(Low(Shr(b1.data, b1.count - size), size), size, b1.(count := b1.count - size))
  }

  /** The chunk a pass takes is the next `size` bits of what the reader holds. */
  lemma ReadChunkTakes(b: Bits, want: nat)
    requires Reading(b) && 0 < want <= Available(b)
    ensures var r := ReadChunk(b, want); Remaining(b) == Msb(r.chunk, r.size) + Remaining(r.rest)
  {
    if b.count == 0 {
      FetchKeepsRemaining(b);
    }
    var b1 := if b.count == 0 then Fetch(b) else b;
    var size := Min(b1.count, want);
    MsbSplit(b1.data, size, b1.count - size);
    MsbLow(Shr(b1.data, b1.count - size), size);
  }

  /** What one pass of the loop of `bits_read` does, as facts about its
      inputs and outputs: `chunk` is the next `size` bits of the reader `cur`,
      which moves on to `next`. */
  ghost predicate ChunkTaken(cur: Bits, want: nat, chunk: nat, size: nat, next: Bits)
  {
    && Reading(cur) && size == Min(8 - Position(cur), want) && chunk < Pow2(size)
    && Reading(next) && next.buf == cur.buf && Available(next) == Available(cur) - size
    && Position(next) == (Position(cur) + size) % 8
    && next.count == (if cur.count == 0 then 8 else cur.count) - size
    && next.offset == cur.offset + (if cur.count == 0 then 1 else 0)
    && Remaining(cur) == Msb(chunk, size) + Remaining(next)
  }

  /** `ReadChunk` with all that is known of its result gathered in one fact. */
  function NextChunk(cur: Bits, want: nat): (r: Taken)
    requires Reading(cur) && 0 < want <= Available(cur)
    ensures ChunkTaken(cur, want, r.chunk, r.size, r.rest)
  {
    ReadChunkTakes(cur, want);
    ReadChunk(cur, want)
  }

  /** The bookkeeping the loop of `bits_read` keeps, reading `count` bits from
      `b`: the reader `cur` has moved on by `read` bits, fetching a byte only
      when it had none pending, and until the end what was taken ends on a
      byte boundary. */
  ghost predicate ReadPlace(b: Bits, count: nat, read: nat, cur: Bits)
  {
    && Reading(b) && Reading(cur) && cur.buf == b.buf && read <= count && count <= Available(b)
    && Available(cur) == Available(b) - read
    && Position(cur) == (Position(b) + read) % 8
    && cur.offset == b.offset + (if read <= b.count then 0 else (read - b.count + 7) / 8)
    && (read < count ==> read == 0 || Position(cur) == 0)
  }

  /** What the loop of `bits_read` keeps: its bookkeeping, and the `read` bits
      taken so far are the low bits of `acc` and are the stream's next bits in
      the chunked layout. */
  ghost predicate ReadSoFar(b: Bits, count: nat, acc: nat, read: nat, cur: Bits)
  {
    && ReadPlace(b, count, read, cur) && acc < Pow2(read)
    && Remaining(b) == Chunks(acc, read, Position(b)) + Remaining(cur)
  }

  lemma ReadSoFarStart(b: Bits, count: nat)
    requires Reading(b) && count <= Available(b)
    ensures ReadSoFar(b, count, 0, 0, b)
  {
    assert Chunks(0, 0, Position(b)) + Remaining(b) == Remaining(b);
  }

  /** At the end of the loop the bits taken are the whole chunked layout of a
      `count`-bit value, so a 32-bit one. */
  lemma ReadSoFarEnd(b: Bits, count: nat, acc: nat, cur: Bits)
    requires ReadSoFar(b, count, acc, count, cur) && count <= 32
    ensures acc < 0x1_0000_0000
  {
    Pow2Mono(count, 32);
    Pow2Word();
  }

  /** One pass of the loop of `bits_read`: takes the next chunk from `cur`
      and adds it above the `read` bits of `acc`. */
  method ReadStep(b: Bits, count: nat, acc: nat, read: nat, cur: Bits) returns (acc': nat, read': nat, cur': Bits)
    requires ReadSoFar(b, count, acc, read, cur) && read < count
    ensures read < read' && ReadSoFar(b, count, acc', read', cur')
  {
    var r := NextChunk(cur, count - read);
    ReadStepKeeps(b, count, acc, read, cur, r.chunk, r.size, r.rest);
    acc', read', cur' := acc + Shl(r.chunk, read), read + r.size, r.rest;
  }

  /** One pass of the loop keeps `ReadSoFar`. */
  lemma ReadStepKeeps(b: Bits, count: nat, acc: nat, read: nat, cur: Bits, chunk: nat, size: nat, next: Bits)
    requires ReadSoFar(b, count, acc, read, cur) && read < count
    requires ChunkTaken(cur, count - read, chunk, size, next)
    ensures ReadSoFar(b, count, acc + Shl(chunk, read), read + size, next)
  {
    ReadPlaceStep(b, count, read, cur, chunk, size, next);
    ShlBound(chunk, acc, size, read);
    TakeChunk(Remaining(b), Remaining(cur), Remaining(next), acc, read, Position(b), Position(cur), chunk, size);
  }

  /** One pass of the loop keeps `ReadPlace`. */
  lemma ReadPlaceStep(b: Bits, count: nat, read: nat, cur: Bits, chunk: nat, size: nat, next: Bits)
    requires ReadPlace(b, count, read, cur) && read < count
    requires ChunkTaken(cur, count - read, chunk, size, next)
    ensures ReadPlace(b, count, read + size, next)
  {
    ModAdd(Position(b), read, size, Position(cur), Position(next));
    FetchForward(b, cur, next, read, size);
  }

  /** A chunk taken from what follows the layout read so far extends that layout. */
  lemma TakeChunk(rem: seq<bool>, rest: seq<bool>, rest': seq<bool>, acc: nat, read: nat, c: nat, p: nat, chunk: nat, size: nat)
    requires c < 8 && acc < Pow2(read) && 0 < size
    requires p == (c + read) % 8 && (read == 0 || p == 0) && size <= 8 - p
    requires rem == Chunks(acc, read, c) + rest && rest == Msb(chunk, size) + rest'
    ensures rem == Chunks(acc + Shl(chunk, read), read + size, c) + rest'
  {
    ChunksExtend(acc, read, c, chunk, size);
    Regroup(rem, Chunks(acc, read, c), rest, Msb(chunk, size), rest', Chunks(acc + Shl(chunk, read), read + size, c));
  }

  /** s = a + rest, rest = m + rest', c = a + m: then s = c + rest'. */
  lemma Regroup<T>(s: seq<T>, a: seq<T>, rest: seq<T>, m: seq<T>, rest': seq<T>, c: seq<T>)
    requires s == a + rest && rest == m + rest' && c == a + m
    ensures s == c + rest'
  {
  }

  lemma ModAdd(p: nat, read: nat, size: nat, q: nat, q': nat)
    requires q == (p + read) % 8 && q' == (q + size) % 8
    ensures q' == (p + (read + size)) % 8
  {
  }

  /** A pass fetches a byte exactly when none is pending, which keeps the
      number of bytes fetched at the number of bytes the bits read so far
      reach into beyond the initially pending ones. */
  lemma FetchForward(b: Bits, cur: Bits, next: Bits, read: nat, size: nat)
    requires Reading(b) && Reading(cur) && cur.buf == b.buf && Available(cur) == Available(b) - read
    requires cur.offset == b.offset + (if read <= b.count then 0 else (read - b.count + 7) / 8)
    requires 0 < size <= (if cur.count == 0 then 8 else cur.count)
    requires next.offset == cur.offset + if cur.count == 0 then 1 else 0
    ensures next.offset == b.offset + (if read + size <= b.count then 0 else (read + size - b.count + 7) / 8)
  {
  }

  /** `bits_read`: the next `count` bits of the stream, read back through the
      chunked layout, as a value below 2^count.  The reader fetches a byte only
      when no bits are pending, one offset step per byte.  The result is a
      `uint32_t` shifted by up to `count`, so at most 32 bits are read at once. */
  method Read(b: Bits, count: nat) returns (out: U32, b': Bits)
    requires Reading(b) && count <= 32 && count <= Available(b)
    ensures Reading(b') && b'.buf == b.buf && Available(b') == Available(b) - count
    ensures out < Pow2(count)
    ensures Remaining(b) == Chunks(out, count, Position(b)) + Remaining(b')
    ensures Position(b') == (Position(b) + count) % 8
    ensures b'.offset == b.offset + if count <= b.count then 0 else (count - b.count + 7) / 8
    ensures count == 0 ==> out == 0 && b' == b
  {
    var acc: nat, read: nat := 0, 0;
    b' := b;
    ReadSoFarStart(b, count);
    while read < count
      invariant ReadSoFar(b, count, acc, read, b')
      invariant read == 0 ==> acc == 0 && b' == b
      decreases count - read
    {
      acc, read, b' := ReadStep(b, count, acc, read, b');
    }
    assert read == count;
    ReadSoFarEnd(b, count, acc, b');
    out := acc;
  }

  // ---------------------------------------------------------------------------
  // Sequences of values

  function Sum(counts: seq<nat>): nat
  {
    if |counts| == 0 then 0 else counts[0] + Sum(counts[1..])
  }

  /** The bits of `values[i]`, `counts[i]` bits each, one after the other in the
      chunked layout, starting at bit position c of a byte. */
  function Layout(values: seq<nat>, counts: seq<nat>, c: nat): (r: seq<bool>)
    requires |values| == |counts| && c < 8
    ensures |r| == Sum(counts)
  {
    if |values| == 0 then []
    else Chunks(values[0], counts[0], c) + Layout(values[1..], counts[1..], (c + counts[0]) % 8)
  }

  lemma LayoutFirst(values: seq<nat>, counts: seq<nat>, c: nat, c': nat)
    requires |values| == |counts| > 0 && c < 8 && c' == (c + counts[0]) % 8
    ensures Layout(values, counts, c) == Chunks(values[0], counts[0], c) + Layout(values[1..], counts[1..], c')
  {
  }

  /** `bits_write` called once per value, in order. */
  function WriteAll(b: Bits, values: seq<U32>, counts: seq<nat>): (b': Bits)
    requires Packing(b) && |values| == |counts|
    ensures Packing(b') && b'.offset == b.offset
    ensures Written(b') == Written(b) + Layout(values, counts, b.count)
    decreases |values|
  {
    if |values| == 0 then b
    else
      var b1 := Write(b, values[0], counts[0]);
      var r := WriteAll(b1, values[1..], counts[1..]);
      LayoutFirst(values, counts, b.count, b1.count);
      AppendStep(Written(r), Written(b), Chunks(values[0], counts[0], b.count), Written(b1),
                 Layout(values[1..], counts[1..], b1.count), Layout(values, counts, b.count));
      r
  }

  /** `bits_read` called once per count, in order: the values read back and
      the reader after them. */
  method ReadAll(b: Bits, counts: seq<nat>) returns (values: seq<U32>, b': Bits)
    requires Reading(b) && Sum(counts) <= Available(b)
    requires forall i :: 0 <= i < |counts| ==> counts[i] <= 32
    ensures |values| == |counts| && forall i :: 0 <= i < |values| ==> values[i] < Pow2(counts[i])
    ensures Reading(b') && Remaining(b) == Layout(values, counts, Position(b)) + Remaining(b')
    decreases |counts|
  {
    if |counts| == 0 {
      values, b' := [], b;
      assert Layout(values, counts, Position(b)) + Remaining(b) == Remaining(b);
      return;
    }
    var v, b1 := Read(b, counts[0]);
    var rest;
    rest, b' := ReadAll(b1, counts[1..]);
    values := [v] + rest;
    assert values[0] == v && values[1..] == rest;
    LayoutFirst(values, counts, Position(b), Position(b1));
    Regroup(Remaining(b), Chunks(v, counts[0], Position(b)), Remaining(b1),
            Layout(rest, counts[1..], Position(b1)), Remaining(b'), Layout(values, counts, Position(b)));
  }

  /** Equal layouts of values with the same counts mean equal low bits. */
  lemma {:induction false} LayoutInjective(a: seq<nat>, b: seq<nat>, counts: seq<nat>, c: nat)
    requires |a| == |b| == |counts| && c < 8 && Layout(a, counts, c) == Layout(b, counts, c)
    ensures forall i :: 0 <= i < |a| ==> Low(a[i], counts[i]) == Low(b[i], counts[i])
    decreases |a|
  {
    if |a| > 0 {
      var c' := (c + counts[0]) % 8;
      SplitEqual(Chunks(a[0], counts[0], c), Layout(a[1..], counts[1..], c'),
                 Chunks(b[0], counts[0], c), Layout(b[1..], counts[1..], c'));
      ChunksInjective(a[0], b[0], counts[0], c);
      LayoutInjective(a[1..], b[1..], counts[1..], c');
      forall i | 1 <= i < |a|
        ensures Low(a[i], counts[i]) == Low(b[i], counts[i])
      {
        assert a[i] == a[1..][i - 1] && b[i] == b[1..][i - 1] && counts[i] == counts[1..][i - 1];
      }
    }
  }

  /** Values written one after another with `bits_write`, flushed, and read back
      from the start with `bits_read` using the same counts, come back as their
      low `counts[i]` bits. */
  method WriteThenRead(values: seq<U32>, counts: seq<nat>) returns (decoded: seq<U32>)
    requires |values| == |counts| && forall i :: 0 <= i < |counts| ==> counts[i] <= 32
    ensures |decoded| == |values|
    ensures forall i :: 0 <= i < |values| ==> decoded[i] == Low(values[i], counts[i])
  {
    var w := Flush(WriteAll(InitWrite(), values, counts));
    var r := InitRead(w.buf);
    var rest: Bits;
    decoded, rest := ReadAll(r, counts);
    SplitEqual(Layout(values, counts, 0), Zeros((8 - WriteAll(InitWrite(), values, counts).count) % 8),
               Layout(decoded, counts, 0), Remaining(rest));
    LayoutInjective(values, decoded, counts, 0);
    forall i | 0 <= i < |values|
      ensures decoded[i] == Low(values[i], counts[i])
    {
      ShrSmall(decoded[i], counts[i], counts[i]);
    }
  }

  // ---------------------------------------------------------------------------
  // Reset and release

  /** `bits_reset`: a writer's buffer is emptied, a reader is rewound to offset 0;
      either way nothing is pending.  A writer becomes a fresh writer and a
      reader a fresh reader over the same bytes. */
  function Reset(b: Bits): (b': Bits)
    ensures b.offset == WRITE_MODE ==> b' == InitWrite()
    ensures b.offset != WRITE_MODE ==> b' == InitRead(b.buf)
  {
    if b.offset == WRITE_MODE then Bits([], 0, 0, b.offset) else Bits(b.buf, 0, 0, 0)
  }

  /** `bits_release`: only a writer owns its buffer, and only a writer's is freed. */
  function Release(b: Bits): (b': Bits)
    ensures b'.offset == b.offset && b'.data == b.data && b'.count == b.count
    ensures b.offset == WRITE_MODE ==> b'.buf == []
    ensures b.offset != WRITE_MODE ==> b'.buf == b.buf
  {
    if b.offset == WRITE_MODE then b.(buf := []) else b
  }
}
