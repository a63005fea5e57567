/** The converter's storage and tile metric (`converter.c`): three
    growable arenas (tiles, frames and the output byte stream) and
    `tile_compare`, the squared Hamming distance between two 1-bit 16x16
    tiles, optionally with the second tile mirrored.

    A tile is read as eight 32-bit words, as `tile_compare` reads it, so
    no byte order enters the model. */
module Converter {
  import opened Growth
  import opened Bytes

  const SCREEN_WIDTH: nat := 320
  const SCREEN_HEIGHT: nat := 192
  const TILE_WIDTH: nat := 16
  const TILE_HEIGHT: nat := 16
  /** Words per tile: 16 rows of 2 bytes, read 4 bytes at a time. */
  const TILE_WORDS: nat := ((TILE_WIDTH / 8) * TILE_HEIGHT) / 4
  /** Tile indices per frame of `video.h`: one per cell of the 320x192 screen. */
  const FRAME_TILES: nat := (SCREEN_WIDTH / TILE_WIDTH) * (SCREEN_HEIGHT / TILE_HEIGHT)
  /** The reserve of an arena's first allocation. */
  const FIRST_RESERVE: nat := 16

  type Tile = s: seq<bv32> | |s| == TILE_WORDS
    witness [0, 0, 0, 0, 0, 0, 0, 0]

  /** A 16-bit tile index of `video.h` (`LONG_TILE_INDEX` is not defined). */
  type TileIndex = x: nat | x <= 0xffff

  type Frame = s: seq<TileIndex> | |s| == FRAME_TILES
    witness Zeros(240)

  function Zeros(n: nat): (s: seq<TileIndex>)
    ensures |s| == n && forall i :: 0 <= i < n ==> s[i] == 0
  {
    if n == 0 then [] else Zeros(n - 1) + [0]
  }

  // ---------------------------------------------------------------------------
  // Arenas

  /** An arena: the used slots (`offset` is their number) and the number
      of slots reserved. */
  datatype Arena<T> = Arena(items: seq<T>, reserve: nat)

  /** The used slots fit in the reservation. */
  ghost predicate Fits<T>(a: Arena<T>)
  {
    |a.items| <= a.reserve
  }

  /** An allocation's outcome: the arena after it and the slot handed out. */
  datatype Allocated<T> = Allocated(arena: Arena<T>, slot: nat)

  /** The allocation rule shared by `tile_alloc` and `frame_alloc`: grow
      the reserve when the arena is full, then hand out the slot at the old
      offset, which the caller fills with `x`. */
  function Alloc<T>(a: Arena<T>, x: T): (r: Allocated<T>)
    requires Fits(a)
    ensures Fits(r.arena)
    ensures r.slot == |a.items| && r.arena.items == a.items + [x]
    ensures r.arena.reserve == if |a.items| == a.reserve then Grow(a.reserve, FIRST_RESERVE) else a.reserve
  {
    var reserve := if |a.items| == a.reserve then Grow(a.reserve, FIRST_RESERVE) else a.reserve;
    Allocated(Arena(a.items + [x], reserve), |a.items|)
  }

  /** `tile_alloc`. */
  function TileAlloc(a: Arena<Tile>, t: Tile): (r: Allocated<Tile>)
    requires Fits(a)
    ensures Fits(r.arena) && a.reserve <= r.arena.reserve
    ensures r.slot == |a.items| && |r.arena.items| == |a.items| + 1
    ensures r.arena.items[r.slot] == t && r.arena.items[..r.slot] == a.items
    ensures r.arena.reserve != a.reserve <==> |a.items| == a.reserve
    ensures a.reserve == 0 ==> r.arena.reserve == FIRST_RESERVE
    ensures 0 < a.reserve ==> r.arena.reserve == a.reserve || r.arena.reserve == 2 * a.reserve
  {
    Alloc(a, t)
  }

  /** `frame_alloc`. */
  function FrameAlloc(a: Arena<Frame>, f: Frame): (r: Allocated<Frame>)
    requires Fits(a)
    ensures Fits(r.arena) && a.reserve <= r.arena.reserve
    ensures r.slot == |a.items| && |r.arena.items| == |a.items| + 1
    ensures r.arena.items[r.slot] == f && r.arena.items[..r.slot] == a.items
    ensures r.arena.reserve != a.reserve <==> |a.items| == a.reserve
    ensures a.reserve == 0 ==> r.arena.reserve == FIRST_RESERVE
    ensures 0 < a.reserve ==> r.arena.reserve == a.reserve || r.arena.reserve == 2 * a.reserve
  {
    Alloc(a, f)
  }

  /** Allocate one slot per element of `xs`, in order. */
  function AllocAll<T>(a: Arena<T>, xs: seq<T>): (a': Arena<T>)
    requires Fits(a)
    ensures Fits(a') && |a'.items| == |a.items| + |xs|
    decreases |xs|
  {
    if |xs| == 0 then a else Alloc(AllocAll(a, xs[..|xs| - 1]), xs[|xs| - 1]).arena
  }

  /** Allocating from an empty arena stores the elements in order, and the
      reserve is the smallest 16 * 2^k that holds them. */
  lemma {:induction false} AllocAllFromEmpty<T>(xs: seq<T>)
    ensures AllocAll(Arena([], 0), xs).items == xs
    ensures AllocAll(Arena([], 0), xs).reserve == if |xs| == 0 then 0 else Doubled(FIRST_RESERVE, |xs|)
    decreases |xs|
  {
    if |xs| > 0 {
      var n := |xs| - 1;
      AllocAllFromEmpty(xs[..n]);
      assert xs[..n] + [xs[n]] == xs;
      if n > 0 {
        DoubledStep(FIRST_RESERVE, n);
      }
    }
  }

  // ---------------------------------------------------------------------------
  // The output stream

  /** The byte stream: the bytes written so far and the bytes reserved. */
  datatype Stream = Stream(bytes: seq<bv8>, reserve: nat)

  /** A `stream_alloc` outcome: the stream after it and where the region starts. */
  datatype Region = Region(stream: Stream, start: nat)

  function Max(a: nat, b: nat): (m: nat)
    ensures a <= m && b <= m && (m == a || m == b)
  {
    if a < b then b else a
  }

  /** `stream_alloc(len)`, with the `len` bytes the caller then writes:
      when they do not fit, the reserve becomes the larger of twice itself
      and itself plus `len`. */
  function StreamAlloc(s: Stream, data: seq<bv8>): (r: Region)
    requires |s.bytes| <= s.reserve
    ensures |r.stream.bytes| <= r.stream.reserve
    ensures r.start == |s.bytes| && r.stream.bytes == s.bytes + data
    ensures r.stream.bytes[r.start..] == data
    ensures r.stream.reserve == if |s.bytes| + |data| > s.reserve then Max(2 * s.reserve, s.reserve + |data|) else s.reserve
  {
    var len := |data|;
    var reserve := if |s.bytes| + len > s.reserve then
        (if s.reserve * 2 < s.reserve + len then s.reserve + len else s.reserve * 2)
      else s.reserve;
    Region(Stream(s.bytes + data, reserve), |s.bytes|)
  }

  /** The concatenation of `chunks`. */
  function Concat(chunks: seq<seq<bv8>>): (s: seq<bv8>)
    decreases |chunks|
  {
    if |chunks| == 0 then [] else Concat(chunks[..|chunks| - 1]) + chunks[|chunks| - 1]
  }

  /** Allocate and fill one region per chunk, in order. */
  function StreamAllocAll(s: Stream, chunks: seq<seq<bv8>>): (s': Stream)
    requires |s.bytes| <= s.reserve
    ensures |s'.bytes| <= s'.reserve
    decreases |chunks|
  {
    if |chunks| == 0 then s
    else StreamAlloc(StreamAllocAll(s, chunks[..|chunks| - 1]), chunks[|chunks| - 1]).stream
  }

  /** A run of allocations on an empty stream writes the chunks one after
      another, and the reserve never exceeds twice the bytes written. */
  lemma {:induction false} StreamAllocAllFromEmpty(chunks: seq<seq<bv8>>)
    ensures StreamAllocAll(Stream([], 0), chunks).bytes == Concat(chunks)
    ensures StreamAllocAll(Stream([], 0), chunks).reserve <= 2 * |Concat(chunks)|
    decreases |chunks|
  {
    if |chunks| > 0 {
      StreamAllocAllFromEmpty(chunks[..|chunks| - 1]);
    }
  }

  // ---------------------------------------------------------------------------
  // Bits of a word

  /** Byte `q` of a word, the least significant being byte 0. */
  function ByteOf(x: bv32, q: nat): bv8
    requires q < 4
  {
    if q == 0 then (x & 0xff) as bv8
    else if q == 1 then ((x >> 8) & 0xff) as bv8
    else if q == 2 then ((x >> 16) & 0xff) as bv8
    else (x >> 24) as bv8
  }

  /** Value (0 or 1) of bit `i` of `x`, bit 0 being the least significant:
      bit `i % 8` of byte `i / 8`. */
  function Bit32(x: bv32, i: nat): nat
    requires i < 32
  {
    Bit(ByteOf(x, i / 8), i % 8)
  }

  /** The four swap steps of `tile_compare`'s flip: adjacent bits, bit
      pairs, nibbles, then bytes, each within a 16-bit half. */
  function FlipHalves(w: bv32): bv32
  {
    var a := ((w & 0x5555_5555) << 1) | ((w & 0xaaaa_aaaa) >> 1);
    var b := ((a & 0x3333_3333) << 2) | ((a & 0xcccc_cccc) >> 2);
    var c := ((b & 0x0f0f_0f0f) << 4) | ((b & 0xf0f0_f0f0) >> 4);
    ((c & 0x00ff_00ff) << 8) | ((c & 0xff00_ff00) >> 8)
  }

  /** The flip mirrors each 16-bit half: bit `i` of the result is bit 15-i
      of the low half, or bit 47-i of the high half. */
  lemma FlipHalvesMirrors(w: bv32)
    ensures forall i :: 0 <= i < 16 ==> Bit32(FlipHalves(w), i) == Bit32(w, 15 - i)
    ensures forall i :: 16 <= i < 32 ==> Bit32(FlipHalves(w), i) == Bit32(w, 47 - i)
  {
    forall i | 0 <= i < 32
      ensures Bit32(FlipHalves(w), i) == Bit32(w, if i < 16 then 15 - i else 47 - i)
    {
      FlipHalvesBit(w, i);
    }
  }

  lemma FlipHalvesBit(w: bv32, i: nat)
    requires i < 32
    ensures Bit32(FlipHalves(w), i) == Bit32(w, if i < 16 then 15 - i else 47 - i)
  {
    FlipHalvesBytes(w);
    MirrorBit(w, FlipHalves(w), i);
  }

  /** A word whose bytes are those of `w` reversed and swapped within each
      half holds the bits of `w` mirrored within each half. */
  lemma MirrorBit(w: bv32, f: bv32, i: nat)
    requires i < 32
    requires ByteOf(f, 0) == Reverse8(ByteOf(w, 1)) && ByteOf(f, 1) == Reverse8(ByteOf(w, 0))
    requires ByteOf(f, 2) == Reverse8(ByteOf(w, 3)) && ByteOf(f, 3) == Reverse8(ByteOf(w, 2))
    ensures Bit32(f, i) == Bit32(w, if i < 16 then 15 - i else 47 - i)
  {
    var q, j := i / 8, i % 8;
    var q' := if q < 2 then 1 - q else 5 - q;
    var m := if i < 16 then 15 - i else 47 - i;
    assert m / 8 == q' && m % 8 == 7 - j;
    Reverse8Reverses(ByteOf(w, q'));
  }

  /** The first three swap steps reverse each byte; the last swaps the two
      bytes of each half. */
  lemma FlipHalvesBytes(w: bv32)
    ensures ByteOf(FlipHalves(w), 0) == Reverse8(ByteOf(w, 1))
    ensures ByteOf(FlipHalves(w), 1) == Reverse8(ByteOf(w, 0))
    ensures ByteOf(FlipHalves(w), 2) == Reverse8(ByteOf(w, 3))
    ensures ByteOf(FlipHalves(w), 3) == Reverse8(ByteOf(w, 2))
  {
  }

  /** Flipping twice gives the word back, and flipping commutes with exclusive or. */
  lemma FlipHalvesFacts(v: bv32, w: bv32)
    ensures FlipHalves(FlipHalves(w)) == w
    ensures FlipHalves(v ^ w) == FlipHalves(v) ^ FlipHalves(w)
  {
  }

  // ---------------------------------------------------------------------------
  // Population count

  /** Reference count of the set bits of a word: the bit-by-bit counts of
      its four bytes, added up. */
  function WordOnes(x: bv32): nat
  {
    Ones(ByteOf(x, 0), 8) + Ones(ByteOf(x, 1), 8) + Ones(ByteOf(x, 2), 8) + Ones(ByteOf(x, 3), 8)
  }

  /** The counting steps of lines 80-82 before the multiplication, as one
      expression. */
  function ByteCounts(x: bv32): bv32
  {
    var a := x - ((x >> 1) & 0x5555_5555);
    var b := (a & 0x3333_3333) + ((a >> 2) & 0x3333_3333);
    (b + (b >> 4)) & 0x0f0f_0f0f
  }

  /** Lines 80-82 up to the multiplication: afterwards each byte of `y`
      holds the pairwise-sum count of the same byte of `x`. */
  method CountByteBits(x: bv32) returns (y: bv32)
    ensures ByteOf(y, 0) == CountBitsWord(ByteOf(x, 0)) && ByteOf(y, 1) == CountBitsWord(ByteOf(x, 1))
    ensures ByteOf(y, 2) == CountBitsWord(ByteOf(x, 2)) && ByteOf(y, 3) == CountBitsWord(ByteOf(x, 3))
  {
    var a := x - ((x >> 1) & 0x5555_5555);
    var b := (a & 0x3333_3333) + ((a >> 2) & 0x3333_3333);
    y := (b + (b >> 4)) & 0x0f0f_0f0f;
    CountsByte0(x);
    CountsByte1(x);
    CountsByte2(x);
    CountsByte3(x);
  }

  lemma CountsByte0(x: bv32)
    ensures ByteOf(ByteCounts(x), 0) == CountBitsWord(ByteOf(x, 0))
  {
  }

  lemma CountsByte1(x: bv32)
    ensures ByteOf(ByteCounts(x), 1) == CountBitsWord(ByteOf(x, 1))
  {
  }

  lemma CountsByte2(x: bv32)
    ensures ByteOf(ByteCounts(x), 2) == CountBitsWord(ByteOf(x, 2))
  {
  }

  lemma CountsByte3(x: bv32)
    ensures ByteOf(ByteCounts(x), 3) == CountBitsWord(ByteOf(x, 3))
  {
  }

  /** A byte holding the pairwise-sum count of `b` holds its number of set
      bits. */
  lemma ByteCountValue(c: bv8, b: bv8)
    requires c == CountBitsWord(b)
    ensures c <= 8 && c as nat == Ones(b, 8)
  {
    CountBitsIsPopcount(b);
    CountBitsFacts(b);
  }

  /** The rest of line 82: multiplying by 0x01010101 in 32 bits adds the
      four bytes into the top one, which the shift brings down; no partial
      sum carries out of a byte as each byte is at most 8. */
  method AddBytes(y: bv32) returns (p: bv32)
    requires ByteOf(y, 0) <= 8 && ByteOf(y, 1) <= 8 && ByteOf(y, 2) <= 8 && ByteOf(y, 3) <= 8
    ensures p == ((ByteOf(y, 0) + ByteOf(y, 1)) + (ByteOf(y, 2) + ByteOf(y, 3))) as bv32
  {
    p := (y * 0x0101_0101) >> 24;
    TopByteAdds(y, p);
  }

  lemma TopByteAdds(y: bv32, p: bv32)
    requires ByteOf(y, 0) <= 8 && ByteOf(y, 1) <= 8 && ByteOf(y, 2) <= 8 && ByteOf(y, 3) <= 8
    requires p == (y * 0x0101_0101) >> 24
    ensures p == ((ByteOf(y, 0) + ByteOf(y, 1)) + (ByteOf(y, 2) + ByteOf(y, 3))) as bv32
  {
  }

  /** The value of the byte sum `AddBytes` leaves in the low byte. */
  lemma SumValue(p: bv32, c0: bv8, c1: bv8, c2: bv8, c3: bv8)
    requires c0 <= 8 && c1 <= 8 && c2 <= 8 && c3 <= 8
    requires p == ((c0 + c1) + (c2 + c3)) as bv32
    ensures p as nat == c0 as nat + c1 as nat + c2 as nat + c3 as nat
  {
    var u, v := c0 + c1, c2 + c3;
    var s := u + v;
    Sum4(c0, c1, c2, c3, u, v, s);
    WidenValue(s, p);
  }

  /** No 8-bit partial sum of four counts carries. */
  lemma Sum4(c0: bv8, c1: bv8, c2: bv8, c3: bv8, u: bv8, v: bv8, s: bv8)
    requires c0 <= 8 && c1 <= 8 && c2 <= 8 && c3 <= 8
    requires u == c0 + c1 && v == c2 + c3 && s == u + v
    ensures s as nat == c0 as nat + c1 as nat + c2 as nat + c3 as nat
  {
    AddValue(c0, c1, u, 8);
    AddValue(c2, c3, v, 8);
    AddValue(u, v, s, 16);
  }

  lemma AddValue(a: bv8, b: bv8, s: bv8, m: bv8)
    requires m <= 16 && a <= m && b <= m && s == a + b
    ensures s <= 2 * m && s as nat == a as nat + b as nat
  {
  }

  lemma WidenValue(s: bv8, p: bv32)
    requires p == s as bv32
    ensures p as nat == s as nat
  {
  }

  /** The bytes `CountByteBits` leaves hold the number of set bits of the
      bytes of `x`. */
  method ByteOnesOf(x: bv32) returns (y: bv32)
    ensures ByteOf(y, 0) <= 8 && ByteOf(y, 0) as nat == Ones(ByteOf(x, 0), 8)
    ensures ByteOf(y, 1) <= 8 && ByteOf(y, 1) as nat == Ones(ByteOf(x, 1), 8)
    ensures ByteOf(y, 2) <= 8 && ByteOf(y, 2) as nat == Ones(ByteOf(x, 2), 8)
    ensures ByteOf(y, 3) <= 8 && ByteOf(y, 3) as nat == Ones(ByteOf(x, 3), 8)
  {
    y := CountByteBits(x);
    ByteCountValue(ByteOf(y, 0), ByteOf(x, 0));
    ByteCountValue(ByteOf(y, 1), ByteOf(x, 1));
    ByteCountValue(ByteOf(y, 2), ByteOf(x, 2));
    ByteCountValue(ByteOf(y, 3), ByteOf(x, 3));
  }

  /** The population count of `tile_compare` (lines 80-82) counts the set
      bits of its word. */
  method Popcount(x: bv32) returns (p: bv32)
    ensures p as nat == WordOnes(x)
  {
    var y := ByteOnesOf(x);
    p := AddBytes(y);
    TotalValue(x, y, p);
  }

  /** The byte sum of the per-byte counts is the count of the word. */
  lemma TotalValue(x: bv32, y: bv32, p: bv32)
    requires ByteOf(y, 0) <= 8 && ByteOf(y, 0) as nat == Ones(ByteOf(x, 0), 8)
    requires ByteOf(y, 1) <= 8 && ByteOf(y, 1) as nat == Ones(ByteOf(x, 1), 8)
    requires ByteOf(y, 2) <= 8 && ByteOf(y, 2) as nat == Ones(ByteOf(x, 2), 8)
    requires ByteOf(y, 3) <= 8 && ByteOf(y, 3) as nat == Ones(ByteOf(x, 3), 8)
    requires p == ((ByteOf(y, 0) + ByteOf(y, 1)) + (ByteOf(y, 2) + ByteOf(y, 3))) as bv32
    ensures p as nat == WordOnes(x)
  {
    ByteSumValue(x, p, ByteOf(y, 0), ByteOf(y, 1), ByteOf(y, 2), ByteOf(y, 3));
  }

  lemma ByteSumValue(x: bv32, p: bv32, c0: bv8, c1: bv8, c2: bv8, c3: bv8)
    requires c0 <= 8 && c0 as nat == Ones(ByteOf(x, 0), 8)
    requires c1 <= 8 && c1 as nat == Ones(ByteOf(x, 1), 8)
    requires c2 <= 8 && c2 as nat == Ones(ByteOf(x, 2), 8)
    requires c3 <= 8 && c3 as nat == Ones(ByteOf(x, 3), 8)
    requires p == ((c0 + c1) + (c2 + c3)) as bv32
    ensures p as nat == WordOnes(x)
  {
    PopcountValue(x, p, c0, c1, c2, c3, Ones(ByteOf(x, 0), 8), Ones(ByteOf(x, 1), 8), Ones(ByteOf(x, 2), 8), Ones(ByteOf(x, 3), 8));
  }

  lemma PopcountValue(x: bv32, p: bv32, c0: bv8, c1: bv8, c2: bv8, c3: bv8, n0: nat, n1: nat, n2: nat, n3: nat)
    requires n0 == Ones(ByteOf(x, 0), 8) && n1 == Ones(ByteOf(x, 1), 8) && n2 == Ones(ByteOf(x, 2), 8) && n3 == Ones(ByteOf(x, 3), 8)
    requires c0 <= 8 && c1 <= 8 && c2 <= 8 && c3 <= 8
    requires c0 as nat == n0 && c1 as nat == n1 && c2 as nat == n2 && c3 as nat == n3
    requires p == ((c0 + c1) + (c2 + c3)) as bv32
    ensures p as nat == WordOnes(x)
  {
    SumValue(p, c0, c1, c2, c3);
  }

  /** A byte's count is at most 8, zero only for the zero byte, and kept by
      reversing the byte. */
  lemma OnesFacts(b: bv8)
    ensures Ones(b, 8) <= 8
    ensures Ones(b, 8) == 0 <==> b == 0
    ensures Ones(Reverse8(b), 8) == Ones(b, 8)
  {
    CountBitsIsPopcount(b);
    CountBitsIsPopcount(Reverse8(b));
    CountBitsFacts(b);
  }

  lemma ZeroBytes(x: bv32)
    ensures x == 0 <==> ByteOf(x, 0) == 0 && ByteOf(x, 1) == 0 && ByteOf(x, 2) == 0 && ByteOf(x, 3) == 0
  {
  }

  /** A word's count is at most 32, and zero only for the zero word. */
  lemma WordOnesFacts(x: bv32)
    ensures WordOnes(x) <= 32
    ensures WordOnes(x) == 0 <==> x == 0
  {
    OnesFacts(ByteOf(x, 0));
    OnesFacts(ByteOf(x, 1));
    OnesFacts(ByteOf(x, 2));
    OnesFacts(ByteOf(x, 3));
    ZeroBytes(x);
  }

  /** Mirroring the halves of a word keeps its count. */
  lemma WordOnesFlipHalves(w: bv32)
    ensures WordOnes(FlipHalves(w)) == WordOnes(w)
  {
    FlipHalvesBytes(w);
    OnesFacts(ByteOf(w, 0));
    OnesFacts(ByteOf(w, 1));
    OnesFacts(ByteOf(w, 2));
    OnesFacts(ByteOf(w, 3));
  }

  // ---------------------------------------------------------------------------
  // tile_compare

  /** The number of bit positions at which two words differ. */
  function WordDistance(v: bv32, w: bv32): nat
  {
    WordOnes(v ^ w)
  }

  /** At most 32 positions differ; none exactly between equal words; the
      order of the words does not matter. */
  lemma WordDistanceFacts(v: bv32, w: bv32)
    ensures WordDistance(v, w) <= 32
    ensures WordDistance(v, w) == 0 <==> v == w
    ensures WordDistance(v, w) == WordDistance(w, v)
  {
    WordOnesFacts(v ^ w);
    XorFacts(v, w);
  }

  lemma XorFacts(v: bv32, w: bv32)
    ensures v ^ w == 0 <==> v == w
    ensures v ^ w == w ^ v
  {
  }

  /** A tile with every word mirrored within its halves: the tile `flip`
      compares against. */
  function MirrorTile(t: seq<bv32>): (m: seq<bv32>)
    ensures |m| == |t| && forall i :: 0 <= i < |t| ==> m[i] == FlipHalves(t[i])
    decreases |t|
  {
    if |t| == 0 then [] else MirrorTile(t[..|t| - 1]) + [FlipHalves(t[|t| - 1])]
  }

  /** The tile `tile_compare` compares `a` against. */
  function Compared(b: seq<bv32>, flip: bool): (c: seq<bv32>)
    ensures |c| == |b|
    ensures forall i :: 0 <= i < |b| ==> c[i] == if flip then FlipHalves(b[i]) else b[i]
  {
    if flip then MirrorTile(b) else b
  }

  /** Reference Hamming distance: the number of bit positions at which the
      words of `a` and `b` differ. */
  function Distance(a: seq<bv32>, b: seq<bv32>): nat
    requires |a| == |b|
    decreases |a|
  {
    if |a| == 0 then 0 else Distance(a[..|a| - 1], b[..|b| - 1]) + WordDistance(a[|a| - 1], b[|b| - 1])
  }

  /** `tile_compare(a, b, flip)`: the square of the number of differing
      bits between `a` and `b`, or between `a` and the mirrored `b` when
      `flip` is set. The sum never exceeds 256, so the source's `unsigned
      int` sum and `int` result hold it exactly. */
  method TileCompare(a: Tile, b: Tile, flip: bool) returns (r: int)
    ensures 0 <= r <= 0x1_0000
    ensures r == 0 <==> a == Compared(b, flip)
    ensures var d := Distance(a, Compared(b, flip)); r == d * d
  {
    var value := SumDifferences(a, b, flip);
    CompareFacts(a, b, flip, value);
    r := value * value;
  }

  /** The loop of `tile_compare` (lines 65-83): the number of differing
      bits, summed over the words of the tile. */
  method SumDifferences(a: Tile, b: Tile, flip: bool) returns (value: nat)
    ensures value == Distance(a, Compared(b, flip))
  {
    value := 0;
    ghost var b' := Compared(b, flip);
    for i := 0 to TILE_WORDS
      invariant value == Distance(a[..i], b'[..i])
    {
      value := AddDifference(value, a, b, flip, i);
    }
    assert a[..TILE_WORDS] == a && b'[..TILE_WORDS] == b';
  }

  /** One turn of the loop of `tile_compare`: add the differing bits of
      word `i` to the running sum. */
  method AddDifference(value: nat, a: Tile, b: Tile, flip: bool, i: nat) returns (value': nat)
    requires i < TILE_WORDS && value == Distance(a[..i], Compared(b, flip)[..i])
    ensures value' == Distance(a[..i + 1], Compared(b, flip)[..i + 1])
  {
    var d := DifferingBits(a[i], b[i], flip);
    DistanceStep(a, Compared(b, flip), i);
    value' := value + d;
  }

  /** The body of that turn (lines 68-82): the number of
      bits at which `da` differs from `db`, mirrored within its halves when
      `flip` is set. */
  method DifferingBits(da: bv32, db: bv32, flip: bool) returns (d: nat)
    ensures d == WordDistance(da, if flip then FlipHalves(db) else db)
  {
    var w := db;
    if flip {
      w := FlipHalves(w);
    }
    var p := Popcount(da ^ w);
    d := p as nat;
  }

  lemma DistanceStep(a: seq<bv32>, b: seq<bv32>, i: nat)
    requires |a| == |b| && i < |a|
    ensures Distance(a[..i + 1], b[..i + 1]) == Distance(a[..i], b[..i]) + WordDistance(a[i], b[i])
  {
    assert a[..i + 1][..i] == a[..i] && b[..i + 1][..i] == b[..i];
  }

  /** What `tile_compare` concludes from its sum. */
  lemma CompareFacts(a: Tile, b: Tile, flip: bool, d: nat)
    requires d == Distance(a, Compared(b, flip))
    ensures d * d <= 0x1_0000
    ensures d * d == 0 <==> a == Compared(b, flip)
  {
    DistanceBound(a, Compared(b, flip));
    DistanceZero(a, Compared(b, flip));
    SquareFacts(d);
  }

  /** `tile_compare` is symmetric: comparing `a` with `b` gives what
      comparing `b` with `a` gives, with or without `flip`. */
  lemma CompareSymmetric(a: Tile, b: Tile, flip: bool)
    ensures Distance(a, Compared(b, flip)) == Distance(b, Compared(a, flip))
  {
    if flip {
      MirrorSymmetric(a, b);
    } else {
      DistanceSymmetric(a, b);
    }
  }

  lemma SquareFacts(d: nat)
    requires d <= 256
    ensures d * d <= 0x1_0000 && (d * d == 0 <==> d == 0)
  {
    if d > 0 {
      assert d * d <= d * 256 by {
        SquareStep(d, 256);
      }
    }
  }

  lemma SquareStep(d: nat, m: nat)
    requires d <= m
    ensures d * d <= d * m
  {
  }

  /** At most 32 bits differ per word. */
  lemma {:induction false} DistanceBound(a: seq<bv32>, b: seq<bv32>)
    requires |a| == |b|
    ensures Distance(a, b) <= 32 * |a|
    decreases |a|
  {
    if |a| > 0 {
      DistanceBound(a[..|a| - 1], b[..|b| - 1]);
      WordDistanceFacts(a[|a| - 1], b[|b| - 1]);
    }
  }

  /** The distance is zero exactly between equal tiles. */
  lemma {:induction false} DistanceZero(a: seq<bv32>, b: seq<bv32>)
    requires |a| == |b|
    ensures Distance(a, b) == 0 <==> a == b
    decreases |a|
  {
    if |a| > 0 {
      var n := |a| - 1;
      DistanceZero(a[..n], b[..n]);
      WordDistanceFacts(a[n], b[n]);
      LastSplit(a, b);
    }
  }

  lemma LastSplit(a: seq<bv32>, b: seq<bv32>)
    requires |a| == |b| > 0
    ensures a == b <==> a[..|a| - 1] == b[..|b| - 1] && a[|a| - 1] == b[|b| - 1]
  {
    assert a == a[..|a| - 1] + [a[|a| - 1]] && b == b[..|b| - 1] + [b[|b| - 1]];
  }

  /** The distance does not depend on the order of its arguments. */
  lemma {:induction false} DistanceSymmetric(a: seq<bv32>, b: seq<bv32>)
    requires |a| == |b|
    ensures Distance(a, b) == Distance(b, a)
    decreases |a|
  {
    if |a| > 0 {
      var n := |a| - 1;
      DistanceSymmetric(a[..n], b[..n]);
      WordDistanceFacts(a[n], b[n]);
    }
  }

  /** Comparing `a` with mirrored `b` gives the distance of `b` to
      mirrored `a`: mirroring a difference mirrors both sides. */
  lemma {:induction false} MirrorSymmetric(a: seq<bv32>, b: seq<bv32>)
    requires |a| == |b|
    ensures Distance(a, MirrorTile(b)) == Distance(b, MirrorTile(a))
    decreases |a|
  {
    if |a| > 0 {
      var n := |a| - 1;
      assert MirrorTile(b)[..n] == MirrorTile(b[..n]) && MirrorTile(a)[..n] == MirrorTile(a[..n]);
      MirrorSymmetric(a[..n], b[..n]);
      MirrorDifference(a[n], b[n]);
    }
  }

  lemma MirrorDifference(v: bv32, w: bv32)
    ensures WordDistance(v, FlipHalves(w)) == WordDistance(w, FlipHalves(v))
  {
    FlipDifference(v, w);
    WordOnesFlipHalves(v ^ FlipHalves(w));
  }

  lemma FlipDifference(v: bv32, w: bv32)
    ensures FlipHalves(v ^ FlipHalves(w)) == w ^ FlipHalves(v)
  {
    FlipHalvesFacts(v, FlipHalves(w));
    FlipHalvesFacts(w, w);
  }

  /** Mirroring a tile twice gives it back. */
  lemma MirrorTileInvolutive(t: seq<bv32>)
    ensures MirrorTile(MirrorTile(t)) == t
  {
    forall i | 0 <= i < |t|
      ensures MirrorTile(MirrorTile(t))[i] == t[i]
    {
      FlipHalvesFacts(t[i], t[i]);
    }
  }
}
