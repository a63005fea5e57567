/** The tile store of `src/tiles.c`: the older, 16×16 version of the block store.
    A raw tile is 32 bytes, two per row, with the pixel in column x of row y in
    bit 7 - x % 8 of byte x / 8 + 2y.  Tiles are deduplicated under the eight
    orientations through 256 popcount buckets, and compared approximately by
    their best-orientation Hamming distance.  The orientations use `tile_flip_x`
    as written, whose byte shuffle loses bits; the corrected flip-x is modelled
    beside it. */
module TileStore {
  import opened Bytes
  import opened Refs
  import BlockBits
  import BlockStore

  const TILE_WIDTH: nat := 16
  const TILE_HEIGHT: nat := 16
  /** Bytes per tile row (`TILE_WIDTH / 8`). */
  const ROW_BYTES: nat := 2
  /** `sizeof(raw_tile_t)`. */
  const TILE_BYTES: nat := 32
  /** `TILES_HASH_SIZE`. */
  const HASH_SIZE: nat := 256
  /** Capacity of the first allocation of `tiles_insert`. */
  const FIRST_CAPACITY: nat := 1024

  type RawTile = s: seq<bv8> | |s| == TILE_BYTES
    witness [0, 0, 0, 0, 0, 0, 0, 0, 0, 0, 0, 0, 0, 0, 0, 0, 0, 0, 0, 0, 0, 0, 0, 0, 0, 0, 0, 0, 0, 0, 0, 0]

  // ---------------------------------------------------------------------------
  // Hash

  /** `build_hash` over a whole tile: the total number of set bits. */
  function BuildHash(t: RawTile): nat
  {
    PopSum(t)
  }

  /** The bucket `tiles_match` and `tiles_insert` use: the hash modulo 256. */
  function Bucket(t: RawTile): nat
  {
    BuildHash(t) % HASH_SIZE
  }

  /** The hash counts the 256 pixels, so it lies in 0..256; only the all-set tile
      wraps around into bucket 0. */
  lemma HashRange(t: RawTile)
    ensures BuildHash(t) <= TILE_WIDTH * TILE_HEIGHT
    ensures Bucket(t) < HASH_SIZE
    ensures BuildHash(t) < HASH_SIZE ==> Bucket(t) == BuildHash(t)
  {
    PopSumBound(t);
  }

  // ---------------------------------------------------------------------------
  // Thresholding

  /** The 16×16 cell at `origin` lies inside the pixel buffer. */
  predicate TileFits(n: nat, origin: nat, pitch: nat)
  {
    origin + (TILE_HEIGHT - 1) * pitch + TILE_WIDTH <= n
  }

  lemma RowFits(n: nat, origin: nat, pitch: nat, y: nat)
    requires TileFits(n, origin, pitch) && y < TILE_HEIGHT
    ensures origin + y * pitch + TILE_WIDTH <= n
  {
    assert y * pitch <= (TILE_HEIGHT - 1) * pitch by {
      BlockBits.MulLeft(y, TILE_HEIGHT - 1, pitch);
    }
  }

  /** The innermost loop of `build_tile`: step i shifts the byte left and adds
      whether pixel `base + i` exceeds the threshold, so the leftmost pixel ends
      in the top bit. */
  function RowByte(pixels: seq<bv8>, base: nat, threshold: bv8, i: nat, acc: bv8): bv8
    requires i <= 8 && base + 8 <= |pixels|
    decreases 8 - i
  {
    if i == 8 then acc
    else
      var px: bv8 := if pixels[base + i] > threshold then 1 else 0;
      RowByte(pixels, base, threshold, i + 1, (acc << 1) | px)
  }

  /** What the first i steps of the loop have built: the pixel read at step s sits in bit i - 1 - s. */
  predicate ReadSoFar(pixels: seq<bv8>, base: nat, threshold: bv8, i: nat, acc: bv8)
    requires i <= 8 && base + 8 <= |pixels|
  {
    && acc >> i == 0
    && forall j :: 0 <= j < i ==> Bit(acc, j) == BlockBits.Above(pixels[base + i - 1 - j], threshold)
  }

  lemma RowByteStep(pixels: seq<bv8>, base: nat, threshold: bv8, i: nat, acc: bv8)
    requires i < 8 && base + 8 <= |pixels| && ReadSoFar(pixels, base, threshold, i, acc)
    ensures var px: bv8 := if pixels[base + i] > threshold then 1 else 0;
      ReadSoFar(pixels, base, threshold, i + 1, (acc << 1) | px)
  {
    var px: bv8 := if pixels[base + i] > threshold then 1 else 0;
    var acc' := (acc << 1) | px;
    BlockBits.ShiftIn(acc, px, i, 0);
    forall j | 0 <= j < i + 1
      ensures Bit(acc', j) == BlockBits.Above(pixels[base + i - j], threshold)
    {
      BlockBits.ShiftIn(acc, px, i, j);
      if j == 0 {
        assert px as nat == BlockBits.Above(pixels[base + i], threshold);
      } else {
        assert Bit(acc, j - 1) == BlockBits.Above(pixels[base + i - 1 - (j - 1)], threshold);
      }
    }
  }

  lemma {:induction false} RowByteMeaning(pixels: seq<bv8>, base: nat, threshold: bv8, i: nat, acc: bv8)
    requires i <= 8 && base + 8 <= |pixels| && ReadSoFar(pixels, base, threshold, i, acc)
    ensures ReadSoFar(pixels, base, threshold, 8, RowByte(pixels, base, threshold, i, acc))
    decreases 8 - i
  {
    if i < 8 {
      var px: bv8 := if pixels[base + i] > threshold then 1 else 0;
      var acc' := (acc << 1) | px;
      RowByteStep(pixels, base, threshold, i, acc);
      RowByteMeaning(pixels, base, threshold, i + 1, acc');
      assert RowByte(pixels, base, threshold, i, acc) == RowByte(pixels, base, threshold, i + 1, acc');
    }
  }

  /** The 32 bytes of `build_tile`: byte k holds columns 8·(k % 2) .. 8·(k % 2) + 7 of row k / 2. */
  function TileBits(pixels: seq<bv8>, origin: nat, pitch: nat, threshold: bv8): RawTile
    requires TileFits(|pixels|, origin, pitch)
  {
    seq(TILE_BYTES, k requires 0 <= k < TILE_BYTES =>
      RowFits(|pixels|, origin, pitch, k / ROW_BYTES);
      RowByte(pixels, origin + (k / ROW_BYTES) * pitch + 8 * (k % ROW_BYTES), threshold, 0, 0))
  }

  /** A tile entry (`tile_t` as `tiles.c` uses it): the raw bitmap, the hash-chain
      link, the number of users and the remap target. */
  datatype Tile = Tile(bits: RawTile, next: Link, count: nat, remap: Ref)

  /** `build_tile` sets bit 7 - x % 8 of byte x / 8 + 2y exactly when pixel (x, y)
      exceeds the threshold. */
  lemma TileBitsMeaning(pixels: seq<bv8>, origin: nat, pitch: nat, threshold: bv8, y: nat, x: nat)
    requires TileFits(|pixels|, origin, pitch) && y < TILE_HEIGHT && x < TILE_WIDTH
    ensures origin + y * pitch + x < |pixels|
    ensures Bit(TileBits(pixels, origin, pitch, threshold)[x / 8 + ROW_BYTES * y], 7 - x % 8)
         == BlockBits.Above(pixels[origin + y * pitch + x], threshold)
  {
    RowFits(|pixels|, origin, pitch, y);
    var k := x / 8 + ROW_BYTES * y;
    ByteOfPixel(x, y);
    var base := origin + y * pitch + 8 * (x / 8);
    TileBitsAt(pixels, origin, pitch, threshold, k);
    RowByteBit(pixels, base, threshold, 7 - x % 8);
  }

  /** Byte k of `build_tile` is the row byte read at its row and column. */
  lemma TileBitsAt(pixels: seq<bv8>, origin: nat, pitch: nat, threshold: bv8, k: nat)
    requires TileFits(|pixels|, origin, pitch) && k < TILE_BYTES
    ensures origin + (k / ROW_BYTES) * pitch + 8 * (k % ROW_BYTES) + 8 <= |pixels|
    ensures TileBits(pixels, origin, pitch, threshold)[k]
         == RowByte(pixels, origin + (k / ROW_BYTES) * pitch + 8 * (k % ROW_BYTES), threshold, 0, 0)
  {
    RowFits(|pixels|, origin, pitch, k / ROW_BYTES);
  }

  /** Bit j of a row byte is the pixel read at step 7 - j. */
  lemma RowByteBit(pixels: seq<bv8>, base: nat, threshold: bv8, j: nat)
    requires base + 8 <= |pixels| && j < 8
    ensures Bit(RowByte(pixels, base, threshold, 0, 0), j) == BlockBits.Above(pixels[base + 7 - j], threshold)
  {
    RowByteMeaning(pixels, base, threshold, 0, 0);
  }

  /** Pixel column x of row y lies in byte x / 8 + 2y, at offset x % 8 within it. */
  lemma ByteOfPixel(x: nat, y: nat)
    requires x < TILE_WIDTH && y < TILE_HEIGHT
    ensures var k := x / 8 + ROW_BYTES * y;
      k < TILE_BYTES && k / ROW_BYTES == y && k % ROW_BYTES == x / 8 && 8 * (x / 8) + x % 8 == x
  {
  }

  /** Every pixel of the 16×16 cell at `origin` is in the buffer, and pixel (x, y)
      sets bit 7 - x % 8 of byte x / 8 + 2y exactly when it exceeds the threshold. */
  ghost predicate Thresholded(bits: RawTile, pixels: seq<bv8>, origin: nat, pitch: nat, threshold: bv8)
  {
    forall y, x :: 0 <= y < TILE_HEIGHT && 0 <= x < TILE_WIDTH ==>
      origin + y * pitch + x < |pixels| &&
      Bit(bits[x / 8 + ROW_BYTES * y], 7 - x % 8) == BlockBits.Above(pixels[origin + y * pitch + x], threshold)
  }

  lemma TileBitsThresholded(pixels: seq<bv8>, origin: nat, pitch: nat, threshold: bv8)
    requires TileFits(|pixels|, origin, pitch)
    ensures Thresholded(TileBits(pixels, origin, pitch, threshold), pixels, origin, pitch, threshold)
  {
    forall y, x | 0 <= y < TILE_HEIGHT && 0 <= x < TILE_WIDTH
      ensures origin + y * pitch + x < |pixels|
      ensures Bit(TileBits(pixels, origin, pitch, threshold)[x / 8 + ROW_BYTES * y], 7 - x % 8)
           == BlockBits.Above(pixels[origin + y * pitch + x], threshold)
    {
      TileBitsMeaning(pixels, origin, pitch, threshold, y, x);
    }
  }

  /** `build_tile`: the thresholded cell with one user, no chain link and no remap. */
  function BuildTile(pixels: seq<bv8>, origin: nat, pitch: nat, threshold: bv8): (t: Tile)
    requires TileFits(|pixels|, origin, pitch)
    ensures t.count == 1 && t.next == Nil && t.remap == NoRef
    ensures Thresholded(t.bits, pixels, origin, pitch, threshold)
  {
    TileBitsThresholded(pixels, origin, pitch, threshold);
    Tile(TileBits(pixels, origin, pitch, threshold), Nil, 1, NoRef)
  }

  // ---------------------------------------------------------------------------
  // Orientation transforms

  /** The byte that `tile_flip_x` moves to position k: row 15 - k / 2, byte 1 - k % 2. */
  function Mirror(k: nat): (j: nat)
    requires k < TILE_BYTES
    ensures j < TILE_BYTES
  {
    ROW_BYTES * (TILE_HEIGHT - 1 - k / ROW_BYTES) + (ROW_BYTES - 1 - k % ROW_BYTES)
  }

  /** The byte that `tile_flip_y` moves to position k: row 15 - k / 2, same byte. */
  function RowSwap(k: nat): (j: nat)
    requires k < TILE_BYTES
    ensures j < TILE_BYTES
  {
    ROW_BYTES * (TILE_HEIGHT - 1 - k / ROW_BYTES) + k % ROW_BYTES
  }

  /** Both index maps undo themselves and commute. */
  lemma IndexMaps(k: nat)
    requires k < TILE_BYTES
    ensures Mirror(Mirror(k)) == k && RowSwap(RowSwap(k)) == k
    ensures Mirror(RowSwap(k)) == RowSwap(Mirror(k))
  {
  }

  /** The byte shuffle of `tile_flip_x` as written: the middle step shifts the
      0x33 bits left by one where the bit reversal needs two. */
  function ShuffleAsWritten(t: bv8): bv8
  {
    var a := ((t & 0x55) << 1) | ((t & 0xaa) >> 1);
    var b := ((a & 0x33) << 1) | ((a & 0xcc) >> 2);
    ((b & 0x0f) << 4) | ((b & 0xf0) >> 4)
  }

  /** `tile_flip_x` as written: input row y, its two bytes swapped and each passed
      through `ShuffleAsWritten`, lands in output row 15 - y. */
  function TileFlipXAsWritten(t: RawTile): RawTile
  {
    seq(TILE_BYTES, k requires 0 <= k < TILE_BYTES => ShuffleAsWritten(t[Mirror(k)]))
  }

  lemma TileFlipXAsWrittenPlaces(t: RawTile, y: nat, x: nat)
    requires y < TILE_HEIGHT && x < ROW_BYTES
    ensures TileFlipXAsWritten(t)[ROW_BYTES * (TILE_HEIGHT - 1 - y) + (ROW_BYTES - 1 - x)]
         == ShuffleAsWritten(t[ROW_BYTES * y + x])
  {
  }

  /** A tile whose 32 bytes are all `v`. */
  function UniformTile(v: bv8): RawTile
  {
    seq(TILE_BYTES, _ => v)
  }

  /** The shuffle as written is not a bit reversal: it merges bits, so two different
      tiles flip to the same one, and flipping twice does not give the tile back.
      A store search that uses it can therefore return the same flip-x reference
      for two different tiles. */
  lemma TileFlipXAsWrittenCollides()
    ensures ShuffleAsWritten(0x02) == ShuffleAsWritten(0x04) == 0x20
    ensures TileFlipXAsWritten(UniformTile(0x02)) == TileFlipXAsWritten(UniformTile(0x04)) == UniformTile(0x20)
    ensures TileFlipXAsWritten(TileFlipXAsWritten(UniformTile(0x01))) == UniformTile(0x02)
    ensures UniformTile(0x02) != UniformTile(0x04) && UniformTile(0x02) != UniformTile(0x01)
  {
    assert UniformTile(0x02)[0] != UniformTile(0x04)[0];
    assert UniformTile(0x02)[0] != UniformTile(0x01)[0];
  }

  /** `tile_flip_x` with the evidently intended shuffle (a full bit reversal): the
      tile is mirrored horizontally and, as in `block_flip_x`, vertically. */
  function TileFlipX(t: RawTile): RawTile
  {
    seq(TILE_BYTES, k requires 0 <= k < TILE_BYTES => Reverse8(t[Mirror(k)]))
  }

  /** `tile_flip_y`: input row y lands in output row 15 - y. */
  function TileFlipY(t: RawTile): RawTile
  {
    seq(TILE_BYTES, k requires 0 <= k < TILE_BYTES => t[RowSwap(k)])
  }

  /** `tile_invert`: every bit complemented. */
  function TileInvert(t: RawTile): RawTile
  {
    seq(TILE_BYTES, k requires 0 <= k < TILE_BYTES => !t[k])
  }

  /** The transforms undo themselves. */
  lemma TileTransformsAreInvolutions(t: RawTile)
    ensures TileFlipX(TileFlipX(t)) == t
    ensures TileFlipY(TileFlipY(t)) == t
    ensures TileInvert(TileInvert(t)) == t
  {
    forall k | 0 <= k < TILE_BYTES
      ensures TileFlipX(TileFlipX(t))[k] == t[k]
    {
      IndexMaps(k);
      Reverse8Involutive(t[k]);
    }
    forall k | 0 <= k < TILE_BYTES
      ensures TileFlipY(TileFlipY(t))[k] == t[k]
    {
      IndexMaps(k);
    }
  }

  /** The corrected flip-x mirrors the tile horizontally and vertically: pixel (x, y)
      of the result is pixel (15 - x, 15 - y) of the input. */
  lemma TileFlipXMirrors(t: RawTile, y: nat, x: nat)
    requires y < TILE_HEIGHT && x < TILE_WIDTH
    ensures Bit(TileFlipX(t)[x / 8 + ROW_BYTES * y], 7 - x % 8)
         == Bit(t[(TILE_WIDTH - 1 - x) / 8 + ROW_BYTES * (TILE_HEIGHT - 1 - y)], 7 - (TILE_WIDTH - 1 - x) % 8)
  {
    var k := x / 8 + ROW_BYTES * y;
    assert Mirror(k) == (TILE_WIDTH - 1 - x) / 8 + ROW_BYTES * (TILE_HEIGHT - 1 - y);
    Reverse8Reverses(t[Mirror(k)]);
  }

  /** The even-length string with the bytes of each pair swapped. */
  function SwapPairs(s: seq<bv8>): (r: seq<bv8>)
    requires |s| % 2 == 0
    ensures |r| == |s|
  {
    seq(|s|, k requires 0 <= k < |s| => if k % 2 == 0 then s[k + 1] else s[k - 1])
  }

  lemma {:induction false} PopSumSwapPairs(s: seq<bv8>)
    requires |s| % 2 == 0
    ensures PopSum(SwapPairs(s)) == PopSum(s)
  {
    var n := |s|;
    if n > 0 {
      var p := s[..n - 2];
      var w := SwapPairs(s);
      assert w[..n - 1][..n - 2] == SwapPairs(p);
      assert s[..n - 1][..n - 2] == p;
      PopSumSwapPairs(p);
    }
  }

  /** Flipping vertically keeps `build_hash`; inverting maps a hash h to 256 - h. */
  lemma TileTransformsAndHash(t: RawTile)
    ensures BuildHash(TileFlipY(t)) == BuildHash(t)
    ensures BuildHash(TileInvert(t)) == TILE_WIDTH * TILE_HEIGHT - BuildHash(t)
  {
    assert TileFlipY(t) == Rev(SwapPairs(t));
    PopSumRev(SwapPairs(t));
    PopSumSwapPairs(t);
    assert TileInvert(t) == Complement(t);
    PopSumComplement(t);
  }

  /** The corrected flip-x keeps `build_hash` too. */
  lemma TileFlipXKeepsHash(t: RawTile)
    ensures BuildHash(TileFlipX(t)) == BuildHash(t)
  {
    assert TileFlipX(t) == ReverseEach(Rev(t));
    PopSumReverseEach(Rev(t));
    PopSumRev(t);
  }

  lemma {:induction false} PopSumUniform(v: bv8, n: nat)
    ensures PopSum(seq(n, _ => v)) == n * CountBits(v)
  {
    if n > 0 {
      assert seq(n, _ => v)[..n - 1] == seq(n - 1, _ => v);
      PopSumUniform(v, n - 1);
    }
  }

  /** Flip-x as written loses set bits, so it moves tiles between buckets: byte 0x06
      shuffles to 0x20, and the tile of 0x06 bytes, of hash 64, flips to one of hash 32. */
  lemma TileFlipXAsWrittenChangesHash()
    ensures ShuffleAsWritten(0x06) == 0x20
    ensures TileFlipXAsWritten(UniformTile(0x06)) == UniformTile(0x20)
    ensures BuildHash(UniformTile(0x06)) == 64 && BuildHash(UniformTile(0x20)) == 32
  {
    PopSumUniform(0x06, TILE_BYTES);
    PopSumUniform(0x20, TILE_BYTES);
    assert CountBits(0x06) == 2 && CountBits(0x20) == 1;
  }

  /** The transform a flag set selects, in the fixed order of `tiles_match` and
      `tile_diff`: flip-x (as written), then flip-y, then invert. */
  function TileTransform(t: RawTile, f: Flags): RawTile
  {
    var t1 := if f & FLIP_X != 0 then TileFlipXAsWritten(t) else t;
    var t2 := if f & FLIP_Y != 0 then TileFlipY(t1) else t1;
    if f & INVERT != 0 then TileInvert(t2) else t2
  }

  /** The same transform with the corrected flip-x. */
  function TileTransformCorrected(t: RawTile, f: Flags): RawTile
  {
    var t1 := if f & FLIP_X != 0 then TileFlipX(t) else t;
    var t2 := if f & FLIP_Y != 0 then TileFlipY(t1) else t1;
    if f & INVERT != 0 then TileInvert(t2) else t2
  }

  /** The byte of the input that a flag set moves to position k. */
  function SourceByte(f: Flags, k: nat): (j: nat)
    requires k < TILE_BYTES
    ensures j < TILE_BYTES
  {
    var a := if f & FLIP_Y != 0 then RowSwap(k) else k;
    if f & FLIP_X != 0 then Mirror(a) else a
  }

  /** What an orientation does to the value of one byte: the shuffle of
      `tile_flip_x` as written when flipping horizontally, then the complement
      when inverting. */
  function AdjustByte(x: bv8, f: Flags): bv8
  {
    var r := if f & FLIP_X != 0 then ShuffleAsWritten(x) else x;
    if f & INVERT != 0 then !r else r
  }

  /** Closed form of `TileTransform`, one output byte at a time. */
  lemma TileTransformByte(t: RawTile, f: Flags, k: nat)
    requires k < TILE_BYTES
    ensures TileTransform(t, f)[k] == AdjustByte(t[SourceByte(f, k)], f)
  {
  }

  /** Closed form of `TileTransformCorrected`: bytes are reversed rather than shuffled. */
  lemma TileTransformCorrectedByte(t: RawTile, f: Flags, k: nat)
    requires k < TILE_BYTES
    ensures TileTransformCorrected(t, f)[k] == BlockBits.AdjustRow(t[SourceByte(f, k)], f)
  {
  }

  /** With the corrected flip-x, applying the same orientation twice gives the tile back. */
  lemma TileTransformCorrectedTwice(t: RawTile, f: Flags)
    ensures TileTransformCorrected(TileTransformCorrected(t, f), f) == t
  {
    forall k | 0 <= k < TILE_BYTES
      ensures TileTransformCorrected(TileTransformCorrected(t, f), f)[k] == t[k]
    {
      var j := SourceByte(f, k);
      TileTransformCorrectedByte(TileTransformCorrected(t, f), f, k);
      TileTransformCorrectedByte(t, f, j);
      IndexMaps(k);
      IndexMaps(RowSwap(k));
      assert SourceByte(f, j) == k;
      BlockBits.AdjustRowCompose(t[k], f, f);
      assert f ^ f == 0;
    }
  }

  /** Without flip-x the two transforms agree, so the four blitter-friendly
      orientations undo themselves as written. */
  lemma TileTransformWithoutFlipX(t: RawTile, f: Flags)
    requires f & FLIP_X == 0
    ensures TileTransform(t, f) == TileTransformCorrected(t, f)
    ensures TileTransform(TileTransform(t, f), f) == t
  {
    TileTransformCorrectedTwice(t, f);
  }

  /** An orientation of a uniform tile is uniform. */
  lemma UniformTransform(v: bv8, f: Flags)
    ensures TileTransform(UniformTile(v), f) == UniformTile(AdjustByte(v, f))
  {
    forall k | 0 <= k < TILE_BYTES
      ensures TileTransform(UniformTile(v), f)[k] == AdjustByte(v, f)
    {
      TileTransformByte(UniformTile(v), f, k);
    }
  }

  // ---------------------------------------------------------------------------
  // The store

  /** The tile arena as `tiles.c` uses it: entries `0 .. size-1`, the allocated
      capacity, and the head of each bucket's chain. */
  datatype Tiles = Tiles(entries: seq<Tile>, capacity: nat, heads: seq<Link>)

  predicate LinkBelow(l: Link, bound: nat)
  {
    l.Nil? || l.index < bound
  }

  /** Every chain link points to an older tile, so every chain ends. */
  predicate ChainsOk(es: seq<Tile>)
  {
    forall i :: 0 <= i < |es| ==> LinkBelow(es[i].next, i)
  }

  /** The offsets visited when walking a chain from `l`, newest first. */
  function Chain(es: seq<Tile>, l: Link): (c: seq<nat>)
    requires ChainsOk(es) && LinkBelow(l, |es|)
    ensures forall k :: k in c ==> l.Next? && k <= l.index
    ensures forall j :: 0 <= j < |c| ==> c[j] < |es|
    decreases if l.Nil? then 0 else l.index + 1
  {
    if l.Nil? then [] else [l.index] + Chain(es, es[l.index].next)
  }

  /** The store invariant: 256 buckets, walkable chains, every tile on the chain of
      its own bucket and only there, and the capacity covering the size. */
  ghost predicate Valid(s: Tiles)
  {
    && |s.heads| == HASH_SIZE
    && |s.entries| <= s.capacity
    && (forall b :: 0 <= b < HASH_SIZE ==> LinkBelow(s.heads[b], |s.entries|))
    && ChainsOk(s.entries)
    && (forall i :: 0 <= i < |s.entries| ==> i in Chain(s.entries, s.heads[Bucket(s.entries[i].bits)]))
    && (forall b, k :: 0 <= b < HASH_SIZE && k in Chain(s.entries, s.heads[b]) ==> Bucket(s.entries[k].bits) == b)
  }

  /** `tiles_create`: no tiles, nothing allocated, every bucket empty. */
  function Create(): (s: Tiles)
    ensures Valid(s) && |s.entries| == 0 && s.capacity == 0
  {
    Tiles([], 0, seq(HASH_SIZE, _ => Nil))
  }

  /** Appending tiles leaves the chains of the old tiles as they were.  The chain logic
      repeats that of `BlockStore`, because tiles and blocks are separate entry types. */
  lemma {:induction false} ChainStable(es: seq<Tile>, es': seq<Tile>, l: Link)
    requires ChainsOk(es) && ChainsOk(es') && |es| <= |es'|
    requires forall i :: 0 <= i < |es| ==> es'[i].next == es[i].next
    requires LinkBelow(l, |es|)
    ensures Chain(es', l) == Chain(es, l)
    decreases if l.Nil? then 0 else l.index + 1
  {
    if l.Next? {
      ChainStable(es, es', es[l.index].next);
    }
  }

  /** Whether some tile of the store holds exactly this bitmap. */
  ghost predicate Present(es: seq<Tile>, t: RawTile)
  {
    exists k :: 0 <= k < |es| && es[k].bits == t
  }

  /** The inner loop of `tiles_match`: the newest tile on the chain whose bits equal `t`,
      as `BlockStore.FindInChain` does for blocks. */
  function FindInChain(es: seq<Tile>, l: Link, t: RawTile): (r: Link)
    requires ChainsOk(es) && LinkBelow(l, |es|)
    ensures r.Next? ==> r.index in Chain(es, l) && es[r.index].bits == t
    ensures r.Next? ==> forall k :: k in Chain(es, l) && k > r.index ==> es[k].bits != t
    ensures r.Nil? ==> forall k :: k in Chain(es, l) ==> es[k].bits != t
    decreases if l.Nil? then 0 else l.index + 1
  {
    if l.Nil? then Nil
    else if es[l.index].bits == t then l
    else FindInChain(es, es[l.index].next, t)
  }

  /** In a valid store the bucket of `t` is the only place to look. */
  lemma FindInBucket(s: Tiles, t: RawTile)
    requires Valid(s)
    ensures Bucket(t) < HASH_SIZE && LinkBelow(s.heads[Bucket(t)], |s.entries|)
    ensures FindInChain(s.entries, s.heads[Bucket(t)], t).Nil? <==> !Present(s.entries, t)
  {
    HashRange(t);
  }

  /** The hit of the bucket walk is the newest tile of the whole store holding `t`. */
  lemma FindInBucketNewest(s: Tiles, t: RawTile)
    requires Valid(s)
    ensures Bucket(t) < HASH_SIZE && LinkBelow(s.heads[Bucket(t)], |s.entries|)
    ensures var hit := FindInChain(s.entries, s.heads[Bucket(t)], t);
      hit.Next? ==> forall k :: hit.index < k < |s.entries| ==> s.entries[k].bits != t
  {
    HashRange(t);
    forall k | 0 <= k < |s.entries|
      ensures k in Chain(s.entries, s.heads[Bucket(s.entries[k].bits)])
    {
    }
  }

  /** The eight orientations of a tile, in the order `tiles_match` tries them. */
  function Orientations(t: RawTile): (os: seq<RawTile>)
    ensures |os| == |BlockStore.VARIANTS|
  {
    seq(|BlockStore.VARIANTS|, u requires 0 <= u < |BlockStore.VARIANTS| => TileTransform(t, BlockStore.VARIANTS[u]))
  }

  /** The permutation loop of `tiles_match` from the v-th permutation on, given the
      orientations `os` of the searched tile (the order is that of the block
      store's `VARIANTS`): the first one stored wins. */
  function LookupFrom(s: Tiles, os: seq<RawTile>, v: nat): (r: Ref)
    requires Valid(s) && |os| == |BlockStore.VARIANTS| && v <= |os|
    ensures r.Ref? ==> r.index < |s.entries| && v <= BlockStore.VariantRank(r.flags)
    ensures r.Ref? ==> s.entries[r.index].bits == os[BlockStore.VariantRank(r.flags)]
    ensures r.Ref? ==> forall u :: v <= u < BlockStore.VariantRank(r.flags) ==> !Present(s.entries, os[u])
    ensures r.NoRef? <==> forall u :: v <= u < |os| ==> !Present(s.entries, os[u])
    decreases |os| - v
  {
    if v == |os| then NoRef
    else
      FindInBucket(s, os[v]);
      var hit := FindInChain(s.entries, s.heads[Bucket(os[v])], os[v]);
      BlockStore.RankOfVariant(v);
      if hit.Next? then Ref(hit.index, BlockStore.VARIANTS[v]) else LookupFrom(s, os, v + 1)
  }

  /** The hit of the permutation loop is the newest tile holding its bits. */
  lemma {:induction false} LookupFromNewest(s: Tiles, os: seq<RawTile>, v: nat)
    requires Valid(s) && |os| == |BlockStore.VARIANTS| && v <= |os|
    ensures var r := LookupFrom(s, os, v);
      r.Ref? ==> forall k :: r.index < k < |s.entries| ==> s.entries[k].bits != s.entries[r.index].bits
    decreases |os| - v
  {
    if v < |os| {
      FindInBucketNewest(s, os[v]);
      LookupFromNewest(s, os, v + 1);
    }
  }

  /** The search of `tiles_match`: the first permutation under which the tile is
      stored, as `permutation | index`; `NoRef` when it is stored under none.  The
      named tile is the newest holding the searched tile under that permutation. */
  function Lookup(s: Tiles, t: RawTile): (r: Ref)
    requires Valid(s)
    ensures r.Ref? ==> r.index < |s.entries| && s.entries[r.index].bits == TileTransform(t, r.flags)
    ensures r.Ref? ==> forall k :: r.index < k < |s.entries| ==> s.entries[k].bits != s.entries[r.index].bits
    ensures r.Ref? ==> forall u :: 0 <= u < BlockStore.VariantRank(r.flags) ==>
      !Present(s.entries, TileTransform(t, BlockStore.VARIANTS[u]))
    ensures r.NoRef? <==> forall f: Flags :: !Present(s.entries, TileTransform(t, f))
  {
    var r := LookupFrom(s, Orientations(t), 0);
    LookupAll(s, t, r);
    LookupFromNewest(s, Orientations(t), 0);
    r
  }

  lemma LookupAll(s: Tiles, t: RawTile, r: Ref)
    requires Valid(s) && r == LookupFrom(s, Orientations(t), 0)
    ensures r.Ref? ==> r.index < |s.entries| && s.entries[r.index].bits == TileTransform(t, r.flags)
    ensures r.Ref? ==> forall u :: 0 <= u < BlockStore.VariantRank(r.flags) ==>
      !Present(s.entries, TileTransform(t, BlockStore.VARIANTS[u]))
    ensures r.NoRef? <==> forall f: Flags :: !Present(s.entries, TileTransform(t, f))
  {
    var os := Orientations(t);
    if r.NoRef? {
      forall f: Flags
        ensures !Present(s.entries, TileTransform(t, f))
      {
        var u := BlockStore.VariantRank(f);
        assert os[u] == TileTransform(t, f);
      }
    } else {
      var u := BlockStore.VariantRank(r.flags);
      assert os[u] == TileTransform(t, r.flags);
      forall w | 0 <= w < u
        ensures !Present(s.entries, TileTransform(t, BlockStore.VARIANTS[w]))
      {
        assert os[w] == TileTransform(t, BlockStore.VARIANTS[w]);
      }
    }
  }

  lemma BumpValid(s: Tiles, i: nat, s': Tiles)
    requires Valid(s) && i < |s.entries|
    requires s'.heads == s.heads && s'.capacity == s.capacity
    requires s'.entries == s.entries[i := s.entries[i].(count := s.entries[i].count + 1)]
    ensures Valid(s')
  {
    forall b | 0 <= b < HASH_SIZE
      ensures Chain(s'.entries, s.heads[b]) == Chain(s.entries, s.heads[b])
    {
      ChainStable(s.entries, s'.entries, s.heads[b]);
    }
  }

  /** `tiles_match`: on a hit the matched tile gains a user and the reference
      `permutation | index` is returned; on a miss the store is unchanged. */
  function TilesMatch(s: Tiles, tile: Tile): (res: (Tiles, Ref))
    requires Valid(s)
    ensures Valid(res.0) && res.1 == Lookup(s, tile.bits)
    ensures res.1.Ref? ==> UserAdded(s, res.0, res.1.index)
    ensures res.1.NoRef? ==> res.0 == s
  {
    var r := Lookup(s, tile.bits);
    if r.NoRef? then (s, r) else (AddUser(s, r.index), r)
  }

  /** `s'` is `s` with one more user for tile i: the count of tile i is one
      higher and nothing else differs. */
  ghost predicate UserAdded(s: Tiles, s': Tiles, i: nat)
  {
    && s'.heads == s.heads && s'.capacity == s.capacity
    && |s'.entries| == |s.entries| && i < |s.entries|
    && s'.entries[i] == s.entries[i].(count := s.entries[i].count + 1)
    && forall k :: 0 <= k < |s.entries| && k != i ==> s'.entries[k] == s.entries[k]
  }

  /** One more user for tile i (`match->count++`). */
  function AddUser(s: Tiles, i: nat): (s': Tiles)
    requires Valid(s) && i < |s.entries|
    ensures Valid(s') && UserAdded(s, s', i)
  {
    var s' := Tiles(s.entries[i := s.entries[i].(count := s.entries[i].count + 1)], s.capacity, s.heads);
    BumpValid(s, i, s');
    s'
  }

  /** The growth rule of `tiles_insert`: nothing while there is room; when full,
      1024 slots for an empty store and twice the capacity otherwise. */
  function Grow(size: nat, capacity: nat): (c: nat)
    requires size <= capacity
    ensures c > size && c >= capacity
    ensures size < capacity ==> c == capacity
    ensures size == capacity == 0 ==> c == FIRST_CAPACITY
    ensures size == capacity > 0 ==> c == 2 * capacity
  {
    if size == capacity then (if size > 0 then capacity * 2 else FIRST_CAPACITY) else capacity
  }

  lemma AppendValid(s: Tiles, e: Tile, s': Tiles)
    requires Valid(s) && e.next == s.heads[Bucket(e.bits)]
    requires s'.entries == s.entries + [e]
    requires s'.heads == s.heads[Bucket(e.bits) := Next(|s.entries|)]
    requires s'.capacity >= |s'.entries|
    ensures Valid(s')
  {
    var es, es' := s.entries, s'.entries;
    var n, h := |es|, Bucket(e.bits);
    HashRange(e.bits);
    assert ChainsOk(es');
    AppendChains(s, e, s');
    forall i | 0 <= i < n + 1
      ensures i in Chain(es', s'.heads[Bucket(es'[i].bits)])
    {
      if i < n {
        assert es'[i] == es[i];
        assert i in Chain(es, s.heads[Bucket(es[i].bits)]);
      }
    }
    forall b, k | 0 <= b < HASH_SIZE && k in Chain(es', s'.heads[b])
      ensures Bucket(es'[k].bits) == b
    {
      if k < n {
        assert es'[k] == es[k];
      }
    }
  }

  /** Appending at the head of bucket h lengthens that bucket's chain by the new
      offset and leaves every other chain as it was. */
  lemma AppendChains(s: Tiles, e: Tile, s': Tiles)
    requires Valid(s) && e.next == s.heads[Bucket(e.bits)] && Bucket(e.bits) < HASH_SIZE
    requires s'.entries == s.entries + [e]
    requires s'.heads == s.heads[Bucket(e.bits) := Next(|s.entries|)]
    ensures ChainsOk(s'.entries)
    ensures forall b :: 0 <= b < HASH_SIZE ==>
      && LinkBelow(s'.heads[b], |s'.entries|)
      && Chain(s'.entries, s'.heads[b])
         == if b == Bucket(e.bits) then [|s.entries|] + Chain(s.entries, s.heads[b]) else Chain(s.entries, s.heads[b])
  {
    var es, es' := s.entries, s'.entries;
    assert ChainsOk(es');
    forall b | 0 <= b < HASH_SIZE
      ensures LinkBelow(s'.heads[b], |es'|)
      ensures Chain(es', s'.heads[b]) == if b == Bucket(e.bits) then [|es|] + Chain(es, s.heads[b]) else Chain(es, s.heads[b])
    {
      ChainStable(es, es', s.heads[b]);
    }
  }

  /** `tiles_insert`.  A tile stored under some permutation is matched as by
      `tiles_match`.  Otherwise it is copied, whole, to index `size` at the head of
      its bucket, growing the capacity first when full, and `size` is returned
      unflipped.  Either way the result names a stored tile that is the inserted
      one under the returned permutation. */
  function TilesInsert(s: Tiles, tile: Tile): (res: (Tiles, Ref))
    requires Valid(s)
    ensures Valid(res.0)
    ensures res.1.Ref? && res.1.index < |res.0.entries|
    ensures res.0.entries[res.1.index].bits == TileTransform(tile.bits, res.1.flags)
    ensures Lookup(s, tile.bits).Ref? ==> res == TilesMatch(s, tile)
    ensures Lookup(s, tile.bits).NoRef? ==>
      && res.1 == Ref(|s.entries|, 0)
      && res.0.capacity == Grow(|s.entries|, s.capacity)
      && |res.0.entries| == |s.entries| + 1 && res.0.entries[..|s.entries|] == s.entries
      && res.0.entries[|s.entries|] == tile.(next := s.heads[Bucket(tile.bits)])
      && res.0.heads == s.heads[Bucket(tile.bits) := Next(|s.entries|)]
  {
    var (s1, r) := TilesMatch(s, tile);
    if r.Ref? then (s1, r)
    else
      var h := Bucket(tile.bits);
      HashRange(tile.bits);
      var s' := Tiles(s.entries + [tile.(next := s.heads[h])], Grow(|s.entries|, s.capacity),
                      s.heads[h := Next(|s.entries|)]);
      AppendValid(s, tile.(next := s.heads[h]), s');
      (s', Ref(|s.entries|, 0))
  }

  /** Inserting the same tile twice allocates once: the second insertion returns the
      first one's index, unflipped, and adds a user to it. */
  lemma InsertTwiceAllocatesOnce(s: Tiles, tile: Tile)
    requires Valid(s) && Lookup(s, tile.bits).NoRef?
    ensures var (s1, r1) := TilesInsert(s, tile);
            var (s2, r2) := TilesInsert(s1, tile);
            && r1 == Ref(|s.entries|, 0) && r2 == r1
            && |s2.entries| == |s1.entries| && s2.entries[r1.index].count == tile.count + 1
  {
    var (s1, r1) := TilesInsert(s, tile);
    assert s1.entries[r1.index].bits == TileTransform(tile.bits, 0);
    assert Present(s1.entries, TileTransform(tile.bits, BlockStore.VARIANTS[0]));
    var r2 := Lookup(s1, tile.bits);
    assert BlockStore.VariantRank(r2.flags) == 0;
  }

  /** With flip-x as written, a store holding only the tile of 0x20 bytes answers
      the tiles of 0x02 and of 0x04 bytes, which differ, with the same reference:
      entry 0 flipped horizontally. */
  lemma LookupAsWrittenConflates(s: Tiles)
    requires Valid(s) && |s.entries| == 1 && s.entries[0].bits == UniformTile(0x20)
    ensures Lookup(s, UniformTile(0x02)) == Ref(0, FLIP_X)
    ensures Lookup(s, UniformTile(0x04)) == Ref(0, FLIP_X)
    ensures UniformTile(0x02) != UniformTile(0x04)
  {
    UniformLookup(s, 0x02);
    UniformLookup(s, 0x04);
    assert UniformTile(0x02)[0] != UniformTile(0x04)[0];
  }

  lemma UniformLookup(s: Tiles, v: bv8)
    requires Valid(s) && |s.entries| == 1 && s.entries[0].bits == UniformTile(0x20)
    requires v == 0x02 || v == 0x04
    ensures Lookup(s, UniformTile(v)) == Ref(0, FLIP_X)
  {
    var r := Lookup(s, UniformTile(v));
    UniformFoundByFifth(s, v);
    UniformOrientedTo20(v, r.flags);
    FlipBothRanks();
  }

  /** Flipping both ways comes sixth in both permutation orders. */
  lemma FlipBothRanks()
    ensures BlockStore.VariantRank(FLIP_X | FLIP_Y) == 5 && DiffRank(FLIP_X | FLIP_Y) == 5
  {
  }

  /** The orientations that turn the tile of 0x02 or of 0x04 bytes into the tile of
      0x20 bytes are flip-x, with or without flip-y. */
  lemma UniformOrientedTo20(v: bv8, f: Flags)
    requires v == 0x02 || v == 0x04
    requires TileTransform(UniformTile(v), f) == UniformTile(0x20)
    ensures f == FLIP_X || f == FLIP_X | FLIP_Y
  {
    UniformTransform(v, f);
    UniformTileInjective(AdjustByte(v, f), 0x20);
    UniformAdjustAsWritten(v, f);
  }

  /** The tile flipped horizontally is stored, so the search stops at or before the
      fifth permutation. */
  lemma UniformFoundByFifth(s: Tiles, v: bv8)
    requires Valid(s) && |s.entries| == 1 && s.entries[0].bits == UniformTile(0x20)
    requires v == 0x02 || v == 0x04
    ensures var r := Lookup(s, UniformTile(v));
      r.Ref? && r.index == 0 && BlockStore.VariantRank(r.flags) <= 4
  {
    UniformTransform(v, FLIP_X);
    assert BlockStore.VARIANTS[4] == FLIP_X;
    assert Present(s.entries, TileTransform(UniformTile(v), BlockStore.VARIANTS[4]));
  }

  lemma UniformTileInjective(a: bv8, b: bv8)
    requires UniformTile(a) == UniformTile(b)
    ensures a == b
  {
    assert UniformTile(a)[0] == a;
  }

  /** Only flip-x, with or without flip-y, turns 0x02 or 0x04 into 0x20. */
  lemma UniformAdjustAsWritten(v: bv8, f: Flags)
    requires v == 0x02 || v == 0x04
    requires AdjustByte(v, f) == 0x20
    ensures f == FLIP_X || f == FLIP_X | FLIP_Y
  {
  }

  // ---------------------------------------------------------------------------
  // Approximate comparison

  /** The order in which `tile_diff` tries the permutations (invert-with-flip-y
      before invert alone, unlike `tiles_match`). */
  const DIFF_ORDER: seq<Flags> := [0, FLIP_Y, INVERT | FLIP_Y, INVERT,
                                   FLIP_X, FLIP_X | FLIP_Y, INVERT | FLIP_X, INVERT | FLIP_X | FLIP_Y]

  /** Position of a flag set in `DIFF_ORDER`. */
  function DiffRank(f: Flags): (k: nat)
    ensures k < |DIFF_ORDER| && DIFF_ORDER[k] == f
  {
    if f == 0 then 0
    else if f == FLIP_Y then 1
    else if f == INVERT | FLIP_Y then 2
    else if f == INVERT then 3
    else if f == FLIP_X then 4
    else if f == FLIP_X | FLIP_Y then 5
    else if f == INVERT | FLIP_X then 6
    else 7
  }

  /** Hamming distance between `a` and `b` seen under orientation f. */
  function OrientedDiff(a: RawTile, b: RawTile, f: Flags): nat
  {
    Hamming(a, TileTransform(b, f))
  }

  /** What the loop of `tile_diff` knows after the first v permutations: the error
      is the least so far, carried by the first permutation that reached it. */
  ghost predicate BestSoFar(a: RawTile, b: RawTile, v: nat, err: nat, perm: Flags)
    requires v <= |DIFF_ORDER|
  {
    && DiffRank(perm) < v
    && err == OrientedDiff(a, b, perm)
    && (forall u :: 0 <= u < v ==> err <= OrientedDiff(a, b, DIFF_ORDER[u]))
    && (forall u :: 0 <= u < DiffRank(perm) ==> OrientedDiff(a, b, DIFF_ORDER[u]) > err)
  }

  /** The loop of `tile_diff` from permutation v on, with the error and permutation
      found so far (initially `~0` and 0); a later permutation wins only with a
      strictly smaller error. */
  function DiffScan(a: RawTile, b: RawTile, v: nat, err: nat, perm: Flags): (r: (nat, Flags))
    requires v <= |DIFF_ORDER|
    requires v == 0 ==> err == NO_INDEX && perm == 0
    requires v > 0 ==> BestSoFar(a, b, v, err, perm)
    ensures BestSoFar(a, b, |DIFF_ORDER|, r.0, r.1)
    decreases |DIFF_ORDER| - v
  {
    if v == |DIFF_ORDER| then (err, perm)
    else
      var f := DIFF_ORDER[v];
      var e := OrientedDiff(a, b, f);
      DiffScanStep(a, b, v, err, perm);
      if e < err then DiffScan(a, b, v + 1, e, f) else DiffScan(a, b, v + 1, err, perm)
  }

  lemma DiffScanStep(a: RawTile, b: RawTile, v: nat, err: nat, perm: Flags)
    requires v < |DIFF_ORDER|
    requires v == 0 ==> err == NO_INDEX && perm == 0
    requires v > 0 ==> BestSoFar(a, b, v, err, perm)
    ensures var f := DIFF_ORDER[v];
      if OrientedDiff(a, b, f) < err then BestSoFar(a, b, v + 1, OrientedDiff(a, b, f), f)
      else BestSoFar(a, b, v + 1, err, perm)
  {
    var f := DIFF_ORDER[v];
    var e := OrientedDiff(a, b, f);
    HammingBounds(a, TileTransform(b, f));
    assert DiffRank(f) == v;
    if v == 0 {
      assert e < err;
    }
  }

  /** `tile_diff`: the least Hamming distance between `a` and any orientation of `b`,
      with the first permutation of `DIFF_ORDER` that attains it. */
  function TileDiff(a: RawTile, b: RawTile): (r: (nat, Flags))
    ensures r.0 == OrientedDiff(a, b, r.1)
    ensures forall f: Flags :: r.0 <= OrientedDiff(a, b, f)
    ensures forall u :: 0 <= u < DiffRank(r.1) ==> OrientedDiff(a, b, DIFF_ORDER[u]) > r.0
  {
    var r := DiffScan(a, b, 0, NO_INDEX, 0);
    forall f: Flags
      ensures r.0 <= OrientedDiff(a, b, f)
    {
      assert DIFF_ORDER[DiffRank(f)] == f;
    }
    r
  }

  /** With flip-x as written, the tile of 0x02 bytes is at distance 0 from the tile
      of 0x20 bytes, flipped horizontally. */
  lemma TileDiffAsWritten()
    ensures TileDiff(UniformTile(0x20), UniformTile(0x02)) == (0, FLIP_X)
  {
    var a, b := UniformTile(0x20), UniformTile(0x02);
    var r := TileDiff(a, b);
    FlipXReaches20();
    assert r.0 == 0;
    HammingBounds(a, TileTransform(b, r.1));
    UniformOrientedTo20(0x02, r.1);
    FlipBothRanks();
    assert DIFF_ORDER[4] == FLIP_X;
  }

  lemma FlipXReaches20()
    ensures OrientedDiff(UniformTile(0x20), UniformTile(0x02), FLIP_X) == 0
  {
    UniformTransform(0x02, FLIP_X);
    HammingBounds(UniformTile(0x20), UniformTile(0x20));
  }

  /** A tile is at distance 0 from itself, reported unflipped; and no two tiles are
      more than 128 bits apart, since a tile and its inverse differ in all 256. */
  lemma TileDiffFacts(a: RawTile, b: RawTile)
    ensures a == b ==> TileDiff(a, b) == (0, 0)
    ensures TileDiff(a, b).0 <= TILE_WIDTH * TILE_HEIGHT / 2
  {
    var r := TileDiff(a, b);
    if a == b {
      HammingBounds(a, TileTransform(b, 0));
      assert OrientedDiff(a, b, 0) == 0;
    }
    assert Xor(a, TileInvert(b)) == Complement(Xor(a, b));
    PopSumComplement(Xor(a, b));
    assert OrientedDiff(a, b, INVERT) + OrientedDiff(a, b, 0) == TILE_WIDTH * TILE_HEIGHT;
  }

  /** The tiles `tiles_compare` considers: not the pattern itself and still in use. */
  predicate Eligible(es: seq<Tile>, local: nat, k: nat)
    requires k < |es|
  {
    k != local && es[k].count > 0
  }

  /** Every offset of `c` names a tile. */
  predicate InStore(es: seq<Tile>, c: seq<nat>)
  {
    forall j :: 0 <= j < |c| ==> c[j] < |es|
  }

  /** Which entries of the chain `c` are eligible. */
  ghost function ChainEligible(es: seq<Tile>, local: nat, c: seq<nat>): (el: seq<bool>)
    requires InStore(es, c)
    ensures |el| == |c| && forall j :: 0 <= j < |c| ==> el[j] == Eligible(es, local, c[j])
  {
    seq(|c|, j requires 0 <= j < |c| => Eligible(es, local, c[j]))
  }

  /** The `tile_diff` of the pattern against each entry of the chain `c`. */
  ghost function ChainDiffs(es: seq<Tile>, local: nat, c: seq<nat>): (ds: seq<(nat, Flags)>)
    requires local < |es| && InStore(es, c)
    ensures |ds| == |c| && forall j :: 0 <= j < |c| ==> ds[j] == TileDiff(es[local].bits, es[c[j]].bits)
  {
    seq(|c|, j requires 0 <= j < |c| => TileDiff(es[local].bits, es[c[j]].bits))
  }

  /** Among the first `upto` entries, entry `at` is eligible and carries the
      recorded error and permutation, no eligible entry has a smaller error, and
      every eligible entry after `at` has a larger one. */
  ghost predicate BestUpTo(el: seq<bool>, ds: seq<(nat, Flags)>, at: nat, upto: nat, error: nat, permutation: Flags)
    requires |el| == |ds| && upto <= |ds|
  {
    && at < upto && el[at] && ds[at] == (error, permutation)
    && (forall j :: 0 <= j < upto && el[j] ==> error <= ds[j].0)
    && (forall j :: at < j < upto && el[j] ==> error < ds[j].0)
  }

  /** `tiles_compare`: walks the chain from `search`, skipping the pattern tile
      `local` and tiles without users, and keeps the least `tile_diff` error, a tie
      going to the tile further along the chain.  With no eligible tile it returns
      the sentinel with error `~0` and permutation 0. */
  method TilesCompare(s: Tiles, local: nat, search: Link) returns (candidate: Link, error: nat, permutation: Flags)
    requires ChainsOk(s.entries) && local < |s.entries| && LinkBelow(search, |s.entries|)
    ensures var es, c := s.entries, Chain(s.entries, search);
      var el, ds := ChainEligible(es, local, c), ChainDiffs(es, local, c);
      && (candidate.Nil? <==> forall j :: 0 <= j < |c| ==> !el[j])
      && (candidate.Nil? ==> error == NO_INDEX && permutation == 0)
      && (candidate.Next? ==> exists j :: 0 <= j < |c| && c[j] == candidate.index && BestUpTo(el, ds, j, |c|, error, permutation))
  {
    var es, c := s.entries, Chain(s.entries, search);
    ghost var el, ds := ChainEligible(es, local, c), ChainDiffs(es, local, c);
    var pattern := es[local].bits;
    candidate, error, permutation := Nil, NO_INDEX, 0;
    var l := search;
    ghost var pos, at := 0, 0;
    while l.Next?
      invariant LinkBelow(l, |es|) && pos <= |c| && Chain(es, l) == c[pos..]
      invariant CompareInvariant(el, ds, c, pos, candidate, at, error, permutation)
      decreases if l.Nil? then 0 else l.index + 1
    {
      var k := l.index;
      ChainAdvance(es, c, l, pos);
      ghost var candidate0, at0, error0, permutation0 := candidate, at, error, permutation;
      if k != local && es[k].count > 0 {
        var d := TileDiff(pattern, es[k].bits);
        if d.0 <= error {
          candidate, error, permutation, at := l, d.0, d.1, pos;
        }
      }
      CompareAdvance(es, local, c, pos, candidate0, at0, error0, permutation0, candidate, at, error, permutation);
      l := es[k].next;
      pos := pos + 1;
    }
    assert pos == |c|;
  }

  /** The state of the loop of `tiles_compare` after the first `pos` chain entries. */
  ghost predicate CompareInvariant(el: seq<bool>, ds: seq<(nat, Flags)>, c: seq<nat>, pos: nat,
                                   candidate: Link, at: nat, error: nat, permutation: Flags)
  {
    && |el| == |ds| == |c| && pos <= |c|
    && (candidate.Nil? ==> error == NO_INDEX && permutation == 0 && forall j :: 0 <= j < pos ==> !el[j])
    && (candidate.Next? ==> at < pos && c[at] == candidate.index && BestUpTo(el, ds, at, pos, error, permutation))
  }

  /** Following one link of a chain moves one place along it. */
  lemma ChainAdvance(es: seq<Tile>, c: seq<nat>, l: Link, pos: nat)
    requires ChainsOk(es) && l.Next? && l.index < |es|
    requires pos <= |c| && Chain(es, l) == c[pos..]
    ensures pos < |c| && c[pos] == l.index
    ensures LinkBelow(es[l.index].next, |es|) && Chain(es, es[l.index].next) == c[pos + 1..]
  {
    assert c[pos..][1..] == c[pos + 1..];
  }

  /** One pass of the loop of `tiles_compare`, at chain position `pos`. */
  lemma CompareAdvance(es: seq<Tile>, local: nat, c: seq<nat>, pos: nat,
                       candidate: Link, at: nat, error: nat, permutation: Flags,
                       candidate': Link, at': nat, error': nat, permutation': Flags)
    requires local < |es| && InStore(es, c) && pos < |c|
    requires CompareInvariant(ChainEligible(es, local, c), ChainDiffs(es, local, c), c, pos, candidate, at, error, permutation)
    requires var k := c[pos];
             if k != local && es[k].count > 0 && TileDiff(es[local].bits, es[k].bits).0 <= error
             then candidate' == Next(k) && at' == pos && (error', permutation') == TileDiff(es[local].bits, es[k].bits)
             else candidate' == candidate && at' == at && error' == error && permutation' == permutation
    ensures CompareInvariant(ChainEligible(es, local, c), ChainDiffs(es, local, c), c, pos + 1, candidate', at', error', permutation')
  {
    var el, ds := ChainEligible(es, local, c), ChainDiffs(es, local, c);
    TileDiffFacts(es[local].bits, es[c[pos]].bits);
    CompareStep(el, ds, c, pos, candidate, at, error, permutation, candidate', at', error', permutation');
  }

  lemma CompareStep(el: seq<bool>, ds: seq<(nat, Flags)>, c: seq<nat>, pos: nat,
                    candidate: Link, at: nat, error: nat, permutation: Flags,
                    candidate': Link, at': nat, error': nat, permutation': Flags)
    requires CompareInvariant(el, ds, c, pos, candidate, at, error, permutation) && pos < |c|
    requires ds[pos].0 < NO_INDEX
    requires if el[pos] && ds[pos].0 <= error
             then candidate' == Next(c[pos]) && at' == pos && (error', permutation') == ds[pos]
             else candidate' == candidate && at' == at && error' == error && permutation' == permutation
    ensures CompareInvariant(el, ds, c, pos + 1, candidate', at', error', permutation')
  {
  }
}
