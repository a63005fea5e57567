/** The 8×8 one-bit bitmaps of `src/blocks.c`: thresholding a cell of
    grayscale pixels into a bitmap, rendering it back, the popcount hash,
    the three orientation transforms and the Hamming distance.  A bitmap is
    eight row bytes; bit c of row y is the pixel in column c. */
module BlockBits {
  import opened Bytes
  import opened Refs

  const BLOCK_WIDTH: nat := 8
  const BLOCK_HEIGHT: nat := 8
  /** Number of hash buckets (`BLOCK_HASH_SIZE`). */
  const HASH_SIZE: nat := 256

  type Bitmap = s: seq<bv8> | |s| == BLOCK_HEIGHT witness [0, 0, 0, 0, 0, 0, 0, 0]

  // ---------------------------------------------------------------------------
  // Hash and distance

  /** `hash_block`: the number of set bits of the bitmap. */
  function Hash(b: Bitmap): nat
  {
    PopSum(b)
  }

  /** The hash bucket of a bitmap (`hash_block(..) & (BLOCK_HASH_SIZE-1)`). */
  function Bucket(b: Bitmap): nat
  {
    Hash(b) % HASH_SIZE
  }

  /** `block_diff`: the Hamming distance between two bitmaps. */
  function Diff(a: Bitmap, b: Bitmap): nat
  {
    Hamming(a, b)
  }

  /** The hash counts pixels, so it lies in 0..64 and is its own bucket. */
  lemma HashRange(b: Bitmap)
    ensures Hash(b) <= BLOCK_WIDTH * BLOCK_HEIGHT
    ensures Bucket(b) == Hash(b)
  {
    PopSumBound(b);
  }

  /** `block_diff` is a distance: symmetric, at most 64, zero exactly on equal bitmaps,
      and bounding the difference of the two hashes. */
  lemma DiffIsHamming(a: Bitmap, b: Bitmap)
    ensures Diff(a, b) == Diff(b, a)
    ensures Diff(a, b) <= BLOCK_WIDTH * BLOCK_HEIGHT
    ensures Diff(a, b) == 0 <==> a == b
    ensures Hash(a) <= Hash(b) + Diff(a, b)
    ensures Hash(b) <= Hash(a) + Diff(a, b)
  {
    HammingSymmetric(a, b);
    HammingBounds(a, b);
    PopSumDistance(a, b);
    PopSumDistance(b, a);
  }

  // ---------------------------------------------------------------------------
  // Orientation transforms

  /** `block_flip_x`: each row's bits are reversed, and (because the output row is
      computed as `BLOCK_HEIGHT - (y + 1) * (BLOCK_WIDTH / 8)` with one byte per row)
      input row y also lands in output row 7 - y. */
  function FlipX(b: Bitmap): Bitmap
  {
    seq(BLOCK_HEIGHT, y requires 0 <= y < BLOCK_HEIGHT => Reverse8(b[BLOCK_HEIGHT - 1 - y]))
  }

  /** `block_flip_y`: input row y lands in output row 7 - y. */
  function FlipY(b: Bitmap): Bitmap
  {
    seq(BLOCK_HEIGHT, y requires 0 <= y < BLOCK_HEIGHT => b[BLOCK_HEIGHT - 1 - y])
  }

  /** `block_invert`: every bit complemented. */
  function Invert(b: Bitmap): Bitmap
  {
    seq(BLOCK_HEIGHT, y requires 0 <= y < BLOCK_HEIGHT => !b[y])
  }

  /** The transform a flag set selects, applied in the source's fixed order:
      flip-x, then flip-y, then invert (as in `blocks_get` and `blocks_match`). */
  function Transform(b: Bitmap, f: Flags): Bitmap
  {
    var t1 := if f & FLIP_X != 0 then FlipX(b) else b;
    var t2 := if f & FLIP_Y != 0 then FlipY(t1) else t1;
    if f & INVERT != 0 then Invert(t2) else t2
  }

  /** Pixel-level meaning of `block_flip_x`: bit i of row y comes from bit 7-i of row 7-y,
      so it mirrors the bitmap horizontally and vertically at once. */
  lemma FlipXMirrors(b: Bitmap, y: nat, i: nat)
    requires y < BLOCK_HEIGHT && i < BLOCK_WIDTH
    ensures Bit(FlipX(b)[y], i) == Bit(b[BLOCK_HEIGHT - 1 - y], BLOCK_WIDTH - 1 - i)
  {
    Reverse8Reverses(b[BLOCK_HEIGHT - 1 - y]);
  }

  /** Each of the three transforms undoes itself. */
  lemma TransformsAreInvolutions(b: Bitmap)
    ensures FlipX(FlipX(b)) == b
    ensures FlipY(FlipY(b)) == b
    ensures Invert(Invert(b)) == b
  {
    forall y | 0 <= y < BLOCK_HEIGHT
      ensures FlipX(FlipX(b))[y] == b[y]
    {
      Reverse8Involutive(b[y]);
    }
  }

  /** Both flips keep the hash; inverting maps a hash h to 64 - h. */
  lemma TransformsAndHash(b: Bitmap)
    ensures Hash(FlipX(b)) == Hash(b)
    ensures Hash(FlipY(b)) == Hash(b)
    ensures Hash(Invert(b)) == BLOCK_WIDTH * BLOCK_HEIGHT - Hash(b)
  {
    assert FlipY(b) == Rev(b);
    PopSumRev(b);
    assert FlipX(b) == Rev(ReverseEach(b));
    PopSumRev(ReverseEach(b));
    PopSumReverseEach(b);
    assert Invert(b) == Complement(b);
    PopSumComplement(b);
  }

  /** Row of the input that a flag set moves into output row y: the two flips each
      reverse the row order, so together they cancel. */
  function SourceRow(f: Flags, y: nat): nat
    requires y < BLOCK_HEIGHT
  {
    if (f & FLIP_X != 0) != (f & FLIP_Y != 0) then BLOCK_HEIGHT - 1 - y else y
  }

  /** What a flag set does to one row byte: reverse it for flip-x, complement it for invert. */
  function AdjustRow(x: bv8, f: Flags): bv8
  {
    var r := if f & FLIP_X != 0 then Reverse8(x) else x;
    if f & INVERT != 0 then !r else r
  }

  /** Closed form of `Transform`, one output row at a time. */
  lemma TransformRow(b: Bitmap, f: Flags, y: nat)
    requires y < BLOCK_HEIGHT
    ensures Transform(b, f)[y] == AdjustRow(b[SourceRow(f, y)], f)
  {
  }

  lemma AdjustRowCompose(x: bv8, f: Flags, g: Flags)
    ensures AdjustRow(AdjustRow(x, f), g) == AdjustRow(x, f ^ g)
  {
    Reverse8Involutive(x);
    Reverse8Complement(x);
    XorFlags(f, g);
  }

  /** A flag is set in `f ^ g` exactly when it is set in one of the two. */
  lemma XorFlags(f: Flags, g: Flags)
    ensures (f ^ g) & FLIP_X != 0 <==> (f & FLIP_X != 0) != (g & FLIP_X != 0)
    ensures (f ^ g) & FLIP_Y != 0 <==> (f & FLIP_Y != 0) != (g & FLIP_Y != 0)
    ensures (f ^ g) & INVERT != 0 <==> (f & INVERT != 0) != (g & INVERT != 0)
  {
  }

  /** Orientations compose by exclusive or of their flags: the transforms commute
      and each undoes itself.  In particular `Transform(Transform(b, f), f) == b`. */
  lemma {:induction false} TransformCompose(b: Bitmap, f: Flags, g: Flags)
    ensures Transform(Transform(b, f), g) == Transform(b, f ^ g)
  {
    forall y | 0 <= y < BLOCK_HEIGHT
      ensures Transform(Transform(b, f), g)[y] == Transform(b, f ^ g)[y]
    {
      var y1 := SourceRow(g, y);
      TransformRow(Transform(b, f), g, y);
      TransformRow(b, f, y1);
      TransformRow(b, f ^ g, y);
      assert SourceRow(f, y1) == SourceRow(f ^ g, y);
      AdjustRowCompose(b[SourceRow(f, y1)], f, g);
    }
  }

  /** Applying the same orientation twice gives the bitmap back. */
  lemma TransformTwice(b: Bitmap, f: Flags)
    ensures Transform(Transform(b, f), f) == b
  {
    TransformCompose(b, f, f);
    assert f ^ f == 0;
  }

  // ---------------------------------------------------------------------------
  // Thresholding and rendering

  /** The pixels of a cell lie inside the buffer: row y starts at `origin + y * pitch`. */
  predicate CellFits(n: nat, origin: nat, pitch: nat)
  {
    origin + (BLOCK_HEIGHT - 1) * pitch + BLOCK_WIDTH <= n
  }

  lemma RowFits(n: nat, origin: nat, pitch: nat, y: nat)
    requires CellFits(n, origin, pitch) && y < BLOCK_HEIGHT
    ensures origin + y * pitch + BLOCK_WIDTH <= n
  {
    assert y * pitch <= (BLOCK_HEIGHT - 1) * pitch by {
      MulLeft(y, BLOCK_HEIGHT - 1, pitch);
    }
  }

  lemma MulLeft(a: nat, b: nat, c: nat)
    requires a <= b
    ensures a * c <= b * c
  {
  }

  /** The inner loop of `build_block`: step i shifts the byte left and adds
      whether pixel `base + 7 - i` exceeds the threshold. */
  function RowBits(pixels: seq<bv8>, base: nat, threshold: bv8, i: nat, acc: bv8): bv8
    requires i <= BLOCK_WIDTH && base + BLOCK_WIDTH <= |pixels|
    decreases BLOCK_WIDTH - i
  {
    if i == BLOCK_WIDTH then acc
    else
      var px: bv8 := if pixels[base + (BLOCK_WIDTH - 1 - i)] > threshold then 1 else 0;
      RowBits(pixels, base, threshold, i + 1, (acc << 1) | px)
  }

  /** The bits of `build_block`, row by row. */
  function BuildBits(pixels: seq<bv8>, origin: nat, pitch: nat, threshold: bv8): Bitmap
    requires CellFits(|pixels|, origin, pitch)
  {
    seq(BLOCK_HEIGHT, y requires 0 <= y < BLOCK_HEIGHT =>
      RowFits(|pixels|, origin, pitch, y);
      RowBits(pixels, origin + y * pitch, threshold, 0, 0))
  }

  /** Whether a pixel is above the threshold, as a bit value. */
  function Above(p: bv8, threshold: bv8): nat
  {
    if p > threshold then 1 else 0
  }

  /** Shifting a byte left by one and or-ing in a bit: bit 0 is the new bit, bit j the old bit j-1. */
  lemma ShiftIn(acc: bv8, px: bv8, i: nat, j: nat)
    requires px <= 1 && i < BLOCK_WIDTH && j < BLOCK_WIDTH
    requires acc >> i == 0
    ensures ((acc << 1) | px) >> (i + 1) == 0
    ensures Bit((acc << 1) | px, j) == if j == 0 then px as nat else Bit(acc, j - 1)
  {
  }

  /** What the first i steps of the row loop have built: the last i pixels of the
      row, the rightmost in bit 0. */
  predicate ShiftedSoFar(pixels: seq<bv8>, base: nat, threshold: bv8, i: nat, acc: bv8)
    requires i <= BLOCK_WIDTH && base + BLOCK_WIDTH <= |pixels|
  {
    && acc >> i == 0
    && forall j :: 0 <= j < i ==> Bit(acc, j) == Above(pixels[base + BLOCK_WIDTH - i + j], threshold)
  }

  lemma RowBitsStep(pixels: seq<bv8>, base: nat, threshold: bv8, i: nat, acc: bv8, px: bv8, acc': bv8)
    requires i < BLOCK_WIDTH && base + BLOCK_WIDTH <= |pixels| && ShiftedSoFar(pixels, base, threshold, i, acc)
    requires px == (if pixels[base + (BLOCK_WIDTH - 1 - i)] > threshold then 1 else 0) && acc' == (acc << 1) | px
    ensures ShiftedSoFar(pixels, base, threshold, i + 1, acc')
  {
    ShiftIn(acc, px, i, 0);
    RowBitsStepBits(pixels, base, threshold, i, acc, px, acc');
  }

  lemma RowBitsStepBits(pixels: seq<bv8>, base: nat, threshold: bv8, i: nat, acc: bv8, px: bv8, acc': bv8)
    requires i < BLOCK_WIDTH && base + BLOCK_WIDTH <= |pixels| && ShiftedSoFar(pixels, base, threshold, i, acc)
    requires px == (if pixels[base + (BLOCK_WIDTH - 1 - i)] > threshold then 1 else 0) && acc' == (acc << 1) | px
    ensures forall j :: 0 <= j < i + 1 ==>
      Bit(acc', j) == Above(pixels[base + BLOCK_WIDTH - (i + 1) + j], threshold)
  {
    forall j | 0 <= j < i + 1
      ensures Bit(acc', j) == Above(pixels[base + BLOCK_WIDTH - (i + 1) + j], threshold)
    {
      RowBitAt(pixels, base, threshold, i, acc, px, acc', j);
    }
  }

  lemma RowBitAt(pixels: seq<bv8>, base: nat, threshold: bv8, i: nat, acc: bv8, px: bv8, acc': bv8, j: nat)
    requires i < BLOCK_WIDTH && base + BLOCK_WIDTH <= |pixels| && ShiftedSoFar(pixels, base, threshold, i, acc)
    requires px == (if pixels[base + (BLOCK_WIDTH - 1 - i)] > threshold then 1 else 0) && acc' == (acc << 1) | px
    requires j < i + 1
    ensures Bit(acc', j) == Above(pixels[base + BLOCK_WIDTH - (i + 1) + j], threshold)
  {
    ShiftIn(acc, px, i, j);
    if j > 0 {
      assert Bit(acc, j - 1) == Above(pixels[base + BLOCK_WIDTH - i + (j - 1)], threshold);
    }
  }

  /** The finished row holds pixel `base + c` in bit c. */
  lemma {:induction false} RowBitsMeaning(pixels: seq<bv8>, base: nat, threshold: bv8, i: nat, acc: bv8)
    requires i <= BLOCK_WIDTH && base + BLOCK_WIDTH <= |pixels| && ShiftedSoFar(pixels, base, threshold, i, acc)
    ensures ShiftedSoFar(pixels, base, threshold, BLOCK_WIDTH, RowBits(pixels, base, threshold, i, acc))
    decreases BLOCK_WIDTH - i
  {
    if i < BLOCK_WIDTH {
      var px: bv8 := if pixels[base + (BLOCK_WIDTH - 1 - i)] > threshold then 1 else 0;
      var acc' := (acc << 1) | px;
      RowBitsStep(pixels, base, threshold, i, acc, px, acc');
      RowBitsMeaning(pixels, base, threshold, i + 1, acc');
      assert RowBits(pixels, base, threshold, i, acc) == RowBits(pixels, base, threshold, i + 1, acc');
    }
  }

  /** `build_block` sets bit c of row y exactly when pixel (c, y) exceeds the threshold. */
  lemma BuildBitsMeaning(pixels: seq<bv8>, origin: nat, pitch: nat, threshold: bv8, y: nat, c: nat)
    requires CellFits(|pixels|, origin, pitch) && y < BLOCK_HEIGHT && c < BLOCK_WIDTH
    ensures origin + y * pitch + c < |pixels|
    ensures Bit(BuildBits(pixels, origin, pitch, threshold)[y], c) == Above(pixels[origin + y * pitch + c], threshold)
  {
    RowFits(|pixels|, origin, pitch, y);
    RowBitsMeaning(pixels, origin + y * pitch, threshold, 0, 0);
    assert origin + y * pitch + BLOCK_WIDTH - BLOCK_WIDTH + c == origin + y * pitch + c;
  }

  /** Index of the k-th pixel written by `block_render` (row-major, k < 64). */
  function RenderPos(origin: nat, pitch: nat, k: nat): nat
  {
    origin + (k / BLOCK_WIDTH) * pitch + k % BLOCK_WIDTH
  }

  /** Value `block_render` writes for the k-th pixel: 255 for a set bit, 0 otherwise. */
  function RenderValue(b: Bitmap, k: nat): bv8
    requires k < BLOCK_WIDTH * BLOCK_HEIGHT
  {
    if Bit(b[k / BLOCK_WIDTH], k % BLOCK_WIDTH) == 1 then 255 else 0
  }

  /** `block_render`: the first k of its 64 pixel writes applied to the buffer.
      Every pixel that none of those writes addresses keeps its value. */
  function Render(pixels: seq<bv8>, origin: nat, pitch: nat, b: Bitmap, k: nat): (r: seq<bv8>)
    requires CellFits(|pixels|, origin, pitch) && k <= BLOCK_WIDTH * BLOCK_HEIGHT
    ensures |r| == |pixels|
    ensures forall p :: 0 <= p < |pixels| && (forall j :: 0 <= j < k ==> RenderPos(origin, pitch, j) != p) ==>
      r[p] == pixels[p]
  {
    if k == 0 then pixels
    else
      RowFits(|pixels|, origin, pitch, (k - 1) / BLOCK_WIDTH);
      Render(pixels, origin, pitch, b, k - 1)[RenderPos(origin, pitch, k - 1) := RenderValue(b, k - 1)]
  }

  /** With rows at least a byte apart, distinct writes go to distinct pixels. */
  lemma RenderPosInjective(origin: nat, pitch: nat, k1: nat, k2: nat)
    requires pitch >= BLOCK_WIDTH && k1 != k2
    ensures RenderPos(origin, pitch, k1) != RenderPos(origin, pitch, k2)
  {
    var y1, y2 := k1 / BLOCK_WIDTH, k2 / BLOCK_WIDTH;
    if y1 < y2 {
      MulLeft(y1 + 1, y2, pitch);
    } else if y2 < y1 {
      MulLeft(y2 + 1, y1, pitch);
    }
  }

  lemma {:induction false} RenderWrites(pixels: seq<bv8>, origin: nat, pitch: nat, b: Bitmap, k: nat, j: nat)
    requires CellFits(|pixels|, origin, pitch) && pitch >= BLOCK_WIDTH
    requires j < k <= BLOCK_WIDTH * BLOCK_HEIGHT
    ensures RenderPos(origin, pitch, j) < |pixels|
    ensures Render(pixels, origin, pitch, b, k)[RenderPos(origin, pitch, j)] == RenderValue(b, j)
  {
    RowFits(|pixels|, origin, pitch, j / BLOCK_WIDTH);
    if j < k - 1 {
      RowFits(|pixels|, origin, pitch, (k - 1) / BLOCK_WIDTH);
      RenderPosInjective(origin, pitch, j, k - 1);
      RenderWrites(pixels, origin, pitch, b, k - 1, j);
    }
  }

  lemma BitsEqual(x: bv8, z: bv8)
    requires forall c :: 0 <= c < BLOCK_WIDTH ==> Bit(x, c) == Bit(z, c)
    ensures x == z
  {
    assert Bit(x, 0) == Bit(z, 0) && Bit(x, 1) == Bit(z, 1) && Bit(x, 2) == Bit(z, 2);
    assert Bit(x, 3) == Bit(z, 3) && Bit(x, 4) == Bit(z, 4) && Bit(x, 5) == Bit(z, 5);
    assert Bit(x, 6) == Bit(z, 6) && Bit(x, 7) == Bit(z, 7);
  }

  /** Rendering a bitmap (255 for set bits, 0 for clear ones) and thresholding the
      rendered cell again gives the bitmap back, for any threshold below 255. */
  lemma RenderThenBuild(pixels: seq<bv8>, origin: nat, pitch: nat, b: Bitmap, threshold: bv8)
    requires CellFits(|pixels|, origin, pitch) && pitch >= BLOCK_WIDTH && threshold < 255
    ensures BuildBits(Render(pixels, origin, pitch, b, BLOCK_WIDTH * BLOCK_HEIGHT), origin, pitch, threshold) == b
  {
    var r := Render(pixels, origin, pitch, b, BLOCK_WIDTH * BLOCK_HEIGHT);
    forall y | 0 <= y < BLOCK_HEIGHT
      ensures BuildBits(r, origin, pitch, threshold)[y] == b[y]
    {
      forall c | 0 <= c < BLOCK_WIDTH
        ensures Bit(BuildBits(r, origin, pitch, threshold)[y], c) == Bit(b[y], c)
      {
        var k := y * BLOCK_WIDTH + c;
        assert k / BLOCK_WIDTH == y && k % BLOCK_WIDTH == c;
        RenderWrites(pixels, origin, pitch, b, BLOCK_WIDTH * BLOCK_HEIGHT, k);
        BuildBitsMeaning(r, origin, pitch, threshold, y, c);
      }
      BitsEqual(BuildBits(r, origin, pitch, threshold)[y], b[y]);
    }
  }
}
