# tiled-video core in Dafny

tiled-video converts a sequence of video frames into one-bit tiles for Amiga
playback. Every frame is cut into cells. Each cell is thresholded into a
bitmap, and the bitmap is stored once in a content-addressed store. There it
is deduplicated under eight orientations: flip-x, flip-y and invert, in any
combination. In the block store this deduplication is exact. In the tile
store it is not, because the byte shuffle of `tile_flip_x` loses bits (see
"## Findings"). A frame is then a grid of store references. A lossy pass
can let a rarely used bitmap stand in for a similar, more used one before the
store is compacted. The data are written out through a bit packer.

This project models that core and proves what it promises:

- `Bytes`: the byte primitives shared by the stores. These are the
  three-step population count `count_bits`, bit reversal, and sums of
  population counts over byte strings.
- `Refs`: the 32-bit store reference. The low 29 bits hold an offset and the
  top three bits hold the orientation flags. The all-ones word is the
  "no entry" sentinel.
- `BlockBits`: the 8×8 bitmaps of `src/blocks.c`. This covers
  `build_block`, `block_render`, `hash_block`, `block_diff` and the three
  transforms.
- `BlockStore`: the block store of `src/blocks.c`. It has 256 hash buckets
  whose chains are threaded through the blocks. This module covers
  `blocks_init`, `blocks_get`, `blocks_match`, `blocks_insert`, `blocks_save`
  and `blocks_load`.
- `BlockReduce`: the lossy passes of `src/blocks.c`, which are
  `blocks_find_matches`, `blocks_reduce` and `blocks_rebuild`.
- `TileStore`: the older 16×16 tile store of `src/tiles.c`. This covers
  `build_hash`, `build_tile`, the tile transforms (flip-x as written and as
  evidently intended), `tiles_create`,
  `tiles_match`, `tiles_insert`, `tile_diff` and `tiles_compare`.
- `BitStream`: the bit packer and reader of `src/bits.c`. It proves that
  values written with `bits_write` and then flushed read back from
  `bits_read` as their low bits.
- `Growth` and `Frames`: the capacity-doubling frame list of `src/frames.c`.
- `Converter`: the three growable arenas of the top-level `converter.c`
  (`tile_alloc`, `frame_alloc`, `stream_alloc`). It also covers
  `tile_compare`, the squared Hamming distance of two tiles, optionally with
  one of them mirrored.

Each stateful operation is a pure function or method from the old state to
the new one. Stores are immutable records: a sequence of entries plus a
sequence of bucket heads. The C pointers and the `buffer_*` arena become
sequence indices and appends.

## Model

| member | source | states |
|---|---|---|
| Bytes.CountBitsWordSumsBits | src/blocks.c:59-64 | the three mask-and-add steps of `count_bits` add up the eight single bits of the byte |
| Bytes.CountBitsIsPopcount | src/blocks.c:59-64 | `count_bits` equals the number of set bits of the byte (reference count `Ones`) |
| Bytes.CountBitsWord | src/blocks.c:59-64 | `count_bits`: the three mask-and-add steps on one byte; `Bytes.CountBitsIsPopcount` proves the result is the number of set bits |
| Bytes.CountBitsFacts | src/tiles.c:7-12 | the count is at most 8; it is 0 exactly for the zero byte; the complement has 8 minus the count; bit reversal keeps it |
| Bytes.CountBitsTriangle | src/blocks.c:134-144 | the count of a byte is at most that of another byte plus the count of their xor |
| Bytes.Reverse8Reverses | src/blocks.c:89-91 | the three swap steps move bit i to bit 7 - i |
| Bytes.Reverse8Involutive | src/blocks.c:89-91 | reversing a byte twice gives the byte back |
| Bytes.Reverse8Complement | src/blocks.c:89-91 | reversal commutes with complement |
| Bytes.Reverse8 | src/blocks.c:89-91 | the byte shuffle of `block_flip_x`; `Bytes.Reverse8Reverses` proves it moves bit i to bit 7 - i |
| Bytes.PopSumAppend | src/blocks.c:66-75 | the hash loop is additive over concatenation |
| Bytes.PopSumBound | src/blocks.c:66-75 | the summed count of n bytes is at most 8n |
| Bytes.PopSumZero | src/blocks.c:66-75 | the summed count is 0 exactly when every byte is 0 |
| Bytes.PopSumRev | src/blocks.c:98-108 | reordering the bytes back to front keeps the summed count |
| Bytes.PopSumReverseEach | src/blocks.c:77-96 | reversing every byte keeps the summed count |
| Bytes.PopSumComplement | src/blocks.c:110-116 | a byte string and its complement together count 8 per byte |
| Bytes.HammingSymmetric | src/blocks.c:134-144 | the xor-popcount distance is symmetric |
| Bytes.HammingBounds | src/blocks.c:134-144 | the distance is at most 8 per byte and is 0 exactly for equal strings |
| Bytes.PopSumDistance | src/blocks.c:134-144 | two strings' popcounts differ by at most their distance |
| Refs.PackUnpack | src/blocks.h:10-15 | every 32-bit word decodes by masking into sentinel or offset plus flags, and encodes back to the same word |
| Refs.UnpackPack | src/blocks.h:10-15 | every reference with offset at most 2^29 - 2 survives encode then decode |
| Refs.SentinelCollision | src/blocks.h:11-15 | offset 2^29 - 1 with all three flags encodes to the sentinel, so only offsets up to 2^29 - 2 (`MAX_TILE_INDEX`) survive encoding; neither store enforces that bound |
| Refs.Pack | src/blocks.c:177 | `variant` or-ed with `index`: the flags in the top three bits above the offset, and the sentinel for no entry; `Refs.UnpackPack` proves that decoding gives the reference back |
| Refs.Unpack | src/blocks.c:120-128 | `index & ~BLOCK_BITS_MASK` and the flag tests of `blocks_get`, with the sentinel recognised first; `Refs.PackUnpack` proves every word encodes back to itself |
| BlockBits.HashRange | src/blocks.c:66-75 | `hash_block` lies in 0..64, so masking it with 255 leaves it unchanged |
| BlockBits.Hash | src/blocks.c:66-75 | `hash_block`: the number of set bits of the eight rows; `BlockBits.HashRange` bounds it |
| BlockBits.DiffIsHamming | src/blocks.c:134-144 | `block_diff` is symmetric, at most 64, 0 exactly for equal bitmaps, and bounds the difference of the two hashes |
| BlockBits.Diff | src/blocks.c:134-144 | `block_diff`: the summed popcount of the xor of the rows; `BlockBits.DiffIsHamming` states its properties |
| BlockBits.FlipXMirrors | src/blocks.c:77-96 | `block_flip_x` puts pixel (7 - x, 7 - y) at (x, y): it mirrors the columns and also reverses the row order |
| BlockBits.FlipX | src/blocks.c:77-96 | `block_flip_x`: row y of the result is row 7 - y bit-reversed; `BlockBits.FlipXMirrors` proves pixel (x, y) comes from (7 - x, 7 - y) |
| BlockBits.FlipY | src/blocks.c:98-108 | `block_flip_y`: row y of the result is row 7 - y; `BlockBits.TransformsAreInvolutions` proves it undoes itself |
| BlockBits.Invert | src/blocks.c:110-116 | `block_invert`: every row complemented; `BlockBits.TransformsAreInvolutions` proves it undoes itself |
| BlockBits.Transform | src/blocks.c:122-129 | flip-x, then flip-y, then invert, each when its flag is set; `BlockBits.TransformTwice` proves each orientation undoes itself |
| BlockBits.TransformsAreInvolutions | src/blocks.c:77-116 | each of the three transforms undoes itself |
| BlockBits.TransformsAndHash | src/blocks.c:77-116 | both flips keep the hash, and invert maps hash h to 64 - h |
| BlockBits.TransformRow | src/blocks.c:118-132 | row y of a flagged bitmap is a source row adjusted by reversal and complement, depending on the flags |
| BlockBits.AdjustRowCompose | src/blocks.c:118-132 | adjusting a row by flags f and then by g is adjusting it by f xor g |
| BlockBits.XorFlags | src/blocks.h:12-15 | a flag is set in f xor g exactly when it is set in one of them |
| BlockBits.TransformCompose | src/blocks.c:118-132 | applying orientation f and then g is orientation f xor g |
| BlockBits.TransformTwice | src/blocks.c:118-132 | applying the same orientation twice gives the bitmap back |
| BlockBits.RowBitsStep | src/blocks.c:43-46 | one step of the inner shift loop keeps the bits gathered so far in place and adds the next pixel's bit |
| BlockBits.RowBitAt | src/blocks.c:43-46 | after step i, bit j of the accumulator is the threshold test of its pixel |
| BlockBits.RowBitsMeaning | src/blocks.c:43-46 | the finished shift loop holds every pixel of the row at its bit |
| BlockBits.BuildBitsMeaning | src/blocks.c:34-49 | bit c of row y of the built bitmap is set exactly when pixel (c, y) is above the threshold |
| BlockBits.BuildBits | src/blocks.c:34-49 | the eight thresholded rows of `build_block`; `BlockBits.BuildBitsMeaning` proves which pixel each bit holds |
| BlockBits.Render | src/blocks.c:326-340 | `block_render` leaves the pixel buffer's length unchanged, and every pixel that none of its 64 writes addresses keeps its value |
| BlockBits.RenderPosInjective | src/blocks.c:326-340 | with a pitch of at least 8, no two bitmap positions render to the same pixel |
| BlockBits.RenderWrites | src/blocks.c:326-340 | each rendered pixel is 255 for a set bit and 0 for a clear one |
| BlockBits.RenderThenBuild | src/blocks.c:34-57 | thresholding a rendered bitmap below 255 gives the same bitmap back |
| BlockStore.VariantRank | src/blocks.c:6-17 | every flag combination has a position in `block_variants` |
| BlockStore.RankOfVariant | src/blocks.c:6-17 | the position of the v-th variant is v, so the list holds each combination once |
| BlockStore.Init | src/blocks.c:21-27 | `blocks_init` gives an empty, consistent store with every bucket empty |
| BlockStore.ChainStable | src/blocks.c:194-201 | appending blocks leaves every existing chain as it was |
| BlockStore.FindInChain | src/blocks.c:164-172 | the chain walk stops at the first block with an identical bitmap; it reaches the end only when the chain holds none |
| BlockStore.FindInBucket | src/blocks.c:163-172 | in a consistent store, the walk of a bitmap's bucket misses exactly when no stored block has that bitmap |
| BlockStore.FindInBucketNewest | src/blocks.c:163-172 | in a consistent store, the block the bucket walk finds is the newest block of the whole store with that bitmap |
| BlockStore.MatchFrom | src/blocks.c:150-181 | the variant loop from position v: a hit is the first variant whose oriented bitmap is stored, and the named block holds it; a miss means none from v on is stored |
| BlockStore.MatchFromNewest | src/blocks.c:163-177 | the block the variant loop returns is the newest with its bitmap, since each chain runs from newer to older blocks |
| BlockStore.Match | src/blocks.c:148-182 | `blocks_match` returns the first-ranked hit, and `blocks_get` of it reproduces the bitmap; the named block is the newest with its bitmap; it returns the sentinel exactly when no orientation of the bitmap is stored |
| BlockStore.Get | src/blocks.c:118-132 | `blocks_get` orients the stored bitmap by the reference's flags; orienting the result the same way again gives the stored bitmap back |
| BlockStore.MatchFromAll | src/blocks.c:148-182 | starting the variant loop at position 0 covers all eight orientations |
| BlockStore.Push | src/blocks.c:194-205 | appending puts the new block at the old size with the old bucket head as its link, and makes it the bucket head; the store stays consistent |
| BlockStore.PushValid | src/blocks.c:194-205 | the append keeps the store consistent |
| BlockStore.PushKeepsBlocksOnChains | src/blocks.c:199-201 | after the append every block is still on the chain of its own bucket |
| BlockStore.PushKeepsChainsInBuckets | src/blocks.c:199-201 | after the append every chain holds only blocks of its bucket |
| BlockStore.PushChains | src/blocks.c:199-201 | the new block's bucket chain gains exactly the new block at its front, and every other chain is unchanged |
| BlockStore.Insert | src/blocks.c:184-208 | on a hit `blocks_insert` returns the match and adds one user to it; on a miss it appends the block with count 1, no remap and no flags; either way `blocks_get` of the result reproduces the bitmap |
| BlockStore.AddUser | src/blocks.c:187-191 | adding a user changes only that block's count, by one |
| BlockStore.BumpValid | src/blocks.c:189-190 | raising a count keeps the store consistent |
| BlockStore.InsertVariantDeduplicates | src/blocks.c:184-208 | after inserting a bitmap, inserting any orientation of it allocates nothing and adds a user |
| BlockStore.UniformTransform | src/blocks.c:77-116 | flips leave an all-clear or all-set bitmap unchanged, and invert swaps the two |
| BlockStore.UniformBitmapsShareABlock | src/blocks.c:184-208 | the all-set bitmap inserted after the all-clear one is the inverted reference to block 0; the store keeps one block |
| BlockStore.UniformInverseMatch | src/blocks.c:148-182 | with only the all-clear block stored, the all-set bitmap matches it under invert |
| BlockStore.MatchNoLaterThan | src/blocks.c:150-179 | when the variant at position v is stored, the match ranks no later than v |
| BlockStore.UniformFoundInverted | src/blocks.c:118-132 | a reference that resolves an all-clear block to the all-set bitmap carries invert |
| BlockStore.EarlyInversionIsInvert | src/blocks.c:6-11 | among the first three variants, the only one with invert is invert alone |
| BlockStore.Flatten | src/blocks.c:427-434 | the concatenated bitmaps take 8 bytes per block |
| BlockStore.FlattenAt | src/blocks.c:427-434 | byte y of block i's bitmap sits at position 8i + y |
| BlockStore.Save | src/blocks.c:427-434 | `blocks_save` appends every block's 8 bytes after what was in the buffer, in store order |
| BlockStore.LoadFrom | src/blocks.c:405-422 | the load loop appends one block per 8 input bytes, with that bitmap, count 0 and no remap, and advances the offset by 8 each time |
| BlockStore.Load | src/blocks.c:398-425 | `blocks_load` appends `count` blocks read from the offset on and returns the offset just past them |
| BlockStore.LoadFromEmptyValid | src/blocks.c:412-415 | loading into an empty store gives a consistent store: the bucket head `i` names the block just loaded |
| BlockStore.SavedChunk | src/blocks.c:427-434 | the k-th 8 bytes of a save are block k's bitmap |
| BlockStore.SaveThenLoad | src/blocks.c:398-434 | loading a saved store into an empty one gives a consistent store with the same bitmaps in the same order |
| BlockStore.BuildBlock | src/blocks.c:34-57 | `build_block` gives the thresholded bitmap with count 1, no link, no remap and no incoming count |
| BlockReduce.InWindowStep | src/blocks.c:237-239 | a bucket is in the window from step k exactly when it is step k's key or in the window from step k + 1 |
| BlockReduce.ScanChain | src/blocks.c:243-261 | the chain scan either keeps the best so far, because nothing on the chain qualifies and improves on it, or returns a qualifying block within the bound that no later qualifying block beats |
| BlockReduce.BucketChain | src/blocks.c:241-243 | in a consistent store, a block is on a bucket's chain exactly when its bitmap hashes to that bucket |
| BlockReduce.ScanKeys | src/blocks.c:237-262 | scanning the window keys from step k yields the outcome of scanning all of them |
| BlockReduce.ScanKeysStep | src/blocks.c:237-262 | one key scanned, then the rest, is the scan of the window from k |
| BlockReduce.BestMatch | src/blocks.c:222-263 | the search returns a block within the error bound, found in the window, with more users and unflipped; it returns nothing exactly when there is no such block |
| BlockReduce.SameShapeValid | src/blocks.c:265-268 | changing only remap and count fields keeps the store consistent |
| BlockReduce.FindMatchesWith | src/blocks.c:210-274 | every used block with a candidate gets the best one as its remap, and every other block is untouched |
| BlockReduce.FindMatches | src/blocks.c:210-274 | `blocks_find_matches` as written visits the 2m buckets from hash - m to hash + m - 1, tries only variant 0, and remaps a used block to its best candidate |
| BlockReduce.FindMatchesCorrected | src/blocks.c:237-239 | the pass with the window's upper end included, hash - m to hash + m |
| BlockReduce.CorrectedWindowCoversBound | src/blocks.c:237-256 | with the upper end included, every block within the bound that has more users is a candidate |
| BlockReduce.SampleFacts | src/blocks.c:184-208 | the two-block example store: an all-clear block with one user and a one-pixel block with two users, at distance 1 |
| BlockReduce.WindowMissesUpperEnd | src/blocks.c:237-239 | on the example with bound 1, the pass as written leaves block 0 without a remap although block 1 qualifies; the corrected window remaps it to block 1 |
| BlockReduce.SampleMissedAsWritten | src/blocks.c:237-239 | the as-written pass gives block 0 of the example no remap |
| BlockReduce.SampleFoundCorrected | src/blocks.c:237-239 | the corrected pass remaps block 0 of the example to block 1 |
| BlockReduce.HashOfSamples | src/blocks.c:66-75 | the example bitmaps hash to 0 and 1 |
| BlockReduce.FindMatchesClimbs | src/blocks.c:249-260 | the pass only points a block at one with strictly more users, so remaps keep climbing and cannot form a cycle |
| BlockReduce.AccExtend | src/blocks.c:289-291 | extending a walk does not change the users accumulated over its prefix |
| BlockReduce.BelowAcc | src/blocks.c:291-295 | on a walk of two or more used blocks, each block has fewer users than the walk together |
| BlockReduce.MaxCount | src/blocks.c:289-304 | no block has more users than the maximum, which bounds the accumulated count |
| BlockReduce.WalkExtend | src/blocks.c:295-303 | going on to a target with at least as many users as the walk accumulated keeps it a walk with distinct offsets |
| BlockReduce.WalkEndOnce | src/blocks.c:289-304 | the end of a walk occurs earlier in it only on a two-step walk back to its root |
| BlockReduce.ReduceRoot | src/blocks.c:280-319 | one root: a block without users or remap is skipped; otherwise its walk is collapsed |
| BlockReduce.FollowWalk | src/blocks.c:286-304 | the first loop follows remaps while the target has at least the accumulated users; where a target has fewer, the end takes the whole count and drops its remap; only the end of the walk changes, and it is left without a remap |
| BlockReduce.FollowStep | src/blocks.c:291-303 | one hop keeps the loop state and raises the accumulated count |
| BlockReduce.TakeOver | src/blocks.c:295-300 | where the remap target has fewer users than the walk accumulated, the end of the walk takes the whole accumulated count (its own users included) and drops its remap; nothing else changes |
| BlockReduce.FinishCollapse | src/blocks.c:306-319 | the second loop retires every block of the walk before the end: count 0, remap index naming the end |
| BlockReduce.RetireWalk | src/blocks.c:306-319 | retiring a walk rewrites exactly the blocks on it before its end |
| BlockReduce.CollapsedEffect | src/blocks.c:280-319 | a collapse changes only used blocks with a remap: each either keeps users and loses its remap, or loses its users and points at a survivor |
| BlockReduce.ReduceStep | src/blocks.c:280-322 | one root's collapse keeps the outer-loop invariant |
| BlockReduce.Reduce | src/blocks.c:276-324 | `blocks_reduce` keeps bitmaps and links, leaves blocks without users or remap alone, and afterwards every used block has no remap, while every block that lost its users points at a used block with no remap |
| BlockReduce.ReduceKeepsValid | src/blocks.c:276-324 | reduction keeps a consistent store consistent |
| BlockReduce.LiveCount | src/blocks.c:352-377 | the new offset of a used block is at most its old one |
| BlockReduce.LiveCountMono | src/blocks.c:352-377 | new offsets are increasing in the old ones, strictly across a used block |
| BlockReduce.OrFlags | src/blocks.c:385-389 | or-ing flags into a reference keeps its offset and adds those flags |
| BlockReduce.CopyDead | src/blocks.c:355-359 | a block without users gets a sentinel entry in the first loop and is not copied |
| BlockReduce.LiveCountSkips | src/blocks.c:355-359 | a block without users takes no new offset |
| BlockReduce.PlacedDead | src/blocks.c:355-359 | skipping a block without users keeps the copied blocks in place |
| BlockReduce.OverwrittenDead | src/blocks.c:355-359 | skipping it leaves its old remap field alone |
| BlockReduce.PlacedLive | src/blocks.c:361-376 | a used block is copied to the next new offset with its bitmap and count |
| BlockReduce.OverwrittenLive | src/blocks.c:373 | the old block's remap field is overwritten with its new offset |
| BlockReduce.CopyLive | src/blocks.c:361-376 | copying a used block keeps the first loop's invariant |
| BlockReduce.RebuildCopy | src/blocks.c:344-377 | the first loop copies exactly the used blocks, in order, with count, no remap and zero incoming count, and records their new offsets |
| BlockReduce.CopyOne | src/blocks.c:352-377 | one iteration of the first loop keeps its invariant |
| BlockReduce.RebuildResolve | src/blocks.c:379-390 | the second loop gives each block without users its target's overwritten remap, or-ed with its own flags |
| BlockReduce.Rebuild | src/blocks.c:342-393 | `blocks_rebuild` produces a consistent store of exactly the used blocks, densely and in order, and a table sending each old offset to its new place |
| BlockReduce.RebuildTableTotal | src/blocks.c:342-393 | for a store whose unused blocks all point at used blocks, every table entry names a block of the new store holding the old bitmap, or the bitmap of its stand-in |
| BlockReduce.SettledWhenAllUsed | src/blocks.c:276-324 | if every block had users before `blocks_reduce`, every block without users afterwards points at a used block without a remap |
| BlockReduce.ReduceThenRebuild | src/blocks.c:276-393 | `blocks_reduce` then `blocks_rebuild` on a store whose blocks all have users: bitmaps are kept, every block that lost its users points at a used block, and the table is total, naming for each old offset a block holding its bitmap or its stand-in's |
| TileStore.HashRange | src/tiles.c:14-24 | `build_hash` of a tile lies in 0..256, and only 256 itself changes bucket when reduced modulo 256 |
| TileStore.BuildHash | src/tiles.c:14-24 | `build_hash` over a tile: the number of set bits of its 32 bytes; `TileStore.HashRange` bounds it |
| TileStore.RowFits | src/tiles.c:30-37 | every pixel row the builder reads lies inside the pixel buffer |
| TileStore.RowByteStep | src/tiles.c:35-38 | one shift step keeps the earlier pixels in place and adds the next pixel's bit |
| TileStore.RowByteMeaning | src/tiles.c:34-38 | the finished shift loop holds pixel i of the group at bit 7 - i |
| TileStore.TileBitsMeaning | src/tiles.c:26-41 | bit 7 - x % 8 of byte x / 8 + 2y is set exactly when pixel (x, y) is above the threshold |
| TileStore.TileBitsAt | src/tiles.c:30-40 | byte k of the tile is the shift loop over the 8 pixels at row k / 2, column 8 (k % 2) |
| TileStore.RowByteBit | src/tiles.c:35-38 | bit j of the shifted byte is the test of pixel 7 - j of its group |
| TileStore.ByteOfPixel | src/tiles.c:39 | the byte index x / 8 + 2y is in range and names column group x / 8 of row y |
| TileStore.TileBitsThresholded | src/tiles.c:26-41 | the built tile is the thresholded image of the cell |
| TileStore.TileBits | src/tiles.c:26-41 | the 32 thresholded bytes of `build_tile`; `TileStore.TileBitsMeaning` proves which pixel each bit holds |
| TileStore.BuildTile | src/tiles.c:26-46 | `build_tile` gives the thresholded bits with count 1 and both links the sentinel |
| TileStore.Mirror | src/tiles.c:67-78 | the mirrored byte position is in range |
| TileStore.RowSwap | src/tiles.c:89-91 | the row-swapped byte position is in range |
| TileStore.IndexMaps | src/tiles.c:62-94 | mirroring positions and swapping rows are each their own inverse and commute |
| TileStore.TileFlipXAsWrittenPlaces | src/tiles.c:62-82 | `tile_flip_x` as written puts row y into row 15 - y with the bytes swapped and each byte shuffled |
| TileStore.TileFlipXAsWritten | src/tiles.c:62-82 | `tile_flip_x` as written: byte x of row y, shuffled, goes to byte 1 - x of row 15 - y, as `TileStore.TileFlipXAsWrittenPlaces` states |
| TileStore.TileFlipY | src/tiles.c:84-94 | `tile_flip_y`: row y goes to row 15 - y; `TileStore.TileTransformsAreInvolutions` proves it undoes itself |
| TileStore.TileInvert | src/tiles.c:96-102 | `tile_invert`: every byte complemented; `TileStore.TileTransformsAreInvolutions` proves it undoes itself |
| TileStore.TileFlipXAsWrittenCollides | src/tiles.c:74-76 | the shuffle as written sends 0x02 and 0x04 to the same byte, so `tile_flip_x` maps two distinct tiles to one and is no involution |
| TileStore.TileTransformsAreInvolutions | src/tiles.c:62-102 | the corrected flip-x, flip-y and invert each undo themselves |
| TileStore.TileFlipXMirrors | src/tiles.c:62-82 | the corrected flip-x moves pixel (x, y) to (15 - x, 15 - y) |
| TileStore.SwapPairs | src/tiles.c:78 | swapping the two bytes of each row keeps the length |
| TileStore.PopSumSwapPairs | src/tiles.c:78 | swapping the bytes of each row keeps the popcount |
| TileStore.TileTransformsAndHash | src/tiles.c:84-102 | `tile_flip_y` keeps `build_hash`, and `tile_invert` maps hash h to 256 - h |
| TileStore.TileFlipXKeepsHash | src/tiles.c:62-82 | the corrected flip-x keeps `build_hash` |
| TileStore.TileFlipXAsWrittenChangesHash | src/tiles.c:74-76 | `tile_flip_x` as written shuffles byte 0x06 to 0x20, so the tile of 0x06 bytes (hash 64) flips to the tile of 0x20 bytes (hash 32) |
| TileStore.SourceByte | src/tiles.c:125-130 | each byte of an oriented tile comes from a byte in range |
| TileStore.TileTransformByte | src/tiles.c:120-130 | each byte of an oriented tile is a moved source byte, shuffled as `tile_flip_x` does when flipped horizontally and complemented when inverted |
| TileStore.TileTransform | src/tiles.c:123-130 | flip-x as written, then flip-y, then invert, each when its flag is set; `TileStore.TileTransformByte` gives each byte of the result |
| TileStore.TileTransformCorrectedByte | src/tiles.c:62-82 | with the corrected flip-x, each byte of an oriented tile is a moved source byte, bit-reversed and complemented as the flags say |
| TileStore.TileFlipX | src/tiles.c:62-82 | `tile_flip_x` with the bit reversal of `block_flip_x`; `TileStore.TileFlipXMirrors` proves it maps pixel (x, y) from (15 - x, 15 - y) |
| TileStore.TileTransformCorrected | src/tiles.c:123-130 | the orientation transform with the corrected flip-x |
| TileStore.TileTransformCorrectedTwice | src/tiles.c:62-102 | with the corrected flip-x, applying the same orientation twice gives the tile back |
| TileStore.TileTransformWithoutFlipX | src/tiles.c:125-130 | an orientation without flip-x is the same as written and corrected, and undoes itself |
| TileStore.UniformTransform | src/tiles.c:120-130 | every orientation of a tile of equal bytes is again a tile of equal bytes, its byte adjusted as the flags say |
| TileStore.Create | src/tiles.c:48-58 | `tiles_create` gives an empty, consistent store of capacity 0 with every bucket empty; the registration in the stream is left out |
| TileStore.ChainStable | src/tiles.c:176-181 | appending tiles leaves the existing chains as they were |
| TileStore.FindInChain | src/tiles.c:135-143 | the chain walk stops at the first tile with identical bits, so no newer tile on the chain has them; it ends only if the chain holds none |
| TileStore.FindInBucketNewest | src/tiles.c:132-143 | in a consistent store, the tile the bucket walk finds is the newest tile of the whole store with those bits |
| TileStore.FindInBucket | src/tiles.c:132-143 | the bucket walk misses exactly when no stored tile has those bits |
| TileStore.LookupFrom | src/tiles.c:120-152 | the permutation loop from position v: the first permutation whose oriented tile is stored wins, and the named entry holds that oriented tile; a miss means none from v on is stored |
| TileStore.Lookup | src/tiles.c:104-155 | the hit is the first-ranked stored orientation, with flip-x as written, and the named entry is the newest holding the searched tile under those flags; a miss means no orientation is stored |
| TileStore.LookupFromNewest | src/tiles.c:132-150 | the tile the permutation loop returns is the newest with its bits |
| TileStore.LookupAll | src/tiles.c:104-155 | the loop over the eight permutations covers every flag set: it misses exactly when no orientation is stored, and a hit names the entry holding the tile under the returned flags |
| TileStore.BumpValid | src/tiles.c:147-148 | raising a count keeps the store consistent |
| TileStore.TilesMatch | src/tiles.c:104-155 | `tiles_match` adds a user to the tile it finds, and on a miss changes nothing |
| TileStore.AddUser | src/tiles.c:147-148 | adding a user changes only that tile's count, by one |
| TileStore.Grow | src/tiles.c:165-174 | a full store grows to 1024 the first time and doubles afterwards; capacity always exceeds the size |
| TileStore.AppendValid | src/tiles.c:176-181 | putting the new tile at the old size, at the head of its bucket, keeps the store consistent |
| TileStore.AppendChains | src/tiles.c:178-181 | the new tile's bucket chain gains it at the front; other chains are unchanged |
| TileStore.TilesInsert | src/tiles.c:157-184 | `tiles_insert` returns the match on a hit; on a miss it appends the tile at index `size` at the head of its bucket, growing the capacity by the growth rule and keeping every existing tile; either way the named entry holds the inserted tile under the returned flags |
| TileStore.InsertTwiceAllocatesOnce | src/tiles.c:157-184 | inserting the same tile twice allocates once and returns the same index |
| TileStore.LookupAsWrittenConflates | src/tiles.c:104-155 | with only the tile of 0x20 bytes stored, `tiles_match` answers both the tile of 0x02 bytes and the different tile of 0x04 bytes with entry 0 under flip-x |
| TileStore.DiffRank | src/tiles.c:190-200 | every flag combination has a position in the `tile_diff` order |
| TileStore.DiffScan | src/tiles.c:205-228 | the scan keeps the least error over all permutations, the earliest one winning ties |
| TileStore.DiffScanStep | src/tiles.c:217-227 | one permutation replaces the best so far only when its error is strictly smaller |
| TileStore.TileDiff | src/tiles.c:186-232 | `tile_diff` returns the least Hamming distance over the eight orientations of b, and the first permutation in its list that attains it |
| TileStore.TileDiffFacts | src/tiles.c:186-232 | for equal tiles it returns 0 with permutation 0, and never more than 128 |
| TileStore.TileDiffAsWritten | src/tiles.c:186-232 | `tile_diff` of the tile of 0x20 bytes against the tile of 0x02 bytes is 0, under flip-x |
| TileStore.TilesCompare | src/tiles.c:235-266 | `tiles_compare` skips the pattern tile and tiles without users, keeps the least error with ties going further along the chain, and returns the sentinel, error ~0 and permutation 0 when no tile is eligible |
| TileStore.ChainAdvance | src/tiles.c:242-260 | following one link moves one step along the chain |
| TileStore.CompareAdvance | src/tiles.c:244-260 | one chain entry keeps the scan's invariant |
| TileStore.CompareStep | src/tiles.c:252-258 | a tie or a smaller error takes over the candidate |
| BitStream.ShrLow | src/bits.c:66-68 | a value splits into its high part shifted back and its low k bits |
| BitStream.ShlUnique | src/bits.c:68 | a high part shifted above k low bits can be recovered from their sum |
| BitStream.MsbSplit | src/bits.c:68 | the k + m low bits of a value, most significant first, are the k bits above the low m followed by the low m |
| BitStream.MsbInjective | src/bits.c:66-68 | two values with the same k bits written out have the same low k bits |
| BitStream.StreamAppend | src/bits.c:71-75 | appending a byte appends its 8 bits, most significant first, to the stream |
| BitStream.Chunks | src/bits.c:63-82 | the bits a write of n bits contributes number n |
| BitStream.ChunksFirst | src/bits.c:65-82 | a write first places the min(8 - pending, n) low bits of the value, then continues with the rest |
| BitStream.ChunksInjective | src/bits.c:58-86 | writes of two values with the same layout agree on the low n bits |
| BitStream.ChunksExtend | src/bits.c:103-110 | a chunk read above the bits already read extends the layout by that chunk |
| BitStream.InitWrite | src/bits.c:5-11 | `bits_init_write` gives an empty writer in write mode with nothing pending |
| BitStream.PackChunk | src/bits.c:65-69 | or-ing a chunk into the pending byte leaves the bits below the filled ones clear |
| BitStream.PackChunkPlaces | src/bits.c:65-69 | the chunk lands right after the bits already pending, most significant first |
| BitStream.WriteChunk | src/bits.c:63-82 | one step writes min(8 - pending, count) bits and emits a byte exactly when 8 bits are pending; earlier bytes stay and the pending count stays below 8 |
| BitStream.WriteChunkWrites | src/bits.c:63-82 | one step appends the chunk's bits to what was written |
| BitStream.WriteLoop | src/bits.c:63-85 | the loop emits one byte per 8 pending bits and leaves (pending + count) % 8 bits pending |
| BitStream.WriteLoopWrites | src/bits.c:58-86 | the loop appends the value's chunks to what was written |
| BitStream.Write | src/bits.c:58-86 | `bits_write` appends the value's chunk layout; a write of 0 bits changes nothing |
| BitStream.Flush | src/bits.c:22-32 | `bits_flush` emits the pending byte, zero-padded in its low bits, only when bits are pending, and clears the pending state; the buffer then holds ceil(B / 8) bytes for B bits written |
| BitStream.FlushPads | src/bits.c:24-28 | a partly filled byte is its pending bits followed by zeros |
| BitStream.InitRead | src/bits.c:13-20 | `bits_init_read` gives a reader at offset 0 whose remaining bits are the whole input |
| BitStream.Remaining | src/bits.c:88-111 | a reader has as many bits left as are pending plus 8 per unread byte |
| BitStream.Fetch | src/bits.c:97-101 | a byte is fetched only when nothing is pending; it makes 8 bits pending and advances the offset by one |
| BitStream.FetchKeepsRemaining | src/bits.c:97-101 | fetching does not change the bits still to be read |
| BitStream.ReadChunk | src/bits.c:95-111 | one step takes min(pending, wanted) bits from the top of the pending ones, and fetches first when none are pending |
| BitStream.ReadChunkTakes | src/bits.c:103-110 | the chunk taken is the front of the remaining bits |
| BitStream.NextChunk | src/bits.c:95-111 | the reader's step satisfies the chunk-taking relation |
| BitStream.ReadStep | src/bits.c:95-111 | one step of the read loop advances and keeps its invariant |
| BitStream.ReadStepKeeps | src/bits.c:103-110 | a chunk or-ed in above the bits already read keeps the loop invariant |
| BitStream.ReadPlaceStep | src/bits.c:97-110 | the offset advances by one per fetched byte |
| BitStream.Read | src/bits.c:88-117 | `bits_read` returns a value below 2^count whose chunk layout is the front of the remaining bits; it advances the offset by one per fetched byte; reading 0 bits returns 0 and changes nothing |
| BitStream.Layout | src/bits.c:58-86 | a sequence of writes contributes exactly as many bits as it writes |
| BitStream.LayoutFirst | src/bits.c:58-86 | the layout of several writes is the first write's chunks followed by the rest |
| BitStream.WriteAll | src/bits.c:58-86 | writing a sequence of values appends their layout |
| BitStream.ReadAll | src/bits.c:88-117 | reading a sequence of widths returns values whose layout is the front of the remaining bits |
| BitStream.LayoutInjective | src/bits.c:58-117 | two value sequences with the same layout agree on each value's low bits |
| BitStream.WriteThenRead | src/bits.c:5-117 | writing values with widths up to 32, flushing, then reading the same widths returns each value masked to its width |
| BitStream.Reset | src/bits.c:42-54 | `bits_reset` empties a writer's buffer or rewinds a reader to offset 0, and clears the pending bits in both cases |
| BitStream.Release | src/bits.c:34-40 | `bits_release` frees the buffer only in write mode |
| Growth.Grow | src/frames.c:16-27 | a full array grows beyond its capacity: to the first capacity, or to double |
| Growth.Doubled | src/frames.c:16-27 | after n appends from empty, the capacity holds n and is the first capacity or an even number below 2n |
| Growth.DoubledStep | src/frames.c:16-29 | one more append moves that capacity exactly when the array was full, by the growth rule |
| Frames.Fill | src/frames.c:22 | a fill holds n copies of the value |
| Frames.Blanks | src/frames.c:22 | fresh slots are all blank frames |
| Frames.Create | src/frames.c:5-12 | `frames_create` gives a zeroed, consistent list without slots; the registration in the stream is left out |
| Frames.Add | src/frames.c:14-30 | `frames_add` returns the slot at the old size and raises the size by one; a full list grows to 64 the first time and doubles afterwards; used slots are preserved and the new one reads as all `NO_TILE` |
| Frames.Store | src/frames.c:29 | the caller's write through the returned slot changes only that slot |
| Frames.Append | src/frames.c:14-30 | adding and filling a slot keeps the list consistent and raises the size by one |
| Frames.AppendAll | src/frames.c:14-30 | appending a list of frames raises the size by its length |
| Frames.AppendPlaces | src/frames.c:16-29 | one append keeps the used slots, puts the frame after them, and grows only a full list |
| Frames.AppendAllFromEmpty | src/frames.c:14-30 | appending frames to an empty list stores exactly those frames, in order, with the smallest 64·2^k capacity that holds them |
| Converter.Zeros | video.h:25-28 | the zero frame holds n zero indices |
| Converter.Alloc | converter.c:45-59 | the arena rule: the slot is the old offset, the value is appended, and the reserve grows only when full |
| Converter.TileAlloc | converter.c:45-59 | `tile_alloc` returns slot `tile_offset` and advances it; existing tiles are kept; the reserve moves exactly when the arena is full, to 16 the first time and to double afterwards |
| Converter.FrameAlloc | converter.c:89-103 | `frame_alloc` follows the same slot, preservation and growth rule for frames |
| Converter.AllocAll | converter.c:45-59 | a sequence of allocations adds one slot each and keeps offset at most reserve |
| Converter.AllocAllFromEmpty | converter.c:45-59 | allocating from an empty arena stores exactly the values in order, and leaves the smallest 16·2^k reserve that holds them |
| Converter.Max | converter.c:109 | the conditional in `stream_alloc` is the larger of its two candidates |
| Converter.StreamAlloc | converter.c:105-121 | `stream_alloc` returns the region at the old offset and advances the offset by len; it grows the reserve to max(2·reserve, reserve + len) only when offset + len exceeds it; existing bytes are kept; offset stays at most reserve |
| Converter.StreamAllocAll | converter.c:105-121 | a sequence of stream allocations keeps offset at most reserve |
| Converter.StreamAllocAllFromEmpty | converter.c:105-121 | allocating regions from an empty stream yields their concatenation and a reserve at most twice its length |
| Converter.FlipHalvesMirrors | converter.c:72-78 | with `flip` set, the four swap steps reverse the bits within each 16-bit half of the word |
| Converter.FlipHalvesBit | converter.c:72-78 | bit i of the flipped word is bit 15 - i, or 47 - i in the upper half |
| Converter.FlipHalvesBytes | converter.c:74-77 | the flip swaps bytes within each half and reverses each byte |
| Converter.FlipHalvesFacts | converter.c:72-78 | the flip undoes itself and distributes over xor |
| Converter.FlipHalves | converter.c:72-78 | the four swap steps under `flip`; `Converter.FlipHalvesMirrors` proves each 16-bit half comes out bit-reversed |
| Converter.CountByteBits | converter.c:81-82 | the first two popcount steps leave, in each byte, that byte's count |
| Converter.CountsByte0 | converter.c:81-82 | byte 0 of the partial counts is the count of byte 0 |
| Converter.CountsByte1 | converter.c:81-82 | byte 1 of the partial counts is the count of byte 1 |
| Converter.CountsByte2 | converter.c:81-82 | byte 2 of the partial counts is the count of byte 2 |
| Converter.CountsByte3 | converter.c:81-82 | byte 3 of the partial counts is the count of byte 3 |
| Converter.ByteCountValue | converter.c:81-82 | each byte's partial count is at most 8 and equals its number of set bits |
| Converter.AddBytes | converter.c:83 | the multiply by 0x01010101 and shift by 24 add the four byte counts |
| Converter.TopByteAdds | converter.c:83 | the top byte of the product is the sum of the four bytes when each is at most 8 |
| Converter.ByteOnesOf | converter.c:81-82 | each byte of the partial counts is the number of set bits of that byte |
| Converter.Popcount | converter.c:80-83 | the popcount steps give the number of set bits of the word |
| Converter.OnesFacts | converter.c:80-83 | a byte has at most 8 set bits, none exactly when it is 0, and reversal keeps the count |
| Converter.ZeroBytes | converter.c:80 | a word is 0 exactly when its four bytes are |
| Converter.WordOnesFacts | converter.c:80-83 | a word has at most 32 set bits, and none exactly when it is 0 |
| Converter.WordOnesFlipHalves | converter.c:72-83 | the flip keeps the number of set bits |
| Converter.WordDistanceFacts | converter.c:80-83 | the word distance is at most 32, is 0 exactly for equal words, and is symmetric |
| Converter.XorFacts | converter.c:80 | the xor is 0 exactly for equal words, and commutes |
| Converter.MirrorTile | converter.c:72-78 | the mirrored tile flips every word |
| Converter.Compared | converter.c:69-78 | the compared tile is b, with every word flipped when `flip` is set |
| Converter.TileCompare | converter.c:61-87 | `tile_compare` returns the square of the Hamming distance between a and the (optionally mirrored) b; it lies in 0..65536 and is 0 exactly when the two are equal |
| Converter.SumDifferences | converter.c:66-84 | the loop adds up the differing bits of the eight word pairs |
| Converter.AddDifference | converter.c:69-83 | one iteration adds the differing bits of the next word pair |
| Converter.DifferingBits | converter.c:69-83 | the bits differing between word da and word db, flipped when asked, are counted |
| Converter.DistanceStep | converter.c:67-84 | the distance over i + 1 words is that over i words plus the next pair's |
| Converter.CompareFacts | converter.c:86 | the square of the distance is at most 65536 and 0 exactly when the tiles agree |
| Converter.CompareSymmetric | converter.c:61-87 | swapping the two tiles gives the same result, with or without `flip` |
| Converter.DistanceBound | converter.c:66-84 | the distance over n words is at most 32n |
| Converter.DistanceZero | converter.c:66-84 | the distance is 0 exactly for equal tiles |
| Converter.DistanceSymmetric | converter.c:66-84 | the distance is symmetric |
| Converter.MirrorSymmetric | converter.c:72-84 | the distance from a to mirrored b equals that from b to mirrored a |
| Converter.MirrorDifference | converter.c:72-83 | for one word pair, mirroring either side gives the same distance |
| Converter.FlipDifference | converter.c:72-80 | flipping v xor flipped w gives w xor flipped v |
| Converter.MirrorTileInvolutive | converter.c:72-78 | mirroring a tile twice gives it back |

## Left out

- I/O and the SDL programs are outside the model. This covers `main` and `load_image` in `converter.c`, the players, renderers and dumpers, the stream files, and the `fprintf` progress lines of `blocks_find_matches` and `blocks_reduce`.
- `buffer.h` is not part of this model. Its arena is a sequence with append and index.
- Memory management is not modelled: `malloc`, `free`, `blocks_release`, `tiles_destroy` and the copying of old arrays. Growth is an append plus a capacity number.
- Fixed-width wrap-around is not modelled. Counts, offsets, reserves and the squared distance are unbounded naturals. This covers the `uint32_t` counts, `stream_offset + len`, `tile_reserve * 2`, and `size_t` sizes. A user count wraps only after four billion users.
- BlockStore.Insert: offsets are unbounded. The source packs an offset into the low 29 bits of a reference (`src/blocks.h:12-15`). From 2^29 - 1 blocks on, `variant | index` in `blocks_match` mixes the offset into the flags, and offset 2^29 - 1 with all three flags is the sentinel. `blocks_insert` does not check this, and the model does not bound the store either; `Refs.UnpackPack` and `Refs.SentinelCollision` state the limit for one reference.
- TileStore.TilesInsert: offsets are unbounded, as for blocks. `tiles.h` defines `MAX_TILE_INDEX` as 2^29 - 2 but nothing checks it, so from 2^29 - 1 tiles on `permutation | index` in `tiles_match` collides with the flags and the sentinel.
- BlockReduce.Reduce: accumulated counts are unbounded. The source's `uint32_t count` could in principle wrap.
- Negative pitches are not modelled. `build_block` and `build_tile` take an `int32_t` pitch, but the model takes a natural one, because a cell must lie inside the pixel buffer.
- BlockReduce.Reduce: the orientation flags written into a retired block's remap are not specified. The source writes `best_index ^ active_flags`, and `best_index` already carries the last hop's flags. Only the index part is stated.
- BlockReduce.Reduce: a survivor reached through the whole walk keeps its own count. The users of the retired blocks are added to a block only where the walk is cut, so counts are not conserved, and the model does not claim they are.
- Frames.Create: the registration `stream->frames = frames` is not modelled. The stream record that owns the tile store and the frame list is outside this model, so the function only returns the new list.
- TileStore.Create: likewise, the registration `stream->tiles = tiles` is not modelled.
- BlockReduce.ReduceThenRebuild: requires every block to have users. A block loaded by `blocks_load` has no users and no remap, `blocks_reduce` leaves it so, and `blocks_rebuild` would then read its sentinel remap; the model promises nothing for such a store.
- BlockReduce.Rebuild: requires every block without users to carry a remap. For such a block without one, the source masks the sentinel and reads past the arena.
- BlockStore.LoadFromEmptyValid: consistency is proved for loading into an empty store only. `blocks_load` sets each bucket head to the loop counter `i`. That names the new block only when the arena started empty.
- BlockStore.Load: the `incoming` field of loaded blocks is not stated. It is a reserved counter that no operation reads.
- Several fields used by `src/tiles.c` and `src/frames.c` are not declared by the headers: `tiles->tiles`, `size`, `capacity` and `frames->frames`. `TILE_NO_TILE` is not declared either. The model follows the `.c` text: tiles and frames are sequences with a size and a capacity, and the sentinel is the all-ones word.
- Frames.Add: a fresh slot is modelled as a frame whose indices are all `NO_TILE`. `memset(.., 0xff, ..)` writes all-ones bytes, which give exactly that word.
- The arenas take the caller's value. `tile_alloc`, `frame_alloc`, `stream_alloc` and `frames_add` return a pointer that the caller then fills. The model takes the value written there as a parameter (`Converter.Alloc`, `Frames.Store`).
- Converter.TileCompare: the result is stated as a natural square. The source computes it in `unsigned int` and returns it as `int`, which cannot overflow for values up to 65536.
- Converter.TileCompare: symmetry in the two tiles is stated in the separate lemma `Converter.CompareSymmetric`, because a method's result cannot be compared across two calls in its own contract.
- BitStream.Read: it is a method, so its result is compared with the written values through `BitStream.WriteThenRead`. The write and the flush are functions.
- BitStream.Write: `a |= b` is modelled as `a + b`. The bits of `b` always land where `a` is clear, and the model proves that fact.
- BitStream.InitWrite: write mode is marked by the offset `~0UL`, taken as the 64-bit all-ones value.
- `LONG_TILE_INDEX` is left undefined in `video.h`, so the converter's frame entries are 16-bit tile indices.

## Findings

| source | as written | input that shows it | evidently intended | confidence | as-written member | corrected member |
|---|---|---|---|---|---|---|
| src/blocks.c:237-239 | the key loop visits 2·max_error buckets, from hash - max_error to hash + max_error - 1 | two blocks: all-clear with 1 user (hash 0) and one pixel set with 2 users (hash 1), max_error 1; the first block is never compared with the second although they differ by 1 | every bucket within max_error of the hash, hash - max_error to hash + max_error, since a block within the bound has its hash within the bound | not executed | BlockReduce.WindowMissesUpperEnd | BlockReduce.FindMatchesCorrected |
| src/tiles.c:75 | the second shuffle step shifts the bit pairs under mask 0x33 left by 1, while the pairs under 0xcc move right by 2 | bytes 0x02 and 0x04 both shuffle to 0x20; a store holding only the tile of 0x20 bytes answers the tiles of 0x02 and of 0x04 bytes with the same reference, entry 0 under flip-x, and neither turns back into the searched tile | the bit reversal of `block_flip_x` (`<< 2`), which makes every orientation an involution that keeps the hash | not executed | TileStore.LookupAsWrittenConflates | TileStore.TileTransformCorrectedTwice |

The tile store itself follows `tile_flip_x` as written. `TileStore.TileTransform`
uses the faulty shuffle, and so do `TileStore.Lookup`, `TileStore.TilesInsert`,
`TileStore.TileDiff` and `TileStore.TilesCompare`. The corrected transform is
`TileStore.TileTransformCorrected`. Its round trip and its hash invariance are
proved beside it.
