/** References into a block or tile store.  The source packs a reference
    into one 32-bit word: the store offset in the low 29 bits and three
    orientation flags in the top three (flip-x in bit 31, flip-y in bit 30,
    invert in bit 29), with the all-ones word as the "no entry" sentinel.
    The model keeps references structured and shows the packing separately. */
module Refs {

  /** Orientation flags, one bit each: 4 = flip-x, 2 = flip-y, 1 = invert
      (bits 31, 30 and 29 of the packed word). */
  type Flags = bv3

  const FLIP_X: Flags := 4
  const FLIP_Y: Flags := 2
  const INVERT: Flags := 1

  /** A 32-bit index word as the source stores it (`block_index_t`, `tile_index_t`). */
  type Word = w: int | 0 <= w < 0x1_0000_0000

  /** The sentinel word (`NO_BLOCK`, `NO_TILE`). */
  const NO_INDEX: Word := 0xffff_ffff
  /** Weight of the lowest flag bit: masking with `~FLAGS_MASK` keeps the word modulo this
      value, and shifting right by 29 leaves the flags. */
  const FLAG_UNIT: nat := 0x2000_0000
  /** Offsets must stay below the sentinel's offset part: the largest usable offset. */
  const MAX_INDEX: nat := FLAG_UNIT - 2

  /** A store reference: `NoRef` or an offset with the orientation to apply to the stored entry. */
  datatype Ref = NoRef | Ref(index: nat, flags: Flags)

  /** A hash-chain link: the end of the chain or the offset of the next entry. */
  datatype Link = Nil | Next(index: nat)

  /** The source's 32-bit encoding of a reference: flags in the top three bits, offset below. */
  function Pack(r: Ref): Word
    requires r.Ref? ==> r.index < FLAG_UNIT
  {
    match r
    case NoRef => NO_INDEX
    case Ref(i, f) => (f as int) * FLAG_UNIT + i
  }

  /** Decoding a 32-bit word: the sentinel first, then offset and flags by masking. */
  function Unpack(w: Word): Ref
  {
    if w == NO_INDEX then NoRef else Ref(w % FLAG_UNIT, (w / FLAG_UNIT) as Flags)
  }

  /** Every word decodes to a reference that encodes back to the same word. */
  lemma PackUnpack(w: Word)
    ensures Unpack(w).Ref? ==> Unpack(w).index < FLAG_UNIT
    ensures Pack(Unpack(w)) == w
  {
  }

  /** Every reference whose offset is at most `MAX_INDEX` survives packing. */
  lemma UnpackPack(r: Ref)
    requires r.Ref? ==> r.index <= MAX_INDEX
    ensures Unpack(Pack(r)) == r
  {
  }

  /** The bound is tight: the next offset with all three flags set collides with the sentinel. */
  lemma SentinelCollision()
    ensures Pack(Ref(MAX_INDEX + 1, FLIP_X | FLIP_Y | INVERT)) == Pack(NoRef)
  {
  }
}
