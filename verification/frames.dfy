/** The frame list of `src/frames.c`: a growable array of frames, each
    frame a fixed grid of tile indices. `frames_add` hands out the slot
    after the last used one, growing the array (to 64 slots the first
    time, then doubling) when it is full; fresh slots are filled with
    0xff bytes, which makes every tile index in them `NO_TILE`. */
module Frames {
  import opened Growth
  import TileStore

  const FRAME_WIDTH: nat := 320
  const FRAME_HEIGHT: nat := 256
  /** Tile indices per frame: one per 16x16 cell of the 320x256 frame. */
  const FRAME_TILE_COUNT: nat := (FRAME_WIDTH / TileStore.TILE_WIDTH) * (FRAME_HEIGHT / TileStore.TILE_HEIGHT)
  /** A tile index is a 32-bit word; all ones means "no tile". */
  const NO_TILE: nat := 0xffff_ffff
  /** The capacity of the first allocation. */
  const FIRST_CAPACITY: nat := 64

  type TileIndex = x: nat | x <= NO_TILE

  type Frame = s: seq<TileIndex> | |s| == FRAME_TILE_COUNT
    witness Fill(320, 0)

  /** `n` copies of `x`. */
  function Fill(n: nat, x: TileIndex): (s: seq<TileIndex>)
    ensures |s| == n && forall i :: 0 <= i < n ==> s[i] == x
  {
    if n == 0 then [] else Fill(n - 1, x) + [x]
  }

  /** `n` blank slots. */
  function Blanks(n: nat): (s: seq<Frame>)
    ensures |s| == n && forall i :: 0 <= i < n ==> s[i] == BLANK
  {
    if n == 0 then [] else Blanks(n - 1) + [BLANK]
  }

  /** A slot as `memset(.., 0xff, ..)` leaves it: every 32-bit index has
      all four bytes 0xff, that is, every index is `NO_TILE`. */
  const BLANK: Frame := Fill(FRAME_TILE_COUNT, NO_TILE)

  /** The list: `slots` is the allocated array (its length is the
      capacity), of which the first `size` are in use. */
  datatype FrameList = FrameList(slots: seq<Frame>, size: nat)

  /** Every slot in range is in use or still as the growth left it. */
  ghost predicate Valid(fs: FrameList)
  {
    && fs.size <= |fs.slots|
    && forall i :: fs.size <= i < |fs.slots| ==> fs.slots[i] == BLANK
  }

  /** `frames_create`: a zeroed list, with no slots. */
  function Create(): (fs: FrameList)
    ensures Valid(fs) && fs.size == 0 && |fs.slots| == 0
  {
    FrameList([], 0)
  }

  datatype Added = Added(frames: FrameList, slot: nat)

  /** `frames_add`: grow the array when it is full, then hand out the slot
      at the old size and count it as used. */
  function Add(fs: FrameList): (r: Added)
    requires Valid(fs)
    ensures Valid(r.frames)
    ensures r.slot == fs.size && r.frames.size == fs.size + 1
    ensures r.slot < |r.frames.slots| && r.frames.slots[r.slot] == BLANK
    ensures |r.frames.slots| == if fs.size == |fs.slots| then Grow(|fs.slots|, FIRST_CAPACITY) else |fs.slots|
    ensures r.frames.slots[..fs.size] == fs.slots[..fs.size]
  {
    if fs.size == |fs.slots| then
      var capacity := Grow(|fs.slots|, FIRST_CAPACITY);
      Added(FrameList(fs.slots + Blanks(capacity - fs.size), fs.size + 1), fs.size)
    else
      Added(fs.(size := fs.size + 1), fs.size)
  }

  /** The caller's write through the pointer `frames_add` returned. */
  function Store(fs: FrameList, slot: nat, f: Frame): (fs': FrameList)
    requires Valid(fs) && slot < fs.size
    ensures Valid(fs') && fs'.size == fs.size && |fs'.slots| == |fs.slots|
    ensures fs'.slots[slot] == f
    ensures forall i :: 0 <= i < |fs.slots| && i != slot ==> fs'.slots[i] == fs.slots[i]
  {
    fs.(slots := fs.slots[slot := f])
  }

  /** Add a slot and fill it with `f`. */
  function Append(fs: FrameList, f: Frame): (fs': FrameList)
    requires Valid(fs)
    ensures Valid(fs') && fs'.size == fs.size + 1
  {
    var r := Add(fs);
    Store(r.frames, r.slot, f)
  }

  /** Append every frame of `list`, in order. */
  function AppendAll(fs: FrameList, list: seq<Frame>): (fs': FrameList)
    requires Valid(fs)
    ensures Valid(fs') && fs'.size == fs.size + |list|
    decreases |list|
  {
    if |list| == 0 then fs else Append(AppendAll(fs, list[..|list| - 1]), list[|list| - 1])
  }

  /** One append keeps the used slots, puts `f` after them, and grows the
      capacity only when the list was full. */
  lemma AppendPlaces(fs: FrameList, f: Frame)
    requires Valid(fs)
    ensures Append(fs, f).slots[..fs.size + 1] == fs.slots[..fs.size] + [f]
    ensures |Append(fs, f).slots| == if fs.size == |fs.slots| then Grow(|fs.slots|, FIRST_CAPACITY) else |fs.slots|
  {
    var r := Add(fs);
    var fs' := Append(fs, f);
    assert fs'.slots[..fs.size] == r.frames.slots[..fs.size];
  }

  /** Appending a list of frames to an empty list stores exactly those
      frames, in order, and leaves the capacity at the smallest 64 * 2^k
      that holds them. */
  lemma {:induction false} AppendAllFromEmpty(list: seq<Frame>)
    ensures AppendAll(Create(), list).size == |list|
    ensures AppendAll(Create(), list).slots[..|list|] == list
    ensures |AppendAll(Create(), list).slots| == if |list| == 0 then 0 else Doubled(FIRST_CAPACITY, |list|)
    decreases |list|
  {
    if |list| > 0 {
      var n := |list| - 1;
      var before := AppendAll(Create(), list[..n]);
      AppendAllFromEmpty(list[..n]);
      AppendPlaces(before, list[n]);
      assert list[..n] + [list[n]] == list;
      if n > 0 {
        DoubledStep(FIRST_CAPACITY, n);
      }
    }
  }
}
