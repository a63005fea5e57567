/** The content-addressed block store of `src/blocks.c`: an arena of 8×8
    bitmaps indexed by 256 hash buckets whose chains are threaded through
    the blocks' `next` fields.  Exact deduplication under the eight
    orientations, resolution of a flagged reference, and the raw
    save and load of the bitmaps live here; the approximate-match pass, the
    remap-chain collapse and the compaction live in `BlockReduce`. */
module BlockStore {
  import Bytes
  import opened Refs
  import opened BlockBits

  /** `block_t`: the bitmap, the number of users, the hash-chain link, the remap
      target once superseded, and the reserved `incoming` counter. */
  datatype Block = Block(bits: Bitmap, count: nat, next: Link, remap: Ref, incoming: nat)

  /** `blocks_t`: the arena and the head of each hash bucket's chain. */
  datatype Store = Store(entries: seq<Block>, heads: seq<Link>)

  /** `block_variants`: the order in which `blocks_match` tries the orientations,
      the blitter-friendly ones first. */
  const VARIANTS: seq<Flags> := [0, FLIP_Y, INVERT, INVERT | FLIP_Y,
                                 FLIP_X, FLIP_X | FLIP_Y, INVERT | FLIP_X, INVERT | FLIP_X | FLIP_Y]

  /** Position of a flag set in `VARIANTS`. */
  function VariantRank(f: Flags): (k: nat)
    ensures k < |VARIANTS| && VARIANTS[k] == f
  {
    if f == 0 then 0
    else if f == FLIP_Y then 1
    else if f == INVERT then 2
    else if f == INVERT | FLIP_Y then 3
    else if f == FLIP_X then 4
    else if f == FLIP_X | FLIP_Y then 5
    else if f == INVERT | FLIP_X then 6
    else 7
  }

  // ---------------------------------------------------------------------------
  // Hash chains

  predicate LinkBelow(l: Link, bound: nat)
  {
    l.Nil? || l.index < bound
  }

  /** Every chain link points to an older block, so every chain ends. */
  predicate ChainsOk(es: seq<Block>)
  {
    forall i :: 0 <= i < |es| ==> LinkBelow(es[i].next, i)
  }

  /** The offsets visited when walking a chain from `l`, newest first. */
  function Chain(es: seq<Block>, l: Link): (c: seq<nat>)
    requires ChainsOk(es) && LinkBelow(l, |es|)
    ensures forall k :: k in c ==> l.Next? && k <= l.index
    decreases if l.Nil? then 0 else l.index + 1
  {
    if l.Nil? then [] else [l.index] + Chain(es, es[l.index].next)
  }

  /** Every remap names a block of the store. */
  predicate RemapsInRange(es: seq<Block>)
  {
    forall i :: 0 <= i < |es| ==> es[i].remap.Ref? ==> es[i].remap.index < |es|
  }

  /** The store invariant: 256 buckets, walkable chains, every block on the chain of
      its own bucket and only there, and remaps inside the arena. */
  ghost predicate Valid(s: Store)
  {
    && |s.heads| == HASH_SIZE
    && (forall b :: 0 <= b < HASH_SIZE ==> LinkBelow(s.heads[b], |s.entries|))
    && ChainsOk(s.entries)
    && RemapsInRange(s.entries)
    && (forall i :: 0 <= i < |s.entries| ==> i in Chain(s.entries, s.heads[Bucket(s.entries[i].bits)]))
    && (forall b, k :: 0 <= b < HASH_SIZE && k in Chain(s.entries, s.heads[b]) ==> Bucket(s.entries[k].bits) == b)
  }

  /** `blocks_init`: no blocks and every bucket empty. */
  function Init(): (s: Store)
    ensures Valid(s) && |s.entries| == 0
  {
    Store([], seq(HASH_SIZE, _ => Nil))
  }

  /** Chains only read `next` links, so changing other fields or appending blocks
      leaves an existing chain as it was. */
  lemma {:induction false} ChainStable(es: seq<Block>, es': seq<Block>, l: Link)
    requires ChainsOk(es) && ChainsOk(es') && |es| <= |es'|
    requires forall i :: 0 <= i < |es| ==> es'[i].next == es[i].next
    requires LinkBelow(l, |es|)
    ensures Chain(es', l) == Chain(es, l)
    decreases if l.Nil? then 0 else l.index + 1
  {
    if l.Next? {
      ChainStable(es, es', es[l.index].next);
    }
  }

  /** Whether some block of the store holds exactly this bitmap. */
  ghost predicate Present(es: seq<Block>, t: Bitmap)
  {
    exists k :: 0 <= k < |es| && es[k].bits == t
  }

  // ---------------------------------------------------------------------------
  // Resolution and exact match

  /** `blocks_get`: the stored bitmap with the reference's orientation applied.
      Orienting the result the same way again gives back the stored bitmap. */
  function Get(s: Store, r: Ref): (g: Bitmap)
    requires r.Ref? && r.index < |s.entries|
    ensures Transform(g, r.flags) == s.entries[r.index].bits
  {
    TransformTwice(s.entries[r.index].bits, r.flags);
    Transform(s.entries[r.index].bits, r.flags)
  }

  /** The inner loop of `blocks_match`: walk a chain to the first block whose bits
      equal `t`.  Chains run from newer to older blocks, so the hit is the newest
      matching block on the chain. */
  function FindInChain(es: seq<Block>, l: Link, t: Bitmap): (r: Link)
    requires ChainsOk(es) && LinkBelow(l, |es|)
    ensures r.Next? ==> r.index in Chain(es, l) && es[r.index].bits == t
    ensures r.Next? ==> forall k :: k in Chain(es, l) && k > r.index ==> es[k].bits != t
    ensures r.Nil? ==> forall k :: k in Chain(es, l) ==> es[k].bits != t
    decreases if l.Nil? then 0 else l.index + 1
  {
    if l.Nil? then Nil
    else if es[l.index].bits == t then l
    else FindInChain(es, es[l.index].next, t)
  }

  /** In a valid store the bucket of `t` is the only place to look. */
  lemma FindInBucket(s: Store, t: Bitmap)
    requires Valid(s)
    ensures LinkBelow(s.heads[Bucket(t)], |s.entries|)
    ensures FindInChain(s.entries, s.heads[Bucket(t)], t).Nil? <==> !Present(s.entries, t)
  {
    HashRange(t);
  }

  /** The hit of the bucket walk is the newest block of the whole store holding `t`. */
  lemma FindInBucketNewest(s: Store, t: Bitmap)
    requires Valid(s)
    ensures LinkBelow(s.heads[Bucket(t)], |s.entries|)
    ensures var hit := FindInChain(s.entries, s.heads[Bucket(t)], t);
      hit.Next? ==> forall k :: hit.index < k < |s.entries| ==> s.entries[k].bits != t
  {
    HashRange(t);
    forall k | 0 <= k < |s.entries|
      ensures k in Chain(s.entries, s.heads[Bucket(s.entries[k].bits)])
    {
    }
  }

  /** Each variant's position in `VARIANTS` is its rank. */
  lemma RankOfVariant(v: nat)
    requires v < |VARIANTS|
    ensures VariantRank(VARIANTS[v]) == v
  {
  }

  /** The eight orientations of a bitmap, in the order `blocks_match` tries them. */
  function Orientations(b: Bitmap): (ts: seq<Bitmap>)
    ensures |ts| == |VARIANTS|
  {
    seq(|VARIANTS|, u requires 0 <= u < |VARIANTS| => Transform(b, VARIANTS[u]))
  }

  /** The outer loop of `blocks_match` from the v-th variant on, given the
      orientations `ts` of the bitmap: the first one stored wins. */
  function MatchFrom(s: Store, ts: seq<Bitmap>, v: nat): (r: Ref)
    requires Valid(s) && |ts| == |VARIANTS| && v <= |ts|
    ensures r.Ref? ==> r.index < |s.entries| && v <= VariantRank(r.flags)
    ensures r.Ref? ==> s.entries[r.index].bits == ts[VariantRank(r.flags)]
    ensures r.Ref? ==> forall u :: v <= u < VariantRank(r.flags) ==> !Present(s.entries, ts[u])
    ensures r.NoRef? <==> forall u :: v <= u < |ts| ==> !Present(s.entries, ts[u])
    decreases |ts| - v
  {
    if v == |ts| then NoRef
    else
      FindInBucket(s, ts[v]);
      var hit := FindInChain(s.entries, s.heads[Bucket(ts[v])], ts[v]);
      RankOfVariant(v);
      if hit.Next? then Ref(hit.index, VARIANTS[v]) else MatchFrom(s, ts, v + 1)
  }

  /** The hit of the variant loop is the newest block holding its bitmap: the chain
      walk meets newer blocks first, and every block with those bits is on the chain. */
  lemma {:induction false} MatchFromNewest(s: Store, ts: seq<Bitmap>, v: nat)
    requires Valid(s) && |ts| == |VARIANTS| && v <= |ts|
    ensures var r := MatchFrom(s, ts, v);
      r.Ref? ==> forall k :: r.index < k < |s.entries| ==> s.entries[k].bits != s.entries[r.index].bits
    decreases |ts| - v
  {
    if v < |ts| {
      FindInBucketNewest(s, ts[v]);
      MatchFromNewest(s, ts, v + 1);
    }
  }

  /** `blocks_match`: the first orientation, in `VARIANTS` order, under which the
      bitmap is already stored, as `variant | offset`, naming the newest block that
      holds it; `NoRef` when none is.  The store is not changed. */
  function Match(s: Store, b: Bitmap): (r: Ref)
    requires Valid(s)
    ensures r.Ref? ==> r.index < |s.entries| && Get(s, r) == b
    ensures r.Ref? ==> forall k :: r.index < k < |s.entries| ==> s.entries[k].bits != s.entries[r.index].bits
    ensures r.Ref? ==> forall u :: 0 <= u < VariantRank(r.flags) ==> !Present(s.entries, Transform(b, VARIANTS[u]))
    ensures r.NoRef? <==> forall f: Flags :: !Present(s.entries, Transform(b, f))
  {
    var r := MatchFrom(s, Orientations(b), 0);
    MatchFromAll(s, b, r);
    MatchFromNewest(s, Orientations(b), 0);
    r
  }

  lemma MatchFromAll(s: Store, b: Bitmap, r: Ref)
    requires Valid(s) && r == MatchFrom(s, Orientations(b), 0)
    ensures r.Ref? ==> r.index < |s.entries| && Get(s, r) == b
    ensures r.Ref? ==> forall u :: 0 <= u < VariantRank(r.flags) ==> !Present(s.entries, Transform(b, VARIANTS[u]))
    ensures r.NoRef? <==> forall f: Flags :: !Present(s.entries, Transform(b, f))
  {
    var ts := Orientations(b);
    if r.Ref? {
      var u := VariantRank(r.flags);
      assert ts[u] == Transform(b, r.flags);
      TransformTwice(b, r.flags);
      forall w | 0 <= w < u
        ensures !Present(s.entries, Transform(b, VARIANTS[w]))
      {
        assert ts[w] == Transform(b, VARIANTS[w]);
      }
    } else {
      forall f: Flags
        ensures !Present(s.entries, Transform(b, f))
      {
        assert ts[VariantRank(f)] == Transform(b, f);
      }
    }
  }

  // ---------------------------------------------------------------------------
  // Insertion

  /** Appending a block at the head of its bucket's chain (the miss path of
      `blocks_insert`, and each step of `blocks_rebuild` and `blocks_load`). */
  function Push(s: Store, bits: Bitmap, count: nat): (s': Store)
    requires Valid(s)
    ensures Valid(s')
    ensures |s'.entries| == |s.entries| + 1 && s'.entries[..|s.entries|] == s.entries
    ensures s'.entries[|s.entries|] == Block(bits, count, s.heads[Bucket(bits)], NoRef, 0)
    ensures s'.entries == s.entries + [s'.entries[|s.entries|]]
    ensures s'.heads == s.heads[Bucket(bits) := Next(|s.entries|)]
  {
    var n := |s.entries|;
    var h := Bucket(bits);
    HashRange(bits);
    var es' := s.entries + [Block(bits, count, s.heads[h], NoRef, 0)];
    var s' := Store(es', s.heads[h := Next(n)]);
    PushValid(s, bits, count, s');
    s'
  }

  lemma PushValid(s: Store, bits: Bitmap, count: nat, s': Store)
    requires Valid(s) && Bucket(bits) < HASH_SIZE
    requires s'.entries == s.entries + [Block(bits, count, s.heads[Bucket(bits)], NoRef, 0)]
    requires s'.heads == s.heads[Bucket(bits) := Next(|s.entries|)]
    ensures Valid(s')
  {
    PushChains(s, bits, count, s');
    PushKeepsBlocksOnChains(s, bits, count, s');
    PushKeepsChainsInBuckets(s, bits, count, s');
  }

  lemma PushKeepsBlocksOnChains(s: Store, bits: Bitmap, count: nat, s': Store)
    requires Valid(s) && Bucket(bits) < HASH_SIZE
    requires s'.entries == s.entries + [Block(bits, count, s.heads[Bucket(bits)], NoRef, 0)]
    requires s'.heads == s.heads[Bucket(bits) := Next(|s.entries|)]
    ensures |s'.heads| == HASH_SIZE
    ensures forall i :: 0 <= i < |s'.entries| ==> i in Chain(s'.entries, s'.heads[Bucket(s'.entries[i].bits)])
  {
    var es, es' := s.entries, s'.entries;
    var n := |es|;
    PushChains(s, bits, count, s');
    forall i | 0 <= i < n + 1
      ensures i in Chain(es', s'.heads[Bucket(es'[i].bits)])
    {
      if i < n {
        assert es'[i] == es[i];
        assert i in Chain(es, s.heads[Bucket(es[i].bits)]);
      }
    }
  }

  lemma PushKeepsChainsInBuckets(s: Store, bits: Bitmap, count: nat, s': Store)
    requires Valid(s) && Bucket(bits) < HASH_SIZE
    requires s'.entries == s.entries + [Block(bits, count, s.heads[Bucket(bits)], NoRef, 0)]
    requires s'.heads == s.heads[Bucket(bits) := Next(|s.entries|)]
    ensures |s'.heads| == HASH_SIZE
    ensures forall b, k :: 0 <= b < HASH_SIZE && k in Chain(s'.entries, s'.heads[b]) ==> Bucket(s'.entries[k].bits) == b
  {
    var es, es' := s.entries, s'.entries;
    var n := |es|;
    PushChains(s, bits, count, s');
    forall b, k | 0 <= b < HASH_SIZE && k in Chain(es', s'.heads[b])
      ensures Bucket(es'[k].bits) == b
    {
      if k < n {
        assert es'[k] == es[k];
      }
    }
  }

  /** Pushing onto bucket h lengthens that bucket's chain by the new offset and
      leaves every other chain as it was. */
  lemma PushChains(s: Store, bits: Bitmap, count: nat, s': Store)
    requires Valid(s) && Bucket(bits) < HASH_SIZE
    requires s'.entries == s.entries + [Block(bits, count, s.heads[Bucket(bits)], NoRef, 0)]
    requires s'.heads == s.heads[Bucket(bits) := Next(|s.entries|)]
    ensures ChainsOk(s'.entries)
    ensures forall b :: 0 <= b < HASH_SIZE ==>
      && LinkBelow(s'.heads[b], |s'.entries|)
      && Chain(s'.entries, s'.heads[b])
         == if b == Bucket(bits) then [|s.entries|] + Chain(s.entries, s.heads[b]) else Chain(s.entries, s.heads[b])
  {
    var es, es' := s.entries, s'.entries;
    assert ChainsOk(es');
    forall b | 0 <= b < HASH_SIZE
      ensures LinkBelow(s'.heads[b], |es'|)
      ensures Chain(es', s'.heads[b]) == if b == Bucket(bits) then [|es|] + Chain(es, s.heads[b]) else Chain(es, s.heads[b])
    {
      ChainStable(es, es', s.heads[b]);
    }
  }

  /** `blocks_insert`.  On a hit the matched block's count grows by one and nothing
      else changes; on a miss the bitmap is appended, unflipped, with count 1 and no
      remap, at the head of its own bucket.  Either way the returned reference
      resolves to the inserted bitmap. */
  function Insert(s: Store, b: Bitmap): (res: (Store, Ref))
    requires Valid(s)
    ensures Valid(res.0)
    ensures res.1.Ref? && res.1.index < |res.0.entries| && Get(res.0, res.1) == b
    ensures Match(s, b).Ref? ==> res.1 == Match(s, b) && UserAdded(s, res.0, res.1.index)
    ensures Match(s, b).NoRef? ==> res.1 == Ref(|s.entries|, 0) && Appended(s, res.0, b)
  {
    var r := Match(s, b);
    if r.Ref? then
      (AddUser(s, r.index), r)
    else
      TransformTwice(b, 0);
      (Push(s, b, 1), Ref(|s.entries|, 0))
  }

  /** `s'` is `s` with one more user for block i: the count of block i is one
      higher and nothing else differs. */
  ghost predicate UserAdded(s: Store, s': Store, i: nat)
  {
    && s'.heads == s.heads && |s'.entries| == |s.entries| && i < |s.entries|
    && s'.entries[i] == s.entries[i].(count := s.entries[i].count + 1)
    && forall k :: 0 <= k < |s.entries| && k != i ==> s'.entries[k] == s.entries[k]
  }

  /** `s'` is `s` with bitmap b appended, unflipped, with one user and no remap,
      at the head of its bucket's chain. */
  ghost predicate Appended(s: Store, s': Store, b: Bitmap)
  {
    && Bucket(b) < |s.heads|
    && |s'.entries| == |s.entries| + 1 && s'.entries[..|s.entries|] == s.entries
    && s'.entries[|s.entries|] == Block(b, 1, s.heads[Bucket(b)], NoRef, 0)
    && s'.heads == s.heads[Bucket(b) := Next(|s.entries|)]
  }

  /** The hit path of `blocks_insert`: block i's count grows by one. */
  function AddUser(s: Store, i: nat): (s': Store)
    requires Valid(s) && i < |s.entries|
    ensures Valid(s') && UserAdded(s, s', i)
  {
    var e := s.entries[i];
    var s' := Store(s.entries[i := e.(count := e.count + 1)], s.heads);
    BumpValid(s, i, s');
    s'
  }

  lemma BumpValid(s: Store, i: nat, s': Store)
    requires Valid(s) && i < |s.entries|
    requires s'.heads == s.heads
    requires s'.entries == s.entries[i := s.entries[i].(count := s.entries[i].count + 1)]
    ensures Valid(s')
  {
    forall b | 0 <= b < HASH_SIZE
      ensures Chain(s'.entries, s.heads[b]) == Chain(s.entries, s.heads[b])
    {
      ChainStable(s.entries, s'.entries, s.heads[b]);
    }
  }

  /** Inserting a bitmap and then any orientation of it: the second insertion finds
      a stored block, adds a user to it and allocates nothing. */
  lemma InsertVariantDeduplicates(s: Store, b: Bitmap, f: Flags)
    requires Valid(s)
    ensures var (s1, r1) := Insert(s, b);
            var (s2, r2) := Insert(s1, Transform(b, f));
            && Match(s1, Transform(b, f)).Ref?
            && |s2.entries| == |s1.entries| && s2.heads == s1.heads
            && s2.entries[r2.index].count == s1.entries[r2.index].count + 1
  {
    var (s1, r1) := Insert(s, b);
    var t := Transform(b, f);
    var g := f ^ r1.flags;
    TransformTwice(s1.entries[r1.index].bits, r1.flags);
    TransformCompose(b, f, g);
    assert f ^ g == r1.flags;
    assert Transform(t, g) == s1.entries[r1.index].bits;
    assert Present(s1.entries, Transform(t, g));
  }

  /** A bitmap whose rows are all `v`. */
  function Uniform(v: bv8): Bitmap
  {
    [v, v, v, v, v, v, v, v]
  }

  /** The two uniform bitmaps are fixed by both flips and swapped by inversion. */
  lemma UniformTransform(v: bv8, f: Flags)
    requires v == 0 || v == 0xff
    ensures Transform(Uniform(v), f) == Uniform(if f & INVERT != 0 then !v else v)
  {
    var u := Uniform(v);
    assert Bytes.Reverse8(v) == v;
    assert FlipX(u) == u;
    assert FlipY(u) == u;
    assert Invert(u) == Uniform(!v);
  }

  /** A bitmap and its inverse: once the all-clear bitmap is stored, inserting the
      all-set one returns the same block with the invert flag and allocates nothing,
      so the all-set bitmap never gets a block of its own. */
  lemma UniformBitmapsShareABlock()
    ensures var (s1, r1) := Insert(Init(), Uniform(0));
            var (s2, r2) := Insert(s1, Uniform(0xff));
            r1 == Ref(0, 0) && r2 == Ref(0, INVERT) && |s2.entries| == 1
  {
    var (s1, r1) := Insert(Init(), Uniform(0));
    assert Match(Init(), Uniform(0)).NoRef?;
    UniformInverseMatch(s1);
  }

  /** In a store holding only the all-clear bitmap, the all-set one is found as
      that block inverted. */
  lemma UniformInverseMatch(s: Store)
    requires Valid(s) && |s.entries| == 1 && s.entries[0].bits == Uniform(0)
    ensures Match(s, Uniform(0xff)) == Ref(0, INVERT)
  {
    var r := Match(s, Uniform(0xff));
    UniformFoundEarly(s, r);
    UniformFoundInverted(s, r);
    EarlyInversionIsInvert(r.flags);
  }

  /** The all-set bitmap inverted is stored, so a match is found at or before
      the inversion variant. */
  lemma UniformFoundEarly(s: Store, r: Ref)
    requires Valid(s) && |s.entries| == 1 && s.entries[0].bits == Uniform(0)
    requires r == Match(s, Uniform(0xff))
    ensures r.Ref? && r.index == 0 && VariantRank(r.flags) <= 2
  {
    UniformTransform(0xff, INVERT);
    InvertIsThirdVariant();
    assert s.entries[0].bits == Transform(Uniform(0xff), VARIANTS[2]);
    MatchNoLaterThan(s, Uniform(0xff), r, 2);
  }

  lemma InvertIsThirdVariant()
    ensures VARIANTS[2] == INVERT
  {
  }

  /** A bitmap stored under the v-th variant is matched at that variant or an earlier one. */
  lemma MatchNoLaterThan(s: Store, b: Bitmap, r: Ref, v: nat)
    requires Valid(s) && r == Match(s, b) && v < |VARIANTS| && Present(s.entries, Transform(b, VARIANTS[v]))
    ensures r.Ref? && VariantRank(r.flags) <= v
  {
  }

  /** Turning the all-clear bitmap into the all-set one takes an inversion. */
  lemma UniformFoundInverted(s: Store, r: Ref)
    requires Valid(s) && r.Ref? && r.index < |s.entries| && s.entries[r.index].bits == Uniform(0)
    requires Get(s, r) == Uniform(0xff)
    ensures r.flags & INVERT != 0
  {
    UniformTransform(0, r.flags);
    assert Uniform(0xff) != Uniform(0);
  }

  /** Of the first three variants only the third inverts. */
  lemma EarlyInversionIsInvert(f: Flags)
    requires VariantRank(f) <= 2 && f & INVERT != 0
    ensures f == INVERT
  {
    assert VARIANTS[0] & INVERT == 0 && VARIANTS[1] & INVERT == 0;
  }

  // ---------------------------------------------------------------------------
  // Raw save and load

  /** The bitmaps of a block sequence, back to back. */
  function Flatten(es: seq<Block>): (r: seq<bv8>)
    ensures |r| == BLOCK_HEIGHT * |es|
  {
    if |es| == 0 then [] else Flatten(es[..|es| - 1]) + es[|es| - 1].bits
  }

  lemma {:induction false} FlattenAt(es: seq<Block>, i: nat, y: nat)
    requires i < |es| && y < BLOCK_HEIGHT
    ensures BLOCK_HEIGHT * i + y < |Flatten(es)|
    ensures Flatten(es)[BLOCK_HEIGHT * i + y] == es[i].bits[y]
  {
    var n := |es| - 1;
    if i < n {
      FlattenAt(es[..n], i, y);
      assert es[..n][i] == es[i];
    }
  }

  /** `blocks_save`: appends the eight row bytes of every block, in offset order. */
  function Save(out: seq<bv8>, s: Store): (r: seq<bv8>)
    ensures |r| == |out| + BLOCK_HEIGHT * |s.entries| && r[..|out|] == out
    ensures forall i, y :: 0 <= i < |s.entries| && 0 <= y < BLOCK_HEIGHT ==>
      r[|out| + BLOCK_HEIGHT * i + y] == s.entries[i].bits[y]
  {
    var r := out + Flatten(s.entries);
    forall i, y | 0 <= i < |s.entries| && 0 <= y < BLOCK_HEIGHT
      ensures r[|out| + BLOCK_HEIGHT * i + y] == s.entries[i].bits[y]
    {
      FlattenAt(s.entries, i, y);
    }
    r
  }

  /** The k-th eight-byte bitmap of `input` from `offset` on. */
  function Chunk(input: seq<bv8>, offset: nat, k: nat): Bitmap
    requires offset + BLOCK_HEIGHT * (k + 1) <= |input|
  {
    input[offset + BLOCK_HEIGHT * k .. offset + BLOCK_HEIGHT * k + BLOCK_HEIGHT]
  }

  lemma ChunkShift(input: seq<bv8>, offset: nat, j: nat)
    requires offset + BLOCK_HEIGHT * (j + 2) <= |input|
    ensures Chunk(input, offset + BLOCK_HEIGHT, j) == Chunk(input, offset, j + 1)
  {
  }

  /** The loop of `blocks_load` from its i-th block on.  Block i is appended to the
      arena, but the bucket head is set to `i` itself, which names the new block only
      when the arena started out empty. */
  function LoadFrom(input: seq<bv8>, offset: nat, i: nat, count: nat, s: Store): (res: (Store, nat))
    requires |s.heads| == HASH_SIZE && i <= count && offset + BLOCK_HEIGHT * (count - i) <= |input|
    ensures res.1 == offset + BLOCK_HEIGHT * (count - i) && |res.0.heads| == HASH_SIZE
    ensures |res.0.entries| == |s.entries| + (count - i) && res.0.entries[..|s.entries|] == s.entries
    ensures forall k :: |s.entries| <= k < |res.0.entries| ==>
      && res.0.entries[k].bits == Chunk(input, offset, k - |s.entries|)
      && res.0.entries[k].count == 0
      && res.0.entries[k].remap == NoRef
    decreases count - i
  {
    if i == count then (s, offset)
    else
      var bits: Bitmap := input[offset .. offset + BLOCK_HEIGHT];
      var h := Bucket(bits);
      HashRange(bits);
      var s' := Store(s.entries + [Block(bits, 0, s.heads[h], NoRef, 0)], s.heads[h := Next(i)]);
      var res := LoadFrom(input, offset + BLOCK_HEIGHT, i + 1, count, s');
      assert res.0.entries[..|s.entries|] == res.0.entries[..|s'.entries|][..|s.entries|];
      forall k | |s'.entries| <= k < |res.0.entries|
        ensures res.0.entries[k].bits == Chunk(input, offset, k - |s.entries|)
      {
        ChunkShift(input, offset, k - |s'.entries|);
      }
      assert res.0.entries[|s.entries|] == s'.entries[|s.entries|];
      res
  }

  /** `blocks_load`: every bucket is emptied, then `count` bitmaps are read from
      `offset` on, each appended with count 0 and no remap; returns the offset
      just past them. */
  function Load(input: seq<bv8>, offset: nat, count: nat, s: Store): (res: (Store, nat))
    requires offset + BLOCK_HEIGHT * count <= |input|
    ensures res.1 == offset + BLOCK_HEIGHT * count
    ensures |res.0.entries| == |s.entries| + count && res.0.entries[..|s.entries|] == s.entries
    ensures forall k :: |s.entries| <= k < |res.0.entries| ==>
      && res.0.entries[k].bits == Chunk(input, offset, k - |s.entries|)
      && res.0.entries[k].count == 0
      && res.0.entries[k].remap == NoRef
  {
    LoadFrom(input, offset, 0, count, Store(s.entries, seq(HASH_SIZE, _ => Nil)))
  }

  lemma {:induction false} LoadFromEmptyValid(input: seq<bv8>, offset: nat, i: nat, count: nat, s: Store)
    requires Valid(s) && |s.entries| == i
    requires i <= count && offset + BLOCK_HEIGHT * (count - i) <= |input|
    ensures Valid(LoadFrom(input, offset, i, count, s).0)
    decreases count - i
  {
    if i < count {
      var bits: Bitmap := input[offset .. offset + BLOCK_HEIGHT];
      var h := Bucket(bits);
      HashRange(bits);
      var s' := Store(s.entries + [Block(bits, 0, s.heads[h], NoRef, 0)], s.heads[h := Next(i)]);
      PushValid(s, bits, 0, s');
      LoadFromEmptyValid(input, offset + BLOCK_HEIGHT, i + 1, count, s');
    }
  }

  /** Loading into an empty store yields a valid store, and loading what `Save`
      wrote gives back every bitmap at its offset. */
  lemma SavedChunk(s: Store, k: nat)
    requires k < |s.entries|
    ensures BLOCK_HEIGHT * (k + 1) <= |Save([], s)|
    ensures Chunk(Save([], s), 0, k) == s.entries[k].bits
  {
    var empty: seq<bv8> := [];
    var out := Save(empty, s);
    var c := Chunk(out, 0, k);
    forall y | 0 <= y < BLOCK_HEIGHT
      ensures c[y] == s.entries[k].bits[y]
    {
      assert c[y] == out[BLOCK_HEIGHT * k + y];
      assert out[|empty| + BLOCK_HEIGHT * k + y] == s.entries[k].bits[y];
    }
  }

  lemma SaveThenLoad(s: Store)
    ensures var (s', off) := Load(Save([], s), 0, |s.entries|, Init());
            && Valid(s') && off == BLOCK_HEIGHT * |s.entries|
            && |s'.entries| == |s.entries|
            && forall k :: 0 <= k < |s.entries| ==> s'.entries[k].bits == s.entries[k].bits
  {
    var out := Save([], s);
    var n := |s.entries|;
    LoadFromEmptyValid(out, 0, 0, n, Store([], seq(HASH_SIZE, _ => Nil)));
    var s' := Load(out, 0, n, Init()).0;
    forall k | 0 <= k < n
      ensures s'.entries[k].bits == s.entries[k].bits
    {
      SavedChunk(s, k);
    }
  }

  /** `build_block`: the thresholded cell with one user, no chain link and no remap. */
  function BuildBlock(pixels: seq<bv8>, origin: nat, pitch: nat, threshold: bv8): (b: Block)
    requires CellFits(|pixels|, origin, pitch)
    ensures b.count == 1 && b.next == Nil && b.remap == NoRef && b.incoming == 0
    ensures forall y, c :: 0 <= y < BLOCK_HEIGHT && 0 <= c < BLOCK_WIDTH ==>
      origin + y * pitch + c < |pixels| &&
      Bytes.Bit(b.bits[y], c) == Above(pixels[origin + y * pitch + c], threshold)
  {
    var bits := BuildBits(pixels, origin, pitch, threshold);
    forall y, c | 0 <= y < BLOCK_HEIGHT && 0 <= c < BLOCK_WIDTH
      ensures origin + y * pitch + c < |pixels|
      ensures Bytes.Bit(bits[y], c) == Above(pixels[origin + y * pitch + c], threshold)
    {
      BuildBitsMeaning(pixels, origin, pitch, threshold, y, c);
    }
    Block(bits, 1, Nil, NoRef, 0)
  }
}
