/** The lossy passes of `src/blocks.c` that shrink a block store: approximate
    matching (`blocks_find_matches`), which lets a block point at a similar,
    more used block; chain collapse (`blocks_reduce`), which follows those
    pointers and retires every block whose users can be served by another;
    and compaction (`blocks_rebuild`), which keeps the survivors and tells
    every old offset where its users went. */
module BlockReduce {
  import Bytes
  import opened Refs
  import opened BlockBits
  import opened BlockStore

  // ---------------------------------------------------------------------------
  // Approximate matching

  /** Block j may stand in for block i: it is another block with strictly more users. */
  predicate Qualifies(es: seq<Block>, i: nat, j: nat)
    requires i < |es| && j < |es|
  {
    j != i && es[i].count < es[j].count
  }

  /** The bucket visited at step k of the search around hash h: `(h + k - m) & 255`. */
  function Key(h: nat, m: nat, k: nat): nat
  {
    (h + k - m) % HASH_SIZE
  }

  /** Whether the search around hash h visits bucket `bkt` at some step from k up to,
      but excluding, `width`: a closed form of "bkt == Key(h, m, k') for some such k'". */
  predicate InWindowFrom(h: nat, m: nat, k: nat, width: nat, bkt: nat)
  {
    (bkt - (h + k - m)) % HASH_SIZE < width - k
  }

  lemma InWindowStep(h: nat, m: nat, k: nat, width: nat, bkt: nat)
    requires k < width && bkt < HASH_SIZE
    ensures InWindowFrom(h, m, k, width, bkt) <==> bkt == Key(h, m, k) || InWindowFrom(h, m, k + 1, width, bkt)
  {
    var x := (bkt - (h + k - m)) % HASH_SIZE;
    var d := (bkt - (h + k - m)) / HASH_SIZE;
    assert bkt - (h + k - m) == d * HASH_SIZE + x;
    if x == 0 {
      assert bkt == (h + k - m) % HASH_SIZE;
    } else {
      assert bkt - (h + k + 1 - m) == d * HASH_SIZE + (x - 1);
      assert (bkt - (h + k + 1 - m)) % HASH_SIZE == x - 1;
      assert bkt != Key(h, m, k);
    }
  }

  /** A candidate of the search for block i: a block with more users in one of the
      visited buckets. */
  predicate Eligible(s: Store, i: nat, m: nat, width: nat, j: nat)
    requires i < |s.entries|
  {
    j < |s.entries| && Qualifies(s.entries, i, j)
    && InWindowFrom(Hash(s.entries[i].bits), m, 0, width, Bucket(s.entries[j].bits))
  }

  /** A search state improved on the bound `maxDiff`: it names an eligible block j,
      unflipped, together with j's distance from block i, which is within the bound. */
  predicate Improves(es: seq<Block>, i: nat, r: (Ref, nat), maxDiff: nat)
    requires i < |es|
  {
    r.0.Ref? && r.0.flags == 0 && r.0.index < |es| && Qualifies(es, i, r.0.index)
    && r.1 == Diff(es[i].bits, es[r.0.index].bits) && r.1 <= maxDiff
  }

  /** The chain walk of `blocks_find_matches`: skips block i itself and blocks with
      no more users; a block no farther than the current bound becomes the best
      match and its distance the new bound. */
  function ScanChain(es: seq<Block>, i: nat, l: Link, best: (Ref, nat)): (r: (Ref, nat))
    requires ChainsOk(es) && LinkBelow(l, |es|) && i < |es|
    ensures || (r == best && forall j :: j in Chain(es, l) && Qualifies(es, i, j) ==> Diff(es[i].bits, es[j].bits) > best.1)
            || (Improves(es, i, r, best.1) && r.0.index in Chain(es, l)
                && forall j :: j in Chain(es, l) && Qualifies(es, i, j) ==> r.1 <= Diff(es[i].bits, es[j].bits))
    decreases if l.Nil? then 0 else l.index + 1
  {
    if l.Nil? then best
    else
      var j := l.index;
      var rest := es[j].next;
      if j == i || es[i].count >= es[j].count then ScanChain(es, i, rest, best)
      else
        var d := Diff(es[i].bits, es[j].bits);
        if d > best.1 then ScanChain(es, i, rest, best)
        else ScanChain(es, i, rest, (Ref(j, 0), d))
  }

  /** In a valid store, walking the chain of bucket `key` visits exactly the blocks
      whose bitmaps hash to `key`. */
  lemma BucketChain(s: Store, key: nat, j: nat)
    requires Valid(s) && key < HASH_SIZE && j < |s.entries|
    ensures j in Chain(s.entries, s.heads[key]) <==> Bucket(s.entries[j].bits) == key
  {
  }

  /** What the bucket loop of `blocks_find_matches` promises from step k on: either
      no qualifying block of the remaining buckets beats the bound and the state is
      kept, or the new state improves on the bound with a block of those buckets no
      farther than any qualifying block in them. */
  ghost predicate ScanOutcome(s: Store, i: nat, m: nat, width: nat, k: nat, best: (Ref, nat), r: (Ref, nat))
    requires i < |s.entries|
  {
    var es, h := s.entries, Hash(s.entries[i].bits);
    || (r == best && forall j :: 0 <= j < |es| && Qualifies(es, i, j) && InWindowFrom(h, m, k, width, Bucket(es[j].bits))
                                ==> Diff(es[i].bits, es[j].bits) > best.1)
    || (Improves(es, i, r, best.1) && InWindowFrom(h, m, k, width, Bucket(es[r.0.index].bits))
        && forall j :: 0 <= j < |es| && Qualifies(es, i, j) && InWindowFrom(h, m, k, width, Bucket(es[j].bits))
                       ==> r.1 <= Diff(es[i].bits, es[j].bits))
  }

  /** The bucket loop of `blocks_find_matches` from step k on. */
  function ScanKeys(s: Store, i: nat, m: nat, width: nat, k: nat, best: (Ref, nat)): (r: (Ref, nat))
    requires Valid(s) && i < |s.entries|
    ensures ScanOutcome(s, i, m, width, k, best, r)
    decreases width - k
  {
    if k >= width then best
    else
      var key := Key(Hash(s.entries[i].bits), m, k);
      var mid := ScanChain(s.entries, i, s.heads[key], best);
      var r := ScanKeys(s, i, m, width, k + 1, mid);
      ScanKeysStep(s, i, m, width, k, best, mid, r);
      r
  }

  lemma ScanKeysStep(s: Store, i: nat, m: nat, width: nat, k: nat, best: (Ref, nat), mid: (Ref, nat), r: (Ref, nat))
    requires Valid(s) && i < |s.entries| && k < width
    requires mid == ScanChain(s.entries, i, s.heads[Key(Hash(s.entries[i].bits), m, k)], best)
    requires ScanOutcome(s, i, m, width, k + 1, mid, r)
    ensures ScanOutcome(s, i, m, width, k, best, r)
  {
    var es, h := s.entries, Hash(s.entries[i].bits);
    var key := Key(h, m, k);
    forall j | 0 <= j < |es|
      ensures InWindowFrom(h, m, k, width, Bucket(es[j].bits))
          <==> j in Chain(es, s.heads[key]) || InWindowFrom(h, m, k + 1, width, Bucket(es[j].bits))
    {
      HashRange(es[j].bits);
      InWindowStep(h, m, k, width, Bucket(es[j].bits));
      BucketChain(s, key, j);
    }
    if r.0.Ref? && r != best {
      var x := r.0.index;
      if r == mid {
        assert x in Chain(es, s.heads[key]);
      }
    }
  }

  /** The best approximate match for block i among the blocks it may use: the search
      `blocks_find_matches` makes for one block, visiting `width` buckets from
      hash - m on, with m the error bound.  Only the unflipped orientation is tried. */
  function BestMatch(s: Store, i: nat, m: nat, width: nat): (r: Ref)
    requires Valid(s) && i < |s.entries|
    ensures r.Ref? ==> && r.flags == 0 && Eligible(s, i, m, width, r.index)
                       && IsBest(s, i, m, width, r.index)
    ensures r.NoRef? <==> !HasCandidate(s, i, m, width)
  {
    var r := ScanKeys(s, i, m, width, 0, (NoRef, m));
    if r.0.Ref? then
      assert Eligible(s, i, m, width, r.0.index);
      r.0
    else
      r.0
  }

  /** Some eligible block lies within the error bound m of block i. */
  ghost predicate HasCandidate(s: Store, i: nat, m: nat, width: nat)
    requires i < |s.entries|
  {
    exists j: nat :: Eligible(s, i, m, width, j) && Diff(s.entries[i].bits, s.entries[j].bits) <= m
  }

  /** Block j is eligible, within the bound, and no eligible block is closer to i. */
  ghost predicate IsBest(s: Store, i: nat, m: nat, width: nat, j: nat)
    requires i < |s.entries|
  {
    Eligible(s, i, m, width, j) && Diff(s.entries[i].bits, s.entries[j].bits) <= m
    && forall j': nat :: Eligible(s, i, m, width, j') ==>
         Diff(s.entries[i].bits, s.entries[j].bits) <= Diff(s.entries[i].bits, s.entries[j'].bits)
  }

  /** Two stores that differ only in counts and remaps are both valid or both not,
      provided the remaps stay in range. */
  lemma SameShapeValid(s: Store, s': Store)
    requires Valid(s) && s'.heads == s.heads && |s'.entries| == |s.entries|
    requires forall k :: 0 <= k < |s.entries| ==> s'.entries[k].bits == s.entries[k].bits && s'.entries[k].next == s.entries[k].next
    requires RemapsInRange(s'.entries)
    ensures Valid(s')
  {
    assert ChainsOk(s'.entries);
    forall b | 0 <= b < HASH_SIZE
      ensures Chain(s'.entries, s.heads[b]) == Chain(s.entries, s.heads[b])
    {
      ChainStable(s.entries, s'.entries, s.heads[b]);
    }
  }

  /** `blocks_find_matches` with the number of buckets visited as a parameter: every
      block with users and a candidate within the bound gets the best candidate as its
      remap; nothing else changes. */
  function FindMatchesWith(s: Store, m: nat, width: nat): (s': Store)
    requires Valid(s)
    ensures Valid(s') && s'.heads == s.heads && |s'.entries| == |s.entries|
    ensures forall i :: 0 <= i < |s.entries| ==>
      s'.entries[i] == s.entries[i].(remap := s'.entries[i].remap)
    ensures forall i :: 0 <= i < |s.entries| ==>
      if s.entries[i].count == 0 || !HasCandidate(s, i, m, width) then s'.entries[i] == s.entries[i]
      else s'.entries[i].remap.Ref? && s'.entries[i].remap.flags == 0 && IsBest(s, i, m, width, s'.entries[i].remap.index)
  {
    var es := s.entries;
    var es' := seq(|es|, i requires 0 <= i < |es| =>
      if es[i].count == 0 then es[i]
      else var r := BestMatch(s, i, m, width); if r.Ref? then es[i].(remap := r) else es[i]);
    var s' := Store(es', s.heads);
    SameShapeValid(s, s');
    s'
  }

  /** `blocks_find_matches` as written: `2·m` buckets are visited, those of hash
      h - m up to h + m - 1. */
  function FindMatches(s: Store, m: nat): (s': Store)
    requires Valid(s)
    ensures Valid(s') && s'.heads == s.heads && |s'.entries| == |s.entries|
    ensures forall i :: 0 <= i < |s.entries| ==>
      if s.entries[i].count == 0 || !HasCandidate(s, i, m, 2 * m) then s'.entries[i] == s.entries[i]
      else s'.entries[i].remap.Ref? && s'.entries[i] == s.entries[i].(remap := Ref(s'.entries[i].remap.index, 0))
           && IsBest(s, i, m, 2 * m, s'.entries[i].remap.index)
  {
    FindMatchesWith(s, m, 2 * m)
  }

  /** The search window with its upper end included: `2·m + 1` buckets, hash h - m up
      to h + m. */
  function FindMatchesCorrected(s: Store, m: nat): (s': Store)
    requires Valid(s)
    ensures Valid(s') && s'.heads == s.heads && |s'.entries| == |s.entries|
    ensures forall i :: 0 <= i < |s.entries| ==>
      if s.entries[i].count == 0 || !HasCandidate(s, i, m, 2 * m + 1) then s'.entries[i] == s.entries[i]
      else s'.entries[i].remap.Ref? && s'.entries[i] == s.entries[i].(remap := Ref(s'.entries[i].remap.index, 0))
           && IsBest(s, i, m, 2 * m + 1, s'.entries[i].remap.index)
  {
    FindMatchesWith(s, m, 2 * m + 1)
  }

  /** With the upper end included the window is never the reason a block is missed:
      every block with more users within the bound is a candidate.  Two bitmaps at
      distance d have hashes at most d apart, so the bucket of such a block lies in
      h - m .. h + m. */
  lemma CorrectedWindowCoversBound(s: Store, i: nat, m: nat, j: nat)
    requires Valid(s) && i < |s.entries| && j < |s.entries|
    requires Qualifies(s.entries, i, j) && Diff(s.entries[i].bits, s.entries[j].bits) <= m
    ensures Eligible(s, i, m, 2 * m + 1, j)
  {
    var a, b := s.entries[i].bits, s.entries[j].bits;
    DiffIsHamming(a, b);
    DiffIsHamming(b, a);
    HashRange(b);
    var x := Hash(b) - (Hash(a) + 0 - m);
    assert 0 <= x <= 2 * m;
    if x < HASH_SIZE {
      assert x % HASH_SIZE == x;
    }
  }

  /** Block 0 all clear with one user, block 1 with one pixel set and two users. */
  function Sample(): Store
  {
    Push(Push(Init(), Uniform(0), 1), [1, 0, 0, 0, 0, 0, 0, 0], 2)
  }

  lemma SampleFacts()
    ensures var s := Sample();
            && Valid(s) && |s.entries| == 2
            && s.entries[0].bits == Uniform(0) && s.entries[0].count == 1 && s.entries[0].remap == NoRef
            && s.entries[1].bits == [1, 0, 0, 0, 0, 0, 0, 0] && s.entries[1].count == 2
            && Diff(s.entries[0].bits, s.entries[1].bits) == 1
            && Hash(s.entries[0].bits) == 0 && Bucket(s.entries[1].bits) == 1
  {
    var a: Bitmap := Uniform(0);
    var b: Bitmap := [1, 0, 0, 0, 0, 0, 0, 0];
    var s1 := Push(Init(), a, 1);
    assert s1.entries[0].bits == a;
    HashOfSamples();
    assert Bytes.Xor(a, b) == b;
  }

  /** The window as written can miss a block within the bound.  With bound 1 the
      search from block 0 (hash 0) visits buckets 255 and 0 only, so block 0 keeps no
      remap although block 1 qualifies at distance 1; with the upper end included it
      is remapped to block 1. */
  lemma WindowMissesUpperEnd()
    ensures var s := Sample();
            && Qualifies(s.entries, 0, 1)
            && Diff(s.entries[0].bits, s.entries[1].bits) <= 1
            && FindMatches(s, 1).entries[0].remap == NoRef
            && FindMatchesCorrected(s, 1).entries[0].remap == Ref(1, 0)
  {
    SampleFacts();
    SampleMissedAsWritten();
    SampleFoundCorrected();
  }

  lemma SampleMissedAsWritten()
    ensures FindMatches(Sample(), 1).entries[0].remap == NoRef
  {
    var s := Sample();
    SampleFacts();
    assert InWindowFrom(0, 1, 0, 2, 1) == false;
    assert !HasCandidate(s, 0, 1, 2);
  }

  lemma SampleFoundCorrected()
    ensures FindMatchesCorrected(Sample(), 1).entries[0].remap == Ref(1, 0)
  {
    var s := Sample();
    SampleFacts();
    CorrectedWindowCoversBound(s, 0, 1, 1);
    assert HasCandidate(s, 0, 1, 3);
    var c := FindMatchesCorrected(s, 1);
    assert Eligible(s, 0, 1, 3, c.entries[0].remap.index);
  }

  lemma HashOfSamples()
    ensures Hash(Uniform(0)) == 0 && Bucket(Uniform(0)) == 0
    ensures Hash([1, 0, 0, 0, 0, 0, 0, 0]) == 1 && Bucket([1, 0, 0, 0, 0, 0, 0, 0]) == 1
  {
    var a: Bitmap := Uniform(0);
    var b: Bitmap := [1, 0, 0, 0, 0, 0, 0, 0];
    Bytes.PopSumZero(a);
    assert Bytes.CountBits(1) == 1;
    assert Bytes.CountBits(0) == 0;
    assert b[..7] == [1, 0, 0, 0, 0, 0, 0];
    Bytes.PopSumZero(b[..7][1..]);
    assert Bytes.PopSum([1]) == 1;
    Bytes.PopSumAppend([1], b[..7][1..]);
    assert [1] + b[..7][1..] == b[..7];
  }

  /** Remaps lead to blocks with strictly more users. */
  predicate RemapsIncrease(es: seq<Block>)
  {
    forall i :: 0 <= i < |es| && es[i].remap.Ref? ==>
      es[i].remap.index < |es| && es[i].count < es[es[i].remap.index].count
  }

  /** Matching only ever points a block at one with more users, so on a store whose
      remaps already climb (a freshly filled one has none) it keeps them climbing:
      following remaps can never return to where it started. */
  lemma FindMatchesClimbs(s: Store, m: nat, width: nat)
    requires Valid(s) && RemapsIncrease(s.entries)
    ensures RemapsIncrease(FindMatchesWith(s, m, width).entries)
  {
  }

  // ---------------------------------------------------------------------------
  // Chain collapse

  /** Total users of the first k blocks of a path. */
  function Acc(es: seq<Block>, path: seq<nat>, k: nat): nat
    requires k <= |path| && forall t :: 0 <= t < |path| ==> path[t] < |es|
  {
    if k == 0 then 0 else Acc(es, path, k - 1) + es[path[k - 1]].count
  }

  lemma {:induction false} AccExtend(es: seq<Block>, path: seq<nat>, x: nat, k: nat)
    requires k <= |path| && x < |es| && forall t :: 0 <= t < |path| ==> path[t] < |es|
    ensures Acc(es, path + [x], k) == Acc(es, path, k)
  {
    if k > 0 {
      AccExtend(es, path, x, k - 1);
    }
  }

  /** With two or more blocks on a path, all used, each one has fewer users than the
      path together. */
  lemma {:induction false} BelowAcc(es: seq<Block>, path: seq<nat>, k: nat, a: nat)
    requires forall t :: 0 <= t < |path| ==> path[t] < |es| && es[path[t]].count > 0
    requires 2 <= k <= |path| && a < k
    ensures es[path[a]].count < Acc(es, path, k)
  {
    if a < k - 1 && k > 2 {
      BelowAcc(es, path, k - 1, a);
    } else if a < k - 1 {
      assert Acc(es, path, 1) == es[path[0]].count;
    } else {
      assert Acc(es, path, k - 1) >= es[path[0]].count by {
        if k - 1 > 1 {
          BelowAcc(es, path, k - 1, 0);
        }
      }
    }
  }

  /** The largest user count in the store; bounds the accumulated count of a walk. */
  function MaxCount(es: seq<Block>): (m: nat)
    ensures forall k :: 0 <= k < |es| ==> es[k].count <= m
  {
    if |es| == 0 then 0
    else
      var m := MaxCount(es[..|es| - 1]);
      assert forall k :: 0 <= k < |es| - 1 ==> es[..|es| - 1][k] == es[k];
      if es[|es| - 1].count > m then es[|es| - 1].count else m
  }

  /** The walk of `blocks_reduce` from one root: offsets of used blocks, each remapped
      to the next, where every block after the first has at least as many users as
      all the blocks before it together (that is the condition for going on). */
  ghost predicate Walk(es: seq<Block>, path: seq<nat>)
  {
    && Linked(es, path)
    && (forall k :: 0 <= k < |path| ==> es[path[k]].count > 0)
    && (forall k :: 1 <= k < |path| ==> es[path[k]].count >= Acc(es, path, k))
  }

  /** A non-empty path of offsets, each remapped to the next. */
  ghost predicate Linked(es: seq<Block>, path: seq<nat>)
  {
    && |path| >= 1
    && (forall k :: 0 <= k < |path| ==> path[k] < |es|)
    && (forall k :: 0 <= k < |path| - 1 ==> es[path[k]].remap.Ref? && es[path[k]].remap.index == path[k + 1])
  }

  /** The effect of collapsing a walk.  The walk ends either at a block with no remap,
      which stays as it was, or at a block whose remap target has fewer users than the
      whole walk, which takes over all those users and drops its remap.  Every other
      block of the walk is retired: no users, remapped to the end.  Blocks off the walk
      are untouched.  The orientation flags of the new remaps are not stated. */
  ghost predicate Collapsed(es: seq<Block>, es': seq<Block>, path: seq<nat>)
    requires Walk(es, path) && |es'| == |es|
  {
    var e := path[|path| - 1];
    var total := Acc(es, path, |path|);
    && ((es[e].remap.NoRef? && es'[e] == es[e])
        || (es[e].remap.Ref? && es[e].remap.index < |es| && es[es[e].remap.index].count < total
            && es'[e] == es[e].(count := total, remap := NoRef)))
    && (forall k :: 0 <= k < |path| - 1 && path[k] != e ==>
          es'[path[k]] == es[path[k]].(count := 0, remap := es'[path[k]].remap)
          && es'[path[k]].remap.Ref? && es'[path[k]].remap.index == e)
    && (forall x :: 0 <= x < |es| && x !in path ==> es'[x] == es[x])
  }

  /** Offsets of a walk before its last one are pairwise distinct. */
  ghost predicate DistinctPrefix(path: seq<nat>)
  {
    forall a, b :: 0 <= a < b < |path| - 1 ==> path[a] != path[b]
  }

  /** Going on from the end of a walk to its remap target keeps it a walk whose
      offsets before the end are distinct, and accumulates the end's users. */
  lemma WalkExtend(es: seq<Block>, path: seq<nat>, count: nat)
    requires Walk(es, path) && DistinctPrefix(path)
    requires count == Acc(es, path, |path| - 1)
    requires es[path[|path| - 1]].remap.Ref? && es[path[|path| - 1]].remap.index < |es|
    requires es[es[path[|path| - 1]].remap.index].count >= count + es[path[|path| - 1]].count
    ensures var path' := path + [es[path[|path| - 1]].remap.index];
            Walk(es, path') && DistinctPrefix(path')
            && count + es[path[|path| - 1]].count == Acc(es, path', |path'| - 1)
  {
    var n := |path| - 1;
    var curr := path[n];
    var next := es[curr].remap.index;
    var path' := path + [next];
    forall k | 0 <= k <= |path|
      ensures Acc(es, path', k) == Acc(es, path, k)
    {
      AccExtend(es, path, next, k);
    }
    if n >= 2 {
      forall a | 0 <= a < n
        ensures path[a] != curr
      {
        BelowAcc(es, path, n, a);
      }
    } else if n == 1 {
      assert Acc(es, path, 1) == es[path[0]].count;
    }
  }

  /** The end of a walk reappears earlier on it only when a block is remapped to itself. */
  lemma WalkEndOnce(es: seq<Block>, path: seq<nat>)
    requires Walk(es, path)
    ensures forall a :: 0 <= a < |path| - 1 && path[a] == path[|path| - 1] ==> |path| == 2
  {
    var n := |path| - 1;
    if n >= 2 {
      forall a | 0 <= a < n
        ensures path[a] != path[n]
      {
        BelowAcc(es, path, n, a);
      }
    }
  }

  /** One iteration of the outer loop of `blocks_reduce`: the walk from root i and its
      collapse.  A block without users or without a remap is skipped. */
  method ReduceRoot(es: seq<Block>, i: nat) returns (es': seq<Block>, ghost path: seq<nat>)
    requires RemapsInRange(es) && i < |es|
    ensures |es'| == |es| && RemapsInRange(es')
    ensures es[i].count == 0 || es[i].remap.NoRef? ==> es' == es
    ensures es[i].count > 0 && es[i].remap.Ref? ==>
      Walk(es, path) && path[0] == i && Collapsed(es, es', path)
  {
    es' := es;
    path := [i];
    if es[i].count == 0 || es[i].remap.NoRef? {
      return;
    }
    var curr, best;
    es', curr, best, path := FollowWalk(es, i);
    WalkEndOnce(es, path);
    ghost var mid := es';
    es' := RetireWalk(es, es', i, path, curr, best);
    FinishCollapse(es, mid, es', path);
  }

  /** The first loop of `blocks_reduce` from root i: follow remaps while the target
      has at least as many users as the walk so far.  When a target has fewer, the
      end of the walk takes over all the walk's users and drops its remap. */
  method FollowWalk(es: seq<Block>, i: nat) returns (es': seq<Block>, curr: nat, best: Ref, ghost path: seq<nat>)
    requires RemapsInRange(es) && i < |es| && es[i].count > 0 && es[i].remap.Ref?
    ensures |es'| == |es| && curr < |es| && es'[curr].remap.NoRef?
    ensures forall x :: 0 <= x < |es| && x != curr ==> es'[x] == es[x]
    ensures Walk(es, path) && DistinctPrefix(path) && path[0] == i && path[|path| - 1] == curr
    ensures |path| >= 2 ==> best.Ref? && best.index == curr
    ensures || (es' == es && es[curr].remap.NoRef?)
            || (es[curr].remap.Ref? && es[es[curr].remap.index].count < Acc(es, path, |path|)
                && es' == es[curr := es[curr].(count := Acc(es, path, |path|), remap := NoRef)])
  {
    es' := es;
    path := [i];
    curr := i;
    best := Ref(i, 0);
    var count := 0;
    while es[curr].remap.Ref?
      invariant Following(es, i, path, curr, count, best)
      invariant es' == es
      decreases MaxCount(es) - count
    {
      var next := es[curr].remap.index;
      if es[next].count < count + es[curr].count {
        es' := TakeOver(es, path, curr, count);
        return;
      }
      FollowStep(es, i, path, curr, count, best);
      count := count + es[curr].count;
      best := es[curr].remap;
      curr := next;
      path := path + [curr];
    }
  }

  /** Where the target has fewer users than the walk, the end of the walk takes
      them all and drops its remap. */
  method TakeOver(es: seq<Block>, ghost path: seq<nat>, curr: nat, count: nat) returns (es': seq<Block>)
    requires RemapsInRange(es) && Linked(es, path) && path[|path| - 1] == curr && count == Acc(es, path, |path| - 1)
    requires es[curr].remap.Ref? && es[es[curr].remap.index].count < count + es[curr].count
    ensures es[es[curr].remap.index].count < Acc(es, path, |path|)
    ensures es' == es[curr := es[curr].(count := Acc(es, path, |path|), remap := NoRef)]
  {
    es' := es[curr := es[curr].(count := count + es[curr].count, remap := NoRef)];
  }

  /** The state of the first loop of `blocks_reduce`: the walk so far ends at `curr`,
      `count` is the users of the walk before `curr`, and `best` points at `curr`. */
  ghost predicate Following(es: seq<Block>, i: nat, path: seq<nat>, curr: nat, count: nat, best: Ref)
  {
    && Walk(es, path) && DistinctPrefix(path) && path[0] == i && path[|path| - 1] == curr
    && count == Acc(es, path, |path| - 1) && count <= MaxCount(es)
    && (|path| >= 2 ==> best.Ref? && best.index == curr)
  }

  lemma FollowStep(es: seq<Block>, i: nat, path: seq<nat>, curr: nat, count: nat, best: Ref)
    requires RemapsInRange(es) && Following(es, i, path, curr, count, best) && es[curr].remap.Ref?
    requires es[es[curr].remap.index].count >= count + es[curr].count
    ensures es[curr].count > 0 && count + es[curr].count <= MaxCount(es)
    ensures count + es[curr].count == Acc(es, path, |path|)
    ensures Following(es, i, path + [es[curr].remap.index], es[curr].remap.index, count + es[curr].count, es[curr].remap)
  {
    WalkExtend(es, path, count);
  }

  /** The two loops of one root together make a collapse. */
  lemma FinishCollapse(es: seq<Block>, mid: seq<Block>, es': seq<Block>, path: seq<nat>)
    requires RemapsInRange(es) && Walk(es, path)
    requires var e := path[|path| - 1];
      || (mid == es && es[e].remap.NoRef?)
      || (es[e].remap.Ref? && es[es[e].remap.index].count < Acc(es, path, |path|)
          && mid == es[e := es[e].(count := Acc(es, path, |path|), remap := NoRef)])
    requires var e := path[|path| - 1];
      && |es'| == |es| && es'[e] == mid[e]
      && (forall k :: 0 <= k < |path| - 1 && path[k] != e ==>
            es'[path[k]] == es[path[k]].(count := 0, remap := es'[path[k]].remap)
            && es'[path[k]].remap.Ref? && es'[path[k]].remap.index == e)
      && (forall x :: 0 <= x < |es| && x !in path ==> es'[x] == mid[x])
    ensures Collapsed(es, es', path) && RemapsInRange(es')
  {
    var e := path[|path| - 1];
    forall x | 0 <= x < |es| && x !in path
      ensures es'[x] == es[x]
    {
      assert x != e;
    }
    forall x | 0 <= x < |es| && es'[x].remap.Ref?
      ensures es'[x].remap.index < |es|
    {
      if x in path {
        var k :| 0 <= k < |path| && path[k] == x;
      }
    }
  }

  /** The second loop of `blocks_reduce`: from the root up to the end of the walk,
      every block loses its users and is remapped to the end, with the orientation
      flags met on the way xor'ed into the end's reference. */
  method RetireWalk(es: seq<Block>, mid: seq<Block>, i: nat, ghost path: seq<nat>, curr: nat, best: Ref)
    returns (es': seq<Block>)
    requires Linked(es, path) && DistinctPrefix(path) && path[0] == i && path[|path| - 1] == curr
    requires |path| >= 2 ==> best.Ref? && best.index == curr
    requires forall a :: 0 <= a < |path| - 1 && path[a] == curr ==> |path| == 2
    requires |mid| == |es| && forall x :: 0 <= x < |es| && x != curr ==> mid[x] == es[x]
    ensures |es'| == |es| && es'[curr] == mid[curr]
    ensures forall k :: 0 <= k < |path| - 1 && path[k] != curr ==>
      es'[path[k]] == es[path[k]].(count := 0, remap := es'[path[k]].remap)
      && es'[path[k]].remap.Ref? && es'[path[k]].remap.index == curr
    ensures forall x :: 0 <= x < |es| && x !in path ==> es'[x] == mid[x]
  {
    es' := mid;
    var root := i;
    var active: Flags := 0;
    ghost var j := 0;
    while root != curr
      invariant 0 <= j < |path| && root == path[j] && |es'| == |es|
      invariant forall k :: 0 <= k < j ==> path[k] != curr
      invariant forall k :: 0 <= k < j ==>
        es'[path[k]] == es[path[k]].(count := 0, remap := es'[path[k]].remap)
        && es'[path[k]].remap.Ref? && es'[path[k]].remap.index == curr
      invariant forall x :: 0 <= x < |es| && x !in path[..j] ==> es'[x] == mid[x]
      decreases |path| - j
    {
      assert path[j] !in path[..j];
      var r := es'[root].remap;
      var next := r.index;
      active := active ^ r.flags;
      es' := es'[root := es'[root].(remap := Ref(best.index, best.flags ^ active), count := 0)];
      root := next;
      j := j + 1;
      assert path[..j] == path[..j - 1] + [path[j - 1]];
    }
    assert forall x :: x in path[..j] ==> x != curr;
  }

  /** Every block whose users all moved away points at a block that has users and no
      remap of its own. */
  ghost predicate Settled(es: seq<Block>, k: nat)
    requires k < |es|
  {
    es[k].remap.Ref? && es[k].remap.index < |es|
    && es[es[k].remap.index].count > 0 && es[es[k].remap.index].remap.NoRef?
  }

  /** The outer-loop invariant of `blocks_reduce` after the roots before i. */
  ghost predicate ReduceInvariant(orig: seq<Block>, es: seq<Block>, i: nat)
  {
    && i <= |orig| && |es| == |orig| && RemapsInRange(es)
    && (forall k :: 0 <= k < |es| ==> es[k].bits == orig[k].bits && es[k].next == orig[k].next)
    && (forall k :: 0 <= k < |es| && orig[k].remap.NoRef? ==> es[k] == orig[k])
    && (forall k :: 0 <= k < |es| && orig[k].count == 0 ==> es[k] == orig[k])
    && (forall k :: 0 <= k < i && es[k].count > 0 ==> es[k].remap.NoRef?)
    && (forall k :: 0 <= k < |es| && orig[k].count > 0 && es[k].count == 0 ==> Settled(es, k))
  }

  /** What one root's collapse may do to a block: bitmaps and links stay; only a used
      block with a remap can change, and a changed block either lost its users and
      points at a used block without remap, or has users and no remap. */
  ghost predicate StepEffect(es: seq<Block>, es': seq<Block>)
    requires |es'| == |es|
  {
    forall x :: 0 <= x < |es| ==>
      && es'[x].bits == es[x].bits && es'[x].next == es[x].next
      && (es'[x] != es[x] ==>
            && es[x].count > 0 && es[x].remap.Ref?
            && ((es'[x].count == 0 && Settled(es', x)) || (es'[x].count > 0 && es'[x].remap.NoRef?)))
  }

  /** A collapse has that effect, and always changes its root. */
  lemma CollapsedEffect(es: seq<Block>, es': seq<Block>, path: seq<nat>)
    requires Walk(es, path) && |es'| == |es| && Collapsed(es, es', path)
    requires es[path[0]].remap.Ref?
    ensures StepEffect(es, es') && es'[path[0]] != es[path[0]]
  {
    var e := path[|path| - 1];
    assert es'[e].count > 0 && es'[e].remap.NoRef?;
    forall x | 0 <= x < |es| && x in path
      ensures es'[x].bits == es[x].bits && es'[x].next == es[x].next
      ensures es[x].count > 0 && (x != e ==> es[x].remap.Ref? && es'[x].count == 0 && Settled(es', x))
    {
      var k :| 0 <= k < |path| && path[k] == x;
    }
    var r := path[0];
    if r != e {
      assert es'[r].count == 0;
    }
  }

  lemma ReduceStep(orig: seq<Block>, es: seq<Block>, es': seq<Block>, i: nat)
    requires ReduceInvariant(orig, es, i) && i < |orig|
    requires |es'| == |es| && RemapsInRange(es') && StepEffect(es, es')
    requires es[i].count > 0 && es[i].remap.Ref? ==> es'[i] != es[i]
    ensures ReduceInvariant(orig, es', i + 1)
  {
    forall k | 0 <= k < |es| && orig[k].count > 0 && es'[k].count == 0
      ensures Settled(es', k)
    {
      if es'[k] == es[k] {
        assert Settled(es, k);
        var t := es[k].remap.index;
        assert es'[t] == es[t];
      }
    }
  }

  /** `blocks_reduce`: every used block with a remap is collapsed in offset order.
      Afterwards no used block has a remap, and every block that lost its users points
      straight at a used block; blocks that had no users or no remap are untouched,
      and bitmaps and chains never change. */
  method Reduce(s: Store) returns (s': Store)
    requires RemapsInRange(s.entries)
    ensures s'.heads == s.heads && |s'.entries| == |s.entries| && RemapsInRange(s'.entries)
    ensures forall k :: 0 <= k < |s.entries| ==>
      s'.entries[k].bits == s.entries[k].bits && s'.entries[k].next == s.entries[k].next
    ensures forall k :: 0 <= k < |s.entries| && (s.entries[k].remap.NoRef? || s.entries[k].count == 0) ==>
      s'.entries[k] == s.entries[k]
    ensures forall k :: 0 <= k < |s.entries| && s'.entries[k].count > 0 ==> s'.entries[k].remap.NoRef?
    ensures forall k :: 0 <= k < |s.entries| && s.entries[k].count > 0 && s'.entries[k].count == 0 ==>
      Settled(s'.entries, k)
  {
    var es := s.entries;
    var i := 0;
    while i < |s.entries|
      invariant ReduceInvariant(s.entries, es, i)
    {
      var next;
      ghost var path;
      next, path := ReduceRoot(es, i);
      if es[i].count > 0 && es[i].remap.Ref? {
        CollapsedEffect(es, next, path);
      }
      ReduceStep(s.entries, es, next, i);
      es := next;
      i := i + 1;
    }
    s' := Store(es, s.heads);
  }

  /** Reduction keeps a valid store valid. */
  lemma ReduceKeepsValid(s: Store, s': Store)
    requires Valid(s) && s'.heads == s.heads && |s'.entries| == |s.entries| && RemapsInRange(s'.entries)
    requires forall k :: 0 <= k < |s.entries| ==>
      s'.entries[k].bits == s.entries[k].bits && s'.entries[k].next == s.entries[k].next
    ensures Valid(s')
  {
    SameShapeValid(s, s');
  }

  // ---------------------------------------------------------------------------
  // Compaction

  /** Number of used blocks before offset k: where a used block k lands. */
  function LiveCount(es: seq<Block>, k: nat): (c: nat)
    requires k <= |es|
    ensures c <= k
  {
    if k == 0 then 0 else LiveCount(es, k - 1) + (if es[k - 1].count > 0 then 1 else 0)
  }

  lemma {:induction false} LiveCountMono(es: seq<Block>, a: nat, b: nat)
    requires a <= b <= |es|
    ensures LiveCount(es, a) <= LiveCount(es, b)
    ensures a < b && es[a].count > 0 ==> LiveCount(es, a) < LiveCount(es, b)
    decreases b - a
  {
    if a < b {
      LiveCountMono(es, a, b - 1);
    }
  }

  /** `remap | flags` on packed references: the sentinel absorbs the flags, and a
      reference gains them. */
  function OrFlags(r: Ref, f: Flags): (r': Ref)
    ensures r'.NoRef? <==> r.NoRef?
    ensures r'.Ref? ==> r'.index == r.index && r'.flags & f == f && r'.flags & r.flags == r.flags
  {
    match r
    case NoRef => NoRef
    case Ref(x, g) => Ref(x, g | f)
  }

  /** Every block without users has a remap into the store, as `blocks_rebuild` needs
      to read its target. */
  predicate DeadRemapped(es: seq<Block>)
  {
    forall k :: 0 <= k < |es| && es[k].count == 0 ==> es[k].remap.Ref? && es[k].remap.index < |es|
  }

  /** Where `blocks_rebuild` sends the block at old offset k: a used block to its new
      offset LiveCount(k), unflipped.  A block without users follows its remap: to the
      new offset of the target when the target is used, otherwise to the target's own
      remap, an old offset; in both cases with its flags or'ed in. */
  function RebuildTarget(es: seq<Block>, k: nat): Ref
    requires DeadRemapped(es) && k < |es|
  {
    if es[k].count > 0 then Ref(LiveCount(es, k), 0)
    else
      var t := es[k].remap.index;
      OrFlags(if es[t].count > 0 then Ref(LiveCount(es, t), 0) else es[t].remap, es[k].remap.flags)
  }

  /** The outcome of `blocks_rebuild` on the blocks `es`: the new store holds exactly
      the used blocks, in order, with their counts, no remaps and no incoming count,
      and the table follows `RebuildTarget`. */
  ghost predicate Rebuilt(es: seq<Block>, s': Store, remaps: seq<Ref>)
    requires DeadRemapped(es)
  {
    && |remaps| == |es| && |s'.entries| == LiveCount(es, |es|)
    && (forall o :: 0 <= o < |s'.entries| ==>
          s'.entries[o].count > 0 && s'.entries[o].remap == NoRef && s'.entries[o].incoming == 0)
    && (forall k :: 0 <= k < |es| && es[k].count > 0 ==>
          && LiveCount(es, k) < |s'.entries|
          && s'.entries[LiveCount(es, k)].bits == es[k].bits
          && s'.entries[LiveCount(es, k)].count == es[k].count)
    && (forall k :: 0 <= k < |es| ==> remaps[k] == RebuildTarget(es, k))
  }

  /** Every block of a freshly rebuilt store is used and carries no remap. */
  ghost predicate Clean(os: seq<Block>)
  {
    forall o :: 0 <= o < |os| ==> os[o].count > 0 && os[o].remap == NoRef && os[o].incoming == 0
  }

  /** The used blocks before i sit at their new offsets in `os`, and the table says so. */
  ghost predicate Placed(es: seq<Block>, i: nat, os: seq<Block>, remaps: seq<Ref>)
    requires i <= |es| && |remaps| == i
  {
    forall k :: 0 <= k < i && es[k].count > 0 ==>
      && remaps[k] == Ref(LiveCount(es, k), 0) && LiveCount(es, k) < |os|
      && os[LiveCount(es, k)].bits == es[k].bits
      && os[LiveCount(es, k)].count == es[k].count
  }

  /** The old blocks after the first loop has passed the blocks before i: the used ones
      have had their remap field overwritten with their new offset. */
  ghost predicate Overwritten(es: seq<Block>, i: nat, prior: seq<Block>)
    requires |prior| == |es|
  {
    forall k :: 0 <= k < |es| ==>
      prior[k].count == es[k].count
      && prior[k].remap == if k < i && es[k].count > 0 then Ref(LiveCount(es, k), 0) else es[k].remap
  }

  /** The state of the first loop of `blocks_rebuild` after the blocks before i. */
  ghost predicate CopyInvariant(es: seq<Block>, i: nat, out: Store, remaps: seq<Ref>, prior: seq<Block>)
  {
    && i <= |es| && |remaps| == i && |prior| == |es|
    && |out.entries| == LiveCount(es, i)
    && Clean(out.entries)
    && Placed(es, i, out.entries, remaps)
    && Overwritten(es, i, prior)
  }

  lemma CopyDead(es: seq<Block>, i: nat, out: Store, remaps: seq<Ref>, prior: seq<Block>)
    requires CopyInvariant(es, i, out, remaps, prior) && i < |es| && es[i].count == 0
    ensures CopyInvariant(es, i + 1, out, remaps + [NoRef], prior)
  {
    LiveCountSkips(es, i);
    PlacedDead(es, i, out.entries, remaps);
    OverwrittenDead(es, i, prior);
  }

  lemma LiveCountSkips(es: seq<Block>, i: nat)
    requires i < |es| && es[i].count == 0
    ensures LiveCount(es, i + 1) == LiveCount(es, i)
  {
  }

  lemma PlacedDead(es: seq<Block>, i: nat, os: seq<Block>, remaps: seq<Ref>)
    requires i < |es| && |remaps| == i && es[i].count == 0 && Placed(es, i, os, remaps)
    ensures Placed(es, i + 1, os, remaps + [NoRef])
  {
    var r' := remaps + [NoRef];
    forall k | 0 <= k < i + 1 && es[k].count > 0
      ensures r'[k] == Ref(LiveCount(es, k), 0) && LiveCount(es, k) < |os|
      ensures os[LiveCount(es, k)].bits == es[k].bits && os[LiveCount(es, k)].count == es[k].count
    {
      assert k < i && r'[k] == remaps[k];
    }
  }

  lemma OverwrittenDead(es: seq<Block>, i: nat, prior: seq<Block>)
    requires i < |es| && |prior| == |es| && es[i].count == 0 && Overwritten(es, i, prior)
    ensures Overwritten(es, i + 1, prior)
  {
  }

  lemma PlacedLive(es: seq<Block>, i: nat, os: seq<Block>, b: Block, remaps: seq<Ref>)
    requires i < |es| && |remaps| == i && |os| == LiveCount(es, i) && es[i].count > 0
    requires Placed(es, i, os, remaps) && b.bits == es[i].bits && b.count == es[i].count
    ensures Placed(es, i + 1, os + [b], remaps + [Ref(|os|, 0)])
  {
    var os', r' := os + [b], remaps + [Ref(|os|, 0)];
    forall k | 0 <= k < i + 1 && es[k].count > 0
      ensures r'[k] == Ref(LiveCount(es, k), 0) && LiveCount(es, k) < |os'|
      ensures os'[LiveCount(es, k)].bits == es[k].bits && os'[LiveCount(es, k)].count == es[k].count
    {
      if k < i {
        LiveCountMono(es, k, i);
        assert r'[k] == remaps[k];
        assert os'[LiveCount(es, k)] == os[LiveCount(es, k)];
      }
    }
  }

  lemma OverwrittenLive(es: seq<Block>, i: nat, prior: seq<Block>)
    requires i < |es| && |prior| == |es| && es[i].count > 0 && Overwritten(es, i, prior)
    ensures Overwritten(es, i + 1, prior[i := prior[i].(remap := Ref(LiveCount(es, i), 0))])
  {
  }

  lemma CopyLive(es: seq<Block>, i: nat, out: Store, out': Store, remaps: seq<Ref>, prior: seq<Block>, b: Block)
    requires CopyInvariant(es, i, out, remaps, prior) && i < |es| && es[i].count > 0
    requires out'.entries == out.entries + [b]
    requires b.bits == es[i].bits && b.count == es[i].count && b.remap == NoRef && b.incoming == 0
    ensures var offset := |out.entries|;
      CopyInvariant(es, i + 1, out', remaps + [Ref(offset, 0)], prior[i := prior[i].(remap := Ref(offset, 0))])
  {
    PlacedLive(es, i, out.entries, b, remaps);
    OverwrittenLive(es, i, prior);
    assert Clean(out'.entries);
  }

  /** The first loop of `blocks_rebuild`: used blocks are appended to a fresh store
      and their old remap fields overwritten with their new offsets. */
  method RebuildCopy(es: seq<Block>) returns (out: Store, remaps: seq<Ref>, prior: seq<Block>)
    ensures Valid(out) && CopyInvariant(es, |es|, out, remaps, prior)
  {
    out := Init();
    prior := es;
    remaps := [];
    var i := 0;
    assert Overwritten(es, 0, prior);
    while i < |es|
      invariant i <= |es|
      invariant Valid(out)
      invariant CopyInvariant(es, i, out, remaps, prior)
    {
      out, remaps, prior := CopyOne(es, i, out, remaps, prior);
      i := i + 1;
    }
  }

  /** One pass of the first loop of `blocks_rebuild`: an unused block is skipped, a
      used one is appended and its old remap field overwritten with its new offset. */
  method CopyOne(es: seq<Block>, i: nat, out: Store, remaps: seq<Ref>, prior: seq<Block>)
    returns (out': Store, remaps': seq<Ref>, prior': seq<Block>)
    requires Valid(out) && CopyInvariant(es, i, out, remaps, prior) && i < |es|
    ensures Valid(out') && CopyInvariant(es, i + 1, out', remaps', prior')
  {
    if es[i].count == 0 {
      CopyDead(es, i, out, remaps, prior);
      out', remaps', prior' := out, remaps + [NoRef], prior;
    } else {
      var offset := |out.entries|;
      out' := Push(out, es[i].bits, es[i].count);
      CopyLive(es, i, out, out', remaps, prior, out'.entries[offset]);
      prior' := prior[i := prior[i].(remap := Ref(offset, 0))];
      remaps' := remaps + [Ref(offset, 0)];
    }
  }

  /** The second loop of `blocks_rebuild`: every block without users takes the
      (possibly overwritten) remap field of its target, with its own flags or'ed in. */
  method RebuildResolve(es: seq<Block>, prior: seq<Block>, remaps: seq<Ref>) returns (remaps': seq<Ref>)
    requires DeadRemapped(es) && |prior| == |es| && |remaps| == |es|
    requires forall k :: 0 <= k < |es| ==>
      prior[k].count == es[k].count
      && prior[k].remap == if es[k].count > 0 then Ref(LiveCount(es, k), 0) else es[k].remap
    requires forall k :: 0 <= k < |es| && es[k].count > 0 ==> remaps[k] == Ref(LiveCount(es, k), 0)
    ensures |remaps'| == |es| && forall k :: 0 <= k < |es| ==> remaps'[k] == RebuildTarget(es, k)
  {
    remaps' := remaps;
    var i := 0;
    while i < |es|
      invariant 0 <= i <= |es| && |remaps'| == |es|
      invariant forall k :: 0 <= k < |es| && es[k].count > 0 ==> remaps'[k] == Ref(LiveCount(es, k), 0)
      invariant forall k :: 0 <= k < i ==> remaps'[k] == RebuildTarget(es, k)
    {
      if prior[i].count == 0 {
        var index := prior[i].remap.index;
        remaps' := remaps'[i := OrFlags(prior[index].remap, prior[i].remap.flags)];
      }
      i := i + 1;
    }
  }

  /** `blocks_rebuild`: the used blocks are copied, in order, into a fresh valid
      store; the table says where each old offset went. */
  method Rebuild(s: Store) returns (s': Store, remaps: seq<Ref>)
    requires DeadRemapped(s.entries)
    ensures Valid(s') && Rebuilt(s.entries, s', remaps)
  {
    var prior;
    s', remaps, prior := RebuildCopy(s.entries);
    remaps := RebuildResolve(s.entries, prior, remaps);
  }

  /** When every block without users points at a used block, the table of `Rebuild`
      sends every old offset to a block of the new store, which holds the old bitmap
      itself for a used block and the bitmap of its stand-in otherwise.  `Reduce`
      establishes that premise only for a store whose blocks all had users; a block
      that `blocks_load` left with no users and no remap keeps that state. */
  lemma RebuildTableTotal(es: seq<Block>, s': Store, remaps: seq<Ref>)
    requires DeadRemapped(es) && Rebuilt(es, s', remaps)
    requires forall k :: 0 <= k < |es| && es[k].count == 0 ==> es[es[k].remap.index].count > 0
    ensures forall k :: 0 <= k < |es| ==>
      && remaps[k].Ref? && remaps[k].index < |s'.entries|
      && s'.entries[remaps[k].index].bits == (if es[k].count > 0 then es[k].bits else es[es[k].remap.index].bits)
  {
    forall k | 0 <= k < |es|
      ensures remaps[k].Ref? && remaps[k].index < |s'.entries|
      ensures s'.entries[remaps[k].index].bits == (if es[k].count > 0 then es[k].bits else es[es[k].remap.index].bits)
    {
      if es[k].count == 0 {
        var t := es[k].remap.index;
        assert remaps[k].index == LiveCount(es, t);
      }
    }
  }

  /** If every block had users before the reduction, every block without users after
      it is settled on a used block, which is the premise of `RebuildTableTotal`. */
  lemma SettledWhenAllUsed(orig: seq<Block>, es: seq<Block>)
    requires |es| == |orig| && forall k :: 0 <= k < |orig| ==> orig[k].count > 0
    requires forall k :: 0 <= k < |orig| && orig[k].count > 0 && es[k].count == 0 ==> Settled(es, k)
    ensures DeadRemapped(es)
    ensures forall k :: 0 <= k < |es| && es[k].count == 0 ==>
      es[k].remap.Ref? && es[k].remap.index < |es| && es[es[k].remap.index].count > 0
  {
  }

  /** `blocks_reduce` followed by `blocks_rebuild` on a store whose blocks all have
      users, as the encoder builds it: the reduction leaves every block that lost its
      users pointing at a used block, so the rebuild's table is total and names, for
      every old offset, a block holding that offset's bitmap after the reduction. */
  method ReduceThenRebuild(s: Store) returns (reduced: Store, s': Store, remaps: seq<Ref>)
    requires RemapsInRange(s.entries)
    requires forall k :: 0 <= k < |s.entries| ==> s.entries[k].count > 0
    ensures |reduced.entries| == |s.entries| && |remaps| == |s.entries| && Valid(s')
    ensures forall k :: 0 <= k < |s.entries| ==> reduced.entries[k].bits == s.entries[k].bits
    ensures forall k :: 0 <= k < |s.entries| && reduced.entries[k].count == 0 ==>
      && reduced.entries[k].remap.Ref? && reduced.entries[k].remap.index < |s.entries|
      && reduced.entries[reduced.entries[k].remap.index].count > 0
    ensures forall k :: 0 <= k < |s.entries| ==>
      && remaps[k].Ref? && remaps[k].index < |s'.entries|
      && s'.entries[remaps[k].index].bits ==
           (if reduced.entries[k].count > 0 then s.entries[k].bits
            else s.entries[reduced.entries[k].remap.index].bits)
  {
    reduced := Reduce(s);
    SettledWhenAllUsed(s.entries, reduced.entries);
    s', remaps := Rebuild(reduced);
    RebuildTableTotal(reduced.entries, s', remaps);
  }
}
