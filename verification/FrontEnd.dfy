/** The allocator's front end: `Allocate` with its search over buckets, `Free`, `GetUsableSize` and
    `Realloc`, over the buckets' free lists and the calling thread's caches. */
module FrontEnd {
  import opened Lists
  import opened Bits
  import opened TaggedFreeList
  import opened SizeClasses
  import opened BufferLayout
  import CR = CacheRuns

  /** The shared list and this thread's cache of each bucket. */
  datatype Pools = Pools(free: seq<seq<nat>>, caches: seq<CR.Cache>)

  /** A bucket's free blocks are blocks of it, not live and not listed twice. */
  ghost predicate BucketOk(l: Layout, p: Pools, live: set<(nat, nat)>, i: nat)
    requires LayoutOk(l) && i < l.count == |p.free| == |p.caches|
  {
    var all := CR.Folded(p.caches[i]) + p.free[i];
    && Distinct(all) && CR.Fits(p.caches[i]) && p.caches[i].max != 1
    && forall b :: b in all ==> IsBlock(l, i, b) && (i, b) !in live
  }

  ghost predicate PoolsOk(l: Layout, p: Pools, live: set<(nat, nat)>) {
    && LayoutOk(l) && l.count == |p.free| == |p.caches|
    && (forall i :: 0 <= i < l.count ==> BucketOk(l, p, live, i))
    && forall x :: x in live ==> IsBlock(l, x.0, x.1)
  }

  /** After `Init` every bucket has all its blocks free, and no thread has a cache. */
  function FreshPools(l: Layout): Pools
    requires LayoutOk(l)
  {
    Pools(seq(l.count, i requires 0 <= i < l.count => Upto(Blocks(l, i))), seq(l.count, i => CR.NO_CACHE))
  }

  lemma FreshPoolsOk(l: Layout)
    requires LayoutOk(l)
    ensures PoolsOk(l, FreshPools(l), {})
  {
    var p := FreshPools(l);
    forall i | 0 <= i < l.count
      ensures BucketOk(l, p, {}, i)
    {
      assert CR.Folded(p.caches[i]) + p.free[i] == Upto(Blocks(l, i));
    }
  }

  // ----- allocation

  /** Where a request is served: nowhere for an empty one, a block of a bucket, or the generic
      allocator. */
  datatype Served = Nothing | Block(i: nat, b: nat) | Generic

  /** The index of the smallest fitting bucket. A request whose aligned size wraps to zero gets the
      index of the largest word. */
  function FirstIndex(s: Scheme, bytes: nat, k: nat): nat
    requires bytes > 0
  {
    var aligned := Align(bytes, Pow2(k));
    if aligned > 0 then
      IndexBySize(s, aligned)
    else
      match s
      case Linear => (WORD - 1) / 16
      case PiecewiseLinear => 13 + (WORD - 1) / 512
      case SmallFloat => 0
  }

  /** The first bucket from `i` on, among those of the alignment below `max`, that has a free block. */
  function Spill(s: Scheme, free: seq<seq<nat>>, i: nat, max: nat, k: nat): Option<nat>
    requires max <= |free| && k <= 12
    decreases max - i
  {
    if i >= max then None else if free[i] != [] then Some(i) else Spill(s, free, NextAligned(s, i, k), max, k)
  }

  function Limit(count: nat, i: nat): nat {
    if count < i + 4 then count else i + 4
  }

  function Chosen(l: Layout, p: Pools, bytes: nat, k: nat): Served
    requires |p.free| == |p.caches| == l.count && k <= 12
  {
    if bytes == 0 then
      Nothing
    else
      var i := FirstIndex(l.scheme, bytes, k);
      if i < l.count && CR.Take(p.caches[i]).1.Some? then
        Block(i, CR.Take(p.caches[i]).1.value)
      else
        var j := Spill(l.scheme, p.free, i, Limit(l.count, i), k);
        if j.None? || j.value >= l.count || p.free[j.value] == [] then Generic else Block(j.value, p.free[j.value][0])
  }

  /** What the code asserts of a request: a valid alignment, and for the float partitioning an aligned
      size below 2^32 - 1. The piecewise-linear one also asserts an aligned size other than 0, which
      the model does without. */
  predicate Asserted(s: Scheme, bytes: nat, k: nat) {
    k <= 12 && bytes < WORD && (s.SmallFloat? ==> Align(bytes, Pow2(k)) < 0xFFFF_FFFF)
  }

  /** The requests that the allocator handles: all those, but for float requests so near 2^64 that
      aligning them wraps around. */
  predicate Requestable(s: Scheme, bytes: nat, k: nat) {
    Asserted(s, bytes, k) && (s.SmallFloat? ==> bytes + (Pow2(k) - 1) < WORD)
  }

  /** Where the assertion lets a request pass, the first bucket covers it exactly when it is handled:
      a float request that wraps is taken for the smallest size. */
  lemma HandledIff(l: Layout, bytes: nat, k: nat)
    requires LayoutOk(l) && bytes > 0 && Asserted(l.scheme, bytes, k)
    ensures var i := FirstIndex(l.scheme, bytes, k);
            (i < l.count ==> l.Size(i) >= bytes) <==> Requestable(l.scheme, bytes, k)
  {
    if Requestable(l.scheme, bytes, k) {
      FirstIndexFits(l, bytes, k);
    } else {
      Pow2Monotone(k, 12);
      assert Pow2(12) == 4096;
      AlignIs(bytes, Pow2(k));
      FloatInRange(BIAS);
      assert FloatValue(BIAS) == 16;
    }
  }

  /** The largest word, to be aligned to 16, wraps to 0 and passes the assertion, and the first bucket's
      size is below it. */
  lemma WrappedRequest(l: Layout)
    requires LayoutOk(l) && l.scheme == SmallFloat
    ensures Asserted(SmallFloat, WORD - 1, 4) && !Requestable(SmallFloat, WORD - 1, 4)
    ensures FirstIndex(SmallFloat, WORD - 1, 4) == 0 && l.Size(0) < WORD - 1
  {
    assert Pow2(4) == 16;
    AlignIs(WORD - 1, 16);
    HandledIff(l, WORD - 1, 4);
  }

  /** The search stops at the first bucket of the alignment that has a block, and only there. */
  lemma {:induction false} SpillIs(s: Scheme, free: seq<seq<nat>>, i: nat, max: nat, k: nat)
    requires max <= |free| && k <= 12 && IsAligned(SizeByIndex(s, i), Pow2(k))
    ensures var j := Spill(s, free, i, max, k);
            var stop := if j.Some? then j.value else max;
            && (j.Some? ==> i <= stop < max && free[stop] != [] && IsAligned(SizeByIndex(s, stop), Pow2(k)))
            && forall m :: i <= m < stop && IsAligned(SizeByIndex(s, m), Pow2(k)) ==> free[m] == []
    decreases max - i
  {
    if i < max && free[i] == [] {
      SpillIs(s, free, NextAligned(s, i, k), max, k);
    }
  }

  /** The first index has the alignment and covers the request, as far as it is a bucket. */
  lemma FirstIndexFits(l: Layout, bytes: nat, k: nat)
    requires LayoutOk(l) && bytes > 0 && Requestable(l.scheme, bytes, k)
    ensures var i := FirstIndex(l.scheme, bytes, k);
            i < l.count ==>
              && IsAligned(l.Size(i), Pow2(k)) && l.Size(i) >= bytes
              && forall j :: i <= j < l.count ==> l.Size(j) >= bytes
  {
    var a := Pow2(k);
    Pow2Monotone(k, 12);
    assert Pow2(12) == 4096;
    AlignIs(bytes, a);
    RoundUpLeast(bytes, a);
    var aligned := Align(bytes, a);
    var i := FirstIndex(l.scheme, bytes, k);
    if l.scheme.SmallFloat? && aligned > FLOAT_MAX {
      FloatBeyond(aligned);
    } else if aligned > 0 && i < l.count {
      ClassKeepsAlignment(l.scheme, aligned, k);
      forall j | i <= j < l.count
        ensures l.Size(j) >= bytes
      {
        LeastCovering(l.scheme, aligned, j);
      }
    }
  }

  /** The first bucket tried is the smallest whose blocks cover the request rounded up to its alignment. */
  lemma FirstIndexIff(l: Layout, bytes: nat, k: nat, j: nat)
    requires LayoutOk(l) && bytes > 0 && Requestable(l.scheme, bytes, k) && j < l.count
    ensures l.Size(j) >= RoundUp(bytes, Pow2(k)) <==> j >= FirstIndex(l.scheme, bytes, k)
  {
    var aligned := Align(bytes, Pow2(k));
    RoundedNeed(bytes, k);
    if aligned == 0 {
      assert l.Size(j) <= l.bucketSize;
      WrappedIndex(l.scheme, bytes, k);
    } else if l.scheme.SmallFloat? && aligned > FLOAT_MAX {
      PastFloats(aligned, j);
    } else {
      LeastCovering(l.scheme, aligned, j);
    }
  }

  lemma WrappedIndex(s: Scheme, bytes: nat, k: nat)
    requires bytes > 0 && Align(bytes, Pow2(k)) == 0 && !s.SmallFloat?
    ensures FirstIndex(s, bytes, k) > MAX_BUCKETS
  {
  }

  lemma PastFloats(bytes: nat, j: nat)
    requires FLOAT_MAX < bytes && InRange(SmallFloat, j)
    ensures SizeByIndex(SmallFloat, j) < bytes && j < IndexBySize(SmallFloat, bytes)
  {
    FloatBeyond(bytes);
    FloatInRange(j + BIAS);
  }

  /** The aligned size is the rounded one, unless it wraps around. */
  lemma RoundedNeed(bytes: nat, k: nat)
    requires 0 < bytes < WORD && k <= 12
    ensures if Align(bytes, Pow2(k)) > 0 then Align(bytes, Pow2(k)) == RoundUp(bytes, Pow2(k))
            else RoundUp(bytes, Pow2(k)) >= bytes > WORD - 4096 && bytes + (Pow2(k) - 1) >= WORD
  {
    Pow2Monotone(k, 12);
    assert Pow2(12) == 4096;
    AlignIs(bytes, Pow2(k));
    RoundUpLeast(bytes, Pow2(k));
  }

  /** Every smaller bucket that covers the rounded request and has the alignment is out of blocks, the
      smallest also in the thread's cache, and no more than four buckets are tried. */
  ghost predicate Smallest(l: Layout, p: Pools, bytes: nat, k: nat, i: nat)
    requires LayoutOk(l) && |p.free| == |p.caches| == l.count
  {
    var need := RoundUp(bytes, Pow2(k));
    && i < l.count && l.Size(i) >= need
    && (forall j :: 0 <= j < i && l.Size(j) >= need && l.Size(j) % Pow2(k) == 0 ==> p.free[j] == [])
    && (forall j :: 0 <= j < i && l.Size(j) >= need && (forall m :: 0 <= m < j ==> l.Size(m) < need) ==>
          CR.Folded(p.caches[j]) == [])
    && (forall j :: 0 <= j && j + 4 <= i ==> l.Size(j) < need)
  }

  lemma ServedSmallest(l: Layout, p: Pools, bytes: nat, k: nat)
    requires LayoutOk(l) && |p.free| == |p.caches| == l.count
    requires Requestable(l.scheme, bytes, k) && Chosen(l, p, bytes, k).Block?
    ensures Smallest(l, p, bytes, k, Chosen(l, p, bytes, k).i)
  {
    var i, r := FirstIndex(l.scheme, bytes, k), Chosen(l, p, bytes, k);
    FirstIndexFits(l, bytes, k);
    ServedIndex(l, p, bytes, k);
    forall j | 0 <= j < l.count
      ensures l.Size(j) >= RoundUp(bytes, Pow2(k)) <==> j >= i
    {
      FirstIndexIff(l, bytes, k, j);
    }
    if i < l.count {
      SpillIs(l.scheme, p.free, i, Limit(l.count, i), k);
      CR.TakeIsLast(p.caches[i]);
    }
  }

  /** The bucket that serves a request is one of those its size and alignment allow. */
  lemma ServedIndex(l: Layout, p: Pools, bytes: nat, k: nat)
    requires LayoutOk(l) && |p.free| == |p.caches| == l.count
    requires Requestable(l.scheme, bytes, k) && Chosen(l, p, bytes, k).Block?
    ensures var r := Chosen(l, p, bytes, k);
            r.i < l.count && l.Size(r.i) >= bytes && l.Size(r.i) % Pow2(k) == 0
  {
    var i := FirstIndex(l.scheme, bytes, k);
    FirstIndexFits(l, bytes, k);
    if i < l.count {
      SpillIs(l.scheme, p.free, i, Limit(l.count, i), k);
    }
  }

  lemma ServedIsFree(l: Layout, p: Pools, bytes: nat, k: nat)
    requires |p.free| == |p.caches| == l.count && k <= 12 && Chosen(l, p, bytes, k).Block?
    ensures var r := Chosen(l, p, bytes, k);
            r.i < l.count && r.b in CR.Folded(p.caches[r.i]) + p.free[r.i]
  {
    var r := Chosen(l, p, bytes, k);
    TakenIsCached(p.caches[r.i]);
  }

  /** Every block served lies in its bucket, was free, covers the request and has the alignment. */
  lemma ServedFits(l: Layout, p: Pools, live: set<(nat, nat)>, bytes: nat, k: nat)
    requires PoolsOk(l, p, live) && Requestable(l.scheme, bytes, k) && Chosen(l, p, bytes, k).Block?
    ensures var r := Chosen(l, p, bytes, k);
            IsBlock(l, r.i, r.b) && (r.i, r.b) !in live && Suits(l, r.i, r.b, bytes, k)
  {
    var r := Chosen(l, p, bytes, k);
    ServedIndex(l, p, bytes, k);
    ServedIsFree(l, p, bytes, k);
    assert BucketOk(l, p, live, r.i);
    BlockSuits(l, r.i, r.b, bytes, k);
  }

  /** The block lies inside its bucket, covers the request and has the alignment. */
  predicate Suits(l: Layout, i: nat, b: nat, bytes: nat, k: nat) {
    && l.Size(i) >= bytes && l.Address(i, b) % Pow2(k) == 0
    && l.Begin(i) <= l.Address(i, b) && l.Address(i, b) + l.Size(i) <= l.Begin(i + 1)
  }

  lemma BlockSuits(l: Layout, i: nat, b: nat, bytes: nat, k: nat)
    requires LayoutOk(l) && IsBlock(l, i, b) && k <= 12 && l.Size(i) >= bytes && l.Size(i) % Pow2(k) == 0
    ensures Suits(l, i, b, bytes, k)
  {
    BlockAligned(l, i, b, k);
    BlockInside(l, i, b, 0);
  }

  lemma TakenIsCached(c: CR.Cache)
    ensures CR.Take(c).1.Some? ==> CR.Take(c).1.value in CR.Folded(c)
  {
  }

  /** A request goes to the generic allocator only when its bucket's cache is empty and so is every
      bucket of the alignment that the search may use. */
  lemma GenericMeansExhausted(l: Layout, p: Pools, bytes: nat, k: nat, j: nat)
    requires LayoutOk(l) && |p.free| == |p.caches| == l.count && Requestable(l.scheme, bytes, k)
    requires bytes > 0 && Chosen(l, p, bytes, k) == Generic
    requires var i := FirstIndex(l.scheme, bytes, k);
             i <= j < l.count && j < i + 4 && IsAligned(l.Size(j), Pow2(k))
    ensures p.free[j] == [] && CR.Folded(p.caches[FirstIndex(l.scheme, bytes, k)]) == []
  {
    var i := FirstIndex(l.scheme, bytes, k);
    FirstIndexFits(l, bytes, k);
    SpillIs(l.scheme, p.free, i, Limit(l.count, i), k);
  }

  // ----- what calls do to the pools

  function Took(l: Layout, p: Pools, bytes: nat, k: nat): Pools
    requires |p.free| == |p.caches| == l.count && k <= 12
  {
    var r := Chosen(l, p, bytes, k);
    if !r.Block? then
      p
    else if r.i == FirstIndex(l.scheme, bytes, k) && CR.Take(p.caches[r.i]).1.Some? then
      p.(caches := p.caches[r.i := CR.Take(p.caches[r.i]).0])
    else
      p.(free := p.free[r.i := p.free[r.i][1..]])
  }

  /** The blocks that a release puts on the shared list. */
  function GivenBack(c: CR.Cache, b: nat): seq<nat> {
    if c.max == 0 then [b] else CR.Keep(c, b, true).1
  }

  function CacheAfter(c: CR.Cache, b: nat): CR.Cache {
    if c.max == 0 then c else CR.Keep(c, b, true).0
  }

  function Released(p: Pools, i: nat, b: nat): Pools
    requires i < |p.free| == |p.caches|
  {
    Pools(p.free[i := GivenBack(p.caches[i], b) + p.free[i]], p.caches[i := CacheAfter(p.caches[i], b)])
  }

  lemma {:induction false} DistinctOnce(s: seq<nat>, b: nat)
    requires Distinct(s)
    ensures multiset(s)[b] == if b in s then 1 else 0
  {
    if s != [] {
      var n := |s| - 1;
      assert s == s[..n] + [s[n]];
      assert forall i :: 0 <= i < n ==> s[..n][i] == s[i];
      DistinctOnce(s[..n], b);
    }
  }

  /** A list with one block more. */
  lemma OneMore(s: seq<nat>, s': seq<nat>, b: nat)
    requires Distinct(s) && b !in s && multiset(s') == multiset(s) + multiset{b}
    ensures Distinct(s') && forall x :: x in s' <==> x in s || x == b
  {
    forall x: nat
      ensures multiset(s')[x] == (if x in s || x == b then 1 else 0)
    {
      DistinctOnce(s, x);
    }
    OnceDistinct(s');
    forall x
      ensures x in s' <==> x in s || x == b
    {
      assert x in s' <==> x in multiset(s');
      assert x in s <==> x in multiset(s);
    }
  }

  /** A list with one block less. */
  lemma OneLess(s: seq<nat>, s': seq<nat>, b: nat)
    requires Distinct(s) && multiset(s) == multiset(s') + multiset{b}
    ensures Distinct(s') && b in s && forall x :: x in s' <==> x in s && x != b
  {
    forall x: nat
      ensures multiset(s')[x] == (if x in s && x != b then 1 else 0)
    {
      DistinctOnce(s, x);
      assert multiset(s)[x] == multiset(s')[x] + multiset{b}[x];
    }
    assert b in multiset(s);
    OnceDistinct(s');
    forall x
      ensures x in s' <==> x in s && x != b
    {
      assert x in s' <==> x in multiset(s');
    }
  }

  lemma ReleaseHolds(c: CR.Cache, list: seq<nat>, b: nat)
    ensures multiset(CR.Folded(CacheAfter(c, b)) + (GivenBack(c, b) + list)) ==
            multiset(CR.Folded(c) + list) + multiset{b}
  {
    var c', given := CacheAfter(c, b), GivenBack(c, b);
    FoldedHolds(c);
    FoldedHolds(c');
    assert CR.Holding(c') + multiset(given) == CR.Holding(c) + multiset{b} by {
      if c.max != 0 {
        CR.KeepHolds(c, b);
      }
    }
    assert multiset(CR.Folded(c') + (given + list)) == multiset(CR.Folded(c')) + multiset(given) + multiset(list);
  }

  lemma FoldedHolds(c: CR.Cache)
    ensures multiset(CR.Folded(c)) == CR.Holding(c)
  {
  }

  /** All free blocks of a bucket, the thread's and the shared ones. */
  function FreeBlocks(p: Pools, i: nat): multiset<nat>
    requires i < |p.free| == |p.caches|
  {
    multiset(CR.Folded(p.caches[i]) + p.free[i])
  }

  /** A free returns exactly the freed block to its bucket, and leaves the other buckets as they are. */
  lemma ReleasedOk(l: Layout, p: Pools, live: set<(nat, nat)>, i: nat, b: nat)
    requires PoolsOk(l, p, live) && (i, b) in live
    ensures i < l.count && PoolsOk(l, Released(p, i, b), live - {(i, b)})
    ensures FreeBlocks(Released(p, i, b), i) == FreeBlocks(p, i) + multiset{b}
    ensures forall j :: 0 <= j < l.count && j != i ==>
              Released(p, i, b).free[j] == p.free[j] && Released(p, i, b).caches[j] == p.caches[j]
  {
    var p', live' := Released(p, i, b), live - {(i, b)};
    assert BucketOk(l, p, live, i) && IsBlock(l, i, b);
    ReleaseHolds(p.caches[i], p.free[i], b);
    OneMore(CR.Folded(p.caches[i]) + p.free[i], CR.Folded(p'.caches[i]) + p'.free[i], b);
    if p.caches[i].max != 0 {
      CR.KeepFits(p.caches[i], b, true);
    }
    forall j | 0 <= j < l.count
      ensures BucketOk(l, p', live', j)
    {
      assert BucketOk(l, p, live, j);
    }
  }

  /** A block freed is the next to be served for its class, and serving it undoes the free, unless the
      thread's L0 was full. */
  lemma FreeThenAllocate(l: Layout, p: Pools, live: set<(nat, nat)>, i: nat, b: nat, bytes: nat, k: nat)
    requires PoolsOk(l, p, live) && (i, b) in live && bytes > 0 && k <= 12 && FirstIndex(l.scheme, bytes, k) == i
    requires |p.caches[i].l0| < CR.MAX_L0
    ensures Chosen(l, Released(p, i, b), bytes, k) == Block(i, b) && Took(l, Released(p, i, b), bytes, k) == p
  {
    var c, p1 := p.caches[i], Released(p, i, b);
    assert BucketOk(l, p, live, i);
    if c.max == 0 {
      assert p1.free[i] == [b] + p.free[i] && p1.free[i][1..] == p.free[i];
      assert p1.free[i := p.free[i]] == p.free;
      assert p1.caches == p.caches;
    } else {
      CR.KeepThenTake(c, b);
      assert [] + p.free[i] == p.free[i];
      assert p1.caches[i := c] == p.caches && p1.free == p.free;
    }
  }

  lemma TakeHolds(c: CR.Cache, list: seq<nat>)
    requires CR.Take(c).1.Some?
    ensures multiset(CR.Folded(c) + list) == multiset(CR.Folded(CR.Take(c).0) + list) + multiset{CR.Take(c).1.value}
    ensures CR.Fits(c) ==> CR.Fits(CR.Take(c).0) && CR.Take(c).0.max == c.max
  {
    CR.TakeHolds(c);
  }

  lemma HeadHolds(c: CR.Cache, list: seq<nat>)
    requires list != []
    ensures multiset(CR.Folded(c) + list) == multiset(CR.Folded(c) + list[1..]) + multiset{list[0]}
  {
    assert list == [list[0]] + list[1..];
  }

  /** The bucket that an allocation takes from. */
  lemma TookBucket(l: Layout, p: Pools, bytes: nat, k: nat)
    requires |p.free| == |p.caches| == l.count && k <= 12 && Chosen(l, p, bytes, k).Block?
    ensures var r, p' := Chosen(l, p, bytes, k), Took(l, p, bytes, k);
            && r.i < l.count == |p'.free| == |p'.caches|
            && multiset(CR.Folded(p.caches[r.i]) + p.free[r.i])
               == multiset(CR.Folded(p'.caches[r.i]) + p'.free[r.i]) + multiset{r.b}
            && (CR.Fits(p.caches[r.i]) ==> CR.Fits(p'.caches[r.i]) && p'.caches[r.i].max == p.caches[r.i].max)
            && forall j :: 0 <= j < l.count && j != r.i ==> p'.free[j] == p.free[j] && p'.caches[j] == p.caches[j]
  {
    var r := Chosen(l, p, bytes, k);
    var c, list := p.caches[r.i], p.free[r.i];
    if r.i == FirstIndex(l.scheme, bytes, k) && CR.Take(c).1.Some? {
      TakeHolds(c, list);
    } else {
      HeadHolds(c, list);
    }
  }

  /** A bucket with one block less. */
  lemma BucketLess(l: Layout, p: Pools, p': Pools, live: set<(nat, nat)>, i: nat, b: nat)
    requires PoolsOk(l, p, live) && i < l.count == |p'.free| == |p'.caches|
    requires CR.Fits(p'.caches[i]) && p'.caches[i].max == p.caches[i].max
    requires multiset(CR.Folded(p.caches[i]) + p.free[i]) ==
             multiset(CR.Folded(p'.caches[i]) + p'.free[i]) + multiset{b}
    requires forall j :: 0 <= j < l.count && j != i ==> p'.free[j] == p.free[j] && p'.caches[j] == p.caches[j]
    ensures IsBlock(l, i, b) && PoolsOk(l, p', live + {(i, b)})
  {
    assert BucketOk(l, p, live, i);
    OneLess(CR.Folded(p.caches[i]) + p.free[i], CR.Folded(p'.caches[i]) + p'.free[i], b);
    assert IsBlock(l, i, b);
    forall j | 0 <= j < l.count
      ensures BucketOk(l, p', live + {(i, b)}, j)
    {
      assert BucketOk(l, p, live, j);
    }
  }

  /** An allocation takes exactly the served block from its bucket, and leaves the other buckets as
      they are. */
  lemma TookOk(l: Layout, p: Pools, live: set<(nat, nat)>, bytes: nat, k: nat)
    requires PoolsOk(l, p, live) && k <= 12 && Chosen(l, p, bytes, k).Block?
    ensures var r, p' := Chosen(l, p, bytes, k), Took(l, p, bytes, k);
            && IsBlock(l, r.i, r.b) && PoolsOk(l, p', live + {(r.i, r.b)})
            && FreeBlocks(p, r.i) == FreeBlocks(p', r.i) + multiset{r.b}
            && forall j :: 0 <= j < l.count && j != r.i ==> p'.free[j] == p.free[j] && p'.caches[j] == p.caches[j]
  {
    var r := Chosen(l, p, bytes, k);
    TookBucket(l, p, bytes, k);
    assert BucketOk(l, p, live, r.i);
    BucketLess(l, p, Took(l, p, bytes, k), live, r.i, r.b);
  }
}
