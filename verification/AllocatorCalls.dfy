/** The allocator's calls on memory: no call writes to a live block, and `Realloc` keeps contents. */
module AllocatorCalls {
  import opened Lists
  import opened Arithmetic
  import opened Bits
  import opened TaggedFreeList
  import opened SizeClasses
  import opened BufferLayout
  import opened FrontEnd
  import CR = CacheRuns

  type Memory = map<nat, int>

  function Byte(mem: Memory, a: nat): int {
    if a in mem then mem[a] else 0
  }

  /** `memmove`: all bytes are read before any is written. */
  function Copy(mem: Memory, to: nat, from: nat, n: nat): Memory {
    if n == 0 then mem else Copy(mem, to, from, n - 1)[to + n - 1 := Byte(mem, from + n - 1)]
  }

  lemma {:induction false} CopyIs(mem: Memory, to: nat, from: nat, n: nat, a: nat)
    ensures Byte(Copy(mem, to, from, n), a) == if to <= a < to + n then Byte(mem, from + (a - to)) else Byte(mem, a)
  {
    if n > 0 {
      CopyIs(mem, to, from, n - 1, a);
    }
  }

  /** The links that a release writes into the first words of the blocks it returns; `links` says
      which bytes. */
  function Linked(mem: Memory, links: nat -> int, l: Layout, i: nat, given: seq<nat>): Memory {
    if given == [] then
      mem
    else
      LinkedWord(Linked(mem, links, l, i, given[1..]), links, l.Address(i, given[0]), 8)
  }

  function LinkedWord(mem: Memory, links: nat -> int, a: nat, n: nat): Memory {
    if n == 0 then mem else LinkedWord(mem, links, a, n - 1)[a + n - 1 := links(a + n - 1)]
  }

  lemma {:induction false} LinkedWordElsewhere(mem: Memory, links: nat -> int, a: nat, n: nat, x: nat)
    requires !(a <= x < a + n)
    ensures Byte(LinkedWord(mem, links, a, n), x) == Byte(mem, x)
  {
    if n > 0 {
      LinkedWordElsewhere(mem, links, a, n - 1, x);
    }
  }

  lemma {:induction false} LinkedElsewhere(mem: Memory, links: nat -> int, l: Layout, i: nat, given: seq<nat>, x: nat)
    requires forall b :: b in given ==> !(l.Address(i, b) <= x < l.Address(i, b) + 8)
    ensures Byte(Linked(mem, links, l, i, given), x) == Byte(mem, x)
  {
    if given != [] {
      LinkedElsewhere(mem, links, l, i, given[1..], x);
      LinkedWordElsewhere(Linked(mem, links, l, i, given[1..]), links, l.Address(i, given[0]), 8, x);
    }
  }

  /** The byte at `x` belongs to the block. */
  predicate InBlock(l: Layout, i: nat, b: nat, x: nat) {
    l.Address(i, b) <= x < l.Address(i, b) + l.Size(i)
  }

  predicate InBuffer(l: Layout, x: nat) {
    l.base <= x < l.End()
  }

  /** A byte belongs to one block at most, and lies in the buffer. */
  lemma OneBlock(l: Layout, i: nat, b: nat, j: nat, c: nat, x: nat)
    requires LayoutOk(l) && IsBlock(l, i, b) && IsBlock(l, j, c) && InBlock(l, i, b, x) && InBlock(l, j, c, x)
    ensures i == j && b == c
  {
    BlocksApart(l, i, b, j, c, x - l.Address(i, b), x - l.Address(j, c));
  }

  lemma BlockInBuffer(l: Layout, i: nat, b: nat, x: nat)
    requires LayoutOk(l) && IsBlock(l, i, b) && InBlock(l, i, b, x)
    ensures InBuffer(l, x)
  {
    BlockInside(l, i, b, x - l.Address(i, b));
  }

  /** A byte that no release may change: one of a live block, or outside the buffer. */
  ghost predicate Protected(l: Layout, live: set<(nat, nat)>, x: nat)
  {
    (exists i: nat, b: nat :: (i, b) in live && InBlock(l, i, b, x)) || !InBuffer(l, x)
  }

  ghost predicate Undisturbed(l: Layout, live: set<(nat, nat)>, mem: Memory, mem': Memory) {
    forall x: nat :: Protected(l, live, x) ==> Byte(mem', x) == Byte(mem, x)
  }

  lemma WordInBlock(l: Layout, i: nat, b: nat, x: nat)
    requires LayoutOk(l) && IsBlock(l, i, b) && l.Address(i, b) <= x < l.Address(i, b) + 8
    ensures InBlock(l, i, b, x)
  {
    assert 16 <= l.Size(i);
  }

  /** The word of a block that is not live is not protected. */
  lemma FreeWordOpen(l: Layout, live: set<(nat, nat)>, i: nat, b: nat, x: nat)
    requires LayoutOk(l) && (forall y :: y in live ==> IsBlock(l, y.0, y.1)) && IsBlock(l, i, b) && (i, b) !in live
    requires InBlock(l, i, b, x)
    ensures !Protected(l, live, x)
  {
    BlockInBuffer(l, i, b, x);
    forall j: nat, c: nat | (j, c) in live
      ensures !InBlock(l, j, c, x)
    {
      assert IsBlock(l, (j, c).0, (j, c).1);
      if InBlock(l, j, c, x) {
        OneBlock(l, i, b, j, c, x);
      }
    }
  }

  /** Returning blocks that are not live disturbs no live block and nothing outside the buffer. */
  lemma LinkedUndisturbed(l: Layout, live: set<(nat, nat)>, mem: Memory, links: nat -> int, i: nat, given: seq<nat>)
    requires LayoutOk(l) && (forall y :: y in live ==> IsBlock(l, y.0, y.1))
    requires forall b :: b in given ==> IsBlock(l, i, b) && (i, b) !in live
    ensures Undisturbed(l, live, mem, Linked(mem, links, l, i, given))
  {
    forall x: nat | Protected(l, live, x)
      ensures Byte(Linked(mem, links, l, i, given), x) == Byte(mem, x)
    {
      forall b | b in given
        ensures !(l.Address(i, b) <= x < l.Address(i, b) + 8)
      {
        if l.Address(i, b) <= x < l.Address(i, b) + 8 {
          WordInBlock(l, i, b, x);
          FreeWordOpen(l, live, i, b, x);
        }
      }
      LinkedElsewhere(mem, links, l, i, given, x);
    }
  }

  /** What a release gives back is free afterwards. */
  lemma GivenIsFree(l: Layout, p: Pools, live: set<(nat, nat)>, i: nat, b: nat)
    requires PoolsOk(l, p, live) && (i, b) in live
    ensures i < l.count && forall c :: c in GivenBack(p.caches[i], b) ==> IsBlock(l, i, c) && (i, c) !in live - {(i, b)}
  {
    ReleasedOk(l, p, live, i, b);
    var p' := Released(p, i, b);
    assert BucketOk(l, p', live - {(i, b)}, i);
    assert forall c :: c in GivenBack(p.caches[i], b) ==> c in p'.free[i];
  }

  // ----- moving a block's contents

  /** Where the bytes of a reallocated block may be copied to. */
  ghost predicate Target(l: Layout, live: set<(nat, nat)>, to: nat, n: nat) {
    forall x: nat :: to <= x < to + n && InBuffer(l, x) ==> !Protected(l, live, x)
  }

  /** The bytes of every live block are as before. */
  ghost predicate BlocksKept(l: Layout, live: set<(nat, nat)>, mem: Memory, mem': Memory) {
    forall i: nat, b: nat, x: nat :: (i, b) in live && InBlock(l, i, b, x) ==> Byte(mem', x) == Byte(mem, x)
  }

  lemma CopyKeeps(l: Layout, live: set<(nat, nat)>, mem: Memory, to: nat, from: nat, n: nat)
    requires LayoutOk(l) && (forall y :: y in live ==> IsBlock(l, y.0, y.1)) && Target(l, live, to, n)
    ensures BlocksKept(l, live, mem, Copy(mem, to, from, n))
  {
    forall i: nat, b: nat, x: nat | (i, b) in live && InBlock(l, i, b, x)
      ensures Byte(Copy(mem, to, from, n), x) == Byte(mem, x)
    {
      assert IsBlock(l, (i, b).0, (i, b).1);
      BlockInBuffer(l, i, b, x);
      assert Protected(l, live, x);
      CopyIs(mem, to, from, n, x);
    }
  }

  /** A block that is not live is a target for as many bytes as it has. */
  lemma BlockIsTarget(l: Layout, live: set<(nat, nat)>, i: nat, b: nat, n: nat)
    requires LayoutOk(l) && (forall y :: y in live ==> IsBlock(l, y.0, y.1)) && IsBlock(l, i, b) && (i, b) !in live
    requires n <= l.Size(i)
    ensures Target(l, live, l.Address(i, b), n)
  {
    forall x: nat | l.Address(i, b) <= x < l.Address(i, b) + n && InBuffer(l, x)
      ensures !Protected(l, live, x)
    {
      FreeWordOpen(l, live, i, b, x);
    }
  }

  function ByteAt(mem: Memory, p: nat, d: nat): int {
    Byte(mem, p + d)
  }

  /** The first `n` bytes at `q` are those that were at `p`. */
  ghost predicate SameBytes(mem: Memory, q: nat, before: Memory, p: nat, n: nat) {
    forall d: nat :: d < n ==> ByteAt(mem, q, d) == ByteAt(before, p, d)
  }

  /** All `n` bytes at `q` are protected. */
  ghost predicate Safe(l: Layout, live: set<(nat, nat)>, q: nat, n: nat) {
    forall x: nat :: q <= x < q + n ==> Protected(l, live, x)
  }

  /** A copy to a target, followed by calls that disturb nothing live, keeps the contents moved and
      every block that was live before and is after. */
  lemma MoveKeeps(l: Layout, live: set<(nat, nat)>, live': set<(nat, nat)>, mem: Memory, mem': Memory,
                  q: nat, p: nat, n: nat, kept: set<(nat, nat)>)
    requires LayoutOk(l) && (forall y :: y in live ==> IsBlock(l, y.0, y.1)) && Target(l, live, q, n)
    requires Undisturbed(l, live', Copy(mem, q, p, n), mem') && Safe(l, live', q, n) && kept <= live && kept <= live'
    ensures SameBytes(mem', q, mem, p, n) && BlocksKept(l, kept, mem, mem') && OutsideKept(l, mem, mem', q, n)
  {
    CopyKeeps(l, live, mem, q, p, n);
    forall x: nat | !InBuffer(l, x) && !(q <= x < q + n)
      ensures Byte(mem', x) == Byte(mem, x)
    {
      assert Protected(l, live', x);
      CopyIs(mem, q, p, n, x);
    }
    forall d: nat | d < n
      ensures ByteAt(mem', q, d) == ByteAt(mem, p, d)
    {
      assert Protected(l, live', q + d);
      CopyIs(mem, q, p, n, q + d);
    }
    forall i: nat, b: nat, x: nat | (i, b) in kept && InBlock(l, i, b, x)
      ensures Byte(mem', x) == Byte(mem, x)
    {
      assert (i, b) in live && (i, b) in live';
      assert Protected(l, live', x);
    }
  }

  /** A live block's bytes are protected, and so are those outside the buffer. */
  lemma LiveIsSafe(l: Layout, live: set<(nat, nat)>, i: nat, b: nat, n: nat)
    requires (i, b) in live && n <= l.Size(i)
    ensures Safe(l, live, l.Address(i, b), n)
  {
    forall x: nat | l.Address(i, b) <= x < l.Address(i, b) + n
      ensures Protected(l, live, x)
    {
      assert InBlock(l, i, b, x);
    }
  }

  /** A block of the generic allocator lies outside the buffer. */
  predicate Outside(l: Layout, q: nat, n: nat) {
    q + n <= l.base || l.End() <= q
  }

  /** The allocator's state as a value. */
  datatype Heap = Heap(pools: Pools, mem: Memory, live: set<(nat, nat)>)

  /** The pointer handed out for a request; null is 0. */
  function Pointer(l: Layout, r: Served, generic: Option<nat>, k: nat): nat {
    match r
    case Nothing => Pow2(k)
    case Block(i, b) => l.Address(i, b)
    case Generic => if generic.Some? then generic.value else 0
  }

  /** An empty request gets its alignment as a pointer, which no call takes for a block. */
  lemma EmptyRequest(l: Layout, p: Pools, generic: Option<nat>, k: nat)
    requires LayoutOk(l) && |p.free| == |p.caches| == l.count && k <= 12
    ensures var q := Pointer(l, Chosen(l, p, 0, k), generic, k);
            q == Pow2(k) && 0 < q <= MAX_ALIGNMENT && q < l.base
  {
    Pow2Monotone(k, 12);
    assert Pow2(12) == 4096;
  }

  /** The blocks that a request makes live. */
  function Gained(r: Served): set<(nat, nat)> {
    if r.Block? then {(r.i, r.b)} else {}
  }

  /** `q` is where the request is served: a block that was not live, lies inside its bucket, covers the
      request and has the alignment; or what the generic allocator returned. */
  ghost predicate Granted(l: Layout, s: Heap, bytes: nat, k: nat, generic: Option<nat>, q: nat)
    requires PoolsOk(l, s.pools, s.live) && k <= 12
  {
    var r := Chosen(l, s.pools, bytes, k);
    && q == Pointer(l, r, generic, k)
    && (r.Block? ==> (r.i, r.b) !in s.live && IsBlock(l, r.i, r.b) && Suits(l, r.i, r.b, bytes, k))
  }

  /** No byte outside the buffer has changed, but for the `n` bytes at `q`. */
  ghost predicate OutsideKept(l: Layout, mem: Memory, mem': Memory, q: nat, n: nat) {
    forall x: nat :: !InBuffer(l, x) && !(q <= x < q + n) ==> Byte(mem', x) == Byte(mem, x)
  }

  /** What growing a live block does: null and nothing changed, or a new place that holds all of the
      old block's contents, the old block and nothing else freed, and every other live block and all
      memory outside as it was. */
  ghost predicate Moved(l: Layout, i: nat, b: nat, bytes: nat, k: nat, generic: Option<nat>, q: nat, s: Heap, s': Heap)
    requires PoolsOk(l, s.pools, s.live) && k <= 12 && (i, b) in s.live
  {
    var r := Chosen(l, s.pools, bytes, k);
    && Granted(l, s, bytes, k, generic, q)
    && if q == 0 then s' == s else
         && s'.live == (s.live - {(i, b)}) + Gained(r) && s'.pools == Released(Took(l, s.pools, bytes, k), i, b)
         && SameBytes(s'.mem, q, s.mem, l.Address(i, b), l.Size(i))
         && BlocksKept(l, s.live - {(i, b)}, s.mem, s'.mem) && OutsideKept(l, s.mem, s'.mem, q, l.Size(i))
  }

  /** What `Realloc` of a live block does: in place when the block is large enough. */
  ghost predicate Resized(l: Layout, i: nat, b: nat, bytes: nat, k: nat, generic: Option<nat>, p: nat, q: nat,
                          s: Heap, s': Heap)
    requires PoolsOk(l, s.pools, s.live) && k <= 12 && (i, b) in s.live
  {
    if bytes <= l.Size(i) then q == p && s' == s else Moved(l, i, b, bytes, k, generic, q, s, s')
  }

  /** What `Realloc` of a generic block does: null and nothing changed, or a new place, as served, to
      which the bytes that both have are copied, and nothing else. */
  ghost predicate MovedIn(l: Layout, bytes: nat, k: nat, usable: nat, generic: Option<nat>, p: nat, q: nat, s: Heap,
                          s': Heap)
    requires PoolsOk(l, s.pools, s.live) && k <= 12
  {
    var r := Chosen(l, s.pools, bytes, k);
    && Granted(l, s, bytes, k, generic, q)
    && if q == 0 then s' == s else
         && s'.live == s.live + Gained(r) && s'.pools == Took(l, s.pools, bytes, k)
         && s'.mem == Copy(s.mem, q, p, Least(usable, bytes))
         && SameBytes(s'.mem, q, s.mem, p, Least(usable, bytes)) && BlocksKept(l, s.live, s.mem, s'.mem)
  }

  // ----- from a pointer back to its block

  /** The number of the block at `p` in bucket `i`. */
  function BlockNumber(l: Layout, i: nat, p: nat): nat
    requires LayoutOk(l) && i < l.count
  {
    assert l.Size(i) >= 16;
    if p < l.Begin(i) then 0 else Quot(p - l.Begin(i), l.Size(i))
  }

  /** The pointer of a live block leads back to that block and to no other. */
  lemma Routes(l: Layout, i: nat, b: nat)
    requires LayoutOk(l) && IsBlock(l, i, b)
    ensures var p := l.Address(i, b);
            MAX_ALIGNMENT < p < WORD && FindBucket(l, p) == i && BlockNumber(l, i, p) == b
  {
    assert l.Size(i) >= 16;
    BlockInside(l, i, b, 0);
    BlockOfAddress(l, i, b);
  }

  class Allocator {
    const l: Layout
    var pools: Pools
    var mem: Memory
    /** The blocks that users hold, by bucket and number. */
    ghost var live: set<(nat, nat)>

    ghost predicate Valid()
      reads this
    {
      PoolsOk(l, pools, live)
    }

    /** The state that `Init` leaves, over whatever the memory holds. */
    constructor (layout: Layout, bytes: Memory)
      requires LayoutOk(layout)
      ensures Valid() && l == layout && mem == bytes && live == {} && pools == FreshPools(layout)
    {
      l, pools, mem, live := layout, FreshPools(layout), bytes, {};
      FreshPoolsOk(layout);
    }

    ghost function Snapshot(): Heap
      reads this
    {
      Heap(pools, mem, live)
    }

    /** The pointer of a live block. */
    ghost predicate Holds(p: nat, i: nat, b: nat)
      reads this
    {
      (i, b) in live && p == l.Address(i, b)
    }

    /** `Allocate`. A block served was free, lies inside its bucket, covers the request and has the
        alignment; nothing is written. */
    method Allocate(bytes: nat, k: nat) returns (r: Served)
      requires Valid() && Requestable(l.scheme, bytes, k)
      modifies this`pools, this`live
      ensures Valid() && r == Chosen(l, old(pools), bytes, k) && pools == Took(l, old(pools), bytes, k)
      ensures r.Block? ==>
                && (r.i, r.b) !in old(live) && live == old(live) + {(r.i, r.b)}
                && IsBlock(l, r.i, r.b) && Suits(l, r.i, r.b, bytes, k)
      ensures r.Block? ==> Smallest(l, old(pools), bytes, k, r.i)
      ensures !r.Block? ==> live == old(live) && pools == old(pools)
    {
      if bytes == 0 {
        return Nothing;
      }
      var i := FirstIndex(l.scheme, bytes, k);
      r := Serve(l, pools, i, k);
      if r.Block? {
        ServedFits(l, pools, live, bytes, k);
        ServedSmallest(l, pools, bytes, k);
        TookOk(l, pools, live, bytes, k);
        live := live + {(r.i, r.b)};
        pools := Took(l, pools, bytes, k);
      }
    }

    /** `Free` of a live block, of the pointer of an empty allocation, or of a block of the generic
        allocator. No live block is written. */
    method Free(p: nat, links: nat -> int)
      requires Valid() && p < WORD
      requires FindBucket(l, p) < l.count ==> exists i, b :: Holds(p, i, b)
      modifies this
      ensures Valid() && Undisturbed(l, live, old(mem), mem)
      ensures forall i, b :: old(Holds(p, i, b)) ==> live == old(live) - {(i, b)} && pools == Released(old(pools), i, b)
      ensures FindBucket(l, p) >= l.count ==> live == old(live) && pools == old(pools) && mem == old(mem)
    {
      forall i, b | Holds(p, i, b)
        ensures p > MAX_ALIGNMENT && FindBucket(l, p) == i && BlockNumber(l, i, p) == b
      {
        Routes(l, i, b);
      }
      if p <= MAX_ALIGNMENT {
        return;
      }
      var i := FindBucket(l, p);
      if i < l.count {
        var b := BlockNumber(l, i, p);
        Release(i, b, links);
      }
    }

    /** `ReleaseToCache`, or `FreeInterval` where the thread has no cache. */
    method Release(i: nat, b: nat, links: nat -> int)
      requires Valid() && (i, b) in live
      modifies this
      ensures Valid() && Undisturbed(l, live, old(mem), mem)
      ensures live == old(live) - {(i, b)} && pools == Released(old(pools), i, b)
    {
      ReleasedOk(l, pools, live, i, b);
      GivenIsFree(l, pools, live, i, b);
      LinkedUndisturbed(l, live - {(i, b)}, mem, links, i, GivenBack(pools.caches[i], b));
      mem := Linked(mem, links, l, i, GivenBack(pools.caches[i], b));
      pools := Released(pools, i, b);
      live := live - {(i, b)};
    }

    /** `GetUsableSize` of a live block. */
    method GetUsableSize(p: nat, generic: nat) returns (n: nat)
      requires Valid() && p < WORD
      ensures forall i, b :: Holds(p, i, b) ==> n == l.Size(i)
      ensures p <= MAX_ALIGNMENT ==> n == 0
      ensures p > MAX_ALIGNMENT && FindBucket(l, p) >= l.count ==> n == generic
    {
      forall i, b | Holds(p, i, b)
        ensures FindBucket(l, p) == i && p > MAX_ALIGNMENT
      {
        Routes(l, i, b);
      }
      if p <= MAX_ALIGNMENT {
        return 0;
      }
      var i := FindBucket(l, p);
      n := if i < l.count then l.Size(i) else generic;
    }

    /** `Realloc` of a live block that is too small: a new block, the old contents, the old block
        freed; or, when there is no memory, null and nothing changed. */
    method Move(i: nat, b: nat, bytes: nat, k: nat, generic: Option<nat>, links: nat -> int) returns (q: nat)
      requires Valid() && (i, b) in live && Requestable(l.scheme, bytes, k) && bytes > l.Size(i)
      requires generic.Some? ==> generic.value > 0 && Outside(l, generic.value, bytes)
      modifies this
      ensures Valid() && Moved(l, i, b, bytes, k, generic, q, old(Snapshot()), Snapshot())
    {
      var r := Allocate(bytes, k);
      q := Pointer(l, r, generic, k);
      assert r.Block? ==> q > 0 by {
        if r.Block? {
          Routes(l, r.i, r.b);
        }
      }
      if q == 0 {
        return;
      }
      var p, size := l.Address(i, b), l.Size(i);
      assert Target(l, old(live), q, size) && (r.Block? ==> (r.i, r.b) != (i, b)) by {
        if r.Block? {
          BlockIsTarget(l, old(live), r.i, r.b, size);
        }
      }
      mem := Copy(mem, q, p, size);
      Release(i, b, links);
      assert Safe(l, live, q, size) by {
        if r.Block? {
          LiveIsSafe(l, live, r.i, r.b, size);
        }
      }
      MoveKeeps(l, old(live), live, old(mem), mem, q, p, size, old(live) - {(i, b)});
      assert live == (old(live) - {(i, b)}) + Gained(r);
    }

    /** `Realloc`. The pointer is of an empty allocation, of a live block, or of a block of the generic
        allocator that has `usable` bytes; `generic` is what the generic allocator returns if it is
        asked. The code faults, by copying to null, exactly when a generic block that is not empty
        should move to the pools and no memory is left. */
    method Realloc(p: nat, bytes: nat, k: nat, usable: nat, generic: Option<nat>, links: nat -> int)
      returns (q: nat, faults: bool)
      requires Valid() && p < WORD && Requestable(l.scheme, bytes, k)
      requires FindBucket(l, p) < l.count ==> exists i, b :: Holds(p, i, b)
      requires FindBucket(l, p) >= l.count && p > MAX_ALIGNMENT ==> Outside(l, p, usable)
      requires generic.Some? ==> generic.value > 0 && Outside(l, generic.value, bytes)
      modifies this
      ensures Valid()
      ensures faults <==>
                && FindBucket(l, p) >= l.count && p > MAX_ALIGNMENT && bytes > 0 && usable > 0
                && FirstIndex(l.scheme, bytes, k) < l.count
                && !Chosen(l, old(pools), bytes, k).Block? && generic.None?
      ensures p <= MAX_ALIGNMENT ==>
                && Granted(l, old(Snapshot()), bytes, k, generic, q) && mem == old(mem)
                && live == old(live) + Gained(Chosen(l, old(pools), bytes, k)) && pools == Took(l, old(pools), bytes, k)
      ensures p > MAX_ALIGNMENT && bytes == 0 ==> q == 0 && Undisturbed(l, live, old(mem), mem)
      ensures p > MAX_ALIGNMENT && bytes == 0 ==>
                forall i, b :: old(Holds(p, i, b)) ==>
                                 live == old(live) - {(i, b)} && pools == Released(old(pools), i, b)
      ensures p > MAX_ALIGNMENT && bytes == 0 && FindBucket(l, p) >= l.count ==> Snapshot() == old(Snapshot())
      ensures bytes > 0 ==>
                forall i, b :: old(Holds(p, i, b)) ==>
                  Resized(l, i, b, bytes, k, generic, p, q, old(Snapshot()), Snapshot())
      ensures p > MAX_ALIGNMENT && FindBucket(l, p) >= l.count && bytes > 0 ==>
                MovedIn(l, bytes, k, usable, generic, p, q, old(Snapshot()), Snapshot())
    {
      forall i, b | Holds(p, i, b)
        ensures p > MAX_ALIGNMENT && FindBucket(l, p) == i && BlockNumber(l, i, p) == b
      {
        Routes(l, i, b);
      }
      faults := false;
      if p <= MAX_ALIGNMENT {
        var r := Allocate(bytes, k);
        q := Pointer(l, r, generic, k);
        return;
      }
      if bytes == 0 {
        Free(p, links);
        return 0, false;
      }
      var i := FindBucket(l, p);
      if i < l.count {
        if bytes <= l.Size(i) {
          return p, false;
        }
        q := Move(i, BlockNumber(l, i, p), bytes, k, generic, links);
        return;
      }
      if FirstIndex(l.scheme, bytes, k) < l.count {
        q, faults := MoveIn(p, bytes, k, usable, generic);
        return;
      }
      BeyondBuckets(l, pools, bytes, k);
      if generic.None? {
        return 0, false;
      }
      q := generic.value;
      var n := Least(usable, bytes);
      CopyKeeps(l, live, mem, q, p, n);
      SameAfterCopy(mem, q, p, n);
      mem := Copy(mem, q, p, n);
    }

    /** A generic block moves to wherever the request is served. Without memory the code copies what there
        is to null. */
    method MoveIn(p: nat, bytes: nat, k: nat, usable: nat, generic: Option<nat>) returns (q: nat, faults: bool)
      requires Valid() && Requestable(l.scheme, bytes, k) && bytes > 0 && Outside(l, p, usable)
      requires generic.Some? ==> generic.value > 0 && Outside(l, generic.value, bytes)
      modifies this
      ensures Valid() && MovedIn(l, bytes, k, usable, generic, p, q, old(Snapshot()), Snapshot())
      ensures q == 0 <==> !Chosen(l, old(pools), bytes, k).Block? && generic.None?
      ensures faults <==> q == 0 && Least(usable, bytes) > 0
    {
      var r := Allocate(bytes, k);
      q := Pointer(l, r, generic, k);
      var n := Least(usable, bytes);
      faults := q == 0 && n > 0;
      assert r.Block? ==> q > 0 by {
        if r.Block? {
          Routes(l, r.i, r.b);
        }
      }
      if q == 0 {
        return;
      }
      assert Target(l, old(live), q, n) by {
        if r.Block? {
          BlockIsTarget(l, old(live), r.i, r.b, n);
        }
      }
      CopyKeeps(l, old(live), mem, q, p, n);
      SameAfterCopy(mem, q, p, n);
      mem := Copy(mem, q, p, n);
    }
  }

  /** A request past the last bucket goes to the generic allocator. */
  lemma BeyondBuckets(l: Layout, p: Pools, bytes: nat, k: nat)
    requires |p.free| == |p.caches| == l.count && k <= 12 && bytes > 0 && FirstIndex(l.scheme, bytes, k) >= l.count
    ensures Chosen(l, p, bytes, k) == Generic && Took(l, p, bytes, k) == p
  {
  }

  lemma SameAfterCopy(mem: Memory, q: nat, p: nat, n: nat)
    ensures SameBytes(Copy(mem, q, p, n), q, mem, p, n)
  {
    forall d: nat | d < n
      ensures ByteAt(Copy(mem, q, p, n), q, d) == ByteAt(mem, p, d)
    {
      CopyIs(mem, q, p, n, q + d);
    }
  }

  /** The search of `Allocate`: the thread's cache first, then up to four buckets. */
  method Serve(l: Layout, p: Pools, first: nat, k: nat) returns (r: Served)
    requires |p.free| == |p.caches| == l.count && k <= 12
    ensures r == if first < l.count && CR.Take(p.caches[first]).1.Some?
                 then Block(first, CR.Take(p.caches[first]).1.value)
                 else match Spill(l.scheme, p.free, first, Limit(l.count, first), k)
                      case None => Generic
                      case Some(j) => if j >= l.count || p.free[j] == [] then Generic else Block(j, p.free[j][0])
  {
    var i := first;
    if i < l.count {
      var t := CR.Take(p.caches[i]).1;
      if t.Some? {
        return Block(i, t.value);
      }
    }
    var max := Limit(l.count, i);
    while i < max
      invariant Spill(l.scheme, p.free, i, max, k) == Spill(l.scheme, p.free, first, max, k)
      decreases max - i
    {
      if p.free[i] != [] {
        return Block(i, p.free[i][0]);
      }
      i := SkipToAligned(l.scheme, i, k);
    }
    return Generic;
  }
}
