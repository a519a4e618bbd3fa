/** One thread's two-level cache of a pool bucket (`TlsPoolBucket`, `AllocFromCache`,
    `ReleaseToCache`): two stacks in fixed arrays over the bucket's free list. */
module ThreadCaches {
  import opened Lists
  import opened Arithmetic
  import opened TaggedFreeList
  import opened PoolBuckets
  import opened CacheRuns

  /** In every partitioned pool, and so after every run of calls, the calls of a thread find its
      cache and the shared list without a block in common or twice. */
  lemma PartitionedApart(s: Pool, at: Map, t: nat)
    requires Partition(s, at)
    ensures Distinct(Folded(CacheOf(s, t)) + s.shared)
  {
    var all := Folded(CacheOf(s, t)) + s.shared;
    assert Exactly(Held(s, Shared), at, Shared) && Exactly(Held(s, Cached(t)), at, Cached(t));
    var held: multiset<nat> := multiset(all);
    assert held == Held(s, Cached(t)) + Held(s, Shared);
    forall b: nat
      ensures held[b] <= 1
    {
      assert held[b] == Held(s, Cached(t))[b] + Held(s, Shared)[b];
    }
    OnceDistinct(all);
  }

  /** What a flush returns and the shared list share no block. */
  lemma ReturnedTop(l1: seq<nat>, count: nat, n: nat)
    requires n == if count < |l1| then count else |l1|
    ensures Returned(l1, count) == l1[|l1| - n..] && Kept(l1, count) == l1[..|l1| - n]
  {
  }

  lemma ReturnedDistinct(c: Cache, list: seq<nat>, count: nat)
    requires Distinct(Folded(c) + list)
    ensures Distinct(Returned(c.l1, count) + list)
  {
    var run, all := Returned(c.l1, count), Folded(c) + list;
    var part := run + list;
    forall i, j | 0 <= i < j < |part|
      ensures part[i] != part[j]
    {
      var k := |c.l1| - |run|;
      var l := |Folded(c)| - |run|;
      assert part[i] == all[if i < |run| then i + k else i + l];
      assert part[j] == all[if j < |run| then j + k else j + l];
    }
  }

  // ----- the links of a flush

  /** The first words after linking the first `k` entries of a run each to the next, with tags that
      count up from a constant. */
  function LinkedWords(mem: map<nat, Link>, run: seq<nat>, k: nat): map<nat, Link>
    requires k < |run|
  {
    if k == 0 then
      mem
    else
      LinkedWords(mem, run, k - 1)[run[k - 1] := To(Name((LOCAL_TAG + (k - 1)) % TAG_MODULUS, run[k]))]
  }

  lemma {:induction false} LinkedWordsAt(mem: map<nat, Link>, run: seq<nat>, k: nat, i: nat)
    requires i < k < |run| && Distinct(run)
    ensures run[i] in LinkedWords(mem, run, k)
    ensures LinkedWords(mem, run, k)[run[i]] == To(Name((LOCAL_TAG + i) % TAG_MODULUS, run[i + 1]))
  {
    if i < k - 1 {
      LinkedWordsAt(mem, run, k - 1, i);
    }
  }

  lemma {:induction false} LinkedWordsOnly(mem: map<nat, Link>, run: seq<nat>, k: nat)
    requires k < |run|
    ensures OnlyRun(mem, LinkedWords(mem, run, k), run)
  {
    if k > 0 {
      LinkedWordsOnly(mem, run, k - 1);
    }
  }

  lemma LinkedWordsChain(mem: map<nat, Link>, run: seq<nat>)
    requires run != [] && Distinct(run)
    ensures ChainLinked(LinkedWords(mem, run, |run| - 1), run) && Linked(LinkedWords(mem, run, |run| - 1), run)
  {
    var w := LinkedWords(mem, run, |run| - 1);
    forall i | 0 <= i < |run| - 1
      ensures run[i] in w && w[run[i]] == To(Name((LOCAL_TAG + i) % TAG_MODULUS, run[i + 1]))
    {
      LinkedWordsAt(mem, run, |run| - 1, i);
    }
    forall i | 0 <= i < |run| - 1
      ensures run[i] in w && w[run[i]].To? && w[run[i]].name.block == run[i + 1]
    {
      LinkedWordsAt(mem, run, |run| - 1, i);
    }
  }

  /** The loop of the flush, over the entries of a stack from `first` on. */
  method LinkRun(storage: array<nat>, first: nat, n: nat, mem: map<nat, Link>) returns (words: map<nat, Link>)
    requires first < n <= storage.Length
    ensures words == LinkedWords(mem, storage[first..n], n - first - 1)
  {
    ghost var run := storage[first..n];
    var prev := storage[first];
    var localTag := LOCAL_TAG;
    words := mem;
    var i := first + 1;
    while i < n
      invariant first < i <= n && prev == run[i - first - 1]
      invariant localTag == (LOCAL_TAG + (i - first - 1)) % TAG_MODULUS
      invariant words == LinkedWords(mem, run, i - first - 1)
    {
      var offset := storage[i];
      ModNext(LOCAL_TAG + (i - first - 1), TAG_MODULUS);
      words := words[prev := To(Name(localTag, offset))];
      prev := offset;
      i := i + 1;
      localTag := (localTag + 1) % TAG_MODULUS;
    }
  }

  /** The entries from `first` on, linked through their own first words, go in front of the shared
      list; no other block is written. */
  method FlushRun(bucket: PoolBucket, storage: array<nat>, first: nat, n: nat)
    requires first < n <= storage.Length && bucket.Valid() && Distinct(storage[first..n] + bucket.list)
    modifies bucket
    ensures bucket.Valid() && bucket.list == storage[first..n] + old(bucket.list)
    ensures OnlyRun(old(bucket.mem), bucket.mem, storage[first..n])
  {
    ghost var run := storage[first..n];
    var words := LinkRun(storage, first, n, bucket.mem);
    FlushReady(bucket.mem, words, run, bucket.list);
    bucket.Write(words, run);
    bucket.FreeInterval(storage[first], storage[n - 1], run);
    assert run[|run| - 1] in run;
  }

  class TlsPoolBucket {
    const storageL0: array<nat>
    var storageL1: array?<nat>
    var pBucket: PoolBucket?
    var maxElementsCount: nat
    var numElementsL1: nat
    var numElementsL0: nat

    /** The stacks lie within their storage, which has room for L0 on top of a full L1. */
    ghost predicate Shape()
      reads this
    {
      && storageL0.Length == MAX_L0 && numElementsL0 <= MAX_L0
      && if storageL1 == null then
           pBucket == null && maxElementsCount == numElementsL1 == numElementsL0 == 0
         else
           && storageL1 != storageL0 && pBucket != null
           && maxElementsCount >= 2 && storageL1.Length == maxElementsCount + MAX_L0
           && numElementsL1 <= storageL1.Length
    }

    ghost predicate Valid()
      reads this
    {
      Shape() && numElementsL1 <= maxElementsCount
    }

    ghost function L1(): seq<nat>
      requires Shape()
      reads this, storageL1
    {
      if storageL1 == null then [] else storageL1[..numElementsL1]
    }

    ghost function Value(): Cache
      requires Shape()
      reads this, storageL0, storageL1
    {
      Cache(storageL0[..numElementsL0], L1(), maxElementsCount)
    }

    /** The bucket is in order and shares no block with the cache. */
    ghost predicate Over(bucket: PoolBucket)
      requires Shape()
      reads this, storageL0, storageL1, bucket
    {
      bucket.Valid() && Distinct(Folded(Value()) + bucket.list)
    }

    /** Thread-local storage starts out as zeroes. */
    constructor ()
      ensures Valid() && Value() == NO_CACHE && fresh(storageL0)
    {
      storageL0 := new nat[MAX_L0];
      storageL1, pBucket := null, null;
      maxElementsCount, numElementsL1, numElementsL0 := 0, 0, 0;
    }

    method AllocFromCache() returns (p: Option<nat>)
      requires Valid()
      modifies this`numElementsL0, this`numElementsL1
      ensures Valid() && (Value(), p) == Take(old(Value()))
    {
      if numElementsL0 > 0 {
        numElementsL0 := numElementsL0 - 1;
        assert storageL0[..numElementsL0] == old(storageL0[..numElementsL0])[..numElementsL0];
        return Some(storageL0[numElementsL0]);
      }
      if numElementsL1 > 0 {
        numElementsL1 := numElementsL1 - 1;
        assert L1() == old(L1())[..numElementsL1];
        return Some(storageL1[numElementsL1]);
      }
      return None;
    }

    /** The top `count` entries of L1 go in front of the shared list, linked through their own first
        words, and no other block is written. */
    method ReturnL1CacheToMaster(count: nat)
      requires Shape() && (pBucket != null ==> Over(pBucket))
      modifies this`numElementsL1, pBucket
      ensures Shape() && L1() == Kept(old(L1()), count) && numElementsL1 == |Kept(old(L1()), count)|
      ensures pBucket != null ==>
                && pBucket.Valid() && pBucket.list == Returned(old(L1()), count) + old(pBucket.list)
                && OnlyRun(old(pBucket.mem), pBucket.mem, Returned(old(L1()), count))
    {
      if count == 0 || numElementsL1 == 0 {
        assert Returned(L1(), count) == [] && Kept(L1(), count) == L1();
        return;
      }
      var n := if count < numElementsL1 then count else numElementsL1;
      ReturnedDistinct(Value(), pBucket.list, count);
      ReturnedTop(L1(), count, n);
      ReturnTop(n);
    }

    /** The top `n` entries go back, and L1 loses them. */
    method ReturnTop(n: nat)
      requires Shape() && storageL1 != null && 0 < n <= numElementsL1
      requires pBucket.Valid() && Distinct(L1()[numElementsL1 - n..] + pBucket.list)
      modifies this`numElementsL1, pBucket
      ensures Shape() && L1() == old(L1())[..old(numElementsL1) - n] && numElementsL1 == old(numElementsL1) - n
      ensures pBucket.Valid() && pBucket.list == old(L1()[numElementsL1 - n..]) + old(pBucket.list)
      ensures OnlyRun(old(pBucket.mem), pBucket.mem, old(L1()[numElementsL1 - n..]))
    {
      var first := numElementsL1 - n;
      assert storageL1[first..numElementsL1] == L1()[first..];
      FlushRun(pBucket, storageL1, first, numElementsL1);
      numElementsL1 := first;
      assert L1() == old(L1())[..first];
    }

    /** A block on top of L1, for which there is room in its storage. */
    method PushL1(offset: nat)
      requires Shape() && storageL1 != null && numElementsL1 < storageL1.Length
      modifies this`numElementsL1, storageL1
      ensures Shape() && L1() == old(L1()) + [offset] && numElementsL1 == old(numElementsL1) + 1
    {
      storageL1[numElementsL1] := offset;
      numElementsL1 := numElementsL1 + 1;
      assert L1() == old(L1()) + [offset];
    }

    /** `ReleaseToCache`: without a cache it takes nothing; otherwise it always takes the block, after
        returning half of L1 when both stacks are full. */
    method ReleaseToCache(offset: nat, useCacheL0: bool) returns (ok: bool)
      requires Valid() && (pBucket != null ==> Over(pBucket))
      modifies this`numElementsL0, this`numElementsL1, storageL0, storageL1, pBucket
      ensures Valid() && ok == (maxElementsCount != 0)
      ensures !ok ==> Value() == old(Value())
      ensures ok ==> Value() == Keep(old(Value()), offset, useCacheL0).0
      ensures ok ==>
                && pBucket != null && pBucket.Valid()
                && pBucket.list == Keep(old(Value()), offset, useCacheL0).1 + old(pBucket.list)
                && OnlyRun(old(pBucket.mem), pBucket.mem, Keep(old(Value()), offset, useCacheL0).1)
    {
      if maxElementsCount == 0 {
        return false;
      }
      if useCacheL0 && numElementsL0 < MAX_L0 {
        storageL0[numElementsL0] := offset;
        numElementsL0 := numElementsL0 + 1;
        assert storageL0[..numElementsL0] == old(storageL0[..numElementsL0]) + [offset];
        return true;
      }
      if numElementsL1 < maxElementsCount {
        PushL1(offset);
        return true;
      }
      ReturnL1CacheToMaster(numElementsL1 / 2);
      PushL1(offset);
      return true;
    }

    /** `Destroy`: L0 is folded onto L1, everything returns to the bucket, and the cache is gone. */
    method Destroy()
      requires Valid() && (pBucket != null ==> Over(pBucket))
      modifies this, storageL1, pBucket
      ensures Valid() && Value() == NO_CACHE
      ensures old(pBucket) != null ==>
                && old(pBucket).Valid() && old(pBucket).list == Folded(old(Value())) + old(pBucket.list)
                && OnlyRun(old(pBucket.mem), old(pBucket).mem, Folded(old(Value())))
    {
      ReturnAll();
      storageL1, pBucket := null, null;
      numElementsL0, numElementsL1, maxElementsCount := 0, 0, 0;
    }

    method ReturnAll()
      requires Valid() && (pBucket != null ==> Over(pBucket))
      modifies this`numElementsL0, this`numElementsL1, storageL1, pBucket
      ensures Shape()
      ensures pBucket != null ==>
                && pBucket.Valid() && pBucket.list == Folded(old(Value())) + old(pBucket.list)
                && OnlyRun(old(pBucket.mem), pBucket.mem, Folded(old(Value())))
    {
      ghost var c := Value();
      FoldL0();
      FoldedAgain(c);
      assert Value() == Cache([], Folded(c), c.max);
      ReturnL1CacheToMaster(numElementsL1);
    }

    method FoldL0()
      requires Valid()
      modifies this`numElementsL0, this`numElementsL1, storageL1
      ensures Shape() && numElementsL0 == 0 && L1() == Folded(old(Value()))
    {
      ghost var l1, l0 := L1(), storageL0[..numElementsL0];
      var i := 0;
      assert l0[..0] == [];
      while i < numElementsL0
        invariant i <= numElementsL0 == |l0| && Shape() && numElementsL1 == |l1| + i
        invariant L1() == l1 + l0[..i] && forall k :: 0 <= k < |l0| ==> storageL0[k] == l0[k]
      {
        assert l0[..i + 1] == l0[..i] + [l0[i]];
        PushL1(storageL0[i]);
        i := i + 1;
      }
      assert l0[..i] == l0;
      numElementsL0 := 0;
    }

    /** `Init`: a cache with room for `max` entries in L1, warmed up to `num` of them from the shared
        list in its order, as far as that reaches. */
    method Init(stack: array<nat>, max: nat, num: nat, bucket: PoolBucket)
      requires Valid() && storageL1 == null && bucket.Valid()
      requires max >= 2 && stack.Length == max + MAX_L0 && stack != storageL0 && num <= max
      modifies this`storageL1, this`pBucket, this`maxElementsCount, this`numElementsL1, stack, bucket
      ensures Valid() && pBucket == bucket && Value() == Warmed(old(bucket.list), max, num)
      ensures numElementsL0 + numElementsL1 == num <==> num <= |old(bucket.list)|
      ensures bucket.Valid() && bucket.list == old(bucket.list)[Moved(old(bucket.list), num)..]
      ensures OnlyRun(old(bucket.mem), bucket.mem, old(bucket.list)[..Moved(old(bucket.list), num)])
    {
      storageL1, pBucket, maxElementsCount := stack, bucket, max;
      WarmUp(num, bucket);
      assert storageL0[..0] == [];
    }

    /** Both loops of a warm-up. */
    method WarmUp(num: nat, bucket: PoolBucket)
      requires Shape() && storageL1 != null && numElementsL1 == 0 && num <= maxElementsCount && bucket.Valid()
      modifies this`numElementsL1, storageL1, bucket
      ensures Shape() && L1() == Reverse(old(bucket.list)[..Moved(old(bucket.list), num)])
      ensures bucket.Valid() && bucket.list == old(bucket.list)[Moved(old(bucket.list), num)..]
      ensures OnlyRun(old(bucket.mem), bucket.mem, old(bucket.list)[..Moved(old(bucket.list), num)])
    {
      var pRoot, chain := TakeForWarmup(bucket, num);
      FillL1(pRoot, bucket.mem, chain);
    }

    /** The second loop of a warm-up: along the chain, past L0, onto L1. */
    method FillL1(pRoot: Link, mem: map<nat, Link>, ghost chain: seq<nat>)
      requires Shape() && storageL1 != null && numElementsL1 == 0
      requires |chain| <= maxElementsCount && Chain(pRoot, mem, chain)
      modifies this`numElementsL1, storageL1
      ensures Shape() && L1() == chain
    {
      var pCurrent := pRoot;
      ghost var i := 0;
      while pCurrent.To?
        invariant Shape() && i <= |chain| && numElementsL1 == i
        invariant L1() == chain[..i] && Chain(pCurrent, mem, chain[i..])
        decreases |chain| - i
      {
        var p := pCurrent.name.block;
        assert chain[i..][0] == p && chain[i..][1..] == chain[i + 1..] && chain[..i + 1] == chain[..i] + [p];
        PushL1(p);
        pCurrent := mem[p];
        i := i + 1;
      }
      assert chain[..i] == chain;
    }
  }

  /** The first loop of a warm-up: up to `num` blocks come off the shared list, each holding a pointer
      to the one before it. A block of another bucket, which is what a spilled request yields once
      this one is empty, is freed again at once and ends the loop. */
  method TakeForWarmup(bucket: PoolBucket, num: nat) returns (pRoot: Link, ghost chain: seq<nat>)
    requires bucket.Valid()
    modifies bucket
    ensures bucket.Valid() && bucket.list == old(bucket.list)[Moved(old(bucket.list), num)..]
    ensures chain == Reverse(old(bucket.list)[..Moved(old(bucket.list), num)]) && Chain(pRoot, bucket.mem, chain)
    ensures OnlyRun(old(bucket.mem), bucket.mem, old(bucket.list)[..Moved(old(bucket.list), num)])
  {
    ghost var list := bucket.list;
    pRoot, chain := Invalid, [];
    var j := 0;
    assert list[..0] == [];
    while j < num
      invariant bucket.Valid() && j <= num && j <= |list| && bucket.list == list[j..]
      invariant chain == Reverse(list[..j]) && Chain(pRoot, bucket.mem, chain)
      invariant OnlyRun(old(bucket.mem), bucket.mem, list[..j])
    {
      var p := TakeOne(bucket, pRoot, list, j, chain, old(bucket.mem));
      if p.None? {
        return;
      }
      pRoot, chain := To(Name(0, p.value)), [p.value] + chain;
      j := j + 1;
    }
  }

  /** One block of a warm-up, linked to the one before it, unless there is none left. */
  method TakeOne(bucket: PoolBucket, pRoot: Link, ghost list: seq<nat>, ghost j: nat, ghost chain: seq<nat>,
                 ghost mem: map<nat, Link>) returns (p: Option<nat>)
    requires bucket.Valid() && j <= |list| && bucket.list == list[j..] && Distinct(list)
    requires chain == Reverse(list[..j]) && Chain(pRoot, bucket.mem, chain) && OnlyRun(mem, bucket.mem, list[..j])
    modifies bucket
    ensures bucket.Valid() && (p.Some? <==> j < |list|)
    ensures p.None? ==> bucket.list == old(bucket.list) && bucket.mem == old(bucket.mem)
    ensures p.Some? ==>
              && p.value == list[j] && bucket.list == list[j + 1..] && Reverse(list[..j + 1]) == [p.value] + chain
              && Chain(To(Name(0, p.value)), bucket.mem, [p.value] + chain) && OnlyRun(mem, bucket.mem, list[..j + 1])
  {
    p := bucket.Alloc();
    if p.Some? {
      WarmStep(list, j, bucket.mem, pRoot, chain);
      OnlyRunGrows(mem, bucket.mem, list, j, pRoot);
      bucket.Write(bucket.mem[p.value := pRoot], [p.value]);
    }
  }

  lemma FlushReady(mem: map<nat, Link>, words: map<nat, Link>, run: seq<nat>, list: seq<nat>)
    requires run != [] && Distinct(run + list) && words == LinkedWords(mem, run, |run| - 1)
    ensures Linked(words, run) && OnlyRun(mem, words, run) && forall b :: b in list ==> b !in run
  {
    var all := run + list;
    forall i, j | 0 <= i < j < |run|
      ensures run[i] != run[j]
    {
      assert all[i] == run[i] && all[j] == run[j];
    }
    LinkedWordsChain(mem, run);
    LinkedWordsOnly(mem, run, |run| - 1);
    forall i | 0 <= i < |run|
      ensures run[i] !in list
    {
      RunApart(run, list, i);
    }
  }

  /** One block more on the chain that a warm-up builds. */
  lemma WarmStep(list: seq<nat>, j: nat, mem: map<nat, Link>, root: Link, chain: seq<nat>)
    requires Distinct(list) && j < |list| && chain == Reverse(list[..j]) && Chain(root, mem, chain)
    ensures Reverse(list[..j + 1]) == [list[j]] + chain && list[j..][1..] == list[j + 1..] && list[j] !in list[j + 1..]
    ensures Chain(To(Name(0, list[j])), mem[list[j] := root], [list[j]] + chain)
  {
    ReverseNext(list, j);
    NotTakenYet(list, j);
    ChainGrows(list[j], mem, root, chain);
  }

  lemma OnlyRunGrows(before: map<nat, Link>, after: map<nat, Link>, list: seq<nat>, j: nat, link: Link)
    requires j < |list| && OnlyRun(before, after, list[..j])
    ensures OnlyRun(before, after[list[j] := link], list[..j + 1])
  {
    assert list[..j + 1] == list[..j] + [list[j]];
  }

  lemma ReverseNext(list: seq<nat>, j: nat)
    requires j < |list|
    ensures Reverse(list[..j + 1]) == [list[j]] + Reverse(list[..j])
  {
    ReverseAppend(list[..j], list[j]);
    assert list[..j] + [list[j]] == list[..j + 1];
  }

  lemma NotTakenYet(list: seq<nat>, j: nat)
    requires Distinct(list) && j < |list|
    ensures list[j] !in Reverse(list[..j]) && list[j] !in list[j + 1..]
  {
    SameMembers(Reverse(list[..j]), list[..j]);
  }

  lemma ChainGrows(p: nat, mem: map<nat, Link>, root: Link, chain: seq<nat>)
    requires p !in chain && Chain(root, mem, chain)
    ensures Chain(To(Name(0, p)), mem[p := root], [p] + chain)
  {
    ChainInside(root, mem, chain);
    ChainFrame(root, mem, mem[p := root], chain);
    assert ([p] + chain)[1..] == chain;
  }

  lemma SameMembers(a: seq<nat>, b: seq<nat>)
    requires multiset(a) == multiset(b)
    ensures forall x :: x in a <==> x in b
  {
    forall x
      ensures x in a <==> x in b
    {
      assert x in a <==> x in multiset(a);
      assert x in b <==> x in multiset(b);
    }
  }

  lemma {:induction false} ReverseAppend(s: seq<nat>, x: nat)
    ensures Reverse(s + [x]) == [x] + Reverse(s)
  {
    assert (s + [x])[..|s|] == s;
  }

  lemma FoldedAgain(c: Cache)
    ensures Folded(Cache([], Folded(c), c.max)) == Folded(c)
    ensures Returned(Folded(c), |Folded(c)|) == Folded(c)
  {
  }

  lemma RunApart(run: seq<nat>, list: seq<nat>, i: nat)
    requires Distinct(run + list) && i < |run|
    ensures run[i] !in list
  {
    var all := run + list;
    forall j | 0 <= j < |list|
      ensures list[j] != run[i]
    {
      assert all[i] == run[i] && all[|run| + j] == list[j];
    }
  }
}
