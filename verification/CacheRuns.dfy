/** The two-level thread caches over one bucket's shared free list, as values, and every run of
    whole calls by any number of threads: each block is always in exactly one place. */
module CacheRuns {
  import opened Lists
  import opened TaggedFreeList

  /** `SMM_MAX_CACHE_ITEMS_COUNT` */
  const MAX_L0: nat := 7

  /** One thread's cache for the bucket; `max` is 0 when the thread has none. */
  datatype Cache = Cache(l0: seq<nat>, l1: seq<nat>, max: nat)

  const NO_CACHE: Cache := Cache([], [], 0)

  /** `AllocFromCache` */
  function Take(c: Cache): (Cache, Option<nat>) {
    if |c.l0| > 0 then
      (c.(l0 := c.l0[..|c.l0| - 1]), Some(c.l0[|c.l0| - 1]))
    else if |c.l1| > 0 then
      (c.(l1 := c.l1[..|c.l1| - 1]), Some(c.l1[|c.l1| - 1]))
    else
      (c, None)
  }

  /** The entries that `ReturnL1CacheToMaster(count)` returns: the top of the stack. */
  function Returned(l1: seq<nat>, count: nat): seq<nat> {
    if count <= |l1| then l1[|l1| - count..] else l1
  }

  function Kept(l1: seq<nat>, count: nat): seq<nat> {
    if count <= |l1| then l1[..|l1| - count] else []
  }

  /** `ReleaseToCache`: the cache after it and what it gave back to the shared list. */
  function Keep(c: Cache, b: nat, useL0: bool): (Cache, seq<nat>) {
    if useL0 && |c.l0| < MAX_L0 then
      (c.(l0 := c.l0 + [b]), [])
    else if |c.l1| < c.max then
      (c.(l1 := c.l1 + [b]), [])
    else
      var half := |c.l1| / 2;
      (c.(l1 := Kept(c.l1, half) + [b]), Returned(c.l1, half))
  }

  /** What `Destroy` returns: L1 with L0 folded in on top. */
  function Folded(c: Cache): seq<nat> {
    c.l1 + c.l0
  }

  function Reverse(s: seq<nat>): (r: seq<nat>)
    ensures multiset(r) == multiset(s) && |r| == |s|
  {
    if s == [] then [] else
      assert s == s[..|s| - 1] + [s[|s| - 1]];
      [s[|s| - 1]] + Reverse(s[..|s| - 1])
  }

  /** How many blocks a warm-up moves. */
  function Moved(shared: seq<nat>, target: nat): nat {
    if target < |shared| then target else |shared|
  }

  /** A new cache of a bucket, warmed up to `target` entries. */
  function Warmed(shared: seq<nat>, max: nat, target: nat): Cache {
    Cache([], Reverse(shared[..Moved(shared, target)]), max)
  }

  /** A warm-up reaches its target exactly when the shared list has that many blocks. */
  lemma WarmedFullIff(shared: seq<nat>, max: nat, target: nat)
    ensures |Warmed(shared, max, target).l1| == target <==> target <= |shared|
  {
  }

  /** One free block, and a cache of two to be filled: the assertion at the end of `Init` fails. */
  lemma ShortWarmup()
    ensures |Warmed([0], 2, 2).l1| == 1 != 2
  {
    assert [0][..1] == [0];
  }

  // ----- bounds

  /** What the stacks of a cache have room for. */
  predicate Fits(c: Cache) {
    |c.l0| <= MAX_L0 && |c.l1| <= c.max && (c.max == 0 ==> c == NO_CACHE)
  }

  /** Both stacks stay within bounds: a half-flush of a full stack of two or more always makes room. */
  lemma KeepFits(c: Cache, b: nat, useL0: bool)
    requires Fits(c) && c.max >= 2
    ensures Fits(Keep(c, b, useL0).0) && Keep(c, b, useL0).0.max == c.max
    ensures |c.l1| == c.max && (!useL0 || |c.l0| == MAX_L0) ==> |Keep(c, b, useL0).1| > 0
  {
  }

  // ----- the order in which blocks are handed out

  /** A cache hands out the last of its entries, L0's before L1's. */
  lemma TakeIsLast(c: Cache)
    ensures Take(c).1.Some? <==> Folded(c) != []
    ensures Take(c).1.Some? ==> Folded(c) == Folded(Take(c).0) + [Take(c).1.value] && Take(c).0.max == c.max
  {
  }

  /** A block kept while L0 has room is the next to be taken, and taking it undoes keeping it. */
  lemma KeepThenTake(c: Cache, b: nat)
    requires |c.l0| < MAX_L0
    ensures Keep(c, b, true).1 == [] && Take(Keep(c, b, true).0) == (c, Some(b))
  {
  }

  /** None of these releases gives anything back to the shared list. */
  predicate Quiet(c: Cache, bs: seq<nat>)
    decreases |bs|
  {
    bs == [] || (Keep(c, bs[0], true).1 == [] && Quiet(Keep(c, bs[0], true).0, bs[1..]))
  }

  lemma {:induction false} QuietIff(c: Cache, bs: seq<nat>)
    requires |c.l0| == MAX_L0 && |c.l1| <= c.max && c.max >= 2
    ensures Quiet(c, bs) <==> |c.l1| + |bs| <= c.max
    decreases |bs|
  {
    if bs != [] && |c.l1| < c.max {
      QuietIff(Keep(c, bs[0], true).0, bs[1..]);
    }
  }

  /** A release to a full cache returns the top half of L1, so that exactly the next max / 2 - 1 releases
      are not felt by the shared list; and the block itself is on top of L1. */
  lemma FlushIsHalf(c: Cache, b: nat, bs: seq<nat>)
    requires |c.l0| == MAX_L0 && |c.l1| == c.max >= 2
    ensures var (c', given) := Keep(c, b, true);
            && c.l1 + [b] == c'.l1[..|c'.l1| - 1] + given + [b] && c'.l1[|c'.l1| - 1] == b && c'.l0 == c.l0
            && (Quiet(c', bs) <==> |bs| < c.max / 2)
  {
    QuietIff(Keep(c, b, true).0, bs);
    KeptAndReturned(c.l1, |c.l1| / 2);
  }

  // ----- every run of cache operations, for a cache option of any size

  datatype CacheOp = TakeOne | KeepOne(block: nat, useL0: bool)

  function CacheStep(c: Cache, op: CacheOp): Cache {
    match op
    case TakeOne => Take(c).0
    case KeepOne(b, useL0) => if c.max == 0 then c else Keep(c, b, useL0).0
  }

  function CacheRun(c: Cache, ops: seq<CacheOp>): Cache
    decreases |ops|
  {
    if ops == [] then c else CacheRun(CacheStep(c, ops[0]), ops[1..])
  }

  lemma {:induction false} CacheRunFits(c: Cache, ops: seq<CacheOp>)
    requires Fits(c) && c.max != 1
    ensures Fits(CacheRun(c, ops)) && CacheRun(c, ops).max == c.max
    decreases |ops|
  {
    if ops != [] {
      CacheRunFits(CacheStep(c, ops[0]), ops[1..]);
    }
  }

  /** Nine releases in a row. */
  function Releases(n: nat): seq<CacheOp> {
    seq(n, i => KeepOne(0, true))
  }

  lemma {:induction false} FillsL0(c: Cache, n: nat)
    requires |c.l0| + n <= MAX_L0 && c.max == 1
    ensures var d := CacheRun(c, Releases(n)); |d.l0| == |c.l0| + n && d.l1 == c.l1 && d.max == 1
    decreases n
  {
    if n > 0 {
      assert Releases(n)[1..] == Releases(n - 1);
      FillsL0(CacheStep(c, KeepOne(0, true)), n - 1);
    }
  }

  lemma {:induction false} CacheRunAppend(c: Cache, a: seq<CacheOp>, b: seq<CacheOp>)
    ensures CacheRun(c, a + b) == CacheRun(CacheRun(c, a), b)
    decreases |a|
  {
    if a == [] {
      assert a + b == b;
    } else {
      assert (a + b)[1..] == a[1..] + b;
      CacheRunAppend(CacheStep(c, a[0]), a[1..], b);
    }
  }

  /** A cache option of one lets the stack grow past its limit: half of one entry is none. */
  lemma OptionOneOverflows()
    ensures var d := CacheRun(Cache([], [], 1), Releases(9)); |d.l1| == 2 && |Folded(d)| == 9
  {
    var e := Cache([], [], 1);
    assert Releases(9) == Releases(7) + Releases(2);
    CacheRunAppend(e, Releases(7), Releases(2));
    FillsL0(e, 7);
    var d := CacheRun(e, Releases(7));
    assert Releases(2)[1..] == Releases(1) && Releases(1)[1..] == Releases(0);
    var d1 := CacheStep(d, KeepOne(0, true));
    assert |d1.l1| == 1;
    var d2 := CacheStep(d1, KeepOne(0, true));
    assert Returned(d1.l1, 0) == [] && Kept(d1.l1, 0) == d1.l1;
    assert |d2.l1| == 2 && |d2.l0| == 7;
    assert CacheRun(d, Releases(2)) == d2 by {
      assert CacheRun(d1, Releases(1)) == CacheRun(d2, Releases(0));
    }
  }

  ghost predicate AlwaysFits(max: nat) {
    forall ops :: |Folded(CacheRun(Cache([], [], max), ops))| <= max + MAX_L0
  }

  /** Over every run what `Destroy` folds together fits the allocated stack, which has `max` + 7
      entries, exactly when the option is not one. */
  lemma FoldFitsIff(max: nat)
    ensures AlwaysFits(max) <==> max != 1
  {
    if max == 1 {
      OptionOneOverflows();
      var d := CacheRun(Cache([], [], max), Releases(9));
      assert |Folded(d)| > max + MAX_L0;
    } else {
      forall ops
        ensures |Folded(CacheRun(Cache([], [], max), ops))| <= max + MAX_L0
      {
        CacheRunFits(Cache([], [], max), ops);
      }
    }
  }

  // ----- every run of calls by any number of threads

  /** `live` are the blocks held by users. */
  datatype Pool = Pool(shared: seq<nat>, caches: map<nat, Cache>, live: set<nat>)

  function CacheOf(s: Pool, t: nat): Cache {
    if t in s.caches then s.caches[t] else NO_CACHE
  }

  /** Calls by thread `t`. A block may be freed by another thread than the one that got it. */
  datatype Op =
    | Alloc(t: nat)
    | Free(t: nat, block: nat)
    | CreateCache(t: nat, max: nat, target: nat)
    | DestroyCache(t: nat)

  /** What callers owe: only live blocks are freed, a cache is created where there is none and with
      room for two. */
  predicate Enabled(s: Pool, op: Op) {
    match op
    case Alloc(_) => true
    case Free(_, b) => b in s.live
    case CreateCache(t, max, target) => CacheOf(s, t) == NO_CACHE && 2 <= max && target <= max
    case DestroyCache(_) => true
  }

  function Step(s: Pool, op: Op): Pool {
    match op
    case Alloc(t) =>
      var (c, p) := Take(CacheOf(s, t));
      if p.Some? then
        s.(caches := s.caches[t := c], live := s.live + {p.value})
      else if s.shared == [] then
        s
      else
        s.(shared := s.shared[1..], live := s.live + {s.shared[0]})
    case Free(t, b) =>
      if CacheOf(s, t).max == 0 then
        s.(shared := [b] + s.shared, live := s.live - {b})
      else
        var (c, given) := Keep(CacheOf(s, t), b, true);
        Pool(given + s.shared, s.caches[t := c], s.live - {b})
    case CreateCache(t, max, target) =>
      s.(shared := s.shared[Moved(s.shared, target)..], caches := s.caches[t := Warmed(s.shared, max, target)])
    case DestroyCache(t) =>
      s.(shared := Folded(CacheOf(s, t)) + s.shared, caches := s.caches[t := NO_CACHE])
  }

  /** An allocation serves the last entry of the thread's own cache, else the first of the shared list, and
      only then nothing. */
  lemma AllocServes(s: Pool, t: nat)
    ensures var s', own := Step(s, Alloc(t)), Folded(CacheOf(s, t));
            if own != [] then s'.live == s.live + {own[|own| - 1]} && s'.shared == s.shared
            else if s.shared != [] then s'.live == s.live + {s.shared[0]} && s.shared == [s.shared[0]] + s'.shared
            else s' == s
  {
    TakeIsLast(CacheOf(s, t));
  }

  /** A block freed is the next that the thread gets, and getting it undoes freeing it, unless L0 was
      full. */
  lemma FreeThenAlloc(s: Pool, t: nat, b: nat)
    requires b in s.live && Fits(CacheOf(s, t)) && |CacheOf(s, t).l0| < MAX_L0
    ensures Step(Step(s, Free(t, b)), Alloc(t)) == s
  {
    var c, s1 := CacheOf(s, t), Step(s, Free(t, b));
    assert s1.live + {b} == s.live;
    if c.max == 0 {
      assert s1.shared[0] == b && s1.shared[1..] == s.shared;
    } else {
      KeepThenTake(c, b);
      assert [] + s.shared == s.shared;
      assert s.caches[t := Keep(c, b, true).0][t := c] == s.caches;
    }
  }

  /** A cache created and destroyed at once leaves the shared list with its first blocks reversed. */
  lemma CreateThenDestroy(s: Pool, t: nat, max: nat, target: nat)
    ensures var k := Moved(s.shared, target);
            var s' := Step(Step(s, CreateCache(t, max, target)), DestroyCache(t));
            s'.shared == Reverse(s.shared[..k]) + s.shared[k..] && s'.live == s.live && CacheOf(s', t) == NO_CACHE
  {
  }

  // ----- where each block is

  datatype Place = Shared | Cached(t: nat) | Live

  type Map = map<nat, Place>

  /** The collection holds each block that is at the place once, and nothing else. */
  ghost predicate Exactly(held: multiset<nat>, at: Map, p: Place) {
    forall b: nat :: held[b] == if b in at && at[b] == p then 1 else 0
  }

  ghost function Holding(c: Cache): multiset<nat> {
    multiset(c.l1) + multiset(c.l0)
  }

  ghost function Held(s: Pool, p: Place): multiset<nat> {
    match p
    case Shared => multiset(s.shared)
    case Cached(t) => Holding(CacheOf(s, t))
    case Live => multiset(s.live)
  }

  /** Every block is in the shared list, in one thread's cache or live, and only there. */
  ghost predicate Partition(s: Pool, at: Map) {
    forall p: Place :: Exactly(Held(s, p), at, p)
  }

  /** Every thread's stacks are within their bounds. */
  ghost predicate Bounded(s: Pool) {
    forall t: nat :: Fits(CacheOf(s, t)) && CacheOf(s, t).max != 1
  }

  /** The places after the blocks of `m` have moved to `q`. */
  ghost function Move(at: Map, m: multiset<nat>, q: Place): Map {
    map b | b in at :: if b in m then q else at[b]
  }

  lemma LosesExactly(held: multiset<nat>, held': multiset<nat>, m: multiset<nat>, at: Map, p: Place, q: Place)
    requires p != q && Exactly(held, at, p) && held == held' + m
    ensures Exactly(held', Move(at, m, q), p)
    ensures forall b: nat :: m[b] <= 1 && (b in m ==> b in at && at[b] == p)
  {
    forall b: nat
      ensures held'[b] == (if b in Move(at, m, q) && Move(at, m, q)[b] == p then 1 else 0)
      ensures m[b] <= 1 && (b in m ==> b in at && at[b] == p)
    {
      assert held[b] == held'[b] + m[b];
    }
  }

  lemma GainsExactly(held: multiset<nat>, held': multiset<nat>, m: multiset<nat>, at: Map, p: Place, q: Place)
    requires p != q && Exactly(held, at, q) && held' == held + m
    requires forall b: nat :: m[b] <= 1 && (b in m ==> b in at && at[b] == p)
    ensures Exactly(held', Move(at, m, q), q)
  {
    forall b: nat
      ensures held'[b] == (if b in Move(at, m, q) && Move(at, m, q)[b] == q then 1 else 0)
    {
      assert held'[b] == held[b] + m[b];
    }
  }

  lemma OthersExactly(held: multiset<nat>, m: multiset<nat>, at: Map, p: Place, q: Place, r: Place)
    requires Exactly(held, at, r) && r != p && r != q && forall b :: b in m ==> b in at && at[b] == p
    ensures Exactly(held, Move(at, m, q), r)
  {
  }

  /** The blocks `all` are partitioned. */
  ghost predicate Partitioned(s: Pool, all: set<nat>) {
    exists at :: Partition(s, at) && at.Keys == all
  }

  /** Moving blocks from one place to another keeps the partition. */
  lemma Transfer(s: Pool, s': Pool, all: set<nat>, m: multiset<nat>, p: Place, q: Place)
    requires p != q && Partitioned(s, all)
    requires forall r: Place :: r != p && r != q ==> Held(s', r) == Held(s, r)
    requires Held(s, p) == Held(s', p) + m && Held(s', q) == Held(s, q) + m
    ensures Partitioned(s', all)
  {
    var at :| Partition(s, at) && at.Keys == all;
    forall r: Place
      ensures Exactly(Held(s', r), Move(at, m, q), r)
    {
      TransferAt(s, s', at, m, p, q, r);
    }
    assert Partition(s', Move(at, m, q)) && Move(at, m, q).Keys == all;
  }

  /** What one place holds after such a move. */
  lemma TransferAt(s: Pool, s': Pool, at: Map, m: multiset<nat>, p: Place, q: Place, r: Place)
    requires p != q && Partition(s, at) && (r != p && r != q ==> Held(s', r) == Held(s, r))
    requires Held(s, p) == Held(s', p) + m && Held(s', q) == Held(s, q) + m
    ensures Exactly(Held(s', r), Move(at, m, q), r)
  {
    LosesExactly(Held(s, p), Held(s', p), m, at, p, q);
    if r == q {
      GainsExactly(Held(s, q), Held(s', q), m, at, p, q);
    } else if r != p {
      OthersExactly(Held(s, r), m, at, p, q, r);
    }
  }

  // ----- each call keeps the partition

  lemma OtherCaches(s: Pool, s': Pool, t: nat)
    requires forall u :: u != t ==> CacheOf(s', u) == CacheOf(s, u)
    ensures forall r: Place :: r != Shared && r != Live && r != Cached(t) ==> Held(s', r) == Held(s, r)
  {
    forall r: Place | r != Shared && r != Live && r != Cached(t)
      ensures Held(s', r) == Held(s, r)
    {
      assert r.Cached? && r.t != t;
    }
  }

  lemma LastAndRest(l: seq<nat>)
    requires l != []
    ensures multiset(l) == multiset(l[..|l| - 1]) + multiset{l[|l| - 1]}
  {
    assert l == l[..|l| - 1] + [l[|l| - 1]];
  }

  lemma TakeHolds(c: Cache)
    requires Take(c).1.Some?
    ensures Holding(c) == Holding(Take(c).0) + multiset{Take(c).1.value}
  {
    if |c.l0| > 0 {
      LastAndRest(c.l0);
    } else {
      LastAndRest(c.l1);
    }
  }

  lemma LiveGains(live: set<nat>, b: nat)
    requires b !in live
    ensures multiset(live + {b}) == multiset(live) + multiset{b}
  {
  }

  lemma LiveLoses(live: set<nat>, b: nat)
    requires b in live
    ensures multiset(live) == multiset(live - {b}) + multiset{b}
  {
    assert live == (live - {b}) + {b};
    LiveGains(live - {b}, b);
  }

  /** A block that is at a place is not live. */
  lemma NotLive(s: Pool, all: set<nat>, p: Place, b: nat)
    requires Partitioned(s, all) && p != Live && b in Held(s, p)
    ensures b !in s.live
  {
    var at :| Partition(s, at) && at.Keys == all;
    assert Exactly(Held(s, p), at, p) && Exactly(Held(s, Live), at, Live);
    assert Held(s, p)[b] > 0;
    assert Held(s, Live)[b] == 0;
  }

  lemma AllocKeeps(s: Pool, all: set<nat>, t: nat)
    requires Partitioned(s, all)
    ensures Partitioned(Step(s, Alloc(t)), all)
  {
    var s' := Step(s, Alloc(t));
    var (c, p) := Take(CacheOf(s, t));
    OtherCaches(s, s', t);
    if p.Some? {
      TakeHolds(CacheOf(s, t));
      NotLive(s, all, Cached(t), p.value);
      LiveGains(s.live, p.value);
      Transfer(s, s', all, multiset{p.value}, Cached(t), Live);
    } else if s.shared != [] {
      assert s.shared == [s.shared[0]] + s.shared[1..];
      NotLive(s, all, Shared, s.shared[0]);
      LiveGains(s.live, s.shared[0]);
      Transfer(s, s', all, multiset{s.shared[0]}, Shared, Live);
    }
  }

  lemma KeptAndReturned(l: seq<nat>, count: nat)
    ensures l == Kept(l, count) + Returned(l, count)
  {
  }

  lemma KeepHolds(c: Cache, b: nat)
    ensures Holding(c) + multiset{b} == Holding(Keep(c, b, true).0) + multiset(Keep(c, b, true).1)
  {
    KeptAndReturned(c.l1, |c.l1| / 2);
    assert multiset(c.l1) == multiset(Kept(c.l1, |c.l1| / 2)) + multiset(Returned(c.l1, |c.l1| / 2));
  }

  /** The freed block on top of the cache, however full that is. */
  function Topped(s: Pool, t: nat, b: nat): Pool {
    s.(caches := s.caches[t := CacheOf(s, t).(l1 := CacheOf(s, t).l1 + [b])], live := s.live - {b})
  }

  lemma ToppedKeeps(s: Pool, all: set<nat>, t: nat, b: nat)
    requires Partitioned(s, all) && b in s.live
    ensures Partitioned(Topped(s, t, b), all)
  {
    LiveLoses(s.live, b);
    OtherCaches(s, Topped(s, t, b), t);
    Transfer(s, Topped(s, t, b), all, multiset{b}, Live, Cached(t));
  }

  /** A cache gives blocks back to the shared list. */
  lemma FlushKeeps(s: Pool, s': Pool, all: set<nat>, t: nat, given: seq<nat>)
    requires Partitioned(s, all) && s'.live == s.live && s'.shared == given + s.shared
    requires Holding(CacheOf(s, t)) == Holding(CacheOf(s', t)) + multiset(given)
    requires forall u :: u != t ==> CacheOf(s', u) == CacheOf(s, u)
    ensures Partitioned(s', all)
  {
    OtherCaches(s, s', t);
    Transfer(s, s', all, multiset(given), Cached(t), Shared);
  }

  lemma FreeKeeps(s: Pool, all: set<nat>, t: nat, b: nat)
    requires Partitioned(s, all) && b in s.live
    ensures Partitioned(Step(s, Free(t, b)), all)
  {
    var s', c := Step(s, Free(t, b)), CacheOf(s, t);
    if c.max == 0 {
      LiveLoses(s.live, b);
      OtherCaches(s, s', t);
      Transfer(s, s', all, multiset{b}, Live, Shared);
    } else {
      ToppedKeeps(s, all, t, b);
      KeepHolds(c, b);
      FlushKeeps(Topped(s, t, b), s', all, t, Keep(c, b, true).1);
    }
  }

  lemma CreateKeeps(s: Pool, all: set<nat>, t: nat, max: nat, target: nat)
    requires Partitioned(s, all) && CacheOf(s, t) == NO_CACHE
    ensures Partitioned(Step(s, CreateCache(t, max, target)), all)
  {
    var s' := Step(s, CreateCache(t, max, target));
    var k := Moved(s.shared, target);
    assert s.shared == s.shared[..k] + s.shared[k..];
    OtherCaches(s, s', t);
    Transfer(s, s', all, multiset(s.shared[..k]), Shared, Cached(t));
  }

  lemma DestroyKeeps(s: Pool, all: set<nat>, t: nat)
    requires Partitioned(s, all)
    ensures Partitioned(Step(s, DestroyCache(t)), all)
  {
    var s' := Step(s, DestroyCache(t));
    OtherCaches(s, s', t);
    Transfer(s, s', all, multiset(Folded(CacheOf(s, t))), Cached(t), Shared);
  }

  lemma BoundsKeep(s: Pool, op: Op)
    requires Bounded(s) && Enabled(s, op)
    ensures Bounded(Step(s, op))
  {
    forall t: nat
      ensures Fits(CacheOf(Step(s, op), t)) && CacheOf(Step(s, op), t).max != 1
    {
      var c := CacheOf(s, t);
      assert Fits(c) && c.max != 1;
      if op.Free? && op.t == t && c.max != 0 {
        KeepFits(c, op.block, true);
      }
    }
  }

  lemma StepKeeps(s: Pool, all: set<nat>, op: Op)
    requires Partitioned(s, all) && Enabled(s, op)
    ensures Partitioned(Step(s, op), all)
  {
    match op
    case Alloc(t) => AllocKeeps(s, all, t);
    case Free(t, b) => FreeKeeps(s, all, t, b);
    case CreateCache(t, max, target) => CreateKeeps(s, all, t, max, target);
    case DestroyCache(t) => DestroyKeeps(s, all, t);
  }

  // ----- whole runs

  /** The blocks of the bucket, all free, no caches. */
  function Fresh(n: nat): Pool {
    Pool(Upto(n), map[], {})
  }

  /** The bucket's blocks. */
  ghost function Blocks(n: nat): set<nat> {
    set b | b in Upto(n)
  }

  lemma {:induction false} UptoOnce(n: nat)
    ensures forall b: nat :: multiset(Upto(n))[b] == if b < n then 1 else 0
  {
    if n > 0 {
      UptoOnce(n - 1);
      assert Upto(n) == Upto(n - 1) + [n - 1];
    } else {
      assert Upto(0) == [];
    }
  }

  lemma FreshIsPartitioned(n: nat)
    ensures Partitioned(Fresh(n), Blocks(n)) && Bounded(Fresh(n))
  {
    UptoOnce(n);
    var at: Map := map b | b in Blocks(n) :: Shared;
    assert forall b: nat :: b in at <==> multiset(Upto(n))[b] > 0;
    forall p: Place
      ensures Exactly(Held(Fresh(n), p), at, p)
    {
    }
    assert Partition(Fresh(n), at) && at.Keys == Blocks(n);
  }

  /** `s'` follows from `s` by the calls, each of them allowed where it is made. */
  ghost predicate Run(s: Pool, ops: seq<Op>, s': Pool)
    decreases |ops|
  {
    if ops == [] then s' == s else Enabled(s, ops[0]) && Run(Step(s, ops[0]), ops[1..], s')
  }

  lemma {:induction false} RunKeeps(s: Pool, all: set<nat>, ops: seq<Op>, s': Pool)
    requires Partitioned(s, all) && Bounded(s) && Run(s, ops, s')
    ensures Partitioned(s', all) && Bounded(s')
    decreases |ops|
  {
    if ops != [] {
      BoundsKeep(s, ops[0]);
      StepKeeps(s, all, ops[0]);
      RunKeeps(Step(s, ops[0]), all, ops[1..], s');
    }
  }

  /** After every run of calls each of the bucket's blocks is in exactly one of the shared list, one
      thread's cache and the live blocks, and every cache is within its bounds. */
  lemma RunsPartition(n: nat, ops: seq<Op>, s: Pool)
    requires Run(Fresh(n), ops, s)
    ensures exists at :: Partition(s, at) && at.Keys == Blocks(n)
    ensures Bounded(s)
  {
    FreshIsPartitioned(n);
    RunKeeps(Fresh(n), Blocks(n), ops, s);
  }

  /** A block that is in no cache and not live is in the shared list. */
  lemma NowhereElse(s: Pool, at: Map, b: nat)
    requires Partition(s, at) && b in at && s.live == {} && forall t: nat :: CacheOf(s, t) == NO_CACHE
    ensures at[b] == Shared
  {
    assert Held(s, Live) == multiset{};
    forall t: nat
      ensures Held(s, Cached(t)) == multiset{}
    {
      assert CacheOf(s, t) == NO_CACHE;
    }
    assert Exactly(Held(s, at[b]), at, at[b]);
    assert Held(s, at[b])[b] == 1;
  }

  /** Once every block is freed and every cache destroyed, the shared list holds each block of the
      bucket exactly once again. */
  lemma AllReturned(n: nat, ops: seq<Op>, s: Pool)
    requires Run(Fresh(n), ops, s) && s.live == {} && forall t: nat :: CacheOf(s, t) == NO_CACHE
    ensures multiset(s.shared) == multiset(Upto(n)) && |s.shared| == n
  {
    RunsPartition(n, ops, s);
    var at :| Partition(s, at) && at.Keys == Blocks(n);
    SharedIsAll(n, s, at);
    assert |multiset(s.shared)| == |multiset(Upto(n))|;
    assert |s.shared| == |multiset(s.shared)| && |Upto(n)| == |multiset(Upto(n))|;
  }

  lemma SharedIsAll(n: nat, s: Pool, at: Map)
    requires Partition(s, at) && at.Keys == Blocks(n) && s.live == {} && forall t: nat :: CacheOf(s, t) == NO_CACHE
    ensures multiset(s.shared) == multiset(Upto(n))
  {
    UptoOnce(n);
    assert Exactly(Held(s, Shared), at, Shared);
    forall b: nat
      ensures multiset(s.shared)[b] == multiset(Upto(n))[b]
    {
      assert b in at <==> b in Upto(n);
      assert b in Upto(n) <==> multiset(Upto(n))[b] > 0;
      if b in at {
        NowhereElse(s, at, b);
      }
    }
  }
}
