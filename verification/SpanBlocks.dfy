/** rpmalloc's blocks within a span: a free list whose links are written only when a block is freed.
    Blocks from `firstAutolink` on have never been handed out and follow one another without links. */
module SpanBlocks {
  import opened Lists

  /** The bookkeeping of one span of `n` blocks; `links` are the first words of the blocks. */
  datatype Span = Span(n: nat, freeList: nat, firstAutolink: nat, freeCount: nat, links: map<nat, nat>)

  /** Where the chain goes on after its linked part: the first block of the untouched rest, if any. */
  ghost predicate Starts(s: Span, at: nat, linked: seq<nat>)
    decreases |linked|
  {
    if linked == [] then
      s.firstAutolink < s.n ==> at == s.firstAutolink
    else
      && at == linked[0]
      && (|linked| > 1 || s.firstAutolink < s.n ==> at in s.links && Starts(s, s.links[at], linked[1..]))
  }

  /** The free blocks are the linked ones and the untouched rest; all others are live. */
  ghost predicate Free(s: Span, linked: seq<nat>, live: set<nat>) {
    && s.firstAutolink <= s.n && s.freeCount == |linked| + (s.n - s.firstAutolink)
    && Distinct(linked) && (forall b :: b in linked ==> b < s.firstAutolink)
    && (forall b: nat :: b in live <==> b < s.firstAutolink && b !in linked)
    && Starts(s, s.freeList, linked)
  }

  /** What the list stands for, in the order in which blocks will be handed out. */
  ghost function Order(s: Span, linked: seq<nat>): seq<nat>
    requires s.firstAutolink <= s.n
  {
    linked + seq(s.n - s.firstAutolink, i => i + s.firstAutolink)
  }

  // ----- the operations

  /** A new span, its first block handed out. When that is the only one the list is empty, and where it
      begins is never read. */
  function Opened(n: nat): Span
    requires n > 0
  {
    Span(n, 1, 1, n - 1, map[])
  }

  /** Taking the next free block (`_memory_allocate_from_heap`, the active span). */
  function Take(s: Span): Span
    requires s.freeCount > 0
    requires s.freeCount > 1 && s.freeList < s.firstAutolink ==> s.freeList in s.links
  {
    if s.freeCount == 1 then
      s.(freeCount := 0, firstAutolink := s.n)
    else if s.freeList < s.firstAutolink then
      s.(freeCount := s.freeCount - 1, freeList := s.links[s.freeList])
    else
      s.(freeCount := s.freeCount - 1, freeList := s.freeList + 1, firstAutolink := s.firstAutolink + 1)
  }

  /** Returning a block to a span that does not become empty by it (`_memory_deallocate_to_heap`). */
  function Give(s: Span, b: nat): Span {
    var t := if s.freeCount == 0 then s.(firstAutolink := s.n) else s;
    t.(freeCount := s.freeCount + 1, links := s.links[b := s.freeList], freeList := b)
  }

  // ----- what they keep

  lemma {:induction false} StartsFrame(s: Span, s': Span, at: nat, linked: seq<nat>)
    requires Starts(s, at, linked) && s'.n == s.n && s'.firstAutolink == s.firstAutolink
    requires forall b :: b in linked && b in s.links ==> b in s'.links && s'.links[b] == s.links[b]
    ensures Starts(s', at, linked)
    decreases |linked|
  {
    if linked != [] && (|linked| > 1 || s.firstAutolink < s.n) {
      StartsFrame(s, s', s.links[at], linked[1..]);
    }
  }

  lemma OpenedIsFree(n: nat)
    requires n > 0
    ensures Free(Opened(n), [], {0})
  {
  }

  /** The next block is free and its link, if one is read, has been written; taking it makes exactly
      that block live. */
  lemma TakeKeeps(s: Span, linked: seq<nat>, live: set<nat>)
    requires Free(s, linked, live) && s.freeCount > 0
    ensures s.freeList < s.n && s.freeList !in live && Order(s, linked)[0] == s.freeList
    ensures s.freeCount > 1 && s.freeList < s.firstAutolink ==> s.freeList in s.links
    ensures var linked' := if linked == [] then [] else linked[1..];
            Free(Take(s), linked', live + {s.freeList}) && Order(Take(s), linked') == Order(s, linked)[1..]
  {
    var live' := live + {s.freeList};
    if linked == [] {
      assert s.freeList == s.firstAutolink;
    } else {
      var rest := linked[1..];
      assert linked == [linked[0]] + rest;
      assert linked[0] in linked && s.freeList == linked[0] < s.firstAutolink;
      if s.freeCount > 1 {
        assert |linked| > 1 || s.firstAutolink < s.n;
        assert Starts(s, s.links[s.freeList], rest);
        StartsFrame(s, Take(s), s.links[s.freeList], rest);
      }
      assert forall b :: b in linked <==> b == linked[0] || b in rest;
    }
  }

  /** Returning a live block makes exactly that block free, and the next to be handed out. */
  lemma GiveKeeps(s: Span, linked: seq<nat>, live: set<nat>, b: nat)
    requires Free(s, linked, live) && b in live
    ensures Free(Give(s, b), [b] + linked, live - {b}) && Order(Give(s, b), [b] + linked) == [b] + Order(s, linked)
  {
    var s', linked' := Give(s, b), [b] + linked;
    assert linked'[1..] == linked;
    StartsFrame(s, s', s.freeList, linked);
    assert forall c :: c in linked' <==> c == b || c in linked;
  }

  /** A user may write anything into a block it holds. */
  lemma WriteKeeps(s: Span, linked: seq<nat>, live: set<nat>, b: nat, w: nat)
    requires Free(s, linked, live) && b in live
    ensures Free(s.(links := s.links[b := w]), linked, live)
  {
    StartsFrame(s, s.(links := s.links[b := w]), s.freeList, linked);
  }

  // ----- runs

  datatype Op = Alloc | Dealloc(b: nat) | Write(b: nat, w: nat)

  /** A span with the blocks that users hold. */
  datatype World = World(span: Span, live: set<nat>)

  /** A block is allocated only while there is one, and only a live block is freed or written; the
      last live block is not freed here, because the span then leaves the list. */
  predicate Enabled(w: World, op: Op) {
    match op
    case Alloc => w.span.freeCount > 0
    case Dealloc(b) => b in w.live && w.span.freeCount + 1 < w.span.n
    case Write(b, _) => b in w.live
  }

  ghost predicate Valid(w: World) {
    exists linked :: Free(w.span, linked, w.live)
  }

  function Step(w: World, op: Op): World
    requires Valid(w) && Enabled(w, op)
  {
    match op
    case Alloc =>
      LinkIsThere(w);
      World(Take(w.span), w.live + {w.span.freeList})
    case Dealloc(b) => World(Give(w.span, b), w.live - {b})
    case Write(b, v) => w.(span := w.span.(links := w.span.links[b := v]))
  }

  lemma LinkIsThere(w: World)
    requires Valid(w) && w.span.freeCount > 0
    ensures w.span.freeCount > 1 && w.span.freeList < w.span.firstAutolink ==> w.span.freeList in w.span.links
  {
    var linked :| Free(w.span, linked, w.live);
    TakeKeeps(w.span, linked, w.live);
  }

  lemma StepKeeps(w: World, op: Op)
    requires Valid(w) && Enabled(w, op)
    ensures Valid(Step(w, op)) && Step(w, op).span.n == w.span.n
    ensures op.Alloc? ==> w.span.freeList < w.span.n && w.span.freeList !in w.live
  {
    var linked :| Free(w.span, linked, w.live);
    match op
    case Alloc => TakeKeeps(w.span, linked, w.live);
    case Dealloc(b) => GiveKeeps(w.span, linked, w.live, b);
    case Write(b, v) => WriteKeeps(w.span, linked, w.live, b, v);
  }

  /** `w'` follows by the operations, each allowed where it is made. */
  ghost predicate Run(w: World, ops: seq<Op>, w': World)
    requires Valid(w)
    decreases |ops|
  {
    if ops == [] then
      w' == w
    else
      && Enabled(w, ops[0])
      && (StepKeeps(w, ops[0]); Run(Step(w, ops[0]), ops[1..], w'))
  }

  lemma {:induction false} RunsKeep(w: World, ops: seq<Op>, w': World)
    requires Valid(w) && Run(w, ops, w')
    ensures Valid(w') && w'.span.n == w.span.n
    decreases |ops|
  {
    if ops != [] {
      StepKeeps(w, ops[0]);
      RunsKeep(Step(w, ops[0]), ops[1..], w');
    }
  }

  /** A new span, its first block handed out. */
  function Start(n: nat): (w: World)
    requires n > 0
    ensures Valid(w)
  {
    OpenedIsFree(n);
    World(Opened(n), {0})
  }

  /** In every run from a new span the counter is the number of blocks that are not live, and the
      next block to be handed out is one of those. */
  lemma NewSpanRuns(n: nat, ops: seq<Op>, w: World)
    requires n > 0 && Run(Start(n), ops, w)
    ensures w.span.freeCount == n - |w.live| && forall b :: b in w.live ==> b < n
    ensures w.span.freeCount > 0 ==> w.span.freeList < n && w.span.freeList !in w.live
  {
    RunsKeep(Start(n), ops, w);
    var linked :| Free(w.span, linked, w.live);
    CountFree(w.span, linked, w.live);
    if w.span.freeCount > 0 {
      TakeKeeps(w.span, linked, w.live);
    }
  }

  function Numbers(n: nat): (s: set<nat>)
    ensures |s| == n && forall b: nat :: b in s <==> b < n
  {
    if n == 0 then {} else Numbers(n - 1) + {n - 1}
  }

  function Elements(s: seq<nat>): (e: set<nat>)
    requires Distinct(s)
    ensures |e| == |s| && forall b :: b in e <==> b in s
  {
    if s == [] then {} else
      assert s == [s[0]] + s[1..];
      assert s[0] !in s[1..];
      {s[0]} + Elements(s[1..])
  }

  lemma CountFree(s: Span, linked: seq<nat>, live: set<nat>)
    requires Free(s, linked, live)
    ensures |live| + s.freeCount == s.n
  {
    var all, free := Numbers(s.firstAutolink), Elements(linked);
    assert live == all - free;
    assert free <= all;
  }

  // ----- the bookkeeping in place

  class ActiveSpan {
    const blockCount: nat
    var freeList: nat
    var firstAutolink: nat
    var freeCount: nat
    var links: map<nat, nat>
    ghost var live: set<nat>

    ghost function Value(): World
      reads this
    {
      World(Span(blockCount, freeList, firstAutolink, freeCount, links), live)
    }

    /** A span taken for a size class: its first block is handed out at once, the others are
        untouched. */
    constructor (n: nat)
      requires n > 0
      ensures blockCount == n && Value() == Start(n) && Valid(Value())
    {
      blockCount, freeList, firstAutolink, freeCount, links, live := n, 1, 1, n - 1, map[], {0};
      new;
      OpenedIsFree(n);
    }

    method Allocate() returns (block: nat)
      requires Valid(Value()) && freeCount > 0
      modifies this
      ensures Value() == Step(old(Value()), Alloc) && Valid(Value())
      ensures block == old(freeList) < blockCount && block !in old(live) && live == old(live) + {block}
    {
      StepKeeps(Value(), Alloc);
      LinkIsThere(Value());
      block := freeList;
      freeCount := freeCount - 1;
      if freeCount == 0 {
        firstAutolink := blockCount;
      } else if freeList < firstAutolink {
        freeList := links[block];
      } else {
        freeList := freeList + 1;
        firstAutolink := firstAutolink + 1;
      }
      live := live + {block};
    }

    /** The result says that the span has become completely free and leaves the list untouched. */
    method Deallocate(block: nat) returns (whole: bool)
      requires Valid(Value()) && block in live
      modifies this
      ensures whole <==> old(live) == {block}
      ensures whole ==> Value() == old(Value())
      ensures !whole ==> old(freeCount) + 1 < blockCount
      ensures !whole ==> Value() == Step(old(Value()), Dealloc(block)) && Valid(Value())
    {
      ghost var linked :| Free(Value().span, linked, live);
      CountFree(Value().span, linked, live);
      OneLive(live, block);
      if freeCount == blockCount - 1 {
        return true;
      }
      StepKeeps(Value(), Dealloc(block));
      if freeCount == 0 {
        firstAutolink := blockCount;
      }
      freeCount := freeCount + 1;
      links := links[block := freeList];
      freeList := block;
      live := live - {block};
      return false;
    }
  }

  lemma OneLive(live: set<nat>, b: nat)
    requires b in live
    ensures |live| == 1 <==> live == {b}
  {
    assert |live - {b}| == |live| - 1;
    assert live == {b} + (live - {b});
  }
}
