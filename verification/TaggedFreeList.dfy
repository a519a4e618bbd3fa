/** The lock-free tagged free list of one pool bucket (`PoolBucket`), as a machine of
    atomic steps taken by any number of threads in any order.

    A block is identified by its number in the bucket (byte offset / element size).  The
    64-bit head word and the first word of every free block hold a `Link`: the all-ones
    word `Invalid`, or a 32-bit tag together with a block. */
module TaggedFreeList {
  import opened Lists

  /** Tags are 32-bit and wrap. */
  const TAG_MODULUS: nat := 0x1_0000_0000

  /** First tag used for the interior links of a flushed chain. */
  const LOCAL_TAG: nat := 0xFF_FFFF

  datatype Name = Name(tag: nat, block: nat)

  datatype Link = Invalid | To(name: Name)

  /** Where a thread stands inside `Alloc` or `FreeInterval`. */
  datatype Pc =
    | Idle
    | PopLoaded(seen: Name)
    | PopRead(seen: Name, next: Link)
    | PushTagged(chain: seq<nat>, tag: nat)
    | PushLoaded(chain: seq<nat>, tag: nat, below: Link)
    | PushWritten(chain: seq<nat>, tag: nat, below: Link)

  /** `tags` counts every `fetch_add` on `globalTag`; `mem` is the first word of each
      block; `live` are the blocks held by users. */
  datatype State = State(
    head: Link,
    tags: nat,
    mem: map<nat, Link>,
    pcs: map<nat, Pc>,
    live: set<nat>)

  datatype Action =
    | LoadHead(t: nat)
    | ReadLink(t: nat)
    | CasPop(t: nat)
    | BeginPush(t: nat, chain: seq<nat>)
    | LoadForPush(t: nat)
    | WriteTail(t: nat)
    | CasPush(t: nat)
    | UserWrite(block: nat, word: Link)

  /** What a call reports at its linearization point. */
  datatype Event = Silent | Popped(block: nat) | WasEmpty | Pushed(blocks: seq<nat>)

  /** A machine state next to the sequential stack that watches its events; the stack
      is `None` once an event was impossible for a last-in-first-out stack. */
  datatype World = World(s: State, stack: Option<seq<nat>>)

  // ----- what Create leaves behind

  /** The word `Create` writes into block `k` of `n`. */
  function CreatedLink(n: nat, k: nat): Link {
    if k + 1 < n then To(Name(k, k + 1)) else Invalid
  }

  function CreatedWords(n: nat): map<nat, Link> {
    map k | 0 <= k < n :: CreatedLink(n, k)
  }

  function Upto(n: nat): seq<nat> {
    seq(n, i => i)
  }

  function Created(n: nat): World
    requires n > 0
  {
    World(State(To(Name(0, 0)), n - 1, CreatedWords(n), map[], {}), Some(Upto(n)))
  }

  // ----- the machine

  function At(s: State, t: nat): Pc {
    if t in s.pcs then s.pcs[t] else Idle
  }

  function Go(s: State, t: nat, pc: Pc): State {
    s.(pcs := s.pcs[t := pc])
  }

  /** The interior of a chain is linked with tags counting up from the local constant. */
  predicate ChainLinked(mem: map<nat, Link>, c: seq<nat>) {
    forall i :: 0 <= i < |c| - 1 ==>
      c[i] in mem && mem[c[i]] == To(Name((LOCAL_TAG + i) % TAG_MODULUS, c[i + 1]))
  }

  /** A client frees only blocks it holds, as one linked chain. */
  predicate MayPush(s: State, c: seq<nat>) {
    && c != [] && Distinct(c) && ChainLinked(s.mem, c)
    && forall b :: b in c ==> b in s.live
  }

  function Reload(s: State, t: nat): State {
    Go(s, t, if s.head.Invalid? then Idle else PopLoaded(s.head.name))
  }

  function Next(s: State, a: Action): State {
    match a
    case LoadHead(t) =>
      if At(s, t).Idle? then Reload(s, t) else s
    case ReadLink(t) =>
      var pc := At(s, t);
      if pc.PopLoaded? && pc.seen.block in s.mem
      then Go(s, t, PopRead(pc.seen, s.mem[pc.seen.block])) else s
    case CasPop(t) =>
      var pc := At(s, t);
      if !pc.PopRead? then s
      else if s.head == To(pc.seen) then
        Go(s, t, Idle).(head := pc.next, live := s.live + {pc.seen.block})
      else Reload(s, t)
    case BeginPush(t, chain) =>
      if At(s, t).Idle? && MayPush(s, chain) then
        Go(s, t, PushTagged(chain, s.tags % TAG_MODULUS))
        .(tags := s.tags + 1, live := s.live - (set b | b in chain))
      else s
    case LoadForPush(t) =>
      var pc := At(s, t);
      if pc.PushTagged? then Go(s, t, PushLoaded(pc.chain, pc.tag, s.head)) else s
    case WriteTail(t) =>
      var pc := At(s, t);
      if pc.PushLoaded? && pc.chain != [] then
        Go(s, t, PushWritten(pc.chain, pc.tag, pc.below))
        .(mem := s.mem[pc.chain[|pc.chain| - 1] := pc.below])
      else s
    case CasPush(t) =>
      var pc := At(s, t);
      if !pc.PushWritten? || pc.chain == [] then s
      else if s.head == pc.below then Go(s, t, Idle).(head := To(Name(pc.tag, pc.chain[0])))
      else Go(s, t, PushLoaded(pc.chain, pc.tag, s.head))
    case UserWrite(b, word) =>
      if b in s.live then s.(mem := s.mem[b := word]) else s
  }

  function EventOf(s: State, a: Action): Event {
    match a
    case LoadHead(t) =>
      if At(s, t).Idle? && s.head.Invalid? then WasEmpty else Silent
    case CasPop(t) =>
      var pc := At(s, t);
      if !pc.PopRead? then Silent
      else if s.head == To(pc.seen) then Popped(pc.seen.block)
      else if s.head.Invalid? then WasEmpty else Silent
    case CasPush(t) =>
      var pc := At(s, t);
      if pc.PushWritten? && pc.chain != [] && s.head == pc.below then Pushed(pc.chain) else Silent
    case _ => Silent
  }

  /** The sequential specification: a last-in-first-out stack. */
  function Observe(stack: Option<seq<nat>>, e: Event): Option<seq<nat>> {
    if stack.None? then None else
    match e
    case Silent => stack
    case WasEmpty => if stack.value == [] then stack else None
    case Popped(b) =>
      if stack.value != [] && stack.value[0] == b then Some(stack.value[1..]) else None
    case Pushed(c) => Some(c + stack.value)
  }

  function Step(w: World, a: Action): World {
    World(Next(w.s, a), Observe(w.stack, EventOf(w.s, a)))
  }

  function Run(w: World, acts: seq<Action>): World
    decreases |acts|
  {
    if acts == [] then w else Run(Step(w, acts[0]), acts[1..])
  }

  // ----- the claims

  predicate ChainsAtMost(acts: seq<Action>, m: nat) {
    forall i :: 0 <= i < |acts| && acts[i].BeginPush? ==> |acts[i].chain| <= m
  }

  /** Over every run of at most `maxTags` tags whose frees pass chains of at most `maxChain`
      blocks, the calls are linearizable to a stack. */
  ghost predicate AlwaysLinearizable(n: nat, maxChain: nat, maxTags: nat)
    requires n > 0
  {
    forall acts: seq<Action> ::
      ChainsAtMost(acts, maxChain) && Run(Created(n), acts).s.tags <= maxTags
      ==> Run(Created(n), acts).stack.Some?
  }

  /** The link met at position `i` when the list is `names`. */
  function LinkAt(names: seq<Name>, i: nat): Link {
    if i < |names| then To(names[i]) else Invalid
  }

  /** Following links from the head visits exactly `names`, each block once, and stops. */
  ghost predicate Follows(s: State, names: seq<Name>) {
    && s.head == LinkAt(names, 0)
    && (forall i {:trigger names[i].block} :: 0 <= i < |names| ==>
          names[i].block in s.mem && s.mem[names[i].block] == LinkAt(names, i + 1))
    && (forall i, j :: 0 <= i < j < |names| ==> names[i].block != names[j].block)
  }

  ghost predicate Listed(names: seq<Name>, b: nat) {
    exists i :: 0 <= i < |names| && names[i].block == b
  }

  predicate Pushing(pc: Pc) {
    pc.PushTagged? || pc.PushLoaded? || pc.PushWritten?
  }

  predicate Popping(pc: Pc) {
    pc.PopLoaded? || pc.PopRead?
  }

  predicate Freeing(s: State, t: nat, b: nat) {
    Pushing(At(s, t)) && b in At(s, t).chain
  }

  /** Every block is in exactly one place: on the list, held by a user, or being freed by one thread. */
  ghost predicate Conserved(s: State, names: seq<Name>) {
    && (forall b :: b in s.mem ==> Listed(names, b) || b in s.live || exists t :: Freeing(s, t, b))
    && (forall b :: b in s.live ==> b in s.mem && !Listed(names, b))
    && (forall t, b :: Freeing(s, t, b) ==> b in s.mem && !Listed(names, b) && b !in s.live)
    && (forall t, u, b :: Freeing(s, t, b) && Freeing(s, u, b) ==> t == u)
  }

  // ----- a call that is not interrupted

  function PopCall(t: nat): seq<Action> {
    [LoadHead(t), ReadLink(t), CasPop(t)]
  }

  function PushCall(t: nat, chain: seq<nat>): seq<Action> {
    [BeginPush(t, chain), LoadForPush(t), WriteTail(t), CasPush(t)]
  }

  lemma {:induction false} RunAppend(w: World, a: seq<Action>, b: seq<Action>)
    ensures Run(w, a + b) == Run(Run(w, a), b)
    decreases |a|
  {
    if a == [] {
      assert a + b == b;
    } else {
      assert (a + b)[0] == a[0] && (a + b)[1..] == a[1..] + b;
      RunAppend(Step(w, a[0]), a[1..], b);
    }
  }

  lemma RunOne(w: World, a: Action)
    ensures Run(w, [a]) == Step(w, a)
  {
    assert Run(Step(w, a), [a][1..]) == Step(w, a);
  }

  lemma RunFour(w: World, a: Action, b: Action, c: Action, d: Action)
    ensures Run(w, [a, b, c, d]) == Step(Step(Step(Step(w, a), b), c), d)
  {
    RunAppend(w, [a, b], [c, d]);
    RunTwo(w, a, b);
    RunTwo(Run(w, [a, b]), c, d);
    assert [a, b] + [c, d] == [a, b, c, d];
  }

  lemma RunTwo(w: World, a: Action, b: Action)
    ensures Run(w, [a, b]) == Step(Step(w, a), b)
  {
    RunOne(Step(w, a), b);
    assert [a, b][1..] == [b];
  }

  /** Alone, `Alloc` takes the head block and installs its link. */
  lemma PopCallRuns(w: World, t: nat)
    requires At(w.s, t).Idle? && w.s.head.To? && w.s.head.name.block in w.s.mem
    ensures var b := w.s.head.name.block;
            Run(w, PopCall(t)) ==
              World(w.s.(head := w.s.mem[b], pcs := w.s.pcs[t := Idle], live := w.s.live + {b}),
                    Observe(w.stack, Popped(b)))
  {
    var w1 := Step(w, LoadHead(t));
    var w2 := Step(w1, ReadLink(t));
    var w3 := Step(w2, CasPop(t));
    assert w3.s.pcs == w.s.pcs[t := Idle];
    assert PopCall(t)[1..] == [ReadLink(t), CasPop(t)] && PopCall(t)[1..][1..] == [CasPop(t)];
    RunOne(w2, CasPop(t));
  }

  /** Alone, `FreeInterval` puts the chain in front of the list. */
  lemma PushCallRuns(w: World, t: nat, chain: seq<nat>)
    requires At(w.s, t).Idle? && MayPush(w.s, chain)
    ensures Run(w, PushCall(t, chain)) ==
              World(State(To(Name(w.s.tags % TAG_MODULUS, chain[0])), w.s.tags + 1,
                          w.s.mem[chain[|chain| - 1] := w.s.head], w.s.pcs[t := Idle], w.s.live - (set b | b in chain)),
                    Observe(w.stack, Pushed(chain)))
  {
    RunFour(w, BeginPush(t, chain), LoadForPush(t), WriteTail(t), CasPush(t));
    var w3 := Step(Step(Step(w, BeginPush(t, chain)), LoadForPush(t)), WriteTail(t));
    assert Step(w3, CasPush(t)).s.pcs == w.s.pcs[t := Idle];
  }

  // ----- the exact boundary: how each of the three conditions fails

  /** A user that clears its block leaves a word that names block 0 with tag 0. */
  const ZERO_WORD: Link := To(Name(0, 0))

  /** Thread 0 stops between loading the head `(0, 0)` and its CAS, while thread 1 takes block 0
      and its user clears it. */
  function Pause(): seq<Action> {
    [LoadHead(0)] + (PopCall(1) + ([UserWrite(0, ZERO_WORD)] + [ReadLink(0)]))
  }

  /** Thread 1 then puts block 0 back, and takes and puts it back `k` times more. */
  function Recycles(k: nat): seq<Action> {
    if k == 0 then Pause() + PushCall(1, [0]) else Recycles(k - 1) + (PopCall(1) + PushCall(1, [0]))
  }

  function Paused(n: nat): World
    requires n > 0
  {
    World(State(CreatedLink(n, 0), n - 1, CreatedWords(n)[0 := ZERO_WORD],
                map[0 := PopRead(Name(0, 0), ZERO_WORD), 1 := Idle], {0}),
          Some(Upto(n)[1..]))
  }

  function Recycled(n: nat, k: nat): World
    requires n > 0
  {
    World(State(To(Name((n - 1 + k) % TAG_MODULUS, 0)), n + k, CreatedWords(n),
                map[0 := PopRead(Name(0, 0), ZERO_WORD), 1 := Idle], {}),
          Some(Upto(n)))
  }

  lemma PauseRuns(n: nat)
    requires n > 0
    ensures Run(Created(n), Pause()) == Paused(n)
  {
    var w := Created(n);
    var clear, read := [UserWrite(0, ZERO_WORD)], [ReadLink(0)];
    RunAppend(w, [LoadHead(0)], PopCall(1) + (clear + read));
    RunOne(w, LoadHead(0));
    var w1 := Step(w, LoadHead(0));
    RunAppend(w1, PopCall(1), clear + read);
    PopCallRuns(w1, 1);
    var w2 := Run(w1, PopCall(1));
    RunAppend(w2, clear, read);
    RunOne(w2, clear[0]);
    RunOne(Step(w2, clear[0]), read[0]);
    assert Run(w2, clear + read).s.pcs == Paused(n).s.pcs;
  }

  lemma RecycleOnce(n: nat)
    requires n > 0
    ensures Run(Paused(n), PushCall(1, [0])) == Recycled(n, 0)
  {
    var w := Paused(n);
    PushCallRuns(w, 1, [0]);
    assert w.s.pcs[1 := Idle] == w.s.pcs;
    RefilledParts(n, ZERO_WORD);
  }

  /** The world between the pop and the push of one more round. */
  function BetweenRounds(n: nat, k: nat): World
    requires n > 0
  {
    Recycled(n, k).(s := Recycled(n, k).s.(head := CreatedLink(n, 0), live := {0}), stack := Some(Upto(n)[1..]))
  }

  lemma RecycledPops(n: nat, k: nat)
    requires n > 0
    ensures Run(Recycled(n, k), PopCall(1)) == BetweenRounds(n, k)
  {
    var w := Recycled(n, k);
    PopCallRuns(w, 1);
    assert w.s.pcs[1 := Idle] == w.s.pcs && w.s.live + {0} == {0};
  }

  lemma RecycledPushes(n: nat, k: nat)
    requires n > 0
    ensures Run(BetweenRounds(n, k), PushCall(1, [0])) == Recycled(n, k + 1)
  {
    var w := BetweenRounds(n, k);
    PushCallRuns(w, 1, [0]);
    assert w.s.pcs[1 := Idle] == w.s.pcs;
    RefilledParts(n, CreatedLink(n, 0));
  }

  lemma RefilledParts(n: nat, word: Link)
    requires n > 0
    ensures CreatedWords(n)[0 := word][0 := CreatedLink(n, 0)] == CreatedWords(n)
    ensures CreatedWords(n)[0 := CreatedLink(n, 0)] == CreatedWords(n)
    ensures {0} - (set b | b in [0]) == {} && [0] + Upto(n)[1..] == Upto(n)
  {
  }

  lemma RecycleAgain(n: nat, k: nat)
    requires n > 0
    ensures Run(Recycled(n, k), PopCall(1) + PushCall(1, [0])) == Recycled(n, k + 1)
  {
    RunAppend(Recycled(n, k), PopCall(1), PushCall(1, [0]));
    RecycledPops(n, k);
    RecycledPushes(n, k);
  }

  lemma {:induction false} RecyclesRun(n: nat, k: nat)
    requires n > 0
    ensures Run(Created(n), Recycles(k)) == Recycled(n, k)
  {
    if k == 0 {
      PauseRuns(n);
      RecycleOnce(n);
      RunAppend(Created(n), Pause(), PushCall(1, [0]));
    } else {
      RecyclesRun(n, k - 1);
      RunAppend(Created(n), Recycles(k - 1), PopCall(1) + PushCall(1, [0]));
      RecycleAgain(n, k - 1);
    }
  }

  lemma {:induction false} RecyclesOneBlock(k: nat)
    ensures ChainsAtMost(Recycles(k), 1)
  {
    if k > 0 {
      RecyclesOneBlock(k - 1);
    }
  }

  /** Once a tag comes round to 0 the stale CAS succeeds, installs the user's word as the head,
      and the next pop hands out a block that is already held. */
  lemma ReusedTagBreaks(n: nat, k: nat)
    requires n > 0 && (n - 1 + k) % TAG_MODULUS == 0
    ensures !AlwaysLinearizable(n, 1, n + k)
  {
    var acts := Recycles(k) + ([CasPop(0)] + PopCall(1));
    var w := Recycled(n, k);
    RecyclesRun(n, k);
    RunAppend(Created(n), Recycles(k), [CasPop(0)] + PopCall(1));
    RunAppend(w, [CasPop(0)], PopCall(1));
    RunOne(w, CasPop(0));
    PopCallRuns(Step(w, CasPop(0)), 1);
    RecyclesOneBlock(k);
    assert Run(Created(n), acts).stack.None?;
  }

  /** The word a flush writes into the first block of the chain `[0, 1]`. */
  const INTERIOR_WORD: Link := To(Name(LOCAL_TAG, 1))

  /** Blocks 0 and 1 are held, block 0 already linked to block 1. */
  function BothHeld(n: nat, tags: nat, word1: Link, pcs: map<nat, Pc>): World
    requires n >= 2
  {
    World(State(CreatedLink(n, 1), tags, CreatedWords(n)[0 := INTERIOR_WORD][1 := word1], pcs, {0, 1}),
          Some(Upto(n)[2..]))
  }

  /** Block 0 is held and block 1 heads the list under the interior name. */
  function OneHeld(n: nat, tags: nat, pcs: map<nat, Pc>): World
    requires n >= 2
  {
    World(State(INTERIOR_WORD, tags, CreatedWords(n)[0 := INTERIOR_WORD][1 := CreatedLink(n, 1)], pcs, {0}),
          Some(Upto(n)[1..]))
  }

  /** A flush of two blocks followed by a pop of the first. */
  function FlushAndPop(): seq<Action> {
    PushCall(1, [0, 1]) + PopCall(1)
  }

  function Flushed(n: nat, tags: nat, pcs: map<nat, Pc>): World
    requires n >= 2
  {
    World(State(To(Name(tags % TAG_MODULUS, 0)), tags + 1,
                CreatedWords(n)[0 := INTERIOR_WORD][1 := CreatedLink(n, 1)], pcs, {}),
          Some(Upto(n)))
  }

  lemma FlushRuns(n: nat, tags: nat, word1: Link, pcs: map<nat, Pc>)
    requires n >= 2 && 1 in pcs && pcs[1] == Idle
    ensures Run(BothHeld(n, tags, word1, pcs), PushCall(1, [0, 1])) == Flushed(n, tags, pcs)
  {
    PushCallRuns(BothHeld(n, tags, word1, pcs), 1, [0, 1]);
    FlushedParts(n, word1);
    assert pcs[1 := Idle] == pcs;
  }

  lemma FlushedParts(n: nat, word1: Link)
    requires n >= 2
    ensures CreatedWords(n)[0 := INTERIOR_WORD][1 := word1][1 := CreatedLink(n, 1)] ==
            CreatedWords(n)[0 := INTERIOR_WORD][1 := CreatedLink(n, 1)]
    ensures {0, 1} - (set b | b in [0, 1]) == {} && [0, 1] + Upto(n)[2..] == Upto(n)
  {
  }

  lemma FlushAndPopRuns(n: nat, tags: nat, word1: Link, pcs: map<nat, Pc>)
    requires n >= 2 && 1 in pcs && pcs[1] == Idle
    ensures Run(BothHeld(n, tags, word1, pcs), FlushAndPop()) == OneHeld(n, tags + 1, pcs)
  {
    RunAppend(BothHeld(n, tags, word1, pcs), PushCall(1, [0, 1]), PopCall(1));
    FlushRuns(n, tags, word1, pcs);
    FlushedPops(n, tags, pcs);
  }

  lemma FlushedPops(n: nat, tags: nat, pcs: map<nat, Pc>)
    requires n >= 2 && 1 in pcs && pcs[1] == Idle
    ensures Run(Flushed(n, tags, pcs), PopCall(1)) == OneHeld(n, tags + 1, pcs)
  {
    PopCallRuns(Flushed(n, tags, pcs), 1);
    assert pcs[1 := Idle] == pcs;
  }

  /** Thread 1 takes two blocks and links them. */
  function TakeTwo(): seq<Action> {
    PopCall(1) + (PopCall(1) + [UserWrite(0, INTERIOR_WORD)])
  }

  lemma TakeTwoRuns(n: nat)
    requires n >= 2
    ensures Run(Created(n), TakeTwo()) == BothHeld(n, n - 1, CreatedLink(n, 1), map[1 := Idle])
  {
    var w := Created(n);
    RunAppend(w, PopCall(1), PopCall(1) + [UserWrite(0, INTERIOR_WORD)]);
    PopCallRuns(w, 1);
    var w1 := Run(w, PopCall(1));
    RunAppend(w1, PopCall(1), [UserWrite(0, INTERIOR_WORD)]);
    PopCallRuns(w1, 1);
    RunOne(Run(w1, PopCall(1)), UserWrite(0, INTERIOR_WORD));
    assert Upto(n)[1..][1..] == Upto(n)[2..];
    assert Step(Run(w1, PopCall(1)), UserWrite(0, INTERIOR_WORD)).s.mem
        == CreatedWords(n)[0 := INTERIOR_WORD][1 := CreatedLink(n, 1)];
  }

  /** Thread 0 loads the interior name; thread 1 takes that block, its user clears it, thread 0 reads it. */
  function StaleRead(): seq<Action> {
    [LoadHead(0)] + (PopCall(1) + ([UserWrite(1, ZERO_WORD)] + [ReadLink(0)]))
  }

  const STALE: map<nat, Pc> := map[0 := PopRead(Name(LOCAL_TAG, 1), ZERO_WORD), 1 := Idle]

  lemma StaleReadRuns(n: nat)
    requires n >= 2
    ensures Run(OneHeld(n, n, map[1 := Idle]), StaleRead()) == BothHeld(n, n, ZERO_WORD, STALE)
  {
    var w := OneHeld(n, n, map[1 := Idle]);
    var clear, read := [UserWrite(1, ZERO_WORD)], [ReadLink(0)];
    RunAppend(w, [LoadHead(0)], PopCall(1) + (clear + read));
    RunOne(w, LoadHead(0));
    var w1 := Step(w, LoadHead(0));
    RunAppend(w1, PopCall(1), clear + read);
    PopCallRuns(w1, 1);
    var w2 := Run(w1, PopCall(1));
    RunAppend(w2, clear, read);
    RunOne(w2, clear[0]);
    var w3 := Step(w2, clear[0]);
    RunOne(w3, read[0]);
    assert w3.s.mem == CreatedWords(n)[0 := INTERIOR_WORD][1 := ZERO_WORD];
    assert w3.s.live == {0, 1};
    assert Step(w3, read[0]).s.pcs == STALE;
    assert Upto(n)[1..][1..] == Upto(n)[2..];
  }

  function LastPops(): seq<Action> {
    [CasPop(0)] + PopCall(1)
  }

  lemma LastPopsBreak(n: nat)
    requires n >= 2
    ensures Run(OneHeld(n, n + 1, STALE), LastPops()).stack.None?
    ensures Run(OneHeld(n, n + 1, STALE), LastPops()).s.tags == n + 1
  {
    var w := OneHeld(n, n + 1, STALE);
    RunAppend(w, [CasPop(0)], PopCall(1));
    RunOne(w, CasPop(0));
    PopCallRuns(Step(w, CasPop(0)), 1);
  }

  function InteriorReuse(): seq<Action> {
    TakeTwo() + (FlushAndPop() + (StaleRead() + (FlushAndPop() + LastPops())))
  }

  lemma InteriorReuseChains()
    ensures ChainsAtMost(InteriorReuse(), 2)
  {
    assert ChainsAtMost(FlushAndPop(), 2) && ChainsAtMost(LastPops(), 2) && ChainsAtMost(FlushAndPop() + LastPops(), 2);
    assert ChainsAtMost(StaleRead(), 2) && ChainsAtMost(StaleRead() + (FlushAndPop() + LastPops()), 2);
    assert ChainsAtMost(TakeTwo(), 2);
  }

  /** Interior links of flushed chains repeat the same names, so with chains of two blocks the
      stale CAS succeeds as well. */
  lemma ReusedInteriorNameBreaks(n: nat)
    requires n >= 2
    ensures !AlwaysLinearizable(n, 2, n + 1)
  {
    var pcs := map[1 := Idle];
    var tail2 := FlushAndPop() + LastPops();
    var tail1 := StaleRead() + tail2;
    TakeTwoRuns(n);
    RunAppend(Created(n), TakeTwo(), FlushAndPop() + tail1);
    FlushAndPopRuns(n, n - 1, CreatedLink(n, 1), pcs);
    RunAppend(BothHeld(n, n - 1, CreatedLink(n, 1), pcs), FlushAndPop(), tail1);
    StaleReadRuns(n);
    RunAppend(OneHeld(n, n, pcs), StaleRead(), tail2);
    FlushAndPopRuns(n, n, ZERO_WORD, STALE);
    RunAppend(BothHeld(n, n, ZERO_WORD, STALE), FlushAndPop(), LastPops());
    LastPopsBreak(n);
    InteriorReuseChains();
    assert Run(Created(n), InteriorReuse()).stack.None?;
  }

  lemma MoreRunsLessSafe(n: nat, c: nat, c': nat, g: nat, g': nat)
    requires n > 0 && c <= c' && g <= g' && AlwaysLinearizable(n, c', g')
    ensures AlwaysLinearizable(n, c, g)
  {
    forall acts: seq<Action> | ChainsAtMost(acts, c) && Run(Created(n), acts).s.tags <= g
      ensures Run(Created(n), acts).stack.Some?
    {
      assert ChainsAtMost(acts, c');
    }
  }
}
