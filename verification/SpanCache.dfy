/** rpmalloc's global span cache of one span class, as a machine of atomic steps taken by any number
    of threads in any order. The cache is a chain of sublists of spans; its head word packs the first
    span with the number of spans in all sublists, or is a token while an extractor holds it. */
module SpanCache {
  import opened Lists

  /** The count has sixteen bits. */
  const LIMIT: nat := 0xFFFF

  datatype Head = Empty | Token | First(span: nat, count: nat)

  /** A span's header: the size of the list it begins, the skip pointer over that list, and the next
      span of the list. */
  datatype Header = Header(size: nat, skip: Option<nat>, next: Option<nat>)

  datatype Pc =
    | Idle
    | Inserting(list: seq<nat>)
    | InsertSeen(list: seq<nat>, seen: Head)
    | InsertWritten(list: seq<nat>, seen: Head)
    | Extracting
    | ExtractSeen(seen: Head)
    | Holding(seen: Head)
    | HoldingRead(seen: Head, rest: Head)

  datatype State = State(head: Head, headers: map<nat, Header>, pcs: map<nat, Pc>)

  /** Who may write a span's header. */
  datatype Owner = Thread(t: nat) | Cached | Unmapped

  /** A state with what the proof watches: the sublists in the cache, the holder of the token, and the
      owner of every span. */
  datatype World = World(s: State, stack: seq<seq<nat>>, holder: Option<nat>, owner: map<nat, Owner>)

  datatype Action =
    | MapSpan(t: nat, span: nat)
    | SetHeader(t: nat, span: nat, header: Header)
    | BeginInsert(t: nat, list: seq<nat>)
    | LoadForInsert(t: nat, full: bool)
    | WriteHeader(t: nat)
    | CasInsert(t: nat)
    | BeginExtract(t: nat)
    | LoadForExtract(t: nat)
    | CasExtract(t: nat)
    | ReadHeader(t: nat)
    | StoreHead(t: nat)

  // ----- lists of spans

  /** The spans of a list are linked by their headers. */
  predicate Linked(h: map<nat, Header>, list: seq<nat>) {
    && list != [] && (forall b :: b in list ==> b in h)
    && forall i :: 0 <= i < |list| - 1 ==> h[list[i]].next == Some(list[i + 1])
  }

  function Flat(stack: seq<seq<nat>>): seq<nat> {
    if stack == [] then [] else stack[0] + Flat(stack[1..])
  }

  function FirstOf(stack: seq<seq<nat>>): Option<nat> {
    if stack == [] || stack[0] == [] then None else Some(stack[0][0])
  }

  /** The head word of an unlocked cache. */
  function HeadOf(stack: seq<seq<nat>>): Head {
    if stack == [] || stack[0] == [] then Empty else First(stack[0][0], |Flat(stack)|)
  }

  function SpanOf(h: Head): Option<nat> {
    if h.First? then Some(h.span) else None
  }

  function CountOf(h: Head): nat {
    if h.First? then h.count else 0
  }

  /** Each sublist is linked, and its first header has its size and the way to the next sublist. */
  predicate Chained(h: map<nat, Header>, stack: seq<seq<nat>>) {
    stack == [] || (HeaderFits(h, stack[0], FirstOf(stack[1..])) && Chained(h, stack[1..]))
  }

  predicate HeaderFits(h: map<nat, Header>, list: seq<nat>, skip: Option<nat>) {
    Linked(h, list) && h[list[0]].size == |list| && h[list[0]].skip == skip
  }

  // ----- the machine

  function PcOf(s: State, t: nat): Pc {
    if t in s.pcs then s.pcs[t] else Idle
  }

  function Go(s: State, t: nat, pc: Pc): State {
    s.(pcs := s.pcs[t := pc])
  }

  function ListOf(pc: Pc): seq<nat> {
    if pc.Inserting? || pc.InsertSeen? || pc.InsertWritten? then pc.list else []
  }

  ghost predicate Owns(w: World, t: nat, b: nat) {
    b in w.owner && w.owner[b] == Thread(t)
  }

  /** What the program keeps to: a thread writes only spans of its own that it is not inserting, and
      inserts only a list of its own. */
  ghost predicate Allowed(w: World, a: Action) {
    match a
    case MapSpan(t, b) => b !in w.owner || w.owner[b] == Unmapped
    case SetHeader(t, b, _) => Owns(w, t, b) && b !in ListOf(PcOf(w.s, t))
    case BeginInsert(t, list) =>
      && PcOf(w.s, t).Idle? && Linked(w.s.headers, list) && Distinct(list)
      && forall b :: b in list ==> Owns(w, t, b)
    case _ => true
  }

  function Next(s: State, a: Action): State {
    match a
    case MapSpan(_, b) => s.(headers := s.headers[b := Header(0, None, None)])
    case SetHeader(_, b, header) => s.(headers := s.headers[b := header])
    case BeginInsert(t, list) => Go(s, t, Inserting(list))
    case LoadForInsert(t, full) =>
      var pc := PcOf(s, t);
      if !pc.Inserting? || s.head.Token? then s
      else if full || CountOf(s.head) + |pc.list| > LIMIT then Go(s, t, Idle)
      else Go(s, t, InsertSeen(pc.list, s.head))
    case WriteHeader(t) =>
      var pc := PcOf(s, t);
      if !pc.InsertSeen? || pc.list == [] || pc.list[0] !in s.headers then s
      else
        var header := s.headers[pc.list[0]].(size := |pc.list|, skip := SpanOf(pc.seen));
        Go(s, t, InsertWritten(pc.list, pc.seen)).(headers := s.headers[pc.list[0] := header])
    case CasInsert(t) =>
      var pc := PcOf(s, t);
      if !pc.InsertWritten? || pc.list == [] then s
      else if s.head == pc.seen then
        Go(s, t, Idle).(head := First(pc.list[0], CountOf(pc.seen) + |pc.list|))
      else Go(s, t, Inserting(pc.list))
    case BeginExtract(t) =>
      if PcOf(s, t).Idle? then Go(s, t, Extracting) else s
    case LoadForExtract(t) =>
      if !PcOf(s, t).Extracting? || s.head.Token? then s
      else if s.head.Empty? then Go(s, t, Idle)
      else Go(s, t, ExtractSeen(s.head))
    case CasExtract(t) =>
      var pc := PcOf(s, t);
      if !pc.ExtractSeen? then s
      else if s.head == pc.seen then Go(s, t, Holding(pc.seen)).(head := Token)
      else Go(s, t, Extracting)
    case ReadHeader(t) =>
      var pc := PcOf(s, t);
      if !pc.Holding? || !pc.seen.First? || pc.seen.span !in s.headers then s
      else
        var header := s.headers[pc.seen.span];
        var count := if pc.seen.count >= header.size then pc.seen.count - header.size else 0;
        var rest := if count > 0 && header.skip.Some? then First(header.skip.value, count) else Empty;
        Go(s, t, HoldingRead(pc.seen, rest))
    case StoreHead(t) =>
      var pc := PcOf(s, t);
      if !pc.HoldingRead? then s else Go(s, t, Idle).(head := pc.rest)
  }

  function Given(owner: map<nat, Owner>, list: seq<nat>, to: Owner): map<nat, Owner> {
    map b | b in owner :: if b in list then to else owner[b]
  }

  /** The machine with what is watched. */
  ghost function Step(w: World, a: Action): World {
    var s' := Next(w.s, a);
    match a
    case MapSpan(t, b) => w.(s := s', owner := w.owner[b := Thread(t)])
    case LoadForInsert(t, _) =>
      var pc := PcOf(w.s, t);
      if pc.Inserting? && PcOf(s', t).Idle? then
        w.(s := s', owner := Given(w.owner, pc.list, Unmapped))
      else w.(s := s')
    case CasInsert(t) =>
      var pc := PcOf(w.s, t);
      if pc.InsertWritten? && PcOf(s', t).Idle? then
        World(s', [pc.list] + w.stack, w.holder, Given(w.owner, pc.list, Cached))
      else w.(s := s')
    case CasExtract(t) =>
      if PcOf(w.s, t).ExtractSeen? && PcOf(s', t).Holding? then w.(s := s', holder := Some(t)) else w.(s := s')
    case StoreHead(t) =>
      if PcOf(w.s, t).HoldingRead? && w.stack != [] then
        World(s', w.stack[1..], None, Given(w.owner, w.stack[0], Thread(t)))
      else w.(s := s')
    case _ => w.(s := s')
  }

  // ----- what every step keeps

  /** What holds of a thread's place. */
  ghost predicate PcOk(w: World, t: nat) {
    var pc := PcOf(w.s, t);
    && ((pc.Holding? || pc.HoldingRead?) <==> w.holder == Some(t))
    && (ListOf(pc) != [] || pc.Inserting? || pc.InsertSeen? || pc.InsertWritten? ==> PendingOk(w, t, ListOf(pc)))
    && (pc.InsertSeen? || pc.InsertWritten? ==> !pc.seen.Token? && CountOf(pc.seen) + |pc.list| <= LIMIT)
    && (pc.InsertWritten? ==> HeaderFits(w.s.headers, pc.list, SpanOf(pc.seen)))
    && (pc.ExtractSeen? ==> pc.seen.First?)
    && (pc.Holding? ==> pc.seen == HeadOf(w.stack) && w.stack != [])
    && (pc.HoldingRead? ==> pc.seen == HeadOf(w.stack) && w.stack != [] && pc.rest == HeadOf(w.stack[1..]))
  }

  ghost predicate PendingOk(w: World, t: nat, list: seq<nat>) {
    Linked(w.s.headers, list) && Distinct(list) && forall b :: b in list ==> Owns(w, t, b)
  }

  /** The cache is a chain of disjoint sublists, and its head, when no extractor holds the token, is
      the first span of the first sublist with the number of all spans. */
  ghost predicate CacheOk(w: World) {
    && Chained(w.s.headers, w.stack) && Distinct(Flat(w.stack)) && |Flat(w.stack)| <= LIMIT
    && (forall b :: b in Flat(w.stack) <==> b in w.owner && w.owner[b] == Cached)
    && (if w.holder.Some? then w.s.head == Token else w.s.head == HeadOf(w.stack))
  }

  ghost predicate OwnersOk(w: World) {
    forall b :: b in w.owner ==> b in w.s.headers
  }

  ghost predicate Inv(w: World) {
    CacheOk(w) && OwnersOk(w) && forall t: nat :: PcOk(w, t)
  }

  // ----- frames

  lemma LinkedFrame(h: map<nat, Header>, h': map<nat, Header>, list: seq<nat>)
    requires Linked(h, list) && forall b :: b in list ==> b in h' && h'[b] == h[b]
    ensures Linked(h', list)
  {
    forall i | 0 <= i < |list| - 1
      ensures h'[list[i]].next == Some(list[i + 1])
    {
      assert list[i] in list;
    }
  }

  lemma {:induction false} ChainedFrame(h: map<nat, Header>, h': map<nat, Header>, stack: seq<seq<nat>>)
    requires Chained(h, stack) && forall b :: b in Flat(stack) ==> b in h && b in h' && h'[b] == h[b]
    ensures Chained(h', stack)
    decreases |stack|
  {
    if stack != [] {
      LinkedFrame(h, h', stack[0]);
      assert stack[0][0] in stack[0];
      ChainedFrame(h, h', stack[1..]);
    }
  }

  lemma {:induction false} ChainedInside(h: map<nat, Header>, stack: seq<seq<nat>>)
    requires Chained(h, stack)
    ensures forall b :: b in Flat(stack) ==> b in h
    ensures |Flat(stack)| == 0 <==> stack == []
    decreases |stack|
  {
    if stack != [] {
      ChainedInside(h, stack[1..]);
    }
  }

  lemma HeadParts(h: map<nat, Header>, stack: seq<seq<nat>>)
    requires Chained(h, stack)
    ensures SpanOf(HeadOf(stack)) == FirstOf(stack) && CountOf(HeadOf(stack)) == |Flat(stack)|
  {
    ChainedInside(h, stack);
  }

  /** A thread whose place, lists and hold on the token are untouched is as before. */
  lemma OtherKeeps(w: World, w': World, u: nat)
    requires PcOk(w, u) && PcOf(w'.s, u) == PcOf(w.s, u)
    requires w'.holder == Some(u) <==> w.holder == Some(u)
    requires w.holder == Some(u) ==> w'.stack == w.stack
    requires forall b :: b in ListOf(PcOf(w.s, u)) ==>
               && (Owns(w, u, b) ==> Owns(w', u, b))
               && (b in w.s.headers ==> b in w'.s.headers && w'.s.headers[b] == w.s.headers[b])
    ensures PcOk(w', u)
  {
    var pc := PcOf(w.s, u);
    if pc.Inserting? || pc.InsertSeen? || pc.InsertWritten? {
      assert PendingOk(w, u, pc.list);
      LinkedFrame(w.s.headers, w'.s.headers, pc.list);
      assert pc.list[0] in pc.list;
    }
  }

  /** The step of thread `t` leaves every other thread as it is, when it changes only headers and
      owners of spans that `t` owns, that are cached or that are new, and the token's holder is not
      another. */
  ghost predicate Mine(w: World, w': World, t: nat) {
    && (forall u :: u != t ==> PcOf(w'.s, u) == PcOf(w.s, u))
    && (forall u :: u != t ==> (w'.holder == Some(u) <==> w.holder == Some(u)))
    && (forall u :: u != t && w.holder == Some(u) ==> w'.stack == w.stack)
    && (forall b :: b in w.owner && w.owner[b].Thread? && w.owner[b].t != t && b in w.s.headers ==>
          && b in w'.s.headers && w'.s.headers[b] == w.s.headers[b]
          && b in w'.owner && w'.owner[b] == w.owner[b])
  }

  lemma OthersKeep(w: World, w': World, t: nat)
    requires Inv(w) && Mine(w, w', t) && PcOk(w', t)
    ensures forall u: nat :: PcOk(w', u)
  {
    forall u: nat
      ensures PcOk(w', u)
    {
      if u != t {
        assert PcOk(w, u);
        forall b | b in ListOf(PcOf(w.s, u))
          ensures Owns(w, u, b) ==> Owns(w', u, b)
          ensures b in w.s.headers ==> b in w'.s.headers && w'.s.headers[b] == w.s.headers[b]
        {
          assert PendingOk(w, u, ListOf(PcOf(w.s, u)));
          assert Owns(w, u, b);
        }
        OtherKeeps(w, w', u);
      }
    }
  }

  /** A step that leaves the cache alone. */
  lemma CacheFrame(w: World, w': World)
    requires CacheOk(w) && w'.s.head == w.s.head && w'.stack == w.stack && w'.holder == w.holder
    requires forall b :: b in w.owner && w.owner[b] == Cached ==>
               && b in w'.owner && w'.owner[b] == Cached
               && (b in w.s.headers ==> b in w'.s.headers && w'.s.headers[b] == w.s.headers[b])
    requires forall b :: b in w'.owner && w'.owner[b] == Cached ==> b in w.owner && w.owner[b] == Cached
    ensures CacheOk(w')
  {
    ChainedInside(w.s.headers, w.stack);
    ChainedFrame(w.s.headers, w'.s.headers, w.stack);
  }

  // ----- the steps

  lemma MapSpanKeeps(w: World, t: nat, b: nat)
    requires Inv(w) && Allowed(w, MapSpan(t, b))
    ensures Inv(Step(w, MapSpan(t, b)))
  {
    var w' := Step(w, MapSpan(t, b));
    CacheFrame(w, w');
    assert PcOk(w, t);
    OtherKeeps(w, w', t);
    OthersKeep(w, w', t);
  }

  lemma SetHeaderKeeps(w: World, t: nat, b: nat, h: Header)
    requires Inv(w) && Allowed(w, SetHeader(t, b, h))
    ensures Inv(Step(w, SetHeader(t, b, h)))
  {
    var w' := Step(w, SetHeader(t, b, h));
    CacheFrame(w, w');
    assert PcOk(w, t);
    OtherKeeps(w, w', t);
    OthersKeep(w, w', t);
  }

  lemma PlaceStepsKeep(w: World, a: Action)
    requires Inv(w) && Allowed(w, a) && (a.BeginInsert? || a.BeginExtract? || a.LoadForExtract?)
    ensures Inv(Step(w, a))
  {
    var w' := Step(w, a);
    CacheFrame(w, w');
    assert PcOk(w, a.t);
    OthersKeep(w, w', a.t);
  }

  lemma LoadForInsertKeeps(w: World, t: nat, full: bool)
    requires Inv(w)
    ensures Inv(Step(w, LoadForInsert(t, full)))
  {
    var w', pc := Step(w, LoadForInsert(t, full)), PcOf(w.s, t);
    if pc.Inserting? && PcOf(w'.s, t).Idle? {
      UnmapKeeps(w, w', t);
    } else {
      assert PcOk(w, t);
      CacheFrame(w, w');
      OthersKeep(w, w', t);
    }
  }

  /** The spans of a list for which the cache has no room are unmapped. */
  lemma UnmapKeeps(w: World, w': World, t: nat)
    requires Inv(w) && PcOf(w.s, t).Inserting?
    requires w' == w.(s := Go(w.s, t, Idle), owner := Given(w.owner, PcOf(w.s, t).list, Unmapped))
    ensures Inv(w')
  {
    assert PcOk(w, t);
    CacheFrame(w, w');
    OthersKeep(w, w', t);
  }

  lemma WriteHeaderKeeps(w: World, t: nat)
    requires Inv(w)
    ensures Inv(Step(w, WriteHeader(t)))
  {
    var w', pc := Step(w, WriteHeader(t)), PcOf(w.s, t);
    assert PcOk(w, t);
    if pc.InsertSeen? {
      var list := pc.list;
      assert PendingOk(w, t, list) && list[0] in list && Owns(w, t, list[0]);
      var h, h' := w.s.headers, w'.s.headers;
      forall i | 0 <= i < |list| - 1
        ensures h'[list[i]].next == Some(list[i + 1])
      {
        assert h[list[i]].next == Some(list[i + 1]);
      }
      assert Linked(h', list);
    }
    CacheFrame(w, w');
    OthersKeep(w, w', t);
  }

  lemma FlatPush(list: seq<nat>, stack: seq<seq<nat>>)
    ensures Flat([list] + stack) == list + Flat(stack)
  {
    assert ([list] + stack)[1..] == stack;
  }

  lemma DistinctAppend(a: seq<nat>, b: seq<nat>)
    requires Distinct(a) && Distinct(b) && forall x :: x in a ==> x !in b
    ensures Distinct(a + b)
  {
    var c := a + b;
    forall i, j | 0 <= i < j < |c|
      ensures c[i] != c[j]
    {
      assert c[i] == (if i < |a| then a[i] else b[i - |a|]) && c[j] == (if j < |a| then a[j] else b[j - |a|]);
      assert i < |a| ==> a[i] in a;
      assert j >= |a| ==> b[j - |a|] in b;
    }
  }

  lemma DistinctParts(a: seq<nat>, b: seq<nat>)
    requires Distinct(a + b)
    ensures Distinct(b) && forall x :: x in a ==> x !in b
  {
    var c := a + b;
    forall i, j | 0 <= i < j < |b|
      ensures b[i] != b[j]
    {
      assert c[|a| + i] == b[i] && c[|a| + j] == b[j];
    }
    forall i, j | 0 <= i < |a| && 0 <= j < |b|
      ensures a[i] != b[j]
    {
      assert c[i] == a[i] && c[|a| + j] == b[j];
    }
  }

  /** A sublist goes on top of an unlocked cache. */
  lemma PushKeeps(w: World, t: nat, list: seq<nat>, s': State)
    requires CacheOk(w) && w.holder == None && PendingOk(w, t, list) && s'.headers == w.s.headers
    requires HeaderFits(w.s.headers, list, FirstOf(w.stack)) && |list| + |Flat(w.stack)| <= LIMIT
    requires s'.head == First(list[0], |Flat(w.stack)| + |list|)
    ensures CacheOk(World(s', [list] + w.stack, None, Given(w.owner, list, Cached)))
  {
    var stack', owner' := [list] + w.stack, Given(w.owner, list, Cached);
    FlatPush(list, w.stack);
    assert stack'[1..] == w.stack;
    forall b | b in list
      ensures b !in Flat(w.stack)
    {
      assert Owns(w, t, b);
    }
    DistinctAppend(list, Flat(w.stack));
    forall b
      ensures b in Flat(stack') <==> b in owner' && owner'[b] == Cached
    {
      assert b in list ==> Owns(w, t, b);
    }
  }

  lemma CasInsertKeeps(w: World, t: nat)
    requires Inv(w)
    ensures Inv(Step(w, CasInsert(t)))
  {
    var w', pc := Step(w, CasInsert(t)), PcOf(w.s, t);
    assert PcOk(w, t);
    if pc.InsertWritten? && w.s.head == pc.seen {
      HeadParts(w.s.headers, w.stack);
      PushKeeps(w, t, pc.list, w'.s);
      OthersKeep(w, w', t);
    } else {
      CasInsertFails(w, t);
    }
  }

  lemma CasInsertFails(w: World, t: nat)
    requires Inv(w) && !(PcOf(w.s, t).InsertWritten? && w.s.head == PcOf(w.s, t).seen)
    ensures Inv(Step(w, CasInsert(t)))
  {
    var w' := Step(w, CasInsert(t));
    assert PcOk(w, t);
    CacheFrame(w, w');
    OthersKeep(w, w', t);
  }

  lemma CasExtractKeeps(w: World, t: nat)
    requires Inv(w)
    ensures Inv(Step(w, CasExtract(t)))
  {
    var w', pc := Step(w, CasExtract(t)), PcOf(w.s, t);
    assert PcOk(w, t);
    if !(pc.ExtractSeen? && w.s.head == pc.seen) {
      CacheFrame(w, w');
    }
    OthersKeep(w, w', t);
  }

  /** What the holder reads is the head of the rest. */
  lemma ReadHeaderKeeps(w: World, t: nat)
    requires Inv(w)
    ensures Inv(Step(w, ReadHeader(t)))
  {
    var w', pc := Step(w, ReadHeader(t)), PcOf(w.s, t);
    assert PcOk(w, t);
    if pc.Holding? {
      ChainedInside(w.s.headers, w.stack);
      ChainedInside(w.s.headers, w.stack[1..]);
      HeadParts(w.s.headers, w.stack[1..]);
      assert w.stack[0][0] in w.stack[0];
    }
    CacheFrame(w, w');
    OthersKeep(w, w', t);
  }

  /** The first sublist leaves the cache. */
  lemma PopKeeps(w: World, t: nat, s': State)
    requires CacheOk(w) && w.stack != [] && s'.headers == w.s.headers && s'.head == HeadOf(w.stack[1..])
    ensures CacheOk(World(s', w.stack[1..], None, Given(w.owner, w.stack[0], Thread(t))))
  {
    var list, rest := w.stack[0], Flat(w.stack[1..]);
    var owner' := Given(w.owner, list, Thread(t));
    assert Flat(w.stack) == list + rest;
    DistinctParts(list, rest);
    forall b
      ensures b in rest <==> b in owner' && owner'[b] == Cached
    {
      assert b in Flat(w.stack) <==> b in list || b in rest;
    }
  }

  lemma StoreHeadKeeps(w: World, t: nat)
    requires Inv(w)
    ensures Inv(Step(w, StoreHead(t)))
  {
    var w', pc := Step(w, StoreHead(t)), PcOf(w.s, t);
    assert PcOk(w, t);
    if pc.HoldingRead? {
      PopKeeps(w, t, w'.s);
    } else {
      CacheFrame(w, w');
    }
    OthersKeep(w, w', t);
  }

  lemma StepKeeps(w: World, a: Action)
    requires Inv(w) && Allowed(w, a)
    ensures Inv(Step(w, a))
  {
    match a
    case MapSpan(t, b) => MapSpanKeeps(w, t, b);
    case SetHeader(t, b, h) => SetHeaderKeeps(w, t, b, h);
    case BeginInsert(_, _) => PlaceStepsKeep(w, a);
    case LoadForInsert(t, full) => LoadForInsertKeeps(w, t, full);
    case WriteHeader(t) => WriteHeaderKeeps(w, t);
    case CasInsert(t) => CasInsertKeeps(w, t);
    case BeginExtract(_) => PlaceStepsKeep(w, a);
    case LoadForExtract(_) => PlaceStepsKeep(w, a);
    case CasExtract(t) => CasExtractKeeps(w, t);
    case ReadHeader(t) => ReadHeaderKeeps(w, t);
    case StoreHead(t) => StoreHeadKeeps(w, t);
  }

  // ----- whole runs

  const START: World := World(State(Empty, map[], map[]), [], None, map[])

  ghost predicate Run(w: World, steps: seq<Action>, w': World)
    decreases |steps|
  {
    if steps == [] then w' == w else Allowed(w, steps[0]) && Run(Step(w, steps[0]), steps[1..], w')
  }

  lemma {:induction false} RunKeeps(w: World, steps: seq<Action>, w': World)
    requires Inv(w) && Run(w, steps, w')
    ensures Inv(w')
    decreases |steps|
  {
    if steps != [] {
      StepKeeps(w, steps[0]);
      RunKeeps(Step(w, steps[0]), steps[1..], w');
    }
  }

  /** The spans that an extractor reaches from the first along the list, as many as its header says. */
  function Members(h: map<nat, Header>, first: nat, n: nat): seq<nat>
    decreases n
  {
    if n == 0 || first !in h then []
    else if n == 1 || h[first].next.None? then [first]
    else [first] + Members(h, h[first].next.value, n - 1)
  }

  lemma {:induction false} MembersAre(h: map<nat, Header>, list: seq<nat>)
    requires Linked(h, list)
    ensures Members(h, list[0], |list|) == list
    decreases |list|
  {
    assert list[0] in list;
    if |list| > 1 {
      var rest := list[1..];
      assert h[list[0]].next == Some(list[1]);
      forall i | 0 <= i < |rest| - 1
        ensures h[rest[i]].next == Some(rest[i + 1])
      {
        assert rest[i] == list[i + 1];
      }
      MembersAre(h, rest);
    }
  }

  /** In every interleaving: an unlocked head counts exactly the spans of all sublists; the sublists
      share no span; and the token is out exactly while one thread holds it. */
  lemma CacheIsConsistent(steps: seq<Action>, w: World)
    requires Run(START, steps, w)
    ensures w.s.head.First? ==> w.s.head.count == |Flat(w.stack)| <= LIMIT && FirstOf(w.stack) == Some(w.s.head.span)
    ensures w.s.head.Empty? ==> w.stack == []
    ensures Distinct(Flat(w.stack))
    ensures w.s.head.Token? <==> exists t: nat :: HasToken(w.s, t)
    ensures forall t: nat, u: nat :: HasToken(w.s, t) && HasToken(w.s, u) ==> t == u
  {
    RunKeeps(START, steps, w);
    ChainedInside(w.s.headers, w.stack);
    forall t: nat
      ensures HasToken(w.s, t) <==> w.holder == Some(t)
    {
      assert PcOk(w, t);
    }
    assert w.s.head.Token? <==> w.holder.Some?;
    if w.holder.Some? {
      assert HasToken(w.s, w.holder.value);
    }
  }

  predicate HasToken(s: State, t: nat) {
    PcOf(s, t).Holding? || PcOf(s, t).HoldingRead?
  }

  /** Only its holder takes the token away, and an extractor that stores the new head gets exactly the
      first sublist, whole: the spans it reaches along the list are that sublist, and they are its
      own. */
  lemma ExtractorGetsSublist(steps: seq<Action>, w: World, a: Action)
    requires Run(START, steps, w) && Allowed(w, a) && w.s.head.Token? && Step(w, a).s.head != Token
    ensures a.StoreHead? && w.holder == Some(a.t) && PcOf(w.s, a.t).HoldingRead? && w.stack != []
    ensures PcOf(w.s, a.t).seen.First?
    ensures var first := PcOf(w.s, a.t).seen.span;
            && first in w.s.headers
            && Members(w.s.headers, first, w.s.headers[first].size) == w.stack[0]
            && Step(w, a).stack == w.stack[1..] && forall b :: b in w.stack[0] ==> Owns(Step(w, a), a.t, b)
  {
    RunKeeps(START, steps, w);
    assert PcOk(w, a.t);
    assert a.StoreHead?;
    MembersAre(w.s.headers, w.stack[0]);
    assert w.stack[0][0] in w.stack[0];
    forall b | b in w.stack[0]
      ensures Owns(Step(w, a), a.t, b)
    {
      assert b in Flat(w.stack);
    }
  }
}
