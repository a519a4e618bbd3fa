/** What a caller of the global span cache sees: every call ends with one answer of its kind, the answers
    are those of a stack of sublists, and alone a call succeeds whenever it can. */
module SpanCalls {
  import opened Lists
  import opened CallHistories
  import opened SpanCache

  datatype Call = Insert(list: seq<nat>) | Extract

  datatype Outcome = Silent | Inserted(list: seq<nat>) | Dropped(list: seq<nat>) | Extracted(list: seq<nat>) | FoundNone

  /** The call that a thread is in, if any. */
  function Open(pc: Pc): seq<Call> {
    match pc
    case Idle => []
    case Inserting(list) => [Insert(list)]
    case InsertSeen(list, _) => [Insert(list)]
    case InsertWritten(list, _) => [Insert(list)]
    case _ => [Extract]
  }

  /** What a step tells its caller, read off the worlds before and after: the call is over, and the cache
      has or has not changed. */
  ghost function OutcomeOf(w: World, a: Action): Outcome {
    var pc, w' := PcOf(w.s, a.t), Step(w, a);
    if pc.Idle? || !PcOf(w'.s, a.t).Idle? then Silent
    else if Open(pc) == [Extract] then
      if w'.stack == w.stack || w.stack == [] then FoundNone else Extracted(w.stack[0])
    else if w'.stack == w.stack then Dropped(ListOf(pc))
    else Inserted(ListOf(pc))
  }

  function Begun(w: World, a: Action, t: nat): seq<Call> {
    if a.t != t || !PcOf(w.s, t).Idle? then []
    else if a.BeginInsert? then [Insert(a.list)]
    else if a.BeginExtract? then [Extract]
    else []
  }

  ghost function Given(w: World, a: Action, t: nat): seq<Outcome> {
    if a.t == t && OutcomeOf(w, a) != Silent then [OutcomeOf(w, a)] else []
  }

  /** An insertion puts its own list in the cache or unmaps it; an extraction gets a sublist or the word
      that there is none. */
  predicate Answers(c: Call, o: Outcome) {
    match c
    case Insert(list) => o == Inserted(list) || o == Dropped(list)
    case Extract => o.Extracted? || o.FoundNone?
  }

  ghost function Calls(w: World, steps: seq<Action>, t: nat): seq<Call>
    decreases |steps|
  {
    if steps == [] then [] else Begun(w, steps[0], t) + Calls(Step(w, steps[0]), steps[1..], t)
  }

  ghost function Replies(w: World, steps: seq<Action>, t: nat): seq<Outcome>
    decreases |steps|
  {
    if steps == [] then [] else Given(w, steps[0], t) + Replies(Step(w, steps[0]), steps[1..], t)
  }

  lemma OthersStay(w: World, a: Action, t: nat)
    requires a.t != t
    ensures PcOf(Step(w, a).s, t) == PcOf(w.s, t)
  {
  }

  lemma InsertStepAnswers(w: World, a: Action)
    requires Allowed(w, a) && (a.BeginInsert? || a.LoadForInsert? || a.WriteHeader? || a.CasInsert?)
    ensures Answered(Open(PcOf(w.s, a.t)) + Begun(w, a, a.t), Given(w, a, a.t), Open(PcOf(Step(w, a).s, a.t)), Answers)
  {
  }

  lemma ExtractStepAnswers(w: World, a: Action)
    requires a.BeginExtract? || a.LoadForExtract? || a.CasExtract? || a.ReadHeader? || a.StoreHead?
    ensures Answered(Open(PcOf(w.s, a.t)) + Begun(w, a, a.t), Given(w, a, a.t), Open(PcOf(Step(w, a).s, a.t)), Answers)
  {
  }

  /** A step goes on with the open call, or answers it; no call ends unanswered. */
  lemma StepAnswers(w: World, a: Action, t: nat)
    requires Allowed(w, a)
    ensures Answered(Open(PcOf(w.s, t)) + Begun(w, a, t), Given(w, a, t), Open(PcOf(Step(w, a).s, t)), Answers)
  {
    if a.t != t {
      OthersStay(w, a, t);
    } else if a.BeginInsert? || a.LoadForInsert? || a.WriteHeader? || a.CasInsert? {
      InsertStepAnswers(w, a);
    } else if !a.MapSpan? && !a.SetHeader? {
      ExtractStepAnswers(w, a);
    }
  }

  /** In every interleaving the calls of each thread are answered in their order, each once and by an
      answer of its kind. */
  lemma {:induction false} EveryCallAnswered(w: World, steps: seq<Action>, w': World, t: nat)
    requires Run(w, steps, w')
    ensures Answered(Open(PcOf(w.s, t)) + Calls(w, steps, t), Replies(w, steps, t), Open(PcOf(w'.s, t)), Answers)
    decreases |steps|
  {
    if steps != [] {
      var w1 := Step(w, steps[0]);
      StepAnswers(w, steps[0], t);
      EveryCallAnswered(w1, steps[1..], w', t);
      AnsweredFrom(Open(PcOf(w.s, t)), Begun(w, steps[0], t), Given(w, steps[0], t), Open(PcOf(w1.s, t)),
                   Calls(w1, steps[1..], t), Replies(w1, steps[1..], t), Open(PcOf(w'.s, t)), Answers);
    } else {
      assert Open(PcOf(w.s, t)) + Calls(w, steps, t) == Open(PcOf(w.s, t));
    }
  }

  // ----- what the answers say

  /** The cache as its callers know it: a stack of sublists. */
  ghost predicate Replays(stack: seq<seq<nat>>, o: Outcome, stack': seq<seq<nat>>) {
    match o
    case Silent => stack' == stack
    case Inserted(list) => stack' == [list] + stack
    case Dropped(_) => stack' == stack
    case Extracted(list) => stack == [list] + stack'
    case FoundNone => stack' == stack == []
  }

  lemma InsertIsTrue(w: World, a: Action)
    requires Inv(w) && (a.LoadForInsert? || a.CasInsert?)
    ensures Replays(w.stack, OutcomeOf(w, a), Step(w, a).stack)
    ensures OutcomeOf(w, a).Inserted? ==>
              forall b :: b in OutcomeOf(w, a).list ==> b in Step(w, a).owner && Step(w, a).owner[b] == Cached
    ensures OutcomeOf(w, a).Dropped? ==>
              && a.LoadForInsert? && (a.full || CountOf(w.s.head) + |OutcomeOf(w, a).list| > LIMIT)
              && forall b :: b in OutcomeOf(w, a).list ==> b in Step(w, a).owner && Step(w, a).owner[b] == Unmapped
  {
    var pc := PcOf(w.s, a.t);
    assert PcOk(w, a.t);
    assert forall b :: b in ListOf(pc) ==> Owns(w, a.t, b);
    assert |[ListOf(pc)] + w.stack| != |w.stack|;
  }

  lemma ExtractIsTrue(w: World, a: Action)
    requires Inv(w) && (a.LoadForExtract? || a.StoreHead?)
    ensures Replays(w.stack, OutcomeOf(w, a), Step(w, a).stack)
    ensures OutcomeOf(w, a).Extracted? ==> forall b :: b in OutcomeOf(w, a).list ==> Owns(Step(w, a), a.t, b)
    ensures OutcomeOf(w, a).FoundNone? ==> w.s.head == Empty
  {
    var pc := PcOf(w.s, a.t);
    assert PcOk(w, a.t);
    ChainedInside(w.s.headers, w.stack);
    if a.StoreHead? && pc.HoldingRead? {
      assert w.stack == [w.stack[0]] + w.stack[1..];
      assert |w.stack[1..]| != |w.stack|;
      forall b | b in w.stack[0]
        ensures Owns(Step(w, a), a.t, b)
      {
        assert b in Flat(w.stack);
      }
    } else if a.LoadForExtract? && pc.Extracting? && w.s.head.Empty? {
      assert w.holder.None?;
      HeadParts(w.s.headers, w.stack);
    }
  }

  /** Every step answers as a stack of sublists would: an inserted list goes on top and belongs to the
      cache; a list is dropped only when the cache is full, and is then unmapped; an extractor gets the
      top sublist, which is its own, or finds the cache empty. */
  lemma AnswersAreTrue(w: World, a: Action)
    requires Inv(w) && Allowed(w, a)
    ensures Replays(w.stack, OutcomeOf(w, a), Step(w, a).stack)
    ensures OutcomeOf(w, a).Dropped? ==>
              a.LoadForInsert? && (a.full || CountOf(w.s.head) + |OutcomeOf(w, a).list| > LIMIT)
    ensures OutcomeOf(w, a).Extracted? ==> forall b :: b in OutcomeOf(w, a).list ==> Owns(Step(w, a), a.t, b)
    ensures OutcomeOf(w, a).FoundNone? ==> w.s.head == Empty
  {
    if a.LoadForInsert? || a.CasInsert? {
      InsertIsTrue(w, a);
    } else if a.LoadForExtract? || a.StoreHead? {
      ExtractIsTrue(w, a);
    }
  }

  // ----- a call that is not interrupted

  /** Alone, on an unlocked cache with room for it, a list is inserted: it is the first sublist, and
      nothing else has changed. */
  lemma InsertAlone(w: World, t: nat, list: seq<nat>)
    requires Inv(w) && Allowed(w, BeginInsert(t, list)) && !w.s.head.Token? && CountOf(w.s.head) + |list| <= LIMIT
    ensures var w' := Step(Step(Step(Step(w, BeginInsert(t, list)), LoadForInsert(t, false)), WriteHeader(t)),
                           CasInsert(t));
            && w'.stack == [list] + w.stack && PcOf(w'.s, t).Idle? && w'.holder == w.holder
            && w'.s.head == First(list[0], CountOf(w.s.head) + |list|)
            && w'.owner == SpanCache.Given(w.owner, list, Cached)
  {
    assert list[0] in list;
    var w1 := Step(w, BeginInsert(t, list));
    var w2 := Step(w1, LoadForInsert(t, false));
    assert PcOf(w2.s, t) == InsertSeen(list, w.s.head);
    var w3 := Step(w2, WriteHeader(t));
    assert PcOf(w3.s, t) == InsertWritten(list, w.s.head) && w3.s.head == w.s.head;
  }

  /** Alone, on a cache that is neither locked nor empty, an extraction takes exactly the first sublist:
      its spans are the thread's, and nothing else has changed. */
  lemma ExtractAlone(w: World, t: nat)
    requires Inv(w) && PcOf(w.s, t).Idle? && w.s.head.First?
    ensures w.stack != []
    ensures var w' := Step(Step(Step(Step(Step(w, BeginExtract(t)), LoadForExtract(t)), CasExtract(t)),
                                ReadHeader(t)), StoreHead(t));
            && w'.stack == w.stack[1..] && PcOf(w'.s, t).Idle? && w'.holder == None
            && w'.s.head == HeadOf(w.stack[1..]) && w'.owner == SpanCache.Given(w.owner, w.stack[0], Thread(t))
  {
    TokenAlone(w, t);
    var w3 := Step(Step(Step(w, BeginExtract(t)), LoadForExtract(t)), CasExtract(t));
    HolderAlone(w3, t);
  }

  /** The first three steps take the token. */
  lemma TokenAlone(w: World, t: nat)
    requires Inv(w) && PcOf(w.s, t).Idle? && w.s.head.First?
    ensures var w3 := Step(Step(Step(w, BeginExtract(t)), LoadForExtract(t)), CasExtract(t));
            Inv(w3) && PcOf(w3.s, t).Holding? && w3.stack == w.stack && w3.owner == w.owner
  {
    var w1 := Step(w, BeginExtract(t));
    var w2 := Step(w1, LoadForExtract(t));
    StepKeeps(w, BeginExtract(t));
    StepKeeps(w1, LoadForExtract(t));
    assert PcOf(w2.s, t) == ExtractSeen(w.s.head);
    StepKeeps(w2, CasExtract(t));
  }

  /** The other two give it back, with the rest of the cache. */
  lemma HolderAlone(w: World, t: nat)
    requires Inv(w) && PcOf(w.s, t).Holding?
    ensures w.stack != []
    ensures var w' := Step(Step(w, ReadHeader(t)), StoreHead(t));
            && w'.stack == w.stack[1..] && PcOf(w'.s, t).Idle? && w'.holder == None
            && w'.s.head == HeadOf(w.stack[1..]) && w'.owner == SpanCache.Given(w.owner, w.stack[0], Thread(t))
  {
    assert PcOk(w, t);
    FirstHasHeader(w);
    StepKeeps(w, ReadHeader(t));
    assert PcOk(Step(w, ReadHeader(t)), t);
  }

  lemma FirstHasHeader(w: World)
    requires Inv(w) && w.stack != []
    ensures w.stack[0] != [] && w.stack[0][0] in w.s.headers
  {
    assert w.stack[0][0] in w.stack[0];
  }

  /** A swap that fails is tried again on the head as it is then. */
  lemma FailedSwapRetries(w: World, a: Action)
    requires a.CasInsert? || a.CasExtract?
    ensures PcOf(w.s, a.t).InsertWritten? && PcOf(w.s, a.t).list != [] && w.s.head != PcOf(w.s, a.t).seen
            && a.CasInsert? ==>
              PcOf(Step(w, a).s, a.t) == Inserting(PcOf(w.s, a.t).list)
    ensures PcOf(w.s, a.t).ExtractSeen? && w.s.head != PcOf(w.s, a.t).seen && a.CasExtract? ==>
              PcOf(Step(w, a).s, a.t) == Extracting
  {
  }
}
