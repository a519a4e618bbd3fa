/** What a caller of the tagged list sees: every call ends with one answer of its kind, and a
    compare-and-swap fails only when another call has ended meanwhile. */
module TaggedListCalls {
  import opened Lists
  import opened TaggedFreeList
  import opened TaggedListSafety
  import opened CallHistories

  datatype Call = Pop | Push(chain: seq<nat>)

  /** The call that a thread is in, if any. */
  function Open(s: State, t: nat): seq<Call> {
    var pc := At(s, t);
    if Popping(pc) then [Pop] else if Pushing(pc) then [Push(pc.chain)] else []
  }

  predicate By(a: Action, t: nat) {
    !a.UserWrite? && a.t == t
  }

  /** The call that a step of thread `t` begins. */
  function Begun(s: State, a: Action, t: nat): seq<Call> {
    if !By(a, t) || !At(s, t).Idle? then []
    else if a.LoadHead? then [Pop]
    else if a.BeginPush? && MayPush(s, a.chain) then [Push(a.chain)]
    else []
  }

  /** The answer that a step of thread `t` gives. */
  function Given(s: State, a: Action, t: nat): seq<Event> {
    if By(a, t) && EventOf(s, a) != Silent then [EventOf(s, a)] else []
  }

  /** A pop is answered by a block or by the word that there is none, a push by its own chain. */
  predicate Answers(c: Call, e: Event) {
    match c
    case Pop => e.Popped? || e.WasEmpty?
    case Push(chain) => e == Pushed(chain)
  }

  /** The calls that thread `t` begins in a run, and the answers it gets. */
  function Calls(s: State, acts: seq<Action>, t: nat): seq<Call>
    decreases |acts|
  {
    if acts == [] then [] else Begun(s, acts[0], t) + Calls(Next(s, acts[0]), acts[1..], t)
  }

  function Replies(s: State, acts: seq<Action>, t: nat): seq<Event>
    decreases |acts|
  {
    if acts == [] then [] else Given(s, acts[0], t) + Replies(Next(s, acts[0]), acts[1..], t)
  }

  function StateAfter(s: State, acts: seq<Action>): State
    decreases |acts|
  {
    if acts == [] then s else StateAfter(Next(s, acts[0]), acts[1..])
  }

  /** A step goes on with the open call, or answers it; no call ends unanswered. */
  lemma StepAnswers(s: State, a: Action, t: nat)
    ensures Answered(Open(s, t) + Begun(s, a, t), Given(s, a, t), Open(Next(s, a), t), Answers)
  {
    if !By(a, t) {
      assert At(Next(s, a), t) == At(s, t);
    } else if a.LoadHead? || a.ReadLink? || a.CasPop? {
      PopStepAnswers(s, a);
    } else {
      PushStepAnswers(s, a);
    }
  }

  lemma PopStepAnswers(s: State, a: Action)
    requires a.LoadHead? || a.ReadLink? || a.CasPop?
    ensures Answered(Open(s, a.t) + Begun(s, a, a.t), Given(s, a, a.t), Open(Next(s, a), a.t), Answers)
  {
  }

  lemma PushStepAnswers(s: State, a: Action)
    requires a.BeginPush? || a.LoadForPush? || a.WriteTail? || a.CasPush?
    ensures Answered(Open(s, a.t) + Begun(s, a, a.t), Given(s, a, a.t), Open(Next(s, a), a.t), Answers)
  {
  }

  /** In every run, whatever the chains and however many tags: the calls of each thread are answered in
      their order, each once and by an answer of its kind. */
  lemma {:induction false} EveryCallAnswered(s: State, acts: seq<Action>, t: nat)
    ensures Answered(Open(s, t) + Calls(s, acts, t), Replies(s, acts, t), Open(StateAfter(s, acts), t), Answers)
    decreases |acts|
  {
    if acts != [] {
      var s' := Next(s, acts[0]);
      StepAnswers(s, acts[0], t);
      EveryCallAnswered(s', acts[1..], t);
      AnsweredFrom(Open(s, t), Begun(s, acts[0], t), Given(s, acts[0], t), Open(s', t), Calls(s', acts[1..], t),
                   Replies(s', acts[1..], t), Open(StateAfter(s', acts[1..]), t), Answers);
    } else {
      assert Open(s, t) + Calls(s, acts, t) == Open(s, t);
    }
  }

  lemma {:induction false} RunIsStateAfter(w: World, acts: seq<Action>)
    ensures Run(w, acts).s == StateAfter(w.s, acts)
    decreases |acts|
  {
    if acts != [] {
      RunIsStateAfter(Step(w, acts[0]), acts[1..]);
    }
  }

  /** Linearizability: the answers of all threads, in the order in which they are given, are those of a
      last-in-first-out stack, and each thread's calls are answered by its own. */
  lemma CallsLinearize(n: nat, acts: seq<Action>, t: nat)
    requires n >= 2 && ChainsAtMost(acts, 1) && Run(Created(n), acts).s.tags <= TAG_MODULUS
    ensures Run(Created(n), acts).stack.Some?
    ensures Answered(Calls(Created(n).s, acts, t), Replies(Created(n).s, acts, t), Open(Run(Created(n), acts).s, t),
                     Answers)
  {
    var _ := SingleBlockRunsAreSafe(n, acts);
    EveryCallAnswered(Created(n).s, acts, t);
    RunIsStateAfter(Created(n), acts);
    assert Open(Created(n).s, t) + Calls(Created(n).s, acts, t) == Calls(Created(n).s, acts, t);
  }

  /** What an answer says is so: the block handed out is the head's and the user's from then on, a chain
      heads the list, and an empty list has no head. */
  lemma AnswersAreTrue(s: State, a: Action)
    ensures EventOf(s, a).Popped? ==>
              && s.head.To? && s.head.name.block == EventOf(s, a).block
              && Next(s, a).live == s.live + {EventOf(s, a).block}
    ensures EventOf(s, a).Pushed? ==>
              EventOf(s, a).blocks != [] && Next(s, a).head.To? && Next(s, a).head.name.block == EventOf(s, a).blocks[0]
    ensures EventOf(s, a).WasEmpty? ==> s.head == Invalid
    ensures !Swaps(EventOf(s, a)) ==> Next(s, a).head == s.head
  {
  }

  // ----- a swap fails only when another call has ended

  /** The thread's view of the head is the head. */
  predicate Current(s: State, t: nat) {
    var pc := At(s, t);
    (Popping(pc) ==> s.head == To(pc.seen)) && (pc.PushLoaded? || pc.PushWritten? ==> s.head == pc.below)
  }

  /** Every load of the head, and every failed swap, gives a current view; a pop that finds the list
      empty ends. */
  lemma ViewIsCurrent(s: State, a: Action)
    requires a.LoadHead? || a.LoadForPush? || a.CasPop? || a.CasPush?
    ensures Next(s, a) != s ==> Current(Next(s, a), a.t)
    ensures a.CasPop? && At(s, a.t).PopRead? && s.head.To? && s.head != To(At(s, a.t).seen) ==>
              At(Next(s, a), a.t) == PopLoaded(s.head.name)
    ensures a.CasPush? && At(s, a.t).PushWritten? && At(s, a.t).chain != [] && s.head != At(s, a.t).below ==>
              At(Next(s, a), a.t) == PushLoaded(At(s, a.t).chain, At(s, a.t).tag, s.head)
  {
  }

  /** The call ends a pop with a block or a push. */
  predicate Swaps(e: Event) {
    e.Popped? || e.Pushed?
  }

  /** No call swaps the head in the run. */
  predicate Quiet(s: State, acts: seq<Action>)
    decreases |acts|
  {
    acts == [] || (!Swaps(EventOf(s, acts[0])) && Quiet(Next(s, acts[0]), acts[1..]))
  }

  lemma QuietStepKeepsView(s: State, a: Action, t: nat)
    requires !Swaps(EventOf(s, a)) && Current(s, t)
    ensures Next(s, a).head == s.head && Current(Next(s, a), t)
  {
  }

  lemma {:induction false} QuietKeepsView(s: State, acts: seq<Action>, t: nat)
    requires Quiet(s, acts) && Current(s, t)
    ensures Current(StateAfter(s, acts), t)
    decreases |acts|
  {
    if acts != [] {
      QuietStepKeepsView(s, acts[0], t);
      QuietKeepsView(Next(s, acts[0]), acts[1..], t);
    }
  }

  /** Lock freedom: when a thread's swap fails, some call has swapped the head since the thread last had
      a current view. */
  lemma FailedSwapMeansProgress(s: State, acts: seq<Action>, t: nat)
    requires Current(s, t)
    requires var pc, head := At(StateAfter(s, acts), t), StateAfter(s, acts).head;
             (pc.PopRead? && head != To(pc.seen)) || (pc.PushWritten? && head != pc.below)
    ensures !Quiet(s, acts)
  {
    if Quiet(s, acts) {
      QuietKeepsView(s, acts, t);
    }
  }
}
