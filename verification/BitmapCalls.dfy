/** What a caller of the bitmap sees: every claim is answered by a range of the length and in the field
    asked for, or fails for a reason; alone, it succeeds whenever it can. */
module BitmapCalls {
  import opened Lists
  import opened CallHistories
  import opened BitmapClaims

  /** `_mi_bitmap_try_find_claim_field`, `mi_bitmap_try_find_claim_field_across` and the release of a
      claim. */
  datatype Call = InField(f: nat, count: nat) | Across(idx: nat, count: nat) | GiveBack

  datatype Outcome = Silent | Granted(r: Range) | Failed | Returned

  /** What a step tells its caller, read off the state: a new claim, or the end of a call without one. */
  function OutcomeOf(s: State, a: Action): Outcome {
    var s', pc := Next(s, a), At(s, a.t);
    if s'.next != s.next && s.next in s'.claims then Granted(s'.claims[s.next])
    else if pc.Idle? || !At(s', a.t).Idle? then Silent
    else if pc.Releasing? then Returned
    else Failed
  }

  /** The call that a thread is in, if any. */
  function Open(pc: Pc): seq<Call> {
    match pc
    case Idle => []
    case FieldAsked(f, count, across) => [if across then Across(f, count) else InField(f, count)]
    case FieldLoaded(f, count, across, _, _) => [if across then Across(f, count) else InField(f, count)]
    case Releasing(_) => [GiveBack]
    case _ => [Across(pc.q.idx, pc.q.count)]
  }

  function Begun(s: State, a: Action, t: nat): seq<Call> {
    if a.t != t || !At(s, t).Idle? then []
    else if a.AskField? && a.f < s.fields && 0 < a.count <= FIELD then [InField(a.f, a.count)]
    else if a.AskAcross? && a.idx < s.fields && 0 < a.count then [Across(a.idx, a.count)]
    else if a.BeginRelease? && a.id in s.claims then [GiveBack]
    else []
  }

  function Given(s: State, a: Action, t: nat): seq<Outcome> {
    if a.t == t && OutcomeOf(s, a) != Silent then [OutcomeOf(s, a)] else []
  }

  /** A range granted has as many bits as were asked for and lies in, or begins in, the field asked
      for. */
  predicate Answers(c: Call, o: Outcome) {
    match c
    case InField(f, count) =>
      o.Failed? || (o.Granted? && o.r.hi == o.r.lo + count && FIELD * f <= o.r.lo && o.r.hi <= FIELD * (f + 1))
    case Across(idx, count) =>
      o.Failed? || (o.Granted? && o.r.hi == o.r.lo + count && FIELD * idx <= o.r.lo < FIELD * (idx + 1))
    case GiveBack => o.Returned?
  }

  function Calls(s: State, acts: seq<Action>, t: nat): seq<Call>
    decreases |acts|
  {
    if acts == [] then [] else Begun(s, acts[0], t) + Calls(Next(s, acts[0]), acts[1..], t)
  }

  function Replies(s: State, acts: seq<Action>, t: nat): seq<Outcome>
    decreases |acts|
  {
    if acts == [] then [] else Given(s, acts[0], t) + Replies(Next(s, acts[0]), acts[1..], t)
  }

  lemma CasFieldAnswers(s: State, a: Action)
    requires a.CasField? && PcOk(At(s, a.t), s.fields)
    ensures Answered(Open(At(s, a.t)), Given(s, a, a.t), Open(At(Next(s, a), a.t)), Answers)
  {
    var pc := At(s, a.t);
    if pc.FieldLoaded? {
      FreeFromIs(pc.seen, pc.f, pc.count, pc.from);
    }
  }

  lemma CasFinalAnswers(s: State, a: Action)
    requires a.CasFinal? && PcOk(At(s, a.t), s.fields)
    ensures Answered(Open(At(s, a.t)), Given(s, a, a.t), Open(At(Next(s, a), a.t)), Answers)
  {
  }

  lemma OtherStepAnswers(s: State, a: Action)
    requires !a.CasField? && !a.CasFinal?
    ensures Answered(Open(At(s, a.t)) + Begun(s, a, a.t), Given(s, a, a.t), Open(At(Next(s, a), a.t)), Answers)
  {
    if a.AskAcross? || a.AskField? || a.BeginRelease? {
      BeginAnswers(s, a);
    } else {
      GoOnAnswers(s, a);
      assert Open(At(s, a.t)) + Begun(s, a, a.t) == Open(At(s, a.t));
    }
  }

  lemma BeginAnswers(s: State, a: Action)
    requires a.AskAcross? || a.AskField? || a.BeginRelease?
    ensures Given(s, a, a.t) == [] && Open(At(s, a.t)) + Begun(s, a, a.t) == Open(At(Next(s, a), a.t))
  {
  }

  lemma GoOnAnswers(s: State, a: Action)
    requires !a.CasField? && !a.CasFinal? && !a.AskAcross? && !a.AskField? && !a.BeginRelease?
    ensures Answered(Open(At(s, a.t)), Given(s, a, a.t), Open(At(Next(s, a), a.t)), Answers)
  {
  }

  /** A step goes on with the open call, or answers it; no call ends unanswered. */
  lemma StepAnswers(s: State, a: Action, t: nat)
    requires Inv(s)
    ensures Answered(Open(At(s, t)) + Begun(s, a, t), Given(s, a, t), Open(At(Next(s, a), t)), Answers)
  {
    if a.t != t {
      OthersStay(s, a);
    } else {
      assert PcOk(At(s, t), s.fields);
      if a.CasField? {
        CasFieldAnswers(s, a);
        assert Open(At(s, t)) + Begun(s, a, t) == Open(At(s, t));
      } else if a.CasFinal? {
        CasFinalAnswers(s, a);
        assert Open(At(s, t)) + Begun(s, a, t) == Open(At(s, t));
      } else {
        OtherStepAnswers(s, a);
      }
    }
  }

  /** In every interleaving the calls of each thread are answered in their order, each once: a claim by a
      range of the length asked for in the field asked for, or by a failure. */
  lemma {:induction false} EveryCallAnswered(s: State, acts: seq<Action>, t: nat)
    requires Inv(s)
    ensures Answered(Open(At(s, t)) + Calls(s, acts, t), Replies(s, acts, t), Open(At(Run(s, acts), t)), Answers)
    decreases |acts|
  {
    if acts != [] {
      var s' := Next(s, acts[0]);
      StepKeeps(s, acts[0]);
      StepAnswers(s, acts[0], t);
      EveryCallAnswered(s', acts[1..], t);
      AnsweredFrom(Open(At(s, t)), Begun(s, acts[0], t), Given(s, acts[0], t), Open(At(s', t)), Calls(s', acts[1..], t),
                   Replies(s', acts[1..], t), Open(At(Run(s', acts[1..]), t)), Answers);
    } else {
      assert Open(At(s, t)) + Calls(s, acts, t) == Open(At(s, t));
    }
  }

  /** What a claim across fields plans, by the bits alone: with its field's zero tail at `lo`, that many
      bits from there if they reach into the next fields and fit the bitmap, and a claim in the one
      field if they do not. */
  lemma PlanIs(s: State, q: Ask, lo: nat)
    requires q.count > 0 && FIELD * q.idx <= lo < FIELD * (q.idx + 1) && (lo > FIELD * q.idx ==> lo - 1 in s.bits)
    requires forall p :: lo <= p < FIELD * (q.idx + 1) ==> p !in s.bits
    ensures Plan(s, q) ==
              if lo + q.count <= FIELD * (q.idx + 1) then FieldAsked(q.idx, q.count, true)
              else if lo + q.count <= FIELD * s.fields then Scanning(q, Range(lo, lo + q.count), q.idx + 1)
              else Idle
  {
    ZeroTail(s.bits, q.idx, FIELD);
    var lo' := FIELD * (q.idx + 1) - LeadingZeros(s.bits, q.idx, FIELD);
    assert lo' == lo by {
      assert lo' < lo ==> lo - 1 !in s.bits;
      assert lo < lo' ==> lo' - 1 !in s.bits;
    }
  }

  // ----- why a claim fails

  /** A bit of the range is set. */
  ghost predicate Blocked(bits: set<nat>, r: Range) {
    exists p :: p in bits && In(p, r)
  }

  /** A claim in one field fails only when no run of that many zeros is left, from where it stands on, in
      the word it has loaded. A claim across fields fails only when the field's top bit is set, the bitmap
      ends too early, a bit of its range is set, or it has been rolled back three times. */
  lemma FailsOnlyIf(s: State, a: Action)
    requires Inv(s) && OutcomeOf(s, a) == Failed
    ensures var pc := At(s, a.t);
            match a
            case ReadFirst(_) =>
              pc.AcrossAsked? &&
              (FIELD * (pc.q.idx + 1) - 1 in s.bits ||
               FIELD * (pc.q.idx + 1) - LeadingZeros(s.bits, pc.q.idx, FIELD) + pc.q.count > FIELD * s.fields)
            case ScanField(_) => pc.Scanning? && Blocked(s.bits, pc.r)
            case CasInitial(_) => pc.InitialLoaded? && pc.q.retries > 2 && Blocked(pc.seen, pc.r)
            case CasRoll(_) => pc.RollInitialLoaded? && pc.q.retries > 2
            case CasField(_) =>
              && pc.FieldLoaded?
              && forall b :: pc.from <= b && b + pc.count <= FIELD ==> Meets(pc.seen, FieldRange(pc.f, pc.count, b))
            case _ => false
  {
    var pc := At(s, a.t);
    assert PcOk(pc, s.fields);
    if a.ReadFirst? {
      ZeroTail(s.bits, pc.q.idx, FIELD);
    } else if a.CasField? {
      FreeFromIs(pc.seen, pc.f, pc.count, pc.from);
    }
  }

  /** A claim is rolled back, or tried again, only when it has met a set bit of its range. */
  lemma RollsBackOnlyIf(s: State, a: Action)
    requires Inv(s)
    requires At(Next(s, a), a.t).RollBack? && (At(s, a.t).Middle? || At(s, a.t).FinalLoaded?)
    ensures if At(s, a.t).Middle? then Blocked(s.bits, At(s, a.t).r) else Blocked(At(s, a.t).seen, At(s, a.t).r)
  {
    var pc := At(s, a.t);
    assert PcOk(pc, s.fields);
    if pc.Middle? {
      var p :| p in Word(s.bits, pc.k);
      assert In(p, pc.r);
    }
  }

  // ----- a claim in one field that fails has seen every place blocked

  /** The thread searches field `f` for `count` bits. */
  predicate Searching(pc: Pc, f: nat, count: nat) {
    (pc.FieldAsked? || pc.FieldLoaded?) && pc.f == f && pc.count == count
  }

  /** The place was blocked at some moment of the run. */
  ghost predicate WasBlocked(s: State, acts: seq<Action>, r: Range) {
    exists i :: 0 <= i <= |acts| && Blocked(Run(s, acts[..i]).bits, r)
  }

  /** The word was that of the field at some moment of the run. */
  ghost predicate WasWord(s: State, acts: seq<Action>, f: nat, word: set<nat>) {
    exists i :: 0 <= i <= |acts| && Word(Run(s, acts[..i]).bits, f) == word
  }

  /** What a search knows: its word was the field's, and every place it has passed was blocked. */
  ghost predicate Knows(s: State, acts: seq<Action>, f: nat, count: nat, pc: Pc) {
    pc.FieldLoaded? ==>
      && WasWord(s, acts, f, pc.seen)
      && forall b :: 0 <= b < pc.from && b + count <= FIELD ==> WasBlocked(s, acts, FieldRange(f, count, b))
  }

  /** A search that goes on keeps its place, or moves it over blocked places to the one it tried. */
  lemma SearchStep(s: State, a: Action, t: nat, f: nat, count: nat)
    requires Searching(At(s, t), f, count) && Searching(At(Next(s, a), t), f, count) && count > 0
    ensures var pc, pc' := At(s, t), At(Next(s, a), t);
            pc' == pc || (pc'.FieldLoaded? && pc'.seen == Word(s.bits, f) == Word(Next(s, a).bits, f) &&
                          if pc.FieldAsked? then pc'.from == 0
                          else forall b :: pc.from <= b < pc'.from && b + count <= FIELD ==>
                            Meets(pc.seen, FieldRange(f, count, b)))
  {
    OthersStay(s, a);
    var pc := At(s, t);
    if pc.FieldLoaded? && a.t == t && a.CasField? {
      FreeFromIs(pc.seen, f, count, pc.from);
    }
  }

  lemma RunLast(s: State, acts: seq<Action>)
    requires acts != []
    ensures Run(s, acts) == Next(Run(s, acts[..|acts| - 1]), acts[|acts| - 1])
  {
    var n := |acts| - 1;
    assert acts == acts[..n] + [acts[n]];
    RunAppend(s, acts[..n], [acts[n]]);
    assert [acts[n]][1..] == [];
  }

  lemma {:induction false} RunAppend(s: State, a: seq<Action>, b: seq<Action>)
    ensures Run(s, a + b) == Run(Run(s, a), b)
    decreases |a|
  {
    if a == [] {
      assert a + b == b;
    } else {
      assert (a + b)[0] == a[0] && (a + b)[1..] == a[1..] + b;
      RunAppend(Next(s, a[0]), a[1..], b);
    }
  }

  /** What was so in a part of a run was so in the run. */
  lemma WasLonger(s: State, acts: seq<Action>, n: nat)
    requires n <= |acts|
    ensures forall r :: WasBlocked(s, acts[..n], r) ==> WasBlocked(s, acts, r)
    ensures forall f, word :: WasWord(s, acts[..n], f, word) ==> WasWord(s, acts, f, word)
  {
    assert forall i :: 0 <= i <= n ==> acts[..n][..i] == acts[..i];
    forall r | WasBlocked(s, acts[..n], r)
      ensures WasBlocked(s, acts, r)
    {
      var i :| 0 <= i <= |acts[..n]| && Blocked(Run(s, acts[..n][..i]).bits, r);
      assert Blocked(Run(s, acts[..i]).bits, r);
    }
    forall f, word | WasWord(s, acts[..n], f, word)
      ensures WasWord(s, acts, f, word)
    {
      var i :| 0 <= i <= |acts[..n]| && Word(Run(s, acts[..n][..i]).bits, f) == word;
      assert Word(Run(s, acts[..i]).bits, f) == word;
    }
  }

  lemma NowWas(s: State, acts: seq<Action>, f: nat)
    ensures WasWord(s, acts, f, Word(Run(s, acts).bits, f))
  {
    assert acts[..|acts|] == acts;
  }

  /** A place that a word seen blocks was blocked. */
  lemma SeenWas(s: State, acts: seq<Action>, f: nat, count: nat, word: set<nat>, b: nat)
    requires WasWord(s, acts, f, word) && b + count <= FIELD && Meets(word, FieldRange(f, count, b))
    ensures WasBlocked(s, acts, FieldRange(f, count, b))
  {
    var i :| 0 <= i <= |acts| && Word(Run(s, acts[..i]).bits, f) == word;
    WordBlocks(Run(s, acts[..i]).bits, f, count, b);
  }

  lemma KnowsStep(s: State, acts: seq<Action>, a: Action, t: nat, f: nat, count: nat)
    requires count > 0 && Knows(s, acts, f, count, At(Run(s, acts), t))
    requires Searching(At(Run(s, acts), t), f, count) && Searching(At(Next(Run(s, acts), a), t), f, count)
    ensures Knows(s, acts + [a], f, count, At(Next(Run(s, acts), a), t))
  {
    var s1 := Run(s, acts);
    var pc, pc' := At(s1, t), At(Next(s1, a), t);
    var all := acts + [a];
    assert all[..|acts|] == acts;
    WasLonger(s, all, |acts|);
    SearchStep(s1, a, t, f, count);
    NowWas(s, acts, f);
    if pc' != pc && pc.FieldLoaded? {
      forall b | pc.from <= b < pc'.from && b + count <= FIELD
        ensures WasBlocked(s, acts, FieldRange(f, count, b))
      {
        SeenWas(s, acts, f, count, pc.seen, b);
      }
    }
  }

  lemma {:induction false} SearchKnows(s: State, acts: seq<Action>, t: nat, f: nat, count: nat)
    requires count > 0 && At(s, t).FieldAsked?
    requires forall i :: 0 <= i <= |acts| ==> Searching(At(Run(s, acts[..i]), t), f, count)
    ensures Knows(s, acts, f, count, At(Run(s, acts), t))
    decreases |acts|
  {
    if acts != [] {
      var n := |acts| - 1;
      var front := acts[..n];
      assert forall i :: 0 <= i <= n ==> front[..i] == acts[..i];
      SearchKnows(s, front, t, f, count);
      RunLast(s, acts);
      assert acts[..n] == front && acts[..n + 1] == acts && acts == front + [acts[n]];
      KnowsStep(s, front, acts[n], t, f, count);
    }
  }

  /** However other threads interfere: a claim in one field that fails has seen every place of the field
      blocked at some moment of its own run. */
  lemma FailedSearchSawAll(s: State, acts: seq<Action>, t: nat, f: nat, count: nat, b: nat)
    requires Inv(s) && 0 < count && b + count <= FIELD && At(s, t).FieldAsked?
    requires forall i :: 0 <= i <= |acts| ==> Searching(At(Run(s, acts[..i]), t), f, count)
    requires OutcomeOf(Run(s, acts), CasField(t)) == Failed
    ensures WasBlocked(s, acts, FieldRange(f, count, b))
  {
    SearchKnows(s, acts, t, f, count);
    RunKeeps(s, acts);
    FailsOnlyIf(Run(s, acts), CasField(t));
    assert acts[..|acts|] == acts;
    var pc := At(Run(s, acts), t);
    if b >= pc.from {
      SeenWas(s, acts, f, count, pc.seen, b);
    }
  }

  /** The word of the field that a thread is about to swap. */
  function View(pc: Pc): Option<(nat, set<nat>)> {
    match pc
    case InitialLoaded(_, r, seen) => Some((First(r), seen))
    case FinalLoaded(_, r, seen) => if r.hi > 0 then Some((Last(r), seen)) else None
    case RollInitialLoaded(_, r, seen) => Some((First(r), seen))
    case FieldLoaded(f, _, _, _, seen) => Some((f, seen))
    case _ => None
  }

  /** Every load, and every failed swap, gives the field's current word, so that the next swap fails only
      when the field has changed again. */
  lemma ViewIsCurrent(s: State, a: Action)
    requires Next(s, a) != s && View(At(Next(s, a), a.t)).Some?
    ensures var (f, seen) := View(At(Next(s, a), a.t)).value; seen == Word(Next(s, a).bits, f)
  {
  }

  // ----- a call that is not interrupted

  /** The next step of a thread in a call. */
  function StepOf(pc: Pc, t: nat): Action {
    match pc
    case AcrossAsked(_) => ReadFirst(t)
    case Scanning(_, r, k) => if r.hi > 0 && k <= Last(r) then ScanField(t) else LoadInitial(t)
    case InitialLoaded(_, _, _) => CasInitial(t)
    case Middle(_, r, k) => if r.hi > 0 && k < Last(r) then CasMiddle(t) else LoadFinal(t)
    case FinalLoaded(_, _, _) => CasFinal(t)
    case RollBack(_, r, k) => if k > First(r) + 1 then StoreMiddle(t) else LoadRoll(t)
    case RollInitialLoaded(_, _, _) => CasRoll(t)
    case FieldAsked(_, _, _) => LoadField(t)
    case FieldLoaded(_, _, _, _, _) => CasField(t)
    case Idle => ClearField(t)
    case Releasing(_) => ClearField(t)
  }

  /** Thread `t` takes its next `n` steps alone, or fewer when its call ends before. */
  function Solo(s: State, t: nat, n: nat): State
    decreases n
  {
    if n == 0 || At(s, t).Idle? then s else Solo(Next(s, StepOf(At(s, t), t)), t, n - 1)
  }

  predicate OnlyOf(acts: seq<Action>, t: nat) {
    forall i :: 0 <= i < |acts| ==> acts[i].t == t
  }

  lemma {:induction false} SoloIsRun(s: State, t: nat, n: nat) returns (acts: seq<Action>)
    ensures Run(s, acts) == Solo(s, t, n) && OnlyOf(acts, t)
    decreases n
  {
    if n == 0 || At(s, t).Idle? {
      acts := [];
    } else {
      var a := StepOf(At(s, t), t);
      var rest := SoloIsRun(Next(s, a), t, n - 1);
      acts := [a] + rest;
      RunFrom(s, a, rest);
      OwnStep(At(s, t), t);
    }
  }

  lemma RunFrom(s: State, a: Action, rest: seq<Action>)
    ensures Run(s, [a] + rest) == Run(Next(s, a), rest)
  {
    assert ([a] + rest)[1..] == rest;
  }

  lemma OwnStep(pc: Pc, t: nat)
    ensures StepOf(pc, t).t == t
  {
  }

  /** The state with thread `t` at `pc` and these bits. */
  function InCall(s: State, t: nat, pc: Pc, bits: set<nat>): State {
    s.(pcs := s.pcs[t := pc], bits := bits)
  }

  /** The range is handed out. */
  function Done(s: State, t: nat, bits: set<nat>, r: Range): State {
    s.(pcs := s.pcs[t := Idle], bits := bits, claims := s.claims[s.next := r], next := s.next + 1)
  }

  /** A thread's place is overwritten. */
  lemma PlaceIn(s: State, t: nat, pc: Pc, pc': Pc, bits: set<nat>)
    ensures At(InCall(s, t, pc, bits), t) == pc && InCall(s, t, pc, bits).pcs[t := pc'] == s.pcs[t := pc']
  {
  }

  /** The states that thread `t` goes through alone. The step from the `i`-th is asked for by `Turn(i)`. */
  ghost predicate Trace(f: nat -> State, t: nat) {
    forall i: nat {:trigger Turn(i)} :: Turn(i) && !At(f(i), t).Idle? ==> f(i + 1) == Next(f(i), StepOf(At(f(i), t), t))
  }

  predicate Turn(i: nat) {
    i >= 0
  }

  lemma TurnTo(f: nat -> State, s: State, t: nat, pc: Pc, bits: set<nat>, i: nat, s1: State)
    requires Trace(f, t) && f(i) == InCall(s, t, pc, bits) && !pc.Idle?
             && Next(InCall(s, t, pc, bits), StepOf(pc, t)) == s1
    ensures f(i + 1) == s1
  {
    PlaceIn(s, t, pc, pc, bits);
    assert Turn(i);
  }

  // ----- a claim in one field, alone

  /** The place in a field of the lowest run of that many zeros. */
  function LowestIn(bits: set<nat>, f: nat, count: nat): Option<nat> {
    FreeFrom(Word(bits, f), f, count, 0)
  }

  function FieldEnd(s: State, t: nat, f: nat, count: nat): State {
    match LowestIn(s.bits, f, count)
    case Some(b) => Done(s, t, s.bits + Span(FieldRange(f, count, b)), FieldRange(f, count, b))
    case None => InCall(s, t, Idle, s.bits)
  }

  lemma LoadFieldStep(s: State, t: nat, f: nat, count: nat, s1: State)
    requires s1 == InCall(s, t, FieldLoaded(f, count, false, 0, Word(s.bits, f)), s.bits)
    ensures Next(InCall(s, t, FieldAsked(f, count, false), s.bits), LoadField(t)) == s1
  {
    PlaceIn(s, t, FieldAsked(f, count, false), FieldLoaded(f, count, false, 0, Word(s.bits, f)), s.bits);
  }

  lemma CasFieldStep(s: State, t: nat, f: nat, count: nat, s1: State)
    requires s1 == FieldEnd(s, t, f, count)
    ensures Next(InCall(s, t, FieldLoaded(f, count, false, 0, Word(s.bits, f)), s.bits), CasField(t)) == s1
  {
    PlaceIn(s, t, FieldLoaded(f, count, false, 0, Word(s.bits, f)), Idle, s.bits);
  }

  /** Alone, a claim in one field gets the lowest run of that many zeros, and fails when there is none. */
  lemma FieldCallAlone(g: nat -> State, s: State, t: nat, f: nat, count: nat)
    requires Trace(g, t) && At(s, t).Idle? && f < s.fields && 0 < count <= FIELD
             && g(0) == Next(s, AskField(t, f, count))
    ensures g(2) == FieldEnd(s, t, f, count)
  {
    var loaded := FieldLoaded(f, count, false, 0, Word(s.bits, f));
    LoadFieldStep(s, t, f, count, InCall(s, t, loaded, s.bits));
    TurnTo(g, s, t, FieldAsked(f, count, false), s.bits, 0, InCall(s, t, loaded, s.bits));
    CasFieldStep(s, t, f, count, FieldEnd(s, t, f, count));
    TurnTo(g, s, t, loaded, s.bits, 1, FieldEnd(s, t, f, count));
  }

  /** That place, and whether there is one, by the bits alone. */
  lemma LowestIs(bits: set<nat>, f: nat, count: nat, b: nat)
    requires count > 0 && b + count <= FIELD
    ensures LowestIn(bits, f, count) == Some(b) <==>
              && !Blocked(bits, FieldRange(f, count, b))
              && forall c :: 0 <= c < b ==> Blocked(bits, FieldRange(f, count, c))
    ensures LowestIn(bits, f, count).None? ==> Blocked(bits, FieldRange(f, count, b))
  {
    FreeFromIs(Word(bits, f), f, count, 0);
    forall c | 0 <= c && c + count <= FIELD
      ensures Meets(Word(bits, f), FieldRange(f, count, c)) <==> Blocked(bits, FieldRange(f, count, c))
    {
      WordBlocks(bits, f, count, c);
    }
  }

  lemma WordBlocks(bits: set<nat>, f: nat, count: nat, b: nat)
    requires b + count <= FIELD
    ensures Meets(Word(bits, f), FieldRange(f, count, b)) <==> Blocked(bits, FieldRange(f, count, b))
  {
    if Blocked(bits, FieldRange(f, count, b)) {
      var p :| p in bits && In(p, FieldRange(f, count, b));
      assert p in Word(bits, f);
    }
  }

  // ----- a claim across fields, alone

  /** One field of the scan. */
  lemma ScanStep(s: State, t: nat, q: Ask, r: Range, k: nat, s1: State)
    requires PcOk(Scanning(q, r, k), s.fields) && k <= Last(r)
    requires s1 == InCall(s, t, if Meets(Word(s.bits, k), MaskAt(r, k)) then Idle else Scanning(q, r, k + 1), s.bits)
    ensures Next(InCall(s, t, Scanning(q, r, k), s.bits), ScanField(t)) == s1
  {
    PlaceIn(s, t, Scanning(q, r, k), At(s1, t), s.bits);
  }

  lemma ScanSplit(bits: set<nat>, r: Range, k: nat)
    ensures Blocked(bits, Range(FIELD * k, r.hi)) <==>
              Meets(Word(bits, k), MaskAt(r, k)) || Blocked(bits, Range(FIELD * (k + 1), r.hi))
  {
    if Meets(Word(bits, k), MaskAt(r, k)) {
      var p :| p in Word(bits, k) && In(p, MaskAt(r, k));
      assert In(p, Range(FIELD * k, r.hi));
    }
    if Blocked(bits, Range(FIELD * (k + 1), r.hi)) {
      var p :| p in bits && In(p, Range(FIELD * (k + 1), r.hi));
      assert In(p, Range(FIELD * k, r.hi));
    }
    if Blocked(bits, Range(FIELD * k, r.hi)) {
      var p :| p in bits && In(p, Range(FIELD * k, r.hi));
      assert p < FIELD * (k + 1) ==> p in Word(bits, k) && In(p, MaskAt(r, k));
      assert p >= FIELD * (k + 1) ==> In(p, Range(FIELD * (k + 1), r.hi));
    }
  }

  // ----- the way of a claim that meets no resistance

  /** The places on the way, with the words loaded as they are. */
  predicate OnWay(s: State, q: Ask, r: Range, pc: Pc) {
    && r.hi > 0 && PcOk(pc, s.fields)
    && match pc
       case Scanning(q', r', _) => q' == q && r' == r
       case InitialLoaded(q', r', seen) => q' == q && r' == r && seen == Word(s.bits, First(r))
       case Middle(q', r', _) => q' == q && r' == r
       case FinalLoaded(q', r', seen) => q' == q && r' == r && seen == Word(s.bits, Last(r))
       case _ => false
  }

  /** How many steps are left, but for the last swap. */
  function Left(pc: Pc): nat {
    match pc
    case Scanning(_, r, k) =>
      if r.hi == 0 || k > Last(r) + 1 || Last(r) < First(r) then 0 else 2 * Last(r) - First(r) + 3 - k
    case InitialLoaded(_, r, _) => if r.hi == 0 || Last(r) < First(r) then 0 else Last(r) - First(r) + 1
    case Middle(_, r, k) => if r.hi == 0 || k > Last(r) then 0 else Last(r) + 1 - k
    case _ => 0
  }

  function Forward(s: State, pc: Pc): Pc {
    match pc
    case Scanning(q, r, k) =>
      if r.hi > 0 && k <= Last(r) then Scanning(q, r, k + 1) else InitialLoaded(q, r, Word(s.bits, First(r)))
    case InitialLoaded(q, r, _) => Middle(q, r, First(r) + 1)
    case Middle(q, r, k) =>
      if r.hi > 0 && k < Last(r) then Middle(q, r, k + 1)
      else FinalLoaded(q, r, if r.hi > 0 then Word(s.bits, Last(r)) else {})
    case _ => pc
  }

  /** The state on the way: nothing has changed but the thread's place and the bits it holds. */
  function Alone(s: State, t: nat, pc: Pc): State {
    InCall(s, t, pc, s.bits + Span(HeldAt(pc)))
  }

  lemma ForwardOn(s: State, q: Ask, r: Range, pc: Pc)
    requires OnWay(s, q, r, pc) && !pc.FinalLoaded?
    ensures OnWay(s, q, r, Forward(s, pc)) && Left(Forward(s, pc)) == Left(pc) - 1
  {
  }

  lemma ScanForward(s: State, t: nat, q: Ask, r: Range, k: nat)
    requires OnWay(s, q, r, Scanning(q, r, k)) && !Blocked(s.bits, r)
    ensures Next(Alone(s, t, Scanning(q, r, k)), StepOf(Scanning(q, r, k), t))
            == Alone(s, t, Forward(s, Scanning(q, r, k)))
  {
    assert s.bits + Span(Range(0, 0)) == s.bits;
    PlaceIn(s, t, Scanning(q, r, k), Forward(s, Scanning(q, r, k)), s.bits);
    CrossingLast(r);
    assert forall p :: p in Word(s.bits, k) && In(p, MaskAt(r, k)) ==> In(p, r);
  }

  lemma InitialForward(s: State, t: nat, q: Ask, r: Range)
    requires OnWay(s, q, r, InitialLoaded(q, r, Word(s.bits, First(r)))) && !Blocked(s.bits, r)
    ensures var pc := InitialLoaded(q, r, Word(s.bits, First(r)));
            Next(Alone(s, t, pc), StepOf(pc, t)) == Alone(s, t, Forward(s, pc))
  {
    var pc := InitialLoaded(q, r, Word(s.bits, First(r)));
    assert s.bits + Span(Range(0, 0)) == s.bits;
    PlaceIn(s, t, pc, Forward(s, pc), s.bits);
    assert !Meets(Word(s.bits, First(r)), InitialMask(r));
  }

  lemma MiddleForward(s: State, t: nat, q: Ask, r: Range, k: nat)
    requires OnWay(s, q, r, Middle(q, r, k)) && !Blocked(s.bits, r)
    ensures Next(Alone(s, t, Middle(q, r, k)), StepOf(Middle(q, r, k), t)) == Alone(s, t, Forward(s, Middle(q, r, k)))
  {
    var bits := s.bits + Span(Range(r.lo, FIELD * k));
    PlaceIn(s, t, Middle(q, r, k), Forward(s, Middle(q, r, k)), bits);
    HeldElsewhere(s.bits, r, k);
    if k < Last(r) {
      SpanJoin(s.bits, r.lo, FIELD * k, FIELD * (k + 1));
      FieldFree(s.bits, r, k);
    }
  }

  /** What is held lies before field `k`. */
  lemma HeldElsewhere(bits: set<nat>, r: Range, k: nat)
    ensures Word(bits + Span(Range(r.lo, FIELD * k)), k) == Word(bits, k)
  {
  }

  lemma FieldFree(bits: set<nat>, r: Range, k: nat)
    requires Crossing(r) && First(r) < k < Last(r) && !Blocked(bits, r)
    ensures Word(bits, k) == {}
  {
    CrossingLast(r);
    assert FIELD * (k + 1) <= FIELD * Last(r);
    assert forall p :: p in Word(bits, k) ==> In(p, r);
  }

  lemma SpanJoin(bits: set<nat>, a: nat, b: nat, c: nat)
    requires a <= b <= c
    ensures bits + Span(Range(a, b)) + Span(Range(b, c)) == bits + Span(Range(a, c))
  {
    assert forall p :: p in Span(Range(a, c)) <==> p in Span(Range(a, b)) || p in Span(Range(b, c));
  }

  lemma FinalForward(s: State, t: nat, q: Ask, r: Range)
    requires r.hi > 0 && OnWay(s, q, r, FinalLoaded(q, r, Word(s.bits, Last(r)))) && !Blocked(s.bits, r)
    ensures Next(Alone(s, t, FinalLoaded(q, r, Word(s.bits, Last(r)))), CasFinal(t)) == Done(s, t, s.bits + Span(r), r)
  {
    var k := Last(r);
    CrossingLast(r);
    PlaceIn(s, t, FinalLoaded(q, r, Word(s.bits, k)), Idle, s.bits + Span(Range(r.lo, FIELD * k)));
    HeldElsewhere(s.bits, r, k);
    SpanJoin(s.bits, r.lo, FIELD * k, r.hi);
    assert forall p :: p in Word(s.bits, k) && In(p, FinalMask(r)) ==> In(p, r);
  }

  lemma CrossingLast(r: Range)
    requires Crossing(r)
    ensures First(r) < Last(r) && r.lo < FIELD * Last(r) < r.hi <= FIELD * (Last(r) + 1)
  {
  }

  /** One step of the way. */
  lemma WayStep(s: State, t: nat, q: Ask, r: Range, pc: Pc)
    requires OnWay(s, q, r, pc) && !Blocked(s.bits, r) && !pc.FinalLoaded?
    ensures Next(Alone(s, t, pc), StepOf(pc, t)) == Alone(s, t, Forward(s, pc))
  {
    match pc
    case Scanning(_, _, k) => ScanForward(s, t, q, r, k);
    case InitialLoaded(_, _, _) => InitialForward(s, t, q, r);
    case Middle(_, _, k) => MiddleForward(s, t, q, r, k);
  }

  /** A free range is claimed to its end. */
  lemma {:induction false} WayTrace(f: nat -> State, s: State, t: nat, q: Ask, r: Range, pc: Pc, i: nat)
    requires Trace(f, t) && OnWay(s, q, r, pc) && !Blocked(s.bits, r) && f(i) == Alone(s, t, pc)
    ensures f(i + Left(pc) + 1) == Done(s, t, s.bits + Span(r), r)
    decreases Left(pc)
  {
    if pc.FinalLoaded? {
      FinalForward(s, t, q, r);
      TurnTo(f, s, t, pc, s.bits + Span(HeldAt(pc)), i, Done(s, t, s.bits + Span(r), r));
    } else {
      WayStep(s, t, q, r, pc);
      TurnTo(f, s, t, pc, s.bits + Span(HeldAt(pc)), i, Alone(s, t, Forward(s, pc)));
      ForwardOn(s, q, r, pc);
      WayTrace(f, s, t, q, r, Forward(s, pc), i + 1);
    }
  }

  lemma BehindIsFree(bits: set<nat>, r: Range, k: nat)
    requires r.hi > 0
    ensures Blocked(bits, Range(FIELD * k, r.hi)) ==> k <= Last(r)
  {
    assert k > Last(r) ==> FIELD * k >= r.hi;
  }

  /** A scan of a range that is not free ends the call. */
  lemma {:induction false} BlockedTrace(f: nat -> State, s: State, t: nat, q: Ask, r: Range, k: nat,
                                        i: nat) returns (n: nat)
    requires Trace(f, t) && PcOk(Scanning(q, r, k), s.fields) && Blocked(s.bits, Range(FIELD * k, r.hi))
    requires f(i) == InCall(s, t, Scanning(q, r, k), s.bits)
    ensures k <= Last(r) && i < n <= i + Last(r) + 1 - k && f(n) == InCall(s, t, Idle, s.bits)
    decreases Last(r) + 1 - k
  {
    ScanSplit(s.bits, r, k);
    BehindIsFree(s.bits, r, k);
    var hit := Meets(Word(s.bits, k), MaskAt(r, k));
    var s1 := InCall(s, t, if hit then Idle else Scanning(q, r, k + 1), s.bits);
    ScanStep(s, t, q, r, k, s1);
    TurnTo(f, s, t, Scanning(q, r, k), s.bits, i, s1);
    if hit {
      n := i + 1;
    } else {
      n := BlockedTrace(f, s, t, q, r, k + 1, i + 1);
    }
  }

  lemma ReadFirstStep(s: State, t: nat, q: Ask, s1: State)
    requires s1 == InCall(s, t, Plan(s, q), s.bits)
    ensures Next(InCall(s, t, AcrossAsked(q), s.bits), ReadFirst(t)) == s1
  {
    PlaceIn(s, t, AcrossAsked(q), Plan(s, q), s.bits);
    SamePlan(s, InCall(s, t, AcrossAsked(q), s.bits), q);
  }

  lemma SamePlan(s: State, s': State, q: Ask)
    requires s'.bits == s.bits && s'.fields == s.fields
    ensures Plan(s', q) == Plan(s, q)
  {
  }

  /** The planned range is blocked exactly when it is behind its first field. */
  lemma PlannedRange(s: State, q: Ask, r: Range)
    requires q.count > 0 && q.idx < s.fields && q.retries <= 3 && Plan(s, q) == Scanning(q, r, q.idx + 1)
    ensures r.hi > 0 && First(r) == q.idx < Last(r) && PcOk(Scanning(q, r, q.idx + 1), s.fields)
    ensures Blocked(s.bits, r) <==> Blocked(s.bits, Range(FIELD * (q.idx + 1), r.hi))
  {
    PlanOk(s, q);
    CrossingLast(r);
    if Blocked(s.bits, r) {
      var p :| p in s.bits && In(p, r);
      assert In(p, Range(FIELD * (q.idx + 1), r.hi));
    }
    if Blocked(s.bits, Range(FIELD * (q.idx + 1), r.hi)) {
      var p :| p in s.bits && In(p, Range(FIELD * (q.idx + 1), r.hi));
      assert In(p, r);
    }
  }

  /** Alone, a claim across fields is granted exactly the range it plans when that is free, and otherwise
      ends with claims and bits as they were. */
  lemma AcrossCallAlone(f: nat -> State, s: State, t: nat, idx: nat, count: nat, r: Range) returns (n: nat)
    requires Trace(f, t) && At(s, t).Idle? && idx < s.fields && count > 0 && f(0) == Next(s, AskAcross(t, idx, count))
    requires Plan(s, Ask(idx, count, 0)) == Scanning(Ask(idx, count, 0), r, idx + 1)
    ensures r.hi > 0 && n <= 2 * (Last(r) - idx) + 4
    ensures f(n) == if Blocked(s.bits, r) then InCall(s, t, Idle, s.bits) else Done(s, t, s.bits + Span(r), r)
  {
    var q := Ask(idx, count, 0);
    PlannedRange(s, q, r);
    ReadFirstStep(s, t, q, InCall(s, t, Scanning(q, r, idx + 1), s.bits));
    TurnTo(f, s, t, AcrossAsked(q), s.bits, 0, InCall(s, t, Scanning(q, r, idx + 1), s.bits));
    if Blocked(s.bits, r) {
      n := BlockedTrace(f, s, t, q, r, idx + 1, 1);
    } else {
      assert s.bits + Span(Range(0, 0)) == s.bits;
      WayTrace(f, s, t, q, r, Scanning(q, r, idx + 1), 1);
      n := 2 + Left(Scanning(q, r, idx + 1));
    }
  }

  /** There is such a trace, and it is a run of the machine in which only `t` steps. */
  lemma SoloTrace(s: State, t: nat) returns (f: nat -> State)
    ensures Trace(f, t) && f(0) == s
    ensures forall n: nat :: exists acts: seq<Action> :: Run(s, acts) == f(n) && OnlyOf(acts, t)
  {
    f := (n: nat) => Solo(s, t, n);
    forall i: nat {:trigger Turn(i)}
      ensures !At(f(i), t).Idle? ==> f(i + 1) == Next(f(i), StepOf(At(f(i), t), t))
    {
      SoloLast(s, t, i);
    }
    forall n: nat
      ensures exists acts: seq<Action> :: Run(s, acts) == f(n) && OnlyOf(acts, t)
    {
      var acts := SoloIsRun(s, t, n);
    }
  }

  lemma {:induction false} SoloLast(s: State, t: nat, n: nat)
    ensures !At(Solo(s, t, n), t).Idle? ==> Solo(s, t, n + 1) == Next(Solo(s, t, n), StepOf(At(Solo(s, t, n), t), t))
    decreases n
  {
    if n > 0 && !At(s, t).Idle? {
      SoloLast(Next(s, StepOf(At(s, t), t)), t, n - 1);
    }
  }

  // ----- a roll back and a release, alone

  lemma StoreStep(s: State, t: nat, q: Ask, r: Range, k: nat, bits: set<nat>, s1: State)
    requires First(r) + 1 < k
    requires s1 == InCall(s, t, RollBack(q, r, k - 1), bits - Span(Range(FIELD * (k - 1), FIELD * k)))
    ensures Next(InCall(s, t, RollBack(q, r, k), bits), StoreMiddle(t)) == s1
  {
    PlaceIn(s, t, RollBack(q, r, k), RollBack(q, r, k - 1), bits);
  }

  lemma LoadRollStep(s: State, t: nat, q: Ask, r: Range, bits: set<nat>, s1: State)
    requires s1 == InCall(s, t, RollInitialLoaded(q, r, Word(bits, First(r))), bits)
    ensures Next(InCall(s, t, RollBack(q, r, First(r) + 1), bits), LoadRoll(t)) == s1
  {
    PlaceIn(s, t, RollBack(q, r, First(r) + 1), RollInitialLoaded(q, r, Word(bits, First(r))), bits);
  }

  lemma CasRollStep(s: State, t: nat, q: Ask, r: Range, bits: set<nat>, s1: State)
    requires s1 == InCall(s, t, Again(q), bits - Span(InitialMask(r)))
    ensures Next(InCall(s, t, RollInitialLoaded(q, r, Word(bits, First(r))), bits), CasRoll(t)) == s1
  {
    PlaceIn(s, t, RollInitialLoaded(q, r, Word(bits, First(r))), Again(q), bits);
  }

  lemma SpanCut(bits: set<nat>, a: nat, b: nat, c: nat)
    requires a <= b <= c
    ensures bits - Span(Range(b, c)) - Span(Range(a, b)) == bits - Span(Range(a, c))
  {
    assert forall p :: p in Span(Range(a, c)) <==> p in Span(Range(a, b)) || p in Span(Range(b, c));
  }

  /** Alone, a roll back ends, with exactly the bits cleared that the claim had set, and the claim is tried
      again or has failed. */
  lemma {:induction false} RollBackAlone(f: nat -> State, s: State, t: nat, q: Ask, r: Range, k: nat, bits: set<nat>,
                                         i: nat)
    requires Trace(f, t) && PcOk(RollBack(q, r, k), s.fields) && f(i) == InCall(s, t, RollBack(q, r, k), bits)
    ensures f(i + (k - First(r)) + 1) == InCall(s, t, Again(q), bits - Span(Range(r.lo, FIELD * k)))
    decreases k
  {
    if k > First(r) + 1 {
      var bits1 := bits - Span(Range(FIELD * (k - 1), FIELD * k));
      var s1 := InCall(s, t, RollBack(q, r, k - 1), bits1);
      StoreStep(s, t, q, r, k, bits, s1);
      TurnTo(f, s, t, RollBack(q, r, k), bits, i, s1);
      RollBackAlone(f, s, t, q, r, k - 1, bits1, i + 1);
      SpanCut(bits, r.lo, FIELD * (k - 1), FIELD * k);
    } else {
      var loaded := RollInitialLoaded(q, r, Word(bits, First(r)));
      var s2 := InCall(s, t, Again(q), bits - Span(InitialMask(r)));
      LoadRollStep(s, t, q, r, bits, InCall(s, t, loaded, bits));
      TurnTo(f, s, t, RollBack(q, r, k), bits, i, InCall(s, t, loaded, bits));
      CasRollStep(s, t, q, r, bits, s2);
      TurnTo(f, s, t, loaded, bits, i + 1, s2);
    }
  }

  lemma ClearStep(s: State, t: nat, r: Range, bits: set<nat>, s1: State)
    requires r.lo < r.hi
    requires var cut := FIELD * (First(r) + 1);
             s1 == if cut < r.hi then InCall(s, t, Releasing(Range(cut, r.hi)), bits - Span(Range(r.lo, cut)))
                   else InCall(s, t, Idle, bits - Span(r))
    ensures Next(InCall(s, t, Releasing(r), bits), ClearField(t)) == s1
  {
    var cut := FIELD * (First(r) + 1);
    PlaceIn(s, t, Releasing(r), if cut < r.hi then Releasing(Range(cut, r.hi)) else Idle, bits);
  }

  /** Alone, a release ends, with exactly the range's bits cleared. */
  lemma {:induction false} ReleaseAlone(f: nat -> State, s: State, t: nat, r: Range, bits: set<nat>,
                                        i: nat) returns (n: nat)
    requires Trace(f, t) && r.lo < r.hi && f(i) == InCall(s, t, Releasing(r), bits)
    ensures i < n <= i + (r.hi - r.lo) && f(n) == InCall(s, t, Idle, bits - Span(r))
    decreases r.hi - r.lo
  {
    var cut := FIELD * (First(r) + 1);
    assert r.lo < cut;
    if cut < r.hi {
      var rest, bits1 := Range(cut, r.hi), bits - Span(Range(r.lo, cut));
      var s1 := InCall(s, t, Releasing(rest), bits1);
      ClearStep(s, t, r, bits, s1);
      TurnTo(f, s, t, Releasing(r), bits, i, s1);
      n := ReleaseAlone(f, s, t, rest, bits1, i + 1);
      SpanCutFront(bits, r.lo, cut, r.hi);
    } else {
      var s1 := InCall(s, t, Idle, bits - Span(r));
      ClearStep(s, t, r, bits, s1);
      TurnTo(f, s, t, Releasing(r), bits, i, s1);
      n := i + 1;
    }
  }

  lemma SpanCutFront(bits: set<nat>, a: nat, b: nat, c: nat)
    requires a <= b <= c
    ensures bits - Span(Range(a, b)) - Span(Range(b, c)) == bits - Span(Range(a, c))
  {
    assert forall p :: p in Span(Range(a, c)) <==> p in Span(Range(a, b)) || p in Span(Range(b, c));
  }
}
