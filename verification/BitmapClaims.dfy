/** The concurrent bitmap of mimalloc: claims of bit ranges inside one field or across several,
    roll back of failed claims, and releases, as atomic steps of any number of threads.

    A field is a 64-bit word, here the set of its one bits; bit `b` of field `f` is position
    `64 * f + b`, so every range is an interval of positions. */
module BitmapClaims {
  import BitmapFields
  import opened Lists

  const FIELD: nat := BitmapFields.BITS

  /** The positions from `lo` up to but not including `hi`. */
  datatype Range = Range(lo: nat, hi: nat)

  predicate In(p: nat, r: Range) {
    r.lo <= p < r.hi
  }

  function Span(r: Range): set<nat> {
    set p: nat | p < r.hi && In(p, r)
  }

  /** The word at field `f`. */
  function Word(bits: set<nat>, f: nat): set<nat> {
    set p | p in bits && FIELD * f <= p < FIELD * (f + 1)
  }

  /** A planned claim across fields: it starts in the zero tail of its first field and ends in a
      later one. */
  function First(r: Range): nat {
    r.lo / FIELD
  }

  function Last(r: Range): nat
    requires r.hi > 0
  {
    (r.hi - 1) / FIELD
  }

  predicate Crossing(r: Range) {
    r.lo < FIELD * (First(r) + 1) < r.hi
  }

  function InitialMask(r: Range): Range {
    Range(r.lo, FIELD * (First(r) + 1))
  }

  function FinalMask(r: Range): Range
    requires r.hi > 0
  {
    Range(FIELD * Last(r), r.hi)
  }

  /** A claim of `count` bits from the zero tail of field `idx` on; `retries` counts its attempts. */
  datatype Ask = Ask(idx: nat, count: nat, retries: nat)

  /** Where a thread stands inside a claim or a release; `across` tells that a claim across fields has
      been left to the search of one. */
  datatype Pc =
    | Idle
    | AcrossAsked(q: Ask)
    | Scanning(q: Ask, r: Range, k: nat)
    | InitialLoaded(q: Ask, r: Range, seen: set<nat>)
    | Middle(q: Ask, r: Range, k: nat)
    | FinalLoaded(q: Ask, r: Range, seen: set<nat>)
    | RollBack(q: Ask, r: Range, k: nat)
    | RollInitialLoaded(q: Ask, r: Range, seen: set<nat>)
    | FieldAsked(f: nat, count: nat, across: bool)
    | FieldLoaded(f: nat, count: nat, across: bool, from: nat, seen: set<nat>)
    | Releasing(r: Range)

  /** `claims` are the ranges handed out and not yet given back. */
  datatype State = State(fields: nat, bits: set<nat>, pcs: map<nat, Pc>, claims: map<nat, Range>, next: nat)

  datatype Action =
    | AskAcross(t: nat, idx: nat, count: nat)
    | ReadFirst(t: nat)
    | ScanField(t: nat)
    | LoadInitial(t: nat)
    | CasInitial(t: nat)
    | CasMiddle(t: nat)
    | LoadFinal(t: nat)
    | CasFinal(t: nat)
    | StoreMiddle(t: nat)
    | LoadRoll(t: nat)
    | CasRoll(t: nat)
    | AskField(t: nat, f: nat, count: nat)
    | LoadField(t: nat)
    | CasField(t: nat)
    | BeginRelease(t: nat, id: nat)
    | ClearField(t: nat)

  function At(s: State, t: nat): Pc {
    if t in s.pcs then s.pcs[t] else Idle
  }

  function Go(s: State, t: nat, pc: Pc): State {
    s.(pcs := s.pcs[t := pc])
  }

  /** Zero bits at the top of field `f`. */
  function LeadingZeros(bits: set<nat>, f: nat, n: nat): (z: nat)
    requires n <= FIELD
    ensures FIELD - n <= z <= FIELD
  {
    if n == 0 || FIELD * f + n - 1 in bits then FIELD - n else LeadingZeros(bits, f, n - 1)
  }

  /** The last CAS sets `mask` and the whole range `r` is handed out. */
  function Grant(s: State, t: nat, r: Range, mask: Range): State {
    Go(s, t, Idle).(bits := s.bits + Span(mask), claims := s.claims[s.next := r], next := s.next + 1)
  }

  predicate Meets(word: set<nat>, r: Range) {
    exists p :: p in word && In(p, r)
  }

  /** The part of a range in field `k`, one past its first field. */
  function MaskAt(r: Range, k: nat): Range {
    Range(FIELD * k, if r.hi < FIELD * (k + 1) then r.hi else FIELD * (k + 1))
  }

  function FieldRange(f: nat, count: nat, bit: nat): Range {
    Range(FIELD * f + bit, FIELD * f + bit + count)
  }

  /** The lowest position from `bit` on where a word has `count` zeros. */
  function FreeFrom(word: set<nat>, f: nat, count: nat, bit: nat): Option<nat>
    decreases FIELD - bit
  {
    if bit + count > FIELD || bit >= FIELD then None
    else if !Meets(word, FieldRange(f, count, bit)) then Some(bit)
    else FreeFrom(word, f, count, bit + 1)
  }

  /** After a roll back the claim is tried again, up to three times. */
  function Again(q: Ask): Pc {
    if q.retries <= 2 then AcrossAsked(q.(retries := q.retries + 1)) else Idle
  }

  /** The first read of a claim across fields. */
  function Plan(s: State, q: Ask): Pc {
    var initial := LeadingZeros(s.bits, q.idx, FIELD);
    var lo := FIELD * (q.idx + 1) - initial;
    if initial == 0 then Idle
    else if initial >= q.count then FieldAsked(q.idx, q.count, true)
    else if lo + q.count > FIELD * s.fields then Idle
    else Scanning(q, Range(lo, lo + q.count), q.idx + 1)
  }

  function Next(s: State, a: Action): State {
    var pc := At(s, a.t);
    match a
    case AskAcross(t, idx, count) =>
      if pc.Idle? && idx < s.fields && count > 0 then Go(s, t, AcrossAsked(Ask(idx, count, 0))) else s
    case ReadFirst(t) =>
      if pc.AcrossAsked? then Go(s, t, Plan(s, pc.q)) else s
    case ScanField(t) =>
      if !pc.Scanning? || pc.r.hi == 0 || pc.k > Last(pc.r) then s
      else if Meets(Word(s.bits, pc.k), MaskAt(pc.r, pc.k)) then Go(s, t, Idle)
      else Go(s, t, Scanning(pc.q, pc.r, pc.k + 1))
    case LoadInitial(t) =>
      if !pc.Scanning? || pc.r.hi == 0 || pc.k <= Last(pc.r) then s
      else Go(s, t, InitialLoaded(pc.q, pc.r, Word(s.bits, First(pc.r))))
    case CasInitial(t) =>
      if !pc.InitialLoaded? then s
      else if Meets(pc.seen, InitialMask(pc.r)) then Go(s, t, Again(pc.q))
      else if Word(s.bits, First(pc.r)) == pc.seen then
        Go(s, t, Middle(pc.q, pc.r, First(pc.r) + 1)).(bits := s.bits + Span(InitialMask(pc.r)))
      else Go(s, t, InitialLoaded(pc.q, pc.r, Word(s.bits, First(pc.r))))
    case CasMiddle(t) =>
      if !pc.Middle? || pc.r.hi == 0 || pc.k >= Last(pc.r) then s
      else if Word(s.bits, pc.k) == {} then
        Go(s, t, Middle(pc.q, pc.r, pc.k + 1)).(bits := s.bits + Span(Range(FIELD * pc.k, FIELD * (pc.k + 1))))
      else Go(s, t, RollBack(pc.q, pc.r, pc.k))
    case LoadFinal(t) =>
      if !pc.Middle? || pc.r.hi == 0 || pc.k != Last(pc.r) then s
      else Go(s, t, FinalLoaded(pc.q, pc.r, Word(s.bits, Last(pc.r))))
    case CasFinal(t) =>
      if !pc.FinalLoaded? || pc.r.hi == 0 then s
      else if Meets(pc.seen, FinalMask(pc.r)) then Go(s, t, RollBack(pc.q, pc.r, Last(pc.r)))
      else if Word(s.bits, Last(pc.r)) == pc.seen then Grant(s, t, pc.r, FinalMask(pc.r))
      else Go(s, t, FinalLoaded(pc.q, pc.r, Word(s.bits, Last(pc.r))))
    case StoreMiddle(t) =>
      if !pc.RollBack? || pc.k <= First(pc.r) + 1 then s
      else Go(s, t, RollBack(pc.q, pc.r, pc.k - 1)).(bits := s.bits - Span(Range(FIELD * (pc.k - 1), FIELD * pc.k)))
    case LoadRoll(t) =>
      if !pc.RollBack? || pc.k != First(pc.r) + 1 then s
      else Go(s, t, RollInitialLoaded(pc.q, pc.r, Word(s.bits, First(pc.r))))
    case CasRoll(t) =>
      if !pc.RollInitialLoaded? then s
      else if Word(s.bits, First(pc.r)) == pc.seen then
        Go(s, t, Again(pc.q)).(bits := s.bits - Span(InitialMask(pc.r)))
      else Go(s, t, RollInitialLoaded(pc.q, pc.r, Word(s.bits, First(pc.r))))
    case AskField(t, f, count) =>
      if pc.Idle? && f < s.fields && 0 < count <= FIELD then Go(s, t, FieldAsked(f, count, false)) else s
    case LoadField(t) =>
      if pc.FieldAsked? then Go(s, t, FieldLoaded(pc.f, pc.count, pc.across, 0, Word(s.bits, pc.f))) else s
    case CasField(t) =>
      if !pc.FieldLoaded? then s
      else
        var bit := FreeFrom(pc.seen, pc.f, pc.count, pc.from);
        if bit.None? then Go(s, t, Idle)
        else
          var r := FieldRange(pc.f, pc.count, bit.value);
          if Word(s.bits, pc.f) == pc.seen then Grant(s, t, r, r)
          else Go(s, t, FieldLoaded(pc.f, pc.count, pc.across, bit.value, Word(s.bits, pc.f)))
    case BeginRelease(t, id) =>
      if pc.Idle? && id in s.claims then Go(s, t, Releasing(s.claims[id])).(claims := s.claims - {id}) else s
    case ClearField(t) =>
      if !pc.Releasing? then s
      else
        var cut := FIELD * (First(pc.r) + 1);
        if cut < pc.r.hi then Go(s, t, Releasing(Range(cut, pc.r.hi))).(bits := s.bits - Span(Range(pc.r.lo, cut)))
        else Go(s, t, Idle).(bits := s.bits - Span(pc.r))
  }

  function Run(s: State, acts: seq<Action>): State
    decreases |acts|
  {
    if acts == [] then s else Run(Next(s, acts[0]), acts[1..])
  }

  function Empty(fields: nat): State {
    State(fields, {}, map[], map[], 0)
  }

  // ----- who holds which bits

  datatype Holder = Thread(t: nat) | Claim(id: nat)

  /** The bits a thread has set and not yet given back. */
  function HeldAt(pc: Pc): Range {
    match pc
    case Middle(_, r, k) => Range(r.lo, FIELD * k)
    case FinalLoaded(_, r, _) => if r.hi > 0 then Range(r.lo, FIELD * Last(r)) else Range(0, 0)
    case RollBack(_, r, k) => Range(r.lo, FIELD * k)
    case RollInitialLoaded(_, r, _) => InitialMask(r)
    case Releasing(r) => r
    case _ => Range(0, 0)
  }

  function Held(s: State, h: Holder): Range {
    match h
    case Thread(t) => HeldAt(At(s, t))
    case Claim(id) => if id in s.claims then s.claims[id] else Range(0, 0)
  }

  /** Every set bit has exactly one holder, and every held bit is set. */
  ghost predicate Covered(s: State) {
    && (forall h, p :: In(p, Held(s, h)) ==> p in s.bits)
    && (forall p :: p in s.bits ==> exists h :: In(p, Held(s, h)))
    && (forall h, g, p :: In(p, Held(s, h)) && In(p, Held(s, g)) ==> h == g)
  }

  /** The range planned for what was asked: that many bits, beginning in that field, crossing into later
      ones, inside the `n` fields. */
  predicate Plans(q: Ask, r: Range, n: nat) {
    Crossing(r) && r.hi == r.lo + q.count <= FIELD * n && First(r) == q.idx && q.retries <= 3
  }

  predicate PcOk(pc: Pc, n: nat) {
    match pc
    case Idle => true
    case AcrossAsked(q) => q.count > 0 && q.idx < n && q.retries <= 3
    case Scanning(q, r, k) => Plans(q, r, n) && First(r) < k <= Last(r) + 1
    case InitialLoaded(q, r, _) => Plans(q, r, n)
    case Middle(q, r, k) => Plans(q, r, n) && First(r) < k <= Last(r)
    case FinalLoaded(q, r, _) => Plans(q, r, n)
    case RollBack(q, r, k) => Plans(q, r, n) && First(r) < k <= Last(r)
    case RollInitialLoaded(q, r, _) => Plans(q, r, n)
    case FieldAsked(f, count, _) => f < n && 0 < count <= FIELD
    case FieldLoaded(f, count, _, _, _) => f < n && 0 < count <= FIELD
    case Releasing(r) => r.lo < r.hi <= FIELD * n
  }

  ghost predicate Inv(s: State) {
    && Covered(s) && (forall t :: PcOk(At(s, t), s.fields))
    && (forall id :: id in s.claims ==> id < s.next && s.claims[id].lo < s.claims[id].hi <= FIELD * s.fields)
  }

  /** Holder `h` takes the free bits `r` next to what it holds. */
  lemma Takes(s: State, s': State, h: Holder, r: Range)
    requires Covered(s) && s'.bits == s.bits + Span(r)
    requires forall p :: In(p, r) ==> p !in s.bits
    requires forall g :: g != h ==> Held(s', g) == Held(s, g)
    requires forall p :: In(p, Held(s', h)) <==> In(p, Held(s, h)) || In(p, r)
    ensures Covered(s')
  {
    forall p | p in s'.bits
      ensures exists g :: In(p, Held(s', g))
    {
      if p in s.bits {
        var g :| In(p, Held(s, g));
        assert In(p, Held(s', g));
      } else {
        assert In(p, Held(s', h));
      }
    }
  }

  /** Holder `h` gives back the bits `r` it holds. */
  lemma Gives(s: State, s': State, h: Holder, r: Range)
    requires Covered(s) && s'.bits == s.bits - Span(r)
    requires forall p :: In(p, r) ==> In(p, Held(s, h))
    requires forall g :: g != h ==> Held(s', g) == Held(s, g)
    requires forall p :: In(p, Held(s', h)) <==> In(p, Held(s, h)) && !In(p, r)
    ensures Covered(s')
  {
    forall p | p in s'.bits
      ensures exists g :: In(p, Held(s', g))
    {
      var g :| In(p, Held(s, g));
      assert In(p, Held(s', g));
    }
  }

  /** Everything holder `g` has passes to `h`, which had nothing. */
  lemma Passes(s: State, s': State, g: Holder, h: Holder)
    requires Covered(s) && s'.bits == s.bits && g != h
    requires forall f :: f != g && f != h ==> Held(s', f) == Held(s, f)
    requires forall p :: !In(p, Held(s', g)) && !In(p, Held(s, h))
    requires forall p :: In(p, Held(s', h)) <==> In(p, Held(s, g))
    ensures Covered(s')
  {
    forall p | p in s'.bits
      ensures exists f :: In(p, Held(s', f))
    {
      var f :| In(p, Held(s, f));
      assert In(p, Held(s', if f == g then h else f));
    }
  }

  // ----- every step keeps the cover

  lemma PcsKept(s: State, s': State, t: nat, pc: Pc)
    requires (forall u :: PcOk(At(s, u), s.fields)) && PcOk(pc, s.fields)
    requires s'.pcs == s.pcs[t := pc] && s'.fields == s.fields
    ensures forall u :: PcOk(At(s', u), s'.fields)
  {
    forall u
      ensures PcOk(At(s', u), s'.fields)
    {
      assert u != t ==> At(s', u) == At(s, u);
    }
  }

  /** A step of `t` that changes neither bits nor holdings. */
  lemma Idles(s: State, t: nat, pc: Pc)
    requires Inv(s) && PcOk(pc, s.fields)
    requires forall p :: In(p, HeldAt(pc)) <==> In(p, HeldAt(At(s, t)))
    ensures Inv(Go(s, t, pc))
  {
    var s' := Go(s, t, pc);
    assert forall h, p :: In(p, Held(s', h)) <==> In(p, Held(s, h)) by {
      forall h, p
        ensures In(p, Held(s', h)) <==> In(p, Held(s, h))
      {
        if h.Thread? && h.t == t {
        } else {
          assert Held(s', h) == Held(s, h);
        }
      }
    }
    SameHolders(s, s');
    PcsKept(s, s', t, pc);
  }

  lemma SameHolders(s: State, s': State)
    requires Covered(s) && s'.bits == s.bits && forall h, p :: In(p, Held(s', h)) <==> In(p, Held(s, h))
    ensures Covered(s')
  {
    forall p | p in s'.bits
      ensures exists h :: In(p, Held(s', h))
    {
      var h :| In(p, Held(s, h));
      assert In(p, Held(s', h));
    }
  }

  lemma Grows(s: State, t: nat, pc: Pc, r: Range)
    requires Inv(s) && PcOk(pc, s.fields) && forall p :: In(p, r) ==> p !in s.bits
    requires forall p :: In(p, HeldAt(pc)) <==> In(p, HeldAt(At(s, t))) || In(p, r)
    ensures Inv(Go(s, t, pc).(bits := s.bits + Span(r)))
  {
    var s' := Go(s, t, pc).(bits := s.bits + Span(r));
    Takes(s, s', Thread(t), r);
    PcsKept(s, s', t, pc);
  }

  lemma Shrinks(s: State, t: nat, pc: Pc, r: Range)
    requires Inv(s) && PcOk(pc, s.fields) && forall p :: In(p, r) ==> In(p, HeldAt(At(s, t)))
    requires forall p :: In(p, HeldAt(pc)) <==> In(p, HeldAt(At(s, t))) && !In(p, r)
    ensures Inv(Go(s, t, pc).(bits := s.bits - Span(r)))
  {
    var s' := Go(s, t, pc).(bits := s.bits - Span(r));
    Gives(s, s', Thread(t), r);
    PcsKept(s, s', t, pc);
  }

  /** The free tail and head of words seen unchanged are free. */
  lemma WordFree(bits: set<nat>, f: nat, r: Range)
    requires !Meets(Word(bits, f), r) && FIELD * f <= r.lo && r.hi <= FIELD * (f + 1)
    ensures forall p :: In(p, r) ==> p !in bits
  {
    forall p | In(p, r)
      ensures p !in bits
    {
      assert p in Word(bits, f) <==> p in bits;
    }
  }

  lemma GrantKeeps(s: State, t: nat, r: Range, taken: Range)
    requires Inv(s) && r.lo < r.hi <= FIELD * s.fields && forall p :: In(p, taken) ==> p !in s.bits
    requires forall p :: In(p, r) <==> In(p, HeldAt(At(s, t))) || In(p, taken)
    ensures Inv(Grant(s, t, r, taken))
  {
    var s1 := Go(s, t, Releasing(r)).(bits := s.bits + Span(taken));
    Grows(s, t, Releasing(r), taken);
    var s' := Grant(s, t, r, taken);
    Passes(s1, s', Thread(t), Claim(s.next));
    PcsKept(s, s', t, Idle);
  }

  /** The top zeros of a field lie between its last one and its end. */
  lemma {:induction false} ZeroTail(bits: set<nat>, f: nat, n: nat)
    requires n <= FIELD && forall p :: FIELD * f + n <= p < FIELD * (f + 1) ==> p !in bits
    ensures var lo := FIELD * (f + 1) - LeadingZeros(bits, f, n);
            && FIELD * f <= lo <= FIELD * (f + 1) && (forall p :: lo <= p < FIELD * (f + 1) ==> p !in bits)
            && (lo > FIELD * f ==> lo - 1 in bits)
  {
    if n > 0 && FIELD * f + n - 1 !in bits {
      ZeroTail(bits, f, n - 1);
    }
  }

  /** What the first read plans is the whole zero tail of its field and as many bits of the next ones as
      are missing. */
  lemma PlanOk(s: State, q: Ask)
    requires q.count > 0 && q.idx < s.fields && q.retries <= 3
    ensures PcOk(Plan(s, q), s.fields) && HeldAt(Plan(s, q)) == Range(0, 0)
    ensures Plan(s, q).Scanning? ==>
              var r := Plan(s, q).r;
              && r.hi == r.lo + q.count && (forall p :: r.lo <= p < FIELD * (q.idx + 1) ==> p !in s.bits)
              && (r.lo > FIELD * q.idx ==> r.lo - 1 in s.bits)
  {
    ZeroTail(s.bits, q.idx, FIELD);
    var lo := FIELD * (q.idx + 1) - LeadingZeros(s.bits, q.idx, FIELD);
    assert lo < FIELD * (q.idx + 1) ==> lo / FIELD == q.idx;
  }

  lemma PlanStepKeeps(s: State, a: Action)
    requires Inv(s) && (a.AskAcross? || a.ReadFirst? || a.ScanField? || a.LoadInitial?)
    ensures Inv(Next(s, a))
  {
    var pc := At(s, a.t);
    assert PcOk(pc, s.fields);
    match a
    case AskAcross(t, idx, count) =>
      if pc.Idle? && idx < s.fields && count > 0 {
        Idles(s, t, AcrossAsked(Ask(idx, count, 0)));
      }
    case ReadFirst(t) =>
      if pc.AcrossAsked? {
        PlanOk(s, pc.q);
        Idles(s, t, Plan(s, pc.q));
      }
    case ScanField(t) =>
      if pc.Scanning? && pc.k <= Last(pc.r) {
        if Meets(Word(s.bits, pc.k), MaskAt(pc.r, pc.k)) {
          Idles(s, t, Idle);
        } else {
          Idles(s, t, Scanning(pc.q, pc.r, pc.k + 1));
        }
      }
    case LoadInitial(t) =>
      if pc.Scanning? && pc.k > Last(pc.r) {
        Idles(s, t, InitialLoaded(pc.q, pc.r, Word(s.bits, First(pc.r))));
      }
  }

  lemma CasInitialKeeps(s: State, t: nat)
    requires Inv(s)
    ensures Inv(Next(s, CasInitial(t)))
  {
    var pc := At(s, t);
    assert PcOk(pc, s.fields);
    if pc.InitialLoaded? {
      if Meets(pc.seen, InitialMask(pc.r)) {
        Idles(s, t, Again(pc.q));
      } else if Word(s.bits, First(pc.r)) == pc.seen {
        WordFree(s.bits, First(pc.r), InitialMask(pc.r));
        Grows(s, t, Middle(pc.q, pc.r, First(pc.r) + 1), InitialMask(pc.r));
      } else {
        Idles(s, t, InitialLoaded(pc.q, pc.r, Word(s.bits, First(pc.r))));
      }
    }
  }

  lemma CasMiddleKeeps(s: State, t: nat)
    requires Inv(s)
    ensures Inv(Next(s, CasMiddle(t)))
  {
    var pc := At(s, t);
    assert PcOk(pc, s.fields);
    if pc.Middle? && pc.k < Last(pc.r) {
      if Word(s.bits, pc.k) == {} {
        var r := Range(FIELD * pc.k, FIELD * (pc.k + 1));
        WordFree(s.bits, pc.k, r);
        Grows(s, t, Middle(pc.q, pc.r, pc.k + 1), r);
      } else {
        Idles(s, t, RollBack(pc.q, pc.r, pc.k));
      }
    }
  }

  lemma CasFinalKeeps(s: State, t: nat)
    requires Inv(s)
    ensures Inv(Next(s, CasFinal(t)))
  {
    var pc := At(s, t);
    assert PcOk(pc, s.fields);
    if pc.FinalLoaded? {
      if Meets(pc.seen, FinalMask(pc.r)) {
        Idles(s, t, RollBack(pc.q, pc.r, Last(pc.r)));
      } else if Word(s.bits, Last(pc.r)) == pc.seen {
        WordFree(s.bits, Last(pc.r), FinalMask(pc.r));
        GrantKeeps(s, t, pc.r, FinalMask(pc.r));
      } else {
        Idles(s, t, FinalLoaded(pc.q, pc.r, Word(s.bits, Last(pc.r))));
      }
    }
  }

  /** The search finds the lowest run of zeros from `bit` on, and none exactly when there is none. */
  lemma {:induction false} FreeFromIs(word: set<nat>, f: nat, count: nat, bit: nat)
    requires count > 0
    ensures var found := FreeFrom(word, f, count, bit);
            var stop := if found.Some? then found.value else FIELD;
            && (found.Some? ==> bit <= stop && stop + count <= FIELD && !Meets(word, FieldRange(f, count, stop)))
            && forall b :: bit <= b < stop && b + count <= FIELD ==> Meets(word, FieldRange(f, count, b))
    decreases FIELD - bit
  {
    if bit + count <= FIELD && Meets(word, FieldRange(f, count, bit)) {
      FreeFromIs(word, f, count, bit + 1);
    }
  }

  lemma CasFieldKeeps(s: State, t: nat)
    requires Inv(s)
    ensures Inv(Next(s, CasField(t)))
  {
    var pc := At(s, t);
    assert PcOk(pc, s.fields);
    if pc.FieldLoaded? {
      FreeFromIs(pc.seen, pc.f, pc.count, pc.from);
      var bit := FreeFrom(pc.seen, pc.f, pc.count, pc.from);
      if bit.None? {
        Idles(s, t, Idle);
      } else if Word(s.bits, pc.f) == pc.seen {
        var r := FieldRange(pc.f, pc.count, bit.value);
        WordFree(s.bits, pc.f, r);
        GrantKeeps(s, t, r, r);
      } else {
        Idles(s, t, FieldLoaded(pc.f, pc.count, pc.across, bit.value, Word(s.bits, pc.f)));
      }
    }
  }

  /** Loads change nothing but the thread's own view. */
  lemma LoadStepKeeps(s: State, a: Action)
    requires Inv(s) && (a.LoadFinal? || a.AskField? || a.LoadField?)
    ensures Inv(Next(s, a))
  {
    var pc := At(s, a.t);
    assert PcOk(pc, s.fields);
    match a
    case LoadFinal(t) =>
      if pc.Middle? && pc.k == Last(pc.r) {
        Idles(s, t, FinalLoaded(pc.q, pc.r, Word(s.bits, Last(pc.r))));
      }
    case AskField(t, f, count) =>
      if pc.Idle? && f < s.fields && 0 < count <= FIELD {
        Idles(s, t, FieldAsked(f, count, false));
      }
    case LoadField(t) =>
      if pc.FieldAsked? {
        Idles(s, t, FieldLoaded(pc.f, pc.count, pc.across, 0, Word(s.bits, pc.f)));
      }
  }

  /** The plain store of zero in a roll back is safe: the thread holds that whole field. */
  lemma ReturnStepKeeps(s: State, a: Action)
    requires Inv(s) && (a.StoreMiddle? || a.LoadRoll? || a.CasRoll?)
    ensures Inv(Next(s, a))
  {
    var pc := At(s, a.t);
    assert PcOk(pc, s.fields);
    match a
    case StoreMiddle(t) =>
      if pc.RollBack? && pc.k > First(pc.r) + 1 {
        Shrinks(s, t, RollBack(pc.q, pc.r, pc.k - 1), Range(FIELD * (pc.k - 1), FIELD * pc.k));
      }
    case LoadRoll(t) =>
      if pc.RollBack? && pc.k == First(pc.r) + 1 {
        Idles(s, t, RollInitialLoaded(pc.q, pc.r, Word(s.bits, First(pc.r))));
      }
    case CasRoll(t) =>
      if pc.RollInitialLoaded? {
        if Word(s.bits, First(pc.r)) == pc.seen {
          Shrinks(s, t, Again(pc.q), InitialMask(pc.r));
        } else {
          Idles(s, t, RollInitialLoaded(pc.q, pc.r, Word(s.bits, First(pc.r))));
        }
      }
  }

  lemma BeginReleaseKeeps(s: State, t: nat, id: nat)
    requires Inv(s)
    ensures Inv(Next(s, BeginRelease(t, id)))
  {
    if At(s, t).Idle? && id in s.claims {
      var s' := Next(s, BeginRelease(t, id));
      Passes(s, s', Claim(id), Thread(t));
      PcsKept(s, s', t, Releasing(s.claims[id]));
    }
  }

  lemma ClearFieldKeeps(s: State, t: nat)
    requires Inv(s)
    ensures Inv(Next(s, ClearField(t)))
  {
    var pc := At(s, t);
    assert PcOk(pc, s.fields);
    if pc.Releasing? {
      var cut := FIELD * (First(pc.r) + 1);
      if cut < pc.r.hi {
        Shrinks(s, t, Releasing(Range(cut, pc.r.hi)), Range(pc.r.lo, cut));
      } else {
        Shrinks(s, t, Idle, pc.r);
      }
    }
  }

  lemma StepKeeps(s: State, a: Action)
    requires Inv(s)
    ensures Inv(Next(s, a))
  {
    match a
    case CasInitial(t) => CasInitialKeeps(s, t);
    case CasMiddle(t) => CasMiddleKeeps(s, t);
    case CasFinal(t) => CasFinalKeeps(s, t);
    case CasField(t) => CasFieldKeeps(s, t);
    case BeginRelease(t, id) => BeginReleaseKeeps(s, t, id);
    case ClearField(t) => ClearFieldKeeps(s, t);
    case _ =>
      if a.LoadFinal? || a.AskField? || a.LoadField? {
        LoadStepKeeps(s, a);
      } else if a.AskAcross? || a.ReadFirst? || a.ScanField? || a.LoadInitial? {
        PlanStepKeeps(s, a);
      } else {
        ReturnStepKeeps(s, a);
      }
  }

  lemma {:induction false} RunKeeps(s: State, acts: seq<Action>)
    requires Inv(s)
    ensures Inv(Run(s, acts))
    decreases |acts|
  {
    if acts != [] {
      StepKeeps(s, acts[0]);
      RunKeeps(Next(s, acts[0]), acts[1..]);
    }
  }

  /** A step leaves the other threads where they are, and claims that it does not end. */
  lemma OthersStay(s: State, a: Action)
    ensures Next(s, a).fields == s.fields && forall u :: u != a.t ==> At(Next(s, a), u) == At(s, u)
    ensures forall id :: id in s.claims && id != s.next && !(a.BeginRelease? && id == a.id) ==>
              id in Next(s, a).claims && Next(s, a).claims[id] == s.claims[id]
  {
  }

  // ----- the claims

  /** In every interleaving, ranges handed out and not given back never overlap, their bits are
      all set, and no bit is set that is not accounted for by one claim or one running call. */
  lemma ClaimsNeverOverlap(fields: nat, acts: seq<Action>)
    ensures var s := Run(Empty(fields), acts);
            && Covered(s) && (forall p :: p in s.bits ==> p < FIELD * fields)
            && (forall id, p :: id in s.claims && In(p, s.claims[id]) ==> p in s.bits)
            && (forall i, j, p :: i in s.claims && j in s.claims && i != j && In(p, s.claims[i]) ==>
                                    !In(p, s.claims[j]))
  {
    var s0 := Empty(fields);
    assert forall h :: Held(s0, h) == Range(0, 0);
    RunKeeps(s0, acts);
    var s := Run(s0, acts);
    FieldsStay(s0, acts);
    forall p | p in s.bits
      ensures p < FIELD * fields
    {
      var h :| In(p, Held(s, h));
      HeldInside(s, h);
    }
    forall id, p | id in s.claims && In(p, s.claims[id])
      ensures p in s.bits
    {
      assert In(p, Held(s, Claim(id)));
    }
    forall i, j, p | i in s.claims && j in s.claims && i != j && In(p, s.claims[i])
      ensures !In(p, s.claims[j])
    {
      assert In(p, Held(s, Claim(i))) && Claim(i) != Claim(j);
      assert In(p, s.claims[j]) ==> In(p, Held(s, Claim(j)));
    }
  }

  lemma {:induction false} FieldsStay(s: State, acts: seq<Action>)
    ensures Run(s, acts).fields == s.fields
    decreases |acts|
  {
    if acts != [] {
      OthersStay(s, acts[0]);
      FieldsStay(Next(s, acts[0]), acts[1..]);
    }
  }

  lemma HeldInside(s: State, h: Holder)
    requires Inv(s)
    ensures Held(s, h).hi <= FIELD * s.fields
  {
    if h.Thread? {
      assert PcOk(At(s, h.t), s.fields);
    }
  }

  /** No step of `t` changes a bit that another thread or claim holds. */
  lemma OthersUntouched(s: State, a: Action, h: Holder, p: nat)
    requires Inv(s) && h != Thread(a.t) && In(p, Held(s, h)) && !(a.BeginRelease? && h == Claim(a.id))
    ensures In(p, Held(Next(s, a), h)) && p in Next(s, a).bits
  {
    StepKeeps(s, a);
    OthersStay(s, a);
    assert h.Claim? ==> h.id in s.claims && h.id < s.next;
    assert In(p, Held(Next(s, a), h));
  }

  // ----- a call that ends without a claim

  function One(b: bool): int {
    if b then 1 else 0
  }

  /** How often the steps of thread `t` in a run set the bit `p`, less how often they clear it. */
  function Balance(s: State, acts: seq<Action>, t: nat, p: nat): int
    decreases |acts|
  {
    if acts == [] then
      0
    else
      var s' := Next(s, acts[0]);
      (if acts[0].t == t then One(p in s'.bits) - One(p in s.bits) else 0) + Balance(s', acts[1..], t, p)
  }

  /** No step of `t` in the run obtains a claim or begins to give one back. */
  predicate Claimless(s: State, acts: seq<Action>, t: nat)
    decreases |acts|
  {
    acts == [] ||
    ((acts[0].t == t ==> Next(s, acts[0]).claims == s.claims) && Claimless(Next(s, acts[0]), acts[1..], t))
  }

  /** A step that leaves the claims alone changes exactly the bits by which its thread's holding
      changes. */
  lemma StepBalances(s: State, a: Action, p: nat)
    requires Inv(s) && Next(s, a).claims == s.claims
    ensures One(p in Next(s, a).bits) - One(p in s.bits)
         == One(In(p, Held(Next(s, a), Thread(a.t)))) - One(In(p, Held(s, Thread(a.t))))
  {
    StepKeeps(s, a);
    OthersHoldSame(s, a);
    HoldingsBalance(s, Next(s, a), Thread(a.t), p);
  }

  lemma OthersHoldSame(s: State, a: Action)
    requires Next(s, a).claims == s.claims
    ensures forall h :: h != Thread(a.t) ==> Held(Next(s, a), h) == Held(s, h)
  {
    OthersStay(s, a);
  }

  /** When all but one hold the same, the bits differ as that one's holding does. */
  lemma HoldingsBalance(s: State, s': State, h: Holder, p: nat)
    requires Covered(s) && Covered(s') && forall g :: g != h ==> Held(s', g) == Held(s, g)
    ensures One(p in s'.bits) - One(p in s.bits) == One(In(p, Held(s', h))) - One(In(p, Held(s, h)))
  {
    if g :| g != h && In(p, Held(s, g)) {
      assert In(p, Held(s', g));
    } else {
      assert p in s.bits <==> In(p, Held(s, h));
      assert p in s'.bits <==> In(p, Held(s', h));
    }
  }

  lemma {:induction false} RunBalances(s: State, acts: seq<Action>, t: nat, p: nat)
    requires Inv(s) && Claimless(s, acts, t)
    ensures Balance(s, acts, t, p) == One(In(p, Held(Run(s, acts), Thread(t)))) - One(In(p, Held(s, Thread(t))))
    decreases |acts|
  {
    if acts != [] {
      var s' := Next(s, acts[0]);
      StepKeeps(s, acts[0]);
      if acts[0].t == t {
        StepBalances(s, acts[0], p);
      } else {
        OthersStay(s, acts[0]);
      }
      RunBalances(s', acts[1..], t, p);
    }
  }

  /** In every interleaving a call that ends without a claim, however far it got before it rolled back,
      has cleared every bit exactly as often as it has set it. */
  lemma FailedClaimRestores(s: State, acts: seq<Action>, t: nat, p: nat)
    requires Inv(s) && Claimless(s, acts, t) && At(s, t).Idle? && At(Run(s, acts), t).Idle?
    ensures Balance(s, acts, t, p) == 0
  {
    RunBalances(s, acts, t, p);
  }

  predicate OnlyThread(acts: seq<Action>, t: nat) {
    forall i :: 0 <= i < |acts| ==> acts[i].t == t && !acts[i].BeginRelease?
  }

  lemma {:induction false} OthersHold(s: State, acts: seq<Action>, t: nat, u: nat)
    requires OnlyThread(acts, t) && u != t
    ensures At(Run(s, acts), u) == At(s, u)
    decreases |acts|
  {
    if acts != [] {
      OthersStay(s, acts[0]);
      OthersHold(Next(s, acts[0]), acts[1..], t, u);
    }
  }

  /** Alone, such a call leaves exactly the bits that were set before it. */
  lemma FailedCallAlone(s: State, acts: seq<Action>, t: nat)
    requires Inv(s) && OnlyThread(acts, t) && At(s, t).Idle?
    requires At(Run(s, acts), t).Idle? && Run(s, acts).claims == s.claims
    ensures Run(s, acts).bits == s.bits
  {
    var s' := Run(s, acts);
    RunKeeps(s, acts);
    forall h
      ensures Held(s', h) == Held(s, h)
    {
      if h.Thread? && h.t != t {
        OthersHold(s, acts, t, h.t);
      }
    }
    forall p
      ensures p in s.bits <==> p in s'.bits
    {
      if p in s.bits {
        var h :| In(p, Held(s, h));
        assert In(p, Held(s', h));
      }
      if p in s'.bits {
        var h :| In(p, Held(s', h));
        assert In(p, Held(s, h));
      }
    }
  }

  /** The same among other threads: whatever they did meanwhile, a thread whose call is over has left
      no bit behind; every set bit is accounted for by a claim or by another thread. */
  lemma EndedCallLeavesNothing(fields: nat, acts: seq<Action>, t: nat, p: nat) returns (h: Holder)
    requires At(Run(Empty(fields), acts), t).Idle? && p in Run(Empty(fields), acts).bits
    ensures h != Thread(t) && In(p, Held(Run(Empty(fields), acts), h))
  {
    ClaimsNeverOverlap(fields, acts);
    var s := Run(Empty(fields), acts);
    h :| In(p, Held(s, h));
    assert Held(s, Thread(t)) == Range(0, 0);
  }
}
