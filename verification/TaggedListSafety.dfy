/** Why the tagged list is safe: a name, a tag with a block, stands for one stay of the block in the
    list. The proof is for a machine whose frees draw a tag for every block of their chain, not only
    for its head; with chains of one block that is the code. */
module TaggedListSafety {
  import opened Lists
  import opened TaggedFreeList

  // ----- the machine that draws every tag

  /** A step of the code, or the write of one interior link of a chain being freed. */
  datatype Act = Plain(a: Action) | WriteLink(t: nat, i: nat)

  /** The names that a chain being freed will have in the list. */
  function Pending(pc: Pc): seq<Name>
    requires Pushing(pc)
  {
    seq(|pc.chain|, i requires 0 <= i < |pc.chain| => Name((pc.tag + i) % TAG_MODULUS, pc.chain[i]))
  }

  /** The interior links lead from each name to the next. */
  predicate Interlinked(mem: map<nat, Link>, pc: Pc)
    requires Pushing(pc)
  {
    forall i :: 0 <= i < |pc.chain| - 1 ==> pc.chain[i] in mem && mem[pc.chain[i]] == To(Pending(pc)[i + 1])
  }

  predicate MayFree(s: State, c: seq<nat>) {
    c != [] && Distinct(c) && forall b :: b in c ==> b in s.live
  }

  /** `BeginPush` draws as many tags as the chain has blocks, and the head is loaded once the interior
      links are written; all else is as in the code. */
  function DrawnNext(s: State, a: Act): State {
    match a
    case WriteLink(t, i) =>
      var pc := At(s, t);
      if pc.PushTagged? && i + 1 < |pc.chain| then s.(mem := s.mem[pc.chain[i] := To(Pending(pc)[i + 1])]) else s
    case Plain(BeginPush(t, chain)) =>
      if At(s, t).Idle? && MayFree(s, chain) then
        Go(s, t, PushTagged(chain, s.tags % TAG_MODULUS))
        .(tags := s.tags + |chain|, live := s.live - (set b | b in chain))
      else s
    case Plain(LoadForPush(t)) =>
      if At(s, t).PushTagged? && Interlinked(s.mem, At(s, t)) then Next(s, LoadForPush(t)) else s
    case Plain(b) => Next(s, b)
  }

  function DrawnStep(w: World, a: Act): World {
    World(DrawnNext(w.s, a), if a.Plain? then Observe(w.stack, EventOf(w.s, a.a)) else w.stack)
  }

  function DrawnRun(w: World, acts: seq<Act>): World
    decreases |acts|
  {
    if acts == [] then w else DrawnRun(DrawnStep(w, acts[0]), acts[1..])
  }

  // ----- invariant: a name stands for one stay of a block on the list

  /** A name a popping thread holds is still current, with the link it read, or is gone for good. */
  ghost predicate PopperOk(s: State, names: seq<Name>, pc: Pc) {
    Popping(pc) ==>
      && pc.seen.block in s.mem && pc.seen.tag < s.tags
      && (pc.PopRead? ==> forall i :: 0 <= i < |names| && names[i] == pc.seen ==> pc.next == LinkAt(names, i + 1))
  }

  /** A tag that the thread has drawn for its chain. */
  predicate Drew(pc: Pc, tag: nat) {
    Pushing(pc) && pc.tag <= tag < pc.tag + |pc.chain|
  }

  /** A thread that frees a chain holds tags no name on the list has, and its links are as written. */
  ghost predicate PusherOk(s: State, names: seq<Name>, pc: Pc) {
    Pushing(pc) ==>
      && pc.chain != [] && Distinct(pc.chain) && pc.tag + |pc.chain| <= s.tags
      && (forall i :: 0 <= i < |names| ==> !Drew(pc, names[i].tag))
      && (!pc.PushTagged? ==> Interlinked(s.mem, pc))
      && (pc.PushWritten? ==> var b := pc.chain[|pc.chain| - 1]; b in s.mem && s.mem[b] == pc.below)
  }

  /** A tag not yet pushed is held by one thread and was seen by none. */
  ghost predicate TagsApart(p: Pc, q: Pc) {
    Pushing(p) ==>
      && (Pushing(q) ==> p.tag + |p.chain| <= q.tag || q.tag + |q.chain| <= p.tag)
      && (Popping(q) ==> !Drew(p, q.seen.tag))
  }

  ghost predicate ThreadsOk(s: State, names: seq<Name>) {
    && (forall i :: 0 <= i < |names| ==> names[i].tag < s.tags)
    && (forall t {:trigger PopperOk(s, names, At(s, t))} {:trigger PusherOk(s, names, At(s, t))} ::
          PopperOk(s, names, At(s, t)) && PusherOk(s, names, At(s, t)))
    && (forall t, u {:trigger TagsApart(At(s, t), At(s, u))} :: t != u ==> TagsApart(At(s, t), At(s, u)))
  }

  ghost predicate Inv(s: State, names: seq<Name>) {
    Follows(s, names) && Conserved(s, names) && ThreadsOk(s, names) && s.tags <= TAG_MODULUS
  }

  function Blocks(names: seq<Name>): seq<nat> {
    seq(|names|, i requires 0 <= i < |names| => names[i].block)
  }

  function CreatedNames(n: nat): seq<Name> {
    seq(n, i requires 0 <= i < n => if i == 0 then Name(0, 0) else Name(i - 1, i))
  }

  lemma CreatedFollows(n: nat)
    requires n >= 2
    ensures Follows(Created(n).s, CreatedNames(n)) && ThreadsOk(Created(n).s, CreatedNames(n))
  {
    var s, names := Created(n).s, CreatedNames(n);
    assert forall t :: At(s, t) == Idle;
    forall i {:trigger names[i].block} | 0 <= i < |names|
      ensures names[i].block in s.mem && s.mem[names[i].block] == LinkAt(names, i + 1)
      ensures names[i].tag < s.tags && names[i].block == i
    {
      assert names[i] == if i == 0 then Name(0, 0) else Name(i - 1, i);
      assert s.mem[i] == CreatedLink(n, i);
    }
  }

  lemma CreatedConserved(n: nat)
    requires n >= 2
    ensures Conserved(Created(n).s, CreatedNames(n))
  {
    var s, names := Created(n).s, CreatedNames(n);
    forall b | b in s.mem
      ensures Listed(names, b)
    {
      assert names[b].block == b;
    }
  }

  // ----- what a step of one thread leaves of the others

  /** The list loses its head, or gains the names `added` in front. */
  ghost predicate Moves(names: seq<Name>, added: seq<Name>, names': seq<Name>) {
    names' == added + names || (added == [] && names != [] && names' == names[1..])
  }

  /** The thread has neither drawn nor seen the tags of these names. */
  ghost predicate Unaware(pc: Pc, added: seq<Name>) {
    forall i :: 0 <= i < |added| ==> !Drew(pc, added[i].tag) && (Popping(pc) ==> pc.seen.tag != added[i].tag)
  }

  /** Where a name of the new list was in the old one. */
  lemma NameMoved(names: seq<Name>, added: seq<Name>, names': seq<Name>, i: nat)
    requires Moves(names, added, names') && i < |names'|
    ensures names'[i] in added ||
            exists j :: 0 <= j < |names| && names'[i] == names[j] && LinkAt(names', i + 1) == LinkAt(names, j + 1)
  {
    if names' == added + names {
      if i < |added| {
        assert names'[i] == added[i];
      } else {
        var j := i - |added|;
        assert names'[i] == names[j];
        assert i + 1 < |names'| ==> names'[i + 1] == names[j + 1];
        assert LinkAt(names', i + 1) == LinkAt(names, j + 1);
      }
    } else {
      assert names'[i] == names[i + 1];
      assert i + 1 < |names'| ==> names'[i + 1] == names[i + 2];
      assert LinkAt(names', i + 1) == LinkAt(names, i + 2);
    }
  }

  lemma PopperKept(s: State, names: seq<Name>, added: seq<Name>, s': State, names': seq<Name>, pc: Pc)
    requires PopperOk(s, names, pc) && Moves(names, added, names') && Unaware(pc, added)
    requires s.tags <= s'.tags && s.mem.Keys <= s'.mem.Keys
    ensures PopperOk(s', names', pc)
  {
    if pc.PopRead? {
      forall i | 0 <= i < |names'| && names'[i] == pc.seen
        ensures pc.next == LinkAt(names', i + 1)
      {
        NameMoved(names, added, names', i);
      }
    }
  }

  lemma PusherKept(s: State, names: seq<Name>, added: seq<Name>, s': State, names': seq<Name>, pc: Pc)
    requires PusherOk(s, names, pc) && Moves(names, added, names') && Unaware(pc, added) && s.tags <= s'.tags
    requires Pushing(pc) ==> forall b :: b in pc.chain && b in s.mem ==> b in s'.mem && s'.mem[b] == s.mem[b]
    ensures PusherOk(s', names', pc)
  {
    forall i | 0 <= i < |names'|
      ensures !Drew(pc, names'[i].tag)
    {
      NameMoved(names, added, names', i);
    }
  }

  /** A step of thread `t` keeps what holds of the threads, given that it does for `t` and that the
      words and names the others rely on are kept. */
  lemma ThreadsKept(s: State, names: seq<Name>, added: seq<Name>, s': State, names': seq<Name>, t: nat)
    requires ThreadsOk(s, names) && s.tags <= s'.tags && s.mem.Keys <= s'.mem.Keys && Moves(names, added, names')
    requires forall u :: u != t ==> At(s', u) == At(s, u)
    requires forall i :: 0 <= i < |added| ==> added[i].tag < s'.tags
    requires forall u :: u != t ==> Unaware(At(s, u), added)
    requires PopperOk(s', names', At(s', t)) && PusherOk(s', names', At(s', t))
    requires forall u :: u != t ==> TagsApart(At(s', t), At(s, u)) && TagsApart(At(s, u), At(s', t))
    requires forall u, b :: u != t && Freeing(s, u, b) && b in s.mem ==> s'.mem[b] == s.mem[b]
    ensures ThreadsOk(s', names')
  {
    forall i | 0 <= i < |names'|
      ensures names'[i].tag < s'.tags
    {
      NameMoved(names, added, names', i);
    }
    forall u
      ensures PopperOk(s', names', At(s', u)) && PusherOk(s', names', At(s', u))
    {
      if u != t {
        var pc := At(s, u);
        assert Pushing(pc) ==> forall b :: b in pc.chain ==> Freeing(s, u, b);
        PopperKept(s, names, added, s', names', pc);
        PusherKept(s, names, added, s', names', pc);
      }
    }
    forall u, v | u != v
      ensures TagsApart(At(s', u), At(s', v))
    {
      if u != t && v != t {
        assert TagsApart(At(s, u), At(s, v));
      }
    }
  }

  /** The list is followed as before when its head and its blocks' words are as before. */
  lemma FollowsFrame(s: State, names: seq<Name>, s': State)
    requires Follows(s, names) && s'.head == s.head && s.mem.Keys <= s'.mem.Keys
    requires forall b :: Listed(names, b) && b in s.mem ==> s'.mem[b] == s.mem[b]
    ensures Follows(s', names)
  {
    assert forall i :: 0 <= i < |names| ==> Listed(names, names[i].block);
  }

  lemma ConservedFrame(s: State, names: seq<Name>, s': State)
    requires Conserved(s, names) && s'.live == s.live && s'.mem.Keys == s.mem.Keys
    requires forall u, c :: Freeing(s', u, c) <==> Freeing(s, u, c)
    ensures Conserved(s', names)
  {
    forall b | b in s'.mem && !Listed(names, b) && b !in s'.live
      ensures exists u :: Freeing(s', u, b)
    {
      var u :| Freeing(s, u, b);
      assert Freeing(s', u, b);
    }
  }

  // ----- pops

  /** A thread that is not freeing goes on to another such place. */
  lemma LookKeeps(s: State, names: seq<Name>, t: nat, pc: Pc)
    requires Inv(s, names) && !Pushing(At(s, t)) && !Pushing(pc) && PopperOk(s, names, pc)
    requires Popping(pc) ==> (names != [] && pc.seen == names[0]) || (Popping(At(s, t)) && pc.seen == At(s, t).seen)
    ensures Inv(Go(s, t, pc), names)
  {
    var s' := Go(s, t, pc);
    FollowsFrame(s, names, s');
    ConservedFrame(s, names, s');
    SeenApart(s, names, t, pc);
    assert [] + names == names;
    ThreadsKept(s, names, [], s', names, t);
  }

  lemma HeadPopper(s: State, names: seq<Name>)
    requires Follows(s, names) && ThreadsOk(s, names) && s.head.To?
    ensures names != [] && s.head.name == names[0] && PopperOk(s, names, PopLoaded(s.head.name))
  {
    assert names[0].block in s.mem;
  }

  lemma ReloadPopKeeps(s: State, names: seq<Name>, t: nat)
    requires Inv(s, names) && !Pushing(At(s, t))
    ensures Inv(Reload(s, t), names)
  {
    if s.head.To? {
      HeadPopper(s, names);
    }
    LookKeeps(s, names, t, if s.head.Invalid? then Idle else PopLoaded(s.head.name));
  }

  lemma ReadLinkKeeps(s: State, names: seq<Name>, t: nat)
    requires Inv(s, names)
    ensures Inv(Next(s, ReadLink(t)), names)
  {
    var pc := At(s, t);
    if pc.PopLoaded? && pc.seen.block in s.mem {
      assert PopperOk(s, names, pc);
      assert forall i :: 0 <= i < |names| && names[i] == pc.seen ==> names[i].block in s.mem;
      LookKeeps(s, names, t, PopRead(pc.seen, s.mem[pc.seen.block]));
    }
  }

  /** A thread that goes idle, keeps its name or takes the head's holds no tag that another has drawn. */
  lemma SeenApart(s: State, names: seq<Name>, t: nat, pc: Pc)
    requires ThreadsOk(s, names) && !Pushing(At(s, t)) && !Pushing(pc)
    requires Popping(pc) ==> (names != [] && pc.seen == names[0]) || (Popping(At(s, t)) && pc.seen == At(s, t).seen)
    ensures forall u :: u != t ==> TagsApart(pc, At(s, u)) && TagsApart(At(s, u), pc)
  {
    forall u | u != t
      ensures TagsApart(At(s, u), pc)
    {
      assert TagsApart(At(s, u), At(s, t)) && PusherOk(s, names, At(s, u));
    }
  }

  lemma CasPopFollows(s: State, names: seq<Name>, t: nat)
    requires Follows(s, names) && names != []
    requires At(s, t).PopRead? && At(s, t).seen == names[0] && At(s, t).next == LinkAt(names, 1)
    ensures Follows(Next(s, CasPop(t)), names[1..])
  {
    assert forall i :: 0 <= i < |names[1..]| ==> names[1..][i] == names[i + 1];
  }

  lemma CasPopConserves(s: State, names: seq<Name>, t: nat)
    requires Follows(s, names) && Conserved(s, names) && names != []
    requires At(s, t).PopRead? && At(s, t).seen == names[0]
    ensures Conserved(Next(s, CasPop(t)), names[1..])
  {
    var s' := Next(s, CasPop(t));
    ListedRest(names);
    assert forall u, b :: Freeing(s', u, b) <==> Freeing(s, u, b);
  }

  lemma ListedRest(names: seq<Name>)
    requires names != [] && forall i, j :: 0 <= i < j < |names| ==> names[i].block != names[j].block
    ensures forall b :: Listed(names[1..], b) <==> Listed(names, b) && b != names[0].block
  {
    forall b
      ensures Listed(names[1..], b) <==> Listed(names, b) && b != names[0].block
    {
      if Listed(names[1..], b) {
        var i :| 0 <= i < |names[1..]| && names[1..][i].block == b;
        assert names[i + 1].block == b;
      }
      if Listed(names, b) && b != names[0].block {
        var i :| 0 <= i < |names| && names[i].block == b;
        assert names[1..][i - 1].block == b;
      }
    }
  }

  /** The heart of the matter: the name still at the head never left it, so the link read
      earlier is the true successor. */
  lemma CasPopKeeps(s: State, names: seq<Name>, t: nat) returns (names': seq<Name>)
    requires Inv(s, names)
    ensures Observe(Some(Blocks(names)), EventOf(s, CasPop(t))) == Some(Blocks(names'))
    ensures Inv(Next(s, CasPop(t)), names')
  {
    var pc := At(s, t);
    names' := names;
    if pc.PopRead? && s.head == To(pc.seen) {
      names' := names[1..];
      CasPopSucceeds(s, names, t);
      assert Blocks(names') == Blocks(names)[1..];
    } else if pc.PopRead? {
      ReloadPopKeeps(s, names, t);
    }
  }

  lemma CasPopSucceeds(s: State, names: seq<Name>, t: nat)
    requires Inv(s, names) && At(s, t).PopRead? && s.head == To(At(s, t).seen)
    ensures names != [] && names[0] == At(s, t).seen && Inv(Next(s, CasPop(t)), names[1..])
  {
    assert PopperOk(s, names, At(s, t));
    CasPopFollows(s, names, t);
    CasPopConserves(s, names, t);
    SeenApart(s, names, t, Idle);
    ThreadsKept(s, names, [], Next(s, CasPop(t)), names[1..], t);
  }

  // ----- pushes

  lemma BeginPushConserves(s: State, names: seq<Name>, t: nat, chain: seq<nat>)
    requires Conserved(s, names) && At(s, t).Idle? && MayFree(s, chain)
    ensures Conserved(DrawnNext(s, Plain(BeginPush(t, chain))), names)
  {
    var s' := DrawnNext(s, Plain(BeginPush(t, chain)));
    assert forall u, c :: Freeing(s', u, c) <==> Freeing(s, u, c) || (u == t && c in chain);
    forall b | b in s'.mem
      ensures Listed(names, b) || b in s'.live || exists u :: Freeing(s', u, b)
    {
      if b in chain {
        assert Freeing(s', t, b);
      } else if !Listed(names, b) && b !in s.live {
        var u :| Freeing(s, u, b);
        assert Freeing(s', u, b);
      }
    }
  }

  /** The fetched tags are new: nothing on the list, held or seen has one. */
  lemma BeginPushFresh(s: State, names: seq<Name>, t: nat, chain: seq<nat>)
    requires ThreadsOk(s, names) && s.tags + |chain| <= TAG_MODULUS && At(s, t).Idle? && MayFree(s, chain)
    ensures ThreadsOk(DrawnNext(s, Plain(BeginPush(t, chain))), names)
  {
    var s' := DrawnNext(s, Plain(BeginPush(t, chain)));
    forall u | u != t
      ensures TagsApart(At(s', t), At(s, u)) && TagsApart(At(s, u), At(s', t))
    {
      assert PusherOk(s, names, At(s, u)) && PopperOk(s, names, At(s, u));
    }
    assert [] + names == names;
    ThreadsKept(s, names, [], s', names, t);
  }

  /** A block that a thread is freeing is on no other chain and not in the list. */
  lemma FreeingAlone(s: State, names: seq<Name>, t: nat, b: nat)
    requires Conserved(s, names) && Freeing(s, t, b)
    ensures b in s.mem && !Listed(names, b) && b !in s.live
    ensures forall u :: u != t ==> !Freeing(s, u, b)
  {
  }

  /** A thread writes a word of its own chain and stays a pusher with the same tags. */
  lemma OwnWriteKeeps(s: State, names: seq<Name>, t: nat, b: nat, word: Link, pc: Pc)
    requires Inv(s, names) && Freeing(s, t, b) && Pushing(pc) && pc.chain == At(s, t).chain && pc.tag == At(s, t).tag
    requires PusherOk(Go(s, t, pc).(mem := s.mem[b := word]), names, pc)
    ensures Inv(Go(s, t, pc).(mem := s.mem[b := word]), names)
  {
    var s' := Go(s, t, pc).(mem := s.mem[b := word]);
    FreeingAlone(s, names, t, b);
    FollowsFrame(s, names, s');
    ConservedFrame(s, names, s');
    PushTagsApart(s, names, t, pc);
    assert [] + names == names;
    ThreadsKept(s, names, [], s', names, t);
  }

  lemma PushTagsApart(s: State, names: seq<Name>, t: nat, pc: Pc)
    requires ThreadsOk(s, names) && Pushing(At(s, t)) && Pushing(pc)
    requires pc.chain == At(s, t).chain && pc.tag == At(s, t).tag
    ensures forall u :: u != t ==> TagsApart(pc, At(s, u)) && TagsApart(At(s, u), pc)
  {
    forall u | u != t
      ensures TagsApart(pc, At(s, u)) && TagsApart(At(s, u), pc)
    {
      assert TagsApart(At(s, t), At(s, u)) && TagsApart(At(s, u), At(s, t));
    }
  }

  lemma WriteLinkKeeps(s: State, names: seq<Name>, t: nat, i: nat)
    requires Inv(s, names)
    ensures Inv(DrawnNext(s, WriteLink(t, i)), names)
  {
    var pc := At(s, t);
    if pc.PushTagged? && i + 1 < |pc.chain| {
      var word := To(Pending(pc)[i + 1]);
      WriteLinkIs(s, t, i, word);
      assert PusherOk(s, names, pc);
      TaggedPusher(s, DrawnNext(s, WriteLink(t, i)), names, pc);
      OwnWriteKeeps(s, names, t, pc.chain[i], word, pc);
    }
  }

  lemma WriteLinkIs(s: State, t: nat, i: nat, word: Link)
    requires At(s, t).PushTagged? && i + 1 < |At(s, t).chain| && word == To(Pending(At(s, t))[i + 1])
    ensures Freeing(s, t, At(s, t).chain[i])
    ensures DrawnNext(s, WriteLink(t, i)) == Go(s, t, At(s, t)).(mem := s.mem[At(s, t).chain[i] := word])
  {
    assert s.pcs[t := s.pcs[t]] == s.pcs;
  }

  lemma TaggedPusher(s: State, s': State, names: seq<Name>, pc: Pc)
    requires PusherOk(s, names, pc) && pc.PushTagged? && s'.tags == s.tags
    ensures PusherOk(s', names, pc)
  {
  }

  lemma WriteTailKeeps(s: State, names: seq<Name>, t: nat)
    requires Inv(s, names)
    ensures Inv(Next(s, WriteTail(t)), names)
  {
    var pc := At(s, t);
    if pc.PushLoaded? && pc.chain != [] {
      assert PusherOk(s, names, pc);
      var b, pc' := pc.chain[|pc.chain| - 1], PushWritten(pc.chain, pc.tag, pc.below);
      assert Freeing(s, t, b);
      assert Pending(pc') == Pending(pc);
      OwnWriteKeeps(s, names, t, b, pc.below, pc');
    }
  }

  /** A thread that only looks at the head stays a pusher. */
  lemma ReloadKeeps(s: State, names: seq<Name>, t: nat, below: Link)
    requires Inv(s, names) && Pushing(At(s, t)) && Interlinked(s.mem, At(s, t))
    ensures Inv(Go(s, t, PushLoaded(At(s, t).chain, At(s, t).tag, below)), names)
  {
    var pc, pc' := At(s, t), PushLoaded(At(s, t).chain, At(s, t).tag, below);
    var s' := Go(s, t, pc');
    assert PusherOk(s, names, pc);
    assert Pending(pc') == Pending(pc);
    FollowsFrame(s, names, s');
    ConservedFrame(s, names, s');
    PushTagsApart(s, names, t, pc');
    assert [] + names == names;
    ThreadsKept(s, names, [], s', names, t);
  }

  /** Below the wrap the tags of a chain count up from its own. */
  lemma PendingTags(pc: Pc)
    requires Pushing(pc) && pc.tag + |pc.chain| <= TAG_MODULUS
    ensures forall i :: 0 <= i < |pc.chain| ==> Pending(pc)[i] == Name(pc.tag + i, pc.chain[i])
  {
  }

  lemma ChainUnlisted(s: State, names: seq<Name>, t: nat)
    requires Conserved(s, names) && Pushing(At(s, t))
    ensures forall b :: b in At(s, t).chain ==> !Listed(names, b)
  {
    assert forall b :: b in At(s, t).chain ==> Freeing(s, t, b);
  }

  lemma PusherChain(s: State, names: seq<Name>, t: nat)
    requires ThreadsOk(s, names) && Pushing(At(s, t))
    ensures At(s, t).chain != []
  {
    assert PusherOk(s, names, At(s, t));
  }

  /** Following the pushed chain leads into the old list. */
  lemma PushedLink(s: State, names: seq<Name>, pc: Pc, i: nat)
    requires Follows(s, names) && PusherOk(s, names, pc) && pc.PushWritten? && s.head == pc.below
    requires i < |pc.chain| + |names|
    ensures var names' := Pending(pc) + names;
            names'[i].block in s.mem && s.mem[names'[i].block] == LinkAt(names', i + 1)
  {
    var added, n := Pending(pc), |pc.chain|;
    var names' := added + names;
    if i + 1 < n {
      assert names'[i].block == pc.chain[i] && names'[i + 1] == added[i + 1];
    } else if i + 1 == n {
      assert names'[i].block == pc.chain[i] && LinkAt(names', n) == LinkAt(names, 0);
    } else {
      assert names'[i] == names[i - n] && names[i - n].block in s.mem;
      assert LinkAt(names', i + 1) == LinkAt(names, i - n + 1);
    }
  }

  lemma PushedApart(pc: Pc, names: seq<Name>, i: nat, j: nat)
    requires Pushing(pc) && Distinct(pc.chain) && i < j < |pc.chain| + |names|
    requires forall b :: b in pc.chain ==> !Listed(names, b)
    requires forall k, l :: 0 <= k < l < |names| ==> names[k].block != names[l].block
    ensures var names' := Pending(pc) + names; names'[i].block != names'[j].block
  {
    var added, n := Pending(pc), |pc.chain|;
    var names' := added + names;
    assert i < n ==> names'[i] == added[i] && added[i].block == pc.chain[i];
    assert j < n ==> names'[j] == added[j] && added[j].block == pc.chain[j];
    assert i >= n ==> names'[i] == names[i - n];
    assert j >= n ==> names'[j] == names[j - n] && Listed(names, names[j - n].block);
    assert i < n ==> pc.chain[i] in pc.chain;
  }

  lemma CasPushFollows(s: State, names: seq<Name>, t: nat)
    requires Inv(s, names) && At(s, t).PushWritten? && s.head == At(s, t).below
    ensures Follows(Next(s, CasPush(t)), Pending(At(s, t)) + names)
  {
    var s', pc := Next(s, CasPush(t)), At(s, t);
    var names' := Pending(pc) + names;
    assert PusherOk(s, names, pc);
    ChainUnlisted(s, names, t);
    PendingTags(pc);
    assert names'[0] == Pending(pc)[0];
    forall i {:trigger names'[i].block} | 0 <= i < |names'|
      ensures names'[i].block in s'.mem && s'.mem[names'[i].block] == LinkAt(names', i + 1)
    {
      PushedLink(s, names, pc, i);
    }
    forall i, j | 0 <= i < j < |names'|
      ensures names'[i].block != names'[j].block
    {
      PushedApart(pc, names, i, j);
    }
  }

  lemma ListedPush(pc: Pc, names: seq<Name>)
    requires Pushing(pc)
    ensures forall c :: Listed(Pending(pc) + names, c) <==> Listed(names, c) || c in pc.chain
  {
    var names', n := Pending(pc) + names, |pc.chain|;
    forall c
      ensures Listed(names', c) <==> Listed(names, c) || c in pc.chain
    {
      if Listed(names', c) {
        var i :| 0 <= i < |names'| && names'[i].block == c;
        assert i < n ==> c == pc.chain[i];
        assert i >= n ==> names[i - n].block == c;
      }
      if Listed(names, c) {
        var i :| 0 <= i < |names| && names[i].block == c;
        assert names'[n + i].block == c;
      }
      if c in pc.chain {
        var i :| 0 <= i < n && pc.chain[i] == c;
        assert names'[i].block == c;
      }
    }
  }

  lemma CasPushConserves(s: State, names: seq<Name>, t: nat)
    requires Conserved(s, names) && At(s, t).PushWritten? && At(s, t).chain != [] && s.head == At(s, t).below
    ensures Conserved(Next(s, CasPush(t)), Pending(At(s, t)) + names)
  {
    var s', pc := Next(s, CasPush(t)), At(s, t);
    ListedPush(pc, names);
    assert forall c :: c in pc.chain ==> Freeing(s, t, c);
    assert forall u, c :: Freeing(s', u, c) <==> Freeing(s, u, c) && u != t;
    FreedConserved(s, names, s', Pending(pc) + names, t, pc.chain);
  }

  /** Blocks that leave the thread freeing them for the list are still in one place. */
  lemma FreedConserved(s: State, names: seq<Name>, s': State, names': seq<Name>, t: nat, chain: seq<nat>)
    requires Conserved(s, names) && s'.mem == s.mem && s'.live == s.live
    requires forall c :: Freeing(s, t, c) <==> c in chain
    requires forall c :: Listed(names', c) <==> Listed(names, c) || c in chain
    requires forall u, c :: Freeing(s', u, c) <==> Freeing(s, u, c) && u != t
    ensures Conserved(s', names')
  {
    forall c | c in s'.mem
      ensures Listed(names', c) || c in s'.live || exists u :: Freeing(s', u, c)
    {
      if c !in chain && !Listed(names, c) && c !in s.live {
        var u :| Freeing(s, u, c);
        assert Freeing(s', u, c);
      }
    }
  }

  /** The other threads when the push succeeds: its tags are apart from all they know. */
  lemma CasPushThreads(s: State, names: seq<Name>, t: nat)
    requires Inv(s, names) && At(s, t).PushWritten? && s.head == At(s, t).below
    ensures ThreadsOk(Next(s, CasPush(t)), Pending(At(s, t)) + names)
  {
    var s', pc := Next(s, CasPush(t)), At(s, t);
    var added := Pending(pc);
    assert PusherOk(s, names, pc);
    PendingTags(pc);
    forall u | u != t
      ensures Unaware(At(s, u), added)
    {
      assert TagsApart(pc, At(s, u)) && TagsApart(At(s, u), pc);
    }
    ThreadsKept(s, names, added, s', added + names, t);
  }

  lemma CasPushKeeps(s: State, names: seq<Name>, t: nat) returns (names': seq<Name>)
    requires Inv(s, names)
    ensures Observe(Some(Blocks(names)), EventOf(s, CasPush(t))) == Some(Blocks(names'))
    ensures Inv(Next(s, CasPush(t)), names')
  {
    if At(s, t).PushWritten? && s.head == At(s, t).below {
      names' := Pending(At(s, t)) + names;
      CasPushSucceeds(s, names, t, Next(s, CasPush(t)), names');
      PusherChain(s, names, t);
      CasPushObserved(s, names, t);
    } else {
      names' := names;
      CasPushFails(s, names, t);
    }
  }

  lemma CasPushFails(s: State, names: seq<Name>, t: nat)
    requires Inv(s, names) && !(At(s, t).PushWritten? && s.head == At(s, t).below)
    ensures Inv(Next(s, CasPush(t)), names)
  {
    if At(s, t).PushWritten? {
      assert PusherOk(s, names, At(s, t));
      ReloadKeeps(s, names, t, s.head);
    }
  }

  lemma PushedBlocks(pc: Pc, names: seq<Name>)
    requires Pushing(pc)
    ensures Blocks(Pending(pc) + names) == pc.chain + Blocks(names)
  {
  }

  lemma CasPushObserved(s: State, names: seq<Name>, t: nat)
    requires At(s, t).PushWritten? && At(s, t).chain != [] && s.head == At(s, t).below
    ensures Observe(Some(Blocks(names)), EventOf(s, CasPush(t))) == Some(Blocks(Pending(At(s, t)) + names))
  {
    PushedBlocks(At(s, t), names);
  }

  lemma SameTags(s: State, a: Action)
    requires !a.BeginPush?
    ensures Next(s, a).tags == s.tags
  {
  }

  lemma CasPushSucceeds(s: State, names: seq<Name>, t: nat, s': State, names': seq<Name>)
    requires Inv(s, names) && At(s, t).PushWritten? && s.head == At(s, t).below
    requires s' == Next(s, CasPush(t)) && names' == Pending(At(s, t)) + names
    ensures Inv(s', names')
  {
    SameTags(s, CasPush(t));
    PusherChain(s, names, t);
    CasPushFollows(s, names, t);
    CasPushConserves(s, names, t);
    CasPushThreads(s, names, t);
  }

  lemma UserWriteKeeps(s: State, names: seq<Name>, b: nat, word: Link)
    requires Inv(s, names)
    ensures Inv(Next(s, UserWrite(b, word)), names)
  {
    if b in s.live {
      var s' := Next(s, UserWrite(b, word));
      FollowsFrame(s, names, s');
      ConservedFrame(s, names, s');
      UserWriteThreads(s, names, b, word);
    }
  }

  lemma UserWriteThreads(s: State, names: seq<Name>, b: nat, word: Link)
    requires ThreadsOk(s, names) && Conserved(s, names) && b in s.live
    ensures ThreadsOk(Next(s, UserWrite(b, word)), names)
  {
    var s' := Next(s, UserWrite(b, word));
    assert [] + names == names;
    forall u
      ensures PopperOk(s', names, At(s', u)) && PusherOk(s', names, At(s', u))
    {
      var pc := At(s, u);
      assert Pushing(pc) ==> forall c :: c in pc.chain ==> Freeing(s, u, c);
      PopperKept(s, names, [], s', names, pc);
      PusherKept(s, names, [], s', names, pc);
    }
    forall t, u | t != u
      ensures TagsApart(At(s', t), At(s', u))
    {
      assert TagsApart(At(s, t), At(s, u));
    }
  }

  // ----- every run is safe

  lemma BeginPushKeeps(s: State, names: seq<Name>, t: nat, chain: seq<nat>)
    requires Inv(s, names) && DrawnNext(s, Plain(BeginPush(t, chain))).tags <= TAG_MODULUS
    ensures Inv(DrawnNext(s, Plain(BeginPush(t, chain))), names)
  {
    if At(s, t).Idle? && MayFree(s, chain) {
      BeginPushConserves(s, names, t, chain);
      BeginPushFresh(s, names, t, chain);
    }
  }

  lemma StepKeeps(w: World, names: seq<Name>, a: Act) returns (names': seq<Name>)
    requires Inv(w.s, names) && w.stack == Some(Blocks(names)) && DrawnStep(w, a).s.tags <= TAG_MODULUS
    ensures Inv(DrawnStep(w, a).s, names') && DrawnStep(w, a).stack == Some(Blocks(names'))
  {
    names' := names;
    match a
    case WriteLink(t, i) => WriteLinkKeeps(w.s, names, t, i);
    case Plain(LoadHead(t)) =>
      if At(w.s, t).Idle? {
        ReloadPopKeeps(w.s, names, t);
      }
    case Plain(ReadLink(t)) => ReadLinkKeeps(w.s, names, t);
    case Plain(CasPop(t)) => names' := CasPopKeeps(w.s, names, t);
    case Plain(BeginPush(t, chain)) => BeginPushKeeps(w.s, names, t, chain);
    case Plain(LoadForPush(t)) =>
      if At(w.s, t).PushTagged? && Interlinked(w.s.mem, At(w.s, t)) {
        ReloadKeeps(w.s, names, t, w.s.head);
      }
    case Plain(WriteTail(t)) => WriteTailKeeps(w.s, names, t);
    case Plain(CasPush(t)) => names' := CasPushKeeps(w.s, names, t);
    case Plain(UserWrite(b, word)) => UserWriteKeeps(w.s, names, b, word);
  }

  lemma {:induction false} TagsGrow(w: World, acts: seq<Act>)
    ensures w.s.tags <= DrawnRun(w, acts).s.tags
    decreases |acts|
  {
    if acts != [] {
      TagsGrow(DrawnStep(w, acts[0]), acts[1..]);
    }
  }

  lemma {:induction false} RunKeeps(w: World, names: seq<Name>, acts: seq<Act>) returns (names': seq<Name>)
    requires Inv(w.s, names) && w.stack == Some(Blocks(names)) && DrawnRun(w, acts).s.tags <= TAG_MODULUS
    ensures Inv(DrawnRun(w, acts).s, names') && DrawnRun(w, acts).stack == Some(Blocks(names'))
    decreases |acts|
  {
    if acts == [] {
      names' := names;
    } else {
      TagsGrow(DrawnStep(w, acts[0]), acts[1..]);
      var mid := StepKeeps(w, names, acts[0]);
      names' := RunKeeps(DrawnStep(w, acts[0]), mid, acts[1..]);
    }
  }

  /** In every interleaving of pops and of frees of chains of any length whose names all carry drawn
      tags, with arbitrary user writes to held blocks, the calls linearize to a stack, and the links
      reach each block of that stack once while every other block is held by a user or is being freed
      by exactly one thread. */
  lemma DrawnRunsAreSafe(n: nat, acts: seq<Act>) returns (names: seq<Name>)
    requires n >= 2 && DrawnRun(Created(n), acts).s.tags <= TAG_MODULUS
    ensures DrawnRun(Created(n), acts).stack == Some(Blocks(names))
    ensures Follows(DrawnRun(Created(n), acts).s, names)
    ensures Conserved(DrawnRun(Created(n), acts).s, names)
  {
    CreatedFollows(n);
    CreatedConserved(n);
    TagsGrow(Created(n), acts);
    assert Blocks(CreatedNames(n)) == Upto(n);
    names := RunKeeps(Created(n), CreatedNames(n), acts);
  }

  // ----- the code, with chains of one block

  function Plainly(acts: seq<Action>): seq<Act> {
    if acts == [] then [] else [Plain(acts[0])] + Plainly(acts[1..])
  }

  /** No thread is freeing more than one block. */
  ghost predicate SingleChains(s: State) {
    forall t :: Pushing(At(s, t)) ==> |At(s, t).chain| <= 1
  }

  lemma SingleStep(w: World, a: Action)
    requires SingleChains(w.s) && (a.BeginPush? ==> |a.chain| <= 1)
    ensures DrawnStep(w, Plain(a)) == Step(w, a) && SingleChains(Step(w, a).s)
  {
    if a.BeginPush? && a.chain != [] {
      assert MayFree(w.s, a.chain) <==> MayPush(w.s, a.chain);
    } else if a.LoadForPush? && At(w.s, a.t).PushTagged? {
      assert Interlinked(w.s.mem, At(w.s, a.t));
    }
    forall t | Pushing(At(Step(w, a).s, t))
      ensures |At(Step(w, a).s, t).chain| <= 1
    {
      assert Pushing(At(w.s, t)) ==> |At(w.s, t).chain| <= 1;
    }
  }

  /** With chains of one block the two machines are one. */
  lemma {:induction false} SingleRuns(w: World, acts: seq<Action>)
    requires SingleChains(w.s) && ChainsAtMost(acts, 1)
    ensures DrawnRun(w, Plainly(acts)) == Run(w, acts)
    decreases |acts|
  {
    if acts != [] {
      assert acts[0].BeginPush? ==> |acts[0].chain| <= 1;
      SingleStep(w, acts[0]);
      SingleRuns(Step(w, acts[0]), acts[1..]);
      assert Plainly(acts)[1..] == Plainly(acts[1..]);
    }
  }

  /** In every interleaving of pops and single-block frees, with arbitrary user writes to held
      blocks, the calls linearize to a stack, and the links reach each block of that stack once
      while every other block is held by a user or is being freed by exactly one thread. */
  lemma SingleBlockRunsAreSafe(n: nat, acts: seq<Action>) returns (names: seq<Name>)
    requires n >= 2 && ChainsAtMost(acts, 1) && Run(Created(n), acts).s.tags <= TAG_MODULUS
    ensures Run(Created(n), acts).stack == Some(Blocks(names))
    ensures Follows(Run(Created(n), acts).s, names)
    ensures Conserved(Run(Created(n), acts).s, names)
  {
    SingleRuns(Created(n), acts);
    names := DrawnRunsAreSafe(n, Plainly(acts));
  }

  // ----- exact conditions

  /** The free list is linearizable over all runs exactly when the bucket has at least two blocks,
      frees pass single blocks, and no more than 2^32 tags are drawn. */
  lemma LinearizableIff(n: nat, maxChain: nat, maxTags: nat)
    requires 0 < n < TAG_MODULUS && maxChain >= 1 && maxTags > n
    ensures AlwaysLinearizable(n, maxChain, maxTags) <==> n >= 2 && maxChain == 1 && maxTags <= TAG_MODULUS
  {
    if n >= 2 && maxChain == 1 && maxTags <= TAG_MODULUS {
      forall acts: seq<Action> | ChainsAtMost(acts, 1) && Run(Created(n), acts).s.tags <= maxTags
        ensures Run(Created(n), acts).stack.Some?
      {
        var _ := SingleBlockRunsAreSafe(n, acts);
      }
    } else if AlwaysLinearizable(n, maxChain, maxTags) {
      if n == 1 {
        MoreRunsLessSafe(n, 1, maxChain, n, maxTags);
        ReusedTagBreaks(n, 0);
      } else if maxChain >= 2 {
        MoreRunsLessSafe(n, 2, maxChain, n + 1, maxTags);
        ReusedInteriorNameBreaks(n);
      } else {
        MoreRunsLessSafe(n, 1, maxChain, TAG_MODULUS + 1, maxTags);
        ReusedTagBreaks(n, TAG_MODULUS + 1 - n);
      }
      assert false;
    }
  }

  /** Over every run of at most `maxTags` tags, in which every name carries a drawn tag, the calls are
      linearizable to a stack. */
  ghost predicate AlwaysLinearizableDrawn(n: nat, maxTags: nat)
    requires n > 0
  {
    forall acts: seq<Act> ::
      DrawnRun(Created(n), acts).s.tags <= maxTags ==> DrawnRun(Created(n), acts).stack.Some?
  }

  /** With the interior tags drawn as well, chains of any length are linearizable over all runs, exactly
      when the bucket has at least two blocks and no more than 2^32 tags are drawn: of the three causes
      the chains' is the restarted interior tag alone. */
  lemma DrawnLinearizableIff(n: nat, maxTags: nat)
    requires 0 < n < TAG_MODULUS && maxTags > n
    ensures AlwaysLinearizableDrawn(n, maxTags) <==> n >= 2 && maxTags <= TAG_MODULUS
  {
    if n >= 2 && maxTags <= TAG_MODULUS {
      forall acts: seq<Act> | DrawnRun(Created(n), acts).s.tags <= maxTags
        ensures DrawnRun(Created(n), acts).stack.Some?
      {
        var _ := DrawnRunsAreSafe(n, acts);
      }
    } else if AlwaysLinearizableDrawn(n, maxTags) {
      forall acts: seq<Action> | ChainsAtMost(acts, 1) && Run(Created(n), acts).s.tags <= maxTags
        ensures Run(Created(n), acts).stack.Some?
      {
        SingleRuns(Created(n), acts);
      }
      LinearizableIff(n, 1, maxTags);
      assert false;
    }
  }
}
