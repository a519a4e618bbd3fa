/** ltalloc's `ptrie_lookup`, `ptrie_insert` and `ptrie_remove`: loops over the nodes in memory that
    together keep a finite map from addresses to sizes. */
module PatriciaMap {
  import opened Lists
  import opened BitmapFields
  import opened PatriciaTrie
  import opened PatriciaHeap

  // ----- what the loops read

  /** The prefix test of the insertion loop: `x & (~1 << prefixEnd)` is zero. */
  predicate Clear(x: Word, prefixEnd: nat) {
    forall j :: j in x ==> j <= prefixEnd
  }

  /** Testing the whole first key word, position bits included, compares the fork's prefix, and its
      highest bit is the highest difference from that prefix. */
  lemma {:induction false} PrefixTest(n: Node, t: Trie, key: Word)
    requires t.Fork? && Wf(t) && NodeFits(n, t) && IsKey(key)
    ensures Clear(Xor(key, n.keys0), t.index) <==> Above(key, t.index) == t.prefix
    ensures Above(key, t.index) != t.prefix ==>
              && HasOne(Xor(key, n.keys0), BITS)
              && HighestOne(Xor(key, n.keys0), BITS) == TopDiff(Above(key, t.index), t.prefix)
  {
    var k, i := High(n.keys0), t.index;
    Packs(k, i);
    var x := Xor(key, n.keys0);
    forall j | j > i
      ensures j in x <==> (j in Above(key, i)) != (j in t.prefix)
    {
      assert j in n.keys0 <==> j in k;
      assert j in t.prefix <==> j in k;
    }
    if Clear(x, i) {
      assert forall j :: j in Above(key, i) <==> j in t.prefix;
    }
    if Above(key, i) != t.prefix {
      var j := TopDiff(Above(key, i), t.prefix);
      TopIsTop(x, Above(key, i), t.prefix, i);
    }
  }

  lemma {:induction false} TopIsTop(x: Word, a: Word, b: Word, i: nat)
    requires IsWord(a) && IsWord(b) && a != b
    requires forall j: nat :: j > i ==> (j in x <==> (j in a) != (j in b))
    requires forall j :: j in a || j in b ==> j > i
    ensures HasOne(x, BITS)
    ensures HighestOne(x, BITS) == TopDiff(a, b)
  {
    var j := TopDiff(a, b);
    assert j in x;
    forall h: nat | h > j && h > i
      ensures h !in x
    {
      assert h in a <==> h in Above(a, j);
      assert h in b <==> h in Above(b, j);
    }
  }

  /** The node an insertion builds over what it stopped at. */
  function NewNode(index: nat, key: Word, value: nat, pkey: Word, c: Child): Node {
    if index in key then
      Node(pkey + BitsOf(index, 0), key, c, Data(value))
    else
      Node(key + BitsOf(index, 0), pkey, Data(value), c)
  }

  lemma {:induction false} NewNodeFits(ref: nat, index: nat, key: Word, value: nat, pkey: Word, c: Child, t: Trie)
    requires IsKey(key) && IsKey(pkey) && index < BITS && Above(pkey, index) == Above(key, index)
    requires t.Leaf? ==> pkey == t.key
    ensures NodeFits(NewNode(index, key, value, pkey, c), Join(ref, index, key, value, t))
  {
    Packs(key, index);
    Packs(pkey, index);
    assert forall j :: j in key ==> j >= 8;
    assert forall j :: j in pkey ==> j >= 8;
    assert High(key) == key && High(pkey) == pkey;
  }

  /** Changing what hangs from a fork's slot leaves the fork's node fitting, with the key beside a
      stored size kept in step. */
  lemma {:induction false} SlotFits(n: Node, p: Trie, key: Word, w: Word, c: Child, s: Trie)
    requires p.Fork? && Wf(p) && NodeFits(n, p)
    requires if s.Leaf?
             then High(w) == s.key && IsKey(s.key) && Above(s.key, p.index) == p.prefix
                  && (p.index !in key ==> w == s.key + BitsOf(p.index, 0))
             else w == n.Key(p.index in key)
    ensures NodeFits(n.Set(p.index in key, w, c), WithBranch(p, key, s))
  {
  }

  /** Where the prefixes part, the fork's first key leaves the new key at the same position. */
  lemma {:induction false} ForkPlace(n: Node, t: Trie, key: Word)
    requires t.Fork? && Wf(t) && NodeFits(n, t) && IsKey(key) && Above(key, t.index) != t.prefix
    ensures var i := TopDiff(Above(key, t.index), t.prefix);
            i > t.index && Above(High(n.keys0), i) == Above(key, i)
  {
    var i := TopDiff(Above(key, t.index), t.prefix);
    assert i in Above(key, t.index) || i in t.prefix;
    AboveAbove(key, t.index, i);
    AboveAbove(High(n.keys0), t.index, i);
  }

  /** The key word and position found where the loop stops. */
  ghost predicate Stops(t: Trie, key: Word, pkey: Word, index: nat)
    requires Wf(t) && IsKey(key)
  {
    !t.Null? ==>
      && Compared(t, key) != Stem(t) && index == TopDiff(Compared(t, key), Stem(t))
      && IsKey(pkey) && Above(pkey, index) == Above(key, index) && (t.Leaf? ==> pkey == t.key)
  }

  /** The last round, at a fork whose prefix the key has not. */
  lemma {:induction false} ForkRound(h: Heap, c: Child, t: Trie, key: Word)
    requires c.Ptr? && Rep(h, c, t) && Wf(t) && IsKey(key)
    requires !Clear(Xor(key, h[c.ref].keys0), h[c.ref].Index())
    ensures var x := Xor(key, h[c.ref].keys0);
            HasOne(x, BITS) && Stops(t, key, High(h[c.ref].keys0), HighestOne(x, BITS))
  {
    NodeIndex(h[c.ref], t);
    PrefixTest(h[c.ref], t, key);
    ForkPlace(h[c.ref], t, key);
  }

  // ----- insertion

  /** The insertion loop goes on from this child. */
  predicate GoesOn(h: Heap, c: Child, key: Word)
    requires c.Ptr? ==> c.ref in h
  {
    c.Ptr? && Clear(Xor(key, h[c.ref].keys0), h[c.ref].Index())
  }

  /** Where the insertion loop stops: the slot and the child found in it. */
  function StopAt(h: Heap, c: Child, slot: Slot, key: Word, ghost t: Trie): (s: (Slot, Child))
    requires Rep(h, c, t)
    ensures s.1.Ptr? ==> s.1.ref in h
    ensures !GoesOn(h, s.1, key)
    decreases t
  {
    if GoesOn(h, c, key) then
      var n := h[c.ref];
      NodeIndex(n, t);
      var right := n.Index() in key;
      StopAt(h, n.ChildAt(right), In(c.ref, right), key, Branch(t, key))
    else
      (slot, c)
  }

  /** The key and the difference on which the new node is built. */
  predicate Readable(h: Heap, slot: Slot, c: Child) {
    (c.Ptr? ==> c.ref in h) && (c.Data? && c != NULL_NODE ==> slot.In? && slot.ref in h)
  }

  function StopKey(h: Heap, slot: Slot, c: Child): Word
    requires Readable(h, slot, c)
  {
    if c.Ptr? then High(h[c.ref].keys0) else if c == NULL_NODE then {} else High(h[slot.ref].Key(slot.right))
  }

  function StopDiff(h: Heap, slot: Slot, c: Child, key: Word): Word
    requires Readable(h, slot, c)
  {
    Xor(key, if c.Ptr? then h[c.ref].keys0 else StopKey(h, slot, c))
  }

  /** The position at which the new node branches. */
  function StopIndex(h: Heap, slot: Slot, c: Child, key: Word): nat
    requires Readable(h, slot, c) && (c != NULL_NODE ==> HasOne(StopDiff(h, slot, c, key), BITS))
  {
    if c == NULL_NODE then 0 else HighestOne(StopDiff(h, slot, c, key), BITS)
  }

  /** The loop's end can be read: the slot, the key and the difference are there. */
  predicate StopOk(h: Heap, slot: Slot, c: Child, key: Word) {
    && Readable(h, slot, c) && (c != NULL_NODE ==> HasOne(StopDiff(h, slot, c, key), BITS))
    && (slot.In? ==> slot.ref in h)
  }

  /** The loop of `ptrie_insert`. */
  method FindStop(h: Heap, root: Child, key: Word, ghost tree: Trie) returns (slot: Slot, c: Child)
    requires Rep(h, root, tree)
    ensures (slot, c) == StopAt(h, root, Root, key, tree)
  {
    slot, c := Root, root;
    ghost var t := tree;
    while GoesOn(h, c, key)
      invariant Rep(h, c, t) && StopAt(h, c, slot, key, t) == StopAt(h, root, Root, key, tree)
      decreases t
    {
      var n := h[c.ref];
      NodeIndex(n, t);
      var right := n.Index() in key;
      slot, c := In(c.ref, right), n.ChildAt(right);
      t := Branch(t, key);
    }
  }

  ghost predicate Stands(h: Heap, root: Child, tree: Trie) {
    PatriciaTrie.Valid(tree) && Rep(h, root, tree) && h.Keys == Foot(tree)
  }

  /** The memory after hanging node `n` in a slot. */
  function HeapWith(h: Heap, slot: Slot, ref: nat, n: Node): Heap
    requires slot.In? ==> slot.ref in h
  {
    if slot == Root then
      h[ref := n]
    else
      h[ref := n][slot.ref := h[slot.ref].Set(slot.right, h[slot.ref].Key(slot.right), Ptr(ref))]
  }

  /** The node an insertion makes at the place it found. */
  function Made(c: Child, key: Word, value: nat, stale: Node, pkey: Word, index: nat): Node {
    if c == NULL_NODE then Node(key, stale.keys1, Data(value), NULL_NODE) else NewNode(index, key, value, pkey, c)
  }

  /** The memory after the insertion's writes. */
  function HeapAfter(h: Heap, slot: Slot, c: Child, key: Word, value: nat, ref: nat, stale: Node): Heap
    requires StopOk(h, slot, c, key)
  {
    HeapWith(h, slot, ref, Made(c, key, value, stale, StopKey(h, slot, c), StopIndex(h, slot, c, key)))
  }

  lemma {:induction false} LeafRound(h: Heap, slot: Slot, t: Trie, key: Word)
    requires t.Leaf? && Wf(t) && SlotKnows(h, slot, t) && IsKey(key) && key != t.key
    ensures StopOk(h, slot, Data(t.value), key)
    ensures Stops(t, key, StopKey(h, slot, Data(t.value)), StopIndex(h, slot, Data(t.value), key))
  {
    DiffersSomewhere(key, t.key);
  }

  lemma {:induction false} StopsHere(h: Heap, c: Child, slot: Slot, t: Trie, key: Word)
    requires Rep(h, c, t) && Wf(t) && SlotKnows(h, slot, t) && IsKey(key) && key !in Entries(t) && !GoesOn(h, c, key)
    ensures StopOk(h, slot, c, key) && Stops(t, key, StopKey(h, slot, c), StopIndex(h, slot, c, key))
  {
    if t.Fork? {
      ForkRound(h, c, t, key);
    } else if t.Leaf? {
      LeafRound(h, slot, t, key);
    }
  }

  /** The node built at the end of the loop stands for the insertion there. */
  lemma {:induction false} BuiltRep(h: Heap, c: Child, t: Trie, key: Word, value: nat, ref: nat, stale: Node,
                                    pkey: Word, index: nat)
    requires Rep(h, c, t) && Wf(t) && IsKey(key) && ref !in h
    requires Stops(t, key, pkey, index)
    ensures var n := Made(c, key, value, stale, pkey, index);
            Put(t, key, value, ref).Fork? && Rep(h[ref := n], Ptr(ref), Put(t, key, value, ref))
  {
    if t.Null? {
      var n := Node(key, stale.keys1, Data(value), NULL_NODE);
      Packs(key, 0);
      assert NodeFits(n, Put(t, key, value, ref));
    } else {
      var n := NewNode(index, key, value, pkey, c);
      NewNodeFits(ref, index, key, value, pkey, c, t);
      RepFoot(h, c, t);
      RepFrame(h, h[ref := n], c, t);
    }
  }

  /** The insertion where the loop stops. */
  lemma {:induction false} InsertHere(h: Heap, c: Child, slot: Slot, t: Trie, key: Word, value: nat, ref: nat,
                                      stale: Node)
    requires Rep(h, c, t) && Wf(t) && SlotKnows(h, slot, t) && IsKey(key) && key !in Entries(t) && !GoesOn(h, c, key)
    requires ref !in h && (slot.In? ==> slot.ref !in Foot(t))
    ensures StopOk(h, slot, c, key)
    ensures Put(t, key, value, ref).Fork?
            && Rep(HeapAfter(h, slot, c, key, value, ref, stale), Ptr(ref), Put(t, key, value, ref))
  {
    StopsHere(h, c, slot, t, key);
    var pkey, index := StopKey(h, slot, c), StopIndex(h, slot, c, key);
    BuiltRep(h, c, t, key, value, ref, stale, pkey, index);
    assert Foot(Put(t, key, value, ref)) <= Foot(t) + {ref};
    SlotWriteKeeps(h, slot, t, ref, Made(c, key, value, stale, pkey, index), Put(t, key, value, ref));
  }

  /** Writing the slot that a new node hangs from leaves what is below it. */
  lemma {:induction false} SlotWriteKeeps(h: Heap, slot: Slot, t: Trie, ref: nat, n: Node, u: Trie)
    requires Rep(h[ref := n], Ptr(ref), u) && Foot(u) <= Foot(t) + {ref}
    requires ref !in h && (slot.In? ==> slot.ref in h && slot.ref !in Foot(t))
    ensures Rep(HeapWith(h, slot, ref, n), Ptr(ref), u)
  {
    RepFoot(h[ref := n], Ptr(ref), u);
    RepFrame(h[ref := n], HeapWith(h, slot, ref, n), Ptr(ref), u);
  }

  /** The child word in the first slot after the writes. */
  function ChildAfter(c: Child, slot: Slot, stop: Slot, ref: nat): Child {
    if stop == slot then Ptr(ref) else c
  }

  /** One round of the loop, put back around what the rest of it does. */
  lemma {:induction false} InsertAround(h: Heap, h': Heap, t: Trie, key: Word, stop: Slot, ref: nat, s: Trie)
    requires t.Fork? && Rep(h, Ptr(t.ref), t) && Wf(t) && Unshared(t) && ref !in h && s.Fork?
    requires var right := t.index in key;
             && stop.In? && (stop == In(t.ref, right) || stop.ref in Foot(Branch(t, key)))
             && stop.ref in h && t.ref in h'
             && Rep(h', ChildAfter(h[t.ref].ChildAt(right), In(t.ref, right), stop, ref), s)
             && h'[t.ref] == (if stop == In(t.ref, right) then h[t.ref].Set(right, h[t.ref].Key(right), Ptr(ref))
                              else h[t.ref])
    requires forall r :: r in h && r != stop.ref ==> r in h' && h'[r] == h[r]
    ensures Rep(h', Ptr(t.ref), WithBranch(t, key, s))
  {
    var right := t.index in key;
    RepFoot(h, Ptr(t.ref), t);
    forall r | r in Foot(Other(t, key))
      ensures r in h && r in h' && h'[r] == h[r]
    {
      assert r in Foot(t) && r != stop.ref;
    }
    if stop == In(t.ref, right) {
      SlotFits(h[t.ref], t, key, h[t.ref].Key(right), Ptr(ref), s);
    }
    ForkRep(h, h', t, key, s);
  }

  /** The loop stops in the slot it began with or in one below. */
  lemma {:induction false} StopFacts(h: Heap, c: Child, slot: Slot, t: Trie, key: Word)
    requires Rep(h, c, t) && Wf(t) && SlotKnows(h, slot, t) && IsKey(key) && key !in Entries(t)
    ensures var s := StopAt(h, c, slot, key, t);
            StopOk(h, s.0, s.1, key) && (s.0 == slot || (s.0.In? && s.0.ref in Foot(t)))
    decreases t
  {
    if GoesOn(h, c, key) {
      NodeIndex(h[c.ref], t);
      ForkKnows(h, t, key);
      var right := t.index in key;
      StopFacts(h, h[c.ref].ChildAt(right), In(c.ref, right), Branch(t, key), key);
    } else {
      StopsHere(h, c, slot, t, key);
    }
  }

  lemma {:induction false} PutIsFork(t: Trie, key: Word, value: nat, ref: nat)
    requires Wf(t) && IsKey(key) && key !in Entries(t)
    ensures Put(t, key, value, ref).Fork?
  {
  }

  /** Below the root an insertion adds its node and writes one slot. */
  lemma {:induction false} HeapAfterIs(h: Heap, slot: Slot, c: Child, key: Word, value: nat, ref: nat, stale: Node)
    requires StopOk(h, slot, c, key) && slot.In? && ref !in h
    ensures var h' := HeapAfter(h, slot, c, key, value, ref, stale);
            && slot.ref in h' && h'[slot.ref] == h[slot.ref].Set(slot.right, h[slot.ref].Key(slot.right), Ptr(ref))
            && forall r :: r in h && r != slot.ref ==> r in h' && h'[r] == h[r]
  {
  }

  /** One round of the loop, with the rest of it done. */
  lemma {:induction false} InsertRound(h: Heap, t: Trie, key: Word, value: nat, ref: nat, stale: Node,
                                       s: (Slot, Child), h': Heap)
    requires t.Fork? && Rep(h, Ptr(t.ref), t) && Wf(t) && Unshared(t) && IsKey(key) && key !in Entries(t) && ref !in h
    requires Above(key, t.index) == t.prefix && StopOk(h, s.0, s.1, key)
    requires var sb := In(t.ref, t.index in key);
             && s.0.In? && (s.0 == sb || s.0.ref in Foot(Branch(t, key)))
             && h' == HeapAfter(h, s.0, s.1, key, value, ref, stale)
             && Rep(h', ChildAfter(h[t.ref].ChildAt(sb.right), sb, s.0, ref), Put(Branch(t, key), key, value, ref))
    ensures Rep(h', Ptr(t.ref), Put(t, key, value, ref))
  {
    PutIsFork(Branch(t, key), key, value, ref);
    HeapAfterIs(h, s.0, s.1, key, value, ref, stale);
    RepFoot(h, Ptr(t.ref), t);
    InsertAround(h, h', t, key, s.0, ref, Put(Branch(t, key), key, value, ref));
  }

  /** The insertion's writes, from any place on, stand for the insertion there. */
  lemma {:induction false} InsertRep(h: Heap, c: Child, slot: Slot, t: Trie, key: Word, value: nat, ref: nat,
                                     stale: Node, s: (Slot, Child), h': Heap)
    requires Rep(h, c, t) && Wf(t) && Unshared(t) && SlotKnows(h, slot, t) && IsKey(key) && key !in Entries(t)
    requires ref !in h && (slot.In? ==> slot.ref !in Foot(t))
    requires s == StopAt(h, c, slot, key, t) && StopOk(h, s.0, s.1, key)
    requires h' == HeapAfter(h, s.0, s.1, key, value, ref, stale)
    ensures Rep(h', ChildAfter(c, slot, s.0, ref), Put(t, key, value, ref))
    decreases t
  {
    if GoesOn(h, c, key) {
      NodeIndex(h[c.ref], t);
      PrefixTest(h[c.ref], t, key);
      var right := t.index in key;
      var b, cb, sb := Branch(t, key), h[c.ref].ChildAt(right), In(c.ref, right);
      ForkKnows(h, t, key);
      StopFacts(h, cb, sb, b, key);
      InsertRep(h, cb, sb, b, key, value, ref, stale, s, h');
      InsertRound(h, t, key, value, ref, stale, s, h');
    } else {
      InsertHere(h, c, slot, t, key, value, ref, stale);
    }
  }

  lemma {:induction false} InsertShape(tree: Trie, key: Word, value: nat, ref: nat)
    requires PatriciaTrie.Valid(tree) && IsKey(key) && value > 0 && key !in Entries(tree) && ref !in Foot(tree)
    ensures var u := Put(tree, key, value, ref);
            PatriciaTrie.Valid(u) && Foot(u) == Foot(tree) + {ref} && Entries(u) == Entries(tree)[key := value]
  {
    PutKeeps(tree, key, value, ref);
    PutFoot(tree, key, value, ref);
  }

  /** The memory, its root, and the trie it stands for. */
  datatype Image = Image(nodes: Heap, root: Child, tree: Trie)

  ghost predicate Standing(s: Image) {
    Stands(s.nodes, s.root, s.tree)
  }

  /** The memory after an insertion. */
  ghost function Inserted(s: Image, key: Word, value: nat, ref: nat, stale: Node): Image
    requires Standing(s) && IsKey(key) && key !in Entries(s.tree)
  {
    StopFacts(s.nodes, s.root, Root, s.tree, key);
    var stop := StopAt(s.nodes, s.root, Root, key, s.tree);
    Image(HeapAfter(s.nodes, stop.0, stop.1, key, value, ref, stale), if stop.0 == Root then Ptr(ref) else s.root,
          Put(s.tree, key, value, ref))
  }

  /** The memory after an insertion stands for the trie with the entry, if the size is not 0. */
  lemma {:induction false} InsertDone(s: Image, key: Word, value: nat, ref: nat, stale: Node)
    requires Standing(s) && IsKey(key) && key !in Entries(s.tree) && ref !in s.nodes
    ensures var s' := Inserted(s, key, value, ref, stale);
            && Rep(s'.nodes, s'.root, s'.tree) && s'.nodes.Keys == s.nodes.Keys + {ref}
            && (value > 0 ==> Standing(s') && Entries(s'.tree) == Entries(s.tree)[key := value])
  {
    InsertedRep(s, key, value, ref, stale);
    if value > 0 {
      InsertShape(s.tree, key, value, ref);
    }
  }

  lemma {:induction false} InsertedRep(s: Image, key: Word, value: nat, ref: nat, stale: Node)
    requires Standing(s) && IsKey(key) && key !in Entries(s.tree) && ref !in s.nodes
    ensures var s' := Inserted(s, key, value, ref, stale);
            Rep(s'.nodes, s'.root, s'.tree) && s'.nodes.Keys == s.nodes.Keys + {ref}
  {
    StopFacts(s.nodes, s.root, Root, s.tree, key);
    var stop := StopAt(s.nodes, s.root, Root, key, s.tree);
    InsertRep(s.nodes, s.root, Root, s.tree, key, value, ref, stale, stop,
              HeapAfter(s.nodes, stop.0, stop.1, key, value, ref, stale));
  }

  /** What a memory stands for has a fixed number of empty children. */
  lemma {:induction false} NullsFixed(h: Heap, c: Child, t: Trie, u: Trie)
    requires Rep(h, c, t) && Rep(h, c, u)
    ensures Nulls(t) == Nulls(u)
    decreases t
  {
    if t.Fork? {
      NullsFixed(h, h[t.ref].child0, t.left, u.left);
      NullsFixed(h, h[t.ref].child1, t.right, u.right);
    }
  }

  /** The memory after an insertion stands for some trie exactly when the size is not 0. */
  lemma {:induction false} InsertStandsIff(s: Image, key: Word, value: nat, ref: nat, stale: Node)
    requires Standing(s) && IsKey(key) && key !in Entries(s.tree) && ref !in s.nodes
    ensures var s' := Inserted(s, key, value, ref, stale);
            (exists u :: Stands(s'.nodes, s'.root, u)) <==> value != 0
  {
    var s' := Inserted(s, key, value, ref, stale);
    InsertDone(s, key, value, ref, stale);
    if value == 0 {
      ZeroAddsNull(s.tree, key, ref);
      forall u | Rep(s'.nodes, s'.root, u)
        ensures Nulls(u) == 2
      {
        NullsFixed(s'.nodes, s'.root, s'.tree, u);
      }
    } else {
      assert Stands(s'.nodes, s'.root, s'.tree);
    }
  }

  // ----- removal

  /** The key word beside a slot after a removal promotes the other child into it. */
  function Promoted(other: Child, otherKey: Word, w: Word): Word {
    if other.Data? && other != NULL_NODE then High(otherKey) + (w - High(w)) else w
  }

  lemma {:induction false} PromotedFits(n: Node, t: Trie, q: Node, p: Trie, key: Word)
    requires t.Fork? && p.Fork? && Wf(p) && NodeFits(n, t) && NodeFits(q, p) && Branch(p, key) == t
    requires n.FarChild(t.index in key).Data? && n.FarChild(t.index in key) != NULL_NODE <==> Other(t, key).Leaf?
    ensures var w := Promoted(n.FarChild(t.index in key), n.FarKey(t.index in key), q.Key(p.index in key));
            NodeFits(q.Set(p.index in key, w, n.FarChild(t.index in key)), WithBranch(p, key, Other(t, key)))
  {
    var o := Other(t, key);
    var w0 := q.Key(p.index in key);
    var w := Promoted(n.FarChild(t.index in key), n.FarKey(t.index in key), w0);
    if o.Leaf? {
      assert o.key in Entries(o) && o.key in Entries(t);
      assert Wf(t) && Wf(o);
      Packs(High(q.keys0), p.index);
      assert High(w) == o.key;
      assert p.index !in key ==> w0 - High(w0) == BitsOf(p.index, 0);
    }
    SlotFits(q, p, key, w, n.FarChild(t.index in key), o);
  }

  /** The memory and the root after the other child of a node takes the node's place. */
  function HeapWithout(h: Heap, slot: Slot, ref: nat, key: Word): Heap
    requires ref in h && (slot.In? ==> slot.ref in h)
  {
    var n := h[ref];
    var right := n.Index() in key;
    if slot == Root then
      h - {ref}
    else
      var p := h[slot.ref];
      h[slot.ref := p.Set(slot.right, Promoted(n.FarChild(right), n.FarKey(right), p.Key(slot.right)),
                          n.FarChild(right))] - {ref}
  }

  /** Where the removal loop stops: the slot and the node found in it. */
  function OwnerAt(h: Heap, c: Child, slot: Slot, key: Word, ghost t: Trie): (Slot, nat)
    requires Rep(h, c, t) && t.Fork?
    decreases t
  {
    var n := h[c.ref];
    NodeIndex(n, t);
    var right := n.Index() in key;
    if n.ChildAt(right).Data? then
      (slot, c.ref)
    else
      OwnerAt(h, n.ChildAt(right), In(c.ref, right), key, Branch(t, key))
  }

  /** The loop of `ptrie_remove`. */
  method FindOwner(h: Heap, root: Child, key: Word, ghost tree: Trie) returns (slot: Slot, ref: nat)
    requires Rep(h, root, tree) && tree.Fork?
    ensures (slot, ref) == OwnerAt(h, root, Root, key, tree)
  {
    slot, ref := Root, root.ref;
    ghost var t := tree;
    NodeIndex(h[ref], t);
    while h[ref].ChildAt(h[ref].Index() in key).Ptr?
      invariant Rep(h, Ptr(ref), t) && t.Fork? && h[ref].Index() == t.index
      invariant OwnerAt(h, Ptr(ref), slot, key, t) == OwnerAt(h, root, Root, key, tree)
      decreases t
    {
      var right := h[ref].Index() in key;
      slot, ref := In(ref, right), h[ref].ChildAt(right).ref;
      t := Branch(t, key);
      NodeIndex(h[ref], t);
    }
  }

  /** One round of the removal loop, put back around what the rest of it does. */
  lemma {:induction false} RemoveAround(h: Heap, h': Heap, t: Trie, key: Word, stop: Slot, ref: nat)
    requires t.Fork? && Rep(h, Ptr(t.ref), t) && Wf(t) && Unshared(t) && Branch(t, key).Fork?
    requires stop.In? && stop.ref in Foot(Branch(t, key)) && ref in Foot(Branch(t, key)) && stop.ref in h
    requires t.ref in h' && h'[t.ref] == h[t.ref] && Del(Branch(t, key), key).Fork?
    requires Rep(h', h[t.ref].ChildAt(t.index in key), Del(Branch(t, key), key))
    requires forall r :: r in h && r != stop.ref && r != ref ==> r in h' && h'[r] == h[r]
    ensures Rep(h', Ptr(t.ref), Del(t, key))
  {
    RepFoot(h, Ptr(t.ref), t);
    forall r | r in Foot(Other(t, key))
      ensures r in h && r in h' && h'[r] == h[r]
    {
      assert r in Foot(t) && r !in Foot(Branch(t, key));
    }
    ForkRep(h, h', t, key, Del(Branch(t, key), key));
  }

  /** The round before the last: the other child moves into the slot of the freed node. */
  lemma {:induction false} RemoveBelow(h: Heap, t: Trie, key: Word)
    requires t.Fork? && Rep(h, Ptr(t.ref), t) && Wf(t) && Unshared(t)
    requires Branch(t, key).Fork? && !Branch(Branch(t, key), key).Fork?
    requires Branch(t, key).ref in h && h[Branch(t, key).ref].Index() == Branch(t, key).index
    ensures Rep(HeapWithout(h, In(t.ref, t.index in key), Branch(t, key).ref, key), Ptr(t.ref), Del(t, key))
  {
    var b := Branch(t, key);
    var n := h[b.ref];
    var right := b.index in key;
    var other := n.FarChild(right);
    RepFoot(h, Ptr(t.ref), t);
    assert Rep(h, other, Other(b, key));
    assert b.ref in Foot(b);
    var h' := HeapWithout(h, In(t.ref, t.index in key), b.ref, key);
    forall r | r in Foot(Other(b, key)) || r in Foot(Other(t, key))
      ensures r in h && r in h' && h'[r] == h[r]
    {
      assert r in Foot(t) && r != b.ref && r != t.ref;
    }
    RepFrame(h, h', other, Other(b, key));
    PromotedFits(n, b, h[t.ref], t, key);
    ForkRep(h, h', t, key, Other(b, key));
  }

  /** The loop goes from a fork to the fork below, while there is one. */
  lemma {:induction false} OwnerNext(h: Heap, slot: Slot, t: Trie, key: Word)
    requires t.Fork? && Rep(h, Ptr(t.ref), t)
    ensures var b := Branch(t, key);
            OwnerAt(h, Ptr(t.ref), slot, key, t)
            == if b.Fork? then OwnerAt(h, h[t.ref].ChildAt(t.index in key), In(t.ref, t.index in key), key, b)
               else (slot, t.ref)
  {
    NodeIndex(h[t.ref], t);
  }

  lemma {:induction false} OwnerFacts(h: Heap, slot: Slot, t: Trie, key: Word)
    requires t.Fork? && Rep(h, Ptr(t.ref), t) && Unshared(t)
    ensures var s := OwnerAt(h, Ptr(t.ref), slot, key, t);
            && s.1 == Freed(t, key) && s.1 in Foot(t)
            && (if Branch(t, key).Fork?
                then s.0.In? && s.0.ref in Foot(t) && s.0.ref != s.1 && s.1 != t.ref
                else s.0 == slot)
    decreases t
  {
    OwnerNext(h, slot, t, key);
    var b := Branch(t, key);
    if b.Fork? {
      OwnerFacts(h, In(t.ref, t.index in key), b, key);
    }
  }

  /** The removal's writes below a fork stand for the removal there. */
  lemma {:induction false} RemoveRep(h: Heap, slot: Slot, t: Trie, key: Word, s: (Slot, nat), h': Heap)
    requires t.Fork? && Rep(h, Ptr(t.ref), t) && Wf(t) && Unshared(t) && Branch(t, key).Fork?
    requires s == OwnerAt(h, Ptr(t.ref), slot, key, t) && s.1 in h && s.0.In? && s.0.ref in h
    requires h' == HeapWithout(h, s.0, s.1, key)
    ensures Rep(h', Ptr(t.ref), Del(t, key))
    decreases t
  {
    var b := Branch(t, key);
    var sb := In(t.ref, t.index in key);
    OwnerNext(h, slot, t, key);
    OwnerNext(h, sb, b, key);
    if Branch(b, key).Fork? {
      OwnerFacts(h, sb, b, key);
      RemoveRep(h, sb, b, key, s, h');
      RemoveAround(h, h', t, key, s.0, s.1);
    } else {
      NodeIndex(h[b.ref], b);
      RemoveBelow(h, t, key);
    }
  }

  /** The removal of a key in the root node itself. */
  lemma {:induction false} RemoveTop(h: Heap, t: Trie, key: Word)
    requires t.Fork? && Rep(h, Ptr(t.ref), t) && Unshared(t) && Nulls(t) == 1 && !Branch(t, key).Fork?
             && !Branch(t, key).Null?
    requires h[t.ref].Index() == t.index
    ensures var other := h[t.ref].FarChild(t.index in key);
            (other.Ptr? || other == NULL_NODE) && Rep(h - {t.ref}, other, Del(t, key))
  {
    var other := h[t.ref].FarChild(t.index in key);
    assert Rep(h, other, Other(t, key));
    RepFoot(h, other, Other(t, key));
    RepFrame(h, h - {t.ref}, other, Other(t, key));
  }

  /** The value read at the freed node is the key's. */
  lemma {:induction false} OwnerValue(h: Heap, c: Child, slot: Slot, t: Trie, key: Word)
    requires t.Fork? && Rep(h, c, t) && Wf(t) && key in Entries(t)
    ensures var ref := OwnerAt(h, c, slot, key, t).1;
            ref in h && h[ref].ChildAt(h[ref].Index() in key) == Data(Entries(t)[key])
    decreases t
  {
    NodeIndex(h[c.ref], t);
    var b := Branch(t, key);
    assert key in Entries(b) && Entries(b)[key] == Entries(t)[key];
    if b.Fork? {
      OwnerValue(h, Ptr(b.ref), In(c.ref, t.index in key), b, key);
    }
  }

  lemma {:induction false} RemoveShape(tree: Trie, key: Word)
    requires PatriciaTrie.Valid(tree) && key in Entries(tree) && tree.Fork?
    ensures var u := Del(tree, key);
            && PatriciaTrie.Valid(u) && Entries(u) == Entries(tree) - {key}
            && Freed(tree, key) in Foot(tree) && Foot(u) == Foot(tree) - {Freed(tree, key)}
  {
    DelKeeps(tree, key);
    DelFoot(tree, key);
  }

  lemma {:induction false} RemoveDone(h: Heap, root: Child, tree: Trie, key: Word, slot: Slot, ref: nat)
    requires Stands(h, root, tree) && key in Entries(tree) && tree.Fork?
             && (slot, ref) == OwnerAt(h, root, Root, key, tree)
    ensures ref in h && (slot.In? ==> slot.ref in h && slot.ref != ref)
    ensures var other := h[ref].FarChild(h[ref].Index() in key);
            && (slot == Root ==> other.Ptr? || other == NULL_NODE)
            && Stands(HeapWithout(h, slot, ref, key), if slot == Root then other else root, Del(tree, key))
            && HeapWithout(h, slot, ref, key).Keys == h.Keys - {ref}
    ensures Entries(Del(tree, key)) == Entries(tree) - {key}
  {
    RemoveShape(tree, key);
    NodeIndex(h[tree.ref], tree);
    OwnerNext(h, Root, tree, key);
    OwnerFacts(h, Root, tree, key);
    if Branch(tree, key).Fork? {
      RemoveRep(h, Root, tree, key, (slot, ref), HeapWithout(h, slot, ref, key));
    } else {
      assert key in Entries(Branch(tree, key));
      RemoveTop(h, tree, key);
    }
  }

  /** The memory after a removal. */
  ghost function Removed(s: Image, key: Word): Image
    requires Standing(s) && key in Entries(s.tree)
  {
    PresentIsFork(s.tree, key);
    var stop := OwnerAt(s.nodes, s.root, Root, key, s.tree);
    RemoveDone(s.nodes, s.root, s.tree, key, stop.0, stop.1);
    var n := s.nodes[stop.1];
    Image(HeapWithout(s.nodes, stop.0, stop.1, key), if stop.0 == Root then n.FarChild(n.Index() in key) else s.root,
          Del(s.tree, key))
  }

  // ----- lookup

  /** What the lookup loop ends with: the value, and the last key word it passed. */
  function Looked(h: Heap, c: Child, last: Option<Word>, key: Word, ghost t: Trie): (nat, Option<Word>)
    requires Rep(h, c, t)
    decreases t
  {
    if c.Ptr? then
      var n := h[c.ref];
      NodeIndex(n, t);
      var right := n.Index() in key;
      Looked(h, n.ChildAt(right), Some(n.Key(right)), key, Branch(t, key))
    else
      (c.value, last)
  }

  /** The assertion at the end of `ptrie_lookup`. */
  predicate Passes(r: (nat, Option<Word>), key: Word) {
    r.1.Some? && High(r.1.value) == key
  }

  /** At a stored size the last key word is its key. */
  lemma {:induction false} LookedAtLeaf(h: Heap, c: Child, last: Option<Word>, key: Word, t: Trie)
    requires Rep(h, c, t) && End(t, key).Leaf? && (t.Leaf? ==> last.Some? && High(last.value) == t.key)
    ensures var r := Looked(h, c, last, key, t);
            r.0 == End(t, key).value && r.1.Some? && High(r.1.value) == End(t, key).key
    decreases t
  {
    if t.Fork? {
      NodeIndex(h[c.ref], t);
      var right := t.index in key;
      LookedAtLeaf(h, h[c.ref].ChildAt(right), Some(h[c.ref].Key(right)), key, Branch(t, key));
    }
  }

  /** The key word beside the empty child. */
  ghost function EmptyWord(h: Heap, c: Child, t: Trie): Option<Word>
    requires Rep(h, c, t)
    decreases t
  {
    if !t.Fork? then
      None
    else if t.left.Null? then
      Some(h[t.ref].keys0)
    else if t.right.Null? then
      Some(h[t.ref].keys1)
    else if Nulls(t.left) > 0 then
      EmptyWord(h, h[t.ref].child0, t.left)
    else
      EmptyWord(h, h[t.ref].child1, t.right)
  }

  lemma {:induction false} EndIsCounted(t: Trie, key: Word)
    ensures End(t, key).Null? ==> Nulls(t) >= 1
  {
    if t.Fork? {
      EndIsCounted(Branch(t, key), key);
    }
  }

  /** At the empty child the last key word is the one beside it. */
  lemma {:induction false} LookedAtEmpty(h: Heap, c: Child, last: Option<Word>, key: Word, t: Trie)
    requires Rep(h, c, t) && End(t, key).Null? && Nulls(t) == 1 && t.Fork?
    ensures Looked(h, c, last, key, t) == (0, EmptyWord(h, c, t))
    decreases t
  {
    NodeIndex(h[c.ref], t);
    var right := t.index in key;
    var b := Branch(t, key);
    EndIsCounted(b, key);
    if b.Fork? {
      LookedAtEmpty(h, h[c.ref].ChildAt(right), Some(h[c.ref].Key(right)), key, b);
    }
  }

  /** The one absent key that the assertion lets through: the key word left beside the empty child, when
      the key's bits lead there. */
  ghost predicate Stale(s: Image, key: Word)
    requires Rep(s.nodes, s.root, s.tree)
  {
    var w := EmptyWord(s.nodes, s.root, s.tree);
    End(s.tree, key).Null? && w.Some? && High(w.value) == key
  }

  /** What a lookup answers, for every key: the size of a key that is there, with the assertion passed;
      otherwise the assertion passes exactly for the stale key, and the answer is then 0. */
  lemma {:induction false} LookedIs(s: Image, key: Word)
    requires Standing(s) && IsKey(key)
    ensures var r := Looked(s.nodes, s.root, None, key, s.tree);
            if key in Entries(s.tree) then
              r.0 == Entries(s.tree)[key] > 0 && Passes(r, key)
            else
              (Passes(r, key) <==> Stale(s, key)) && (Passes(r, key) ==> r.0 == 0)
  {
    EndDecides(s.tree, key);
    if End(s.tree, key).Leaf? {
      LookedAtLeaf(s.nodes, s.root, None, key, s.tree);
    } else if s.tree.Fork? {
      LookedAtEmpty(s.nodes, s.root, None, key, s.tree);
    }
  }

  /** At most one absent key passes. */
  lemma OneStale(s: Image, key: Word, key': Word)
    requires Standing(s) && Stale(s, key) && Stale(s, key')
    ensures key == key'
  {
  }

  // ----- a run that leaves a stale key

  const KEY1: Word := {8}
  const KEY2: Word := {9}
  const EMPTY: Image := Image(map[], NULL_NODE, Null)

  /** The two nodes after both insertions. */
  function First(v: nat, stale: Node): Node {
    Node(KEY1, stale.keys1, Data(v), NULL_NODE)
  }

  function Second(w: nat): Node {
    Node(KEY1 + BitsOf(9, 0), KEY2, Ptr(1), Data(w))
  }

  lemma FirstInsert(v: nat, stale: Node)
    requires v > 0
    ensures Standing(EMPTY) && Inserted(EMPTY, KEY1, v, 1, stale).nodes == map[1 := First(v, stale)]
    ensures Inserted(EMPTY, KEY1, v, 1, stale).root == Ptr(1)
  {
  }

  lemma SecondInsert(s: Image, v: nat, w: nat, stale: Node)
    requires Standing(s) && KEY2 !in Entries(s.tree) && s.nodes == map[1 := First(v, stale)] && s.root == Ptr(1)
    ensures Inserted(s, KEY2, w, 2, stale).nodes == map[1 := First(v, stale), 2 := Second(w)]
    ensures Inserted(s, KEY2, w, 2, stale).root == Ptr(2)
  {
    var n := First(v, stale);
    var x := Xor(KEY2, n.keys0);
    assert n.Index() == 0 by {
      Packs(KEY1, 0);
      assert KEY1 + BitsOf(0, 0) == KEY1;
    }
    assert x == {8, 9};
    assert !Clear(x, 0) by {
      assert 8 in x;
    }
    assert StopAt(s.nodes, s.root, Root, KEY2, s.tree) == (Root, Ptr(1));
    assert HasOne(x, BITS);
    assert HighestOne(x, BITS) == 9;
    assert High(KEY1) == KEY1;
  }

  lemma RemoveFirst(s: Image, v: nat, w: nat, stale: Node)
    requires Standing(s) && KEY1 in Entries(s.tree) && s.root == Ptr(2)
    requires s.nodes == map[1 := First(v, stale), 2 := Second(w)] && v > 0
    ensures Removed(s, KEY1).nodes == map[2 := Second(w).Set(false, KEY1 + BitsOf(9, 0), NULL_NODE)]
    ensures Removed(s, KEY1).root == Ptr(2)
  {
    PresentIsFork(s.tree, KEY1);
    NodeIndices(v, w, stale);
    FirstOwner(s, v, w, stale);
  }

  lemma NodeIndices(v: nat, w: nat, stale: Node)
    ensures First(v, stale).Index() == 0 && Second(w).Index() == 9
  {
    Packs(KEY1, 0);
    assert KEY1 + BitsOf(0, 0) == KEY1;
    Packs(KEY1, 9);
  }

  lemma FirstOwner(s: Image, v: nat, w: nat, stale: Node)
    requires Standing(s) && KEY1 in Entries(s.tree) && s.root == Ptr(2)
    requires s.nodes == map[1 := First(v, stale), 2 := Second(w)]
    ensures s.tree.Fork? && OwnerAt(s.nodes, s.root, Root, KEY1, s.tree) == (In(2, false), 1)
  {
    FirstBranch(s, v, w, stale);
    OwnerNext(s.nodes, Root, s.tree, KEY1);
    OwnerNext(s.nodes, In(2, false), Branch(s.tree, KEY1), KEY1);
  }

  lemma FirstBranch(s: Image, v: nat, w: nat, stale: Node)
    requires Standing(s) && KEY1 in Entries(s.tree) && s.root == Ptr(2)
    requires s.nodes == map[1 := First(v, stale), 2 := Second(w)]
    ensures s.tree.Fork? && s.tree.ref == 2 && s.tree.index == 9
    ensures var b := Branch(s.tree, KEY1);
            b.Fork? && b.ref == 1 && Rep(s.nodes, Ptr(1), b) && !Branch(b, KEY1).Fork?
  {
    PresentIsFork(s.tree, KEY1);
    NodeIndices(v, w, stale);
    NodeIndex(Second(w), s.tree);
    assert s.tree.index == 9 && 9 !in KEY1;
    var b := s.tree.left;
    assert b == Branch(s.tree, KEY1) && Rep(s.nodes, Ptr(1), b);
    NodeIndex(First(v, stale), b);
    assert b.index == 0 && 0 !in KEY1;
    assert Rep(s.nodes, Data(v), b.left);
  }

  /** Insert 0x100, insert 0x200, remove 0x100: the lookup of 0x100 ends at the empty child beside the
      stale key 0x100, passes the assertion, and answers 0. */
  lemma StaleKeyPasses(v: nat, w: nat, stale: Node) returns (s1: Image, s2: Image, s3: Image)
    requires v > 0 && w > 0
    ensures Standing(EMPTY) && s1 == Inserted(EMPTY, KEY1, v, 1, stale)
    ensures Standing(s1) && KEY2 !in Entries(s1.tree) && s2 == Inserted(s1, KEY2, w, 2, stale)
    ensures Standing(s2) && KEY1 in Entries(s2.tree) && s3 == Removed(s2, KEY1)
    ensures Standing(s3) && KEY1 !in Entries(s3.tree) && Stale(s3, KEY1)
    ensures var r := Looked(s3.nodes, s3.root, None, KEY1, s3.tree); Passes(r, KEY1) && r.0 == 0
  {
    FirstInsert(v, stale);
    InsertDone(EMPTY, KEY1, v, 1, stale);
    s1 := Inserted(EMPTY, KEY1, v, 1, stale);
    SecondInsert(s1, v, w, stale);
    InsertDone(s1, KEY2, w, 2, stale);
    s2 := Inserted(s1, KEY2, w, 2, stale);
    RemoveFirst(s2, v, w, stale);
    RemovedStands(s2, KEY1);
    s3 := Removed(s2, KEY1);
    Packs(KEY1, 9);
    NodeIndex(s3.nodes[2], s3.tree);
    LookedIs(s3, KEY1);
  }

  lemma {:induction false} RemovedStands(s: Image, key: Word)
    requires Standing(s) && key in Entries(s.tree)
    ensures Standing(Removed(s, key)) && Entries(Removed(s, key).tree) == Entries(s.tree) - {key}
  {
    PresentIsFork(s.tree, key);
    var stop := OwnerAt(s.nodes, s.root, Root, key, s.tree);
    RemoveDone(s.nodes, s.root, s.tree, key, stop.0, stop.1);
  }

  /** Freed nodes are kept apart from those in use and from each other. */
  predicate Spare(free: seq<nat>, nodes: Heap) {
    Distinct(free) && forall i :: 0 <= i < |free| ==> free[i] !in nodes
  }

  // ----- the operations on a memory

  method InsertInto(h: Heap, root: Child, ghost tree: Trie, key: Word, value: nat, newNode: nat, stale: Node)
    returns (h': Heap, root': Child, ghost tree': Trie)
    requires Stands(h, root, tree) && IsKey(key) && key !in Entries(tree) && newNode !in h
    ensures Image(h', root', tree') == Inserted(Image(h, root, tree), key, value, newNode, stale)
  {
    var slot, c := FindStop(h, root, key, tree);
    StopFacts(h, root, Root, tree, key);
    tree' := Put(tree, key, value, newNode);
    h' := HeapAfter(h, slot, c, key, value, newNode, stale);
    root' := if slot == Root then Ptr(newNode) else root;
  }

  /** When the other child is a stored size its key moves beside the slot, which is then never the
      root; the freed node leaves the memory in use. */
  method RemoveFrom(h: Heap, root: Child, ghost tree: Trie, key: Word)
    returns (h': Heap, root': Child, value: nat, ref: nat, ghost tree': Trie)
    requires Stands(h, root, tree) && IsKey(key) && key in Entries(tree)
    ensures Stands(h', root', tree') && Entries(tree') == Entries(tree) - {key} && value == Entries(tree)[key]
    ensures ref in h && h'.Keys == h.Keys - {ref}
    ensures Image(h', root', tree') == Removed(Image(h, root, tree), key)
  {
    PresentIsFork(tree, key);
    var slot;
    slot, ref := FindOwner(h, root, key, tree);
    RemoveDone(h, root, tree, key, slot, ref);
    OwnerValue(h, root, Root, tree, key);
    tree' := Del(tree, key);
    var n := h[ref];
    var right := n.Index() in key;
    value := n.ChildAt(right).value;
    h', root' := Unhang(h, root, slot, ref, key);
  }

  /** The writes of a removal, in their order: the parent's key, the slot, the free list. */
  method Unhang(h: Heap, root: Child, slot: Slot, ref: nat, key: Word) returns (h': Heap, root': Child)
    requires ref in h && (slot.In? ==> slot.ref in h && slot.ref != ref)
    requires var other := h[ref].FarChild(h[ref].Index() in key);
             slot == Root ==> other.Ptr? || other == NULL_NODE
    ensures h' == HeapWithout(h, slot, ref, key)
    ensures root' == if slot == Root then h[ref].FarChild(h[ref].Index() in key) else root
  {
    var n := h[ref];
    var right := n.Index() in key;
    var other := n.FarChild(right);
    h', root' := h, root;
    if other.Data? && other != NULL_NODE {
      var p := h'[slot.ref];
      h' := h'[slot.ref := p.Set(slot.right, Promoted(other, n.FarKey(right), p.Key(slot.right)),
                                 p.ChildAt(slot.right))];
    }
    if slot == Root {
      root' := other;
    } else {
      var p := h'[slot.ref];
      h' := h'[slot.ref := p.Set(slot.right, p.Key(slot.right), other)];
    }
    h' := h' - {ref};
  }

  class SystemSizes {
    var root: Child
    var nodes: Heap
    /** The recycled nodes, the last freed first. */
    var free: seq<nat>
    ghost var tree: Trie

    ghost predicate Valid()
      reads this
    {
      Stands(nodes, root, tree) && Spare(free, nodes)
    }

    ghost function Contents(): map<Word, nat>
      reads this
    {
      Entries(tree)
    }

    constructor ()
      ensures Valid() && Contents() == map[] && free == []
    {
      root, nodes, free, tree := NULL_NODE, map[], [], Null;
    }

    /** As many nodes are in use as there are keys. */
    lemma NodesAreKeys()
      requires Valid()
      ensures |nodes| == |Contents()|
    {
      NodesCountKeys(tree);
      assert |nodes| == |nodes.Keys|;
    }

    ghost function Now(): Image
      reads this
    {
      Image(nodes, root, tree)
    }

    /** `ptrie_lookup`, with the last key word it passed: the size of a key that is there, and its final
        assertion passed; for any other key the assertion passes exactly when the key is the stale one
        beside the empty child, and the answer is then 0. */
    method Lookup(key: Word) returns (value: nat, lastKey: Option<Word>)
      requires Valid() && IsKey(key)
      ensures (value, lastKey) == Looked(nodes, root, None, key, tree)
      ensures key in Contents() ==> value == Contents()[key] > 0 && Passes((value, lastKey), key)
      ensures key !in Contents() ==>
                (Passes((value, lastKey), key) <==> Stale(Now(), key)) && (Passes((value, lastKey), key) ==> value == 0)
    {
      var node := root;
      lastKey := None;
      ghost var t := tree;
      while node.Ptr?
        invariant Rep(nodes, node, t) && Looked(nodes, node, lastKey, key, t) == Looked(nodes, root, None, key, tree)
        decreases t
      {
        var n := nodes[node.ref];
        NodeIndex(n, t);
        var right := n.Index() in key;
        lastKey := Some(n.Key(right));
        node := n.ChildAt(right);
        t := Branch(t, key);
      }
      value := node.value;
      LookedIs(Now(), key);
    }

    /** `ptrie_insert`; what the new node held before is of no account. A size of 0 is taken for no child,
        and then the memory stands for no trie any more. */
    method Insert(key: Word, value: nat, newNode: nat, stale: Node)
      requires Valid() && IsKey(key) && key !in Contents()
      requires newNode !in nodes && newNode !in free
      modifies this
      ensures Now() == Inserted(old(Now()), key, value, newNode, stale)
      ensures value > 0 ==> Valid() && Contents() == old(Contents())[key := value]
      ensures value == 0 ==> forall u :: !Stands(nodes, root, u)
      ensures nodes.Keys == old(nodes.Keys) + {newNode} && free == old(free)
    {
      InsertDone(Now(), key, value, newNode, stale);
      InsertStandsIff(Now(), key, value, newNode, stale);
      nodes, root, tree := InsertInto(nodes, root, tree, key, value, newNode, stale);
    }

    /** `ptrie_remove`. */
    method Remove(key: Word) returns (value: nat)
      requires Valid() && IsKey(key) && key in Contents()
      modifies this
      ensures value == old(Contents())[key]
      ensures Valid() && Contents() == old(Contents()) - {key} && Now() == Removed(old(Now()), key)
      ensures |free| > 0 && free[0] in old(nodes) && nodes.Keys == old(nodes.Keys) - {free[0]} && free[1..] == old(free)
    {
      var ref;
      nodes, root, value, ref, tree := RemoveFrom(nodes, root, tree, key);
      free := [ref] + free;
    }
  }
}
