/** The nodes of ltalloc's trie in memory: what stands for a trie, and what writing one child word,
    with the key beside it, does to it. */
module PatriciaHeap {
  import opened BitmapFields
  import opened PatriciaTrie
  import opened Bits

  // ----- a node's first key word also holds the branch position, in its low eight bits

  /** The one bits of a number, from position `at` on. */
  function BitsOf(i: nat, at: nat): (w: Word)
    decreases i
  {
    if i == 0 then {} else (if i % 2 == 1 then {at} else {}) + BitsOf(i / 2, at + 1)
  }

  /** The number that `n` bits from position `at` on stand for. */
  function Low(w: Word, at: nat, n: nat): nat
    decreases n
  {
    if n == 0 then 0 else (if at in w then 1 else 0) + 2 * Low(w, at + 1, n - 1)
  }

  function High(w: Word): (k: Word)
    ensures forall j :: j in k <==> j in w && j >= 8
  {
    w - {0, 1, 2, 3, 4, 5, 6, 7}
  }

  lemma {:induction false} BitsOfRange(i: nat, at: nat, n: nat)
    requires i < Pow2(n)
    ensures forall j :: j in BitsOf(i, at) ==> at <= j < at + n
    decreases n
  {
    if i != 0 {
      BitsOfRange(i / 2, at + 1, n - 1);
    }
  }

  lemma {:induction false} LowOfBits(w: Word, i: nat, at: nat, n: nat)
    requires i < Pow2(n) && forall j :: at <= j < at + n ==> (j in w <==> j in BitsOf(i, at))
    ensures Low(w, at, n) == i
    decreases n
  {
    if n > 0 {
      BitsOfRange(i / 2, at + 1, n - 1);
      assert at in w <==> at in BitsOf(i, at);
      assert at in BitsOf(i, at) <==> i % 2 == 1;
      forall j | at + 1 <= j < at + 1 + (n - 1)
        ensures j in w <==> j in BitsOf(i / 2, at + 1)
      {
        assert j in w <==> j in BitsOf(i, at);
      }
      LowOfBits(w, i / 2, at + 1, n - 1);
    }
  }

  /** A key and a position packed into one word come apart again. */
  lemma Packs(key: Word, i: nat)
    requires IsKey(key) && i < BITS
    ensures Low(key + BitsOf(i, 0), 0, 8) == i && High(key + BitsOf(i, 0)) == key && IsWord(key + BitsOf(i, 0))
    ensures i == 0 ==> BitsOf(i, 0) == {}
    ensures forall j :: j in BitsOf(i, 0) ==> j < 8
  {
    Pow2Values();
    assert Pow2(8) == 256;
    BitsOfRange(i, 0, 8);
    LowOfBits(key + BitsOf(i, 0), i, 0, 8);
  }

  // ----- nodes

  /** A child word: a pointer, or a stored size with the low bit set, where size 0 is no child. */
  datatype Child = Ptr(ref: nat) | Data(value: nat)

  const NULL_NODE: Child := Data(0)

  datatype Node = Node(keys0: Word, keys1: Word, child0: Child, child1: Child)
  {
    /** `keys[0] & 0xFF` */
    function Index(): nat { Low(keys0, 0, 8) }
    function Key(right: bool): Word { if right then keys1 else keys0 }
    function ChildAt(right: bool): Child { if right then child1 else child0 }
    /** The key and the child on the other side. */
    function FarKey(right: bool): Word { if right then keys0 else keys1 }
    function FarChild(right: bool): Child { if right then child0 else child1 }
    function Set(right: bool, w: Word, c: Child): Node {
      if right then Node(keys0, w, child0, c) else Node(w, keys1, c, child1)
    }
  }

  type Heap = map<nat, Node>

  /** A node's own words fit a fork; the keys beside stored sizes are those sizes' keys. */
  ghost predicate NodeFits(n: Node, t: Trie)
    requires t.Fork?
  {
    && IsKey(High(n.keys0)) && t.index < BITS
    && n.keys0 == High(n.keys0) + BitsOf(t.index, 0)
    && Above(High(n.keys0), t.index) == t.prefix
    && (t.left.Leaf? ==> High(n.keys0) == t.left.key)
    && (t.right.Leaf? ==> High(n.keys1) == t.right.key)
  }

  ghost predicate Rep(h: Heap, c: Child, t: Trie)
    decreases t
  {
    match t
    case Null => c == NULL_NODE
    case Leaf(_, v) => c == Data(v) && v > 0
    case Fork(ref, _, _, l, r) =>
      c == Ptr(ref) && ref in h && NodeFits(h[ref], t) && Rep(h, h[ref].child0, l) && Rep(h, h[ref].child1, r)
  }

  lemma NodeIndex(n: Node, t: Trie)
    requires t.Fork? && NodeFits(n, t)
    ensures n.Index() == t.index
  {
    Packs(High(n.keys0), t.index);
  }

  lemma {:induction false} RepFrame(h: Heap, h': Heap, c: Child, t: Trie)
    requires Rep(h, c, t) && forall r :: r in Foot(t) ==> r in h && r in h' && h'[r] == h[r]
    ensures Rep(h', c, t)
    decreases t
  {
    if t.Fork? {
      assert t.ref in Foot(t);
      RepFrame(h, h', h[t.ref].child0, t.left);
      RepFrame(h, h', h[t.ref].child1, t.right);
    }
  }

  lemma {:induction false} RepFoot(h: Heap, c: Child, t: Trie)
    requires Rep(h, c, t)
    ensures forall r :: r in Foot(t) ==> r in h
    decreases t
  {
    if t.Fork? {
      RepFoot(h, h[t.ref].child0, t.left);
      RepFoot(h, h[t.ref].child1, t.right);
    }
  }

  /** A fork whose branch for `key` has been replaced, when the node fits and the other side has not
      been touched. */
  lemma {:induction false} ForkRep(h: Heap, h': Heap, t: Trie, key: Word, s: Trie)
    requires t.Fork? && Rep(h, Ptr(t.ref), t) && t.ref in h' && NodeFits(h'[t.ref], WithBranch(t, key, s))
    requires h'[t.ref].FarChild(t.index in key) == h[t.ref].FarChild(t.index in key)
    requires Rep(h', h'[t.ref].ChildAt(t.index in key), s)
    requires forall r :: r in Foot(Other(t, key)) ==> r in h && r in h' && h'[r] == h[r]
    ensures Rep(h', Ptr(t.ref), WithBranch(t, key, s))
  {
    RepFrame(h, h', h[t.ref].FarChild(t.index in key), Other(t, key));
  }

  // ----- where a child hangs

  datatype Slot = Root | In(ref: nat, right: bool)

  /** The key beside a slot is the key of the size stored in it. */
  ghost predicate SlotKnows(h: Heap, slot: Slot, t: Trie) {
    && (slot.In? ==> slot.ref in h)
    && (t.Leaf? ==> slot.In? && High(h[slot.ref].Key(slot.right)) == t.key)
  }

  lemma ForkKnows(h: Heap, t: Trie, key: Word)
    requires t.Fork? && Rep(h, Ptr(t.ref), t)
    ensures SlotKnows(h, In(t.ref, t.index in key), Branch(t, key))
  {
  }
}
