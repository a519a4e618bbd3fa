/** Free chunks of dlmalloc's tree bins on a heap of headers, and the trees they represent. */
module TreeHeap {
  import opened Lists
  import opened Bits
  import opened SizeTree

  /** Chunk addresses are positive, 0 is null, and `BinSlot(i)` is the address of treebin `i`,
      which a root chunk has as its parent. */
  function BinSlot(i: nat): int {
    -1 - i
  }

  /** The header of a free chunk in a tree bin. */
  datatype TChunk = TChunk(size: nat, child0: int, child1: int, parent: int, fd: int, bk: int, index: nat)

  type Heap = map<int, TChunk>

  // ----- what the headers represent

  function After(ring: seq<int>, i: nat): int
    requires i < |ring|
  {
    if i + 1 < |ring| then ring[i + 1] else ring[0]
  }

  function Before(ring: seq<int>, i: nat): int
    requires i < |ring|
  {
    if i > 0 then ring[i - 1] else ring[|ring| - 1]
  }

  predicate RingAt(m: Heap, ring: seq<int>, size: nat, i: nat)
    requires i < |ring|
  {
    var c := ring[i];
    && c > 0 && c in m && m[c].size == size && m[c].fd == After(ring, i) && m[c].bk == Before(ring, i)
    && (i > 0 ==> m[c].parent == 0 && m[c].child0 == 0 && m[c].child1 == 0)
  }

  /** One cycle of equal-sized chunks, of which only the first is linked into the tree. */
  predicate RingOk(m: Heap, ring: seq<int>, size: nat) {
    ring != [] && Distinct(ring) && forall i :: 0 <= i < |ring| ==> RingAt(m, ring, size, i)
  }

  /** The headers reachable from `p` form the tree `t`, whose root has parent `par`. */
  predicate Rep(m: Heap, t: Tree, p: int, par: int)
    decreases t
  {
    if t.Leaf? then p == 0
    else
      && RingOk(m, t.ring, t.size) && p == t.ring[0]
      && p > 0 && p in m && m[p].size == t.size && m[p].parent == par
      && Rep(m, t.left, m[p].child0, p)
      && Rep(m, t.right, m[p].child1, p)
  }

  /** No chunk occurs twice. */
  predicate Apart(t: Tree) {
    t.Node? ==>
      && (forall c :: c in t.ring ==> c !in Foot(t.left) && c !in Foot(t.right))
      && Foot(t.left) !! Foot(t.right)
      && Apart(t.left) && Apart(t.right)
  }

  function WithChild(t: Tree, upper: bool, c: Tree): Tree
    requires t.Node?
  {
    if upper then t.(right := c) else t.(left := c)
  }

  /** A child is replaced by one with no other chunks than its own and new ones. */
  lemma {:induction false} ApartChild(t: Tree, upper: bool, c: Tree, more: set<int>)
    requires t.Node? && Apart(t) && Apart(c) && (forall x :: x in more ==> x !in Foot(t))
    requires forall x :: x in Foot(c) ==> x in Foot(if upper then t.right else t.left) || x in more
    ensures Apart(WithChild(t, upper, c))
    ensures var other := if upper then t.left else t.right;
            forall x :: x in Foot(WithChild(t, upper, c)) <==> x in t.ring || x in Foot(other) || x in Foot(c)
  {
    var other := if upper then t.left else t.right;
    forall x | x in Foot(c)
      ensures x !in Foot(other) && x !in t.ring
    {
      assert x in more || x in Foot(t);
    }
    assert Foot(c) !! Foot(other);
  }

  /** All sizes belong to bin `i`. */
  predicate InBin(t: Tree, i: nat) {
    t.Node? ==>
      Holds(i, t.size) && InBin(t.left, i) && InBin(t.right, i)
  }

  lemma RootInFoot(m: Heap, t: Tree, p: int, par: int)
    requires Rep(m, t, p, par)
    ensures if t.Leaf? then p == 0 else p > 0 && p in m && p in Foot(t)
  {
    if t.Node? {
      assert t.ring[0] in t.ring;
    }
  }

  /** A subtree together with the range of sizes it may hold. */
  datatype Sub = Sub(tree: Tree, lo: nat, e: nat)

  predicate SubOk(s: Sub) {
    Trie(s.tree, s.lo, s.e) && s.lo + Pow2(s.e) <= WORD
  }

  function Half(s: Sub, upper: bool): Sub
    requires s.tree.Node?
  {
    if s.e == 0 then Sub(Leaf, s.lo, 0)
    else if upper then Sub(s.tree.right, s.lo + Pow2(s.e - 1), s.e - 1)
    else Sub(s.tree.left, s.lo, s.e - 1)
  }

  /** Whether the request's own path goes into the upper half of a range. */
  predicate Upper(nb: nat, cur: Sub) {
    cur.e > 0 && nb >= cur.lo + Pow2(cur.e - 1)
  }

  /** What a search sees of a tree: sizes and child pointers. */
  predicate Shape(m: Heap, t: Tree, p: int)
    decreases t
  {
    if t.Leaf? then p == 0
    else
      && t.ring != [] && p == t.ring[0] && p > 0 && p in m && m[p].size == t.size < WORD
      && (m[p].child0 == m[p].child1 ==> m[p].child0 == 0)
      && Shape(m, t.left, m[p].child0) && Shape(m, t.right, m[p].child1)
  }

  lemma {:induction false} RepShape(m: Heap, t: Tree, p: int, par: int, i: nat)
    requires Rep(m, t, p, par) && Apart(t) && InBin(t, i)
    ensures Shape(m, t, p)
    decreases t
  {
    if t.Node? {
      RepShape(m, t.left, m[p].child0, p, i);
      RepShape(m, t.right, m[p].child1, p, i);
      RootInFoot(m, t.left, m[p].child0, p);
      RootInFoot(m, t.right, m[p].child1, p);
    }
  }

  /** The key's top bits follow the path of `nb` through the tree. */
  predicate Guides(key: nat, cur: Sub, nb: nat)
    decreases cur.tree
  {
    cur.tree.Node? ==>
      && TopBitOf(key) == (if Upper(nb, cur) then 1 else 0)
      && (cur.e == 0 ==> cur.tree.left.Leaf? && cur.tree.right.Leaf?)
      && Guides(ShiftOne(key), Half(cur, Upper(nb, cur)), nb)
  }

  lemma {:induction false} SteersGuides(key: nat, cur: Sub, nb: nat)
    requires SubOk(cur) && Steers(key, nb, cur.lo, cur.e)
    ensures Guides(key, cur, nb)
    decreases cur.tree
  {
    if cur.tree.Node? && cur.e > 0 {
      SteersGuides(ShiftOne(key), Half(cur, Upper(nb, cur)), nb);
    }
  }

  lemma BinFits(i: nat)
    requires i < BINS
    ensures BinLow(i) + Pow2(BinBits(i)) <= WORD
  {
    Pow2Values();
    if i < 31 {
      BinLowIs(i, Pow2(BinBits(i)));
      Pow2Monotone(BinBits(i), 32);
    }
  }

  lemma StartOk(m: Heap, root: int, idx: nat, nb: nat, bin: Sub)
    requires idx < BINS && BinLow(idx) <= nb < BinLow(idx) + Pow2(BinBits(idx))
    requires BinOk(m, bin.tree, root, idx) && bin.lo == BinLow(idx) && bin.e == BinBits(idx)
    ensures Shape(m, bin.tree, root) && SubOk(bin) && Guides(StartKey(nb, idx), bin, nb)
  {
    RepShape(m, bin.tree, root, BinSlot(idx), idx);
    BinFits(idx);
    SteersStart(nb, idx);
    SteersGuides(StartKey(nb, idx), bin, nb);
  }

  // ----- all bins together

  ghost predicate BinOk(m: Heap, t: Tree, root: int, i: nat)
    requires i < BINS
  {
    && Rep(m, t, root, BinSlot(i)) && Apart(t) && Trie(t, BinLow(i), BinBits(i)) && InBin(t, i)
  }

  predicate Indexed(m: Heap, t: Tree, i: nat) {
    forall c :: c in Foot(t) ==> c in m && m[c].index == i
  }

  ghost predicate BinAt(m: Heap, root: int, marked: bool, t: Tree, i: nat)
    requires i < BINS
  {
    BinOk(m, t, root, i) && Indexed(m, t, i) && (marked <==> t.Node?)
  }

  /** Every bin represents its tree and is marked when non-empty; every chunk is in the bin it names. */
  ghost predicate BinsOk(m: Heap, roots: seq<int>, treemap: set<nat>, bins: seq<Tree>) {
    && |bins| == BINS && |roots| == BINS
    && (forall i :: 0 <= i < BINS ==> BinAt(m, roots[i], i in treemap, bins[i], i))
    && (forall i :: i in treemap ==> i < BINS)
    && (forall c :: c in m ==> m[c].index < BINS && c in Foot(bins[m[c].index]))
  }
}
