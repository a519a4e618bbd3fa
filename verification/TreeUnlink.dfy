/** Unlinking a chunk from a tree bin (`unlink_large_chunk`). */
module TreeUnlink {
  import opened Lists
  import opened Bits
  import opened SizeTree
  import opened TreeHeap
  import opened TreeInsert

  // ----- on values

  predicate Childless(t: Tree)
    requires t.Node?
  {
    t.left.Leaf? && t.right.Leaf?
  }

  /** The leaf reached by going right when possible, else left. */
  function RightLeaf(t: Tree): (r: Tree)
    requires t.Node?
    ensures r.Node?
  {
    if t.right.Node? then RightLeaf(t.right) else if t.left.Node? then RightLeaf(t.left) else t
  }

  /** The tree without that leaf. */
  function Prune(t: Tree): (r: Tree)
    requires t.Node?
    ensures r.Node? <==> !Childless(t)
  {
    if t.right.Node? then t.(right := Prune(t.right))
    else if t.left.Node? then t.(left := Prune(t.left))
    else Leaf
  }

  function IndexIn(ring: seq<int>, x: int): (k: nat)
    requires x in ring
    ensures k < |ring| && ring[k] == x
  {
    if ring[0] == x then 0 else 1 + IndexIn(ring[1..], x)
  }

  /** The ring without `x`; when `x` was its first, the one before it takes its place. */
  function RingWithout(ring: seq<int>, k: nat): seq<int>
    requires k < |ring|
  {
    if |ring| == 1 then []
    else if k == 0 then [ring[|ring| - 1]] + ring[1..|ring| - 1]
    else ring[..k] + ring[k + 1..]
  }

  /** The tree of `x` after `x` is gone. */
  function Without(t: Tree, x: int): Tree
    requires t.Node? && x in t.ring
  {
    if |t.ring| > 1 then t.(ring := RingWithout(t.ring, IndexIn(t.ring, x)))
    else if Childless(t) then Leaf
    else
      var p := Prune(t);
      p.(ring := RightLeaf(t).ring, size := RightLeaf(t).size)
  }

  function Del(t: Tree, x: int): Tree {
    if t.Leaf? then t
    else if x in t.ring then Without(t, x)
    else if x in Foot(t.left) then t.(left := Del(t.left, x))
    else t.(right := Del(t.right, x))
  }

  lemma RingWithoutMembers(ring: seq<int>, k: nat)
    requires k < |ring| && Distinct(ring)
    ensures Distinct(RingWithout(ring, k))
    ensures forall c :: c in RingWithout(ring, k) <==> c in ring && c != ring[k]
  {
    var ring' := RingWithout(ring, k);
    forall c | c in ring && c != ring[k]
      ensures c in ring'
    {
      var j :| 0 <= j < |ring| && ring[j] == c;
      if |ring| > 1 {
        if k > 0 {
          assert ring'[if j < k then j else j - 1] == c;
        } else {
          assert ring'[if j == |ring| - 1 then 0 else j] == c;
        }
      }
    }
  }

  lemma {:induction false} RangeAbsent(t: Tree, lo: nat, e: nat, z: nat)
    requires Trie(t, lo, e) && (z < lo || z >= lo + Pow2(e))
    ensures Absent(t, z)
  {
    if t.Node? && e > 0 {
      RangeAbsent(t.left, lo, e - 1, z);
      RangeAbsent(t.right, lo + Pow2(e - 1), e - 1, z);
    }
  }

  lemma {:induction false} PruneAbsent(t: Tree, z: nat)
    requires t.Node? && Absent(t, z)
    ensures Absent(Prune(t), z) && RightLeaf(t).size != z
  {
    if t.right.Node? {
      PruneAbsent(t.right, z);
    } else if t.left.Node? {
      PruneAbsent(t.left, z);
    }
  }

  /** Pruning keeps the trie, and no trace of the leaf's size stays behind. */
  lemma {:induction false} PruneKeeps(t: Tree, lo: nat, e: nat, i: nat)
    requires t.Node? && Trie(t, lo, e) && InBin(t, i)
    ensures Trie(Prune(t), lo, e) && InBin(Prune(t), i) && Absent(Prune(t), RightLeaf(t).size)
    ensures lo <= RightLeaf(t).size < lo + Pow2(e) && Holds(i, RightLeaf(t).size) && RightLeaf(t).ring != []
  {
    if t.right.Node? {
      PruneKeeps(t.right, lo + Pow2(e - 1), e - 1, i);
      PruneAbsent(t.right, t.size);
      RangeAbsent(t.left, lo, e - 1, RightLeaf(t).size);
    } else if t.left.Node? {
      PruneKeeps(t.left, lo, e - 1, i);
      PruneAbsent(t.left, t.size);
    }
  }

  lemma {:induction false} LeafRing(t: Tree)
    requires t.Node?
    ensures forall c :: c in RightLeaf(t).ring ==> c in Foot(t)
  {
    if t.right.Node? {
      LeafRing(t.right);
    } else if t.left.Node? {
      LeafRing(t.left);
    }
  }

  lemma {:induction false} PruneFoot(t: Tree)
    requires t.Node? && Apart(t)
    ensures Apart(Prune(t))
    ensures forall c :: c in Foot(Prune(t)) <==> c in Foot(t) && c !in RightLeaf(t).ring
    ensures forall c :: c in RightLeaf(t).ring ==> c in Foot(t)
  {
    LeafRing(t);
    if t.right.Node? {
      PruneFoot(t.right);
      LeafRing(t.right);
      ApartChild(t, true, Prune(t.right), {});
    } else if t.left.Node? {
      PruneFoot(t.left);
      LeafRing(t.left);
      ApartChild(t, false, Prune(t.left), {});
    }
  }

  lemma WithoutKeeps(t: Tree, lo: nat, e: nat, i: nat, x: int)
    requires t.Node? && Trie(t, lo, e) && InBin(t, i) && Apart(t) && x in t.ring && Distinct(t.ring)
    ensures Trie(Without(t, x), lo, e) && InBin(Without(t, x), i)
  {
    RingWithoutMembers(t.ring, IndexIn(t.ring, x));
    if |t.ring| == 1 {
      PruneKeeps(t, lo, e, i);
    }
  }

  lemma WithoutFoot(t: Tree, x: int)
    requires t.Node? && Apart(t) && x in t.ring && Distinct(t.ring)
    ensures Apart(Without(t, x)) && forall c :: c in Foot(Without(t, x)) <==> c in Foot(t) && c != x
  {
    RingWithoutMembers(t.ring, IndexIn(t.ring, x));
    if |t.ring| == 1 {
      assert t.ring == [x];
      PruneFoot(t);
      if !Childless(t) {
        assert Foot(Prune(t)) == {x} + Foot(Prune(t).left) + Foot(Prune(t).right);
        LeafApart(t);
      }
    }
  }

  /** The leaf that moves up is not the root it replaces. */
  lemma LeafApart(t: Tree)
    requires t.Node? && Apart(t) && !Childless(t)
    ensures forall c :: c in RightLeaf(t).ring ==> c !in t.ring
  {
    LeafRing(if t.right.Node? then t.right else t.left);
  }

  predicate RingsDistinct(t: Tree) {
    t.Node? ==> Distinct(t.ring) && RingsDistinct(t.left) && RingsDistinct(t.right)
  }

  lemma {:induction false} DelAbsent(t: Tree, x: int, z: nat)
    requires Absent(t, z)
    ensures Absent(Del(t, x), z)
  {
    if t.Node? {
      if x in t.ring {
        PruneAbsent(t, z);
      } else {
        DelAbsent(t.left, x, z);
        DelAbsent(t.right, x, z);
      }
    }
  }

  /** Unlinking keeps the trie. */
  lemma {:induction false} DelKeeps(t: Tree, lo: nat, e: nat, i: nat, x: int)
    requires Trie(t, lo, e) && InBin(t, i) && Apart(t) && RingsDistinct(t) && x in Foot(t)
    ensures Trie(Del(t, x), lo, e) && InBin(Del(t, x), i)
  {
    if x in t.ring {
      WithoutKeeps(t, lo, e, i, x);
    } else if x in Foot(t.left) {
      DelKeeps(t.left, lo, e - 1, i, x);
      DelAbsent(t.left, x, t.size);
    } else {
      DelKeeps(t.right, lo + Pow2(e - 1), e - 1, i, x);
      DelAbsent(t.right, x, t.size);
    }
  }

  /** Unlinking takes out exactly one chunk. */
  lemma {:induction false} DelFoot(t: Tree, x: int)
    requires Apart(t) && RingsDistinct(t) && x in Foot(t)
    ensures Apart(Del(t, x)) && forall c :: c in Foot(Del(t, x)) <==> c in Foot(t) && c != x
  {
    if x in t.ring {
      WithoutFoot(t, x);
    } else if x in Foot(t.left) {
      DelFoot(t.left, x);
      ApartChild(t, false, Del(t.left, x), {});
    } else {
      DelFoot(t.right, x);
      ApartChild(t, true, Del(t.right, x), {});
    }
  }

  lemma {:induction false} RepRings(m: Heap, t: Tree, p: int, par: int)
    requires Rep(m, t, p, par)
    ensures RingsDistinct(t)
    decreases t
  {
    if t.Node? {
      RepRings(m, t.left, m[p].child0, p);
      RepRings(m, t.right, m[p].child1, p);
    }
  }

  // ----- on the heap

  /** Only links differ. */
  predicate SameChunks(m: Heap, m': Heap) {
    m'.Keys == m.Keys && forall c :: c in m ==> m'[c].size == m[c].size && m'[c].index == m[c].index
  }

  /** Take `x` out of its ring. */
  function RingOut(m: Heap, x: int): (m': Heap)
  {
    if x !in m || m[x].fd !in m || m[x].bk !in m then m
    else
      var f, r := m[x].fd, m[x].bk;
      var m1 := m[f := m[f].(bk := r)];
      m1[r := m1[r].(fd := f)]
  }

  function SetChild(m: Heap, p: int, upper: bool, c: int): (m': Heap)
  {
    if p !in m then m else m[p := if upper then m[p].(child1 := c) else m[p].(child0 := c)]
  }

  function SetParent(m: Heap, c: int, r: int): (m': Heap)
  {
    if c !in m then m else m[c := m[c].(parent := r)]
  }

  /** `r` takes over the parent and the children of `x`. */
  function Adopt(m: Heap, x: int, r: int, par: int): (m': Heap)
    requires x in m
  {
    var c0, c1 := m[x].child0, m[x].child1;
    var m1 := SetParent(m, r, par);
    var m2 := if c0 != 0 then SetParent(SetChild(m1, r, false, c0), c0, r) else m1;
    if c1 != 0 then SetParent(SetChild(m2, r, true, c1), c1, r) else m2
  }

  lemma RingOutOk(m: Heap, ring: seq<int>, k: nat, s: nat)
    requires RingOk(m, ring, s) && k < |ring| && |ring| > 1
    requires ring[k] in m && m[ring[k]].fd in m && m[ring[k]].bk in m
    ensures RingOk(RingOut(m, ring[k]), RingWithout(ring, k), s)
  {
    var m', ring' := RingOut(m, ring[k]), RingWithout(ring, k);
    RingWithoutMembers(ring, k);
    assert RingAt(m, ring, s, k);
    forall j | 0 <= j < |ring'|
      ensures RingAt(m', ring', s, j)
    {
      var i := RingWithoutAt(ring, k, j);
      assert RingAt(m, ring, s, i);
      AfterIffBefore(ring, i, k);
      AfterIffBefore(ring, k, i);
    }
  }

  /** Where a chunk of the smaller ring was, and what becomes of its neighbours. */
  lemma RingWithoutAt(ring: seq<int>, k: nat, j: nat) returns (i: nat)
    requires Distinct(ring) && k < |ring| && |ring| > 1 && j < |RingWithout(ring, k)|
    ensures i < |ring| && i != k && (j > 0 ==> i > 0)
    ensures var ring' := RingWithout(ring, k);
            && ring'[j] == ring[i]
            && After(ring', j) == (if After(ring, i) == ring[k] then After(ring, k) else After(ring, i))
            && Before(ring', j) == (if Before(ring, i) == ring[k] then Before(ring, k) else Before(ring, i))
  {
    var ring', n := RingWithout(ring, k), |ring|;
    if k == 0 {
      i := if j == 0 then n - 1 else j;
      assert ring'[0] == ring[n - 1] && forall l :: 1 <= l < n - 1 ==> ring'[l] == ring[l];
    } else {
      i := if j < k then j else j + 1;
      assert forall l :: 0 <= l < k ==> ring'[l] == ring[l];
      assert forall l :: k <= l < n - 1 ==> ring'[l] == ring[l + 1];
    }
    RingStep(ring, k, i);
  }

  /** The neighbours of a position, by position. */
  lemma RingStep(ring: seq<int>, k: nat, i: nat)
    requires Distinct(ring) && k < |ring| && i < |ring|
    ensures After(ring, i) == ring[k] <==> k == (if i + 1 < |ring| then i + 1 else 0)
    ensures Before(ring, i) == ring[k] <==> k == (if i > 0 then i - 1 else |ring| - 1)
  {
  }

  lemma AfterIffBefore(ring: seq<int>, i: nat, k: nat)
    requires Distinct(ring) && i < |ring| && k < |ring|
    ensures After(ring, i) == ring[k] <==> ring[i] == Before(ring, k)
  {
  }

  /** A subtree whose root gets another parent. */
  lemma RepReparented(m: Heap, m': Heap, t: Tree, p: int, par: int, par': int)
    requires Rep(m, t, p, par) && Apart(t)
    requires t.Node? ==> p in m && p in m' && m'[p] == m[p].(parent := par')
    requires forall c :: c in Foot(t) && c != p ==> c in m && c in m' && m'[c] == m[c]
    ensures Rep(m', t, p, par')
  {
    if t.Node? {
      assert p in t.ring;
      forall k | 0 <= k < |t.ring|
        ensures RingAt(m', t.ring, t.size, k)
      {
        assert RingAt(m, t.ring, t.size, k) && t.ring[k] in t.ring;
        assert k > 0 ==> t.ring[k] != t.ring[0];
      }
      RepFrame(m, m', t.left, m[p].child0, p);
      RepFrame(m, m', t.right, m[p].child1, p);
    }
  }

  lemma AdoptIs(m: Heap, x: int, r: int, par: int)
    requires x in m && r in m && (m[x].child0 != 0 ==> m[x].child0 in m) && (m[x].child1 != 0 ==> m[x].child1 in m)
    requires r != 0 && r != m[x].child0 && r != m[x].child1 && m[r].child0 == 0 && m[r].child1 == 0
    requires m[x].child0 == m[x].child1 ==> m[x].child0 == 0
    ensures var m', c0, c1 := Adopt(m, x, r, par), m[x].child0, m[x].child1;
            && m'.Keys == m.Keys
            && m'[r] == m[r].(parent := par, child0 := c0, child1 := c1)
            && (c0 != 0 ==> m'[c0] == m[c0].(parent := r))
            && (c1 != 0 ==> m'[c1] == m[c1].(parent := r))
            && forall c :: c in m && c != r && c != c0 && c != c1 ==> m'[c] == m[c]
  {
  }

  /** Giving the children of `x` to the first of a ring makes a tree of that ring. */
  lemma AdoptRep(m: Heap, x: int, ring: seq<int>, s: nat, l: Tree, r: Tree, par: int)
    requires RingOk(m, ring, s) && x in m && ring[0] in m && m[ring[0]].child0 == 0 && m[ring[0]].child1 == 0
    requires Rep(m, l, m[x].child0, x) && Rep(m, r, m[x].child1, x) && Apart(Node(ring, s, l, r))
    requires (m[x].child0 != 0 ==> m[x].child0 in m) && (m[x].child1 != 0 ==> m[x].child1 in m)
    ensures Rep(Adopt(m, x, ring[0], par), Node(ring, s, l, r), ring[0], par)
  {
    var m' := Adopt(m, x, ring[0], par);
    RootInFoot(m, l, m[x].child0, x);
    RootInFoot(m, r, m[x].child1, x);
    assert RingAt(m, ring, s, 0) && ring[0] in ring;
    AdoptIs(m, x, ring[0], par);
    forall k | 0 <= k < |ring|
      ensures RingAt(m', ring, s, k)
    {
      assert RingAt(m, ring, s, k) && ring[k] in ring;
      assert k > 0 ==> ring[k] != ring[0];
    }
    FootInHeap(m, l, m[x].child0, x);
    FootInHeap(m, r, m[x].child1, x);
    RepReparented(m, m', l, m[x].child0, x, ring[0]);
    RepReparented(m, m', r, m[x].child1, x, ring[0]);
  }

  /** The slot that points to the rightmost leaf. */
  datatype Slot = Slot(owner: int, upper: bool)

  function LeafSlot(t: Tree): Slot
    requires t.Node? && !Childless(t) && t.ring != []
  {
    var c := if t.right.Node? then t.right else t.left;
    if Childless(c) || c.ring == [] then Slot(t.ring[0], t.right.Node?) else LeafSlot(c)
  }

  /** Clearing that slot prunes the tree and leaves the leaf's ring as it was. */
  lemma {:induction false} PruneRep(m: Heap, t: Tree, p: int, par: int)
    requires t.Node? && !Childless(t) && Rep(m, t, p, par) && Apart(t)
    ensures var slot, leaf := LeafSlot(t), RightLeaf(t);
            && slot.owner in m && slot.owner in Foot(t) && slot.owner !in leaf.ring
            && Rep(SetChild(m, slot.owner, slot.upper, 0), Prune(t), p, par)
            && RingOk(m, leaf.ring, leaf.size) && leaf.ring[0] in m
            && m[leaf.ring[0]].child0 == 0 && m[leaf.ring[0]].child1 == 0
            && leaf.ring[0] == (if slot.upper then m[slot.owner].child1 else m[slot.owner].child0)
    decreases t
  {
    var upper := t.right.Node?;
    var c := if upper then t.right else t.left;
    var q := if upper then m[p].child1 else m[p].child0;
    assert p in t.ring;
    FootInHeap(m, t, p, par);
    RootInFoot(m, c, q, p);
    if Childless(c) {
      assert Rep(m, c.left, m[q].child0, q) && Rep(m, c.right, m[q].child1, q);
      assert forall d :: d in c.ring ==> d in Foot(c);
      PruneHere(m, t, p, par, upper);
    } else {
      PruneRep(m, c, q, p);
      PruneFoot(c);
      PruneBelow(m, t, p, par, upper);
    }
  }

  lemma PruneHere(m: Heap, t: Tree, p: int, par: int, upper: bool)
    requires t.Node? && Rep(m, t, p, par) && Apart(t)
    ensures Rep(SetChild(m, p, upper, 0), if upper then t.(right := Leaf) else t.(left := Leaf), p, par)
  {
    var m' := SetChild(m, p, upper, 0);
    assert p in t.ring;
    FootInHeap(m, t, p, par);
    forall k | 0 <= k < |t.ring|
      ensures RingAt(m', t.ring, t.size, k)
    {
      assert RingAt(m, t.ring, t.size, k) && t.ring[k] in t.ring;
      assert k > 0 ==> t.ring[k] != t.ring[0];
    }
    if upper {
      RepFrame(m, m', t.left, m[p].child0, p);
    } else {
      RepFrame(m, m', t.right, m[p].child1, p);
    }
  }

  lemma PruneBelow(m: Heap, t: Tree, p: int, par: int, upper: bool)
    requires t.Node? && Rep(m, t, p, par) && Apart(t) && upper == t.right.Node?
    requires var c := if upper then t.right else t.left;
             && c.Node? && !Childless(c) && c.ring != [] && LeafSlot(c).owner in m && LeafSlot(c).owner in Foot(c)
             && Rep(SetChild(m, LeafSlot(c).owner, LeafSlot(c).upper, 0), Prune(c),
                    if upper then m[p].child1 else m[p].child0, p)
    ensures Rep(SetChild(m, LeafSlot(t).owner, LeafSlot(t).upper, 0), Prune(t), p, par)
  {
    var slot := LeafSlot(t);
    var m' := SetChild(m, slot.owner, slot.upper, 0);
    assert p in t.ring;
    FootInHeap(m, t, p, par);
    RingFrame(m, m', t.ring, t.size);
    if upper {
      RepFrame(m, m', t.left, m[p].child0, p);
    }
  }

  /** What takes the place of the root of `n` when `x` of its ring goes. */
  function NewRoot(m: Heap, n: Tree, x: int): int
    requires n.Node? && n.ring != [] && x in m
  {
    if x != n.ring[0] then n.ring[0]
    else if |n.ring| > 1 then m[x].bk
    else if Childless(n) || RightLeaf(n).ring == [] then 0
    else RightLeaf(n).ring[0]
  }

  /** The headers below `n` after `x` of its ring is gone. */
  function Local(m: Heap, n: Tree, x: int, par: int): Heap
    requires n.Node? && n.ring != [] && x in m
  {
    if x != n.ring[0] then RingOut(m, x)
    else if |n.ring| > 1 then Adopt(RingOut(m, x), x, m[x].bk, par)
    else if Childless(n) || RightLeaf(n).ring == [] then m
    else Adopt(SetChild(m, LeafSlot(n).owner, LeafSlot(n).upper, 0), x, RightLeaf(n).ring[0], par)
  }

  lemma RingNeighbours(m: Heap, ring: seq<int>, s: nat, x: int)
    requires RingOk(m, ring, s) && x in ring
    ensures x in m && m[x].fd in ring && m[x].bk in ring && m[x].fd in m && m[x].bk in m
    ensures m[x].fd == After(ring, IndexIn(ring, x)) && m[x].bk == Before(ring, IndexIn(ring, x))
  {
    var k := IndexIn(ring, x);
    assert RingAt(m, ring, s, k);
    assert RingAt(m, ring, s, if k + 1 < |ring| then k + 1 else 0);
    assert RingAt(m, ring, s, if k > 0 then k - 1 else |ring| - 1);
  }

  lemma LocalMember(m: Heap, n: Tree, p: int, par: int, x: int)
    requires n.Node? && Rep(m, n, p, par) && Apart(n) && x in n.ring && x in m && x != n.ring[0]
    ensures Rep(Local(m, n, x, par), Without(n, x), p, par)
    ensures forall c :: c in m && c !in n.ring ==> c in Local(m, n, x, par) && Local(m, n, x, par)[c] == m[c]
    ensures Local(m, n, x, par).Keys == m.Keys
  {
    var m', k := RingOut(m, x), IndexIn(n.ring, x);
    RingNeighbours(m, n.ring, n.size, x);
    RingOutOk(m, n.ring, k, n.size);
    assert p in n.ring;
    FootInHeap(m, n, p, par);
    RepFrame(m, m', n.left, m[p].child0, p);
    RepFrame(m, m', n.right, m[p].child1, p);
  }

  /** The ring without its first, before the promoted chunk adopts the children. */
  lemma HeadOut(m: Heap, n: Tree, p: int, par: int, x: int)
    requires n.Node? && Rep(m, n, p, par) && Apart(n) && x in m && x == n.ring[0] && |n.ring| > 1
    ensures var m1, ring := RingOut(m, x), RingWithout(n.ring, 0);
            && m1.Keys == m.Keys && RingOk(m1, ring, n.size) && ring[0] == m[x].bk && ring[0] in m1
            && m1[ring[0]].child0 == 0 && m1[ring[0]].child1 == 0
            && m1[x].child0 == m[x].child0 && m1[x].child1 == m[x].child1
            && Rep(m1, n.left, m[x].child0, x) && Rep(m1, n.right, m[x].child1, x)
            && (forall c :: c in ring ==> c in n.ring && c != x)
            && (forall c :: c in m && c !in n.ring ==> m1[c] == m[c])
  {
    var m1, ring := RingOut(m, x), RingWithout(n.ring, 0);
    assert x in n.ring;
    RingNeighbours(m, n.ring, n.size, x);
    RingWithoutMembers(n.ring, 0);
    RingOutOk(m, n.ring, 0, n.size);
    assert RingAt(m, n.ring, n.size, |n.ring| - 1);
    FootInHeap(m, n, p, par);
    RepFrame(m, m1, n.left, m[p].child0, p);
    RepFrame(m, m1, n.right, m[p].child1, p);
  }

  lemma AdoptFrame(m: Heap, x: int, r: int, par: int, l: Tree, u: Tree)
    requires x in m && r in m && r > 0 && Rep(m, l, m[x].child0, x) && Rep(m, u, m[x].child1, x)
    ensures var m' := Adopt(m, x, r, par);
            m'.Keys == m.Keys && forall c :: c in m && c != r && c !in Foot(l) && c !in Foot(u) ==> m'[c] == m[c]
  {
    RootInFoot(m, l, m[x].child0, x);
    RootInFoot(m, u, m[x].child1, x);
  }

  lemma LocalHead(m: Heap, n: Tree, p: int, par: int, x: int)
    requires n.Node? && Rep(m, n, p, par) && Apart(n) && x in m && x == n.ring[0] && |n.ring| > 1
    ensures x in n.ring && Rep(Local(m, n, x, par), Without(n, x), NewRoot(m, n, x), par)
    ensures Local(m, n, x, par).Keys == m.Keys
    ensures forall c :: c in m && c !in Foot(n) ==> Local(m, n, x, par)[c] == m[c]
  {
    var m1, ring := RingOut(m, x), RingWithout(n.ring, 0);
    assert x in n.ring && IndexIn(n.ring, x) == 0;
    HeadOut(m, n, p, par, x);
    assert ring[0] in ring && ring[0] in n.ring;
    RootInFoot(m1, n.left, m1[x].child0, x);
    RootInFoot(m1, n.right, m1[x].child1, x);
    AdoptRep(m1, x, ring, n.size, n.left, n.right, par);
    assert RingAt(m1, ring, n.size, 0);
    AdoptFrame(m1, x, ring[0], par, n.left, n.right);
  }

  lemma LocalLeaf(m: Heap, n: Tree, p: int, par: int, x: int)
    requires n.Node? && Rep(m, n, p, par) && Apart(n) && x in m && n.ring == [x] && !Childless(n)
    ensures Rep(Local(m, n, x, par), Without(n, x), NewRoot(m, n, x), par)
    ensures Local(m, n, x, par).Keys == m.Keys
    ensures forall c :: c in m && c !in Foot(n) ==> Local(m, n, x, par)[c] == m[c]
  {
    var slot, leaf, pruned := LeafSlot(n), RightLeaf(n), Prune(n);
    var m1 := SetChild(m, slot.owner, slot.upper, 0);
    PruneRep(m, n, p, par);
    PruneFoot(n);
    assert leaf.ring[0] in leaf.ring;
    FootInHeap(m, n, p, par);
    RingFrame(m, m1, leaf.ring, leaf.size);
    RootInFoot(m1, pruned.left, m1[x].child0, x);
    RootInFoot(m1, pruned.right, m1[x].child1, x);
    AdoptRep(m1, x, leaf.ring, leaf.size, pruned.left, pruned.right, par);
    AdoptFrame(m1, x, leaf.ring[0], par, pruned.left, pruned.right);
  }

  lemma LocalRep(m: Heap, n: Tree, p: int, par: int, x: int)
    requires n.Node? && Rep(m, n, p, par) && Apart(n) && x in n.ring && x in m
    ensures Rep(Local(m, n, x, par), Without(n, x), NewRoot(m, n, x), par)
    ensures Local(m, n, x, par).Keys == m.Keys
    ensures forall c :: c in m && c !in Foot(n) ==> Local(m, n, x, par)[c] == m[c]
  {
    if x != n.ring[0] {
      LocalMember(m, n, p, par, x);
    } else if |n.ring| > 1 {
      LocalHead(m, n, p, par, x);
    } else {
      assert n.ring == [x];
      if !Childless(n) {
        LocalLeaf(m, n, p, par, x);
      }
    }
  }

  // ----- along the path from the bin to the chunk

  function NodeOf(t: Tree, x: int): Tree {
    if t.Leaf? || x in t.ring then t else if x in Foot(t.left) then NodeOf(t.left, x) else NodeOf(t.right, x)
  }

  /** The headers of the tree `t` after `x` is unlinked, following the path to `x`. */
  function DelHeap(m: Heap, t: Tree, x: int, par: int): Heap
    requires x in m
    decreases t
  {
    if t.Leaf? || t.ring == [] then m
    else if x in t.ring then Local(m, t, x, par)
    else
      var upper := x !in Foot(t.left);
      var c := if upper then t.right else t.left;
      var m1 := DelHeap(m, c, x, t.ring[0]);
      if c.Node? && c.ring != [] && c.ring[0] == x then SetChild(m1, t.ring[0], upper, NewRoot(m, c, x)) else m1
  }

  function DelRoot(m: Heap, t: Tree, x: int): int
    requires x in m && t.Node? && t.ring != []
  {
    if x in t.ring then NewRoot(m, t, x) else t.ring[0]
  }

  lemma {:induction false} DelRep(m: Heap, t: Tree, p: int, par: int, x: int)
    requires Rep(m, t, p, par) && Apart(t) && x in Foot(t) && x in m
    ensures t.ring != [] && Rep(DelHeap(m, t, x, par), Del(t, x), DelRoot(m, t, x), par)
    ensures DelHeap(m, t, x, par).Keys == m.Keys
    ensures forall c :: c in m && c !in Foot(t) ==> DelHeap(m, t, x, par)[c] == m[c]
    decreases t
  {
    if x in t.ring {
      LocalRep(m, t, p, par, x);
    } else {
      var upper := x !in Foot(t.left);
      var c := if upper then t.right else t.left;
      var q := if upper then m[p].child1 else m[p].child0;
      DelRep(m, c, q, p, x);
      RepRings(m, c, q, p);
      DelFoot(c, x);
      DelRepUp(m, t, p, par, x, upper);
    }
  }

  lemma DelRepUp(m: Heap, t: Tree, p: int, par: int, x: int, upper: bool)
    requires t.Node? && Rep(m, t, p, par) && Apart(t) && x in Foot(t) && x !in t.ring && x in m
             && upper == (x !in Foot(t.left))
    requires var c := if upper then t.right else t.left;
             && c.Node? && c.ring != [] && Rep(DelHeap(m, c, x, p), Del(c, x), DelRoot(m, c, x), p)
             && DelHeap(m, c, x, p).Keys == m.Keys
             && (forall d :: d in m && d !in Foot(c) ==> DelHeap(m, c, x, p)[d] == m[d])
             && (forall d :: d in Foot(Del(c, x)) ==> d in Foot(c))
    ensures Rep(DelHeap(m, t, x, par), Del(t, x), p, par)
    ensures DelHeap(m, t, x, par).Keys == m.Keys
    ensures forall d :: d in m && d !in Foot(t) ==> DelHeap(m, t, x, par)[d] == m[d]
  {
    var c := if upper then t.right else t.left;
    assert p in t.ring;
    FootInHeap(m, t, p, par);
    ReplaceChild(m, DelHeap(m, c, x, p), DelHeap(m, t, x, par), t, p, par, upper, Del(c, x), DelRoot(m, c, x));
  }

  /** The heap `m1` has the tree `c` in place of a child of `t`, and `m'` links it to the root of `t`. */
  lemma ReplaceChild(m: Heap, m1: Heap, m': Heap, t: Tree, p: int, par: int, upper: bool, c: Tree, r: int)
    requires t.Node? && Rep(m, t, p, par) && Apart(t) && m1.Keys == m'.Keys == m.Keys && Rep(m1, c, r, p)
    requires forall d :: d in m && d !in Foot(if upper then t.right else t.left) ==> m1[d] == m[d]
    requires forall d :: d in Foot(c) ==> d in Foot(if upper then t.right else t.left)
    requires forall d :: d in m && d != p ==> m'[d] == m1[d]
    requires m'[p] == if upper then m[p].(child1 := r) else m[p].(child0 := r)
    ensures Rep(m', WithChild(t, upper, c), p, par)
    ensures forall d :: d in m && d !in Foot(t) ==> m'[d] == m[d]
  {
    assert p in t.ring;
    FootInHeap(m, t, p, par);
    RingKeeps(m, m', t.ring, t.size);
    if upper {
      RepFrame(m, m', t.left, m[p].child0, p);
    } else {
      RepFrame(m, m', t.right, m[p].child1, p);
    }
    FootInHeap(m1, c, r, p);
    RepFrame(m1, m', c, r, p);
  }

  /** Only the children of the chunk in the tree may change. */
  lemma RingKeeps(m: Heap, m': Heap, ring: seq<int>, size: nat)
    requires RingOk(m, ring, size) && ring[0] in m && ring[0] in m'
    requires forall c :: c in ring && c != ring[0] ==> c in m && c in m' && m'[c] == m[c]
    requires m'[ring[0]].(child0 := 0, child1 := 0) == m[ring[0]].(child0 := 0, child1 := 0)
    ensures RingOk(m', ring, size)
  {
    forall k | 0 <= k < |ring|
      ensures RingAt(m', ring, size, k)
    {
      assert RingAt(m, ring, size, k) && ring[k] in ring;
    }
  }

  /** What the code computes without knowing the path: the change at the node of `x`, and, when
      `x` was linked into the tree below another chunk, that chunk's child pointer. */
  function Unlinked(m: Heap, n: Tree, x: int): Heap
    requires x in m && n.Node? && n.ring != []
  {
    var xp := m[x].parent;
    var l := Local(m, n, x, xp);
    if x == n.ring[0] && xp > 0 && xp in m then SetChild(l, xp, m[xp].child0 != x, NewRoot(m, n, x)) else l
  }

  lemma {:induction false} NodeOfRep(m: Heap, t: Tree, p: int, par: int, x: int)
    requires Rep(m, t, p, par) && Apart(t) && x in Foot(t)
    ensures var n := NodeOf(t, x);
            && n.Node? && x in n.ring && n.ring != [] && n.ring[0] in m && Apart(n)
            && Rep(m, n, n.ring[0], m[n.ring[0]].parent)
    decreases t
  {
    if x !in t.ring {
      if x in Foot(t.left) {
        NodeOfRep(m, t.left, m[p].child0, p, x);
      } else {
        NodeOfRep(m, t.right, m[p].child1, p, x);
      }
    }
  }

  lemma {:induction false} UnlinkedIs(m: Heap, t: Tree, p: int, par: int, x: int)
    requires Rep(m, t, p, par) && Apart(t) && x in Foot(t) && x in m && par <= 0
    ensures NodeOf(t, x).Node? && NodeOf(t, x).ring != [] && DelHeap(m, t, x, par) == Unlinked(m, NodeOf(t, x), x)
  {
    NodeOfRep(m, t, p, par, x);
    if x in t.ring {
    } else {
      UnlinkedBelow(m, t, p, par, x);
    }
  }

  lemma {:induction false} UnlinkedBelow(m: Heap, t: Tree, p: int, par: int, x: int)
    requires Rep(m, t, p, par) && Apart(t) && x in Foot(t) && x !in t.ring && x in m
    ensures NodeOf(t, x).Node? && NodeOf(t, x).ring != [] && DelHeap(m, t, x, par) == Unlinked(m, NodeOf(t, x), x)
    decreases t
  {
    var upper := x !in Foot(t.left);
    var c := if upper then t.right else t.left;
    var q := if upper then m[p].child1 else m[p].child0;
    NodeOfRep(m, t, p, par, x);
    RootInFoot(m, t.left, m[p].child0, p);
    RootInFoot(m, t.right, m[p].child1, p);
    if x !in c.ring {
      UnlinkedBelow(m, c, q, p, x);
    } else {
      assert NodeOf(t, x) == c;
    }
  }

  /** Child pointers of a tree's chunks. */
  predicate Children(m: Heap, t: Tree, p: int)
    decreases t
  {
    if t.Leaf? then p == 0
    else
      && t.ring != [] && p == t.ring[0] && p > 0 && p in m
      && Children(m, t.left, m[p].child0) && Children(m, t.right, m[p].child1)
  }

  lemma {:induction false} RepChildren(m: Heap, t: Tree, p: int, par: int)
    requires Rep(m, t, p, par)
    ensures Children(m, t, p)
    decreases t
  {
    if t.Node? {
      RepChildren(m, t.left, m[p].child0, p);
      RepChildren(m, t.right, m[p].child1, p);
    }
  }

  /** The descent to the rightmost leaf, with the slot that points to it. */
  method FindLeaf(m: Heap, x: int, ghost n: Tree) returns (r: int, slot: Slot)
    requires n.Node? && Children(m, n, x) && (m[x].child0 != 0 || m[x].child1 != 0)
    ensures !Childless(n) && slot == LeafSlot(n) && RightLeaf(n).ring != [] && r == RightLeaf(n).ring[0]
  {
    slot := Slot(x, m[x].child1 != 0);
    r := if slot.upper then m[x].child1 else m[x].child0;
    ghost var cur := if n.right.Node? then n.right else n.left;
    while m[r].child1 != 0 || m[r].child0 != 0
      invariant cur.Node? && Children(m, cur, r) && RightLeaf(n) == RightLeaf(cur)
      invariant LeafSlot(n) == if Childless(cur) then slot else LeafSlot(cur)
      decreases cur
    {
      slot := Slot(r, m[r].child1 != 0);
      r := if slot.upper then m[r].child1 else m[r].child0;
      cur := if cur.right.Node? then cur.right else cur.left;
    }
  }

  lemma SetChildCommutes(m: Heap, p: int, u: bool, a: int, q: int, v: bool, b: int)
    requires p != q
    ensures SetChild(SetChild(m, p, u, a), q, v, b) == SetChild(SetChild(m, q, v, b), p, u, a)
    ensures SetParent(SetChild(m, p, u, a), q, b) == SetChild(SetParent(m, q, b), p, u, a)
  {
  }

  /** Writing the parent's child slot before or after the adoption makes no difference. */
  lemma ChildThenAdopt(m: Heap, x: int, r: int, xp: int, upper: bool)
    requires x in m && xp != x && xp != r && xp != m[x].child0 && xp != m[x].child1
    ensures x in SetChild(m, xp, upper, r)
    ensures Adopt(SetChild(m, xp, upper, r), x, r, xp) == SetChild(Adopt(m, x, r, xp), xp, upper, r)
  {
    var c0, c1 := m[x].child0, m[x].child1;
    SetChildCommutes(m, xp, upper, r, r, false, xp);
    var m1 := SetParent(m, r, xp);
    SetChildCommutes(m1, xp, upper, r, r, false, c0);
    SetChildCommutes(SetChild(m1, r, false, c0), xp, upper, r, c0, false, r);
    var m2 := if c0 != 0 then SetParent(SetChild(m1, r, false, c0), c0, r) else m1;
    SetChildCommutes(m2, xp, upper, r, r, true, c1);
    SetChildCommutes(SetChild(m2, r, true, c1), xp, upper, r, c1, false, r);
  }

  /** The headers once the replacement of `x` has been taken from where it was. */
  function Detached(m: Heap, n: Tree, x: int): Heap
    requires n.Node? && n.ring != []
  {
    if |n.ring| > 1 then RingOut(m, x)
    else if Childless(n) then m
    else SetChild(m, LeafSlot(n).owner, LeafSlot(n).upper, 0)
  }

  function Replacement(m: Heap, n: Tree, x: int): int
    requires n.Node? && x in m
  {
    if |n.ring| > 1 then m[x].bk
    else if Childless(n) || RightLeaf(n).ring == [] then 0
    else RightLeaf(n).ring[0]
  }

  /** A node's own view: its headers are as `Rep` says, under its real parent. */
  ghost predicate NodeOk(m: Heap, n: Tree, x: int) {
    && n.Node? && n.ring != [] && n.ring[0] in m && x in n.ring && x in m
    && Rep(m, n, n.ring[0], m[n.ring[0]].parent) && Apart(n)
  }

  method Detach(m: Heap, x: int, ghost n: Tree) returns (m': Heap, r: int)
    requires NodeOk(m, n, x)
    ensures m' == Detached(m, n, x) && r == Replacement(m, n, x)
  {
    RingNeighbours(m, n.ring, n.size, x);
    RepChildren(m, n, n.ring[0], m[n.ring[0]].parent);
    m', r := m, 0;
    if m[x].bk != x {
      r := m[x].bk;
      m' := RingOut(m, x);
    } else {
      assert |n.ring| == 1;
      if m[x].child1 != 0 || m[x].child0 != 0 {
        var slot;
        r, slot := FindLeaf(m, x, n);
        m' := SetChild(m, slot.owner, slot.upper, 0);
      }
    }
  }

  /** Taking the replacement out does not touch the children of `x` beyond its own slot, nor any
      chunk outside the tree of `x`. */
  lemma DetachedFacts(m: Heap, n: Tree, x: int)
    requires NodeOk(m, n, x)
    ensures var m' := Detached(m, n, x);
            && m'.Keys == m.Keys
            && (m'[x].child0 != 0 ==> m'[x].child0 in Foot(n)) && (m'[x].child1 != 0 ==> m'[x].child1 in Foot(n))
            && (Replacement(m, n, x) != 0 ==> Replacement(m, n, x) in Foot(n))
            && forall c :: c in m && c !in Foot(n) ==> m'[c] == m[c]
  {
    var p := n.ring[0];
    RingNeighbours(m, n.ring, n.size, x);
    FootInHeap(m, n, p, m[p].parent);
    RootInFoot(m, n.left, m[p].child0, p);
    RootInFoot(m, n.right, m[p].child1, p);
    assert RingAt(m, n.ring, n.size, IndexIn(n.ring, x));
    if |n.ring| == 1 && !Childless(n) {
      PruneRep(m, n, p, m[p].parent);
      PruneFoot(n);
      assert RightLeaf(n).ring[0] in RightLeaf(n).ring;
    }
  }

  /** The replacement, taken out, is adopted in the place of `x`. */
  lemma DetachedLocal(m: Heap, n: Tree, x: int)
    requires NodeOk(m, n, x)
    ensures x == n.ring[0] ==>
              && Replacement(m, n, x) == NewRoot(m, n, x)
              && Local(m, n, x, m[x].parent) ==
                   if Replacement(m, n, x) != 0 then Adopt(Detached(m, n, x), x, Replacement(m, n, x), m[x].parent)
                   else Detached(m, n, x)
    ensures x != n.ring[0] ==> m[x].parent == 0 && Local(m, n, x, m[x].parent) == Detached(m, n, x)
  {
    var p := n.ring[0];
    RingNeighbours(m, n.ring, n.size, x);
    FootInHeap(m, n, p, m[p].parent);
    assert RingAt(m, n.ring, n.size, IndexIn(n.ring, x));
    if |n.ring| == 1 && !Childless(n) {
      PruneRep(m, n, p, m[p].parent);
      PruneFoot(n);
      assert RightLeaf(n).ring[0] in RightLeaf(n).ring;
    }
  }

  /** The header writes of `unlink_large_chunk`, in its order; `isRoot` tells that `x` is its bin's root. */
  method UnlinkHeaders(m: Heap, x: int, isRoot: bool, ghost n: Tree) returns (m': Heap, r: int)
    requires NodeOk(m, n, x)
    requires x == n.ring[0] ==> m[x].parent != 0 && (isRoot <==> m[x].parent < 0)
    requires x == n.ring[0] && m[x].parent > 0 ==> m[x].parent in m && m[x].parent !in Foot(n)
    ensures m' == Unlinked(m, n, x) && (x == n.ring[0] ==> r == NewRoot(m, n, x))
  {
    DetachedFacts(m, n, x);
    DetachedLocal(m, n, x);
    var xp := m[x].parent;
    m', r := Detach(m, x, n);
    if xp != 0 {
      if !isRoot {
        if r != 0 {
          ChildThenAdopt(m', x, r, xp, m[xp].child0 != x);
        }
        m' := SetChild(m', xp, m'[xp].child0 != x, r);
      }
      if r != 0 {
        m' := Adopt(m', x, r, xp);
      }
    }
  }

  lemma LinksOnly(m: Heap, x: int, p: int, upper: bool, c: int)
    ensures SameChunks(m, RingOut(m, x)) && SameChunks(m, SetChild(m, p, upper, c)) && SameChunks(m, SetParent(m, p, c))
  {
  }

  lemma AdoptLinksOnly(m: Heap, x: int, r: int, par: int)
    requires x in m
    ensures SameChunks(m, Adopt(m, x, r, par))
  {
    var c0, c1 := m[x].child0, m[x].child1;
    var m1 := SetParent(m, r, par);
    var m2 := if c0 != 0 then SetParent(SetChild(m1, r, false, c0), c0, r) else m1;
    LinksOnly(m, x, r, false, par);
    HangLinksOnly(m1, r, false, c0);
    HangLinksOnly(m2, r, true, c1);
  }

  lemma HangLinksOnly(m: Heap, r: int, upper: bool, c: int)
    ensures SameChunks(m, SetParent(SetChild(m, r, upper, c), c, r))
  {
    LinksOnly(m, r, r, upper, c);
    LinksOnly(SetChild(m, r, upper, c), r, c, upper, r);
  }

  /** Unlinking moves links only: sizes and bin numbers stay. */
  lemma UnlinkedKeeps(m: Heap, n: Tree, x: int)
    requires x in m && n.Node? && n.ring != []
    ensures SameChunks(m, Unlinked(m, n, x))
  {
    var xp := m[x].parent;
    LinksOnly(m, x, xp, false, 0);
    if x == n.ring[0] {
      if |n.ring| > 1 {
        AdoptLinksOnly(RingOut(m, x), x, m[x].bk, xp);
      } else if !Childless(n) && RightLeaf(n).ring != [] {
        var m1 := SetChild(m, LeafSlot(n).owner, LeafSlot(n).upper, 0);
        LinksOnly(m, x, LeafSlot(n).owner, LeafSlot(n).upper, 0);
        AdoptLinksOnly(m1, x, RightLeaf(n).ring[0], xp);
      }
    }
    var l := Local(m, n, x, xp);
    if x == n.ring[0] && xp > 0 && xp in m {
      LinksOnly(l, x, xp, m[xp].child0 != x, NewRoot(m, n, x));
    }
  }

  lemma UnlinkBinAt(m: Heap, root: int, t: Tree, i: nat, x: int)
    requires i < BINS && BinAt(m, root, true, t, i) && x in Foot(t)
    ensures x in m && t.Node? && t.ring != [] && NodeOk(m, NodeOf(t, x), x)
    ensures var m' := Unlinked(m, NodeOf(t, x), x) - {x};
            && BinAt(m', DelRoot(m, t, x), Del(t, x).Node?, Del(t, x), i)
            && (forall c :: c in Foot(Del(t, x)) <==> c in Foot(t) && c != x) && m'.Keys == m.Keys - {x}
            && forall c :: c in m && c !in Foot(t) ==> c in m' && m'[c] == m[c]
  {
    var n, slot := NodeOf(t, x), BinSlot(i);
    NodeOfRep(m, t, root, slot, x);
    DelRep(m, t, root, slot, x);
    UnlinkedIs(m, t, root, slot, x);
    RepRings(m, t, root, slot);
    DelKeeps(t, BinLow(i), BinBits(i), i, x);
    DelFoot(t, x);
    UnlinkedKeeps(m, n, x);
    var m1 := Unlinked(m, n, x);
    RepFrame(m1, m1 - {x}, Del(t, x), DelRoot(m, t, x), slot);
  }

  /** Below its bin's root, a chunk linked into the tree has its parent outside its own subtree. */
  lemma {:induction false} ParentOf(m: Heap, t: Tree, p: int, par: int, x: int)
    requires Rep(m, t, p, par) && Apart(t) && x in Foot(t) && x != p
    ensures NodeOf(t, x).Node? && NodeOf(t, x).ring != [] && Foot(NodeOf(t, x)) <= Foot(t)
    ensures x == NodeOf(t, x).ring[0] ==>
              x in m && m[x].parent > 0 && m[x].parent in m && m[x].parent !in Foot(NodeOf(t, x))
    decreases t
  {
    if x !in t.ring {
      var upper := x !in Foot(t.left);
      var c := if upper then t.right else t.left;
      var q := if upper then m[p].child1 else m[p].child0;
      assert p in t.ring;
      if x != q {
        ParentOf(m, c, q, p, x);
      } else {
        assert x in c.ring && NodeOf(t, x) == c;
      }
    }
  }

  /** What `UnlinkHeaders` needs to know of a chunk of bin `i`. */
  lemma UnlinkReady(m: Heap, root: int, t: Tree, i: nat, x: int)
    requires i < BINS && BinAt(m, root, true, t, i) && x in Foot(t) && x in m
    requires NodeOk(m, NodeOf(t, x), x)
    ensures var n := NodeOf(t, x);
            && (x == n.ring[0] ==> m[x].parent != 0 && (root == x <==> m[x].parent < 0))
            && (x == n.ring[0] && m[x].parent > 0 ==> m[x].parent in m && m[x].parent !in Foot(n))
    ensures t.Node? && t.ring != [] && t.ring[0] == root && (DelRoot(m, t, x) == 0 <==> Del(t, x).Leaf?)
    ensures root == x ==> x == NodeOf(t, x).ring[0] && DelRoot(m, t, x) == NewRoot(m, NodeOf(t, x), x)
    ensures root != x ==> DelRoot(m, t, x) == root
  {
    DelRep(m, t, root, BinSlot(i), x);
    RootInFoot(DelHeap(m, t, x, BinSlot(i)), Del(t, x), DelRoot(m, t, x), BinSlot(i));
    assert t.ring[0] in t.ring;
    if x != root {
      ParentOf(m, t, root, BinSlot(i), x);
    }
  }

  /** The bins after `x` is unlinked. */
  lemma UnlinkBinsOk(m: Heap, roots: seq<int>, treemap: set<nat>, bins: seq<Tree>, i: nat, x: int, treemap': set<nat>)
    requires BinsOk(m, roots, treemap, bins) && x in m && i == m[x].index
    requires treemap' == if Del(bins[i], x).Node? then treemap else treemap - {i}
    ensures i in treemap && BinAt(m, roots[i], true, bins[i], i) && x in Foot(bins[i])
            && NodeOk(m, NodeOf(bins[i], x), x)
    ensures bins[i].Node? && bins[i].ring != []
    ensures SameChunks(m, Unlinked(m, NodeOf(bins[i], x), x))
    ensures BinsOk(Unlinked(m, NodeOf(bins[i], x), x) - {x}, roots[i := DelRoot(m, bins[i], x)], treemap',
                   bins[i := Del(bins[i], x)])
  {
    var t := bins[i];
    assert BinAt(m, roots[i], i in treemap, t, i);
    UnlinkBinAt(m, roots[i], t, i, x);
    UnlinkedKeeps(m, NodeOf(t, x), x);
    OneBinChanged(m, roots, treemap, bins, i, Unlinked(m, NodeOf(t, x), x) - {x}, DelRoot(m, t, x), treemap',
                  Del(t, x));
  }

  /** The same, with the root and the mark as the macro writes them. */
  lemma UnlinkStep(m: Heap, roots: seq<int>, treemap: set<nat>, bins: seq<Tree>, i: nat, x: int)
    requires BinsOk(m, roots, treemap, bins) && x in m && i == m[x].index
    ensures var n := NodeOf(bins[i], x);
            && NodeOk(m, n, x) && SameChunks(m, Unlinked(m, n, x))
            && (x == n.ring[0] ==> m[x].parent != 0 && (roots[i] == x <==> m[x].parent < 0))
            && (x == n.ring[0] && m[x].parent > 0 ==> m[x].parent in m && m[x].parent !in Foot(n))
            && (roots[i] == x ==> x == n.ring[0])
            && var r := NewRoot(m, n, x);
               BinsOk(Unlinked(m, n, x) - {x}, if roots[i] == x then roots[i := r] else roots,
                      if roots[i] == x && r == 0 then treemap - {i} else treemap, bins[i := Del(bins[i], x)])
  {
    assert roots[i := roots[i]] == roots;
    UnlinkBinsOk(m, roots, treemap, bins, i, x, if Del(bins[i], x).Node? then treemap else treemap - {i});
    UnlinkReady(m, roots[i], bins[i], i, x);
  }
}
