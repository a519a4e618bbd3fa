/** Inserting a chunk into a tree bin (`insert_large_chunk`). */
module TreeInsert {
  import opened Bits
  import opened SizeTree
  import opened TreeHeap

  /** The tree with chunk `x` of size `s` added: next to the root of an equal-sized ring, or as a
      new leaf where the path of `s` ends. */
  function Put(cur: Sub, x: int, s: nat): Tree
    decreases cur.tree
  {
    if cur.tree.Leaf? then Node([x], s, Leaf, Leaf)
    else if cur.tree.size == s && cur.tree.ring != [] then
      cur.tree.(ring := [cur.tree.ring[0], x] + cur.tree.ring[1..])
    else if cur.e == 0 then cur.tree
    else if Upper(s, cur) then cur.tree.(right := Put(Half(cur, true), x, s))
    else cur.tree.(left := Put(Half(cur, false), x, s))
  }

  lemma {:induction false} PutAbsent(cur: Sub, x: int, s: nat, z: nat)
    requires SubOk(cur) && Absent(cur.tree, z) && z != s
    ensures Absent(Put(cur, x, s), z)
    decreases cur.tree
  {
    if cur.tree.Node? && cur.e > 0 {
      PutAbsent(Half(cur, true), x, s, z);
      PutAbsent(Half(cur, false), x, s, z);
    }
  }

  /** Insertion keeps the trie. */
  lemma {:induction false} PutKeeps(cur: Sub, x: int, s: nat, i: nat)
    requires SubOk(cur) && cur.lo <= s < cur.lo + Pow2(cur.e) && InBin(cur.tree, i) && Holds(i, s)
    ensures Trie(Put(cur, x, s), cur.lo, cur.e) && InBin(Put(cur, x, s), i)
    decreases cur.tree
  {
    if cur.tree.Node? && cur.tree.size != s && cur.e > 0 {
      PutKeeps(Half(cur, Upper(s, cur)), x, s, i);
      PutAbsent(Half(cur, Upper(s, cur)), x, s, cur.tree.size);
    }
  }

  /** Insertion adds exactly one chunk. */
  lemma {:induction false} PutFoot(cur: Sub, x: int, s: nat)
    requires SubOk(cur) && cur.lo <= s < cur.lo + Pow2(cur.e) && Apart(cur.tree) && x !in Foot(cur.tree)
    ensures Apart(Put(cur, x, s)) && forall c :: c in Foot(Put(cur, x, s)) <==> c in Foot(cur.tree) || c == x
    decreases cur.tree
  {
    if cur.tree.Node? {
      if cur.tree.size == s {
        var ring := cur.tree.ring;
        assert ring == [ring[0]] + ring[1..];
        assert forall c :: c in [ring[0], x] + ring[1..] <==> c in ring || c == x;
      } else if cur.e > 0 {
        PutFoot(Half(cur, Upper(s, cur)), x, s);
        ApartChild(cur.tree, Upper(s, cur), Put(Half(cur, Upper(s, cur)), x, s), {x});
      }
    }
  }

  // ----- on the heap

  datatype Spot = SameSize(at: int) | Child(at: int, upper: bool)

  /** Where the walk of the size `s` ends. */
  function SpotOf(cur: Sub, s: nat): Spot
    requires cur.tree.Node? && Trie(cur.tree, cur.lo, cur.e)
    decreases cur.tree
  {
    if cur.tree.size == s then SameSize(cur.tree.ring[0])
    else
      var next := Half(cur, Upper(s, cur));
      if next.tree.Leaf? then Child(cur.tree.ring[0], Upper(s, cur)) else SpotOf(next, s)
  }

  function AddToRing(m: Heap, t: int, x: int, s: nat, i: nat): Heap
    requires t in m && m[t].fd in m
  {
    var f := m[t].fd;
    var m1 := m[t := m[t].(fd := x)];
    var m2 := m1[f := m1[f].(bk := x)];
    m2[x := TChunk(s, 0, 0, 0, f, t, i)]
  }

  function AddAsChild(m: Heap, t: int, upper: bool, x: int, s: nat, i: nat): Heap
    requires t in m
  {
    m[t := if upper then m[t].(child1 := x) else m[t].(child0 := x)]
     [x := TChunk(s, 0, 0, t, x, x, i)]
  }

  function AddAt(m: Heap, spot: Spot, x: int, s: nat, i: nat): Heap
    requires spot.at in m && m[spot.at].fd in m
  {
    if spot.SameSize? then AddToRing(m, spot.at, x, s, i) else AddAsChild(m, spot.at, spot.upper, x, s, i)
  }

  lemma {:induction false} RepFrame(m: Heap, m': Heap, t: Tree, p: int, par: int)
    requires Rep(m, t, p, par) && forall c :: c in Foot(t) ==> c in m && c in m' && m'[c] == m[c]
    ensures Rep(m', t, p, par)
    decreases t
  {
    if t.Node? {
      RingFrame(m, m', t.ring, t.size);
      assert t.ring[0] in t.ring;
      RepFrame(m, m', t.left, m[p].child0, p);
      RepFrame(m, m', t.right, m[p].child1, p);
    }
  }

  lemma RingFrame(m: Heap, m': Heap, ring: seq<int>, size: nat)
    requires RingOk(m, ring, size) && forall c :: c in ring ==> c in m && c in m' && m'[c] == m[c]
    ensures RingOk(m', ring, size)
  {
    forall i | 0 <= i < |ring|
      ensures RingAt(m', ring, size, i)
    {
      assert RingAt(m, ring, size, i);
    }
  }

  /** The spot and its ring neighbour are chunks of the tree. */
  lemma {:induction false} SpotInFoot(m: Heap, cur: Sub, p: int, par: int, s: nat)
    requires cur.tree.Node? && Rep(m, cur.tree, p, par) && Trie(cur.tree, cur.lo, cur.e)
    ensures var q := SpotOf(cur, s).at; q in Foot(cur.tree) && q in m && m[q].fd in Foot(cur.tree) && m[q].fd in m
    decreases cur.tree
  {
    var r := cur.tree.ring;
    assert RingAt(m, r, cur.tree.size, 0) && r[0] in r && After(r, 0) in r;
    assert |r| > 1 ==> RingAt(m, r, cur.tree.size, 1);
    if cur.tree.size != s && Half(cur, Upper(s, cur)).tree.Node? {
      SpotInFoot(m, Half(cur, Upper(s, cur)), if Upper(s, cur) then m[p].child1 else m[p].child0, p, s);
    }
  }

  lemma AddToRingOk(m: Heap, ring: seq<int>, x: int, s: nat, i: nat)
    requires RingOk(m, ring, s) && x > 0 && x !in ring
    requires ring[0] in m && m[ring[0]].fd in m
    ensures RingOk(AddToRing(m, ring[0], x, s, i), [ring[0], x] + ring[1..], s)
  {
    var m', ring' := AddToRing(m, ring[0], x, s, i), [ring[0], x] + ring[1..];
    assert RingAt(m, ring, s, 0);
    assert forall k :: 2 <= k < |ring'| ==> ring'[k] == ring[k - 1];
    forall k | 0 <= k < |ring'|
      ensures RingAt(m', ring', s, k)
    {
      if k >= 2 {
        assert RingAt(m, ring, s, k - 1) && ring[k - 1] != ring[0];
      }
    }
  }

  /** Linking `x` in at the spot makes the headers represent the tree with `x` added. */
  lemma {:induction false} PutRep(m: Heap, cur: Sub, p: int, par: int, x: int, s: nat, i: nat)
    requires cur.tree.Node? && SubOk(cur) && cur.lo <= s < cur.lo + Pow2(cur.e)
    requires Rep(m, cur.tree, p, par) && Apart(cur.tree) && x > 0 && x !in Foot(cur.tree)
    requires var q := SpotOf(cur, s).at; q in m && m[q].fd in m
    ensures Rep(AddAt(m, SpotOf(cur, s), x, s, i), Put(cur, x, s), p, par)
    decreases cur.tree, 1
  {
    SpotInFoot(m, cur, p, par, s);
    if cur.tree.size == s {
      assert RingAt(m, cur.tree.ring, s, 0) && After(cur.tree.ring, 0) in cur.tree.ring;
      PutRepRing(m, cur.tree, p, par, x, s, i);
    } else if Half(cur, Upper(s, cur)).tree.Leaf? {
      PutRepLeaf(m, cur.tree, p, par, Upper(s, cur), x, s, i);
    } else {
      PutRepDeeper(m, cur, p, par, x, s, i);
    }
  }

  lemma PutRepRing(m: Heap, t: Tree, p: int, par: int, x: int, s: nat, i: nat)
    requires t.Node? && t.size == s && Rep(m, t, p, par) && Apart(t) && x > 0 && x !in Foot(t)
    requires p in m && m[p].fd in m && m[p].fd in t.ring
    ensures Rep(AddToRing(m, p, x, s, i), t.(ring := [t.ring[0], x] + t.ring[1..]), p, par)
  {
    var m' := AddToRing(m, p, x, s, i);
    AddToRingOk(m, t.ring, x, s, i);
    assert p in t.ring;
    FootInHeap(m, t.left, m[p].child0, p);
    FootInHeap(m, t.right, m[p].child1, p);
    RepFrame(m, m', t.left, m[p].child0, p);
    RepFrame(m, m', t.right, m[p].child1, p);
  }

  lemma {:induction false} FootInHeap(m: Heap, t: Tree, p: int, par: int)
    requires Rep(m, t, p, par)
    ensures forall c :: c in Foot(t) ==> c in m && c > 0
    decreases t
  {
    if t.Node? {
      FootInHeap(m, t.left, m[p].child0, p);
      FootInHeap(m, t.right, m[p].child1, p);
      forall c | c in t.ring
        ensures c in m && c > 0
      {
        var k :| 0 <= k < |t.ring| && t.ring[k] == c;
        assert RingAt(m, t.ring, t.size, k);
      }
    }
  }

  lemma PutRepLeaf(m: Heap, t: Tree, p: int, par: int, upper: bool, x: int, s: nat, i: nat)
    requires t.Node? && Rep(m, t, p, par) && Apart(t) && x > 0 && x !in Foot(t)
    requires if upper then t.right.Leaf? else t.left.Leaf?
    ensures var t' := if upper then t.(right := Node([x], s, Leaf, Leaf)) else t.(left := Node([x], s, Leaf, Leaf));
            Rep(AddAsChild(m, p, upper, x, s, i), t', p, par)
  {
    var m' := AddAsChild(m, p, upper, x, s, i);
    assert p in t.ring;
    FootInHeap(m, t, p, par);
    forall k | 0 <= k < |t.ring|
      ensures RingAt(m', t.ring, t.size, k)
    {
      assert RingAt(m, t.ring, t.size, k) && t.ring[k] in t.ring;
      assert k > 0 ==> t.ring[k] != t.ring[0];
    }
    assert RingAt(m', [x], s, 0);
    if upper {
      RepFrame(m, m', t.left, m[p].child0, p);
    } else {
      RepFrame(m, m', t.right, m[p].child1, p);
    }
  }

  lemma AddAtFrame(m: Heap, spot: Spot, x: int, s: nat, i: nat, foot: set<int>)
    requires spot.at in m && m[spot.at].fd in m && spot.at in foot && m[spot.at].fd in foot
    ensures var m' := AddAt(m, spot, x, s, i);
            forall c :: c in m && c !in foot && c != x ==> c in m' && m'[c] == m[c]
  {
  }

  lemma PutRepDeeper(m: Heap, cur: Sub, p: int, par: int, x: int, s: nat, i: nat)
    requires cur.tree.Node? && SubOk(cur) && cur.lo <= s < cur.lo + Pow2(cur.e) && cur.tree.size != s
    requires Half(cur, Upper(s, cur)).tree.Node?
    requires Rep(m, cur.tree, p, par) && Apart(cur.tree) && x > 0 && x !in Foot(cur.tree)
    requires var q := SpotOf(cur, s).at; q in m && m[q].fd in m
    ensures Rep(AddAt(m, SpotOf(cur, s), x, s, i), Put(cur, x, s), p, par)
    decreases cur.tree, 0
  {
    var t, upper := cur.tree, Upper(s, cur);
    var next, spot := Half(cur, upper), SpotOf(cur, s);
    var child := if upper then m[p].child1 else m[p].child0;
    var m' := AddAt(m, spot, x, s, i);
    FootInHeap(m, t, p, par);
    SpotInFoot(m, next, child, p, s);
    PutRep(m, next, child, p, x, s, i);
    AddAtFrame(m, spot, x, s, i, Foot(next.tree));
    RingFrame(m, m', t.ring, t.size);
    assert p in t.ring;
    if upper {
      RepFrame(m, m', t.left, m[p].child0, p);
    } else {
      RepFrame(m, m', t.right, m[p].child1, p);
    }
  }

  /** The walk of `insert_large_chunk` below a marked bin. */
  method FindSpot(m: Heap, root: int, s: nat, i: nat, ghost bin: Sub) returns (spot: Spot)
    requires i < BINS && bin.tree.Node? && SubOk(bin) && Shape(m, bin.tree, root) && Guides(StartKey(s, i), bin, s)
    ensures spot == SpotOf(bin, s)
  {
    var t, k := root, StartKey(s, i);
    ghost var cur, goal := bin, SpotOf(bin, s);
    while true
      invariant cur.tree.Node? && SubOk(cur) && Shape(m, cur.tree, t) && Guides(k, cur, s) && goal == SpotOf(cur, s)
      decreases cur.tree
    {
      if m[t].size == s {
        return SameSize(t);
      }
      var upper := TopBitOf(k) == 1;
      var c := if upper then m[t].child1 else m[t].child0;
      k := ShiftOne(k);
      if c == 0 {
        return Child(t, upper);
      }
      t, cur := c, Half(cur, upper);
    }
  }

  lemma OtherBinKept(m: Heap, m': Heap, root: int, marked: bool, t: Tree, j: nat, i: nat)
    requires i != j && j < BINS && BinAt(m, root, marked, t, j)
    requires forall c :: c in m && m[c].index != i ==> c in m' && m'[c] == m[c]
    ensures BinAt(m', root, marked, t, j)
  {
    RepFrame(m, m', t, root, BinSlot(j));
  }

  /** Chunks of other bins stay as they are, all others are of the tree `t'`, and only the mark of bin
      `i` may change. */
  ghost predicate OnlyBin(m: Heap, treemap: set<nat>, i: nat, m': Heap, treemap': set<nat>, t': Tree) {
    && (forall c :: c in m && m[c].index != i ==> c in m' && m'[c] == m[c])
    && (forall c :: c in m' ==> (c in m && m[c].index != i) || c in Foot(t'))
    && (forall j :: j != i ==> (j in treemap' <==> j in treemap))
  }

  lemma OtherBinsKept(m: Heap, roots: seq<int>, treemap: set<nat>, bins: seq<Tree>, i: nat,
                      m': Heap, treemap': set<nat>, t': Tree)
    requires BinsOk(m, roots, treemap, bins) && i < BINS && OnlyBin(m, treemap, i, m', treemap', t')
    ensures forall j :: 0 <= j < BINS && j != i ==> BinAt(m', roots[j], j in treemap', bins[j], j)
  {
    forall j | 0 <= j < BINS && j != i
      ensures BinAt(m', roots[j], j in treemap', bins[j], j)
    {
      assert BinAt(m, roots[j], j in treemap, bins[j], j);
      OtherBinKept(m, m', roots[j], j in treemap, bins[j], j, i);
    }
  }

  lemma AllBinsAt(m: Heap, roots: seq<int>, treemap: set<nat>, bins: seq<Tree>, i: nat, root: int, t: Tree)
    requires |roots| == |bins| == BINS && i < BINS && BinAt(m, root, i in treemap, t, i)
    requires forall j :: 0 <= j < BINS && j != i ==> BinAt(m, roots[j], j in treemap, bins[j], j)
    ensures forall j :: 0 <= j < BINS ==> BinAt(m, roots[i := root][j], j in treemap, bins[i := t][j], j)
  {
    forall j | 0 <= j < BINS
      ensures BinAt(m, roots[i := root][j], j in treemap, bins[i := t][j], j)
    {
      if j != i {
        assert BinAt(m, roots[j], j in treemap, bins[j], j);
      }
    }
  }

  lemma ChunksKeepBins(m: Heap, roots: seq<int>, treemap: set<nat>, bins: seq<Tree>, i: nat,
                       m': Heap, treemap': set<nat>, t': Tree)
    requires BinsOk(m, roots, treemap, bins) && i < BINS && Indexed(m', t', i)
             && OnlyBin(m, treemap, i, m', treemap', t')
    ensures forall c :: c in m' ==> m'[c].index < BINS && c in Foot(bins[i := t'][m'[c].index])
    ensures forall j :: j in treemap' ==> j < BINS
  {
    forall c | c in m'
      ensures m'[c].index < BINS && c in Foot(bins[i := t'][m'[c].index])
    {
      if c in m && m[c].index != i {
        assert m'[c] == m[c];
      }
    }
  }

  /** Replacing the tree of one bin, with all other bins untouched, keeps the bins in order. */
  lemma OneBinChanged(m: Heap, roots: seq<int>, treemap: set<nat>, bins: seq<Tree>, i: nat,
                      m': Heap, root': int, treemap': set<nat>, t': Tree)
    requires BinsOk(m, roots, treemap, bins) && i < BINS && BinAt(m', root', i in treemap', t', i)
    requires OnlyBin(m, treemap, i, m', treemap', t')
    ensures BinsOk(m', roots[i := root'], treemap', bins[i := t'])
  {
    OtherBinsKept(m, roots, treemap, bins, i, m', treemap', t');
    AllBinsAt(m', roots, treemap', bins, i, root', t');
    ChunksKeepBins(m, roots, treemap, bins, i, m', treemap', t');
  }

  lemma AddAtKeys(m: Heap, spot: Spot, x: int, s: nat, i: nat)
    requires spot.at in m && m[spot.at].fd in m && x !in m
    ensures var m' := AddAt(m, spot, x, s, i);
            && m'.Keys == m.Keys + {x} && m'[x].size == s && m'[x].index == i
            && forall c :: c in m ==> m'[c].size == m[c].size && m'[c].index == m[c].index
  {
  }

  /** The place of a chunk in a marked bin, and the ring neighbour there, are chunks of that bin. */
  lemma SpotInBin(m: Heap, root: int, i: nat, s: nat, bin: Sub)
    requires i < BINS && bin.tree.Node? && BinAt(m, root, true, bin.tree, i) && bin.lo == BinLow(i)
             && bin.e == BinBits(i)
    ensures SpotOf(bin, s).at in Foot(bin.tree) && SpotOf(bin, s).at in m
    ensures m[SpotOf(bin, s).at].fd in Foot(bin.tree) && m[SpotOf(bin, s).at].fd in m
  {
    SpotInFoot(m, bin, root, BinSlot(i), s);
  }

  lemma PutIndexed(m: Heap, t: Tree, t': Tree, i: nat, x: int, s: nat, spot: Spot)
    requires Indexed(m, t, i) && spot.at in m && m[spot.at].fd in m && x !in m
    requires forall c :: c in Foot(t') <==> c in Foot(t) || c == x
    ensures Indexed(AddAt(m, spot, x, s, i), t', i)
  {
    AddAtKeys(m, spot, x, s, i);
  }

  lemma PutBinAt(m: Heap, root: int, i: nat, x: int, s: nat, bin: Sub)
    requires Holds(i, s) && x > 0 && x !in m && bin.tree.Node? && BinAt(m, root, true, bin.tree, i)
    requires bin.lo == BinLow(i) && bin.e == BinBits(i) && SubOk(bin)
    requires SpotOf(bin, s).at in m && m[SpotOf(bin, s).at].fd in m
    ensures BinAt(AddAt(m, SpotOf(bin, s), x, s, i), root, true, Put(bin, x, s), i)
    ensures forall c :: c in Foot(Put(bin, x, s)) <==> c in Foot(bin.tree) || c == x
  {
    HoldsRange(i, s);
    PutFoot(bin, x, s);
    PutKeeps(bin, x, s, i);
    PutRep(m, bin, root, BinSlot(i), x, s, i);
    PutIndexed(m, bin.tree, Put(bin, x, s), i, x, s, SpotOf(bin, s));
  }

  /** Only chunks of the bin and the new one are written. */
  lemma OthersKept(m: Heap, bins: seq<Tree>, i: nat, x: int, s: nat, spot: Spot, t': Tree)
    requires i < |bins| == BINS && x !in m && Indexed(m, bins[i], i)
    requires forall c :: c in m ==> m[c].index < BINS && c in Foot(bins[m[c].index])
    requires spot.at in m && m[spot.at].fd in m && spot.at in Foot(bins[i]) && m[spot.at].fd in Foot(bins[i])
    requires forall c :: c in Foot(t') <==> c in Foot(bins[i]) || c == x
    ensures var m' := AddAt(m, spot, x, s, i);
            && (forall c :: c in m && m[c].index != i ==> c in m' && m'[c] == m[c])
            && (forall c :: c in m' ==> (c in m && m[c].index != i) || c in Foot(t'))
  {
    AddAtFrame(m, spot, x, s, i, Foot(bins[i]));
    AddAtKeys(m, spot, x, s, i);
  }

  lemma MarkedChange(m: Heap, bins: seq<Tree>, root: int, i: nat, x: int, s: nat, bin: Sub)
    requires Holds(i, s) && |bins| == BINS && x > 0 && x !in m && bin == BinSub(bins, i) && SubOk(bin) && bin.tree.Node?
    requires BinAt(m, root, true, bins[i], i) && forall c :: c in m ==> m[c].index < BINS && c in Foot(bins[m[c].index])
    requires SpotOf(bin, s).at in m && m[SpotOf(bin, s).at].fd in m
    ensures var m' := AddAt(m, SpotOf(bin, s), x, s, i);
            && BinAt(m', root, true, Put(bin, x, s), i)
            && (forall c :: c in m && m[c].index != i ==> c in m' && m'[c] == m[c])
            && (forall c :: c in m' ==> (c in m && m[c].index != i) || c in Foot(Put(bin, x, s)))
  {
    SpotInBin(m, root, i, s, bin);
    PutBinAt(m, root, i, x, s, bin);
    OthersKept(m, bins, i, x, s, SpotOf(bin, s), Put(bin, x, s));
  }

  lemma InsertMarked(m: Heap, roots: seq<int>, treemap: set<nat>, bins: seq<Tree>, i: nat, x: int, s: nat, bin: Sub)
    requires BinsOk(m, roots, treemap, bins) && Holds(i, s) && x > 0 && x !in m && i in treemap
    requires bin == BinSub(bins, i) && SubOk(bin) && bin.tree.Node?
    requires SpotOf(bin, s).at in m && m[SpotOf(bin, s).at].fd in m
    ensures BinsOk(AddAt(m, SpotOf(bin, s), x, s, i), roots, treemap, bins[i := Put(bin, x, s)])
  {
    assert roots[i := roots[i]] == roots;
    assert BinAt(m, roots[i], i in treemap, bins[i], i);
    MarkedChange(m, bins, roots[i], i, x, s, bin);
    OneBinChanged(m, roots, treemap, bins, i, AddAt(m, SpotOf(bin, s), x, s, i), roots[i], treemap, Put(bin, x, s));
  }

  lemma AloneIsTrie(x: int, s: nat, lo: nat, e: nat)
    requires lo <= s < lo + Pow2(e)
    ensures Trie(Node([x], s, Leaf, Leaf), lo, e)
  {
  }

  lemma AloneInBin(m: Heap, x: int, s: nat, i: nat)
    requires Holds(i, s) && x > 0 && x in m && m[x] == TChunk(s, 0, 0, BinSlot(i), x, x, i)
    ensures BinAt(m, x, true, Node([x], s, Leaf, Leaf), i) && Foot(Node([x], s, Leaf, Leaf)) == {x}
  {
    HoldsRange(i, s);
    AloneIsTrie(x, s, BinLow(i), BinBits(i));
    AloneRep(m, x, s, BinSlot(i));
    assert Foot(Node([x], s, Leaf, Leaf)) == {x};
  }

  lemma AloneRep(m: Heap, x: int, s: nat, par: int)
    requires x > 0 && x in m && m[x].(index := 0) == TChunk(s, 0, 0, par, x, x, 0)
    ensures Rep(m, Node([x], s, Leaf, Leaf), x, par)
  {
    assert RingAt(m, [x], s, 0);
  }

  /** An unmarked bin has no chunk. */
  lemma NoneUnmarked(m: Heap, roots: seq<int>, treemap: set<nat>, bins: seq<Tree>, i: nat)
    requires BinsOk(m, roots, treemap, bins) && i < BINS && i !in treemap
    ensures forall c :: c in m ==> m[c].index != i
  {
    assert BinAt(m, roots[i], i in treemap, bins[i], i);
  }

  lemma AloneChange(m: Heap, i: nat, x: int, c: TChunk)
    requires x !in m && forall d :: d in m ==> m[d].index != i
    ensures var m' := m[x := c];
            && (forall d :: d in m && m[d].index != i ==> d in m' && m'[d] == m[d])
            && (forall d :: d in m' ==> (d in m && m[d].index != i) || d == x)
  {
  }

  lemma InsertFirst(m: Heap, roots: seq<int>, treemap: set<nat>, bins: seq<Tree>, i: nat, x: int, s: nat)
    requires BinsOk(m, roots, treemap, bins) && Holds(i, s) && x > 0 && x !in m && i !in treemap
    ensures BinsOk(m[x := TChunk(s, 0, 0, BinSlot(i), x, x, i)], roots[i := x], treemap + {i},
                   bins[i := Node([x], s, Leaf, Leaf)])
  {
    var m', t' := m[x := TChunk(s, 0, 0, BinSlot(i), x, x, i)], Node([x], s, Leaf, Leaf);
    NoneUnmarked(m, roots, treemap, bins, i);
    AloneInBin(m', x, s, i);
    AloneChange(m, i, x, m'[x]);
    OneBinChanged(m, roots, treemap, bins, i, m', x, treemap + {i}, t');
  }

  function BinSub(bins: seq<Tree>, i: nat): Sub
    requires i < |bins| && i < BINS
  {
    Sub(bins[i], BinLow(i), BinBits(i))
  }

  /** What the walk below a marked bin needs, and where it ends. */
  lemma WalkReady(m: Heap, roots: seq<int>, treemap: set<nat>, bins: seq<Tree>, i: nat, s: nat, bin: Sub)
    requires BinsOk(m, roots, treemap, bins) && Holds(i, s) && i in treemap && bin == BinSub(bins, i)
    ensures bin.tree.Node? && SubOk(bin) && Shape(m, bin.tree, roots[i]) && Guides(StartKey(s, i), bin, s)
    ensures SpotOf(bin, s).at in m && m[SpotOf(bin, s).at].fd in m
  {
    assert BinAt(m, roots[i], i in treemap, bins[i], i);
    HoldsRange(i, s);
    StartOk(m, roots[i], i, s, bin);
    SpotInBin(m, roots[i], i, s, bin);
  }
}
