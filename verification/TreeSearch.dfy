/** The best-fit search of dlmalloc's tree bins (`tmalloc_large`). */
module TreeSearch {
  import opened Arithmetic
  import opened Bits
  import opened SizeTree
  import opened TreeHeap

  predicate AtLeast(t: Tree, nb: nat) {
    t.Node? ==> t.size >= nb && AtLeast(t.left, nb) && AtLeast(t.right, nb)
  }

  lemma {:induction false} RangeAtLeast(t: Tree, lo: nat, e: nat, nb: nat)
    requires Trie(t, lo, e) && nb <= lo
    ensures AtLeast(t, nb)
  {
    if t.Node? && e > 0 {
      RangeAtLeast(t.left, lo, e - 1, nb);
      RangeAtLeast(t.right, lo + Pow2(e - 1), e - 1, nb);
    }
  }

  lemma {:induction false} LaterBinAtLeast(t: Tree, i: nat, idx: nat, nb: nat)
    requires InBin(t, i) && Holds(idx, nb) && idx < i
    ensures AtLeast(t, nb)
  {
    if t.Node? {
      LaterBinLarger(idx, nb, i, t.size);
      LaterBinAtLeast(t.left, i, idx, nb);
      LaterBinAtLeast(t.right, i, idx, nb);
    }
  }

  lemma {:induction false} FootSize(m: Heap, t: Tree, p: int, par: int, i: nat, nb: nat, c: int)
    requires Rep(m, t, p, par) && InBin(t, i) && c in Foot(t)
    ensures c in m && Holds(i, m[c].size) && (m[c].size >= nb ==> MinAbove(t, nb) <= m[c].size)
    decreases t
  {
    if c in t.ring {
      var k :| 0 <= k < |t.ring| && t.ring[k] == c;
      assert RingAt(m, t.ring, t.size, k);
    } else if c in Foot(t.left) {
      FootSize(m, t.left, m[p].child0, p, i, nb, c);
    } else {
      FootSize(m, t.right, m[p].child1, p, i, nb, c);
    }
  }

  /** Wrapping subtraction of sizes. */
  function Minus(a: nat, b: nat): nat
    requires a < WORD && b < WORD
  {
    if a >= b then a - b else a + WORD - b
  }

  /** The least marked bin above `i`, or `BINS`. */
  function NextBin(treemap: set<nat>, i: nat): (r: nat)
    requires i <= BINS
    ensures i <= r <= BINS && (r < BINS ==> r in treemap) && forall j :: i <= j < r ==> j !in treemap
    decreases BINS - i
  {
    if i == BINS || i in treemap then i else NextBin(treemap, i + 1)
  }

  /** A tree of sizes at least `nb` has its least size at the root or in the first non-empty child. */
  lemma LeftmostHoldsLeast(t: Tree, lo: nat, e: nat, nb: nat)
    requires t.Node? && Trie(t, lo, e) && lo + Pow2(e) <= WORD && AtLeast(t, nb)
    ensures MinAbove(t, nb) == Least(t.size, MinAbove(if t.left.Node? then t.left else t.right, nb))
  {
    if e > 0 {
      MinAboveRange(t.left, lo, e - 1, nb);
      MinAboveRange(t.right, lo + Pow2(e - 1), e - 1, nb);
      if t.left.Node? {
        AtLeastFinds(t.left, lo, e - 1, nb);
      }
    }
  }

  lemma {:induction false} AtLeastFinds(t: Tree, lo: nat, e: nat, nb: nat)
    requires t.Node? && Trie(t, lo, e) && lo + Pow2(e) <= WORD && AtLeast(t, nb)
    ensures MinAbove(t, nb) < lo + Pow2(e)
  {
  }

  /** The right subtree left behind lies wholly above the range being walked. */
  predicate Beyond(right: Sub, cur: Sub) {
    right.tree.Node? ==> cur.lo + Pow2(cur.e) <= right.lo
  }

  function SkippedRight(cur: Sub, right: Sub, upper: bool): Sub
    requires cur.tree.Node?
  {
    if !upper && cur.tree.right.Node? then Half(cur, true) else right
  }

  lemma WalkShape(cur: Sub, right: Sub, nb: nat)
    requires cur.tree.Node? && SubOk(cur) && SubOk(right) && Beyond(right, cur)
    requires cur.lo <= nb < cur.lo + Pow2(cur.e)
    ensures var next, right' := Half(cur, Upper(nb, cur)), SkippedRight(cur, right, Upper(nb, cur));
            && SubOk(next) && SubOk(right') && Beyond(right', next)
            && next.tree == (if Upper(nb, cur) then cur.tree.right else cur.tree.left)
            && (right'.tree.Node? ==> nb <= right'.lo)
            && (next.tree.Node? ==> next.lo <= nb < next.lo + Pow2(next.e))
  {
  }

  /** What the walk leaves out is too small, or larger than what it keeps. */
  lemma WalkKeepsLeast(cur: Sub, right: Sub, nb: nat)
    requires cur.tree.Node? && SubOk(cur) && SubOk(right) && Beyond(right, cur)
    requires cur.lo <= nb < cur.lo + Pow2(cur.e)
    ensures var next, right' := Half(cur, Upper(nb, cur)), SkippedRight(cur, right, Upper(nb, cur));
            Least(MinAbove(cur.tree, nb), MinAbove(right.tree, nb)) ==
            Least(Fit(cur.tree.size, nb),
                  Least(MinAbove(next.tree, nb), MinAbove(right'.tree, nb)))
  {
    MinAboveRange(right.tree, right.lo, right.e, nb);
    if cur.e > 0 {
      MinAboveRange(cur.tree.left, cur.lo, cur.e - 1, nb);
      MinAboveRange(cur.tree.right, cur.lo + Pow2(cur.e - 1), cur.e - 1, nb);
      var upper := Upper(nb, cur);
      LeastKept(Fit(cur.tree.size, nb), MinAbove(cur.tree.left, nb), MinAbove(cur.tree.right, nb),
                MinAbove(right.tree, nb), upper, cur.tree.right.Node?);
    }
  }

  /** Of four candidates the walk drops the lower half's, or the one beyond the upper half's. */
  lemma LeastKept(own: nat, low: nat, high: nat, right: nat, upper: bool, any: bool)
    requires own <= WORD && low <= WORD && high <= WORD && right <= WORD
    requires (upper ==> low == WORD) && (any ==> !upper ==> high <= right) && (!any ==> high == WORD)
    ensures Least(Least(own, Least(low, high)), right) ==
            Least(own, Least(if upper then high else low, if !upper && any then high else right))
  {
  }

  lemma LeastAssoc(a: nat, b: nat, c: nat)
    ensures Least(a, Least(b, c)) == Least(Least(a, b), c)
  {
  }

  lemma {:induction false} MinAboveBound(t: Tree, nb: nat)
    requires nb <= WORD
    ensures nb <= MinAbove(t, nb)
  {
    if t.Node? {
      MinAboveBound(t.left, nb);
      MinAboveBound(t.right, nb);
    }
  }

  /** A fitting size, or one past the largest word. */
  function Fit(size: nat, nb: nat): nat {
    if size >= nb then size else WORD
  }

  function Better(cand: nat, size: nat, nb: nat): nat {
    if nb <= size < cand then size else cand
  }

  /** The walk on values: the candidate found on the path of the request's own bits, and the
      subtree handed on to the leftmost descent. */
  function WalkTree(cur: Sub, right: Sub, cand: nat, nb: nat): (nat, Sub)
    requires cur.tree.Node?
    decreases cur.tree
  {
    var cand' := Better(cand, cur.tree.size, nb);
    if cand' == nb then (nb, cur)
    else
      var upper := Upper(nb, cur);
      var next, right' := Half(cur, upper), SkippedRight(cur, right, upper);
      if next.tree.Leaf? then (cand', right') else WalkTree(next, right', cand', nb)
  }

  lemma WalkStepsLeast(cur: Sub, right: Sub, cand: nat, nb: nat)
    requires cur.tree.Node? && SubOk(cur) && SubOk(right) && Beyond(right, cur)
    requires cur.lo <= nb < cur.lo + Pow2(cur.e) && cand <= WORD
    ensures var next, right' := Half(cur, Upper(nb, cur)), SkippedRight(cur, right, Upper(nb, cur));
            Least(cand, Least(MinAbove(cur.tree, nb), MinAbove(right.tree, nb))) ==
            Least(Better(cand, cur.tree.size, nb), Least(MinAbove(next.tree, nb), MinAbove(right'.tree, nb)))
  {
    var next, right' := Half(cur, Upper(nb, cur)), SkippedRight(cur, right, Upper(nb, cur));
    WalkKeepsLeast(cur, right, nb);
    LeastAssoc(cand, Fit(cur.tree.size, nb), Least(MinAbove(next.tree, nb), MinAbove(right'.tree, nb)));
  }

  /** What the walk leaves out never matters for the best fit. */
  lemma {:induction false} WalkFindsLeast(cur: Sub, right: Sub, cand: nat, nb: nat)
    requires cur.tree.Node? && SubOk(cur) && SubOk(right) && Beyond(right, cur)
    requires cur.lo <= nb < cur.lo + Pow2(cur.e) && nb < cand <= WORD
    ensures var (cand', rest) := WalkTree(cur, right, cand, nb);
            && Least(cand, Least(MinAbove(cur.tree, nb), MinAbove(right.tree, nb))) ==
                 Least(cand', MinAbove(rest.tree, nb))
            && SubOk(rest) && (cand' == nb || AtLeast(rest.tree, nb))
    decreases cur.tree
  {
    var upper := Upper(nb, cur);
    var next, right' := Half(cur, upper), SkippedRight(cur, right, upper);
    var cand' := Better(cand, cur.tree.size, nb);
    WalkShape(cur, right, nb);
    WalkStepsLeast(cur, right, cand, nb);
    if cand' == nb {
      MinAboveBound(cur.tree, nb);
      MinAboveBound(next.tree, nb);
      MinAboveBound(right'.tree, nb);
    } else if next.tree.Leaf? {
      MinAboveRange(right'.tree, right'.lo, right'.e, nb);
      if right'.tree.Node? {
        RangeAtLeast(right'.tree, right'.lo, right'.e, nb);
      }
    } else {
      WalkFindsLeast(next, right', cand', nb);
    }
  }

  /** The candidate `v` of size `nb + rsize`; none yet when that is one past the largest word. */
  predicate Candidate(m: Heap, nb: nat, v: int, rsize: nat) {
    && rsize + nb <= WORD && (v == 0 <==> rsize + nb == WORD)
    && (v != 0 ==> v in m && m[v].size == nb + rsize)
  }

  /** Take `t` as the candidate if its remainder, as an unsigned difference, is smaller. */
  method Consider(m: Heap, t: int, nb: nat, v: int, rsize: nat) returns (v': int, rsize': nat)
    requires t > 0 && t in m && m[t].size < WORD && 0 < nb < WORD && Candidate(m, nb, v, rsize)
    ensures Candidate(m, nb, v', rsize') && nb + rsize' == Better(nb + rsize, m[t].size, nb)
  {
    v', rsize' := v, rsize;
    var trem := Minus(m[t].size, nb);
    if trem < rsize {
      v', rsize' := t, trem;
    }
  }

  /** One turn of the walk below the chunk `t`, steered by `bit`. */
  method Descend(m: Heap, t: int, rst: int, bit: nat, ghost cur: Sub, ghost right: Sub, ghost upper: bool)
    returns (t': int, rst': int)
    requires cur.tree.Node? && Shape(m, cur.tree, t) && Shape(m, right.tree, rst)
    requires bit == (if upper then 1 else 0) && (cur.e == 0 ==> cur.tree.left.Leaf? && cur.tree.right.Leaf?)
    ensures Shape(m, Half(cur, upper).tree, t') && Shape(m, SkippedRight(cur, right, upper).tree, rst')
  {
    var rt := m[t].child1;
    t' := if bit == 0 then m[t].child0 else m[t].child1;
    rst' := if rt != 0 && rt != t' then rt else rst;
    assert Shape(m, cur.tree.right, m[t].child1);
  }

  /** The first loop of `tmalloc_large`, on the heap. */
  method WalkBin(m: Heap, root: int, nb: nat, idx: nat, ghost bin: Sub)
    returns (v: int, rsize: nat, t: int, ghost rest: Sub)
    requires 0 < nb < WORD && idx < BINS && Guides(StartKey(nb, idx), bin, nb)
    requires root != 0 && Shape(m, bin.tree, root)
    ensures Candidate(m, nb, v, rsize) && Shape(m, rest.tree, t)
    ensures (nb + rsize, rest) == WalkTree(bin, Sub(Leaf, 0, 0), WORD, nb)
  {
    t, v, rsize := root, 0, WORD - nb;
    var sizebits, rst := StartKey(nb, idx), 0;
    ghost var cur, right := bin, Sub(Leaf, 0, 0);
    ghost var goal := WalkTree(bin, right, WORD, nb);
    while true
      invariant cur.tree.Node? && Shape(m, cur.tree, t) && Shape(m, right.tree, rst)
      invariant Guides(sizebits, cur, nb)
      invariant Candidate(m, nb, v, rsize) && rsize > 0
      invariant goal == WalkTree(cur, right, nb + rsize, nb)
      decreases cur.tree
    {
      v, rsize := Consider(m, t, nb, v, rsize);
      if rsize == 0 {
        rest := cur;
        return;
      }
      ghost var upper := Upper(nb, cur);
      t, rst := Descend(m, t, rst, TopBitOf(sizebits), cur, right, upper);
      cur, right := Half(cur, upper), SkippedRight(cur, right, upper);
      if t == 0 {
        t, rest := rst, right;
        return;
      }
      sizebits := ShiftOne(sizebits);
    }
  }

  /** The leftmost descent on values. */
  function LeftTree(t: Tree, cand: nat, nb: nat): nat {
    if t.Leaf? then cand
    else LeftTree(if t.left.Node? then t.left else t.right, Better(cand, t.size, nb), nb)
  }

  lemma {:induction false} LeftTreeFindsLeast(t: Tree, lo: nat, e: nat, cand: nat, nb: nat)
    requires Trie(t, lo, e) && lo + Pow2(e) <= WORD && nb <= cand <= WORD && AtLeast(t, nb)
    ensures LeftTree(t, cand, nb) == Least(cand, MinAbove(t, nb))
  {
    if t.Node? {
      LeftmostHoldsLeast(t, lo, e, nb);
      LeastAssoc(cand, t.size, MinAbove(if t.left.Node? then t.left else t.right, nb));
      if e > 0 {
        LeftTreeFindsLeast(t.left, lo, e - 1, Better(cand, t.size, nb), nb);
        LeftTreeFindsLeast(t.right, lo + Pow2(e - 1), e - 1, Better(cand, t.size, nb), nb);
      }
    }
  }

  lemma {:induction false} LeftTreeExact(t: Tree, nb: nat)
    ensures LeftTree(t, nb, nb) == nb
  {
    if t.Node? {
      LeftTreeExact(if t.left.Node? then t.left else t.right, nb);
    }
  }

  /** The second loop of `tmalloc_large`, on the heap. */
  method Leftmost(m: Heap, start: int, nb: nat, v0: int, rsize0: nat, ghost tree: Tree) returns (v: int, rsize: nat)
    requires 0 < nb < WORD && Candidate(m, nb, v0, rsize0) && Shape(m, tree, start)
    ensures Candidate(m, nb, v, rsize) && nb + rsize == LeftTree(tree, nb + rsize0, nb)
  {
    var t := start;
    v, rsize := v0, rsize0;
    ghost var cur, goal := tree, LeftTree(tree, nb + rsize0, nb);
    while t != 0
      invariant Candidate(m, nb, v, rsize) && Shape(m, cur, t) && goal == LeftTree(cur, nb + rsize, nb)
      decreases cur
    {
      v, rsize := Consider(m, t, nb, v, rsize);
      t := if m[t].child0 != 0 then m[t].child0 else m[t].child1;
      cur := if cur.left.Node? then cur.left else cur.right;
    }
  }

  /** The bin that decides the best fit: the request's own if it has a fitting chunk, else the
      next marked one. */
  ghost predicate Decides(treemap: set<nat>, own: Tree, idx: nat, nb: nat, i: nat)
    requires idx < BINS
  {
    if MinAbove(own, nb) < WORD then i == idx else i == NextBin(treemap, idx + 1)
  }

  lemma {:induction false} LeastInBin(t: Tree, i: nat, nb: nat)
    requires InBin(t, i) && MinAbove(t, nb) < WORD
    ensures Holds(i, MinAbove(t, nb))
  {
    if t.Node? {
      if MinAbove(t.left, nb) < WORD {
        LeastInBin(t.left, i, nb);
      }
      if MinAbove(t.right, nb) < WORD {
        LeastInBin(t.right, i, nb);
      }
    }
  }

  lemma FitNotSmaller(m: Heap, ti: Tree, ri: int, i: nat, tj: Tree, rj: int, j: nat, idx: nat, nb: nat, c: int)
    requires Holds(idx, nb) && idx <= i <= j < BINS && BinOk(m, ti, ri, i) && BinOk(m, tj, rj, j)
             && (i == j ==> ti == tj)
    requires c in Foot(tj) && c in m && m[c].size >= nb && (i == idx ==> MinAbove(ti, nb) < WORD) && ti.Node?
    ensures MinAbove(ti, nb) <= m[c].size < WORD
  {
    FootSize(m, tj, rj, BinSlot(j), j, nb, c);
    if i < j {
      if i > idx {
        LaterBinAtLeast(ti, i, idx, nb);
        AtLeastBelowWord(ti, i, nb);
      }
      LeastInBin(ti, i, nb);
      LaterBinLarger(i, MinAbove(ti, nb), j, m[c].size);
    }
  }

  lemma NotEarlier(m: Heap, t: Tree, root: int, j: nat, idx: nat, nb: nat, c: int)
    requires Holds(idx, nb) && j < BINS && BinOk(m, t, root, j) && c in Foot(t) && c in m && m[c].size >= nb
    ensures idx <= j && (j == idx ==> MinAbove(t, nb) < WORD)
  {
    FootSize(m, t, root, BinSlot(j), j, nb, c);
    if j < idx {
      LaterBinLarger(j, m[c].size, idx, nb);
    }
  }

  /** No fitting chunk of any bin is smaller than the least one of the deciding bin. */
  lemma DecidesBestFit(m: Heap, roots: seq<int>, treemap: set<nat>, bins: seq<Tree>, nb: nat, idx: nat, i: nat, c: int)
    requires BinsOk(m, roots, treemap, bins) && Holds(idx, nb)
    requires Decides(treemap, bins[idx], idx, nb, i) && c in m && m[c].size >= nb
    ensures i < BINS && MinAbove(bins[i], nb) <= m[c].size < WORD
  {
    var j := m[c].index;
    assert BinAt(m, roots[j], j in treemap, bins[j], j) && BinAt(m, roots[idx], idx in treemap, bins[idx], idx);
    NotEarlier(m, bins[j], roots[j], j, idx, nb, c);
    assert i < BINS && BinAt(m, roots[i], i in treemap, bins[i], i);
    FitNotSmaller(m, bins[i], roots[i], i, bins[j], roots[j], j, idx, nb, c);
  }

  lemma AtLeastBelowWord(t: Tree, i: nat, nb: nat)
    requires InBin(t, i) && t.Node? && AtLeast(t, nb)
    ensures MinAbove(t, nb) < WORD
  {
  }

  lemma WalkFindsBinLeast(bin: Sub, nb: nat)
    requires bin.tree.Node? && SubOk(bin) && bin.lo <= nb < bin.lo + Pow2(bin.e) && nb < WORD
    ensures var (cand, rest) := WalkTree(bin, Sub(Leaf, 0, 0), WORD, nb);
            && MinAbove(bin.tree, nb) == Least(cand, MinAbove(rest.tree, nb))
            && SubOk(rest) && (cand == nb || AtLeast(rest.tree, nb))
  {
    WalkFindsLeast(bin, Sub(Leaf, 0, 0), WORD, nb);
    MinAboveRange(bin.tree, bin.lo, bin.e, nb);
  }

  /** The best fit of `tree` is the candidate or lies in the subtree `rest` still to be descended. */
  predicate Narrowed(tree: Tree, nb: nat, cand: nat, rest: Sub) {
    && MinAbove(tree, nb) == Least(cand, MinAbove(rest.tree, nb))
    && SubOk(rest) && nb <= cand <= WORD && (cand == nb || AtLeast(rest.tree, nb))
  }

  /** The part of `tmalloc_large` that looks at the request's own bin. */
  method SearchOwnBin(m: Heap, root: int, nb: nat, idx: nat, ghost tree: Tree)
    returns (v: int, rsize: nat, t: int, ghost rest: Sub)
    requires Holds(idx, nb) && nb > 0 && BinOk(m, tree, root, idx)
    ensures Candidate(m, nb, v, rsize) && Shape(m, rest.tree, t) && Narrowed(tree, nb, nb + rsize, rest)
  {
    v, rsize, t, rest := 0, WORD - nb, root, Sub(Leaf, 0, 0);
    if t != 0 {
      ghost var bin := Sub(tree, BinLow(idx), BinBits(idx));
      HoldsRange(idx, nb);
      StartOk(m, root, idx, nb, bin);
      WalkFindsBinLeast(bin, nb);
      v, rsize, t, rest := WalkBin(m, t, nb, idx, bin);
    }
  }

  lemma NarrowedLeft(tree: Tree, nb: nat, cand: nat, rest: Sub)
    requires Narrowed(tree, nb, cand, rest)
    ensures LeftTree(rest.tree, cand, nb) == MinAbove(tree, nb)
  {
    if cand == nb {
      LeftTreeExact(rest.tree, nb);
      MinAboveBound(rest.tree, nb);
    } else {
      LeftTreeFindsLeast(rest.tree, rest.lo, rest.e, cand, nb);
    }
  }

  lemma BinNarrowed(m: Heap, tree: Tree, root: int, i: nat, idx: nat, nb: nat)
    requires Holds(idx, nb) && idx < i < BINS && BinOk(m, tree, root, i)
    ensures Shape(m, tree, root) && Narrowed(tree, nb, WORD, Sub(tree, BinLow(i), BinBits(i)))
  {
    BinFits(i);
    RepShape(m, tree, root, BinSlot(i), i);
    LaterBinAtLeast(tree, i, idx, nb);
    MinAboveRange(tree, BinLow(i), BinBits(i), nb);
  }

  function BinLeast(bins: seq<Tree>, i: nat, nb: nat): nat {
    if i < |bins| then MinAbove(bins[i], nb) else WORD
  }

  /** A fit was found in the request's own bin, or that bin has none. */
  lemma OwnBinDone(m: Heap, tree: Tree, nb: nat, v: int, rsize: nat, t: int, rest: Sub)
    requires Narrowed(tree, nb, nb + rsize, rest) && Candidate(m, nb, v, rsize) && Shape(m, rest.tree, t) && nb < WORD
    ensures LeftTree(rest.tree, nb + rsize, nb) == MinAbove(tree, nb)
    ensures if t != 0 || v != 0 then MinAbove(tree, nb) < WORD else MinAbove(tree, nb) == WORD && rsize + nb == WORD
  {
    NarrowedLeft(tree, nb, nb + rsize, rest);
    if t != 0 && v == 0 {
      AtLeastFinds(rest.tree, rest.lo, rest.e, nb);
    }
  }

  lemma NextBinLeast(m: Heap, bins: seq<Tree>, tree: Tree, root: int, i: nat, idx: nat, nb: nat)
    requires Holds(idx, nb) && idx < i < BINS == |bins| && bins[i] == tree && BinOk(m, tree, root, i)
    ensures Shape(m, tree, root) && LeftTree(tree, WORD, nb) == BinLeast(bins, i, nb)
  {
    BinNarrowed(m, tree, root, i, idx, nb);
    NarrowedLeft(tree, nb, WORD, Sub(tree, BinLow(i), BinBits(i)));
  }

  method SearchAll(m: Heap, roots: seq<int>, treemap: set<nat>, nb: nat, idx: nat, ghost bins: seq<Tree>)
    returns (v: int, rsize: nat, ghost i: nat)
    requires Holds(idx, nb) && nb > 0 && |bins| == |roots| == BINS
    requires forall i :: 0 <= i < BINS ==> BinOk(m, bins[i], roots[i], i)
    ensures Candidate(m, nb, v, rsize) && Decides(treemap, bins[idx], idx, nb, i)
    ensures nb + rsize == BinLeast(bins, i, nb)
  {
    var t;
    ghost var rest, tree;
    v, rsize, t, rest := SearchOwnBin(m, roots[idx], nb, idx, bins[idx]);
    OwnBinDone(m, bins[idx], nb, v, rsize, t, rest);
    i, tree := idx, rest.tree;
    if t == 0 && v == 0 {
      var next := NextBin(treemap, idx + 1);
      i, tree := next, Leaf;
      if next < BINS {
        t, tree := roots[next], bins[next];
        NextBinLeast(m, bins, tree, t, next, idx, nb);
      }
    }
    v, rsize := Leftmost(m, t, nb, v, rsize, tree);
  }

  // ----- a request smaller than every tree chunk

  lemma {:induction false} BinAboveSmall(t: Tree, i: nat, nb: nat)
    requires InBin(t, i) && nb < MIN_LARGE
    ensures AtLeast(t, nb)
  {
    if t.Node? {
      Pow2Values();
      Pow2Monotone(8, i / 2 + 8);
      BinAboveSmall(t.left, i, nb);
      BinAboveSmall(t.right, i, nb);
    }
  }

  lemma FirstBinLeast(m: Heap, tree: Tree, root: int, i: nat, nb: nat)
    requires i < BINS && BinOk(m, tree, root, i) && tree.Node? && nb < MIN_LARGE
    ensures Shape(m, tree, root) && LeftTree(tree, WORD, nb) == MinAbove(tree, nb) < WORD
  {
    BinFits(i);
    RepShape(m, tree, root, BinSlot(i), i);
    BinAboveSmall(tree, i, nb);
    AtLeastBelowWord(tree, i, nb);
    LeftTreeFindsLeast(tree, BinLow(i), BinBits(i), WORD, nb);
  }

  /** No chunk of any bin is smaller than the least one of the first marked bin. */
  lemma FirstBinDecides(m: Heap, roots: seq<int>, treemap: set<nat>, bins: seq<Tree>, nb: nat, i: nat, c: int)
    requires BinsOk(m, roots, treemap, bins) && nb < MIN_LARGE && i == NextBin(treemap, 0) < BINS && c in m
    ensures MinAbove(bins[i], nb) <= m[c].size
  {
    var j := m[c].index;
    assert BinAt(m, roots[j], j in treemap, bins[j], j) && BinAt(m, roots[i], i in treemap, bins[i], i);
    assert j in treemap && i <= j;
    EarlierNotLarger(m, bins[i], roots[i], i, bins[j], roots[j], j, nb, c);
  }

  lemma HeldIsLarge(j: nat, s: nat)
    requires Holds(j, s)
    ensures s >= MIN_LARGE
  {
    Pow2Values();
    Pow2Monotone(8, j / 2 + 8);
  }

  lemma EarlierNotLarger(m: Heap, ti: Tree, ri: int, i: nat, tj: Tree, rj: int, j: nat, nb: nat, c: int)
    requires i <= j < BINS && BinOk(m, ti, ri, i) && BinOk(m, tj, rj, j) && (i == j ==> ti == tj) && ti.Node?
    requires nb < MIN_LARGE && c in Foot(tj)
    ensures c in m && MinAbove(ti, nb) <= m[c].size
  {
    FootSize(m, tj, rj, BinSlot(j), j, nb, c);
    HeldIsLarge(j, m[c].size);
    if i < j {
      FirstBinLeast(m, ti, ri, i, nb);
      LeastInBin(ti, i, nb);
      LaterBinLarger(i, MinAbove(ti, nb), j, m[c].size);
    }
  }

  /** The search of `tmalloc_small`: the root of the first marked bin, then the leftmost descent. */
  method SearchSmall(m: Heap, root: int, nb: nat, ghost tree: Tree) returns (v: int, rsize: nat)
    requires 0 < nb < MIN_LARGE && tree.Node? && Shape(m, tree, root) && AtLeast(tree, nb)
    ensures v != 0 ==> v in m && m[v].size == nb + rsize
    ensures nb + rsize == LeftTree(tree, WORD, nb) && (v == 0 <==> nb + rsize == WORD)
  {
    v, rsize := root, m[root].size - nb;
    var t := if m[root].child0 != 0 then m[root].child0 else m[root].child1;
    v, rsize := Leftmost(m, t, nb, v, rsize, if tree.left.Node? then tree.left else tree.right);
  }
}
