/** dlmalloc's tree bins: search, insertion and unlinking. */
module TreeBins {
  import opened SizeTree
  import opened Bits
  import opened TreeHeap
  import opened TreeSearch
  import opened TreeInsert
  import opened TreeUnlink

  /** A marked bin takes the chunk, in the place that the walk finds. */
  method InsertBelow(m: Heap, roots: seq<int>, treemap: set<nat>, ghost bins: seq<Tree>, i: nat, x: int, s: nat)
    returns (m': Heap)
    requires BinsOk(m, roots, treemap, bins) && x > 0 && x !in m && Holds(i, s) && i in treemap
    ensures BinsOk(m', roots, treemap, bins[i := Put(BinSub(bins, i), x, s)])
    ensures m'.Keys == m.Keys + {x} && m'[x].size == s && forall c :: c in m ==> m'[c].size == m[c].size
  {
    ghost var bin := BinSub(bins, i);
    WalkReady(m, roots, treemap, bins, i, s, bin);
    var spot := FindSpot(m, roots[i], s, i, bin);
    InsertMarked(m, roots, treemap, bins, i, x, s, bin);
    AddAtKeys(m, spot, x, s, i);
    m' := AddAt(m, spot, x, s, i);
  }

  class Bins {
    var chunks: Heap
    var roots: seq<int>
    var treemap: set<nat>
    ghost var bins: seq<Tree>

    ghost predicate Valid()
      reads this
    {
      BinsOk(chunks, roots, treemap, bins)
    }

    /** All bins empty. */
    constructor ()
      ensures Valid() && chunks == map[]
    {
      chunks, treemap := map[], {};
      roots := seq(BINS, i => 0);
      bins := seq(BINS, i => Leaf);
    }

    /** A bin with a chunk is marked. */
    lemma MarkedIfAny(c: int)
      requires Valid() && c in chunks
      ensures treemap != {}
    {
      var i := chunks[c].index;
      assert BinAt(chunks, roots[i], i in treemap, bins[i], i);
      assert i in treemap;
    }

    /** The search of `tmalloc_large`: a chunk of least size at least `nb` among all tree bins. */
    method FindLarge(nb: nat) returns (v: int, rsize: nat)
      requires Valid() && MIN_LARGE <= nb < MAX_CHUNK
      ensures v == 0 ==> forall c :: c in chunks ==> chunks[c].size < nb
      ensures v != 0 ==>
                && v in chunks && chunks[v].size == nb + rsize
                && forall c :: c in chunks && chunks[c].size >= nb ==> chunks[v].size <= chunks[c].size
    {
      IndexHolds(nb);
      ghost var i;
      v, rsize, i := SearchAll(chunks, roots, treemap, nb, TreeIndex(nb), bins);
      forall c | c in chunks && chunks[c].size >= nb
        ensures nb + rsize <= chunks[c].size < WORD
      {
        DecidesBestFit(chunks, roots, treemap, bins, nb, TreeIndex(nb), i, c);
      }
    }

    /** The search of `tmalloc_small`: a chunk of least size among all tree bins. */
    method FindSmall(nb: nat) returns (v: int, rsize: nat)
      requires Valid() && 0 < nb < MIN_LARGE && treemap != {}
      ensures v in chunks && chunks[v].size == nb + rsize
      ensures forall c :: c in chunks ==> chunks[v].size <= chunks[c].size
    {
      var i := NextBin(treemap, 0);
      assert i < BINS by {
        var j :| j in treemap;
      }
      assert BinAt(chunks, roots[i], i in treemap, bins[i], i);
      FirstBinLeast(chunks, bins[i], roots[i], i, nb);
      BinAboveSmall(bins[i], i, nb);
      v, rsize := SearchSmall(chunks, roots[i], nb, bins[i]);
      forall c | c in chunks
        ensures nb + rsize <= chunks[c].size
      {
        FirstBinDecides(chunks, roots, treemap, bins, nb, i, c);
      }
    }

    /** `insert_large_chunk`: exactly `x` is added, to the bin of its size. */
    method Insert(x: int, s: nat)
      requires Valid() && x > 0 && x !in chunks && MIN_LARGE <= s < MAX_CHUNK
      modifies this
      ensures Valid() && chunks.Keys == old(chunks.Keys) + {x} && chunks[x].size == s
      ensures forall c :: c in old(chunks) ==> chunks[c].size == old(chunks[c].size)
      ensures bins == old(bins)[TreeIndex(s) := Put(BinSub(old(bins), TreeIndex(s)), x, s)]
    {
      IndexHolds(s);
      InsertInto(TreeIndex(s), x, s);
    }

    method InsertInto(i: nat, x: int, s: nat)
      requires Valid() && x > 0 && x !in chunks && Holds(i, s)
      modifies this
      ensures Valid() && chunks.Keys == old(chunks.Keys) + {x} && chunks[x].size == s
      ensures forall c :: c in old(chunks) ==> chunks[c].size == old(chunks[c].size)
      ensures bins == old(bins)[i := Put(BinSub(old(bins), i), x, s)]
    {
      if i !in treemap {
        InsertFirst(chunks, roots, treemap, bins, i, x, s);
        treemap := treemap + {i};
        roots := roots[i := x];
        chunks := chunks[x := TChunk(s, 0, 0, BinSlot(i), x, x, i)];
        bins := bins[i := Node([x], s, Leaf, Leaf)];
      } else {
        chunks := InsertBelow(chunks, roots, treemap, bins, i, x, s);
        bins := bins[i := Put(BinSub(bins, i), x, s)];
      }
    }

    /** `unlink_large_chunk`: exactly `x` is taken out of its bin. */
    method Unlink(x: int)
      requires Valid() && x in chunks
      modifies this
      ensures Valid() && chunks.Keys == old(chunks.Keys) - {x}
      ensures forall c :: c in chunks ==> chunks[c].size == old(chunks[c].size)
      ensures bins == old(bins)[old(chunks[x].index) := Del(old(bins[chunks[x].index]), x)]
    {
      var i := chunks[x].index;
      UnlinkStep(chunks, roots, treemap, bins, i, x);
      var m, r := UnlinkHeaders(chunks, x, roots[i] == x, NodeOf(bins[i], x));
      if roots[i] == x {
        roots := roots[i := r];
        if r == 0 {
          treemap := treemap - {i};
        }
      }
      chunks := m - {x};
      bins := bins[i := Del(bins[i], x)];
    }
  }
}
