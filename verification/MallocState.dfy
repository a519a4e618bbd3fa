/** dlmalloc's `malloc` and `free` whole: the boundary tags of the segment together with the small bins
    and the tree bins that hold its free chunks. */
module MallocState {
  import opened Lists
  import opened Bits
  import opened SizeTree
  import opened TreeHeap
  import opened TreeBins
  import opened SmallBins
  import opened ChunkTiling
  import opened ChunkArena
  import opened ChunkSegment

  /** `small_index` */
  function SmallIndex(size: nat): nat {
    size / 8
  }

  // ----- the bins together

  /** A small bin holds, without repetition, chunks of its size. */
  ghost predicate SmallOk(list: seq<nat>, i: nat, sizes: map<nat, nat>) {
    Distinct(list) && forall x :: x in list ==> x in sizes && sizes[x] == 8 * i
  }

  predicate Sized(x: nat, s: nat) {
    x > 0 && s % ALIGN == 0 && MIN_CHUNK <= s < MAX_CHUNK
  }

  /** The bins hold exactly these chunks, each in the bin of its size. */
  ghost predicate Filed(small: seq<seq<nat>>, chunks: Heap, sizes: map<nat, nat>) {
    && |small| == SMALL_BINS
    && (forall i :: 0 <= i < SMALL_BINS ==> SmallOk(small[i], i, sizes))
    && (forall x :: x in sizes ==> Sized(x, sizes[x]))
    && (forall x :: x in sizes && sizes[x] < MIN_LARGE ==> x in small[SmallIndex(sizes[x])])
    && (forall c :: c in chunks ==> c in sizes && sizes[c] == chunks[c].size >= MIN_LARGE)
    && (forall x :: x in sizes && sizes[x] >= MIN_LARGE ==> x in chunks)
  }

  lemma SmallFits(s: nat)
    requires MIN_CHUNK <= s < MIN_LARGE && s % ALIGN == 0
    ensures SmallIndex(s) < SMALL_BINS && 8 * SmallIndex(s) == s
  {
  }

  lemma SmallGains(small: seq<seq<nat>>, chunks: Heap, sizes: map<nat, nat>, x: nat, s: nat)
    requires Filed(small, chunks, sizes) && x !in sizes && Sized(x, s) && s < MIN_LARGE
    ensures SmallIndex(s) < SMALL_BINS && forall j :: 0 <= j < SMALL_BINS ==> x !in small[j]
    ensures Filed(small[SmallIndex(s) := [x] + small[SmallIndex(s)]], chunks, sizes[x := s])
  {
    SmallFits(s);
    var i := SmallIndex(s);
    var small', sizes' := small[i := [x] + small[i]], sizes[x := s];
    forall j | 0 <= j < SMALL_BINS
      ensures SmallOk(small'[j], j, sizes')
    {
      assert SmallOk(small[j], j, sizes);
      assert forall k :: 0 < k < |[x] + small[i]| ==> ([x] + small[i])[k] == small[i][k - 1];
    }
  }

  lemma SmallLoses(small: seq<seq<nat>>, chunks: Heap, sizes: map<nat, nat>, x: nat)
    requires Filed(small, chunks, sizes) && x in sizes && sizes[x] < MIN_LARGE
    ensures var i := SmallIndex(sizes[x]);
            i < SMALL_BINS && x in small[i] && Filed(small[i := Without(small[i], x)], chunks, sizes - {x})
  {
    assert Sized(x, sizes[x]);
    SmallFits(sizes[x]);
    var i := SmallIndex(sizes[x]);
    var small', sizes' := small[i := Without(small[i], x)], sizes - {x};
    assert SmallOk(small[i], i, sizes);
    WithoutIs(small[i], x);
    forall j | 0 <= j < SMALL_BINS
      ensures SmallOk(small'[j], j, sizes')
    {
      assert SmallOk(small[j], j, sizes);
    }
    forall y | y in sizes' && sizes'[y] < MIN_LARGE
      ensures y in small'[SmallIndex(sizes'[y])]
    {
      assert y in small[SmallIndex(sizes[y])];
    }
  }

  lemma LargeGains(small: seq<seq<nat>>, chunks: Heap, chunks': Heap, sizes: map<nat, nat>, x: nat, s: nat)
    requires Filed(small, chunks, sizes) && x !in sizes && Sized(x, s) && s >= MIN_LARGE
    requires chunks'.Keys == chunks.Keys + {x} && chunks'[x].size == s && x !in chunks
    requires forall c :: c in chunks ==> chunks'[c].size == chunks[c].size
    ensures Filed(small, chunks', sizes[x := s])
  {
    var sizes' := sizes[x := s];
    forall j | 0 <= j < SMALL_BINS
      ensures SmallOk(small[j], j, sizes')
    {
      assert SmallOk(small[j], j, sizes);
    }
    forall c | c in chunks'
      ensures c in sizes' && sizes'[c] == chunks'[c].size >= MIN_LARGE
    {
      assert c in chunks || c == x;
    }
  }

  lemma LargeLoses(small: seq<seq<nat>>, chunks: Heap, chunks': Heap, sizes: map<nat, nat>, x: nat)
    requires Filed(small, chunks, sizes) && x in sizes && sizes[x] >= MIN_LARGE
    requires chunks'.Keys == chunks.Keys - {x} && forall c :: c in chunks' ==> chunks'[c].size == chunks[c].size
    ensures Filed(small, chunks', sizes - {x})
  {
    var sizes' := sizes - {x};
    forall j | 0 <= j < SMALL_BINS
      ensures SmallOk(small[j], j, sizes')
    {
      assert SmallOk(small[j], j, sizes);
      assert forall y :: y in small[j] ==> sizes[y] == 8 * j < MIN_LARGE;
    }
    forall c | c in chunks'
      ensures c in sizes' && sizes'[c] == chunks'[c].size >= MIN_LARGE
    {
      assert c in chunks && c != x;
    }
  }

  function Front(lists: seq<seq<nat>>, i: nat): Option<nat> {
    if i < |lists| && lists[i] != [] then Some(lists[i][0]) else None
  }

  /** A chunk that is new in the small bins, or has another size, is at the front of its bin. */
  ghost predicate NewInFront(sizes: map<nat, nat>, sizes': map<nat, nat>, lists: seq<seq<nat>>) {
    forall x :: x in sizes' && sizes'[x] < MIN_LARGE && (x in sizes ==> sizes[x] != sizes'[x]) ==>
      Front(lists, SmallIndex(sizes'[x])) == Some(x)
  }

  class FreeBins {
    const rings: Rings
    const trees: Bins
    ghost var sizes: map<nat, nat>

    ghost predicate Valid()
      reads this, rings, trees
    {
      rings.Valid() && trees.Valid() && Filed(rings.lists, trees.chunks, sizes)
    }

    constructor ()
      ensures Valid() && sizes == map[] && fresh(rings) && fresh(trees)
    {
      rings := new Rings();
      trees := new Bins();
      sizes := map[];
    }

    /** `insert_small_chunk`: the chunk is at the front of the bin of its size. */
    method InsertSmall(x: nat, s: nat)
      requires Valid() && x !in sizes && Sized(x, s) && s < MIN_LARGE
      modifies this, rings
      ensures Valid() && sizes == old(sizes)[x := s]
      ensures SmallIndex(s) < SMALL_BINS
      ensures rings.lists == old(rings.lists)[SmallIndex(s) := [x] + old(rings.lists)[SmallIndex(s)]]
    {
      SmallGains(rings.lists, trees.chunks, sizes, x, s);
      rings.Insert(SmallIndex(s), x);
      sizes := sizes[x := s];
    }

    method InsertLarge(x: nat, s: nat)
      requires Valid() && x !in sizes && Sized(x, s) && s >= MIN_LARGE
      modifies this, trees
      ensures Valid() && sizes == old(sizes)[x := s]
    {
      ghost var chunks := trees.chunks;
      trees.Insert(x, s);
      LargeGains(rings.lists, chunks, trees.chunks, sizes, x, s);
      sizes := sizes[x := s];
    }

    /** `insert_chunk` */
    method Insert(x: nat, s: nat)
      requires Valid() && x !in sizes && Sized(x, s)
      modifies this, rings, trees
      ensures Valid() && sizes == old(sizes)[x := s]
      ensures s < MIN_LARGE ==> Front(rings.lists, SmallIndex(s)) == Some(x)
    {
      if s < MIN_LARGE {
        InsertSmall(x, s);
      } else {
        InsertLarge(x, s);
      }
    }

    method UnlinkSmall(x: nat, s: nat)
      requires Valid() && x in sizes && sizes[x] == s < MIN_LARGE
      modifies this, rings
      ensures Valid() && sizes == old(sizes) - {x}
    {
      SmallLoses(rings.lists, trees.chunks, sizes, x);
      rings.Unlink(SmallIndex(s), x);
      sizes := sizes - {x};
    }

    method UnlinkLarge(x: nat, s: nat)
      requires Valid() && x in sizes && sizes[x] == s >= MIN_LARGE
      modifies this, trees
      ensures Valid() && sizes == old(sizes) - {x}
    {
      ghost var chunks := trees.chunks;
      trees.Unlink(x);
      LargeLoses(rings.lists, chunks, trees.chunks, sizes, x);
      sizes := sizes - {x};
    }

    /** `unlink_chunk` */
    method Unlink(x: nat, s: nat)
      requires Valid() && x in sizes && sizes[x] == s
      modifies this, rings, trees
      ensures Valid() && sizes == old(sizes) - {x}
    {
      if s < MIN_LARGE {
        UnlinkSmall(x, s);
      } else {
        UnlinkLarge(x, s);
      }
    }
  }

  // ----- the whole

  /** Some free chunk, or the top, can serve the request. */
  ghost predicate Servable(sizes: map<nat, nat>, dvsize: nat, topsize: nat, nb: nat) {
    (exists x :: x in sizes && sizes[x] >= nb) || nb <= dvsize || nb < topsize
  }

  /** The free chunk at `p` covers the request, and no other free chunk that does is smaller. */
  ghost predicate BestFit(sizes: map<nat, nat>, dv: nat, dvsize: nat, nb: nat, p: nat) {
    var size := if p in sizes then sizes[p] else dvsize;
    && (p in sizes || p == dv) && nb <= size
    && (forall x :: x in sizes && sizes[x] >= nb ==> size <= sizes[x]) && (dvsize >= nb ==> size <= dvsize)
  }

  /** The designated victim covers the request, and no binned chunk that does is smaller. */
  ghost predicate DvFitsBest(sizes: map<nat, nat>, dvsize: nat, nb: nat) {
    nb <= dvsize && forall x :: x in sizes && sizes[x] >= nb ==> dvsize <= sizes[x]
  }

  /** What is left of a chunk taken, or the designated victim it replaces, goes to its bin. The
      designated victim is small, as `replace_dv` asserts. */
  method Refile(free: FreeBins, v: nat, s: nat, nb: nat, size: nat, toDv: bool, dv: nat, dvsize: nat,
                ghost m: Arena, ghost m': Arena)
    requires free.Valid() && free.sizes == BinSizes(m) - {v} && SizeAt(m.w, v) == s
    requires TookBinned(m, m', v, nb, size, toDv) && dv == m.dv && dvsize == m.dvsize
    requires dvsize > 0 ==> Sized(dv, dvsize) && dv !in BinSizes(m)
    requires toDv && size < s ==> dvsize < MIN_LARGE
    requires v + nb in BinSizes(m') ==> Sized(v + nb, BinSizes(m')[v + nb])
    modifies free, free.rings, free.trees
    ensures free.Valid() && free.sizes == BinSizes(m')
  {
    if size < s {
      if !toDv {
        free.Insert(v + nb, s - nb);
      } else if dvsize > 0 {
        free.InsertSmall(dv, dvsize);
      }
    }
  }

  /** The least chunk of the bins that covers the request, unless the designated victim does and is no
      larger. */
  ghost predicate FindsBest(sizes: map<nat, nat>, dvsize: nat, nb: nat, found: Option<Entry>) {
    if found.Some? then
      && (forall x :: x in sizes && sizes[x] >= nb ==> found.value.size <= sizes[x])
      && (nb <= dvsize ==> found.value.size < dvsize)
    else
      forall x :: x in sizes && sizes[x] >= nb ==> nb <= dvsize <= sizes[x]
  }

  /** With the small bins from a request's own on empty, only large chunks can serve it. */
  lemma NoSmallFits(small: seq<seq<nat>>, chunks: Heap, sizes: map<nat, nat>, nb: nat)
    requires Filed(small, chunks, sizes) && MIN_CHUNK <= nb < MIN_LARGE && nb % ALIGN == 0
    requires forall i :: SmallIndex(nb) <= i < SMALL_BINS ==> small[i] == []
    ensures forall x :: x in sizes && sizes[x] >= nb ==> sizes[x] >= MIN_LARGE
  {
    forall x | x in sizes && sizes[x] < MIN_LARGE
      ensures sizes[x] < nb
    {
      assert Sized(x, sizes[x]) && x in small[SmallIndex(sizes[x])];
      SmallFits(sizes[x]);
    }
  }

  /** No chunk that covers the request is in a bin before the first non-empty one. */
  lemma FirstSmallLeast(small: seq<seq<nat>>, chunks: Heap, sizes: map<nat, nat>, nb: nat, i: nat)
    requires Filed(small, chunks, sizes) && MIN_CHUNK <= nb < MIN_LARGE && nb % ALIGN == 0
    requires SmallIndex(nb) <= i < SMALL_BINS && forall j :: SmallIndex(nb) <= j < i ==> small[j] == []
    ensures forall x :: x in sizes && sizes[x] >= nb ==> 8 * i <= sizes[x]
  {
    forall x | x in sizes && nb <= sizes[x] < MIN_LARGE
      ensures 8 * i <= sizes[x]
    {
      assert Sized(x, sizes[x]) && x in small[SmallIndex(sizes[x])];
      SmallFits(sizes[x]);
    }
  }

  lemma BinIsEven(small: seq<seq<nat>>, chunks: Heap, sizes: map<nat, nat>, i: nat)
    requires Filed(small, chunks, sizes) && i < SMALL_BINS && small[i] != []
    ensures i % 2 == 0
  {
    var x := small[i][0];
    assert SmallOk(small[i], i, sizes) && x in small[i];
    assert Sized(x, sizes[x]);
  }

  /** Sizes are multiples of 16, so every other small bin is empty. */
  lemma OddBinEmpty(small: seq<seq<nat>>, chunks: Heap, sizes: map<nat, nat>, i: nat)
    requires Filed(small, chunks, sizes) && i < SMALL_BINS && i % 2 == 1
    ensures small[i] == []
  {
    if small[i] != [] {
      BinIsEven(small, chunks, sizes, i);
    }
  }

  /** What the search of the bins promises of the chunk it names. */
  ghost predicate Finds(sizes: map<nat, nat>, dvsize: nat, nb: nat, found: Option<Entry>) {
    && (found.Some? ==> found.value.at in sizes && sizes[found.value.at] == found.value.size >= nb)
    && (found.None? ==> forall x :: x in sizes && sizes[x] >= nb ==> nb <= dvsize)
    && (nb >= MIN_LARGE || dvsize < nb ==> FindsBest(sizes, dvsize, nb, found))
    && (found.Some? && nb <= dvsize && nb < MIN_LARGE ==> found.value.size == nb)
  }

  /** The chunk found, else the designated victim, else the top serves the request. */
  function Served(found: Option<Entry>, dv: nat, dvsize: nat, top: nat, topsize: nat, nb: nat): Option<nat> {
    if found.Some? then Some(found.value.at)
    else if nb <= dvsize then Some(dv)
    else if nb < topsize then Some(top)
    else None
  }

  /** It is served exactly when it can be, and by a best fit unless a small request leaves it to the
      designated victim or to its own bin. */
  lemma ServedIs(sizes: map<nat, nat>, dv: nat, dvsize: nat, top: nat, topsize: nat, nb: nat, found: Option<Entry>)
    requires Finds(sizes, dvsize, nb, found) && (dvsize > 0 ==> dv !in sizes)
    ensures var p := Served(found, dv, dvsize, top, topsize, nb);
            && (p.Some? <==> Servable(sizes, dvsize, topsize, nb))
            && ((nb >= MIN_LARGE || dvsize < nb) && Servable(sizes, dvsize, 0, nb) && nb > 0 ==>
                  p.Some? && BestFit(sizes, dv, dvsize, nb, p.value))
            && (nb >= MIN_LARGE && DvFitsBest(sizes, dvsize, nb) ==> p == Some(dv))
  {
  }

  /** What a chunk of size `s` taken out of its bin leaves. Used whole it leaves the bins without it. Split,
      its rest is the designated victim, with the old one back in a bin; or its rest is in a bin. */
  ghost predicate FoundLeaves(v: View, v': View, p: nat, s: nat, nb: nat, size: nat, toDv: bool) {
    && v'.top == v.top && v'.topsize == v.topsize
    && if s < nb + MIN_CHUNK then
         size == s && v' == v.(sizes := v.sizes - {p})
       else
         && size == nb
         && if toDv then
              && v'.dv == p + nb && v'.dvsize == s - nb
              && v'.sizes == if v.dvsize > 0 then (v.sizes - {p})[v.dv := v.dvsize] else v.sizes - {p}
            else
              p + nb !in v.sizes && v' == v.(sizes := (v.sizes - {p})[p + nb := s - nb])
  }

  /** What a request served at `p` leaves: a binned chunk as above, with the rest of a small request's
      chunk as the designated victim; the designated victim less its front, or gone; the top less its
      front; or everything as it was. */
  ghost predicate Leaves(v: View, v': View, nb: nat, p: Option<nat>, size: nat) {
    if p.None? then v' == v
    else if p.value in v.sizes then FoundLeaves(v, v', p.value, v.sizes[p.value], nb, size, nb < MIN_LARGE)
    else if nb <= v.dvsize then
      && p.value == v.dv
      && if v.dvsize - nb >= MIN_CHUNK then size == nb && v' == v.(dv := v.dv + nb, dvsize := v.dvsize - nb)
         else size == v.dvsize && v' == v.(dv := 0, dvsize := 0)
    else p.value == v.top && size == nb < v.topsize && v' == v.(top := v.top + nb, topsize := v.topsize - nb)
  }

  lemma TookLeaves(m: Arena, m': Arena, p: nat, nb: nat, size: nat, toDv: bool)
    requires TookBinned(m, m', p, nb, size, toDv) && nb <= size < nb + MIN_CHUNK
    ensures FoundLeaves(ViewOf(m), ViewOf(m'), p, SizeAt(m.w, p), nb, size, toDv)
  {
  }

  class Mstate {
    const seg: Segment
    const free: FreeBins

    /** The segment is tiled, the bins hold exactly its free chunks but for the designated victim, and
        each is in the bin of its size. */
    ghost predicate Valid()
      reads this, seg, free, free.rings, free.trees
    {
      seg.Valid() && free.Valid() && free.sizes == BinSizes(seg.Value()) && seg.Total() < MAX_CHUNK
    }

    constructor (start: nat, size: nat)
      requires start > 0 && size < MAX_CHUNK
      ensures Valid() && seg.Used() == {} && seg.Total() == size && fresh(seg) && fresh(free)
              && fresh(free.rings) && fresh(free.trees)
    {
      seg := new Segment(start, size);
      free := new FreeBins();
    }

    /** The chunk `v`, found in the bins, is taken out of its bin and used or split; what is left of it
        goes to a bin or becomes the designated victim, and then the old one goes to a bin. */
    method TakeFound(v: nat, s: nat, nb: nat, toDv: bool) returns (size: nat)
      requires Valid() && MIN_CHUNK <= nb <= s && nb % ALIGN == 0 && v in free.sizes && free.sizes[v] == s
      requires toDv ==> s < nb + MIN_CHUNK || seg.dvsize < MIN_LARGE
      modifies seg, free, free.rings, free.trees
      ensures Valid() && seg.Total() == old(seg.Total())
      ensures nb <= size < nb + MIN_CHUNK && size <= s && seg.Used() == old(seg.Used()) + {(v, size)}
      ensures ClearOf(old(seg.Used()), v, size) && (v, size) !in old(seg.Used())
      ensures FoundLeaves(old(Chunks()), Chunks(), v, s, nb, size, toDv)
    {
      var dv, dvsize := seg.dv, seg.dvsize;
      ghost var m := seg.Value();
      assert Named(m, v) && (dvsize > 0 ==> Named(m, dv));
      free.Unlink(v, s);
      size := seg.TakeBinned(v, nb, toDv);
      assert v + nb in seg.bins ==> Named(seg.Value(), v + nb);
      Refile(free, v, s, nb, size, toDv, dv, dvsize, m, seg.Value());
      TookLeaves(m, seg.Value(), v, nb, size, toDv);
    }

    /** The free chunks as the searches see them. */
    ghost function Chunks(): View
      reads this, seg, free
    {
      View(free.sizes, seg.dv, seg.dvsize, seg.top, seg.topsize)
    }

    /** The search of `dlmalloc` for a small request: the bin of its size or the next, then, when the
        designated victim is too small, the next small bin and the tree bins. */
    method SearchSmall(nb: nat) returns (found: Option<Entry>)
      requires Valid() && MIN_CHUNK <= nb < MIN_LARGE && nb % ALIGN == 0
      ensures Finds(free.sizes, seg.dvsize, nb, found)
      ensures free.rings.lists[SmallIndex(nb)] != [] ==> found == Some(Entry(free.rings.lists[SmallIndex(nb)][0], nb))
      ensures free.rings.lists[SmallIndex(nb)] == [] && nb <= seg.dvsize ==> found == None
    {
      SmallFits(nb);
      var idx := SmallIndex(nb);
      ghost var lists, chunks, sizes := free.rings.lists, free.trees.chunks, free.sizes;
      OddBinEmpty(lists, chunks, sizes, idx + 1);
      free.rings.MarkedIff(idx);
      free.rings.MarkedIff(idx + 1);
      var i := if idx in free.rings.smallmap then idx else idx + 1;
      if i !in free.rings.smallmap {
        if nb <= seg.dvsize {
          return None;
        }
        i := free.rings.NextMarked(i + 1);
        if i == SMALL_BINS {
          NoSmallFits(lists, chunks, sizes, nb);
          found := FindInTrees(nb);
          return;
        }
      }
      var x := free.rings.First(i);
      assert SmallOk(lists[i], i, sizes);
      FirstSmallLeast(lists, chunks, sizes, nb, i);
      found := Some(Entry(x, 8 * i));
    }

    method FindInTrees(nb: nat) returns (found: Option<Entry>)
      requires Valid() && 0 < nb < MIN_LARGE && seg.dvsize < nb
      requires forall x :: x in free.sizes && free.sizes[x] >= nb ==> free.sizes[x] >= MIN_LARGE
      ensures Finds(free.sizes, seg.dvsize, nb, found)
    {
      if free.trees.treemap == {} {
        forall x | x in free.sizes
          ensures free.sizes[x] < nb
        {
          if free.sizes[x] >= nb {
            free.trees.MarkedIfAny(x);
          }
        }
        return None;
      }
      var v, rsize := free.trees.FindSmall(nb);
      assert v in free.sizes;
      found := Some(Entry(v, nb + rsize));
    }

    /** The search for a large request, which the designated victim wins when it fits as well. */
    method SearchLarge(nb: nat) returns (found: Option<Entry>)
      requires Valid() && MIN_LARGE <= nb < MAX_CHUNK
      ensures Finds(free.sizes, seg.dvsize, nb, found)
    {
      var v, rsize := free.trees.FindLarge(nb);
      assert v != 0 ==> v in free.sizes;
      if v != 0 && (seg.dvsize < nb || rsize < seg.dvsize - nb) {
        found := Some(Entry(v, nb + rsize));
      } else {
        found := None;
      }
    }

    /** `dlmalloc` of a padded request. It fails only when no free chunk and not the top can serve it.
        The chunk served overlaps no chunk in use and covers the request with less than a chunk to
        spare. A large request, and a small one for which the designated victim is too small, gets a
        chunk of least size among all free chunks that cover it. Otherwise a small request gets the
        front of its own bin if there is any, and else the designated victim. */
    method Malloc(nb: nat) returns (p: Option<nat>, size: nat)
      requires Valid() && MIN_CHUNK <= nb < MAX_CHUNK && nb % ALIGN == 0
      modifies seg, free, free.rings, free.trees
      ensures Valid() && seg.Total() == old(seg.Total())
      ensures p.Some? <==> old(Servable(free.sizes, seg.dvsize, seg.topsize, nb))
      ensures p.None? ==> seg.Value() == old(seg.Value()) && seg.Used() == old(seg.Used())
      ensures p.Some? ==> nb <= size < nb + MIN_CHUNK && seg.Used() == old(seg.Used()) + {(p.value, size)}
      ensures p.Some? ==> ClearOf(old(seg.Used()), p.value, size) && (p.value, size) !in old(seg.Used())
      ensures (nb >= MIN_LARGE || old(seg.dvsize) < nb) && old(Servable(free.sizes, seg.dvsize, 0, nb)) ==>
                old(BestFit(free.sizes, seg.dv, seg.dvsize, nb, p.value))
      ensures nb >= MIN_LARGE && old(DvFitsBest(free.sizes, seg.dvsize, nb)) ==> p == Some(old(seg.dv))
      ensures nb < MIN_LARGE && old(free.rings.lists[SmallIndex(nb)]) != [] ==>
                p == Some(old(free.rings.lists[SmallIndex(nb)][0])) && size == nb
      ensures nb < MIN_LARGE && old(free.rings.lists[SmallIndex(nb)]) == [] && nb <= old(seg.dvsize) ==>
                p == Some(old(seg.dv))
      ensures Leaves(old(Chunks()), Chunks(), nb, p, size)
    {
      var found := Search(nb);
      DvUnbinned(seg.Value(), free.sizes);
      ServedIs(free.sizes, seg.dv, seg.dvsize, seg.top, seg.topsize, nb, found);
      p, size := Serve(nb, found);
    }

    method Search(nb: nat) returns (found: Option<Entry>)
      requires Valid() && MIN_CHUNK <= nb < MAX_CHUNK && nb % ALIGN == 0
      ensures Finds(free.sizes, seg.dvsize, nb, found)
      ensures nb < MIN_LARGE ==> SmallIndex(nb) < SMALL_BINS
      ensures nb < MIN_LARGE && free.rings.lists[SmallIndex(nb)] != [] ==>
                found == Some(Entry(free.rings.lists[SmallIndex(nb)][0], nb))
      ensures nb < MIN_LARGE && free.rings.lists[SmallIndex(nb)] == [] && nb <= seg.dvsize ==> found == None
    {
      if nb < MIN_LARGE {
        found := SearchSmall(nb);
      } else {
        found := SearchLarge(nb);
      }
    }

    /** The chunk found, the designated victim or the top is used or split. */
    method Serve(nb: nat, found: Option<Entry>) returns (p: Option<nat>, size: nat)
      requires Valid() && MIN_CHUNK <= nb < MAX_CHUNK && nb % ALIGN == 0 && Finds(free.sizes, seg.dvsize, nb, found)
      modifies seg, free, free.rings, free.trees
      ensures Valid() && seg.Total() == old(seg.Total())
      ensures p == old(Served(found, seg.dv, seg.dvsize, seg.top, seg.topsize, nb))
      ensures p.None? ==> seg.Value() == old(seg.Value()) && seg.Used() == old(seg.Used())
      ensures p.Some? ==> nb <= size < nb + MIN_CHUNK && seg.Used() == old(seg.Used()) + {(p.value, size)}
      ensures p.Some? ==> ClearOf(old(seg.Used()), p.value, size) && (p.value, size) !in old(seg.Used())
      ensures found.Some? ==> size <= found.value.size
      ensures Leaves(old(Chunks()), Chunks(), nb, p, size)
    {
      p, size := None, 0;
      if found.Some? {
        size := TakeFound(found.value.at, found.value.size, nb, nb < MIN_LARGE);
        p := Some(found.value.at);
      } else if nb <= seg.dvsize {
        var q;
        q, size := ServeDv(nb);
        p := Some(q);
      } else if nb < seg.topsize {
        var q := ServeTop(nb);
        p, size := Some(q), nb;
      }
    }

    method ServeDv(nb: nat) returns (q: nat, size: nat)
      requires Valid() && MIN_CHUNK <= nb <= seg.dvsize && nb % ALIGN == 0
      modifies seg
      ensures Valid() && seg.Total() == old(seg.Total()) && q == old(seg.dv)
      ensures nb <= size < nb + MIN_CHUNK && seg.Used() == old(seg.Used()) + {(q, size)}
      ensures ClearOf(old(seg.Used()), q, size) && (q, size) !in old(seg.Used())
      ensures Leaves(old(Chunks()), Chunks(), nb, Some(q), size)
    {
      DvUnbinned(seg.Value(), free.sizes);
      q, size := seg.TakeDv(nb);
    }

    method ServeTop(nb: nat) returns (q: nat)
      requires Valid() && MIN_CHUNK <= nb < seg.topsize && nb % ALIGN == 0 && seg.dvsize < nb
      modifies seg
      ensures Valid() && seg.Total() == old(seg.Total()) && q == old(seg.top)
      ensures seg.Used() == old(seg.Used()) + {(q, nb)}
      ensures ClearOf(old(seg.Used()), q, nb) && (q, nb) !in old(seg.Used())
      ensures Leaves(old(Chunks()), Chunks(), nb, Some(q), nb)
    {
      BinsBelowTop(seg.Value(), seg.base, seg.tiles);
      assert seg.top !in free.sizes;
      q := seg.TakeTop(nb);
    }

    /** What `dlfree` does to words and tags, and what is then to be done to the bins. */
    method FreeInSegment(mem: nat, ghost size: nat) returns (e: Rebinned)
      requires Valid() && (mem, size) in seg.Used()
      modifies seg
      ensures seg.Valid() && seg.Total() == old(seg.Total()) && seg.Used() == old(seg.Used()) - {(mem, size)}
      ensures Merges(ViewOf(old(seg.Value())), ViewOf(seg.Value()), mem, size)
      ensures InSteps(free.sizes, BinSizes(seg.Value()), e)
      ensures e.merged.Some? ==> Sized(e.merged.value.at, e.merged.value.size)
    {
      ghost var m := seg.Value();
      e := seg.Free(mem, size);
      if e.merged.Some? {
        MergedIsSized(m, seg.Value(), e, seg.Total());
      }
      RebinnedInSteps(m, seg.Value(), e);
    }

    /** `dlfree`: exactly the chunk is no longer in use; its free neighbours leave their bins, and what
        results is at the front of the bin of its size, the designated victim or the top. */
    method Free(mem: nat, ghost size: nat)
      requires Valid() && (mem, size) in seg.Used()
      modifies seg, free, free.rings, free.trees
      ensures Valid() && seg.Total() == old(seg.Total()) && seg.Used() == old(seg.Used()) - {(mem, size)}
      ensures Merges(old(Chunks()), Chunks(), mem, size)
      ensures NewInFront(old(free.sizes), free.sizes, free.rings.lists)
    {
      var e := FreeInSegment(mem, size);
      RefileFreed(free, e, BinSizes(seg.Value()));
    }
  }

  lemma DvUnbinned(m: Arena, sizes: map<nat, nat>)
    requires DvOk(m) && sizes == BinSizes(m)
    ensures m.dvsize > 0 ==> m.dv !in sizes
  {
  }

  lemma MergedIsSized(m: Arena, m': Arena, e: Rebinned, limit: nat)
    requires SizesRebinned(m, m', e) && NamedSizes(m', limit) && limit < MAX_CHUNK && e.merged.Some?
    ensures Sized(e.merged.value.at, e.merged.value.size)
  {
    var x := e.merged.value.at;
    assert x in BinSizes(m') && BinSizes(m')[x] == e.merged.value.size;
    assert Named(m', x);
  }

  method UnlinkIfAny(free: FreeBins, e: Option<Entry>)
    requires free.Valid() && (e.Some? ==> e.value.at in free.sizes && free.sizes[e.value.at] == e.value.size)
    modifies free, free.rings, free.trees
    ensures free.Valid() && free.sizes == old(free.sizes) - Chosen(e)
  {
    if e.Some? {
      free.Unlink(e.value.at, e.value.size);
    }
  }

  /** The bins lose what is to leave them, one after the other, and gain what is to enter. */
  ghost predicate InSteps(sizes: map<nat, nat>, sizes': map<nat, nat>, e: Rebinned) {
    var without1 := sizes - Chosen(e.prev);
    var without2 := without1 - Chosen(e.next);
    && (e.prev.Some? ==> e.prev.value.at in sizes && sizes[e.prev.value.at] == e.prev.value.size)
    && (e.next.Some? ==> e.next.value.at in without1 && without1[e.next.value.at] == e.next.value.size)
    && if e.merged.Some? then
         e.merged.value.at !in without2 && sizes' == without2[e.merged.value.at := e.merged.value.size]
       else
         sizes' == without2
  }

  lemma RebinnedInSteps(m: Arena, m': Arena, e: Rebinned)
    requires SizesRebinned(m, m', e)
    ensures InSteps(BinSizes(m), BinSizes(m'), e)
  {
    var sizes := BinSizes(m);
    assert sizes - Chosen(e.prev) - Chosen(e.next) == sizes - (Chosen(e.prev) + Chosen(e.next));
  }

  /** The neighbours leave their bins and the merged chunk enters its own. */
  method RefileFreed(free: FreeBins, e: Rebinned, ghost sizes': map<nat, nat>)
    requires free.Valid() && InSteps(free.sizes, sizes', e)
    requires e.merged.Some? ==> Sized(e.merged.value.at, e.merged.value.size)
    modifies free, free.rings, free.trees
    ensures free.Valid() && free.sizes == sizes'
    ensures NewInFront(old(free.sizes), free.sizes, free.rings.lists)
  {
    UnlinkIfAny(free, e.prev);
    UnlinkIfAny(free, e.next);
    if e.merged.Some? {
      free.Insert(e.merged.value.at, e.merged.value.size);
    }
  }
}
