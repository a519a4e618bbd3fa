/** One segment of dlmalloc: chunks split off the bins, the designated victim and the top, and freed
    chunks merged with their neighbours, as writes to head and foot words. */
module ChunkSegment {
  import opened Lists
  import opened ChunkTiling
  import opened ChunkArena

  /** What a split of a binned chunk leaves: the rest in a bin, or as the designated victim with the
      old one in a bin. */
  ghost predicate SplitInto(m: Arena, m': Arena, v: nat, nb: nat, rsize: nat, toDv: bool) {
    if toDv then
      && m'.dv == v + nb && m'.dvsize == rsize
      && BinSizes(m') == if m.dvsize > 0 then (BinSizes(m) - {v})[m.dv := m.dvsize] else BinSizes(m) - {v}
    else
      && m'.dv == m.dv && m'.dvsize == m.dvsize
      && v + nb !in BinSizes(m) && BinSizes(m') == (BinSizes(m) - {v})[v + nb := rsize]
  }

  /** What taking a binned chunk leaves. */
  ghost predicate TookBinned(m: Arena, m': Arena, v: nat, nb: nat, size: nat, toDv: bool) {
    && m'.top == m.top && m'.topsize == m.topsize && size <= SizeAt(m.w, v)
    && if size == SizeAt(m.w, v) then
         BinSizes(m') == BinSizes(m) - {v} && m'.dv == m.dv && m'.dvsize == m.dvsize
       else
         size == nb && SizeAt(m.w, v) - nb >= MIN_CHUNK && SplitInto(m, m', v, nb, SizeAt(m.w, v) - nb, toDv)
  }

  /** The state after the split: words, bins and designated victim. */
  ghost predicate SplitState(m: Arena, m': Arena, v: nat, nb: nat, rsize: nat, toDv: bool) {
    && m'.w == SetFree(SetInuseSize(m.w, v, nb), v + nb, rsize)
    && if toDv then
         m'.bins == (m.bins - {v}) + (if m.dvsize > 0 then {m.dv} else {}) && m'.dv == v + nb && m'.dvsize == rsize
       else
         m'.bins == m.bins - {v} + {v + nb} && m'.dv == m.dv && m'.dvsize == m.dvsize
  }

  lemma SplitSizes(m: Arena, m': Arena, v: nat, nb: nat, rsize: nat, toDv: bool)
    requires SplitState(m, m', v, nb, rsize, toDv) && nb > 0 && v in m.bins && !Named(m, v + nb) && DvOk(m)
    ensures SplitInto(m, m', v, nb, rsize, toDv)
  {
    assert SizesKept(m.w, m'.w, {v, v + nb});
    if !toDv {
      SizesSwap(m, m', v, v + nb, {v, v + nb});
    } else if m.dvsize > 0 {
      SizesSwap(m, m', v, m.dv, {v, v + nb});
    } else {
      SizesLose(m, m', v, {v, v + nb});
    }
  }

  lemma SplitNames(m: Arena, m': Arena, v: nat, nb: nat, rsize: nat, toDv: bool)
    requires SplitState(m, m', v, nb, rsize, toDv)
    requires nb > 0 && rsize > 0 && v in m.bins && !Named(m, v + nb) && DvOk(m)
    ensures DvOk(m') && forall x :: Named(m', x) <==> (Named(m, x) && x != v) || x == v + nb
  {
  }

  /** The bins have lost the chunk before the freed one, unless that is the designated victim. */
  ghost predicate Backward(m: Arena, r: Region, e: Rebinned) {
    && e.next == None && e.merged == None
    && e.prev == if r.prev && r.p != m.dv then Some(Entry(r.p, SizeAt(m.w, r.p))) else None
  }

  /** The top takes in the freed chunk and the designated victim before it. */
  lemma TopTakes(m: Arena, m': Arena, mem: nat, size: nat, r: Region, e: Rebinned)
    requires Around(m, mem, size, r) && DvOk(m) && mem + size == m.top && Backward(m, r, e)
    requires m'.bins == m.bins - Chosen(e.prev) && m'.top == r.p && m'.topsize == m.topsize + r.s
    requires m'.w == m.w.(head := m.w.head[r.p := Tag(m.topsize + r.s, true, false)])
    requires if r.p == m.dv then m'.dv == m'.dvsize == 0 else m'.dv == m.dv && m'.dvsize == m.dvsize
    ensures Merged(m, m', r) && Rebins(m, m', r, mem + size, e)
    ensures Lands(m, m', r, mem + size)
  {
  }

  /** The designated victim after the freed chunk takes it in. */
  lemma DvTakes(m: Arena, m': Arena, mem: nat, size: nat, r: Region, e: Rebinned)
    requires Around(m, mem, size, r) && DvOk(m) && r.next && mem + size == m.dv && Backward(m, r, e)
    requires m'.bins == m.bins - Chosen(e.prev) && m'.top == m.top && m'.topsize == m.topsize
    requires m'.dv == r.p && m'.dvsize == r.s && m'.w == SetFree(m.w, r.p, r.s)
    ensures Merged(m, m', r) && Rebins(m, m', r, mem + size, e)
    ensures Lands(m, m', r, mem + size)
  {
  }

  /** The designated victim before the freed chunk takes in that and a binned chunk. */
  lemma DvGrows(m: Arena, m': Arena, mem: nat, size: nat, r: Region, e: Rebinned)
    requires Around(m, mem, size, r) && DvOk(m) && r.next && mem + size != m.dv == r.p
    requires e == Rebinned(None, Some(Entry(mem + size, SizeAt(m.w, mem + size))), None)
    requires m'.bins == m.bins - {mem + size} && m'.top == m.top && m'.topsize == m.topsize
    requires m'.dv == m.dv && m'.dvsize == r.s && m'.w == SetFree(m.w, r.p, r.s)
    ensures Merged(m, m', r) && Rebins(m, m', r, mem + size, e)
    ensures Lands(m, m', r, mem + size)
  {
  }

  /** A bin takes what was merged from binned neighbours. */
  lemma BinTakes(m: Arena, m': Arena, mem: nat, size: nat, r: Region, e: Rebinned)
    requires Around(m, mem, size, r) && DvOk(m) && r.after != [] && r.p != m.dv && (r.next ==> mem + size != m.dv)
    requires e.prev == if r.prev then Some(Entry(r.p, SizeAt(m.w, r.p))) else None
    requires e.next == if r.next then Some(Entry(mem + size, SizeAt(m.w, mem + size))) else None
    requires e.merged == Some(Entry(r.p, r.s))
    requires m'.bins == m.bins - Chosen(e.prev) - Chosen(e.next) + {r.p} && m'.top == m.top && m'.topsize == m.topsize
    requires m'.dv == m.dv && m'.dvsize == m.dvsize && m'.w == SetFreeWithPinuse(m.w, r.p, r.s, r.p + r.s)
    ensures Merged(m, m', r) && Rebins(m, m', r, mem + size, e)
    ensures Lands(m, m', r, mem + size)
  {
  }

  /** All that a free promises, on values. */
  lemma FreeResult(m: Arena, m': Arena, base: nat, tiles: seq<Tile>, mem: nat, size: nat, r: Region, e: Rebinned)
    requires Ordered(m, base, tiles) && Placed(base, tiles, mem, size, r) && Around(m, mem, size, r)
    requires Merged(m, m', r) && Rebins(m, m', r, mem + size, e) && Lands(m, m', r, mem + size)
    ensures Ordered(m', base, TilesAfter(r)) && Sum(TilesAfter(r)) + m'.topsize == Sum(tiles) + m.topsize
    ensures UsedAt(base, TilesAfter(r)) == UsedAt(base, tiles) - {(mem, size)}
    ensures SizesRebinned(m, m', e) && Merges(ViewOf(m), ViewOf(m'), mem, size)
  {
    RebinnedSizes(m, m', r, mem + size, e);
    FreedIs(m, m', base, tiles, mem, size, r);
    FreeOrdered(m, m', base, tiles, mem, size, r);
  }

  class Segment {
    ghost const base: nat
    var w: Words
    var bins: set<nat>
    var dv: nat
    var dvsize: nat
    var top: nat
    var topsize: nat
    ghost var tiles: seq<Tile>

    ghost function Value(): Arena
      reads this
    {
      Arena(w, bins, dv, dvsize, top, topsize)
    }

    ghost predicate Valid()
      reads this
    {
      Ordered(Value(), base, tiles)
    }

    /** The chunks that users hold, by address and size. */
    ghost function Used(): set<(nat, nat)>
      reads this
    {
      UsedAt(base, tiles)
    }

    /** All bytes of the segment. */
    ghost function Total(): nat
      reads this
    {
      Sum(tiles) + topsize
    }

    /** A new segment is all top. */
    constructor (start: nat, size: nat)
      requires start > 0
      ensures base == start && Valid() && Used() == {} && Total() == size && BinSizes(Value()) == map[]
    {
      base, top, topsize := start, start, size;
      w := Words(map[start := Tag(size, true, false)], map[]);
      bins, dv, dvsize, tiles := {}, 0, 0, [];
    }

    /** A chunk found in a bin is used whole when too little would be left, and split otherwise; the
        rest goes to a bin, or becomes the designated victim and that one goes to a bin. */
    method TakeBinned(v: nat, nb: nat, toDv: bool) returns (size: nat)
      requires Valid() && MIN_CHUNK <= nb && nb % ALIGN == 0 && v in bins && v in w.head && w.head[v].size >= nb
      modifies this
      ensures Valid() && Total() == old(Total())
      ensures nb <= size < nb + MIN_CHUNK && Used() == old(Used()) + {(v, size)}
      ensures ClearOf(old(Used()), v, size) && (v, size) !in old(Used())
      ensures TookBinned(old(Value()), Value(), v, nb, size, toDv)
    {
      ghost var a, t, b := FindFree(base, tiles, v);
      TileWords(w, base, a, t, b);
      size := TakeTile(v, nb, toDv, a, t, b);
    }

    method TakeTile(v: nat, nb: nat, toDv: bool, ghost a: seq<Tile>, ghost t: Tile,
                    ghost b: seq<Tile>) returns (size: nat)
      requires Valid() && MIN_CHUNK <= nb && nb % ALIGN == 0 && v in bins && v in w.head
               && w.head[v].size == t.size >= nb
      requires tiles == a + [t] + b && v == base + Sum(a) && !t.used
      modifies this
      ensures Valid() && Total() == old(Total())
      ensures nb <= size < nb + MIN_CHUNK && Used() == old(Used()) + {(v, size)}
      ensures ClearOf(old(Used()), v, size) && (v, size) !in old(Used())
      ensures TookBinned(old(Value()), Value(), v, nb, size, toDv)
    {
      var rsize := w.head[v].size - nb;
      size := if rsize < MIN_CHUNK then rsize + nb else nb;
      FreeIsNew(base, a, t, b, size);
      if rsize < MIN_CHUNK {
        UseBinned(v, size, a, t, b);
      } else {
        SplitBinned(v, nb, rsize, toDv, a, t, b);
      }
    }

    method UseBinned(v: nat, size: nat, ghost a: seq<Tile>, ghost t: Tile, ghost b: seq<Tile>)
      requires Valid() && v in bins && tiles == a + [t] + b && v == base + Sum(a) && !t.used && t.size == size
      modifies this
      ensures Valid() && Total() == old(Total()) && Used() == old(Used()) + {(v, size)}
      ensures BinSizes(Value()) == BinSizes(old(Value())) - {v}
      ensures dv == old(dv) && dvsize == old(dvsize) && top == old(top) && topsize == old(topsize)
    {
      ghost var m := Value();
      TileWords(w, base, a, t, b);
      FreeIsFollowed(m, base, a, t, b);
      bins := bins - {v};
      w := SetInuse(w, v, size);
      tiles := a + [Tile(size, true)] + b;
      WholeOrdered(m, Value(), base, a, t, b);
      SizesLose(m, Value(), v, {v});
    }

    method SplitBinned(v: nat, nb: nat, rsize: nat, toDv: bool, ghost a: seq<Tile>, ghost t: Tile, ghost b: seq<Tile>)
      requires Valid() && v in bins && tiles == a + [t] + b && v == base + Sum(a) && !t.used && t.size == nb + rsize
      requires MIN_CHUNK <= nb && MIN_CHUNK <= rsize && nb % ALIGN == 0
      modifies this
      ensures Valid() && Total() == old(Total()) && Used() == old(Used()) + {(v, nb)}
      ensures top == old(top) && topsize == old(topsize)
      ensures SplitInto(old(Value()), Value(), v, nb, rsize, toDv)
    {
      ghost var m := Value();
      OneFree(m, base, a, t, b);
      assert !Named(m, v + nb);
      bins := bins - {v};
      w := SetFree(SetInuseSize(w, v, nb), v + nb, rsize);
      if toDv {
        if dvsize > 0 {
          bins := bins + {dv};
        }
        dv, dvsize := v + nb, rsize;
      } else {
        bins := bins + {v + nb};
      }
      tiles := a + [Tile(nb, true), Tile(rsize, false)] + b;
      SplitNames(m, Value(), v, nb, rsize, toDv);
      SplitOrdered(m, Value(), base, a, t, b, nb);
      SplitSizes(m, Value(), v, nb, rsize, toDv);
    }

    /** The designated victim is split, or used up when too little would be left. */
    method TakeDv(nb: nat) returns (p: nat, size: nat)
      requires Valid() && MIN_CHUNK <= nb <= dvsize && nb % ALIGN == 0
      modifies this
      ensures Valid() && Total() == old(Total()) && p == old(dv)
      ensures nb <= size < nb + MIN_CHUNK && Used() == old(Used()) + {(p, size)}
      ensures ClearOf(old(Used()), p, size) && (p, size) !in old(Used())
      ensures BinSizes(Value()) == BinSizes(old(Value())) && top == old(top) && topsize == old(topsize)
      ensures if old(dvsize) - nb >= MIN_CHUNK then size == nb && dv == p + nb && dvsize == old(dvsize) - nb
              else size == old(dvsize) && dv == dvsize == 0
    {
      p := dv;
      assert Named(Value(), p);
      ghost var a, t, b := FindFree(base, tiles, p);
      TileWords(w, base, a, t, b);
      var rsize := dvsize - nb;
      if rsize >= MIN_CHUNK {
        size := nb;
        SplitDv(nb, a, t, b);
      } else {
        size := dvsize;
        UseDv(a, t, b);
      }
      FreeIsNew(base, a, t, b, size);
    }

    method SplitDv(nb: nat, ghost a: seq<Tile>, ghost t: Tile, ghost b: seq<Tile>)
      requires Valid() && MIN_CHUNK <= nb && nb % ALIGN == 0 && nb + MIN_CHUNK <= dvsize == t.size
      requires tiles == a + [t] + b && dv == base + Sum(a) && !t.used
      modifies this
      ensures Valid() && Total() == old(Total()) && Used() == old(Used()) + {(old(dv), nb)}
      ensures BinSizes(Value()) == BinSizes(old(Value()))
      ensures dv == old(dv) + nb && dvsize == old(dvsize) - nb && top == old(top) && topsize == old(topsize)
    {
      ghost var m := Value();
      OneFree(m, base, a, t, b);
      assert !Named(m, dv + nb);
      var p, rsize := dv, dvsize - nb;
      dv, dvsize := p + nb, rsize;
      w := SetInuseSize(SetFree(w, p + nb, rsize), p, nb);
      assert w == SetFree(SetInuseSize(m.w, p, nb), p + nb, rsize);
      tiles := a + [Tile(nb, true), Tile(rsize, false)] + b;
      SplitOrdered(m, Value(), base, a, t, b, nb);
      SizesSame(m, Value(), {p, p + nb});
    }

    method UseDv(ghost a: seq<Tile>, ghost t: Tile, ghost b: seq<Tile>)
      requires Valid() && 0 < dvsize == t.size && tiles == a + [t] + b && dv == base + Sum(a) && !t.used
      modifies this
      ensures Valid() && Total() == old(Total()) && Used() == old(Used()) + {(old(dv), old(dvsize))}
      ensures BinSizes(Value()) == BinSizes(old(Value()))
      ensures dv == dvsize == 0 && top == old(top) && topsize == old(topsize)
    {
      ghost var m := Value();
      TileWords(w, base, a, t, b);
      FreeIsFollowed(m, base, a, t, b);
      var p, size := dv, dvsize;
      dvsize, dv := 0, 0;
      w := SetInuse(w, p, size);
      tiles := a + [Tile(size, true)] + b;
      WholeOrdered(m, Value(), base, a, t, b);
      SizesSame(m, Value(), {p});
    }

    method TakeTop(nb: nat) returns (p: nat)
      requires Valid() && MIN_CHUNK <= nb < topsize && nb % ALIGN == 0
      modifies this
      ensures Valid() && Total() == old(Total()) && p == old(top)
      ensures Used() == old(Used()) + {(p, nb)}
      ensures ClearOf(old(Used()), p, nb) && (p, nb) !in old(Used())
      ensures BinSizes(Value()) == BinSizes(old(Value())) && dv == old(dv) && dvsize == old(dvsize)
      ensures top == old(top) + nb && topsize == old(topsize) - nb
    {
      ghost var m := Value();
      BinsBelowTop(m, base, tiles);
      TopIsClear(base, tiles, nb);
      ClearIsNew(Used(), top, nb);
      topsize := topsize - nb;
      p := top;
      top := p + nb;
      w := w.(head := w.head[top := Tag(topsize, true, false)]);
      w := SetInuseSize(w, p, nb);
      TopSplitSound(m, Value(), base, tiles, nb);
      SumAppend(tiles, [Tile(nb, true)]);
      tiles := tiles + [Tile(nb, true)];
      assert forall i :: 0 <= i < |tiles| - 1 ==> tiles[i] == old(tiles)[i];
      SizesSame(m, Value(), {p, p + nb});
      AllNamedSizes(Value(), base, tiles);
    }

    /** `dlfree`: the chunk is merged with a free chunk before it, found by the foot, and with a free
        chunk or the top after it; what results is in a bin, the designated victim or the top. No
        other chunk in use changes. */
    method Free(mem: nat, ghost size: nat) returns (e: Rebinned)
      requires Valid() && (mem, size) in Used()
      modifies this
      ensures Valid() && Total() == old(Total())
      ensures Used() == old(Used()) - {(mem, size)}
      ensures SizesRebinned(old(Value()), Value(), e) && Merges(ViewOf(old(Value())), ViewOf(Value()), mem, size)
    {
      ghost var r := Neighbours(Value(), base, tiles, mem, size);
      e := FreeRegion(mem, size, r);
    }

    method FreeRegion(mem: nat, ghost size: nat, ghost r: Region) returns (e: Rebinned)
      requires Valid() && Placed(base, tiles, mem, size, r) && Around(Value(), mem, size, r)
      modifies this
      ensures Valid() && Total() == old(Total())
      ensures Used() == old(Used()) - {(mem, size)}
      ensures SizesRebinned(old(Value()), Value(), e) && Merges(ViewOf(old(Value())), ViewOf(Value()), mem, size)
    {
      ghost var m := Value();
      e := Coalesce(mem, size, r);
      FreeResult(m, Value(), base, tiles, mem, size, r, e);
      tiles := TilesAfter(r);
    }

    /** The body of `dlfree`. */
    method Coalesce(mem: nat, ghost size: nat, ghost r: Region) returns (e: Rebinned)
      requires Around(Value(), mem, size, r) && DvOk(Value())
      modifies this`w, this`bins, this`dv, this`dvsize, this`top, this`topsize
      ensures Merged(old(Value()), Value(), r) && Rebins(old(Value()), Value(), r, mem + size, e)
      ensures Lands(old(Value()), Value(), r, mem + size)
    {
      ghost var m := Value();
      e := Rebinned(None, None, None);
      var p := mem;
      var psize := w.head[p].size;
      var next := p + psize;
      if !w.head[p].pinuse {
        var prevsize := w.foot[p];
        p := p - prevsize;
        psize := psize + prevsize;
        if p != dv {
          bins := bins - {p};
          e := e.(prev := Some(Entry(p, prevsize)));
        } else if w.head[next].pinuse && w.head[next].cinuse {
          dvsize := psize;
          w := SetFreeWithPinuse(w, p, psize, next);
          return;
        }
      }
      e := MergeForward(p, psize, next, e, m, mem, size, r);
    }

    /** The second half: the chunk at `p`, already merged backward, meets what follows it. */
    method MergeForward(p: nat, size0: nat, next: nat, e0: Rebinned, ghost m: Arena, ghost mem: nat, ghost size: nat,
                        ghost r: Region)
      returns (e: Rebinned)
      requires Around(m, mem, size, r) && DvOk(m) && next == mem + size && p == r.p && size0 == next - p
      requires w == m.w && dv == m.dv && dvsize == m.dvsize && top == m.top && topsize == m.topsize
      requires bins == m.bins - Chosen(e0.prev) && Backward(m, r, e0)
      requires !(r.prev && p == dv && w.head[next].pinuse && w.head[next].cinuse)
      modifies this`w, this`bins, this`dv, this`dvsize, this`top, this`topsize
      ensures Merged(m, Value(), r) && Rebins(m, Value(), r, mem + size, e) && Lands(m, Value(), r, mem + size)
    {
      e := e0;
      var psize := size0;
      if !w.head[next].cinuse {
        if next == top {
          topsize := topsize + psize;
          top := p;
          w := w.(head := w.head[p := Tag(topsize, true, false)]);
          if p == dv {
            dv, dvsize := 0, 0;
          }
          TopTakes(m, Value(), mem, size, r, e);
          return;
        } else if next == dv {
          dvsize := dvsize + psize;
          dv := p;
          w := SetFree(w, p, dvsize);
          DvTakes(m, Value(), mem, size, r, e);
          return;
        } else {
          var nsize := w.head[next].size;
          psize := psize + nsize;
          bins := bins - {next};
          e := e.(next := Some(Entry(next, nsize)));
          w := SetFree(w, p, psize);
          if p == dv {
            dvsize := psize;
            DvGrows(m, Value(), mem, size, r, e);
            return;
          }
        }
      } else {
        w := SetFreeWithPinuse(w, p, psize, next);
      }
      bins := bins + {p};
      e := e.(merged := Some(Entry(p, psize)));
      BinTakes(m, Value(), mem, size, r, e);
    }
  }
}
