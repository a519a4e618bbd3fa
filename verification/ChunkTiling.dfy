/** dlmalloc's boundary tags: what chunk headers and feet say of how a segment is tiled by chunks.
    Writes of a few words replace some neighbouring tiles by others. */
module ChunkTiling {

  /** The smallest chunk: four words, aligned. */
  const MIN_CHUNK: nat := 32

  /** Chunk sizes are multiples of two words. */
  const ALIGN: nat := 16

  /** A chunk's `head` word: its size, whether the chunk before it is in use, whether it is. */
  datatype Tag = Tag(size: nat, pinuse: bool, cinuse: bool)

  datatype Tile = Tile(size: nat, used: bool)

  /** The `head` and `prev_foot` words, by chunk address. */
  datatype Words = Words(head: map<nat, Tag>, foot: map<nat, nat>)

  function Sum(tiles: seq<Tile>): nat {
    if tiles == [] then 0 else tiles[0].size + Sum(tiles[1..])
  }

  /** Whether the chunk before the end is in use, given that of the chunk before the first. */
  predicate Last(u: bool, tiles: seq<Tile>) {
    if tiles == [] then u else tiles[|tiles| - 1].used
  }

  /** The words from address `p` on describe the tiles: each head has the tile's size and use and the
      use of the tile before; a free tile is not preceded by another, and its foot repeats its size. */
  predicate Tiled(w: Words, p: nat, u: bool, tiles: seq<Tile>)
    decreases |tiles|
  {
    tiles == [] ||
    (var t := tiles[0];
     && t.size >= MIN_CHUNK && p in w.head && w.head[p] == Tag(t.size, u, t.used)
     && (!t.used ==> u && p + t.size in w.foot && w.foot[p + t.size] == t.size)
     && Tiled(w, p + t.size, t.used, tiles[1..]))
  }

  /** The addresses of the free tiles. */
  function FreeAt(p: nat, tiles: seq<Tile>): set<nat>
    decreases |tiles|
  {
    if tiles == [] then {} else (if tiles[0].used then {} else {p}) + FreeAt(p + tiles[0].size, tiles[1..])
  }

  /** The tiles in use, by address and size. */
  function UsedAt(p: nat, tiles: seq<Tile>): set<(nat, nat)>
    decreases |tiles|
  {
    if tiles == [] then {} else
      (if tiles[0].used then {(p, tiles[0].size)} else {}) + UsedAt(p + tiles[0].size, tiles[1..])
  }

  // ----- parts of a tiling

  lemma {:induction false} SumAppend(a: seq<Tile>, b: seq<Tile>)
    ensures Sum(a + b) == Sum(a) + Sum(b)
    decreases |a|
  {
    if a == [] {
      assert a + b == b;
    } else {
      assert (a + b)[1..] == a[1..] + b;
      SumAppend(a[1..], b);
    }
  }

  lemma {:induction false} TiledAppend(w: Words, p: nat, u: bool, a: seq<Tile>, b: seq<Tile>)
    ensures Tiled(w, p, u, a + b) <==> Tiled(w, p, u, a) && Tiled(w, p + Sum(a), Last(u, a), b)
    decreases |a|
  {
    if a == [] {
      assert a + b == b;
    } else {
      assert (a + b)[1..] == a[1..] + b && (a + b)[0] == a[0];
      TiledAppend(w, p + a[0].size, a[0].used, a[1..], b);
      assert Last(a[0].used, a[1..]) == Last(u, a);
    }
  }

  lemma {:induction false} FreeAppend(p: nat, a: seq<Tile>, b: seq<Tile>)
    ensures FreeAt(p, a + b) == FreeAt(p, a) + FreeAt(p + Sum(a), b)
    decreases |a|
  {
    if a == [] {
      assert a + b == b;
    } else {
      assert (a + b)[1..] == a[1..] + b && (a + b)[0] == a[0];
      FreeAppend(p + a[0].size, a[1..], b);
    }
  }

  lemma {:induction false} UsedAppend(p: nat, a: seq<Tile>, b: seq<Tile>)
    ensures UsedAt(p, a + b) == UsedAt(p, a) + UsedAt(p + Sum(a), b)
    decreases |a|
  {
    if a == [] {
      assert a + b == b;
    } else {
      assert (a + b)[1..] == a[1..] + b && (a + b)[0] == a[0];
      UsedAppend(p + a[0].size, a[1..], b);
    }
  }

  lemma {:induction false} UsedRange(p: nat, tiles: seq<Tile>)
    ensures forall x :: x in UsedAt(p, tiles) ==> p <= x.0 && x.0 + x.1 <= p + Sum(tiles)
    decreases |tiles|
  {
    if tiles != [] {
      UsedRange(p + tiles[0].size, tiles[1..]);
    }
  }

  /** Chunks in use do not overlap. */
  lemma {:induction false} UsedApart(p: nat, tiles: seq<Tile>, x: (nat, nat), y: (nat, nat))
    requires x in UsedAt(p, tiles) && y in UsedAt(p, tiles) && x != y
    ensures x.0 + x.1 <= y.0 || y.0 + y.1 <= x.0
    decreases |tiles|
  {
    var rest := tiles[1..];
    UsedRange(p + tiles[0].size, rest);
    if x in UsedAt(p + tiles[0].size, rest) && y in UsedAt(p + tiles[0].size, rest) {
      UsedApart(p + tiles[0].size, rest, x, y);
    }
  }

  /** The free tile at an address. */
  lemma {:induction false} FindFree(p: nat, tiles: seq<Tile>, x: nat) returns (a: seq<Tile>, t: Tile, b: seq<Tile>)
    requires x in FreeAt(p, tiles)
    ensures tiles == a + [t] + b && x == p + Sum(a) && !t.used
    decreases |tiles|
  {
    if x == p && !tiles[0].used {
      a, t, b := [], tiles[0], tiles[1..];
    } else {
      a, t, b := FindFree(p + tiles[0].size, tiles[1..], x);
      a := [tiles[0]] + a;
      assert a[1..] == tiles[1..][..|a| - 1];
    }
  }

  /** The tile in use at an address. */
  lemma {:induction false} FindUsed(p: nat, tiles: seq<Tile>, x: nat, s: nat) returns (a: seq<Tile>, b: seq<Tile>)
    requires (x, s) in UsedAt(p, tiles)
    ensures tiles == a + [Tile(s, true)] + b && x == p + Sum(a)
    decreases |tiles|
  {
    if (x, s) == (p, tiles[0].size) && tiles[0].used {
      a, b := [], tiles[1..];
    } else {
      a, b := FindUsed(p + tiles[0].size, tiles[1..], x, s);
      a := [tiles[0]] + a;
      assert a[1..] == tiles[1..][..|a| - 1];
    }
  }

  lemma {:induction false} FreeRange(p: nat, tiles: seq<Tile>)
    requires forall i :: 0 <= i < |tiles| ==> tiles[i].size >= MIN_CHUNK
    ensures forall x :: x in FreeAt(p, tiles) ==> p <= x < p + Sum(tiles)
    decreases |tiles|
  {
    if tiles != [] {
      FreeRange(p + tiles[0].size, tiles[1..]);
    }
  }

  lemma {:induction false} TilesBig(w: Words, p: nat, u: bool, tiles: seq<Tile>)
    requires Tiled(w, p, u, tiles)
    ensures forall i :: 0 <= i < |tiles| ==> tiles[i].size >= MIN_CHUNK
    decreases |tiles|
  {
    if tiles != [] {
      TilesBig(w, p + tiles[0].size, tiles[0].used, tiles[1..]);
      forall i | 0 <= i < |tiles|
        ensures tiles[i].size >= MIN_CHUNK
      {
        assert i > 0 ==> tiles[i] == tiles[1..][i - 1];
      }
    }
  }

  /** The words of a range of tiles are the same: heads inside it, feet inside it and at its end. */
  ghost predicate SameWords(w: Words, w': Words, p: nat, q: nat) {
    && (forall x :: p <= x < q && x in w.head ==> x in w'.head && w'.head[x] == w.head[x])
    && (forall x :: p < x <= q && x in w.foot ==> x in w'.foot && w'.foot[x] == w.foot[x])
  }

  lemma {:induction false} TiledFrame(w: Words, w': Words, p: nat, u: bool, tiles: seq<Tile>)
    requires Tiled(w, p, u, tiles) && SameWords(w, w', p, p + Sum(tiles))
    ensures Tiled(w', p, u, tiles)
    decreases |tiles|
  {
    if tiles != [] {
      TiledFrame(w, w', p + tiles[0].size, tiles[0].used, tiles[1..]);
    }
  }

  /** Tiles after a change: the first of them, which is in use, may have its `pinuse` bit changed. */
  lemma {:induction false} TiledAfter(w: Words, w': Words, p: nat, u: bool, u': bool, tiles: seq<Tile>)
    requires Tiled(w, p, u, tiles)
    requires tiles != [] ==>
               && tiles[0].used && p in w.head && p in w'.head && w'.head[p] == w.head[p].(pinuse := u')
               && SameWords(w, w', p + 1, p + Sum(tiles))
    ensures Tiled(w', p, u', tiles)
  {
    if tiles != [] {
      TiledFrame(w, w', p + tiles[0].size, tiles[0].used, tiles[1..]);
    }
  }

  /** Some tiles are replaced by others of the same total size. */
  lemma {:induction false} Replaced(w: Words, w': Words, p: nat, a: seq<Tile>, mid: seq<Tile>, mid': seq<Tile>,
                                    b: seq<Tile>)
    requires Tiled(w, p, true, a + mid + b) && Sum(mid') == Sum(mid)
    requires SameWords(w, w', p, p + Sum(a)) && Tiled(w', p + Sum(a), Last(true, a), mid')
    requires var q := p + Sum(a) + Sum(mid);
             b != [] ==>
               && b[0].used && q in w.head && q in w'.head
               && w'.head[q] == w.head[q].(pinuse := Last(Last(true, a), mid'))
               && SameWords(w, w', q + 1, q + Sum(b))
    ensures Tiled(w', p, true, a + mid' + b)
  {
    assert a + mid + b == a + (mid + b) && a + mid' + b == a + (mid' + b);
    TiledAppend(w, p, true, a, mid + b);
    TiledFrame(w, w', p, true, a);
    ReplacedFront(w, w', p + Sum(a), Last(true, a), mid, mid', b);
    TiledAppend(w', p, true, a, mid' + b);
  }

  lemma ReplacedFront(w: Words, w': Words, q: nat, u: bool, mid: seq<Tile>, mid': seq<Tile>, b: seq<Tile>)
    requires Tiled(w, q, u, mid + b) && Sum(mid') == Sum(mid) && Tiled(w', q, u, mid')
    requires var r := q + Sum(mid);
             b != [] ==>
               && b[0].used && r in w.head && r in w'.head && w'.head[r] == w.head[r].(pinuse := Last(u, mid'))
               && SameWords(w, w', r + 1, r + Sum(b))
    ensures Tiled(w', q, u, mid' + b)
  {
    TiledAppend(w, q, u, mid, b);
    TiledAfter(w, w', q + Sum(mid), Last(u, mid), Last(u, mid'), b);
    TiledAppend(w', q, u, mid', b);
  }

  lemma OneTile(p: nat, t: Tile)
    ensures Sum([t]) == t.size && FreeAt(p, [t]) == (if t.used then {} else {p})
    ensures UsedAt(p, [t]) == if t.used then {(p, t.size)} else {}
  {
    assert [t][1..] == [];
  }

  lemma SumOfParts(a: seq<Tile>, mid: seq<Tile>, b: seq<Tile>)
    ensures Sum(a + mid + b) == Sum(a) + Sum(mid) + Sum(b)
  {
    SumAppend(a + mid, b);
    SumAppend(a, mid);
  }

  lemma FreeOfParts(p: nat, a: seq<Tile>, mid: seq<Tile>, b: seq<Tile>)
    ensures FreeAt(p, a + mid + b) == FreeAt(p, a) + FreeAt(p + Sum(a), mid) + FreeAt(p + Sum(a) + Sum(mid), b)
  {
    SumAppend(a, mid);
    FreeAppend(p, a + mid, b);
    FreeAppend(p, a, mid);
  }

  lemma UsedOfParts(p: nat, a: seq<Tile>, mid: seq<Tile>, b: seq<Tile>)
    ensures UsedAt(p, a + mid + b) == UsedAt(p, a) + UsedAt(p + Sum(a), mid) + UsedAt(p + Sum(a) + Sum(mid), b)
  {
    SumAppend(a, mid);
    UsedAppend(p, a + mid, b);
    UsedAppend(p, a, mid);
  }

  /** The words at and around one tile. */
  lemma {:induction false} TileWords(w: Words, p: nat, a: seq<Tile>, t: Tile, b: seq<Tile>)
    requires Tiled(w, p, true, a + [t] + b)
    ensures var q := p + Sum(a);
            && q in w.head && w.head[q] == Tag(t.size, Last(true, a), t.used) && t.size >= MIN_CHUNK
            && (!t.used ==> Last(true, a) && q + t.size in w.foot && w.foot[q + t.size] == t.size)
            && (b != [] ==>
                  && q + t.size in w.head && w.head[q + t.size] == Tag(b[0].size, t.used, b[0].used)
                  && b[0].size >= MIN_CHUNK)
            && (b != [] && !t.used ==> b[0].used)
  {
    var q := p + Sum(a);
    assert a + [t] + b == a + ([t] + b);
    TiledAppend(w, p, true, a, [t] + b);
    assert ([t] + b)[1..] == b;
  }

  // ----- the writes

  /** `set_size_and_pinuse_of_free_chunk` */
  function SetFree(w: Words, p: nat, s: nat): Words {
    Words(w.head[p := Tag(s, true, false)], w.foot[p + s := s])
  }

  /** `set_free_with_pinuse` */
  function SetFreeWithPinuse(w: Words, p: nat, s: nat, next: nat): Words
    requires next in w.head
  {
    SetFree(w.(head := w.head[next := w.head[next].(pinuse := false)]), p, s)
  }

  /** `set_inuse_and_pinuse` */
  function SetInuse(w: Words, p: nat, s: nat): Words
    requires s > 0 && p + s in w.head
  {
    w.(head := w.head[p := Tag(s, true, true)][p + s := w.head[p + s].(pinuse := true)])
  }

  /** `set_size_and_pinuse_of_inuse_chunk` */
  function SetInuseSize(w: Words, p: nat, s: nat): Words {
    w.(head := w.head[p := Tag(s, true, true)])
  }

  /** A free tile is put to use whole. */
  lemma WholeKeeps(w: Words, p: nat, a: seq<Tile>, t: Tile, b: seq<Tile>)
    requires Tiled(w, p, true, a + [t] + b) && !t.used && b != []
    ensures p + Sum(a) + t.size in w.head && t.size > 0
    ensures Tiled(SetInuse(w, p + Sum(a), t.size), p, true, a + [Tile(t.size, true)] + b)
  {
    TileWords(w, p, a, t, b);
    Replaced(w, SetInuse(w, p + Sum(a), t.size), p, a, [t], [Tile(t.size, true)], b);
  }

  /** A free tile is split: its front is put to use, its rest stays free. */
  lemma SplitKeeps(w: Words, p: nat, a: seq<Tile>, t: Tile, b: seq<Tile>, nb: nat)
    requires Tiled(w, p, true, a + [t] + b) && !t.used && b != [] && MIN_CHUNK <= nb && nb + MIN_CHUNK <= t.size
    ensures var q := p + Sum(a);
            Tiled(SetFree(SetInuseSize(w, q, nb), q + nb, t.size - nb), p, true,
                  a + [Tile(nb, true), Tile(t.size - nb, false)] + b)
  {
    var q, mid := p + Sum(a), [Tile(nb, true), Tile(t.size - nb, false)];
    var w' := SetFree(SetInuseSize(w, q, nb), q + nb, t.size - nb);
    TileWords(w, p, a, t, b);
    SplitTiled(w, q, nb, t.size - nb);
    PairSum(Tile(nb, true), Tile(t.size - nb, false));
    OneTile(q, t);
    Replaced(w, w', p, a, [t], mid, b);
  }

  lemma PairSum(s: Tile, t: Tile)
    ensures Sum([s, t]) == s.size + t.size
  {
    assert [s, t][1..] == [t];
    OneTile(0, t);
  }

  /** The two tiles that a split leaves. */
  lemma SplitTiled(w: Words, q: nat, nb: nat, rest: nat)
    requires q in w.head && MIN_CHUNK <= nb && MIN_CHUNK <= rest && w.head[q].pinuse
    ensures Tiled(SetFree(SetInuseSize(w, q, nb), q + nb, rest), q, true, [Tile(nb, true), Tile(rest, false)])
  {
    var w' := SetFree(SetInuseSize(w, q, nb), q + nb, rest);
    var mid, last := [Tile(nb, true), Tile(rest, false)], [Tile(rest, false)];
    assert last[1..] == [] && Tiled(w', q + nb, true, last);
    assert mid[1..] == last;
  }

  /** Neighbouring tiles become one free tile. */
  lemma MergeKeeps(w: Words, p: nat, a: seq<Tile>, mid: seq<Tile>, b: seq<Tile>)
    requires Tiled(w, p, true, a + mid + b) && mid != [] && Last(true, a) && b != [] && b[0].used
             && Sum(mid) >= MIN_CHUNK
    ensures var q, s := p + Sum(a), Sum(mid);
            && q + s in w.head
            && Tiled(SetFreeWithPinuse(w, q, s, q + s), p, true, a + [Tile(s, false)] + b)
  {
    var q, s := p + Sum(a), Sum(mid);
    assert a + mid + b == (a + mid) + [b[0]] + b[1..];
    SumAppend(a, mid);
    TileWords(w, p, a + mid, b[0], b[1..]);
    FreeTiled(w, q, s);
    OneTile(q, Tile(s, false));
    Replaced(w, SetFreeWithPinuse(w, q, s, q + s), p, a, mid, [Tile(s, false)], b);
  }

  lemma FreeTiled(w: Words, q: nat, s: nat)
    requires q + s in w.head && s >= MIN_CHUNK
    ensures Tiled(SetFreeWithPinuse(w, q, s, q + s), q, true, [Tile(s, false)])
  {
    assert [Tile(s, false)][1..] == [];
  }
}
