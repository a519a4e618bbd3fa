/** dlmalloc's `malloc` and `free` on one segment: chunks are split off bins, the designated victim
    and the top chunk, and freed chunks are merged with their free neighbours. */
module ChunkArena {
  import opened Lists
  import opened ChunkTiling

  function SizeAt(w: Words, x: nat): nat {
    if x in w.head then w.head[x].size else 0
  }

  /** The state as a value; `bins` are the chunks in the small and tree bins. */
  datatype Arena = Arena(w: Words, bins: set<nat>, dv: nat, dvsize: nat, top: nat, topsize: nat)

  /** A chunk that the allocator knows to be free: in a bin, or the designated victim. */
  predicate Named(m: Arena, x: nat) {
    x in m.bins || (m.dvsize > 0 && x == m.dv)
  }

  predicate DvOk(m: Arena) {
    if m.dvsize == 0 then m.dv == 0 else m.dv !in m.bins && m.dv in m.w.head && m.w.head[m.dv].size == m.dvsize
  }

  predicate TopOk(m: Arena, base: nat, tiles: seq<Tile>) {
    && Last(true, tiles) && m.top == base + Sum(tiles)
    && m.top in m.w.head && m.w.head[m.top] == Tag(m.topsize, true, false)
  }

  /** The tiles lie without gap between the base and the top chunk, which a chunk in use precedes, and
      the free ones are each in exactly one of the bins and the designated victim. */
  ghost predicate Sound(m: Arena, base: nat, tiles: seq<Tile>) {
    && base > 0 && Tiled(m.w, base, true, tiles) && TopOk(m, base, tiles) && DvOk(m)
    && forall x :: x in FreeAt(base, tiles) <==> Named(m, x)
  }

  // ----- free tiles of parts

  predicate Within(s: set<nat>, lo: nat, hi: nat) {
    forall x :: x in s ==> lo <= x < hi
  }

  /** The free tiles of three parts lie apart. */
  lemma FreeParts(w: Words, p: nat, a: seq<Tile>, mid: seq<Tile>, b: seq<Tile>)
    requires Tiled(w, p, true, a + mid + b)
    ensures Within(FreeAt(p, a), p, p + Sum(a))
    ensures Within(FreeAt(p + Sum(a), mid), p + Sum(a), p + Sum(a) + Sum(mid))
    ensures Within(FreeAt(p + Sum(a) + Sum(mid), b), p + Sum(a) + Sum(mid), p + Sum(a) + Sum(mid) + Sum(b))
  {
    assert a + mid + b == a + (mid + b);
    TiledAppend(w, p, true, a, mid + b);
    TiledAppend(w, p + Sum(a), Last(true, a), mid, b);
    PartWithin(w, p, true, a);
    PartWithin(w, p + Sum(a), Last(true, a), mid);
    PartWithin(w, p + Sum(a) + Sum(mid), Last(Last(true, a), mid), b);
  }

  lemma {:induction false} PartWithin(w: Words, p: nat, u: bool, tiles: seq<Tile>)
    requires Tiled(w, p, u, tiles)
    ensures Within(FreeAt(p, tiles), p, p + Sum(tiles))
  {
    TilesBig(w, p, u, tiles);
    FreeRange(p, tiles);
  }

  lemma LastOf(u: bool, a: seq<Tile>, mid: seq<Tile>, b: seq<Tile>)
    ensures b != [] ==> Last(u, a + mid + b) == Last(true, b)
    ensures b == [] && mid != [] ==> Last(u, a + mid + b) == Last(true, mid)
    ensures Last(u, a + mid) == Last(Last(u, a), mid)
  {
  }

  /** The chunk before the top is in use, so a free tile is followed by another. */
  lemma FreeIsFollowed(m: Arena, base: nat, a: seq<Tile>, t: Tile, b: seq<Tile>)
    requires Sound(m, base, a + [t] + b) && !t.used
    ensures b != [] && b[0].used
  {
    LastOf(true, a, [t], b);
    TileWords(m.w, base, a, t, b);
  }

  /** What replacing tiles does to the free ones. */
  lemma FreeAfter(w: Words, p: nat, a: seq<Tile>, mid: seq<Tile>, mid': seq<Tile>, b: seq<Tile>)
    requires Tiled(w, p, true, a + mid + b) && Sum(mid') == Sum(mid)
    ensures forall x :: x in FreeAt(p, a + mid' + b) <==>
                        (x in FreeAt(p, a + mid + b) && x !in FreeAt(p + Sum(a), mid)) || x in FreeAt(p + Sum(a), mid')
  {
    var q := p + Sum(a);
    FreeParts(w, p, a, mid, b);
    FreeOfParts(p, a, mid, b);
    FreeOfParts(p, a, mid', b);
    SwapMiddle(FreeAt(p, a), FreeAt(q, mid), FreeAt(q, mid'), FreeAt(q + Sum(mid), b));
  }

  lemma SwapMiddle<T>(a: set<T>, m: set<T>, m': set<T>, b: set<T>)
    requires a !! m && b !! m
    ensures a + m' + b == ((a + m + b) - m) + m'
  {
  }

  /** What replacing tiles does to those in use. */
  lemma UsedAfter(p: nat, a: seq<Tile>, mid: seq<Tile>, mid': seq<Tile>, b: seq<Tile>)
    requires Sum(mid') == Sum(mid)
    ensures UsedAt(p, a + mid' + b) + UsedAt(p + Sum(a), mid) == UsedAt(p, a + mid + b) + UsedAt(p + Sum(a), mid')
  {
    var q := p + Sum(a);
    UsedOfParts(p, a, mid, b);
    UsedOfParts(p, a, mid', b);
    Exchange(UsedAt(p, a), UsedAt(q, mid), UsedAt(q, mid'), UsedAt(q + Sum(mid), b));
  }

  lemma Exchange<T>(a: set<T>, m: set<T>, m': set<T>, b: set<T>)
    ensures (a + m' + b) + m == (a + m + b) + m'
  {
  }

  lemma SumAfter(a: seq<Tile>, mid: seq<Tile>, mid': seq<Tile>, b: seq<Tile>)
    requires Sum(mid') == Sum(mid)
    ensures Sum(a + mid' + b) == Sum(a + mid + b)
  {
    SumOfParts(a, mid, b);
    SumOfParts(a, mid', b);
  }

  /** Replacing tiles below the top. */
  lemma SoundAfter(m: Arena, m': Arena, base: nat, a: seq<Tile>, mid: seq<Tile>, mid': seq<Tile>, b: seq<Tile>)
    requires Sound(m, base, a + mid + b) && b != [] && Sum(mid') == Sum(mid)
    requires Tiled(m'.w, base, true, a + mid' + b) && DvOk(m')
    requires m'.top == m.top && m'.topsize == m.topsize && m.top in m'.w.head && m'.w.head[m.top] == m.w.head[m.top]
    requires var q := base + Sum(a);
             forall x :: Named(m', x) <==> (Named(m, x) && x !in FreeAt(q, mid)) || x in FreeAt(q, mid')
    ensures Sound(m', base, a + mid' + b)
  {
    SumAfter(a, mid, mid', b);
    LastOf(true, a, mid, b);
    LastOf(true, a, mid', b);
    FreeAfter(m.w, base, a, mid, mid', b);
  }

  /** Addresses below the top are not the top's. */
  lemma BelowTop(m: Arena, base: nat, a: seq<Tile>, mid: seq<Tile>, b: seq<Tile>)
    requires Sound(m, base, a + mid + b) && b != []
    ensures base + Sum(a) + Sum(mid) < m.top && b[0].size >= MIN_CHUNK && base + Sum(a) + Sum(mid) in m.w.head
    ensures m.w.head[base + Sum(a) + Sum(mid)] == Tag(b[0].size, Last(Last(true, a), mid), b[0].used)
  {
    SumAppend(a, mid);
    LastOf(true, a, mid, b);
    TileBelow(m.w, base, a + mid, b);
  }

  lemma TileBelow(w: Words, base: nat, a: seq<Tile>, b: seq<Tile>)
    requires Tiled(w, base, true, a + b) && b != []
    ensures base + Sum(a) < base + Sum(a + b) && b[0].size >= MIN_CHUNK && base + Sum(a) in w.head
    ensures w.head[base + Sum(a)] == Tag(b[0].size, Last(true, a), b[0].used)
  {
    assert a + b == a + [b[0]] + b[1..];
    TileWords(w, base, a, b[0], b[1..]);
    SumAppend(a, b);
  }

  // ----- allocation

  lemma WholeSound(m: Arena, m': Arena, base: nat, a: seq<Tile>, t: Tile, b: seq<Tile>)
    requires Sound(m, base, a + [t] + b) && !t.used
    requires var q := base + Sum(a);
             && m'.top == m.top && m'.topsize == m.topsize && q + t.size in m.w.head && t.size > 0
             && m'.w == SetInuse(m.w, q, t.size) && DvOk(m')
             && forall x :: Named(m', x) <==> Named(m, x) && x != q
    ensures Sound(m', base, a + [Tile(t.size, true)] + b)
    ensures UsedAt(base, a + [Tile(t.size, true)] + b) == UsedAt(base, a + [t] + b) + {(base + Sum(a), t.size)}
  {
    FreeIsFollowed(m, base, a, t, b);
    WholeKeeps(m.w, base, a, t, b);
    BelowTop(m, base, a, [t], b);
    SoundAfter(m, m', base, a, [t], [Tile(t.size, true)], b);
    UsedAfter(base, a, [t], [Tile(t.size, true)], b);
  }

  lemma SplitSound(m: Arena, m': Arena, base: nat, a: seq<Tile>, t: Tile, b: seq<Tile>, nb: nat)
    requires Sound(m, base, a + [t] + b) && !t.used && MIN_CHUNK <= nb && nb + MIN_CHUNK <= t.size
    requires var q := base + Sum(a);
             && m'.top == m.top && m'.topsize == m.topsize
             && m'.w == SetFree(SetInuseSize(m.w, q, nb), q + nb, t.size - nb) && DvOk(m')
             && forall x :: Named(m', x) <==> (Named(m, x) && x != q) || x == q + nb
    ensures Sound(m', base, a + [Tile(nb, true), Tile(t.size - nb, false)] + b)
    ensures UsedAt(base, a + [Tile(nb, true), Tile(t.size - nb, false)] + b) ==
            UsedAt(base, a + [t] + b) + {(base + Sum(a), nb)}
  {
    var q, mid := base + Sum(a), [Tile(nb, true), Tile(t.size - nb, false)];
    FreeIsFollowed(m, base, a, t, b);
    SplitKeeps(m.w, base, a, t, b, nb);
    BelowTop(m, base, a, [t], b);
    SplitParts(q, nb, t.size);
    SoundAfter(m, m', base, a, [t], mid, b);
    UsedAfter(base, a, [t], mid, b);
  }

  lemma SplitParts(q: nat, nb: nat, size: nat)
    requires nb <= size
    ensures var mid := [Tile(nb, true), Tile(size - nb, false)];
            Sum(mid) == size && FreeAt(q, mid) == {q + nb} && UsedAt(q, mid) == {(q, nb)}
  {
    var mid := [Tile(nb, true), Tile(size - nb, false)];
    OneTile(q + nb, Tile(size - nb, false));
    assert mid[1..] == [Tile(size - nb, false)];
  }

  lemma TopSplitSound(m: Arena, m': Arena, base: nat, tiles: seq<Tile>, nb: nat)
    requires Sound(m, base, tiles) && MIN_CHUNK <= nb < m.topsize
    requires m' == m.(w := SetInuseSize(m.w.(head := m.w.head[m.top + nb := Tag(m.topsize - nb, true, false)]),
                                        m.top, nb),
                      top := m.top + nb, topsize := m.topsize - nb)
    ensures Sound(m', base, tiles + [Tile(nb, true)])
    ensures UsedAt(base, tiles + [Tile(nb, true)]) == UsedAt(base, tiles) + {(m.top, nb)}
  {
    var one := [Tile(nb, true)];
    OneTile(m.top, Tile(nb, true));
    TopSplitTiled(m, base, tiles, nb);
    SumAppend(tiles, one);
    FreeAppend(base, tiles, one);
    UsedAppend(base, tiles, one);
    DvBelowTop(m, base, tiles);
    assert Last(true, tiles + one);
  }

  lemma TopSplitTiled(m: Arena, base: nat, tiles: seq<Tile>, nb: nat)
    requires Sound(m, base, tiles) && MIN_CHUNK <= nb < m.topsize
    ensures Tiled(SetInuseSize(m.w.(head := m.w.head[m.top + nb := Tag(m.topsize - nb, true, false)]), m.top, nb),
                  base, true, tiles + [Tile(nb, true)])
  {
    var w' := SetInuseSize(m.w.(head := m.w.head[m.top + nb := Tag(m.topsize - nb, true, false)]), m.top, nb);
    var one := [Tile(nb, true)];
    TiledFrame(m.w, w', base, true, tiles);
    assert one[1..] == [] && Tiled(w', m.top, true, one);
    TiledAppend(w', base, true, tiles, one);
  }

  lemma DvBelowTop(m: Arena, base: nat, tiles: seq<Tile>)
    requires Sound(m, base, tiles)
    ensures m.dvsize > 0 ==> base <= m.dv < m.top
  {
    PartWithin(m.w, base, true, tiles);
    if m.dvsize > 0 {
      assert Named(m, m.dv);
      assert m.dv in FreeAt(base, tiles);
    }
  }

  // ----- release

  lemma MergeSound(m: Arena, m': Arena, base: nat, a: seq<Tile>, mid: seq<Tile>, b: seq<Tile>)
    requires Sound(m, base, a + mid + b) && mid != [] && Last(true, a) && b != [] && b[0].used && Sum(mid) >= MIN_CHUNK
    requires var q, s := base + Sum(a), Sum(mid);
             && m'.top == m.top && m'.topsize == m.topsize && q + s in m.w.head
             && m'.w == SetFreeWithPinuse(m.w, q, s, q + s) && DvOk(m')
             && forall x :: Named(m', x) <==> (Named(m, x) && x !in FreeAt(q, mid)) || x == q
    ensures Sound(m', base, a + [Tile(Sum(mid), false)] + b)
    ensures UsedAt(base, a + mid + b) == UsedAt(base, a + [Tile(Sum(mid), false)] + b) + UsedAt(base + Sum(a), mid)
  {
    var q, s := base + Sum(a), Sum(mid);
    MergeKeeps(m.w, base, a, mid, b);
    BelowTop(m, base, a, mid, b);
    SoundAfter(m, m', base, a, mid, [Tile(s, false)], b);
    UsedAfter(base, a, mid, [Tile(s, false)], b);
  }

  lemma TopMergeSound(m: Arena, m': Arena, base: nat, a: seq<Tile>, mid: seq<Tile>)
    requires Sound(m, base, a + mid) && mid != [] && Last(true, a)
    requires var q, s := base + Sum(a), Sum(mid);
             && m'.top == q && m'.topsize == m.topsize + s && DvOk(m')
             && m'.w == m.w.(head := m.w.head[q := Tag(m.topsize + s, true, false)])
             && forall x :: Named(m', x) <==> Named(m, x) && x !in FreeAt(q, mid)
    ensures Sound(m', base, a)
    ensures UsedAt(base, a + mid) == UsedAt(base, a) + UsedAt(base + Sum(a), mid)
  {
    TiledAppend(m.w, base, true, a, mid);
    TiledFrame(m.w, m'.w, base, true, a);
    UsedAppend(base, a, mid);
    FreeFront(m.w, base, a, mid);
  }

  /** The free tiles of a front part are those not in the rest. */
  lemma FreeFront(w: Words, base: nat, a: seq<Tile>, mid: seq<Tile>)
    requires Tiled(w, base, true, a + mid)
    ensures forall x :: x in FreeAt(base, a) <==> x in FreeAt(base, a + mid) && x !in FreeAt(base + Sum(a), mid)
  {
    FreeAppend(base, a, mid);
    assert a + mid == a + mid + [];
    FreeParts(w, base, a, mid, []);
  }

  // ----- the operations

  /** No chunk begins strictly inside a tile, and a tile that is named is free there. */
  lemma Inside(m: Arena, base: nat, a: seq<Tile>, mid: seq<Tile>, b: seq<Tile>, x: nat)
    requires Sound(m, base, a + mid + b) && base + Sum(a) <= x < base + Sum(a) + Sum(mid)
    ensures Named(m, x) <==> x in FreeAt(base + Sum(a), mid)
  {
    FreeOfParts(base, a, mid, b);
    FreeParts(m.w, base, a, mid, b);
  }

  lemma OneFree(m: Arena, base: nat, a: seq<Tile>, t: Tile, b: seq<Tile>)
    requires Sound(m, base, a + [t] + b)
    ensures forall x :: base + Sum(a) < x < base + Sum(a) + t.size ==> !Named(m, x)
    ensures Named(m, base + Sum(a)) <==> !t.used
  {
    TileWords(m.w, base, a, t, b);
    forall x | base + Sum(a) <= x < base + Sum(a) + t.size
      ensures Named(m, x) <==> !t.used && x == base + Sum(a)
    {
      Inside(m, base, a, [t], b, x);
    }
  }

  // ----- a chunk to be freed and its neighbours

  /** The tiles that a free merges, with `p` their address and `s` their size, and the tiles around
      them; `prev` and `next` say whether a free tile is merged on either side. */
  datatype Region = Region(before: seq<Tile>, mid: seq<Tile>, after: seq<Tile>, p: nat, s: nat, prev: bool, next: bool)

  /** What the words say of the chunk at `mem` and the chunk before it. */
  ghost predicate Behind(m: Arena, mem: nat, size: nat, r: Region) {
    && r.p > 0 && mem in m.w.head && m.w.head[mem].size == size >= MIN_CHUNK && m.w.head[mem].pinuse == !r.prev
    && (if r.prev then mem in m.w.foot && m.w.foot[mem] <= mem && r.p == mem - m.w.foot[mem] < mem else r.p == mem)
    && (Named(m, r.p) <==> r.prev)
    && (r.prev ==> SizeAt(m.w, r.p) == mem - r.p)
    && (m.dvsize > 0 && r.prev && m.dv == r.p ==> m.dvsize == mem - r.p)
  }

  /** What they say of the chunk at `n` that follows it. */
  ghost predicate Ahead(m: Arena, n: nat, r: Region) {
    && n in m.w.head && n > 0
    && (r.after == [] <==> n == m.top)
    && (r.after == [] ==> !r.next && !m.w.head[n].cinuse && r.p + r.s == n)
    && (r.after != [] ==> m.w.head[n].pinuse && (m.w.head[n].cinuse <==> !r.next))
    && (r.next ==> m.w.head[n].size >= MIN_CHUNK && r.p + r.s == n + m.w.head[n].size)
    && (r.after != [] && !r.next ==> r.p + r.s == n)
    && (r.after != [] ==> r.p + r.s in m.w.head && m.w.head[r.p + r.s].pinuse == !r.next)
    && (Named(m, n) <==> r.next)
    && (m.dvsize > 0 && r.next && m.dv == n ==> m.dvsize == m.w.head[n].size)
  }

  ghost predicate Around(m: Arena, mem: nat, size: nat, r: Region) {
    && Behind(m, mem, size, r) && Ahead(m, mem + size, r)
    && forall x :: x in FreeAt(r.p, r.mid) <==> (r.prev && x == r.p) || (r.next && x == mem + size)
  }

  /** The state after the merge: a free chunk named in one place, or the top. */
  ghost predicate Merged(m: Arena, m': Arena, r: Region) {
    && DvOk(m')
    && if r.after == [] then
         && m'.top == r.p && m'.topsize == m.topsize + r.s
         && m'.w == m.w.(head := m.w.head[r.p := Tag(m.topsize + r.s, true, false)])
         && forall x :: Named(m', x) <==> Named(m, x) && x !in FreeAt(r.p, r.mid)
       else
         && m'.top == m.top && m'.topsize == m.topsize
         && r.p + r.s in m.w.head && m'.w == SetFreeWithPinuse(m.w, r.p, r.s, r.p + r.s)
         && forall x :: Named(m', x) <==> (Named(m, x) && x !in FreeAt(r.p, r.mid)) || x == r.p
  }

  /** The region is part of the tiling. */
  ghost predicate Placed(base: nat, tiles: seq<Tile>, mem: nat, size: nat, r: Region) {
    && tiles == r.before + r.mid + r.after && r.p == base + Sum(r.before) && r.s == Sum(r.mid)
    && Last(true, r.before) && r.mid != [] && r.s >= MIN_CHUNK
    && (r.after != [] ==> r.after[0].used)
    && UsedAt(r.p, r.mid) == {(mem, size)}
  }

  /** The tiles merged. */
  function Middle(x: Tile, t: Tile, y: Tile, prev: bool, next: bool): seq<Tile> {
    (if prev then [x] else []) + [t] + (if next then [y] else [])
  }

  lemma TailParts(p: nat, t: Tile, y: Tile, next: bool)
    requires t.used && (next ==> !y.used)
    ensures var l := [t] + if next then [y] else [];
            && Sum(l) == t.size + (if next then y.size else 0)
            && FreeAt(p, l) == (if next then {p + t.size} else {}) && UsedAt(p, l) == {(p, t.size)}
  {
    var l := [t] + if next then [y] else [];
    assert l[1..] == if next then [y] else [];
    assert next ==> Sum([y]) == y.size && FreeAt(p + t.size, [y]) == {p + t.size} && UsedAt(p + t.size, [y]) == {};
  }

  lemma MiddleParts(p: nat, x: Tile, t: Tile, y: Tile, prev: bool, next: bool)
    requires t.used && (prev ==> !x.used) && (next ==> !y.used)
    ensures var mid := Middle(x, t, y, prev, next);
            var mem := p + if prev then x.size else 0;
            && Sum(mid) == (if prev then x.size else 0) + t.size + (if next then y.size else 0)
            && (forall z :: z in FreeAt(p, mid) <==> (prev && z == p) || (next && z == mem + t.size))
            && UsedAt(p, mid) == {(mem, t.size)}
  {
    var mid := Middle(x, t, y, prev, next);
    var l := [t] + if next then [y] else [];
    if prev {
      assert mid == [x] + l && mid[1..] == l;
      TailParts(p + x.size, t, y, next);
    } else {
      assert mid == l;
      TailParts(p, t, y, next);
    }
  }

  /** The side before a chunk in use. */
  lemma PrevFacts(m: Arena, base: nat, a: seq<Tile>, t: Tile, b: seq<Tile>)
    requires Sound(m, base, a + [t] + b) && a != [] && !a[|a| - 1].used
    ensures var x, before, mem := a[|a| - 1], a[..|a| - 1], base + Sum(a);
            && Last(true, before) && mem in m.w.foot && m.w.foot[mem] == x.size == mem - (base + Sum(before))
            && x.size >= MIN_CHUNK && Named(m, base + Sum(before)) && SizeAt(m.w, base + Sum(before)) == x.size
            && (m.dvsize > 0 && m.dv == base + Sum(before) ==> m.dvsize == x.size)
  {
    var x, before := a[|a| - 1], a[..|a| - 1];
    assert a == before + [x];
    assert a + [t] + b == before + [x] + ([t] + b);
    SumAppend(before, [x]);
    TileWords(m.w, base, before, x, [t] + b);
    OneFree(m, base, before, x, [t] + b);
  }

  /** The side after a chunk in use: the top. */
  lemma TopFacts(m: Arena, base: nat, a: seq<Tile>, t: Tile)
    requires Sound(m, base, a + [t])
    ensures base + Sum(a) + t.size == m.top && !Named(m, m.top)
  {
    SumAppend(a, [t]);
    assert a + [t] == (a + [t]) + [] + [];
    FreeParts(m.w, base, a + [t], [], []);
  }

  /** The side after a chunk in use: another chunk. */
  lemma NextFacts(m: Arena, base: nat, a: seq<Tile>, t: Tile, b: seq<Tile>)
    requires Sound(m, base, a + [t] + b) && b != [] && t.used
    ensures var n := base + Sum(a) + t.size;
            && n < m.top && n in m.w.head && m.w.head[n] == Tag(b[0].size, true, b[0].used) && b[0].size >= MIN_CHUNK
            && (Named(m, n) <==> !b[0].used)
            && (!b[0].used ==>
                  && |b| > 1 && b[1].used && n + b[0].size in m.w.head && !m.w.head[n + b[0].size].pinuse
                  && (m.dvsize > 0 && m.dv == n ==> m.dvsize == b[0].size))
  {
    BelowTop(m, base, a, [t], b);
    assert a + [t] + b == (a + [t]) + [b[0]] + b[1..];
    SumAppend(a, [t]);
    TileWords(m.w, base, a + [t], b[0], b[1..]);
    OneFree(m, base, a + [t], b[0], b[1..]);
    if !b[0].used {
      FreeIsFollowed(m, base, a + [t], b[0], b[1..]);
    }
  }

  /** The region around the chunk `t` between `a` and `b`: a free tile at the end of `a` and one at the
      beginning of `b` belong to it. */
  ghost predicate Cut(base: nat, a: seq<Tile>, t: Tile, b: seq<Tile>, x: Tile, y: Tile, r: Region) {
    && a == r.before + (if r.prev then [x] else []) && b == (if r.next then [y] else []) + r.after
    && r.mid == Middle(x, t, y, r.prev, r.next) && r.p == base + Sum(r.before) && r.s == Sum(r.mid) && t.used
    && (r.prev ==> !x.used) && (!r.prev ==> Last(true, a))
    && (r.next ==> !y.used) && (!r.next && b != [] ==> b[0].used)
  }

  /** What the sizes and uses of the region's tiles add up to. */
  ghost predicate Adds(mem: nat, t: Tile, x: Tile, y: Tile, r: Region) {
    && mem == r.p + (if r.prev then x.size else 0)
    && r.s == mem - r.p + t.size + (if r.next then y.size else 0)
    && (forall z :: z in FreeAt(r.p, r.mid) <==> (r.prev && z == r.p) || (r.next && z == mem + t.size))
    && UsedAt(r.p, r.mid) == {(mem, t.size)}
  }

  lemma CutAdds(base: nat, a: seq<Tile>, t: Tile, b: seq<Tile>, x: Tile, y: Tile, r: Region)
    requires Cut(base, a, t, b, x, y, r)
    ensures Adds(base + Sum(a), t, x, y, r)
  {
    CutStart(base, a, x, r);
    MiddleParts(r.p, x, t, y, r.prev, r.next);
  }

  /** Where the chunk begins in its region. */
  lemma CutStart(base: nat, a: seq<Tile>, x: Tile, r: Region)
    requires a == r.before + (if r.prev then [x] else []) && r.p == base + Sum(r.before)
    ensures base + Sum(a) == r.p + if r.prev then x.size else 0
  {
    if r.prev {
      SumAppend(r.before, [x]);
      OneTile(r.p, x);
    } else {
      assert a == r.before;
    }
  }

  lemma CutTiles(base: nat, a: seq<Tile>, t: Tile, b: seq<Tile>, x: Tile, y: Tile, r: Region)
    requires Cut(base, a, t, b, x, y, r)
    ensures a + [t] + b == r.before + r.mid + r.after && r.mid != []
  {
    var left, right := if r.prev then [x] else [], if r.next then [y] else [];
    assert r.mid == left + [t] + right && a == r.before + left && b == right + r.after;
  }

  lemma CutPlaced(m: Arena, base: nat, a: seq<Tile>, t: Tile, b: seq<Tile>, x: Tile, y: Tile, r: Region)
    requires Sound(m, base, a + [t] + b) && Cut(base, a, t, b, x, y, r) && Adds(base + Sum(a), t, x, y, r)
    ensures Placed(base, a + [t] + b, base + Sum(a), t.size, r)
  {
    CutTiles(base, a, t, b, x, y, r);
    TileWords(m.w, base, a, t, b);
    if r.prev {
      assert a[|a| - 1] == x && a[..|a| - 1] == r.before;
      PrevFacts(m, base, a, t, b);
    }
    if b != [] {
      NextFacts(m, base, a, t, b);
    }
  }

  lemma CutBehind(m: Arena, base: nat, a: seq<Tile>, t: Tile, b: seq<Tile>, x: Tile, y: Tile, r: Region)
    requires Sound(m, base, a + [t] + b) && Cut(base, a, t, b, x, y, r) && Adds(base + Sum(a), t, x, y, r)
    ensures Behind(m, base + Sum(a), t.size, r)
  {
    TileWords(m.w, base, a, t, b);
    OneFree(m, base, a, t, b);
    if r.prev {
      assert a[|a| - 1] == x && a[..|a| - 1] == r.before;
      PrevFacts(m, base, a, t, b);
    }
  }

  lemma CutAhead(m: Arena, base: nat, a: seq<Tile>, t: Tile, b: seq<Tile>, x: Tile, y: Tile, r: Region)
    requires Sound(m, base, a + [t] + b) && Cut(base, a, t, b, x, y, r) && Adds(base + Sum(a), t, x, y, r)
    ensures Ahead(m, base + Sum(a) + t.size, r)
  {
    if b == [] {
      assert a + [t] + b == a + [t];
      TopFacts(m, base, a, t);
    } else {
      NextFacts(m, base, a, t, b);
    }
  }

  lemma CutAt(base: nat, a: seq<Tile>, t: Tile, b: seq<Tile>) returns (x: Tile, y: Tile, r: Region)
    requires t.used
    ensures Cut(base, a, t, b, x, y, r)
  {
    var prev, next := a != [] && !a[|a| - 1].used, b != [] && !b[0].used;
    x, y := if prev then a[|a| - 1] else t, if next then b[0] else t;
    var before, after := if prev then a[..|a| - 1] else a, if next then b[1..] else b;
    var mid := Middle(x, t, y, prev, next);
    r := Region(before, mid, after, base + Sum(before), Sum(mid), prev, next);
    assert a == before + (if prev then [x] else []);
    assert b == (if next then [y] else []) + after;
  }

  lemma Neighbours(m: Arena, base: nat, tiles: seq<Tile>, mem: nat, size: nat) returns (r: Region)
    requires Sound(m, base, tiles) && (mem, size) in UsedAt(base, tiles)
    ensures Placed(base, tiles, mem, size, r) && Around(m, mem, size, r)
  {
    var a, b := FindUsed(base, tiles, mem, size);
    r := NeighboursAt(m, base, a, Tile(size, true), b);
  }

  lemma NeighboursAt(m: Arena, base: nat, a: seq<Tile>, t: Tile, b: seq<Tile>) returns (r: Region)
    requires Sound(m, base, a + [t] + b) && t.used
    ensures Placed(base, a + [t] + b, base + Sum(a), t.size, r) && Around(m, base + Sum(a), t.size, r)
  {
    var x, y;
    x, y, r := CutAt(base, a, t, b);
    CutAdds(base, a, t, b, x, y, r);
    CutPlaced(m, base, a, t, b, x, y, r);
    CutBehind(m, base, a, t, b, x, y, r);
    CutAhead(m, base, a, t, b, x, y, r);
  }

  /** A chunk in use is listed once. */
  lemma UsedOnce(p: nat, tiles: seq<Tile>, a: seq<Tile>, mid: seq<Tile>, b: seq<Tile>, x: (nat, nat),
                 rest: set<(nat, nat)>)
    requires tiles == a + mid + b && UsedAt(p + Sum(a), mid) == {x} && x.1 > 0
    requires rest == UsedAt(p, a) + UsedAt(p + Sum(a) + Sum(mid), b)
    ensures UsedAt(p, tiles) == rest + {x} && x !in rest
  {
    UsedOfParts(p, a, mid, b);
    UsedRange(p, a);
    UsedRange(p + Sum(a), mid);
    UsedRange(p + Sum(a) + Sum(mid), b);
  }

  /** The tiles after a free. */
  function TilesAfter(r: Region): seq<Tile> {
    if r.after == [] then r.before else r.before + [Tile(r.s, false)] + r.after
  }

  /** The merge keeps the arena in order and takes exactly the freed chunk out of use. */
  lemma FreeDone(m: Arena, m': Arena, base: nat, tiles: seq<Tile>, mem: nat, size: nat, r: Region)
    requires Sound(m, base, tiles) && Placed(base, tiles, mem, size, r) && Merged(m, m', r)
    ensures Sound(m', base, TilesAfter(r)) && Sum(TilesAfter(r)) + m'.topsize == Sum(tiles) + m.topsize
  {
    if r.after == [] {
      assert tiles == r.before + r.mid;
      TopMergeSound(m, m', base, r.before, r.mid);
      SumAppend(r.before, r.mid);
    } else {
      MergeSound(m, m', base, r.before, r.mid, r.after);
      SumAfter(r.before, r.mid, [Tile(r.s, false)], r.after);
    }
  }

  lemma UsedDone(base: nat, tiles: seq<Tile>, mem: nat, size: nat, r: Region)
    requires Placed(base, tiles, mem, size, r) && size > 0
    ensures UsedAt(base, TilesAfter(r)) == UsedAt(base, tiles) - {(mem, size)}
  {
    var rest := UsedAt(base, r.before) + UsedAt(r.p + r.s, r.after);
    UsedOnce(base, tiles, r.before, r.mid, r.after, (mem, size), rest);
    if r.after != [] {
      UsedOfParts(base, r.before, [Tile(r.s, false)], r.after);
    }
  }

  // ----- what stays apart and what the bins hold

  /** The `size` bytes at `p` overlap no chunk in use. */
  ghost predicate ClearOf(used: set<(nat, nat)>, p: nat, size: nat) {
    forall x :: x in used ==> x.0 + x.1 <= p || p + size <= x.0
  }

  lemma ClearIsNew(used: set<(nat, nat)>, p: nat, size: nat)
    requires ClearOf(used, p, size) && size > 0
    ensures (p, size) !in used
  {
  }

  /** A free tile overlaps no chunk in use. */
  lemma FreeIsClear(p: nat, a: seq<Tile>, t: Tile, b: seq<Tile>, size: nat)
    requires !t.used && size <= t.size
    ensures ClearOf(UsedAt(p, a + [t] + b), p + Sum(a), size)
  {
    UsedOfParts(p, a, [t], b);
    UsedRange(p, a);
    UsedRange(p + Sum(a) + t.size, b);
    assert Sum([t]) == t.size && UsedAt(p + Sum(a), [t]) == {};
  }

  lemma FreeIsNew(p: nat, a: seq<Tile>, t: Tile, b: seq<Tile>, size: nat)
    requires !t.used && 0 < size <= t.size
    ensures ClearOf(UsedAt(p, a + [t] + b), p + Sum(a), size) && (p + Sum(a), size) !in UsedAt(p, a + [t] + b)
  {
    FreeIsClear(p, a, t, b, size);
    ClearIsNew(UsedAt(p, a + [t] + b), p + Sum(a), size);
  }

  /** Nor does anything past the last tile. */
  lemma TopIsClear(p: nat, tiles: seq<Tile>, size: nat)
    ensures ClearOf(UsedAt(p, tiles), p + Sum(tiles), size)
  {
    UsedRange(p, tiles);
  }

  /** The sizes of free chunks are those of tiles. */
  predicate Rounded(tiles: seq<Tile>) {
    forall i :: 0 <= i < |tiles| ==> tiles[i].size % ALIGN == 0
  }

  lemma RoundedReplaced(a: seq<Tile>, mid: seq<Tile>, mid': seq<Tile>, b: seq<Tile>)
    requires Rounded(a + mid + b) && Rounded(mid')
    ensures Rounded(a + mid' + b)
  {
    var old', new' := a + mid + b, a + mid' + b;
    forall i | 0 <= i < |new'|
      ensures new'[i].size % ALIGN == 0
    {
      if i < |a| {
        assert new'[i] == old'[i];
      } else if i < |a| + |mid'| {
        assert new'[i] == mid'[i - |a|];
      } else {
        assert new'[i] == old'[i - |mid'| + |mid|];
      }
    }
  }

  lemma {:induction false} RoundedSum(tiles: seq<Tile>)
    requires Rounded(tiles)
    ensures Sum(tiles) % ALIGN == 0
    decreases |tiles|
  {
    if tiles != [] {
      RoundedSum(tiles[1..]);
    }
  }

  lemma RoundedAfter(tiles: seq<Tile>, r: Region)
    requires Rounded(tiles) && tiles == r.before + r.mid + r.after && r.s == Sum(r.mid)
    ensures Rounded(TilesAfter(r))
  {
    var n := |r.before|;
    assert forall i :: 0 <= i < |r.mid| ==> r.mid[i] == tiles[n + i];
    assert forall i :: 0 <= i < n ==> r.before[i] == tiles[i];
    RoundedSum(r.mid);
    RoundedReplaced(r.before, r.mid, [Tile(r.s, false)], r.after);
  }

  lemma NamedSize(m: Arena, base: nat, tiles: seq<Tile>, x: nat)
    requires Sound(m, base, tiles) && Rounded(tiles) && Named(m, x)
    ensures x > 0 && x in m.w.head
    ensures MIN_CHUNK <= SizeAt(m.w, x) <= Sum(tiles) && SizeAt(m.w, x) % ALIGN == 0
  {
    var a, t, b := FindFree(base, tiles, x);
    TileWords(m.w, base, a, t, b);
    SumOfParts(a, [t], b);
    assert tiles[|a|] == t;
  }

  /** The sizes that the heads of free chunks have. */
  ghost predicate NamedSizes(m: Arena, limit: nat) {
    forall x :: Named(m, x) ==> x > 0 && MIN_CHUNK <= SizeAt(m.w, x) <= limit && SizeAt(m.w, x) % ALIGN == 0
  }

  lemma AllNamedSizes(m: Arena, base: nat, tiles: seq<Tile>)
    requires Sound(m, base, tiles) && Rounded(tiles)
    ensures NamedSizes(m, Sum(tiles) + m.topsize)
  {
    forall x | Named(m, x)
      ensures x > 0 && MIN_CHUNK <= SizeAt(m.w, x) <= Sum(tiles) + m.topsize && SizeAt(m.w, x) % ALIGN == 0
    {
      NamedSize(m, base, tiles, x);
    }
  }

  /** The segment is sound, and all sizes are multiples of the alignment. */
  ghost predicate Ordered(m: Arena, base: nat, tiles: seq<Tile>) {
    Sound(m, base, tiles) && Rounded(tiles) && NamedSizes(m, Sum(tiles) + m.topsize)
  }

  /** A free chunk is split in two, the front one in use. */
  lemma SplitOrdered(m: Arena, m': Arena, base: nat, a: seq<Tile>, t: Tile, b: seq<Tile>, nb: nat)
    requires Ordered(m, base, a + [t] + b) && !t.used && MIN_CHUNK <= nb && nb + MIN_CHUNK <= t.size && nb % ALIGN == 0
    requires var q := base + Sum(a);
             && m'.top == m.top && m'.topsize == m.topsize
             && m'.w == SetFree(SetInuseSize(m.w, q, nb), q + nb, t.size - nb) && DvOk(m')
             && forall x :: Named(m', x) <==> (Named(m, x) && x != q) || x == q + nb
    ensures var tiles' := a + [Tile(nb, true), Tile(t.size - nb, false)] + b;
            && Ordered(m', base, tiles') && Sum(tiles') == Sum(a + [t] + b)
            && UsedAt(base, tiles') == UsedAt(base, a + [t] + b) + {(base + Sum(a), nb)}
  {
    var mid := [Tile(nb, true), Tile(t.size - nb, false)];
    SplitSound(m, m', base, a, t, b, nb);
    SplitParts(base + Sum(a), nb, t.size);
    SumAfter(a, [t], mid, b);
    SplitRounded(a, t, b, nb);
    AllNamedSizes(m', base, a + mid + b);
  }

  lemma SplitRounded(a: seq<Tile>, t: Tile, b: seq<Tile>, nb: nat)
    requires Rounded(a + [t] + b) && nb <= t.size && nb % ALIGN == 0
    ensures Rounded(a + [Tile(nb, true), Tile(t.size - nb, false)] + b)
  {
    assert (a + [t] + b)[|a|] == t;
    RoundedReplaced(a, [t], [Tile(nb, true), Tile(t.size - nb, false)], b);
  }

  /** A free chunk is used whole. */
  lemma WholeOrdered(m: Arena, m': Arena, base: nat, a: seq<Tile>, t: Tile, b: seq<Tile>)
    requires Ordered(m, base, a + [t] + b) && !t.used
    requires var q := base + Sum(a);
             && m'.top == m.top && m'.topsize == m.topsize && q + t.size in m.w.head && t.size > 0
             && m'.w == SetInuse(m.w, q, t.size) && DvOk(m')
             && forall x :: Named(m', x) <==> Named(m, x) && x != q
    ensures var tiles' := a + [Tile(t.size, true)] + b;
            && Ordered(m', base, tiles') && Sum(tiles') == Sum(a + [t] + b)
            && UsedAt(base, tiles') == UsedAt(base, a + [t] + b) + {(base + Sum(a), t.size)}
  {
    WholeSound(m, m', base, a, t, b);
    SumAfter(a, [t], [Tile(t.size, true)], b);
    assert (a + [t] + b)[|a|] == t;
    RoundedReplaced(a, [t], [Tile(t.size, true)], b);
    AllNamedSizes(m', base, a + [Tile(t.size, true)] + b);
  }

  /** A free merges chunks. */
  lemma FreeOrdered(m: Arena, m': Arena, base: nat, tiles: seq<Tile>, mem: nat, size: nat, r: Region)
    requires Ordered(m, base, tiles) && Placed(base, tiles, mem, size, r) && Merged(m, m', r) && size > 0
    ensures Ordered(m', base, TilesAfter(r)) && Sum(TilesAfter(r)) + m'.topsize == Sum(tiles) + m.topsize
    ensures UsedAt(base, TilesAfter(r)) == UsedAt(base, tiles) - {(mem, size)}
  {
    FreeDone(m, m', base, tiles, mem, size, r);
    UsedDone(base, tiles, mem, size, r);
    RoundedAfter(tiles, r);
    AllNamedSizes(m', base, TilesAfter(r));
  }

  lemma BinsBelowTop(m: Arena, base: nat, tiles: seq<Tile>)
    requires Sound(m, base, tiles)
    ensures forall x :: x in m.bins ==> base <= x < m.top
  {
    PartWithin(m.w, base, true, tiles);
    forall x | x in m.bins
      ensures base <= x < m.top
    {
      assert Named(m, x);
      assert x in FreeAt(base, tiles);
    }
  }

  /** The chunks in the bins, with their sizes. */
  ghost function BinSizes(m: Arena): map<nat, nat> {
    map x | x in m.bins :: SizeAt(m.w, x)
  }

  /** Heads keep their sizes but for those of the given addresses. */
  ghost predicate SizesKept(w: Words, w': Words, except: set<nat>) {
    forall x :: x !in except ==> SizeAt(w', x) == SizeAt(w, x)
  }

  /** A chunk leaves the bins. */
  lemma SizesLose(m: Arena, m': Arena, x: nat, except: set<nat>)
    requires m'.bins == m.bins - {x} && SizesKept(m.w, m'.w, except) && except !! m'.bins
    ensures BinSizes(m') == BinSizes(m) - {x}
  {
  }

  /** A chunk leaves the bins and another enters. */
  lemma SizesSwap(m: Arena, m': Arena, x: nat, y: nat, except: set<nat>)
    requires m'.bins == m.bins - {x} + {y} && SizesKept(m.w, m'.w, except) && except !! (m'.bins - {y})
    ensures BinSizes(m') == (BinSizes(m) - {x})[y := SizeAt(m'.w, y)]
  {
  }

  lemma SizesSame(m: Arena, m': Arena, except: set<nat>)
    requires m'.bins == m.bins && SizesKept(m.w, m'.w, except) && except !! m.bins
    ensures BinSizes(m') == BinSizes(m)
  {
  }

  // ----- what a free does to the bins

  datatype Entry = Entry(at: nat, size: nat)

  /** The neighbours that leave the bins, and the merged chunk that enters them. */
  datatype Rebinned = Rebinned(prev: Option<Entry>, next: Option<Entry>, merged: Option<Entry>)

  function Chosen(o: Option<Entry>): set<nat> {
    if o.Some? then {o.value.at} else {}
  }

  /** How the bins change: both neighbours leave, at most one chunk enters. */
  ghost predicate Rebins(m: Arena, m': Arena, r: Region, n: nat, e: Rebinned) {
    && m'.bins == (m.bins - (Chosen(e.prev) + Chosen(e.next))) + Chosen(e.merged)
    && (e.prev.Some? ==> r.p in m.bins && e.prev.value == Entry(r.p, SizeAt(m.w, r.p)))
    && (e.next.Some? ==> n in m.bins && n != r.p && e.next.value == Entry(n, SizeAt(m.w, n)))
    && (e.merged.Some? ==> r.after != [] && e.merged.value == Entry(r.p, r.s))
    && (r.p in m'.bins ==> e.merged.Some?)
    && (r.p in m.bins ==> e.prev.Some?)
  }

  /** The bins hold the chunk, with its size. */
  ghost predicate Binned(m: Arena, e: Entry) {
    e.at in BinSizes(m) && BinSizes(m)[e.at] == e.size
  }

  /** The sizes that the bins hold after a free. */
  ghost predicate SizesRebinned(m: Arena, m': Arena, e: Rebinned) {
    && (e.prev.Some? ==> Binned(m, e.prev.value))
    && (e.next.Some? ==> Binned(m, e.next.value) && (e.prev.Some? ==> e.next.value.at != e.prev.value.at))
    && (e.merged.Some? ==> e.merged.value.at !in BinSizes(m) - (Chosen(e.prev) + Chosen(e.next)))
    && var rest := BinSizes(m) - (Chosen(e.prev) + Chosen(e.next));
       BinSizes(m') == if e.merged.Some? then rest[e.merged.value.at := e.merged.value.size] else rest
  }

  lemma RebinnedSizes(m: Arena, m': Arena, r: Region, n: nat, e: Rebinned)
    requires Merged(m, m', r) && Rebins(m, m', r, n, e)
    ensures SizesRebinned(m, m', e)
  {
    assert SizesKept(m.w, m'.w, {r.p}) by {
      forall x | x !in {r.p}
        ensures SizeAt(m'.w, x) == SizeAt(m.w, x)
      {
      }
    }
  }

  // ----- where free chunks are after a call

  /** The free chunks: those in bins with their sizes, the designated victim and the top. */
  datatype View = View(sizes: map<nat, nat>, dv: nat, dvsize: nat, top: nat, topsize: nat)

  ghost function ViewOf(m: Arena): View {
    View(BinSizes(m), m.dv, m.dvsize, m.top, m.topsize)
  }

  /** All free chunks but the top, with their sizes. */
  function FreeMap(v: View): map<nat, nat> {
    if v.dvsize > 0 then v.sizes[v.dv := v.dvsize] else v.sizes
  }

  /** Where the merged chunk lands: in the top when it reaches that, in the designated victim when it took
      that in, and else in a bin. */
  ghost predicate Lands(m: Arena, m': Arena, r: Region, n: nat) {
    var dv := m.dvsize > 0 && ((r.prev && m.dv == r.p) || (r.next && m.dv == n));
    if r.after == [] then if dv then m'.dv == m'.dvsize == 0 else m'.dv == m.dv && m'.dvsize == m.dvsize
    else if dv then m'.dv == r.p && m'.dvsize == r.s
    else m'.dv == m.dv && m'.dvsize == m.dvsize && r.p in m'.bins
  }

  /** The free chunks after a chunk has been given back: the free chunk that ends where it begins, and the
      one that begins where it ends, have become one with it, `[lo, hi)`, or with the top. The
      designated victim grows when it is one of them. */
  ghost predicate Freed(v: View, v': View, mem: nat, size: nat, lo: nat, hi: nat) {
    var f, n := FreeMap(v), mem + size;
    && (if lo == mem then forall x :: x in f ==> x + f[x] != mem else lo in f && lo + f[lo] == mem)
    && (if n in f then hi == n + f[n] else hi == n)
    && if n == v.top then
         && v'.top == lo && v'.topsize == v.topsize + (n - lo) && FreeMap(v') == f - {lo}
         && if lo in f && v.dvsize > 0 && v.dv == lo then v'.dvsize == 0 else v'.dv == v.dv && v'.dvsize == v.dvsize
       else
         && v'.top == v.top && v'.topsize == v.topsize && FreeMap(v') == (f - {lo, n})[lo := hi - lo]
         && if v.dvsize > 0 && (v.dv == lo || v.dv == n) then v'.dv == lo && v'.dvsize == hi - lo
            else v'.dv == v.dv && v'.dvsize == v.dvsize
  }

  ghost predicate Merges(v: View, v': View, mem: nat, size: nat) {
    exists lo, hi :: Freed(v, v', mem, size, lo, hi)
  }

  /** After a free chunk comes one that knows it. */
  lemma FreeEnds(m: Arena, base: nat, tiles: seq<Tile>, x: nat)
    requires Sound(m, base, tiles) && Named(m, x)
    ensures var n := x + SizeAt(m.w, x); n in m.w.head && !m.w.head[n].pinuse
  {
    var a, t, b := FindFree(base, tiles, x);
    FreeIsFollowed(m, base, a, t, b);
    TileWords(m.w, base, a, t, b);
  }

  lemma NamesOf(m: Arena)
    requires DvOk(m)
    ensures forall x :: x in FreeMap(ViewOf(m)) <==> Named(m, x)
    ensures forall x :: x in FreeMap(ViewOf(m)) ==> FreeMap(ViewOf(m))[x] == SizeAt(m.w, x)
  {
  }

  /** The map of free chunks, read off the words. */
  lemma MapIs(m: Arena, f: map<nat, nat>)
    requires DvOk(m) && (forall x :: x in f <==> Named(m, x)) && forall x :: x in f ==> f[x] == SizeAt(m.w, x)
    ensures FreeMap(ViewOf(m)) == f
  {
    NamesOf(m);
  }

  lemma TopMap(m: Arena, m': Arena, mem: nat, size: nat, r: Region, f: map<nat, nat>)
    requires Around(m, mem, size, r) && Merged(m, m', r) && DvOk(m) && r.after == [] && f == FreeMap(ViewOf(m))
    ensures FreeMap(ViewOf(m')) == f - {r.p}
  {
    NamesOf(m);
    MapIs(m', f - {r.p});
  }

  lemma BinMap(m: Arena, m': Arena, mem: nat, size: nat, r: Region, f: map<nat, nat>)
    requires Around(m, mem, size, r) && Merged(m, m', r) && DvOk(m) && r.after != [] && f == FreeMap(ViewOf(m))
    ensures FreeMap(ViewOf(m')) == (f - {r.p, mem + size})[r.p := r.s]
  {
    NamesOf(m);
    assert SizeAt(m'.w, r.p) == r.s;
    MapIs(m', (f - {r.p, mem + size})[r.p := r.s]);
  }

  lemma FreedIs(m: Arena, m': Arena, base: nat, tiles: seq<Tile>, mem: nat, size: nat, r: Region)
    requires Sound(m, base, tiles) && Around(m, mem, size, r) && Merged(m, m', r) && Lands(m, m', r, mem + size)
    ensures Freed(ViewOf(m), ViewOf(m'), mem, size, r.p, r.p + r.s)
  {
    NamesOf(m);
    if r.after == [] {
      TopMap(m, m', mem, size, r, FreeMap(ViewOf(m)));
    } else {
      BinMap(m, m', mem, size, r, FreeMap(ViewOf(m)));
    }
    if !r.prev {
      forall x | x in FreeMap(ViewOf(m))
        ensures x + FreeMap(ViewOf(m))[x] != mem
      {
        FreeEnds(m, base, tiles, x);
      }
    }
  }
}
