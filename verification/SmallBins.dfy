/** dlmalloc's small bins: rings of free chunks of one size each, through a header in the state. */
module SmallBins {
  import opened Lists

  const SMALL_BINS: nat := 32

  /** A ring runs through the bin's own header, `smallbin_at`, and the chunks. */
  datatype Node = Bin(i: nat) | Chunk(x: nat)

  /** The node at a position of the ring of bin `i`, which begins and ends at the header. */
  function NodeAt(i: nat, list: seq<nat>, k: nat): Node {
    if 1 <= k <= |list| then Chunk(list[k - 1]) else Bin(i)
  }

  /** The pointers from the node at position `k` to the next and back. */
  predicate LinkedAt(fd: map<Node, Node>, bk: map<Node, Node>, i: nat, list: seq<nat>, k: nat) {
    && NodeAt(i, list, k) in fd && fd[NodeAt(i, list, k)] == NodeAt(i, list, k + 1)
    && NodeAt(i, list, k + 1) in bk && bk[NodeAt(i, list, k + 1)] == NodeAt(i, list, k)
  }

  /** The pointers lead through exactly the list, forwards by `fd` and backwards by `bk`. */
  predicate Ring(fd: map<Node, Node>, bk: map<Node, Node>, i: nat, list: seq<nat>) {
    forall k :: 0 <= k <= |list| ==> LinkedAt(fd, bk, i, list, k)
  }

  /** One bin: marked exactly when it has chunks, and then its pointers form their ring. What the
      header of an empty bin points to is left over from before. */
  predicate BinOk(fd: map<Node, Node>, bk: map<Node, Node>, i: nat, list: seq<nat>, marked: bool) {
    Distinct(list) && (marked <==> list != []) && (list != [] ==> Ring(fd, bk, i, list))
  }

  predicate BinsOk(fd: map<Node, Node>, bk: map<Node, Node>, smallmap: set<nat>, lists: seq<seq<nat>>) {
    && |lists| == SMALL_BINS && (forall i :: i in smallmap ==> i < SMALL_BINS)
    && (forall i :: 0 <= i < SMALL_BINS ==> BinOk(fd, bk, i, lists[i], i in smallmap))
    && (forall i, j, x :: 0 <= i < SMALL_BINS && 0 <= j < SMALL_BINS && x in lists[i] && x in lists[j] ==> i == j)
  }

  function Without(list: seq<nat>, x: nat): seq<nat> {
    if list == [] then [] else if list[0] == x then list[1..] else [list[0]] + Without(list[1..], x)
  }

  lemma {:induction false} WithoutAt(list: seq<nat>, j: nat)
    requires Distinct(list) && j < |list|
    ensures Without(list, list[j]) == list[..j] + list[j + 1..]
  {
    if j > 0 {
      WithoutAt(list[1..], j - 1);
      assert list == [list[0]] + list[1..];
    }
  }

  lemma {:induction false} WithoutIs(list: seq<nat>, x: nat)
    requires Distinct(list)
    ensures Distinct(Without(list, x)) && forall y :: y in Without(list, x) <==> y in list && y != x
  {
    if list != [] {
      var rest := list[1..];
      assert forall i :: 0 <= i < |rest| ==> rest[i] == list[i + 1];
      assert list[0] !in rest;
      assert forall y :: y in list <==> y == list[0] || y in rest;
      WithoutIs(rest, x);
      if list[0] != x {
        var w := [list[0]] + Without(rest, x);
        assert w == Without(list, x);
        assert forall i :: 0 < i < |w| ==> w[i] == Without(rest, x)[i - 1];
      }
    }
  }

  /** Different positions of a ring are different nodes. */
  lemma NodesApart(i: nat, list: seq<nat>, k: nat, l: nat)
    requires Distinct(list) && k < l <= |list|
    ensures NodeAt(i, list, k) != NodeAt(i, list, l)
  {
  }

  // ----- insertion

  /** The writes of `insert_small_chunk`; `f` is the header of an empty bin, else its first chunk. */
  function InsertFd(fd: map<Node, Node>, i: nat, x: nat, f: Node): map<Node, Node> {
    fd[Bin(i) := Chunk(x)][Chunk(x) := f]
  }

  function InsertBk(bk: map<Node, Node>, i: nat, x: nat, f: Node): map<Node, Node> {
    bk[f := Chunk(x)][Chunk(x) := Bin(i)]
  }

  lemma InsertedAt(fd: map<Node, Node>, bk: map<Node, Node>, i: nat, list: seq<nat>, x: nat, k: nat)
    requires Distinct(list) && x !in list && (list != [] ==> Ring(fd, bk, i, list)) && k <= |list| + 1
    ensures var f := NodeAt(i, list, 1); LinkedAt(InsertFd(fd, i, x, f), InsertBk(bk, i, x, f), i, [x] + list, k)
  {
    var list' := [x] + list;
    if k >= 2 {
      assert NodeAt(i, list', k) == NodeAt(i, list, k - 1) && NodeAt(i, list', k + 1) == NodeAt(i, list, k);
      assert LinkedAt(fd, bk, i, list, k - 1);
      if k <= |list| {
        NodesApart(i, list, 1, k);
      }
    } else {
      assert NodeAt(i, list', 0) == Bin(i) && NodeAt(i, list', 1) == Chunk(x)
             && NodeAt(i, list', 2) == NodeAt(i, list, 1);
    }
  }

  lemma InsertedRing(fd: map<Node, Node>, bk: map<Node, Node>, i: nat, list: seq<nat>, x: nat)
    requires Distinct(list) && x !in list && (list != [] ==> Ring(fd, bk, i, list))
    ensures var f := NodeAt(i, list, 1); BinOk(InsertFd(fd, i, x, f), InsertBk(bk, i, x, f), i, [x] + list, true)
  {
    var f, list' := NodeAt(i, list, 1), [x] + list;
    forall k | 0 <= k <= |list'|
      ensures LinkedAt(InsertFd(fd, i, x, f), InsertBk(bk, i, x, f), i, list', k)
    {
      InsertedAt(fd, bk, i, list, x, k);
    }
    assert forall k :: 0 < k < |list'| ==> list'[k] == list[k - 1];
  }

  // ----- unlinking

  /** The writes of `unlink_small_chunk` when the ring has other chunks. */
  function UnlinkFd(fd: map<Node, Node>, b: Node, f: Node): map<Node, Node> {
    fd[b := f]
  }

  function UnlinkBk(bk: map<Node, Node>, b: Node, f: Node): map<Node, Node> {
    bk[f := b]
  }

  lemma UnlinkedAt(fd: map<Node, Node>, bk: map<Node, Node>, i: nat, list: seq<nat>, j: nat, k: nat)
    requires Distinct(list) && j < |list| && |list| > 1 && Ring(fd, bk, i, list) && k < |list|
    ensures var b, f := NodeAt(i, list, j), NodeAt(i, list, j + 2);
            LinkedAt(UnlinkFd(fd, b, f), UnlinkBk(bk, b, f), i, list[..j] + list[j + 1..], k)
  {
    var list' := list[..j] + list[j + 1..];
    assert forall l :: 0 <= l <= j ==> NodeAt(i, list', l) == NodeAt(i, list, l);
    assert forall l :: j < l <= |list| ==> NodeAt(i, list', l) == NodeAt(i, list, l + 1);
    if k < j {
      assert LinkedAt(fd, bk, i, list, k);
      NodesApart(i, list, k, j);
      UnlinkedBack(i, list, j, k + 1);
    } else if k > j {
      assert LinkedAt(fd, bk, i, list, k + 1);
      NodesApart(i, list, j, k + 1);
      UnlinkedBack(i, list, j, k + 2);
    }
  }

  /** The node after `x` is the only one whose `bk` is written. */
  lemma UnlinkedBack(i: nat, list: seq<nat>, j: nat, l: nat)
    requires Distinct(list) && j < |list| && |list| > 1 && 0 < l <= |list| + 1 && l != j + 2 && l != j + 1
    ensures NodeAt(i, list, l) != NodeAt(i, list, j + 2)
  {
  }

  lemma UnlinkedRing(fd: map<Node, Node>, bk: map<Node, Node>, i: nat, list: seq<nat>, x: nat)
    requires Distinct(list) && x in list && |list| > 1 && Ring(fd, bk, i, list)
    ensures Chunk(x) in fd && Chunk(x) in bk && fd[Chunk(x)] != bk[Chunk(x)]
    ensures var b, f := bk[Chunk(x)], fd[Chunk(x)];
            BinOk(UnlinkFd(fd, b, f), UnlinkBk(bk, b, f), i, Without(list, x), true)
  {
    var j :| 0 <= j < |list| && list[j] == x;
    assert LinkedAt(fd, bk, i, list, j) && LinkedAt(fd, bk, i, list, j + 1);
    WithoutAt(list, j);
    WithoutIs(list, x);
    var b, f := NodeAt(i, list, j), NodeAt(i, list, j + 2);
    forall k | 0 <= k <= |list| - 1
      ensures LinkedAt(UnlinkFd(fd, b, f), UnlinkBk(bk, b, f), i, Without(list, x), k)
    {
      UnlinkedAt(fd, bk, i, list, j, k);
    }
  }

  /** The only chunk of a bin has the header on both sides. */
  lemma AloneRing(fd: map<Node, Node>, bk: map<Node, Node>, i: nat, list: seq<nat>, x: nat)
    requires x in list && |list| == 1 && Ring(fd, bk, i, list)
    ensures Chunk(x) in fd && Chunk(x) in bk && fd[Chunk(x)] == bk[Chunk(x)] && Without(list, x) == []
  {
    assert LinkedAt(fd, bk, i, list, 0) && LinkedAt(fd, bk, i, list, 1);
  }

  // ----- all bins

  /** A node of another bin's ring. */
  predicate Elsewhere(n: Node, i: nat, lists: seq<seq<nat>>)
    requires |lists| == SMALL_BINS
  {
    match n
    case Bin(j) => j != i
    case Chunk(x) => exists j :: 0 <= j < SMALL_BINS && j != i && x in lists[j]
  }

  /** Pointers kept at the nodes of the other bins keep their rings. */
  lemma OtherRingKept(fd: map<Node, Node>, bk: map<Node, Node>, fd': map<Node, Node>, bk': map<Node, Node>,
                      lists: seq<seq<nat>>, i: nat, j: nat)
    requires |lists| == SMALL_BINS && j < SMALL_BINS && j != i && Ring(fd, bk, j, lists[j])
    requires forall n :: Elsewhere(n, i, lists) && n in fd ==> n in fd' && fd'[n] == fd[n]
    requires forall n :: Elsewhere(n, i, lists) && n in bk ==> n in bk' && bk'[n] == bk[n]
    ensures Ring(fd', bk', j, lists[j])
  {
    forall k | 0 <= k <= |lists[j]|
      ensures LinkedAt(fd', bk', j, lists[j], k)
    {
      assert LinkedAt(fd, bk, j, lists[j], k);
      NodeElsewhere(lists, i, j, k);
      NodeElsewhere(lists, i, j, k + 1);
    }
  }

  lemma NodeElsewhere(lists: seq<seq<nat>>, i: nat, j: nat, k: nat)
    requires |lists| == SMALL_BINS && j < SMALL_BINS && j != i
    ensures Elsewhere(NodeAt(j, lists[j], k), i, lists)
  {
    if 1 <= k <= |lists[j]| {
      assert lists[j][k - 1] in lists[j];
    }
  }

  /** One bin changes, with the pointers of the others kept. */
  lemma OneBinChanged(fd: map<Node, Node>, bk: map<Node, Node>, smallmap: set<nat>, lists: seq<seq<nat>>, i: nat,
                      fd': map<Node, Node>, bk': map<Node, Node>, smallmap': set<nat>, list': seq<nat>)
    requires BinsOk(fd, bk, smallmap, lists) && i < SMALL_BINS && BinOk(fd', bk', i, list', i in smallmap')
    requires forall j :: j != i ==> (j in smallmap' <==> j in smallmap)
    requires forall n :: Elsewhere(n, i, lists) && n in fd ==> n in fd' && fd'[n] == fd[n]
    requires forall n :: Elsewhere(n, i, lists) && n in bk ==> n in bk' && bk'[n] == bk[n]
    requires forall j, x :: 0 <= j < SMALL_BINS && j != i && x in lists[j] ==> x !in list'
    ensures BinsOk(fd', bk', smallmap', lists[i := list'])
  {
    forall j | 0 <= j < SMALL_BINS
      ensures BinOk(fd', bk', j, lists[i := list'][j], j in smallmap')
    {
      if j != i {
        assert BinOk(fd, bk, j, lists[j], j in smallmap);
        if lists[j] != [] {
          OtherRingKept(fd, bk, fd', bk', lists, i, j);
        }
      }
    }
  }

  /** Insertion writes only the header, its first chunk and the new chunk. */
  lemma InsertedBins(fd: map<Node, Node>, bk: map<Node, Node>, smallmap: set<nat>, lists: seq<seq<nat>>, i: nat,
                     x: nat, f: Node)
    requires BinsOk(fd, bk, smallmap, lists) && i < SMALL_BINS && f == NodeAt(i, lists[i], 1)
    requires forall j :: 0 <= j < SMALL_BINS ==> x !in lists[j]
    ensures BinsOk(InsertFd(fd, i, x, f), InsertBk(bk, i, x, f), smallmap + {i}, lists[i := [x] + lists[i]])
  {
    var list := lists[i];
    assert BinOk(fd, bk, i, list, i in smallmap);
    InsertedRing(fd, bk, i, list, x);
    OwnNode(lists, i, 1);
    OneBinChanged(fd, bk, smallmap, lists, i, InsertFd(fd, i, x, f), InsertBk(bk, i, x, f), smallmap + {i}, [x] + list);
  }

  /** A node of a ring is in no other. */
  lemma OwnNode(lists: seq<seq<nat>>, i: nat, k: nat)
    requires |lists| == SMALL_BINS && i < SMALL_BINS
    requires forall i, j, x :: 0 <= i < SMALL_BINS && 0 <= j < SMALL_BINS && x in lists[i] && x in lists[j] ==> i == j
    ensures !Elsewhere(NodeAt(i, lists[i], k), i, lists)
  {
    if 1 <= k <= |lists[i]| {
      assert lists[i][k - 1] in lists[i];
    }
  }

  /** Unlinking writes only the chunk's neighbours. */
  lemma UnlinkedBins(fd: map<Node, Node>, bk: map<Node, Node>, smallmap: set<nat>, lists: seq<seq<nat>>, i: nat, x: nat)
    requires BinsOk(fd, bk, smallmap, lists) && i < SMALL_BINS && x in lists[i]
    ensures Chunk(x) in fd && Chunk(x) in bk
    ensures var b, f := bk[Chunk(x)], fd[Chunk(x)];
            if b == f
            then BinsOk(fd, bk, smallmap - {i}, lists[i := Without(lists[i], x)])
            else BinsOk(UnlinkFd(fd, b, f), UnlinkBk(bk, b, f), smallmap, lists[i := Without(lists[i], x)])
  {
    var list := lists[i];
    assert BinOk(fd, bk, i, list, i in smallmap);
    WithoutIs(list, x);
    if |list| == 1 {
      AloneRing(fd, bk, i, list, x);
      OneBinChanged(fd, bk, smallmap, lists, i, fd, bk, smallmap - {i}, Without(list, x));
    } else {
      UnlinkedRing(fd, bk, i, list, x);
      NeighboursOwn(fd, bk, lists, i, x);
      var b, f := bk[Chunk(x)], fd[Chunk(x)];
      OneBinChanged(fd, bk, smallmap, lists, i, UnlinkFd(fd, b, f), UnlinkBk(bk, b, f), smallmap, Without(list, x));
    }
  }

  lemma NeighboursOwn(fd: map<Node, Node>, bk: map<Node, Node>, lists: seq<seq<nat>>, i: nat, x: nat)
    requires |lists| == SMALL_BINS && i < SMALL_BINS && x in lists[i] && Ring(fd, bk, i, lists[i])
    requires forall i, j, x :: 0 <= i < SMALL_BINS && 0 <= j < SMALL_BINS && x in lists[i] && x in lists[j] ==> i == j
    ensures Chunk(x) in fd && Chunk(x) in bk
    ensures !Elsewhere(fd[Chunk(x)], i, lists) && !Elsewhere(bk[Chunk(x)], i, lists)
  {
    var j :| 0 <= j < |lists[i]| && lists[i][j] == x;
    assert LinkedAt(fd, bk, i, lists[i], j) && LinkedAt(fd, bk, i, lists[i], j + 1);
    OwnNode(lists, i, j);
    OwnNode(lists, i, j + 2);
  }

  class Rings {
    var fd: map<Node, Node>
    var bk: map<Node, Node>
    var smallmap: set<nat>
    /** Each bin's chunks, from the front. */
    ghost var lists: seq<seq<nat>>

    ghost predicate Valid()
      reads this
    {
      BinsOk(fd, bk, smallmap, lists)
    }

    /** All bins empty; `init_bins` makes every header point to itself. */
    constructor ()
      ensures Valid() && lists == seq(SMALL_BINS, i => [])
    {
      fd := map i | 0 <= i < SMALL_BINS :: Bin(i) := Bin(i);
      bk := map i | 0 <= i < SMALL_BINS :: Bin(i) := Bin(i);
      smallmap := {};
      lists := seq(SMALL_BINS, i => []);
    }

    lemma MarkedIff(i: nat)
      requires Valid() && i < SMALL_BINS
      ensures i in smallmap <==> lists[i] != []
    {
      assert BinOk(fd, bk, i, lists[i], i in smallmap);
    }

    /** The front chunk of a marked bin. */
    method First(i: nat) returns (x: nat)
      requires Valid() && i in smallmap
      ensures i < SMALL_BINS && lists[i] != [] && x == lists[i][0]
    {
      assert BinOk(fd, bk, i, lists[i], i in smallmap);
      assert LinkedAt(fd, bk, i, lists[i], 0);
      x := fd[Bin(i)].x;
    }

    /** `insert_small_chunk`: the chunk goes to the front. */
    method Insert(i: nat, x: nat)
      requires Valid() && i < SMALL_BINS && forall j :: 0 <= j < SMALL_BINS ==> x !in lists[j]
      modifies this
      ensures Valid() && lists == old(lists)[i := [x] + old(lists)[i]]
    {
      assert BinOk(fd, bk, i, lists[i], i in smallmap);
      var f := Bin(i);
      if i in smallmap {
        assert LinkedAt(fd, bk, i, lists[i], 0);
        f := fd[Bin(i)];
      }
      InsertedBins(fd, bk, smallmap, lists, i, x, f);
      smallmap := smallmap + {i};
      fd := fd[Bin(i) := Chunk(x)];
      bk := bk[f := Chunk(x)];
      fd := fd[Chunk(x) := f];
      bk := bk[Chunk(x) := Bin(i)];
      lists := lists[i := [x] + lists[i]];
    }

    /** `unlink_small_chunk`, and for a front chunk `unlink_first_small_chunk`, which writes the same. */
    method Unlink(i: nat, x: nat)
      requires Valid() && i < SMALL_BINS && x in lists[i]
      modifies this
      ensures Valid() && lists == old(lists)[i := Without(old(lists)[i], x)]
    {
      UnlinkedBins(fd, bk, smallmap, lists, i, x);
      var f, b := fd[Chunk(x)], bk[Chunk(x)];
      if b == f {
        smallmap := smallmap - {i};
      } else {
        bk := bk[f := b];
        fd := fd[b := f];
      }
      lists := lists[i := Without(lists[i], x)];
    }

    /** The first marked bin from `from` on (`least_bit` of the map). */
    method NextMarked(from: nat) returns (i: nat)
      requires Valid() && from <= SMALL_BINS
      ensures from <= i <= SMALL_BINS && (i < SMALL_BINS ==> i in smallmap)
      ensures forall j :: from <= j < i ==> lists[j] == []
    {
      i := from;
      while i < SMALL_BINS && i !in smallmap
        invariant from <= i <= SMALL_BINS && forall j :: from <= j < i ==> lists[j] == []
      {
        assert BinOk(fd, bk, i, lists[i], i in smallmap);
        i := i + 1;
      }
    }
  }
}
