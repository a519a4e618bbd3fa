/** ltalloc's compressed radix tree of system allocations, as a value: keys are addresses, and every
    node is a fork that holds two children, each a fork, a stored size, or nothing.

    A machine word is the set of the positions of its one bits. */
module PatriciaTrie {
  import opened BitmapFields

  /** A key has its low eight bits clear. */
  predicate IsKey(k: Word) {
    forall j :: j in k ==> 8 <= j < BITS
  }

  function Xor(a: Word, b: Word): (x: Word)
    ensures forall j :: j in x <==> (j in a) != (j in b)
  {
    (a - b) + (b - a)
  }

  /** The bits of a word above position `i`. */
  function Above(w: Word, i: nat): Word {
    set j | j in w && j > i
  }

  /** The highest position at which two words differ (`BSR` of their xor). */
  function TopDiff(a: Word, b: Word): (i: nat)
    requires IsWord(a) && IsWord(b) && a != b
    ensures i < BITS && (i in a) != (i in b) && Above(a, i) == Above(b, i)
  {
    var x := Xor(a, b);
    DiffersSomewhere(a, b);
    var i := HighestOne(x, BITS);
    SameAbove(a, b, i);
    i
  }

  lemma DiffersSomewhere(a: Word, b: Word)
    requires IsWord(a) && IsWord(b) && a != b
    ensures HasOne(Xor(a, b), BITS)
  {
    if forall j :: j in Xor(a, b) ==> j >= BITS {
      assert forall j :: j in a <==> j in b;
    }
  }

  lemma SameAbove(a: Word, b: Word, i: nat)
    requires IsWord(a) && IsWord(b) && forall j :: i < j < BITS ==> j !in Xor(a, b)
    ensures Above(a, i) == Above(b, i)
  {
    forall j: nat | j > i
      ensures j in a <==> j in b
    {
      assert j in Xor(a, b) <==> (j in a) != (j in b);
    }
  }

  // ----- tries

  datatype Trie =
    | Null
    | Leaf(key: Word, value: nat)
    | Fork(ref: nat, index: nat, prefix: Word, left: Trie, right: Trie)

  /** The finite map a trie stands for. */
  ghost function Entries(t: Trie): map<Word, nat> {
    match t
    case Null => map[]
    case Leaf(k, v) => map[k := v]
    case Fork(_, _, _, l, r) => Entries(l) + Entries(r)
  }

  /** Every key of the map has the prefix above `index` and the given bit at it. */
  ghost predicate Under(m: map<Word, nat>, prefix: Word, index: nat, bit: bool) {
    forall k :: k in m ==> Above(k, index) == prefix && (index in k <==> bit)
  }

  ghost predicate Wf(t: Trie) {
    match t
    case Null => true
    case Leaf(k, v) => IsKey(k) && v > 0
    case Fork(_, i, p, l, r) =>
      && Wf(l) && Wf(r)
      && (i == 0 || 8 <= i < BITS) && IsWord(p)
      && Under(Entries(l), p, i, false) && Under(Entries(r), p, i, true)
  }

  function Nulls(t: Trie): nat {
    match t
    case Null => 1
    case Leaf(_, _) => 0
    case Fork(_, _, _, l, r) => Nulls(l) + Nulls(r)
  }

  /** The nodes of a trie. */
  function Foot(t: Trie): set<nat> {
    match t
    case Null => {}
    case Leaf(_, _) => {}
    case Fork(ref, _, _, l, r) => {ref} + Foot(l) + Foot(r)
  }

  /** No node occurs twice. */
  predicate Unshared(t: Trie) {
    match t
    case Null => true
    case Leaf(_, _) => true
    case Fork(ref, _, _, l, r) => Unshared(l) && Unshared(r) && ref !in Foot(l) && ref !in Foot(r) && Foot(l) !! Foot(r)
  }

  lemma {:induction false} KeysAreKeys(t: Trie)
    requires Wf(t)
    ensures forall k :: k in Entries(t) ==> IsKey(k) && Entries(t)[k] > 0
  {
    match t
    case Null =>
    case Leaf(k, v) =>
    case Fork(_, _, _, l, r) =>
      KeysAreKeys(l);
      KeysAreKeys(r);
  }

  /** One key more than nodes for each trie without its empty child: a trie with one empty child
      has as many nodes as keys. */
  lemma {:induction false} NodesCountKeys(t: Trie)
    requires Wf(t) && Unshared(t)
    ensures |Foot(t)| + 1 == |Entries(t)| + Nulls(t)
  {
    match t
    case Null =>
    case Leaf(k, v) =>
    case Fork(ref, i, p, l, r) =>
      NodesCountKeys(l);
      NodesCountKeys(r);
      assert Entries(l).Keys !! Entries(r).Keys;
      assert (Entries(l) + Entries(r)).Keys == Entries(l).Keys + Entries(r).Keys;
      assert |Foot(t)| == 1 + |Foot(l) + Foot(r)|;
      SumOfSizes(Entries(l), Entries(r));
  }

  lemma SumOfSizes(a: map<Word, nat>, b: map<Word, nat>)
    requires a.Keys !! b.Keys
    ensures |a + b| == |a| + |b|
  {
    assert (a + b).Keys == a.Keys + b.Keys;
    assert |(a + b).Keys| == |a.Keys| + |b.Keys|;
    assert |a.Keys| == |a| && |b.Keys| == |b| && |(a + b).Keys| == |a + b|;
  }

  // ----- the walk of a lookup

  /** The child that `key` selects. */
  function Branch(t: Trie, key: Word): Trie
    requires t.Fork?
  {
    if t.index in key then t.right else t.left
  }

  function Other(t: Trie, key: Word): Trie
    requires t.Fork?
  {
    if t.index in key then t.left else t.right
  }

  function WithBranch(t: Trie, key: Word, s: Trie): Trie
    requires t.Fork?
  {
    if t.index in key then t.(right := s) else t.(left := s)
  }

  /** Where the bits of `key` lead, whatever the prefixes say. */
  function End(t: Trie, key: Word): (e: Trie)
    ensures !e.Fork?
  {
    if t.Fork? then End(Branch(t, key), key) else t
  }

  /** The walk ends at the key when the trie has it, and otherwise at nothing or at another key
      that the trie has. */
  lemma {:induction false} EndDecides(t: Trie, key: Word)
    requires Wf(t)
    ensures key in Entries(t) <==> End(t, key).Leaf? && End(t, key).key == key
    ensures End(t, key).Leaf? ==>
              End(t, key).key in Entries(t) && Entries(t)[End(t, key).key] == End(t, key).value > 0
  {
    if t.Fork? {
      EndDecides(Branch(t, key), key);
    }
  }

  // ----- insertion

  /** A stored size; a size of 0 is the same as no child. */
  function Stored(key: Word, value: nat): Trie {
    if value == 0 then Null else Leaf(key, value)
  }

  /** A new node over `t` and a new leaf, branching at `index`. */
  function Join(ref: nat, index: nat, key: Word, value: nat, t: Trie): Trie {
    if index in key then
      Fork(ref, index, Above(key, index), t, Stored(key, value))
    else
      Fork(ref, index, Above(key, index), Stored(key, value), t)
  }

  /** The word a new key is compared with at a leaf or a fork. */
  function Stem(t: Trie): Word
    requires !t.Null?
  {
    if t.Leaf? then t.key else t.prefix
  }

  /** The key's part that is compared. */
  function Compared(t: Trie, key: Word): Word
    requires !t.Null?
  {
    if t.Leaf? then key else Above(key, t.index)
  }

  ghost function Put(t: Trie, key: Word, value: nat, ref: nat): Trie
    requires Wf(t) && IsWord(key)
    decreases t
  {
    if t.Null? then
      Fork(ref, 0, Above(key, 0), Stored(key, value), Null)
    else if Compared(t, key) != Stem(t) then
      Join(ref, TopDiff(Compared(t, key), Stem(t)), key, value, t)
    else if t.Leaf? then
      t
    else
      WithBranch(t, key, Put(Branch(t, key), key, value, ref))
  }

  /** Two keys that differ do so at a bit of a key. */
  lemma TopDiffRange(t: Trie, key: Word)
    requires Wf(t) && IsKey(key) && !t.Null? && Compared(t, key) != Stem(t)
    requires forall k :: k in Entries(t) ==> IsKey(k)
    requires exists k :: k in Entries(t)
    ensures 8 <= TopDiff(Compared(t, key), Stem(t)) < BITS
    ensures t.Fork? ==> TopDiff(Compared(t, key), Stem(t)) > t.index
  {
    var i := TopDiff(Compared(t, key), Stem(t));
    var k :| k in Entries(t);
    assert t.Fork? ==> Above(k, t.index) == t.prefix;
  }

  /** Every key below a fork or leaf leaves the new key at the same position. */
  lemma JoinSeparates(t: Trie, key: Word, k: Word)
    requires Wf(t) && IsWord(key) && !t.Null? && Compared(t, key) != Stem(t) && k in Entries(t)
    requires t.Fork? ==> TopDiff(Compared(t, key), Stem(t)) > t.index
    ensures var i := TopDiff(Compared(t, key), Stem(t));
            (i in k) != (i in key) && Above(k, i) == Above(key, i)
  {
    var i := TopDiff(Compared(t, key), Stem(t));
    if t.Fork? {
      var p := t.prefix;
      assert Above(k, t.index) == p;
      assert i in k <==> i in p;
      AboveAbove(k, t.index, i);
      AboveAbove(key, t.index, i);
    }
  }

  lemma AboveAbove(w: Word, i: nat, j: nat)
    requires i <= j
    ensures Above(Above(w, i), j) == Above(w, j)
  {
  }

  /** A fork with at most one empty child has a key. */
  lemma {:induction false} ForkHasKey(t: Trie)
    requires t.Leaf? || (t.Fork? && Nulls(t) <= 1)
    ensures exists k :: k in Entries(t)
  {
    if t.Leaf? {
      assert t.key in Entries(t);
    } else if t.left.Null? {
      assert !t.right.Null?;
      ForkHasKey(t.right);
      var k :| k in Entries(t.right);
      assert k in Entries(t);
    } else {
      ForkHasKey(t.left);
      var k :| k in Entries(t.left);
      assert k in Entries(t);
    }
  }

  lemma JoinKeeps(t: Trie, key: Word, value: nat, ref: nat, i: nat)
    requires Wf(t) && IsKey(key) && value > 0 && 8 <= i < BITS
    requires forall k :: k in Entries(t) ==> (i in k) != (i in key) && Above(k, i) == Above(key, i)
    ensures Wf(Join(ref, i, key, value, t)) && Nulls(Join(ref, i, key, value, t)) == Nulls(t)
    ensures Entries(Join(ref, i, key, value, t)) == Entries(t)[key := value]
  {
    var leaf := Leaf(key, value);
    assert Entries(leaf) == map[key := value];
    assert Under(Entries(leaf), Above(key, i), i, i in key);
    assert Under(Entries(t), Above(key, i), i, i !in key);
    assert key !in Entries(t);
  }

  lemma BranchAdds(t: Trie, key: Word, value: nat, s: Trie)
    requires Wf(t) && t.Fork? && Above(key, t.index) == t.prefix && Wf(s)
    requires key !in Entries(t) && Entries(s) == Entries(Branch(t, key))[key := value]
    ensures Wf(WithBranch(t, key, s)) && Entries(WithBranch(t, key, s)) == Entries(t)[key := value]
  {
    var m, i := Entries(s), t.index;
    assert Under(m, t.prefix, i, i in key) by {
      forall k | k in m
        ensures Above(k, i) == t.prefix && (i in k <==> i in key)
      {
        assert k == key || k in Entries(Branch(t, key));
      }
    }
    UnionAdds(Entries(t.left), Entries(t.right), key, value, i in key);
  }

  lemma UnionAdds(a: map<Word, nat>, b: map<Word, nat>, key: Word, value: nat, inRight: bool)
    requires key !in a && key !in b
    ensures (if inRight then a + b[key := value] else a[key := value] + b) == (a + b)[key := value]
  {
  }

  /** A fresh insertion keeps the trie's shape and adds exactly one entry. */
  lemma {:induction false} PutKeeps(t: Trie, key: Word, value: nat, ref: nat)
    requires Wf(t) && Nulls(t) <= 1 && IsKey(key) && value > 0 && key !in Entries(t)
    ensures Wf(Put(t, key, value, ref)) && Nulls(Put(t, key, value, ref)) == Nulls(t)
    ensures Entries(Put(t, key, value, ref)) == Entries(t)[key := value]
  {
    if t.Null? {
      var u := Put(t, key, value, ref);
      assert Entries(u.left) == map[key := value] && Entries(u.right) == map[];
    } else if Compared(t, key) != Stem(t) {
      KeysAreKeys(t);
      ForkHasKey(t);
      TopDiffRange(t, key);
      forall k | k in Entries(t)
        ensures var i := TopDiff(Compared(t, key), Stem(t)); (i in k) != (i in key) && Above(k, i) == Above(key, i)
      {
        JoinSeparates(t, key, k);
      }
      JoinKeeps(t, key, value, ref, TopDiff(Compared(t, key), Stem(t)));
    } else if t.Fork? {
      PutKeeps(Branch(t, key), key, value, ref);
      BranchAdds(t, key, value, Put(Branch(t, key), key, value, ref));
    }
  }

  /** A size of 0 is stored as a second empty child. */
  lemma {:induction false} ZeroAddsNull(t: Trie, key: Word, ref: nat)
    requires Wf(t) && IsKey(key) && key !in Entries(t)
    ensures Nulls(Put(t, key, 0, ref)) == Nulls(t) + 1
  {
    if !t.Null? && Compared(t, key) == Stem(t) && t.Fork? {
      ZeroAddsNull(Branch(t, key), key, ref);
    }
  }

  /** An insertion makes exactly one node. */
  lemma {:induction false} PutFoot(t: Trie, key: Word, value: nat, ref: nat)
    requires Wf(t) && IsKey(key) && key !in Entries(t) && Unshared(t) && ref !in Foot(t)
    ensures Unshared(Put(t, key, value, ref)) && Foot(Put(t, key, value, ref)) == Foot(t) + {ref}
  {
    if !t.Null? && Compared(t, key) == Stem(t) && t.Fork? {
      PutFoot(Branch(t, key), key, value, ref);
    }
  }

  // ----- removal

  ghost function Del(t: Trie, key: Word): Trie
    requires t.Fork?
    decreases t
  {
    if Branch(t, key).Fork? then WithBranch(t, key, Del(Branch(t, key), key)) else Other(t, key)
  }

  /** The node that a removal frees. */
  ghost function Freed(t: Trie, key: Word): nat
    requires t.Fork?
    decreases t
  {
    if Branch(t, key).Fork? then Freed(Branch(t, key), key) else t.ref
  }

  /** The side a present key is on, and the entries without it. */
  lemma BranchDrops(t: Trie, key: Word, s: Trie)
    requires Wf(t) && t.Fork? && key in Entries(t) && Wf(s)
    requires Entries(s) == Entries(Branch(t, key)) - {key}
    ensures key in Entries(Branch(t, key)) && key !in Entries(Other(t, key))
    ensures Wf(WithBranch(t, key, s)) && Entries(WithBranch(t, key, s)) == Entries(t) - {key}
  {
    var m, i := Entries(s), t.index;
    assert Under(m, t.prefix, i, i in key) by {
      forall k | k in m
        ensures Above(k, i) == t.prefix && (i in k <==> i in key)
      {
        assert k in Entries(Branch(t, key));
      }
    }
    UnionDrops(Entries(t.left), Entries(t.right), key, i in key);
  }

  lemma UnionDrops(a: map<Word, nat>, b: map<Word, nat>, key: Word, inRight: bool)
    requires if inRight then key !in a else key !in b
    ensures (if inRight then a + (b - {key}) else (a - {key}) + b) == (a + b) - {key}
  {
  }

  /** A removal of a present key keeps the trie's shape and drops exactly that entry. */
  lemma {:induction false} DelKeeps(t: Trie, key: Word)
    requires Wf(t) && t.Fork? && key in Entries(t)
    ensures Wf(Del(t, key)) && Nulls(Del(t, key)) == Nulls(t)
    ensures Entries(Del(t, key)) == Entries(t) - {key}
  {
    var c := Branch(t, key);
    assert key in Entries(c) && key !in Entries(Other(t, key));
    if c.Fork? {
      DelKeeps(c, key);
      BranchDrops(t, key, Del(c, key));
    } else {
      assert Entries(c) == map[key := c.value];
    }
  }

  /** A removal frees exactly one node of the trie. */
  lemma {:induction false} DelFoot(t: Trie, key: Word)
    requires t.Fork? && Unshared(t)
    ensures Freed(t, key) in Foot(t)
    ensures Unshared(Del(t, key)) && Foot(Del(t, key)) == Foot(t) - {Freed(t, key)}
  {
    if Branch(t, key).Fork? {
      DelFoot(Branch(t, key), key);
    } else {
      assert Foot(t) == {t.ref} + Foot(Other(t, key));
    }
  }

  // ----- runs

  datatype Op = Add(key: Word, value: nat, ref: nat) | Drop(key: Word)

  /** Each insertion is of a key and a node not yet in use, each removal of a key that is there. */
  ghost predicate Fits(t: Trie, op: Op) {
    match op
    case Add(k, v, ref) => IsKey(k) && v > 0 && k !in Entries(t) && ref !in Foot(t)
    case Drop(k) => k in Entries(t)
  }

  ghost function MapStep(m: map<Word, nat>, op: Op): map<Word, nat> {
    match op
    case Add(k, v, _) => m[k := v]
    case Drop(k) => m - {k}
  }

  ghost function MapAfter(m: map<Word, nat>, ops: seq<Op>): map<Word, nat>
    decreases |ops|
  {
    if ops == [] then m else MapAfter(MapStep(m, ops[0]), ops[1..])
  }

  ghost predicate Valid(t: Trie) {
    Wf(t) && Unshared(t) && Nulls(t) == 1
  }

  /** A valid trie is never a bare leaf, so a key to remove is below a fork. */
  lemma PresentIsFork(t: Trie, key: Word)
    requires Valid(t) && key in Entries(t)
    ensures t.Fork?
  {
  }

  ghost function TrieStep(t: Trie, op: Op): (u: Trie)
    requires Valid(t) && Fits(t, op)
    ensures Valid(u)
  {
    match op
    case Add(k, v, ref) =>
      PutKeeps(t, k, v, ref);
      PutFoot(t, k, v, ref);
      Put(t, k, v, ref)
    case Drop(k) =>
      PresentIsFork(t, k);
      DelKeeps(t, k);
      DelFoot(t, k);
      Del(t, k)
  }

  /** `u` follows from `t` by the operations, each of which fits where it is made. */
  ghost predicate Run(t: Trie, ops: seq<Op>, u: Trie)
    requires Valid(t)
    decreases |ops|
  {
    if ops == [] then
      u == t
    else
      Fits(t, ops[0]) && Run(TrieStep(t, ops[0]), ops[1..], u)
  }

  lemma StepKeeps(t: Trie, op: Op)
    requires Valid(t) && Fits(t, op)
    ensures Entries(TrieStep(t, op)) == MapStep(Entries(t), op)
  {
    match op
    case Add(k, v, ref) =>
      PutKeeps(t, k, v, ref);
    case Drop(k) =>
      PresentIsFork(t, k);
      DelKeeps(t, k);
  }

  /** Over every run the trie stands for the map that the same operations make of its first one,
      a lookup answers from that map, and there are as many nodes as keys. */
  lemma {:induction false} RunsRefineMaps(t: Trie, ops: seq<Op>, u: Trie)
    requires Valid(t) && Run(t, ops, u)
    ensures Valid(u) && Entries(u) == MapAfter(Entries(t), ops)
    ensures forall k :: k in MapAfter(Entries(t), ops) ==> End(u, k) == Leaf(k, MapAfter(Entries(t), ops)[k])
    ensures |Foot(u)| == |MapAfter(Entries(t), ops)|
    decreases |ops|
  {
    if ops == [] {
      forall k | k in Entries(t)
        ensures End(t, k) == Leaf(k, Entries(t)[k])
      {
        EndDecides(t, k);
      }
      NodesCountKeys(t);
    } else {
      StepKeeps(t, ops[0]);
      RunsRefineMaps(TrieStep(t, ops[0]), ops[1..], u);
    }
  }
}
