/** The free list of one pool bucket at the granularity of whole calls: `Create`, `Alloc` and
    `FreeInterval` on the links kept in the free blocks themselves. */
module PoolBuckets {
  import opened Lists
  import opened Arithmetic
  import opened TaggedFreeList

  /** The blocks reached from a link, in order. */
  ghost predicate Chain(link: Link, mem: map<nat, Link>, list: seq<nat>)
    decreases |list|
  {
    if list == [] then
      link == Invalid
    else
      link.To? && link.name.block == list[0] && list[0] in mem && Chain(mem[list[0]], mem, list[1..])
  }

  /** Each block of a run but the last links to the next. */
  ghost predicate Linked(mem: map<nat, Link>, run: seq<nat>) {
    forall i :: 0 <= i < |run| - 1 ==> run[i] in mem && mem[run[i]].To? && mem[run[i]].name.block == run[i + 1]
  }

  lemma {:induction false} ChainFrame(link: Link, mem: map<nat, Link>, mem': map<nat, Link>, list: seq<nat>)
    requires Chain(link, mem, list) && forall b :: b in list ==> b in mem && b in mem' && mem'[b] == mem[b]
    ensures Chain(link, mem', list)
    decreases |list|
  {
    if list != [] {
      ChainFrame(mem[list[0]], mem, mem', list[1..]);
    }
  }

  lemma {:induction false} ChainInside(link: Link, mem: map<nat, Link>, list: seq<nat>)
    requires Chain(link, mem, list)
    ensures forall b :: b in list ==> b in mem
    decreases |list|
  {
    if list != [] {
      ChainInside(mem[list[0]], mem, list[1..]);
    }
  }

  /** A linked run whose last block links to a chain is, with it, a chain. */
  lemma {:induction false} Splice(link: Link, mem: map<nat, Link>, run: seq<nat>, below: seq<nat>)
    requires run != [] && link.To? && link.name.block == run[0] && Linked(mem, run)
    requires run[|run| - 1] in mem && Chain(mem[run[|run| - 1]], mem, below)
    ensures Chain(link, mem, run + below)
    decreases |run|
  {
    assert (run + below)[1..] == run[1..] + below;
    if |run| == 1 {
      assert run[1..] + below == below;
    } else {
      var rest := run[1..];
      assert run[0] in mem && mem[run[0]].name.block == run[1];
      assert Linked(mem, rest) by {
        forall i | 0 <= i < |rest| - 1
          ensures rest[i] in mem && mem[rest[i]].To? && mem[rest[i]].name.block == rest[i + 1]
        {
          assert rest[i] == run[i + 1];
        }
      }
      Splice(mem[run[0]], mem, rest, below);
    }
  }

  /** How many blocks `Create` makes of a buffer: never none. */
  function BlockCount(elementSize: nat, bytes: nat): (n: nat)
    requires elementSize > 0
    ensures n >= 1
    ensures bytes >= elementSize ==> n * elementSize <= bytes < (n + 1) * elementSize
  {
    if bytes < elementSize then 1 else bytes / elementSize
  }

  /** Block `k + 1` fits after block `k` exactly when it is one of those. */
  lemma NextFits(elementSize: nat, bytes: nat, k: nat)
    requires elementSize > 0 && k < BlockCount(elementSize, bytes)
    ensures (k + 1) * elementSize + elementSize <= bytes <==> k + 1 < BlockCount(elementSize, bytes)
  {
    var n := BlockCount(elementSize, bytes);
    assert (k + 1) * elementSize + elementSize == (k + 2) * elementSize;
    if k + 1 < n {
      assert bytes >= elementSize;
      Scale(k + 2, n, elementSize);
    } else if bytes >= elementSize {
      Scale(n + 1, k + 2, elementSize);
    }
  }

  lemma CountBelow(elementSize: nat, bytes: nat)
    requires 0 < elementSize && bytes < TAG_MODULUS
    ensures BlockCount(elementSize, bytes) < TAG_MODULUS
  {
    Scale(1, elementSize, BlockCount(elementSize, bytes));
  }

  /** The links that `Create` writes chain all blocks in order. */
  lemma {:induction false} CreatedChain(n: nat, k: nat)
    requires k < n
    ensures Chain(CreatedLink(n, k), CreatedWords(n), seq(n - k - 1, i => i + k + 1))
    decreases n - k
  {
    if k + 1 < n {
      CreatedChain(n, k + 1);
      var list := seq(n - k - 1, i => i + k + 1);
      assert list[1..] == seq(n - (k + 1) - 1, i => i + (k + 1) + 1);
      assert list[0] == k + 1;
    } else {
      assert seq(n - k - 1, i => i + k + 1) == [];
    }
  }

  lemma CreatedValid(n: nat)
    requires n > 0
    ensures Chain(To(Name(0, 0)), CreatedWords(n), Upto(n)) && Distinct(Upto(n))
  {
    CreatedChain(n, 0);
    assert Upto(n)[1..] == seq(n - 0 - 1, i => i + 0 + 1);
    assert CreatedWords(n)[0] == CreatedLink(n, 0);
  }

  /** Only the first words of the run's blocks differ. */
  ghost predicate OnlyRun(before: map<nat, Link>, after: map<nat, Link>, run: seq<nat>) {
    forall b :: b !in run ==> (b in after <==> b in before) && (b in before ==> after[b] == before[b])
  }

  class PoolBucket {
    var head: Link
    var globalTag: nat
    /** The first word of every block. */
    var mem: map<nat, Link>
    /** The free blocks, the next to be handed out first. */
    ghost var list: seq<nat>

    ghost predicate Valid()
      reads this
    {
      Chain(head, mem, list) && Distinct(list) && globalTag < TAG_MODULUS
    }

    constructor ()
      ensures Valid() && list == [] && mem == map[]
    {
      head, globalTag, mem, list := Invalid, 0, map[], [];
    }

    /** `Create`: one chain of all the blocks that fit, and of one block in any case. */
    method Create(elementSize: nat, bytes: nat)
      requires elementSize >= 16 && bytes < TAG_MODULUS
      modifies this
      ensures Valid() && list == Upto(BlockCount(elementSize, bytes))
      ensures mem == CreatedWords(BlockCount(elementSize, bytes)) && head == To(Name(0, 0))
      ensures globalTag == BlockCount(elementSize, bytes) - 1
    {
      ghost var n := BlockCount(elementSize, bytes);
      globalTag := 0;
      var node := 0;
      head := To(Name(globalTag, node));
      mem := map[];
      CountBelow(elementSize, bytes);
      NextFits(elementSize, bytes, 0);
      while (node + 1) * elementSize + elementSize <= bytes
        invariant node < n && globalTag == node < TAG_MODULUS && head == To(Name(0, 0))
        invariant (node + 1) * elementSize + elementSize <= bytes <==> node + 1 < n
        invariant mem == map k | 0 <= k < node :: CreatedLink(n, k)
        decreases n - node
      {
        mem := mem[node := To(Name(globalTag, node + 1))];
        node := node + 1;
        globalTag := (globalTag + 1) % TAG_MODULUS;
        NextFits(elementSize, bytes, node);
      }
      mem := mem[node := Invalid];
      assert mem == CreatedWords(n);
      list := Upto(n);
      CreatedValid(n);
    }

    /** `Alloc` without interference: the first free block, or none when there is none. */
    method Alloc() returns (p: Option<nat>)
      requires Valid()
      modifies this
      ensures Valid() && mem == old(mem) && globalTag == old(globalTag)
      ensures old(list) == [] ==> p == None && list == []
      ensures old(list) != [] ==> p == Some(old(list)[0]) && list == old(list)[1..]
    {
      if head == Invalid {
        return None;
      }
      p := Some(head.name.block);
      head := mem[head.name.block];
      list := list[1..];
    }

    /** `FreeInterval` without interference: a linked run goes in front of the free blocks, and only
        its last block is written. */
    method FreeInterval(pHead: nat, pTail: nat, ghost run: seq<nat>)
      requires Valid() && run != [] && run[0] == pHead && run[|run| - 1] == pTail && Linked(mem, run)
      requires Distinct(run + list)
      modifies this
      ensures Valid() && list == run + old(list) && mem == old(mem)[pTail := old(head)]
      ensures head == To(Name(old(globalTag), pHead)) && globalTag == (old(globalTag) + 1) % TAG_MODULUS
    {
      var tag := globalTag;
      globalTag := (globalTag + 1) % TAG_MODULUS;
      ghost var before := mem;
      mem := mem[pTail := head];
      ChainInside(head, before, list);
      assert forall b :: b in list ==> b != pTail by {
        var all := run + list;
        assert all[|run| - 1] == pTail;
        forall b | b in list
          ensures b != pTail
        {
          var i :| 0 <= i < |list| && list[i] == b;
          assert all[|run| + i] == b;
        }
      }
      ChainFrame(head, before, mem, list);
      assert Linked(mem, run) by {
        var all := run + list;
        forall i | 0 <= i < |run| - 1
          ensures run[i] in mem && mem[run[i]].To? && mem[run[i]].name.block == run[i + 1]
        {
          assert all[i] == run[i] && all[|run| - 1] == pTail;
        }
      }
      head := To(Name(tag, pHead));
      Splice(head, mem, run, list);
      list := run + list;
    }

    /** Writes to the first words of blocks that are not free. */
    method Write(words: map<nat, Link>, ghost run: seq<nat>)
      requires Valid() && OnlyRun(mem, words, run) && forall b :: b in list ==> b !in run
      modifies this`mem
      ensures Valid() && mem == words
    {
      ChainInside(head, mem, list);
      ChainFrame(head, mem, words, list);
      mem := words;
    }
  }
}
