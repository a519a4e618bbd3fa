/** The bitwise size trie of dlmalloc's tree bins, as values: which bin a size belongs to,
    how the shifted size steers a walk, and what a tree holds. */
module SizeTree {
  import opened Arithmetic
  import opened Bits

  // ----- bins

  const BINS: nat := 32
  const MIN_LARGE: nat := 256
  const MAX_CHUNK: nat := 0x100_0000_0000

  /** `compute_tree_index`, with the 32-bit truncation of the shifted size. */
  function TreeIndex(s: nat): (i: nat)
    ensures i < BINS
  {
    IndexOf(s, s / 256 % 0x1_0000_0000)
  }

  function IndexOf(s: nat, x: nat): (i: nat)
    ensures i < BINS
  {
    if x == 0 then 0
    else if x > 0xFFFF then 31
    else
      Log2Small(x);
      2 * Log2(x) + HalfBit(s, Pow2(Log2(x) + 7))
  }

  function HalfBit(s: nat, p: nat): (b: nat)
    requires p > 0
    ensures b <= 1
  {
    s / p % 2
  }

  /** `minsize_for_tree_index`. */
  function MinSize(i: nat): nat {
    Pow2(i / 2 + 8) + if i % 2 == 1 then Pow2(i / 2 + 7) else 0
  }

  /** `leftshift_for_tree_index`. */
  function LeftShift(i: nat): nat
    requires i < BINS
  {
    if i == 31 then 0 else 63 - (i / 2 + 6)
  }

  /** A bin's tree covers the sizes from `BinLow` on that fit in `64 - LeftShift` bits. */
  function BinLow(i: nat): nat {
    if i == 31 then 0 else MinSize(i)
  }

  function BinBits(i: nat): nat
    requires i < BINS
  {
    64 - LeftShift(i)
  }

  lemma NextMinSize(i: nat)
    ensures MinSize(i + 1) == MinSize(i) + Pow2(i / 2 + 7)
  {
    assert Pow2(i / 2 + 8) == 2 * Pow2(i / 2 + 7) && Pow2(i / 2 + 9) == 2 * Pow2(i / 2 + 8);
    if i % 2 == 1 {
      assert (i + 1) / 2 == i / 2 + 1;
    }
  }

  lemma {:induction false} MinSizeMonotone(i: nat, j: nat)
    requires i <= j
    ensures MinSize(i) <= MinSize(j)
  {
    if i < j {
      NextMinSize(j - 1);
      MinSizeMonotone(i, j - 1);
    }
  }

  lemma Log2Small(x: nat)
    requires 0 < x <= 0xFFFF
    ensures Log2(x) <= 15
  {
    Pow2Values();
    if Log2(x) > 15 {
      Pow2Monotone(16, Log2(x));
    }
  }

  lemma Pow2Plus7(k: nat)
    ensures Pow2(k + 7) == 128 * Pow2(k)
  {
    assert Pow2(k + 2) == 4 * Pow2(k);
    assert Pow2(k + 4) == 4 * Pow2(k + 2);
    assert Pow2(k + 6) == 4 * Pow2(k + 4);
  }

  lemma HalfBitIs(s: nat, p: nat)
    requires 2 * p <= s < 4 * p
    ensures HalfBit(s, p) == if s < 3 * p then 0 else 1
  {
    var q := if s < 3 * p then 2 else 3;
    Quotient(s, q, s - q * p, p);
  }

  lemma TopBit(s: nat, x: nat, k: nat)
    requires x == s / 256 && 0 < x <= 0xFFFF && k == Log2(x)
    ensures k <= 15 && 2 * Pow2(k + 7) <= s < 4 * Pow2(k + 7)
  {
    Log2Small(x);
    Pow2Plus7(k);
    assert Pow2(k + 1) == 2 * Pow2(k);
  }

  lemma SmallIndexAt(s: nat, x: nat) returns (k: nat, h: nat)
    requires x == s / 256 && 0 < x <= 0xFFFF
    ensures k <= 15 && IndexOf(s, x) == 2 * k + h
    ensures 2 * Pow2(k + 7) <= s < 4 * Pow2(k + 7) && h == if s < 3 * Pow2(k + 7) then 0 else 1
  {
    k, h := Log2(x), HalfBit(s, Pow2(Log2(x) + 7));
    TopBit(s, x, k);
    HalfBitIs(s, Pow2(k + 7));
  }

  lemma BoundsAt(s: nat, k: nat, h: nat)
    requires 2 * Pow2(k + 7) <= s < 4 * Pow2(k + 7) && h == if s < 3 * Pow2(k + 7) then 0 else 1
    ensures var i := 2 * k + h;
            MinSize(i) <= s < MinSize(i + 1)
  {
    MinSizeAt(k, h);
    NextMinSize(2 * k + h);
  }

  lemma MinSizeAt(k: nat, h: nat)
    requires h <= 1
    ensures (2 * k + h) / 2 == k && MinSize(2 * k + h) == if h == 0 then 2 * Pow2(k + 7) else 3 * Pow2(k + 7)
  {
    assert (2 * k + h) / 2 == k && (2 * k + h) % 2 == h;
    assert Pow2(k + 8) == 2 * Pow2(k + 7);
  }

  lemma LastBinLow()
    ensures MinSize(31) == 0xC0_0000 && Pow2(64) == WORD
  {
    Pow2Values();
    assert Pow2(6) == 64;
    Pow2Add(6, 16);
    assert Pow2(23) == 2 * Pow2(22);
  }

  lemma ShiftedFits(s: nat)
    requires s < MAX_CHUNK
    ensures s / 256 % 0x1_0000_0000 == s / 256
  {
    assert s / 256 < 0x1_0000_0000;
  }

  /** The size interval of a bin. */
  predicate Holds(i: nat, s: nat) {
    i < BINS && MinSize(i) <= s < MAX_CHUNK && (i < 31 ==> s < MinSize(i + 1))
  }

  lemma SmallHolds(s: nat, k: nat, h: nat)
    requires k <= 15 && s < 0x100_0000
    requires 2 * Pow2(k + 7) <= s < 4 * Pow2(k + 7) && h == if s < 3 * Pow2(k + 7) then 0 else 1
    ensures Holds(2 * k + h, s)
  {
    BoundsAt(s, k, h);
  }

  lemma IndexOfHolds(s: nat, x: nat)
    requires MIN_LARGE <= s < MAX_CHUNK && x == s / 256
    ensures Holds(IndexOf(s, x), s)
  {
    if x <= 0xFFFF {
      var k, h := SmallIndexAt(s, x);
      SmallHolds(s, k, h);
    } else {
      LastBinLow();
    }
  }

  /** The computed bin is the one whose size interval holds the size. */
  lemma IndexHolds(s: nat)
    requires MIN_LARGE <= s < MAX_CHUNK
    ensures Holds(TreeIndex(s), s)
  {
    ShiftedFits(s);
    IndexOfHolds(s, s / 256);
  }

  // ----- beyond 2^40 the truncation decides

  /** The interval that the bin's least size and the next one's enclose; the last bin has no end. */
  predicate Encloses(i: nat, s: nat) {
    MinSize(i) <= s && (i < 31 ==> s < MinSize(i + 1))
  }

  lemma HalfBitShifted(r: nat, p: nat, q: nat)
    requires p > 0
    ensures HalfBit(r + q * (2 * p), p) == HalfBit(r, p)
  {
    assert r + q * (2 * p) == (r / p + 2 * q) * p + r % p;
    Quotient(r + q * (2 * p), r / p + 2 * q, r % p, p);
  }

  lemma Truncated(s: nat)
    ensures s / 256 % 0x1_0000_0000 == s % MAX_CHUNK / 256
  {
  }

  lemma HalfBitMod(s: nat, h: nat, a: nat, b: nat)
    requires h == 2 * a * b && a > 0 && h > 0
    ensures HalfBit(s, a) == HalfBit(s % h, a)
  {
    var r, k := s % h, s / h;
    assert s == r + k * h;
    Regroup(k, a, b);
    HalfBitShifted(r, a, k * b);
  }

  lemma Regroup(k: nat, a: nat, b: nat)
    ensures k * (2 * a * b) == k * b * (2 * a)
  {
  }

  lemma HugeIs(j: nat)
    requires j <= 39
    ensures MAX_CHUNK == 2 * Pow2(j) * Pow2(39 - j)
  {
    Pow2Values();
    Pow2Add(8, 32);
    Pow2Add(j, 39 - j);
    Double(Pow2(j), Pow2(39 - j));
  }

  lemma Double(a: nat, b: nat)
    ensures 2 * (a * b) == 2 * a * b
  {
  }

  /** The index looks at no bit of the size from 2^40 on. */
  lemma IndexForgets(s: nat, r: nat)
    requires r == s % MAX_CHUNK
    ensures TreeIndex(s) == TreeIndex(r)
  {
    Truncated(s);
    ShiftedFits(r);
    IndexReadsHalf(s, r, r / 256);
  }

  lemma IndexReadsHalf(s: nat, r: nat, x: nat)
    requires r == s % MAX_CHUNK
    ensures IndexOf(s, x) == IndexOf(r, x)
  {
    if 0 < x <= 0xFFFF {
      Log2Small(x);
      var j := Log2(x) + 7;
      HugeIs(j);
      HalfBitMod(s, MAX_CHUNK, Pow2(j), Pow2(39 - j));
    }
  }

  /** The index of any size of a word is that of the bin that encloses it exactly when the size is below
      2^40, or what is left of it modulo 2^40 belongs to the last bin. */
  lemma IndexEnclosesIff(s: nat)
    requires MIN_LARGE <= s < WORD
    ensures Encloses(TreeIndex(s), s) <==> s < MAX_CHUNK || s % MAX_CHUNK >= MinSize(31)
  {
    if s < MAX_CHUNK {
      IndexHolds(s);
    } else {
      BeyondEncloses(s, s % MAX_CHUNK);
    }
  }

  lemma BeyondEncloses(s: nat, r: nat)
    requires MAX_CHUNK <= s && r == s % MAX_CHUNK
    ensures Encloses(TreeIndex(s), s) <==> r >= MinSize(31)
  {
    IndexForgets(s, r);
    RestIndex(r);
    BeyondEnclosed(s, r, TreeIndex(s));
  }

  lemma RestIndex(r: nat)
    requires r < MAX_CHUNK
    ensures if r < MIN_LARGE then TreeIndex(r) == 0 else Holds(TreeIndex(r), r)
  {
    if r < MIN_LARGE {
      TinyIndex(r);
    } else {
      IndexHolds(r);
    }
  }

  lemma TinyIndex(r: nat)
    requires r < MIN_LARGE
    ensures TreeIndex(r) == 0
  {
    ShiftedFits(r);
  }

  lemma BeyondEnclosed(s: nat, r: nat, i: nat)
    requires r < MAX_CHUNK <= s && i < BINS && if r < MIN_LARGE then i == 0 else Holds(i, r)
    ensures Encloses(i, s) <==> r >= MinSize(31)
  {
    LastBinLow();
    if i < 31 {
      MinSizeMonotone(i + 1, 31);
    }
  }

  /** A chunk of 2^40 bytes goes to the first bin. */
  lemma HugeChunkMisfiled()
    ensures TreeIndex(MAX_CHUNK) == 0 && !Encloses(0, MAX_CHUNK)
  {
    IndexForgets(MAX_CHUNK, 0);
    Pow2Values();
  }

  lemma HoldsRange(i: nat, s: nat)
    requires Holds(i, s)
    ensures BinLow(i) <= s < BinLow(i) + Pow2(BinBits(i))
  {
    if i == 31 {
      LastBinLow();
    } else {
      NextMinSize(i);
      assert BinBits(i) == i / 2 + 7;
    }
  }

  /** Bins are ordered: a chunk of a later bin is larger than any size of an earlier one. */
  lemma LaterBinLarger(i: nat, s: nat, j: nat, t: nat)
    requires Holds(i, s) && Holds(j, t) && i < j
    ensures s < t
  {
    MinSizeMonotone(i + 1, j);
  }

  // ----- steering a walk

  /** The size, less the low end of the range, moved to the top of the word. */
  predicate Scaled(key: nat, s: nat, lo: nat, e: nat) {
    e <= 64 && lo <= s < lo + Pow2(e) && key == (s - lo) * Pow2(64 - e)
  }

  /** The top bits of the key choose, level by level, the half of the range that holds the size. */
  predicate Steers(key: nat, s: nat, lo: nat, e: nat)
    decreases e
  {
    && lo <= s < lo + Pow2(e)
    && (if e == 0 then TopBitOf(key) == 0
        else
          && TopBitOf(key) == (if s < lo + Pow2(e - 1) then 0 else 1)
          && Steers(ShiftOne(key), s, if s < lo + Pow2(e - 1) then lo else lo + Pow2(e - 1), e - 1))
  }

  function TopBitOf(key: nat): nat {
    key / 0x8000_0000_0000_0000 % 2
  }

  function ShiftOne(key: nat): nat {
    2 * key % WORD
  }

  function StartKey(s: nat, i: nat): nat
    requires i < BINS
  {
    s * Pow2(LeftShift(i)) % WORD
  }

  lemma HalveKey(key: nat, d: nat, p: nat, q: nat)
    requires q * p == 0x8000_0000_0000_0000 && key == d * p && d < 2 * q && p > 0
    ensures if d < q then key < 0x8000_0000_0000_0000 && 2 * key == d * (2 * p)
            else 0x8000_0000_0000_0000 <= key < WORD && 2 * key - WORD == (d - q) * (2 * p)
  {
    Scale(d + 1, q, p);
    Scale(q, d, p);
    Scale(d + 1, 2 * q, p);
    assert (d + 1) * p == d * p + p && 2 * q * p == 2 * (q * p);
    assert (d - q) * (2 * p) == 2 * (d * p) - 2 * (q * p);
  }

  lemma WordHalf(e: nat)
    requires 0 < e <= 64
    ensures Pow2(e - 1) * Pow2(64 - e) == 0x8000_0000_0000_0000
    ensures Pow2(e) == 2 * Pow2(e - 1) && Pow2(64 - (e - 1)) == 2 * Pow2(64 - e)
  {
    Pow2Add(e - 1, 64 - e);
    Pow2Values();
    assert Pow2(64) == 2 * Pow2(63);
  }

  lemma KeyBit(key: nat)
    requires key < WORD
    ensures TopBitOf(key) == if key < 0x8000_0000_0000_0000 then 0 else 1
    ensures ShiftOne(key) == if key < 0x8000_0000_0000_0000 then 2 * key else 2 * key - WORD
  {
  }

  /** The upper half of a range is entered exactly when the key's top bit is set. */
  lemma ScaledDown(key: nat, s: nat, lo: nat, e: nat)
    requires Scaled(key, s, lo, e) && e > 0
    ensures TopBitOf(key) == if s < lo + Pow2(e - 1) then 0 else 1
    ensures Scaled(ShiftOne(key), s, if s < lo + Pow2(e - 1) then lo else lo + Pow2(e - 1), e - 1)
  {
    var d, p, q, p' := s - lo, Pow2(64 - e), Pow2(e - 1), Pow2(64 - (e - 1));
    WordHalf(e);
    assert key == d * p;
    HalveKey(key, d, p, q);
    KeyBit(key);
    if s < lo + q {
      assert ShiftOne(key) == d * p';
    } else {
      assert ShiftOne(key) == (d - q) * p';
    }
  }

  lemma BinLowIs(i: nat, w: nat)
    requires i < 31 && w == Pow2(BinBits(i))
    ensures BinLow(i) == if i % 2 == 0 then 2 * w else 3 * w
    ensures Pow2(LeftShift(i)) * w == WORD
  {
    assert BinBits(i) == i / 2 + 7;
    assert Pow2(i / 2 + 8) == 2 * Pow2(i / 2 + 7);
    Pow2Add(LeftShift(i), BinBits(i));
    Pow2Values();
  }

  /** The low end of a bin is two or three times its span, so it is shifted out of the word. */
  lemma StartKeyIs(s: nat, i: nat)
    requires i < BINS && BinLow(i) <= s < BinLow(i) + Pow2(BinBits(i))
    ensures StartKey(s, i) == (s - BinLow(i)) * Pow2(LeftShift(i))
  {
    if i < 31 {
      var w := Pow2(BinBits(i));
      BinLowIs(i, w);
      ShiftOut(s, s - BinLow(i), if i % 2 == 0 then 2 else 3, w, Pow2(LeftShift(i)));
    } else {
      Pow2Values();
    }
  }

  lemma {:induction false} ScaledSteers(key: nat, s: nat, lo: nat, e: nat)
    requires Scaled(key, s, lo, e)
    ensures Steers(key, s, lo, e)
    decreases e
  {
    if e > 0 {
      ScaledDown(key, s, lo, e);
      ScaledSteers(ShiftOne(key), s, if s < lo + Pow2(e - 1) then lo else lo + Pow2(e - 1), e - 1);
    }
  }

  /** Shifting a size left by its bin's amount leaves exactly the bits that steer it through the bin. */
  lemma SteersStart(s: nat, i: nat)
    requires i < BINS && BinLow(i) <= s < BinLow(i) + Pow2(BinBits(i))
    ensures Steers(StartKey(s, i), s, BinLow(i), BinBits(i))
  {
    StartKeyIs(s, i);
    ScaledSteers(StartKey(s, i), s, BinLow(i), BinBits(i));
  }

  lemma ShiftOut(s: nat, d: nat, c: nat, w: nat, f: nat)
    requires s == c * w + d && d < w && f * w == WORD
    ensures s * f % WORD == d * f
  {
    assert s * f == c * (f * w) + d * f by { assert c * w * f == c * (f * w); }
    Scale(d + 1, w, f);
    assert (d + 1) * f == d * f + f;
    assert w * f == WORD;
    Quotient(s * f, c, d * f, WORD);
  }

  // ----- trees

  /** A node stands for the ring of all its equal-sized chunks; the ring's first is the one in the tree. */
  datatype Tree = Leaf | Node(ring: seq<int>, size: nat, left: Tree, right: Tree)

  predicate Absent(t: Tree, s: nat) {
    t.Node? ==> t.size != s && Absent(t.left, s) && Absent(t.right, s)
  }

  /** Children split the range of their parent by its top bit; each size has one node. */
  predicate Trie(t: Tree, lo: nat, e: nat) {
    t.Node? ==>
      && t.ring != []
      && lo <= t.size < lo + Pow2(e)
      && Absent(t.left, t.size) && Absent(t.right, t.size)
      && (if e == 0 then t.left.Leaf? && t.right.Leaf?
          else Trie(t.left, lo, e - 1) && Trie(t.right, lo + Pow2(e - 1), e - 1))
  }

  /** The least size at least `nb` in a tree, or one past the largest word. */
  function MinAbove(t: Tree, nb: nat): nat {
    if t.Leaf? then WORD
    else Least(if t.size >= nb then t.size else WORD, Least(MinAbove(t.left, nb), MinAbove(t.right, nb)))
  }

  lemma {:induction false} MinAboveRange(t: Tree, lo: nat, e: nat, nb: nat)
    requires Trie(t, lo, e) && lo + Pow2(e) <= WORD
    ensures MinAbove(t, nb) == WORD || (lo <= MinAbove(t, nb) < lo + Pow2(e) && nb <= MinAbove(t, nb))
    ensures lo + Pow2(e) <= nb ==> MinAbove(t, nb) == WORD
    ensures nb <= lo && t.Node? ==> MinAbove(t, nb) < WORD
  {
    if t.Node? && e > 0 {
      MinAboveRange(t.left, lo, e - 1, nb);
      MinAboveRange(t.right, lo + Pow2(e - 1), e - 1, nb);
    }
  }

  /** The chunks of a tree. */
  function Foot(t: Tree): set<int> {
    if t.Leaf? then {} else (set c | c in t.ring) + Foot(t.left) + Foot(t.right)
  }
}
