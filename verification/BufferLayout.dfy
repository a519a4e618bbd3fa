/** Where the allocator's blocks lie, and how a pointer is routed back to its bucket. */
module BufferLayout {
  import opened Arithmetic
  import opened Bits
  import opened SizeClasses
  import opened PoolBuckets

  const MAX_ALIGNMENT: nat := 4096
  const MAX_BUCKETS: nat := 62

  /** One buffer of `count` buckets of `bucketSize` bytes. */
  datatype Layout = Layout(scheme: Scheme, base: nat, count: nat, bucketSize: nat)
  {
    function Size(i: nat): nat { SizeByIndex(scheme, i) }
    function Begin(i: nat): nat { base + i * bucketSize }
    function End(): nat { base + count * bucketSize }
    function Address(i: nat, b: nat): nat { Begin(i) + Product(b, Size(i)) }
  }

  function Product(n: nat, size: nat): nat { n * size }

  /** What `Init` sets up: the buffer is aligned to a page and lies above the values that stand for
      empty allocations; every bucket has room for a block. */
  predicate LayoutOk(l: Layout) {
    && 0 < l.count <= MAX_BUCKETS && InRange(l.scheme, l.count)
    && 0 < l.bucketSize < 0x1_0000_0000 && l.bucketSize % MAX_ALIGNMENT == 0
    && l.base > MAX_ALIGNMENT && l.base % MAX_ALIGNMENT == 0
    && l.End() + 1 < WORD
    && forall i :: 0 <= i < l.count ==> 16 <= l.Size(i) <= l.bucketSize
  }

  /** Blocks of a bucket. */
  function Blocks(l: Layout, i: nat): (n: nat)
    requires LayoutOk(l) && i < l.count
    ensures n * l.Size(i) <= l.bucketSize
  {
    assert 16 <= l.Size(i) <= l.bucketSize;
    BlockCount(l.Size(i), l.bucketSize)
  }

  predicate IsBlock(l: Layout, i: nat, b: nat)
    requires LayoutOk(l)
  {
    i < l.count && b < Blocks(l, i)
  }

  // ----- from a pointer to its bucket

  /** `FindBucket`: the distance is taken modulo the word size. */
  function FindBucket(l: Layout, p: nat): nat
    requires LayoutOk(l) && p < WORD
  {
    Quot(if p >= l.base then p - l.base else p + WORD - l.base, l.bucketSize)
  }

  function Quot(v: nat, u: nat): nat
    requires u > 0
  {
    v / u
  }

  lemma Below(a: nat, b: nat, c: nat)
    requires a < b
    ensures a * c + c <= b * c
  {
    Scale(a + 1, b, c);
  }

  /** A pointer is in the buffer exactly when its bucket is one of the buckets, and then it lies in
      that bucket. */
  lemma FindBucketIff(l: Layout, p: nat)
    requires LayoutOk(l) && p < WORD
    ensures FindBucket(l, p) < l.count <==> l.base <= p < l.End()
    ensures FindBucket(l, p) < l.count ==> l.Begin(FindBucket(l, p)) <= p < l.Begin(FindBucket(l, p) + 1)
  {
    var i := FindBucket(l, p);
    var distance := if p >= l.base then p - l.base else p + WORD - l.base;
    DivMod(distance, l.bucketSize);
    if i < l.count {
      Below(i, l.count, l.bucketSize);
    } else {
      Scale(l.count, i, l.bucketSize);
    }
  }

  /** `IsMyAlloc`, whose end is one byte past the buffer. */
  predicate IsMyAlloc(l: Layout, p: nat) {
    l.base <= p < l.End() + 1
  }

  /** `GetBucketIndex` */
  function GetBucketIndex(l: Layout, p: nat): int
    requires LayoutOk(l) && p < WORD
  {
    if !IsMyAlloc(l, p) then -1 else if FindBucket(l, p) >= l.count then -1 else FindBucket(l, p)
  }

  /** The two lookups agree on every pointer, the byte past the end included. */
  lemma LookupsAgree(l: Layout, p: nat)
    requires LayoutOk(l) && p < WORD
    ensures GetBucketIndex(l, p) == if FindBucket(l, p) < l.count then FindBucket(l, p) else -1
  {
    FindBucketIff(l, p);
  }

  // ----- blocks

  /** A block lies inside its bucket, and every byte of it is routed back to that bucket. */
  lemma BlockInside(l: Layout, i: nat, b: nat, d: nat)
    requires LayoutOk(l) && IsBlock(l, i, b) && d < l.Size(i)
    ensures l.base <= l.Begin(i) <= l.Address(i, b) + d < l.Begin(i + 1)
    ensures l.Address(i, b) + l.Size(i) <= l.Begin(i + 1) <= l.End()
    ensures l.Address(i, b) + d < WORD && FindBucket(l, l.Address(i, b) + d) == i
  {
    Inside(i, l.count, l.bucketSize, b, Blocks(l, i), l.Size(i), d);
  }

  lemma Inside(i: nat, count: nat, bucketSize: nat, b: nat, n: nat, size: nat, d: nat)
    requires i < count && b < n && d < size && n * size <= bucketSize
    ensures 0 <= i * bucketSize && b * size + size <= bucketSize
    ensures i * bucketSize + bucketSize == (i + 1) * bucketSize <= count * bucketSize
    ensures (i * bucketSize + b * size + d) / bucketSize == i
  {
    Below(b, n, size);
    Below(i, count, bucketSize);
    Quotient(i * bucketSize + b * size + d, i, b * size + d, bucketSize);
  }

  /** A block's number is found again from its address. */
  lemma BlockOfAddress(l: Layout, i: nat, b: nat)
    requires LayoutOk(l) && IsBlock(l, i, b)
    ensures l.Size(i) > 0 && (l.Address(i, b) - l.Begin(i)) / l.Size(i) == b
  {
    Quotient(b * l.Size(i), b, 0, l.Size(i));
  }

  /** Different blocks have no byte in common. */
  lemma BlocksApart(l: Layout, i: nat, b: nat, j: nat, c: nat, d: nat, e: nat)
    requires LayoutOk(l) && IsBlock(l, i, b) && IsBlock(l, j, c) && d < l.Size(i) && e < l.Size(j)
    requires l.Address(i, b) + d == l.Address(j, c) + e
    ensures i == j && b == c
  {
    BlockInside(l, i, b, d);
    BlockInside(l, j, c, e);
    Quotient(b * l.Size(i) + d, b, d, l.Size(i));
    Quotient(c * l.Size(i) + e, c, e, l.Size(i));
  }

  /** A block is aligned to every alignment that its size is a multiple of. */
  lemma BlockAligned(l: Layout, i: nat, b: nat, k: nat)
    requires LayoutOk(l) && k <= 12 && l.Size(i) % Pow2(k) == 0
    ensures l.Address(i, b) % Pow2(k) == 0
  {
    PageMultiple(l.base, k);
    PageMultiple(l.bucketSize, k);
    SumAligned(l.base, i, l.bucketSize, b, l.Size(i), Pow2(k));
  }

  lemma SumAligned(base: nat, i: nat, bucketSize: nat, b: nat, size: nat, a: nat)
    requires a > 0 && base % a == 0 && bucketSize % a == 0 && size % a == 0
    ensures (base + i * bucketSize + b * size) % a == 0
  {
    TimesMultiple(i, bucketSize, a);
    TimesMultiple(b, size, a);
    SumOfMultiples(base, i * bucketSize, a);
    SumOfMultiples(base + i * bucketSize, b * size, a);
  }

  lemma PageMultiple(v: nat, k: nat)
    requires v % 4096 == 0 && k <= 12
    ensures v % Pow2(k) == 0
  {
    assert Pow2(12) == 4096;
    Pow2Add(k, 12 - k);
    DivMod(v, 4096);
    ProductDivides(v / 4096, Pow2(k), Pow2(12 - k));
  }

  // ----- the generic allocator's header

  const HEADER: nat := 16

  /** `GenericAllocator::Alloc`: the block inside what `malloc` returned at `raw`. */
  function GenericBlock(raw: nat, alignment: nat): nat
    requires alignment > 0
  {
    var x := raw + (alignment - 1 + HEADER);
    x - x % alignment
  }

  /** The header fits before the block, the request fits behind it within what was asked of `malloc`,
      and the block has the alignment. */
  lemma GenericFits(raw: nat, bytes: nat, alignment: nat)
    requires alignment > 0
    ensures var p := GenericBlock(raw, alignment);
            raw <= p - HEADER && p + bytes <= raw + (bytes + (alignment - 1 + HEADER)) && p % alignment == 0
  {
    var x := raw + (alignment - 1 + HEADER);
    DivMod(x, alignment);
    Multiple(x / alignment, alignment);
  }
}
