/** Size classes of the pool allocator: from a request to the index of a bucket and from an index to
    the size of its blocks, for the piecewise-linear and the small-float partitioning. */
module SizeClasses {
  import opened Arithmetic
  import opened Bits

  // ----- alignment

  function RoundUp(v: nat, a: nat): nat
    requires a > 0
  {
    (v + (a - 1)) / a * a
  }

  /** `Align` on 64-bit words, for a power of two. */
  function Align(v: nat, a: nat): nat
    requires 0 < a
  {
    var x := (v + (a - 1)) % WORD;
    x - x % a
  }

  predicate IsAligned(v: nat, a: nat)
    requires 0 < a
  {
    v % a == 0
  }

  lemma Multiple(q: nat, a: nat)
    requires a > 0
    ensures q * a % a == 0 && q * a / a == q
  {
    Quotient(q * a, q, 0, a);
  }

  lemma SumOfMultiples(u: nat, v: nat, a: nat)
    requires a > 0 && u % a == 0 && v % a == 0
    ensures (u + v) % a == 0
  {
    DivMod(u, a);
    DivMod(v, a);
    Quotient(u + v, u / a + v / a, 0, a);
  }

  lemma TimesMultiple(n: nat, v: nat, a: nat)
    requires a > 0 && v % a == 0
    ensures n * v % a == 0
  {
    DivMod(v, a);
    assert n * v == n * (v / a) * a;
    Multiple(n * (v / a), a);
  }

  /** Rounding up gives the least multiple that is not less. */
  lemma RoundUpLeast(v: nat, a: nat)
    requires a > 0
    ensures RoundUp(v, a) % a == 0 && v <= RoundUp(v, a) < v + a
    ensures v % a == 0 ==> RoundUp(v, a) == v
  {
    var x := v + (a - 1);
    DivMod(x, a);
    Multiple(x / a, a);
    if v % a == 0 {
      DivMod(v, a);
      Quotient(x, v / a, a - 1, a);
    }
  }

  /** Without wrap-around `Align` rounds up; with it the result is zero. */
  lemma AlignIs(v: nat, a: nat)
    requires v < WORD && 0 < a <= 4096
    ensures Align(v, a) == if v + (a - 1) < WORD then RoundUp(v, a) else 0
  {
    var x := v + (a - 1);
    if x < WORD {
      Quotient(x, 0, x, WORD);
      DivMod(x, a);
    } else {
      Quotient(x, 1, x - WORD, WORD);
      Quotient(x - WORD, 0, x - WORD, a);
    }
  }

  // ----- divisibility through rounding

  lemma ProductDivides(q: nat, a: nat, b: nat)
    requires a > 0
    ensures q * (a * b) % a == 0
  {
    assert q * (a * b) == q * b * a;
    Multiple(q * b, a);
  }

  /** Rounding a multiple of a power of two up to a multiple of another keeps it a multiple. */
  lemma RoundUpKeepsDivisor(v: nat, j: nat, m: nat)
    requires v % Pow2(j) == 0
    ensures RoundUp(v, Pow2(m)) % Pow2(j) == 0
  {
    RoundUpLeast(v, Pow2(m));
    if j <= m {
      Pow2Add(j, m - j);
      FactorDivides(RoundUp(v, Pow2(m)), Pow2(j), Pow2(m - j));
    } else {
      Pow2Add(m, j - m);
      FactorDivides(v, Pow2(m), Pow2(j - m));
    }
  }

  lemma FactorDivides(v: nat, a: nat, b: nat)
    requires a > 0 && a * b > 0 && v % (a * b) == 0
    ensures v % a == 0
  {
    DivMod(v, a * b);
    ProductDivides(v / (a * b), a, b);
  }

  // ----- piecewise-linear partitioning

  function PlIndex(bytes: nat): nat
    requires bytes > 0
  {
    var size := bytes - 1;
    if size <= 127 then size / 16 else if size > 1023 then 13 + size / 512 else 7 + size / 128
  }

  function PlSize(i: nat): nat {
    if i <= 7 then (i + 1) * 16 else if i > 14 then (i - 12) * 512 else (i - 6) * 128
  }

  /** The step between sizes around a request. */
  function PlGranule(bytes: nat): (m: nat) {
    if bytes <= 128 then 4 else if bytes <= 1024 then 7 else 9
  }

  /** The index is the least whose size covers the request. */
  lemma PlGalois(bytes: nat, i: nat)
    requires bytes > 0
    ensures PlSize(i) >= bytes <==> i >= PlIndex(bytes)
  {
  }

  /** Sizes grow strictly, and the index of a size is its own. */
  lemma PlInverse(i: nat, j: nat)
    ensures i < j ==> PlSize(i) < PlSize(j)
    ensures PlSize(i) > 0 && PlIndex(PlSize(i)) == i
  {
  }

  lemma PlRoundsUp(bytes: nat)
    requires bytes > 0
    ensures PlSize(PlIndex(bytes)) == RoundUp(bytes, Pow2(PlGranule(bytes)))
  {
    assert Pow2(4) == 16 && Pow2(7) == 128 && Pow2(9) == 512;
  }

  // ----- small floats

  /** `uintToFloatRoundUp`: exponent and two mantissa bits, rounded up; a mantissa that overflows
      carries into the exponent. */
  function FloatRoundUp(size: nat): nat {
    if size < 4 then
      size
    else
      var start := Log2(size) - 2;
      var exp := start + 1;
      var mantissa := size / Pow2(start) % 4;
      exp * 4 + mantissa + if size % Pow2(start) != 0 then 1 else 0
  }

  /** The number a float stands for. */
  function FloatValue(f: nat): nat {
    if f / 4 == 0 then f % 4 else (4 + f % 4) * Pow2(f / 4 - 1)
  }

  /** `floatToUint`, whose shift drops what does not fit 32 bits. */
  function FloatToUint(f: nat): nat {
    FloatValue(f) % 0x1_0000_0000
  }

  lemma FloatValueAt(e: nat, m: nat)
    requires e >= 1 && m <= 4
    ensures FloatValue(4 * e + m) == (4 + m) * Pow2(e - 1)
  {
    if m == 4 {
      assert 4 * e + m == 4 * (e + 1);
    }
  }

  lemma FloatValueGrows(f: nat)
    ensures FloatValue(f) < FloatValue(f + 1)
  {
    var e, m := f / 4, f % 4;
    if e >= 1 {
      assert f == 4 * e + m;
      FloatValueAt(e, m);
      FloatValueAt(e, m + 1);
      Times(4 + m, Pow2(e - 1));
    } else {
      assert FloatValue(4) == 4;
    }
  }

  lemma Times(a: nat, p: nat)
    ensures (a + 1) * p == a * p + p
  {
  }

  lemma {:induction false} FloatValueMonotone(f: nat, g: nat)
    requires f < g
    ensures FloatValue(f) < FloatValue(g)
    decreases g
  {
    FloatValueGrows(g - 1);
    if f < g - 1 {
      FloatValueMonotone(f, g - 1);
    }
  }

  lemma QuotientRange(v: nat, u: nat, lo: nat, hi: nat)
    requires u > 0 && lo * u <= v < hi * u
    ensures lo <= v / u < hi
  {
    DivMod(v, u);
    var q := v / u;
    assert (q - hi) * u == q * u - hi * u && (q + 1 - lo) * u == q * u + u - lo * u;
    AtLeastOnce(q - hi, u);
    AtLeastOnce(q + 1 - lo, u);
  }

  /** The unit of a number's mantissa. */
  function Unit(size: nat): (u: nat)
    requires size >= 4
    ensures u > 0 && 4 * u <= size < 8 * u
  {
    UnitRange(size);
    Pow2(Log2(size) - 2)
  }

  lemma UnitRange(size: nat)
    requires size >= 4
    ensures Log2(size) >= 2 && 4 * Pow2(Log2(size) - 2) <= size < 8 * Pow2(Log2(size) - 2)
  {
    var h := Log2(size);
    Pow2Values();
    if h < 2 {
      Pow2Monotone(h + 1, 2);
    }
    assert Pow2(h) == 2 * Pow2(h - 1) && Pow2(h + 1) == 2 * Pow2(h);
  }

  /** A number of at least four is rounded up on its mantissa. */
  lemma FloatShape(size: nat)
    requires size >= 4
    ensures var u, e := Unit(size), Log2(size) - 1;
            && 4 <= size / u < 8 && e >= 1 && u == Pow2(e - 1)
            && FloatRoundUp(size) == 4 * e + (size / u - 4) + if size % u != 0 then 1 else 0
  {
    FloatMantissa(size);
    FloatRounds(size);
  }

  lemma FloatMantissa(size: nat)
    requires size >= 4
    ensures 4 <= size / Unit(size) < 8 && Log2(size) >= 2 && Unit(size) == Pow2(Log2(size) - 2)
  {
    UnitRange(size);
    QuotientRange(size, Unit(size), 4, 8);
  }

  lemma FloatRounds(size: nat)
    requires size >= 4 && 4 <= size / Unit(size) < 8
    ensures var u := Unit(size);
            FloatRoundUp(size) == 4 * (Log2(size) - 1) + (size / u - 4) + if size % u != 0 then 1 else 0
  {
    UnitRange(size);
    FourMore(size / Unit(size));
  }

  lemma FourMore(q: nat)
    requires 4 <= q < 8
    ensures q % 4 == q - 4
  {
  }

  /** Neighbouring floats differ by one unit. */
  lemma FloatNeighbours(e: nat, q: nat, u: nat)
    requires e >= 1 && 4 <= q < 8 && u == Pow2(e - 1)
    ensures FloatValue(4 * e + (q - 4)) == q * u && FloatValue(4 * e + (q - 4) + 1) == q * u + u
  {
    FloatValueAt(e, q - 4);
    FloatValueAt(e, q - 3);
    assert (4 + (q - 3)) * u == q * u + u;
  }

  lemma FloatExact(size: nat, f: nat)
    requires size >= 4 && f == FloatRoundUp(size)
    ensures size % Unit(size) == 0 ==> FloatValue(f) == size
    ensures size % Unit(size) != 0 ==>
              && FloatValue(f) == size - size % Unit(size) + Unit(size)
              && f > 0 && FloatValue(f - 1) == size - size % Unit(size)
  {
    FloatShape(size);
    DivMod(size, Unit(size));
    FloatNeighbours(Log2(size) - 1, size / Unit(size), Unit(size));
  }

  /** The float of a number stands for the number rounded up to its unit, and the one before it for
      less. */
  lemma FloatBounds(size: nat)
    ensures size <= FloatValue(FloatRoundUp(size))
    ensures size > 0 ==> FloatRoundUp(size) > 0 && FloatValue(FloatRoundUp(size) - 1) < size
    ensures size >= 4 ==> FloatValue(FloatRoundUp(size)) == RoundUp(size, Unit(size))
  {
    if size >= 4 {
      FloatExact(size, FloatRoundUp(size));
      FloatShape(size);
      RoundUpIs(size, Unit(size));
      if size % Unit(size) == 0 {
        FloatValueGrows(FloatRoundUp(size) - 1);
      }
    }
  }

  lemma RoundUpIs(v: nat, u: nat)
    requires u > 0
    ensures RoundUp(v, u) == if v % u == 0 then v else v - v % u + u
  {
    RoundUpLeast(v, u);
    if v % u != 0 {
      DivMod(v, u);
      Quotient(v + (u - 1), v / u + 1, v % u - 1, u);
    }
  }

  lemma FloatGalois(size: nat, f: nat)
    ensures FloatValue(f) >= size <==> f >= FloatRoundUp(size)
  {
    FloatBounds(size);
    FloatOrder(size, FloatRoundUp(size), f);
  }

  lemma FloatOrder(size: nat, g: nat, f: nat)
    requires size <= FloatValue(g) && (size > 0 ==> g > 0 && FloatValue(g - 1) < size) && (size == 0 ==> g == 0)
    ensures FloatValue(f) >= size <==> f >= g
  {
    if f > g {
      FloatValueMonotone(g, f);
    } else if f + 1 < g {
      FloatValueMonotone(f, g - 1);
    }
  }

  /** The float partitioning starts at size 16. */
  const BIAS: nat := 12

  function FloatIndex(bytes: nat): nat {
    if FloatRoundUp(bytes) < BIAS then 0 else FloatRoundUp(bytes) - BIAS
  }

  function FloatSize(i: nat): nat {
    FloatToUint(i + BIAS)
  }

  /** The largest request the float partitioning covers. */
  const FLOAT_MAX: nat := 7 * 0x2000_0000

  lemma FloatTop()
    ensures FloatValue(123) == FLOAT_MAX && FloatValue(124) == 0x1_0000_0000
  {
    Pow2Values();
    assert Pow2(32) == 8 * Pow2(29) && Pow2(30) == 2 * Pow2(29);
    FloatValueAt(30, 3);
    FloatValueAt(31, 0);
  }

  /** The size found for a request covers it exactly up to the largest size that fits 32 bits; above
      that the mantissa carries out of the word. */
  lemma FloatCoversIff(bytes: nat)
    requires bytes < 0x1_0000_0000
    ensures FloatSize(FloatIndex(bytes)) >= bytes <==> bytes <= FLOAT_MAX
  {
    if bytes <= FLOAT_MAX {
      FloatCovers(bytes);
    } else {
      FloatCarries(bytes);
    }
  }

  lemma FloatCovers(bytes: nat)
    requires bytes <= FLOAT_MAX
    ensures FloatSize(FloatIndex(bytes)) >= bytes
  {
    FloatTop();
    FloatGalois(bytes, 123);
    FloatGalois(bytes, FloatIndex(bytes) + BIAS);
    FloatInRange(FloatIndex(bytes) + BIAS);
  }

  lemma FloatCarries(bytes: nat)
    requires FLOAT_MAX < bytes <= 0x1_0000_0000
    ensures FloatIndex(bytes) + BIAS == 124 && FloatSize(FloatIndex(bytes)) == 0
  {
    FloatTop();
    FloatGalois(bytes, 123);
    FloatGalois(bytes, 124);
  }

  lemma FloatInRange(f: nat)
    requires f <= 123
    ensures FloatToUint(f) == FloatValue(f) <= FLOAT_MAX
  {
    FloatTop();
    FloatFits(f, 123);
  }

  lemma FloatFits(f: nat, g: nat)
    requires f <= g && FloatValue(g) <= FLOAT_MAX
    ensures FloatToUint(f) == FloatValue(f) <= FLOAT_MAX
  {
    FloatAtMost(f, g);
  }

  lemma FloatAtMost(f: nat, g: nat)
    requires f <= g
    ensures FloatValue(f) <= FloatValue(g)
  {
    if f < g {
      FloatValueMonotone(f, g);
    }
  }

  /** Above that the index is past every bucket. */
  lemma FloatBeyond(bytes: nat)
    requires FLOAT_MAX < bytes
    ensures FloatIndex(bytes) >= 124 - BIAS
  {
    FloatTop();
    FloatGalois(bytes, 123);
  }

  lemma FloatRoundTrip(f: nat)
    ensures FloatRoundUp(FloatValue(f)) == f
  {
    var g := FloatRoundUp(FloatValue(f));
    FloatGalois(FloatValue(f), f);
    FloatGalois(FloatValue(f), g);
    if g < f {
      FloatValueMonotone(g, f);
    }
  }

  // ----- the three partitionings

  datatype Scheme = Linear | PiecewiseLinear | SmallFloat

  /** `GetBucketIndexBySize` */
  function IndexBySize(s: Scheme, bytes: nat): nat
    requires bytes > 0
  {
    match s
    case Linear => (bytes - 1) / 16
    case PiecewiseLinear => PlIndex(bytes)
    case SmallFloat => FloatIndex(bytes)
  }

  /** `GetBucketSizeInBytesByIndex` */
  function SizeByIndex(s: Scheme, i: nat): nat {
    match s
    case Linear => 16 + i * 16
    case PiecewiseLinear => PlSize(i)
    case SmallFloat => FloatSize(i)
  }

  /** The requests a partitioning is for. */
  predicate Covers(s: Scheme, bytes: nat) {
    bytes > 0 && (s.SmallFloat? ==> bytes <= FLOAT_MAX)
  }

  /** The indices whose sizes a partitioning can express. */
  predicate InRange(s: Scheme, i: nat) {
    s.SmallFloat? ==> i + BIAS <= 123
  }

  /** The index is the least whose size covers the request, in every partitioning. */
  lemma LeastCovering(s: Scheme, bytes: nat, i: nat)
    requires Covers(s, bytes) && InRange(s, i)
    ensures SizeByIndex(s, i) >= bytes <==> i >= IndexBySize(s, bytes)
    ensures InRange(s, IndexBySize(s, bytes))
  {
    match s
    case Linear =>
    case PiecewiseLinear => PlGalois(bytes, i);
    case SmallFloat => FloatLeast(bytes, i);
  }

  lemma FloatLeast(bytes: nat, i: nat)
    requires Covers(SmallFloat, bytes) && InRange(SmallFloat, i)
    ensures SizeByIndex(SmallFloat, i) >= bytes <==> i >= IndexBySize(SmallFloat, bytes)
    ensures InRange(SmallFloat, IndexBySize(SmallFloat, bytes))
  {
    FloatInRange(i + BIAS);
    FloatGalois(bytes, i + BIAS);
    FloatTop();
    FloatGalois(bytes, 123);
  }

  /** Sizes grow strictly, and the index of a size is its own. */
  lemma SizesInvert(s: Scheme, i: nat, j: nat)
    requires InRange(s, i) && InRange(s, j)
    ensures i < j ==> SizeByIndex(s, i) < SizeByIndex(s, j)
    ensures Covers(s, SizeByIndex(s, i)) && IndexBySize(s, SizeByIndex(s, i)) == i
  {
    match s
    case Linear =>
    case PiecewiseLinear => PlInverse(i, j);
    case SmallFloat =>
      FloatInverts(i);
      if i < j {
        FloatsGrow(i, j);
      }
  }

  lemma FloatsGrow(i: nat, j: nat)
    requires i < j && InRange(SmallFloat, j)
    ensures FloatSize(i) < FloatSize(j)
  {
    FloatInRange(i + BIAS);
    FloatInRange(j + BIAS);
    FloatValueMonotone(i + BIAS, j + BIAS);
  }

  lemma FloatInverts(i: nat)
    requires InRange(SmallFloat, i)
    ensures 0 < FloatSize(i) <= FLOAT_MAX && FloatIndex(FloatSize(i)) == i
  {
    FloatInRange(i + BIAS);
    FloatRoundTrip(i + BIAS);
    FloatValueMonotone(0, i + BIAS);
  }

  lemma PowerDivides(j: nat, m: nat)
    requires j <= m
    ensures Pow2(m) % Pow2(j) == 0
  {
    Pow2Add(j, m - j);
    ProductDivides(1, Pow2(j), Pow2(m - j));
  }

  /** Below sixteen the float partitioning rounds up to sixteen. */
  lemma SmallDivides(bytes: nat, k: nat)
    requires 0 < bytes < 16 && bytes % Pow2(k) == 0
    ensures 16 % Pow2(k) == 0
  {
    assert Pow2(4) == 16;
    if k <= 4 {
      PowerDivides(k, 4);
    } else {
      Pow2Monotone(4, k);
      Quotient(bytes, 0, bytes, Pow2(k));
    }
  }

  /** The block size found for a multiple of a power of two is again a multiple of it. */
  lemma ClassKeepsAlignment(s: Scheme, bytes: nat, k: nat)
    requires Covers(s, bytes) && bytes % Pow2(k) == 0
    ensures SizeByIndex(s, IndexBySize(s, bytes)) % Pow2(k) == 0
  {
    match s
    case Linear =>
      assert Pow2(4) == 16;
      assert RoundUp(bytes, 16) == 16 + (bytes - 1) / 16 * 16;
      RoundUpKeepsDivisor(bytes, k, 4);
    case PiecewiseLinear =>
      PlRoundsUp(bytes);
      RoundUpKeepsDivisor(bytes, k, PlGranule(bytes));
    case SmallFloat =>
      FloatKeepsAlignment(bytes, k);
  }

  lemma FloatKeepsAlignment(bytes: nat, k: nat)
    requires 0 < bytes <= FLOAT_MAX && bytes % Pow2(k) == 0
    ensures FloatSize(FloatIndex(bytes)) % Pow2(k) == 0
  {
    FloatSizeIs(bytes);
    if bytes < 16 {
      SmallDivides(bytes, k);
    } else {
      RoundUpKeepsDivisor(bytes, k, Log2(bytes) - 2);
    }
  }

  /** The size found is the request rounded up to its unit, and at least sixteen. */
  lemma FloatSizeIs(bytes: nat)
    requires 0 < bytes <= FLOAT_MAX
    ensures FloatSize(FloatIndex(bytes)) == if bytes < 16 then 16 else RoundUp(bytes, Unit(bytes))
  {
    var f := FloatRoundUp(bytes);
    assert FloatValue(BIAS) == 16 && FloatValue(BIAS - 1) == 14;
    assert f <= 123 by {
      FloatTop();
      FloatGalois(bytes, 123);
    }
    assert bytes <= 16 <==> f <= BIAS by {
      FloatGalois(bytes, BIAS);
    }
    assert bytes == 16 ==> f == BIAS by {
      FloatGalois(16, BIAS - 1);
    }
    FloatInRange(FloatIndex(bytes) + BIAS);
    FloatBounds(bytes);
  }

  // ----- the search for the next bucket of an alignment

  /** An index beyond `i` whose size is a multiple of every valid alignment. */
  function FarIndex(s: Scheme, i: nat): (w: nat)
    ensures w > i && SizeByIndex(s, w) % 4096 == 0
  {
    match s
    case Linear => 255 + 256 * (i / 256 + 1)
    case PiecewiseLinear => 12 + 8 * (i / 8 + 1)
    case SmallFloat =>
      var w := if i < 40 then 40 else i + 1;
      FloatFar(w);
      w
  }

  lemma FloatFar(i: nat)
    requires i >= 40
    ensures FloatSize(i) % 4096 == 0
  {
    var e, m := (i + BIAS) / 4, (i + BIAS) % 4;
    FloatPage(e, m);
    FloatValueAt(e, m);
    PageBelow(FloatValue(i + BIAS));
  }

  lemma FloatPage(e: nat, m: nat)
    requires e >= 13
    ensures (4 + m) * Pow2(e - 1) % 4096 == 0
  {
    Pow2Add(12, e - 13);
    assert Pow2(12) == 4096;
    ProductDivides(4 + m, 4096, Pow2(e - 13));
  }

  lemma PageBelow(v: nat)
    requires v % 4096 == 0
    ensures v % 0x1_0000_0000 % 4096 == 0
  {
  }

  lemma FarIsAligned(s: Scheme, i: nat, k: nat)
    requires k <= 12
    ensures SizeByIndex(s, FarIndex(s, i)) % Pow2(k) == 0
  {
    var v := SizeByIndex(s, FarIndex(s, i));
    assert Pow2(12) == 4096;
    Pow2Add(k, 12 - k);
    DivMod(v, 4096);
    ProductDivides(v / 4096, Pow2(k), Pow2(12 - k));
  }

  /** The loop that skips to the next bucket of the alignment; it always ends. */
  function NextAligned(s: Scheme, i: nat, k: nat): (j: nat)
    requires k <= 12
    ensures j > i && IsAligned(SizeByIndex(s, j), Pow2(k))
    ensures forall m :: i < m < j ==> !IsAligned(SizeByIndex(s, m), Pow2(k))
  {
    FarIsAligned(s, i, k);
    SkipFrom(s, i + 1, k, FarIndex(s, i))
  }

  function SkipFrom(s: Scheme, i: nat, k: nat, ghost far: nat): (j: nat)
    requires i <= far && SizeByIndex(s, far) % Pow2(k) == 0
    ensures j >= i && IsAligned(SizeByIndex(s, j), Pow2(k))
    ensures forall m :: i <= m < j ==> !IsAligned(SizeByIndex(s, m), Pow2(k))
    decreases far - i
  {
    if IsAligned(SizeByIndex(s, i), Pow2(k)) then i else SkipFrom(s, i + 1, k, far)
  }

  /** The same loop as a loop. */
  method SkipToAligned(s: Scheme, i: nat, k: nat) returns (j: nat)
    requires k <= 12
    ensures j == NextAligned(s, i, k)
  {
    FarIsAligned(s, i, k);
    ghost var far := FarIndex(s, i);
    j := i + 1;
    while !IsAligned(SizeByIndex(s, j), Pow2(k))
      invariant j <= far && SkipFrom(s, j, k, far) == SkipFrom(s, i + 1, k, far)
      decreases far - j
    {
      j := j + 1;
    }
  }
}
