/** The bitmap operations of mimalloc without interference: the search for a run of zero bits in a
    field, and setting or clearing a run that may cross fields.

    A field is a 64-bit word, here the set of the positions of its one bits. */
module BitmapFields {

  const BITS: nat := 64

  type Word = set<nat>

  predicate IsWord(w: Word) {
    forall b :: b in w ==> b < BITS
  }

  const FULL: Word := set b: nat | b < BITS

  /** `mi_bitmap_mask_`: `count` one bits from `bit` on. */
  function Mask(count: nat, bit: nat): (m: Word)
    ensures forall b :: b in m <==> bit <= b < bit + count
  {
    if count == 0 then {} else {bit} + Mask(count - 1, bit + 1)
  }

  // ----- a run of zero bits in one field

  /** The `count` bits from `bit` on are zero. */
  predicate FreeAt(w: Word, count: nat, bit: nat) {
    w !! Mask(count, bit)
  }

  /** The lowest zero bit at or above `i` (`mi_ctz(~map)` from 0). */
  function LowestZero(w: Word, i: nat): (z: nat)
    requires i <= BITS
    ensures i <= z <= BITS && (forall b :: i <= b < z ==> b in w) && (z < BITS ==> z !in w)
    decreases BITS - i
  {
    if i == BITS || i !in w then i else LowestZero(w, i + 1)
  }

  /** There is a one bit below `n`. */
  predicate HasOne(w: Word, n: nat) {
    exists b :: b in w && b < n
  }

  /** The highest one bit below `n` (63 - `mi_clz`). */
  function HighestOne(w: Word, n: nat): (h: nat)
    requires HasOne(w, n)
    ensures h in w && h < n && forall b :: h < b < n ==> b !in w
  {
    if n - 1 in w then n - 1 else HighestOne(w, n - 1)
  }

  /** `_mi_bitmap_try_find_claim_field`, for both bit-scan variants: it claims the lowest run of
      `count` zero bits of the field, and fails only when there is none. */
  method TryFindClaimField(bitmap: array<Word>, idx: nat, count: nat, fast: bool) returns (found: bool, bit: nat)
    requires idx < bitmap.Length && IsWord(bitmap[idx]) && 0 < count <= BITS
    modifies bitmap
    ensures found <==> exists b: nat :: b + count <= BITS && FreeAt(old(bitmap[idx]), count, b)
    ensures found ==>
              && bit + count <= BITS && FreeAt(old(bitmap[idx]), count, bit)
              && (forall b: nat :: b < bit ==> !FreeAt(old(bitmap[idx]), count, b))
              && bitmap[..] == old(bitmap[..])[idx := old(bitmap[idx]) + Mask(count, bit)]
    ensures !found ==> bitmap[..] == old(bitmap[..])
  {
    var word := bitmap[idx];
    bit := 0;
    if word == FULL {
      AllTaken(word, count, BITS - count + 1);
      return false, 0;
    }
    if fast {
      bit := LowestZero(word, 0);
      AllTaken(word, count, bit);
    }
    while bit <= BITS - count
      invariant bitmap[..] == old(bitmap[..]) && word == old(bitmap[idx])
      invariant forall b: nat :: b < bit ==> !FreeAt(word, count, b)
      decreases BITS - bit
    {
      var mapm := word * Mask(count, bit);
      if mapm == {} {
        assert FreeAt(word, count, bit);
        bitmap[idx] := word + Mask(count, bit);
        return true, bit;
      }
      assert HasOne(mapm, BITS) by {
        var some :| some in mapm;
        assert some in word;
      }
      var high := HighestOne(mapm, BITS);
      var shift := if !fast || count == 1 then 1 else high + 1 - bit;
      SkipIsSafe(word, count, bit, high, shift);
      bit := bit + shift;
    }
    found := false;
  }

  /** No run starts at a one bit. */
  lemma AllTaken(word: Word, count: nat, n: nat)
    requires 0 < count && forall b: nat :: b < n ==> b in word
    ensures forall b: nat :: b < n ==> !FreeAt(word, count, b)
  {
    forall b: nat | b < n
      ensures !FreeAt(word, count, b)
    {
      assert b in word && b in Mask(count, b);
    }
  }

  /** No run starts between a mask's position and the highest one bit it met. */
  lemma SkipIsSafe(word: Word, count: nat, bit: nat, high: nat, shift: nat)
    requires high in word && bit <= high < bit + count && 0 < shift <= high + 1 - bit
    ensures forall b: nat :: bit <= b < bit + shift ==> !FreeAt(word, count, b)
  {
    forall b: nat | bit <= b < bit + shift
      ensures !FreeAt(word, count, b)
    {
      assert high in word && high in Mask(count, b);
    }
  }

  // ----- a run of bits that may cross fields

  datatype Masks = Masks(pre: Word, mid: Word, post: Word, midCount: nat)

  /** `mi_bitmap_mask_across`: the masks for the first field, the whole fields and the last one. */
  function MaskAcross(bit: nat, count: nat): Masks
    requires bit < BITS && 0 < count
  {
    if bit + count <= BITS then
      Masks(Mask(count, bit), {}, {}, 0)
    else
      var rest := count - (BITS - bit);
      Masks(Mask(BITS - bit, bit), FULL, if rest % BITS == 0 then {} else Mask(rest % BITS, 0), rest / BITS)
  }

  /** The mask that falls on the `k`-th field from the first. */
  function Part(m: Masks, k: nat): Word {
    if k == 0 then m.pre else if k <= m.midCount then m.mid else if k == m.midCount + 1 then m.post else {}
  }

  /** How many fields the run touches. */
  function Parts(m: Masks): nat {
    m.midCount + if m.post == {} then 1 else 2
  }

  /** Bit `b` of the `k`-th field, counted from the first bit of the first field, is in the run. */
  predicate InRun(bit: nat, count: nat, k: nat, b: nat) {
    bit <= k * BITS + b < bit + count
  }

  /** The decomposition covers the flat run, bit by bit, and nothing else. */
  lemma PartIsRun(bit: nat, count: nat, k: nat, b: nat)
    requires bit < BITS && 0 < count && b < BITS
    ensures b in Part(MaskAcross(bit, count), k) <==> InRun(bit, count, k, b)
  {
    if bit + count > BITS {
      var rest := count - (BITS - bit);
      assert bit + count == BITS + (rest / BITS) * BITS + rest % BITS;
    }
  }

  lemma PartIsWord(bit: nat, count: nat, k: nat)
    requires bit < BITS && 0 < count
    ensures IsWord(Part(MaskAcross(bit, count), k))
  {
  }

  /** The run fits: its last mask falls on a field of the bitmap. */
  lemma MasksFit(idx: nat, bit: nat, count: nat, fields: nat)
    requires bit < BITS && 0 < count && idx * BITS + bit + count <= fields * BITS
    ensures idx + Parts(MaskAcross(bit, count)) <= fields
  {
    if bit + count > BITS {
      var rest := count - (BITS - bit);
      assert bit + count == BITS + (rest / BITS) * BITS + rest % BITS;
      if rest % BITS != 0 {
        assert 0 in Mask(rest % BITS, 0);
      }
    }
  }

  // ----- the flat view

  /** Bit `f * 64 + b` of the bitmap seen as one sequence of bits. */
  predicate Bit(fields: seq<Word>, f: nat, b: nat)
    requires f < |fields|
  {
    b in fields[f]
  }

  /** Position `f * 64 + b` lies in the `count` bits from bit `bit` of field `idx` on. */
  predicate InRange(idx: nat, bit: nat, count: nat, f: nat, b: nat) {
    b < BITS && idx * BITS + bit <= f * BITS + b < idx * BITS + bit + count
  }

  /** `after` is `before` with the bits of the range all set to `on`. */
  ghost predicate RangeSet(before: seq<Word>, after: seq<Word>, idx: nat, bit: nat, count: nat, on: bool) {
    && |after| == |before|
    && forall f, b :: 0 <= f < |after| && 0 <= b ==>
         (Bit(after, f, b) <==> if InRange(idx, bit, count, f, b) then on else Bit(before, f, b))
  }

  /** Every bit of the range is `on`. */
  ghost predicate RangeAll(fields: seq<Word>, idx: nat, bit: nat, count: nat, on: bool) {
    forall f, b :: 0 <= f < |fields| && InRange(idx, bit, count, f, b) ==> Bit(fields, f, b) == on
  }

  // ----- claim and unclaim, mask by mask

  /** A word with the bits of a mask set or cleared. */
  function Over(w: Word, mask: Word, on: bool): Word {
    if on then w + mask else w - mask
  }

  /** The first `n` masks of the run applied, one field after another. */
  function Apply(fields: seq<Word>, idx: nat, m: Masks, n: nat, on: bool): (after: seq<Word>)
    requires idx + n <= |fields|
    ensures |after| == |fields|
  {
    if n == 0 then
      fields
    else
      Apply(fields, idx, m, n - 1, on)[idx + n - 1 := Over(fields[idx + n - 1], Part(m, n - 1), on)]
  }

  /** In the first `n` fields of the run every masked bit is zero. */
  predicate PartsZero(fields: seq<Word>, idx: nat, m: Masks, n: nat)
    requires idx + n <= |fields|
  {
    n == 0 || (PartsZero(fields, idx, m, n - 1) && fields[idx + n - 1] * Part(m, n - 1) == {})
  }

  /** In the first `n` fields of the run every masked bit is one. */
  predicate PartsOne(fields: seq<Word>, idx: nat, m: Masks, n: nat)
    requires idx + n <= |fields|
  {
    n == 0 || (PartsOne(fields, idx, m, n - 1) && fields[idx + n - 1] * Part(m, n - 1) == Part(m, n - 1))
  }

  lemma {:induction false} EachPart(fields: seq<Word>, idx: nat, m: Masks, n: nat, on: bool)
    requires idx + n <= |fields|
    ensures forall f :: 0 <= f < |fields| ==>
              Apply(fields, idx, m, n, on)[f]
              == if idx <= f < idx + n then Over(fields[f], Part(m, f - idx), on) else fields[f]
    ensures PartsZero(fields, idx, m, n) <==> forall f :: idx <= f < idx + n ==> fields[f] * Part(m, f - idx) == {}
    ensures PartsOne(fields, idx, m, n) <==> forall f :: idx <= f < idx + n ==> Part(m, f - idx) <= fields[f]
  {
    if n > 0 {
      EachPart(fields, idx, m, n - 1, on);
      assert Part(m, n - 1) <= fields[idx + n - 1] <==> fields[idx + n - 1] * Part(m, n - 1) == Part(m, n - 1);
    }
  }

  /** `mi_atomic_or`: the bits of the mask are set; the old word is returned. */
  method AtomicOr(bitmap: array<Word>, field: nat, mask: Word) returns (prev: Word)
    requires field < bitmap.Length
    modifies bitmap
    ensures prev == old(bitmap[field]) && bitmap[..] == old(bitmap[..])[field := prev + mask]
  {
    prev := bitmap[field];
    bitmap[field] := prev + mask;
  }

  /** `mi_atomic_and` of a complement: the bits of the mask are cleared. */
  method AtomicAndNot(bitmap: array<Word>, field: nat, mask: Word) returns (prev: Word)
    requires field < bitmap.Length
    modifies bitmap
    ensures prev == old(bitmap[field]) && bitmap[..] == old(bitmap[..])[field := prev - mask]
  {
    prev := bitmap[field];
    bitmap[field] := prev - mask;
  }

  lemma InRangeIsPart(idx: nat, bit: nat, count: nat, f: nat, b: nat)
    requires bit < BITS && 0 < count
    ensures InRange(idx, bit, count, f, b) <==> idx <= f && b in Part(MaskAcross(bit, count), f - idx)
  {
    if idx <= f {
      PartIsWord(bit, count, f - idx);
      if b < BITS {
        PartIsRun(bit, count, f - idx, b);
      }
    }
  }

  /** Applying every mask sets exactly the flat range. */
  lemma AppliedIsRange(before: seq<Word>, after: seq<Word>, idx: nat, bit: nat, count: nat, on: bool)
    requires bit < BITS && 0 < count
    requires idx + Parts(MaskAcross(bit, count)) <= |before|
    requires after == Apply(before, idx, MaskAcross(bit, count), Parts(MaskAcross(bit, count)), on)
    ensures RangeSet(before, after, idx, bit, count, on)
  {
    EachPart(before, idx, MaskAcross(bit, count), Parts(MaskAcross(bit, count)), on);
    forall f: nat, b: nat | f < |after|
      ensures Bit(after, f, b) <==> if InRange(idx, bit, count, f, b) then on else Bit(before, f, b)
    {
      InRangeIsPart(idx, bit, count, f, b);
    }
  }

  lemma PartsZeroIsRange(before: seq<Word>, idx: nat, bit: nat, count: nat)
    requires bit < BITS && 0 < count && idx + Parts(MaskAcross(bit, count)) <= |before|
    ensures var m := MaskAcross(bit, count);
            PartsZero(before, idx, m, Parts(m)) <==> RangeAll(before, idx, bit, count, false)
  {
    var m := MaskAcross(bit, count);
    var n := Parts(m);
    EachPart(before, idx, m, n, true);
    if PartsZero(before, idx, m, n) {
      forall f: nat, b: nat | f < |before| && InRange(idx, bit, count, f, b)
        ensures !Bit(before, f, b)
      {
        InRangeIsPart(idx, bit, count, f, b);
        assert b !in before[f] * Part(m, f - idx);
      }
    }
    if RangeAll(before, idx, bit, count, false) {
      forall f: nat | idx <= f < idx + n && f < |before|
        ensures before[f] * Part(m, f - idx) == {}
      {
        forall b | b in Part(m, f - idx)
          ensures b !in before[f]
        {
          InRangeIsPart(idx, bit, count, f, b);
          assert Bit(before, f, b) == false;
        }
      }
    }
  }

  lemma PartsOneIsRange(before: seq<Word>, idx: nat, bit: nat, count: nat)
    requires bit < BITS && 0 < count && idx + Parts(MaskAcross(bit, count)) <= |before|
    ensures var m := MaskAcross(bit, count);
            PartsOne(before, idx, m, Parts(m)) <==> RangeAll(before, idx, bit, count, true)
  {
    var m := MaskAcross(bit, count);
    var n := Parts(m);
    EachPart(before, idx, m, n, true);
    if PartsOne(before, idx, m, n) {
      forall f: nat, b: nat | f < |before| && InRange(idx, bit, count, f, b)
        ensures Bit(before, f, b)
      {
        InRangeIsPart(idx, bit, count, f, b);
        assert Part(m, f - idx) <= before[f];
      }
    }
    if RangeAll(before, idx, bit, count, true) {
      forall f: nat | idx <= f < idx + n && f < |before|
        ensures Part(m, f - idx) <= before[f]
      {
        forall b | b in Part(m, f - idx)
          ensures b in before[f]
        {
          InRangeIsPart(idx, bit, count, f, b);
          assert Bit(before, f, b);
        }
      }
    }
  }

  /** `_mi_bitmap_claim_across`: it sets the flat range and says whether it was all zero and whether
      any of it was zero. */
  method ClaimAcross(bitmap: array<Word>, idx: nat, bit: nat, count: nat) returns (allZero: bool, anyZero: bool)
    requires bit < BITS && 0 < count && idx * BITS + bit + count <= bitmap.Length * BITS
    modifies bitmap
    ensures RangeSet(old(bitmap[..]), bitmap[..], idx, bit, count, true)
    ensures allZero <==> RangeAll(old(bitmap[..]), idx, bit, count, false)
    ensures anyZero <==> !RangeAll(old(bitmap[..]), idx, bit, count, true)
  {
    MasksFit(idx, bit, count, bitmap.Length);
    allZero, anyZero := ClaimMasks(bitmap, idx, MaskAcross(bit, count));
    AppliedIsRange(old(bitmap[..]), bitmap[..], idx, bit, count, true);
    PartsZeroIsRange(old(bitmap[..]), idx, bit, count);
    PartsOneIsRange(old(bitmap[..]), idx, bit, count);
  }

  /** The three kinds of mask applied in turn. */
  method ClaimMasks(bitmap: array<Word>, idx: nat, m: Masks) returns (allZero: bool, anyZero: bool)
    requires idx + Parts(m) <= bitmap.Length
    modifies bitmap
    ensures bitmap[..] == Apply(old(bitmap[..]), idx, m, Parts(m), true)
    ensures allZero <==> PartsZero(old(bitmap[..]), idx, m, Parts(m))
    ensures anyZero <==> !PartsOne(old(bitmap[..]), idx, m, Parts(m))
  {
    ghost var before := bitmap[..];
    var prev := AtomicOr(bitmap, idx, m.pre);
    allZero := prev * m.pre == {};
    anyZero := prev * m.pre != m.pre;
    var field := idx + 1;
    while field < idx + 1 + m.midCount
      invariant idx + 1 <= field <= idx + 1 + m.midCount
      invariant bitmap[..] == Apply(before, idx, m, field - idx, true)
      invariant forall f :: field <= f < bitmap.Length ==> bitmap[f] == before[f]
      invariant allZero <==> PartsZero(before, idx, m, field - idx)
      invariant anyZero <==> !PartsOne(before, idx, m, field - idx)
    {
      prev := AtomicOr(bitmap, field, m.mid);
      if prev * m.mid != {} {
        allZero := false;
      }
      if prev * m.mid != m.mid {
        anyZero := true;
      }
      field := field + 1;
    }
    if m.post != {} {
      prev := AtomicOr(bitmap, field, m.post);
      if prev * m.post != {} {
        allZero := false;
      }
      if prev * m.post != m.post {
        anyZero := true;
      }
      field := field + 1;
    }
  }

  /** `_mi_bitmap_unclaim_across`: it clears the flat range and says whether it was all one. */
  method UnclaimAcross(bitmap: array<Word>, idx: nat, bit: nat, count: nat) returns (allOne: bool)
    requires bit < BITS && 0 < count && idx * BITS + bit + count <= bitmap.Length * BITS
    modifies bitmap
    ensures RangeSet(old(bitmap[..]), bitmap[..], idx, bit, count, false)
    ensures allOne <==> RangeAll(old(bitmap[..]), idx, bit, count, true)
  {
    MasksFit(idx, bit, count, bitmap.Length);
    allOne := UnclaimMasks(bitmap, idx, MaskAcross(bit, count));
    AppliedIsRange(old(bitmap[..]), bitmap[..], idx, bit, count, false);
    PartsOneIsRange(old(bitmap[..]), idx, bit, count);
  }

  method UnclaimMasks(bitmap: array<Word>, idx: nat, m: Masks) returns (allOne: bool)
    requires idx + Parts(m) <= bitmap.Length
    modifies bitmap
    ensures bitmap[..] == Apply(old(bitmap[..]), idx, m, Parts(m), false)
    ensures allOne <==> PartsOne(old(bitmap[..]), idx, m, Parts(m))
  {
    ghost var before := bitmap[..];
    var prev := AtomicAndNot(bitmap, idx, m.pre);
    allOne := prev * m.pre == m.pre;
    var field := idx + 1;
    while field < idx + 1 + m.midCount
      invariant idx + 1 <= field <= idx + 1 + m.midCount
      invariant bitmap[..] == Apply(before, idx, m, field - idx, false)
      invariant forall f :: field <= f < bitmap.Length ==> bitmap[f] == before[f]
      invariant allOne <==> PartsOne(before, idx, m, field - idx)
    {
      prev := AtomicAndNot(bitmap, field, m.mid);
      if prev * m.mid != m.mid {
        allOne := false;
      }
      field := field + 1;
    }
    if m.post != {} {
      prev := AtomicAndNot(bitmap, field, m.post);
      if prev * m.post != m.post {
        allOne := false;
      }
      field := field + 1;
    }
  }

  /** Unclaiming a range that a claim found free gives the bitmap back, and each call's answer
      about the other's work is `all`. */
  lemma ClaimUnclaim(before: seq<Word>, mid: seq<Word>, after: seq<Word>, idx: nat, bit: nat, count: nat)
    requires bit < BITS
    requires RangeSet(before, mid, idx, bit, count, true) && RangeSet(mid, after, idx, bit, count, false)
    ensures RangeAll(mid, idx, bit, count, true) && RangeAll(after, idx, bit, count, false)
    ensures after == before <==> RangeAll(before, idx, bit, count, false)
  {
    forall f: nat, b: nat | f < |before| && InRange(idx, bit, count, f, b)
      ensures Bit(mid, f, b) && !Bit(after, f, b)
    {
    }
    if RangeAll(before, idx, bit, count, false) {
      forall f: nat | f < |before|
        ensures after[f] == before[f]
      {
        forall b: nat | b in after[f] || b in before[f]
          ensures b in after[f] && b in before[f]
        {
          assert Bit(after, f, b) <==> (if InRange(idx, bit, count, f, b) then false else Bit(mid, f, b));
          assert Bit(mid, f, b) <==> (if InRange(idx, bit, count, f, b) then true else Bit(before, f, b));
        }
      }
    }
  }
}
