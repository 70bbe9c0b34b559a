/** Shared definitions of the memory tests: the test word, the stride size
    and the alignment helpers of tests/test_helper.h. The model is of a
    64-bit build, where a test word and a pointer are both 64 bits wide. */
module Helpers {

  /** testword_t on a 64-bit build. */
  type Word = bv64

  /** TESTWORD_WIDTH: bits in a test word. */
  const TESTWORD_WIDTH: nat := 64

  /** SPIN_SIZE = 1 << 27: the most words processed between two progress
      ticks (and two cancellation polls). */
  const SPIN_SIZE: nat := 0x800_0000

  /** Number of test words in a 64-bit address space (2^64 bytes of 8-byte
      words). Word addresses range over [0, WORD_SPACE); word 0 is NULL. */
  const WORD_SPACE: nat := 0x2000_0000_0000_0000

  /** The largest uintptr_t. */
  const UINTPTR_MAX: bv64 := 0xFFFF_FFFF_FFFF_FFFF

  predicate IsPowerOfTwo(a: bv64) {
    a != 0 && a & (a - 1) == 0
  }

  /** The bits of `v` below the power of two `a` are all clear: the mask
      form of "`v` is a multiple of `a`" that the helpers rely on. For an
      `a` that is not a power of two the mask says nothing about
      divisibility. */
  predicate LowBitsClear(v: bv64, a: bv64) {
    v & (a - 1) == 0
  }

  /** `v + (a - 1)` stays below 2^64, so round_up does not wrap. */
  predicate RoundUpFits(v: bv64, a: bv64) {
    v <= UINTPTR_MAX - (a - 1)
  }

  /** round_down: `value` rounded down to the nearest multiple of `align`. */
  function RoundDown(value: bv64, align: bv64): bv64 {
    value & !(align - 1)
  }

  /** round_up: `value` rounded up to the nearest multiple of `align`; the
      addition wraps modulo 2^64 as uintptr_t arithmetic does. */
  function RoundUp(value: bv64, align: bv64): bv64 {
    (value + (align - 1)) & !(align - 1)
  }

  // The properties below are each one bit-vector fact, or a short chain of
  // such facts; the solver handles 64-bit words only in small steps.

  /** For the alignment of a test word, 8 bytes, clear low bits mean
      divisibility in the unsigned remainder, and both helpers yield a
      multiple of the alignment in that sense. */
  lemma WordAlignmentIsDivisibility(v: bv64)
    ensures LowBitsClear(v, 8) <==> v % 8 == 0
    ensures RoundDown(v, 8) % 8 == 0
    ensures RoundUp(v, 8) % 8 == 0
  {
  }

  /** round_down yields a multiple of the alignment, no larger than the
      value and less than one alignment below it. */
  lemma RoundDownBounds(v: bv64, a: bv64)
    ensures IsPowerOfTwo(a) ==> LowBitsClear(RoundDown(v, a), a)
    ensures RoundDown(v, a) <= v
    ensures IsPowerOfTwo(a) ==> v - RoundDown(v, a) <= a - 1
  {
  }

  /** round_up yields a multiple of the alignment; when `v + a - 1` does not
      overflow it is no smaller than the value and less than one alignment
      above it. */
  lemma RoundUpBounds(v: bv64, a: bv64)
    ensures IsPowerOfTwo(a) ==> LowBitsClear(RoundUp(v, a), a)
    ensures IsPowerOfTwo(a) && RoundUpFits(v, a) ==> v <= RoundUp(v, a)
    ensures IsPowerOfTwo(a) && RoundUpFits(v, a) ==> RoundUp(v, a) - v <= a - 1
  {
    RoundUpOfMultiple(v, a);
    RoundUpAtLeast(v, a);
    RoundUpGap(v, a);
  }

  /** Both helpers are idempotent. */
  lemma RoundingIdempotent(v: bv64, a: bv64)
    ensures RoundDown(RoundDown(v, a), a) == RoundDown(v, a)
    ensures IsPowerOfTwo(a) ==> RoundUp(RoundUp(v, a), a) == RoundUp(v, a)
  {
  }

  /** Multiples of the alignment are left unchanged by both helpers. */
  lemma RoundingFixesMultiples(v: bv64, a: bv64)
    ensures LowBitsClear(v, a) ==> RoundDown(v, a) == v
    ensures IsPowerOfTwo(a) && LowBitsClear(v, a) ==> RoundUp(v, a) == v
  {
    RoundUpOfMultiple(v, a);
  }

  /** round_down(v) <= v <= round_up(v), and the two agree exactly when `v`
      is already a multiple of the alignment. */
  lemma RoundingSandwich(v: bv64, a: bv64)
    requires IsPowerOfTwo(a) && RoundUpFits(v, a)
    ensures RoundDown(v, a) <= v <= RoundUp(v, a)
    ensures RoundDown(v, a) == RoundUp(v, a) <==> LowBitsClear(v, a)
  {
    RoundDownBounds(v, a);
    RoundUpBounds(v, a);
    RoundingFixesMultiples(v, a);
    RoundUpCarries(v, a);
    AddNonZeroMoves(RoundDown(v, a), a);
  }

  // ---------------------------------------------------------------------
  // Bit-level steps.

  lemma RoundUpOfMultiple(v: bv64, a: bv64)
    ensures IsPowerOfTwo(a) && LowBitsClear(v, a) ==> RoundUp(v, a) == v
  {
  }

  lemma LowMaskOfPowerOfTwo(a: bv64)
    ensures IsPowerOfTwo(a) ==> (a - 1) & ((a - 1) + 1) == 0
    ensures UINTPTR_MAX - (a - 1) == !(a - 1)
  {
  }

  lemma FilledSuccIsHighPlusOne(v: bv64, m: bv64)
    ensures m & (m + 1) == 0 ==> (v | m) + 1 == (v & !m) + (m + 1)
  {
  }

  lemma BelowFilledSucc(v: bv64, m: bv64)
    ensures m & (m + 1) == 0 && v <= !m && v & m != 0 ==> v <= (v | m) + 1
  {
  }

  lemma FillIsAdd(v: bv64, m: bv64)
    ensures v | m == v + (m & !v)
  {
  }

  lemma AddSub(v: bv64, x: bv64)
    ensures (v + x) - v == x
  {
  }

  lemma SuccDiff(r: bv64, t: bv64, v: bv64)
    ensures r == t + 1 ==> r - v == (t - v) + 1
  {
  }

  lemma MissingBitsSucc(v: bv64, m: bv64)
    ensures m & (m + 1) == 0 && v & m != 0 ==> (m & !v) + 1 <= m
  {
  }

  lemma AddNonZeroMoves(h: bv64, a: bv64)
    ensures a != 0 ==> h + a != h
  {
  }

  lemma RoundUpAtLeast(v: bv64, a: bv64)
    ensures IsPowerOfTwo(a) && RoundUpFits(v, a) ==> v <= RoundUp(v, a)
  {
    RoundUpOfMultiple(v, a);
    RoundUpCarriesAbove(v, a);
  }

  lemma RoundUpCarriesAbove(v: bv64, a: bv64)
    ensures IsPowerOfTwo(a) && RoundUpFits(v, a) && !LowBitsClear(v, a) ==>
              RoundUp(v, a) == (v | (a - 1)) + 1 && v <= (v | (a - 1)) + 1
  {
    LowMaskOfPowerOfTwo(a);
    RoundUpIsFilledSucc(v, a);
    BelowFilledSucc(v, a - 1);
  }

  lemma RoundUpIsFilledSucc(v: bv64, a: bv64)
    ensures IsPowerOfTwo(a) && !LowBitsClear(v, a) ==> RoundUp(v, a) == (v | (a - 1)) + 1
  {
    LowMaskOfPowerOfTwo(a);
    RoundUpCarries(v, a);
    FilledSuccIsHighPlusOne(v, a - 1);
  }

  lemma RoundUpFillsLowBits(v: bv64, a: bv64)
    ensures IsPowerOfTwo(a) && !LowBitsClear(v, a) ==>
              RoundUp(v, a) - v == ((v | (a - 1)) - v) + 1
  {
    RoundUpIsFilledSucc(v, a);
    SuccDiff(RoundUp(v, a), v | (a - 1), v);
  }

  lemma FilledMinusValue(v: bv64, a: bv64)
    ensures (v | (a - 1)) - v == (a - 1) & !v
  {
    FillIsAdd(v, a - 1);
    AddSub(v, (a - 1) & !v);
  }

  lemma MissingLowBitsSucc(v: bv64, a: bv64)
    ensures IsPowerOfTwo(a) && !LowBitsClear(v, a) ==> ((a - 1) & !v) + 1 <= a - 1
  {
    LowMaskOfPowerOfTwo(a);
    MissingBitsSucc(v, a - 1);
  }

  lemma RoundUpGap(v: bv64, a: bv64)
    ensures IsPowerOfTwo(a) ==> RoundUp(v, a) - v <= a - 1
  {
    RoundUpOfMultiple(v, a);
    RoundUpFillsLowBits(v, a);
    FilledMinusValue(v, a);
    MissingLowBitsSucc(v, a);
  }

  lemma RoundUpCarries(v: bv64, a: bv64)
    ensures IsPowerOfTwo(a) && !LowBitsClear(v, a) ==> RoundUp(v, a) == RoundDown(v, a) + a
  {
  }
}
