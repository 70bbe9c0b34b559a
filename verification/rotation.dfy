/** The walking-one pattern of the moving-inversions test: a test word with
    one bit set, rotated left by one bit after each word on the way up and
    right by one bit before each word on the way down. */
module Rotation {
  import opened Helpers

  /** pattern << 1 | pattern >> (TESTWORD_WIDTH - 1): rotate left one bit. */
  function Rotl(w: Word): Word {
    (w << 1) | (w >> 63)
  }

  /** pattern >> 1 | pattern << (TESTWORD_WIDTH - 1): rotate right one bit. */
  function Rotr(w: Word): Word {
    (w >> 1) | (w << 63)
  }

  /** Exactly one bit of `w` is set. */
  predicate OneBit(w: Word) {
    IsPowerOfTwo(w)
  }

  /** (testword_t)1 << offset: the pattern each pass starts from. The shift
      is only defined for offsets below the word width. */
  function FirstPattern(offset: nat): Word
    requires offset < TESTWORD_WIDTH
  {
    (1 as Word) << offset
  }

  /** `p` rotated left `n` times. */
  function RotlN(p: Word, n: nat): Word {
    if n == 0 then p else Rotl(RotlN(p, n - 1))
  }

  lemma RotrUndoesRotl(w: Word)
    ensures Rotr(Rotl(w)) == w
  {
  }

  lemma RotlUndoesRotr(w: Word)
    ensures Rotl(Rotr(w)) == w
  {
  }

  lemma RotlKeepsOneBit(w: Word)
    ensures OneBit(w) ==> OneBit(Rotl(w))
  {
  }

  lemma RotrKeepsOneBit(w: Word)
    ensures OneBit(w) ==> OneBit(Rotr(w))
  {
  }

  /** The first pattern has exactly one bit set, bit `offset`. */
  lemma FirstPatternOneBit(offset: nat)
    requires offset < TESTWORD_WIDTH
    ensures OneBit(FirstPattern(offset))
  {
  }

  /** Every pattern of a pass has exactly one bit set. */
  lemma {:induction false} RotlNKeepsOneBit(p: Word, n: nat)
    ensures OneBit(p) ==> OneBit(RotlN(p, n))
  {
    if n > 0 {
      RotlNKeepsOneBit(p, n - 1);
      RotlKeepsOneBit(RotlN(p, n - 1));
    }
  }

  /** Rotating first and then n more times is rotating n + 1 times. */
  lemma {:induction false} RotlNAfterRotl(p: Word, n: nat)
    ensures RotlN(Rotl(p), n) == RotlN(p, n + 1)
  {
    if n > 0 {
      RotlNAfterRotl(p, n - 1);
    }
  }

  /** One right rotation takes the pattern back one step. */
  lemma RotrStepsBack(p: Word, n: nat)
    ensures Rotr(RotlN(p, n + 1)) == RotlN(p, n)
  {
    RotrUndoesRotl(RotlN(p, n));
  }
}
