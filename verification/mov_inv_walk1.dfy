/** The moving inversions test with a walking one: init writes to the k-th
    word of the map the pattern 1 << offset rotated left k times (shown
    complemented when `inverse` is set); each iteration checks that image
    from the bottom up while writing its complement, then retraces the
    rotations from the top down, checking the complement and writing the
    image back. */
module MovInvWalk1 {
  import opened Helpers
  import opened Seqs
  import opened Memory
  import opened Rotation
  import opened Walker
  import opened Engine
  import opened Passes

  function InitPass(vcpu: int, bail: seq<bool>, inverse: bool, chunks: seq<Span>, s: State): State {
    Walk(WalkInit(inverse), vcpu, bail, s, ForwardBlocks(chunks))
  }

  function UpPass(vcpu: int, bail: seq<bool>, inverse: bool, chunks: seq<Span>, s: State): State {
    Walk(WalkUp(inverse), vcpu, bail, s, ForwardBlocks(chunks))
  }

  function DownPass(vcpu: int, bail: seq<bool>, inverse: bool, chunks: seq<Span>, s: State): State {
    Walk(WalkDown(inverse), vcpu, bail, s, ReverseBlocks(chunks))
  }

  /** One iteration: the pattern restarts at `first`, then the bottom-up
      pass and the top-down pass. */
  function Iteration(vcpu: int, bail: seq<bool>, first: Word, inverse: bool, chunks: seq<Span>, s: State): State {
    DownPass(vcpu, bail, inverse, chunks, UpPass(vcpu, bail, inverse, chunks, s.(pattern := first)))
  }

  function Iterations(vcpu: int, bail: seq<bool>, first: Word, inverse: bool, chunks: seq<Span>, s: State, n: nat): State
    decreases n
  {
    if n == 0 then s
    else Iterations(vcpu, bail, first, inverse, chunks, Iteration(vcpu, bail, first, inverse, chunks, s), n - 1)
  }

  /** test_mov_inv_walk1 for one vcpu. The shift 1 << offset is only
      defined for offsets below the word width. */
  function TestMovInvWalk1(vcpu: int, iterations: int, offset: int, inverse: bool,
                           chunks: seq<Span>, mem: Mem, bail: seq<bool>): Outcome
    requires 0 <= offset < TESTWORD_WIDTH
  {
    var first := FirstPattern(offset);
    var init := InitPass(vcpu, bail, inverse, chunks, Start(mem, first));
    Finish(Iterations(vcpu, bail, first, inverse, chunks, init, if iterations > 0 then iterations else 0))
  }

  /** The top-down pass with the reverse loop as written, which also stops
      when `--ps` yields address 0. */
  function DownPassAsWritten(vcpu: int, bail: seq<bool>, inverse: bool, chunks: seq<Span>, s: State): State {
    Walk(WalkDown(inverse), vcpu, bail, s, ReverseBlocksAsWritten(chunks))
  }

  function IterationAsWritten(vcpu: int, bail: seq<bool>, first: Word, inverse: bool, chunks: seq<Span>, s: State): State {
    DownPassAsWritten(vcpu, bail, inverse, chunks, UpPass(vcpu, bail, inverse, chunks, s.(pattern := first)))
  }

  function IterationsAsWritten(vcpu: int, bail: seq<bool>, first: Word, inverse: bool, chunks: seq<Span>, s: State, n: nat): State
    decreases n
  {
    if n == 0 then s
    else IterationsAsWritten(vcpu, bail, first, inverse, chunks,
                             IterationAsWritten(vcpu, bail, first, inverse, chunks, s), n - 1)
  }

  /** test_mov_inv_walk1 with the top-down loop exactly as written. */
  function TestMovInvWalk1AsWritten(vcpu: int, iterations: int, offset: int, inverse: bool,
                                    chunks: seq<Span>, mem: Mem, bail: seq<bool>): Outcome
    requires 0 <= offset < TESTWORD_WIDTH
  {
    var first := FirstPattern(offset);
    var init := InitPass(vcpu, bail, inverse, chunks, Start(mem, first));
    Finish(IterationsAsWritten(vcpu, bail, first, inverse, chunks, init, if iterations > 0 then iterations else 0))
  }

  /** The k-th word of `words` holds rotl^k(first), shown. */
  ghost predicate Image(m: Mem, words: seq<nat>, inverse: bool, first: Word) {
    forall k :: 0 <= k < |words| ==> Read(m, words[k]) == Shown(inverse, RotlN(first, k))
  }

  /** The k-th word of `words` holds the complement of rotl^k(first), shown. */
  ghost predicate ComplementImage(m: Mem, words: seq<nat>, inverse: bool, first: Word) {
    forall k :: 0 <= k < |words| ==> Read(m, words[k]) == !Shown(inverse, RotlN(first, k))
  }

  /** Every pattern of the test has exactly one bit set. */
  lemma PatternsOneBit(offset: nat, k: nat)
    requires offset < TESTWORD_WIDTH
    ensures OneBit(RotlN(FirstPattern(offset), k))
  {
    FirstPatternOneBit(offset);
    RotlNKeepsOneBit(FirstPattern(offset), k);
  }

  // ---------------------------------------------------------------------
  // The init pass.

  /** Init writes rotl^k(first), shown, to the k-th word of the map in
      chunk-then-address order, the pattern carrying over from stride to
      stride and chunk to chunk; it touches no other word, reports nothing,
      and leaves the pattern at rotl^N(first) for a map of N words. */
  lemma InitWritesImage(vcpu: int, bail: seq<bool>, inverse: bool, chunks: seq<Span>, s: State)
    requires vcpu >= 0 && !s.bailed && NeverRaised(bail) && Ordered(chunks)
    ensures var r := InitPass(vcpu, bail, inverse, chunks, s);
            var words := ChunkWords(chunks);
            && !r.bailed && r.ticks == s.ticks + StrideTotal(chunks)
            && r.cells.errors == s.cells.errors
            && Image(r.cells.mem, words, inverse, s.pattern)
            && (forall a :: a !in words ==> Read(r.cells.mem, a) == Read(s.cells.mem, a))
            && r.pattern == RotlN(s.pattern, |words|)
  {
    var words := ChunkWords(chunks);
    var act := WalkInit(inverse);
    var ops := Schedule(act, s.pattern, |words|);
    ForwardPassQuiet(act, vcpu, bail, s, chunks);
    StepWordsIsExecOps(act, s.cells, s.pattern, words);
    InitSchedule(inverse, s.pattern, |words|);
    OrderedWordsIncrease(chunks);
    IncreasingIsDistinct(words);
    ExecOpsEffect(s.cells, words, ops);
    MismatchesEmpty(s.cells.mem, words, ops);
  }

  // ---------------------------------------------------------------------
  // The bottom-up pass.

  /** From any memory, the bottom-up pass started at `first` reports
      (p, expect, actual, true) for exactly the words whose contents differ
      from the image, and writes the complement of the image. */
  lemma UpPassEffect(vcpu: int, bail: seq<bool>, inverse: bool, chunks: seq<Span>, s: State)
    requires vcpu >= 0 && !s.bailed && NeverRaised(bail) && Ordered(chunks)
    ensures var r := UpPass(vcpu, bail, inverse, chunks, s);
            var words := ChunkWords(chunks);
            var ops := Schedule(WalkUp(inverse), s.pattern, |words|);
            && !r.bailed && r.ticks == s.ticks + StrideTotal(chunks)
            && r.cells.errors == s.cells.errors + Mismatches(s.cells.mem, words, ops)
            && (forall k :: 0 <= k < |words| ==> ops[k] == UpOp(inverse, RotlN(s.pattern, k)))
            && ComplementImage(r.cells.mem, words, inverse, s.pattern)
            && (forall a :: a !in words ==> Read(r.cells.mem, a) == Read(s.cells.mem, a))
            && r.pattern == RotlN(s.pattern, |words|)
  {
    var words := ChunkWords(chunks);
    var act := WalkUp(inverse);
    var ops := Schedule(act, s.pattern, |words|);
    ForwardPassQuiet(act, vcpu, bail, s, chunks);
    StepWordsIsExecOps(act, s.cells, s.pattern, words);
    UpSchedule(inverse, s.pattern, |words|);
    OrderedWordsIncrease(chunks);
    IncreasingIsDistinct(words);
    ExecOpsEffect(s.cells, words, ops);
  }

  /** The bottom-up pass over the image expects exactly what init wrote:
      it reports nothing. */
  lemma UpPassOverImage(vcpu: int, bail: seq<bool>, inverse: bool, chunks: seq<Span>, s: State)
    requires vcpu >= 0 && !s.bailed && NeverRaised(bail) && Ordered(chunks)
    requires Image(s.cells.mem, ChunkWords(chunks), inverse, s.pattern)
    ensures UpPass(vcpu, bail, inverse, chunks, s).cells.errors == s.cells.errors
  {
    var words := ChunkWords(chunks);
    var ops := Schedule(WalkUp(inverse), s.pattern, |words|);
    UpPassEffect(vcpu, bail, inverse, chunks, s);
    MismatchesEmpty(s.cells.mem, words, ops);
  }

  // ---------------------------------------------------------------------
  // The top-down pass.

  /** The patterns of a pass over n words: rotl^j(first) for word j. */
  function Patterns(first: Word, n: nat): (pats: seq<Word>)
    ensures |pats| == n
    ensures forall j :: 0 <= j < n ==> pats[j] == RotlN(first, j)
  {
    seq(n, j requires 0 <= j < n => RotlN(first, j))
  }

  /** Visiting the words in reverse with the top-down ops of the patterns
      `pats`, counted from the top, writes each word's shown pattern and
      touches no other word. */
  lemma ReverseDownStores(inverse: bool, c: Cells, words: seq<nat>, ops: seq<WordOp>, pats: seq<Word>)
    requires Distinct(words) && |ops| == |words| == |pats|
    requires forall k :: 0 <= k < |ops| ==> ops[k] == DownOp(inverse, pats[|words| - 1 - k])
    ensures var m := ExecOps(c, Reverse(words), ops).mem;
            && (forall j :: 0 <= j < |words| ==> Read(m, words[j]) == Shown(inverse, pats[j]))
            && forall a :: a !in words ==> Read(m, a) == Read(c.mem, a)
  {
    var n := |words|;
    var down := Reverse(words);
    ReverseDistinct(words);
    ReverseMembers(words);
    ExecOpsMemory(c, down, ops);
    var m := ExecOps(c, down, ops).mem;
    forall j | 0 <= j < n
      ensures Read(m, words[j]) == Shown(inverse, pats[j])
    {
      assert down[n - 1 - j] == words[j];
    }
  }

  /** Visiting the words in reverse with the top-down ops of the patterns
      `pats` reports nothing when every word holds the complement of its
      shown pattern. */
  lemma ReverseDownChecksPass(inverse: bool, m: Mem, words: seq<nat>, ops: seq<WordOp>, pats: seq<Word>)
    requires |ops| == |words| == |pats|
    requires forall k :: 0 <= k < |ops| ==> ops[k] == DownOp(inverse, pats[|words| - 1 - k])
    requires forall j :: 0 <= j < |words| ==> Read(m, words[j]) == !Shown(inverse, pats[j])
    ensures Mismatches(m, Reverse(words), ops) == []
  {
    var n := |words|;
    var down := Reverse(words);
    forall k | 0 <= k < n
      ensures !Fails(ops[k], Read(m, down[k]))
    {
      assert down[k] == words[n - 1 - k];
    }
    MismatchesEmpty(m, down, ops);
  }

  /** The ops of a top-down pass, applied to the words of the map in
      reverse: the image is written back and no other word changes. */
  lemma DownOpsEffect(inverse: bool, c: Cells, first: Word, words: seq<nat>, ops: seq<WordOp>)
    requires Distinct(words) && |ops| == |words|
    requires forall k :: 0 <= k < |ops| ==> ops[k] == DownOp(inverse, RotlN(first, |words| - 1 - k))
    ensures var m := ExecOps(c, Reverse(words), ops).mem;
            && Image(m, words, inverse, first)
            && forall a :: a !in words ==> Read(m, a) == Read(c.mem, a)
  {
    ReverseDownStores(inverse, c, words, ops, Patterns(first, |words|));
  }

  /** Over the complement of the image, the ops of a top-down pass report
      nothing. */
  lemma DownOpsQuiet(inverse: bool, m: Mem, first: Word, words: seq<nat>, ops: seq<WordOp>)
    requires |ops| == |words|
    requires forall k :: 0 <= k < |ops| ==> ops[k] == DownOp(inverse, RotlN(first, |words| - 1 - k))
    requires ComplementImage(m, words, inverse, first)
    ensures Mismatches(m, Reverse(words), ops) == []
  {
    ReverseDownChecksPass(inverse, m, words, ops, Patterns(first, |words|));
  }

  /** The top-down inner loop over the words of the map in reverse, started
      at rotl^N(first): it writes the image back, touches no other word, and
      ends at `first`. */
  lemma DownWords(inverse: bool, c: Cells, first: Word, words: seq<nat>)
    requires Distinct(words)
    ensures var n := |words|;
            var ops := Schedule(WalkDown(inverse), RotlN(first, n), n);
            var r := StepWords(WalkDown(inverse), c, RotlN(first, n), Reverse(words));
            && r.pattern == first
            && r.cells.errors == c.errors + Mismatches(c.mem, Reverse(words), ops)
            && Image(r.cells.mem, words, inverse, first)
            && (forall a :: a !in words ==> Read(r.cells.mem, a) == Read(c.mem, a))
            && (ComplementImage(c.mem, words, inverse, first) ==> Mismatches(c.mem, Reverse(words), ops) == [])
  {
    var n := |words|;
    var ops := Schedule(WalkDown(inverse), RotlN(first, n), n);
    StepWordsIsExecOps(WalkDown(inverse), c, RotlN(first, n), Reverse(words));
    DownSchedule(inverse, first, n);
    ReverseDistinct(words);
    ExecOpsEffect(c, Reverse(words), ops);
    DownOpsEffect(inverse, c, first, words, ops);
    if ComplementImage(c.mem, words, inverse, first) {
      DownOpsQuiet(inverse, c.mem, first, words, ops);
    }
  }

  /** From any memory, the top-down pass started at rotl^N(first) visits
      the map from the top, reports the words whose contents differ from
      the complement of the image, and writes the image back; the pattern
      ends at `first` again. */
  lemma DownPassEffect(vcpu: int, bail: seq<bool>, inverse: bool, chunks: seq<Span>, s: State, first: Word)
    requires vcpu >= 0 && !s.bailed && NeverRaised(bail) && Ordered(chunks)
    requires s.pattern == RotlN(first, |ChunkWords(chunks)|)
    ensures var r := DownPass(vcpu, bail, inverse, chunks, s);
            var words := ChunkWords(chunks);
            var ops := Schedule(WalkDown(inverse), s.pattern, |words|);
            && !r.bailed && r.ticks == s.ticks + StrideTotal(chunks)
            && r.cells.errors == s.cells.errors + Mismatches(s.cells.mem, Reverse(words), ops)
            && Image(r.cells.mem, words, inverse, first)
            && (forall a :: a !in words ==> Read(r.cells.mem, a) == Read(s.cells.mem, a))
            && r.pattern == first
  {
    var words := ChunkWords(chunks);
    ReversePassQuiet(WalkDown(inverse), vcpu, bail, s, chunks);
    OrderedWordsIncrease(chunks);
    IncreasingIsDistinct(words);
    DownWords(inverse, s.cells, first, words);
  }

  /** The top-down pass over the complement of the image expects exactly
      what the bottom-up pass wrote: it reports nothing. */
  lemma DownPassOverComplement(vcpu: int, bail: seq<bool>, inverse: bool, chunks: seq<Span>, s: State, first: Word)
    requires vcpu >= 0 && !s.bailed && NeverRaised(bail) && Ordered(chunks)
    requires s.pattern == RotlN(first, |ChunkWords(chunks)|)
    requires ComplementImage(s.cells.mem, ChunkWords(chunks), inverse, first)
    ensures DownPass(vcpu, bail, inverse, chunks, s).cells.errors == s.cells.errors
  {
    DownPassEffect(vcpu, bail, inverse, chunks, s, first);
    OrderedWordsIncrease(chunks);
    IncreasingIsDistinct(ChunkWords(chunks));
    DownWords(inverse, s.cells, first, ChunkWords(chunks));
  }

  // ---------------------------------------------------------------------
  // Iterations and the whole test.

  /** A fault-free iteration over the image reports nothing and leaves the
      memory as it was. */
  lemma IterationKeepsImage(vcpu: int, bail: seq<bool>, first: Word, inverse: bool, chunks: seq<Span>, s: State)
    requires vcpu >= 0 && !s.bailed && NeverRaised(bail) && Ordered(chunks)
    requires Image(s.cells.mem, ChunkWords(chunks), inverse, first)
    ensures var r := Iteration(vcpu, bail, first, inverse, chunks, s);
            && !r.bailed && r.ticks == s.ticks + 2 * StrideTotal(chunks)
            && r.cells.errors == s.cells.errors
            && Image(r.cells.mem, ChunkWords(chunks), inverse, first)
            && forall a :: a !in ChunkWords(chunks) ==> Read(r.cells.mem, a) == Read(s.cells.mem, a)
  {
    var s0 := s.(pattern := first);
    var u := UpPass(vcpu, bail, inverse, chunks, s0);
    UpPassEffect(vcpu, bail, inverse, chunks, s0);
    UpPassOverImage(vcpu, bail, inverse, chunks, s0);
    DownPassEffect(vcpu, bail, inverse, chunks, u, first);
    DownPassOverComplement(vcpu, bail, inverse, chunks, u, first);
  }

  lemma {:induction false} IterationsKeepImage(vcpu: int, bail: seq<bool>, first: Word, inverse: bool,
                                               chunks: seq<Span>, s: State, n: nat)
    requires vcpu >= 0 && !s.bailed && NeverRaised(bail) && Ordered(chunks)
    requires Image(s.cells.mem, ChunkWords(chunks), inverse, first)
    ensures var r := Iterations(vcpu, bail, first, inverse, chunks, s, n);
            && !r.bailed && r.ticks == s.ticks + 2 * n * StrideTotal(chunks)
            && r.cells.errors == s.cells.errors
            && Image(r.cells.mem, ChunkWords(chunks), inverse, first)
            && forall a :: a !in ChunkWords(chunks) ==> Read(r.cells.mem, a) == Read(s.cells.mem, a)
    decreases n
  {
    if n > 0 {
      var s1 := Iteration(vcpu, bail, first, inverse, chunks, s);
      IterationKeepsImage(vcpu, bail, first, inverse, chunks, s);
      IterationsKeepImage(vcpu, bail, first, inverse, chunks, s1, n - 1);
      assert Iterations(vcpu, bail, first, inverse, chunks, s, n) == Iterations(vcpu, bail, first, inverse, chunks, s1, n - 1);
      IterationTicksStep(StrideTotal(chunks), n);
    }
  }

  /** Without faults or bailout, the test ends with the init image in the
      map and every other word as it was, reports nothing, and returns the
      same ticks as the fixed-pattern test. */
  lemma FaultFree(vcpu: int, iterations: int, offset: int, inverse: bool, chunks: seq<Span>, mem: Mem, bail: seq<bool>)
    requires 0 <= offset < TESTWORD_WIDTH
    requires vcpu >= 0 && NeverRaised(bail) && Ordered(chunks)
    ensures var o := TestMovInvWalk1(vcpu, iterations, offset, inverse, chunks, mem, bail);
            var n := if iterations > 0 then iterations else 0;
            && o.errors == []
            && Image(o.mem, ChunkWords(chunks), inverse, FirstPattern(offset))
            && (forall a :: a !in ChunkWords(chunks) ==> Read(o.mem, a) == Read(mem, a))
            && o.ticks == (1 + 2 * n) * StrideTotal(chunks)
  {
    var n := if iterations > 0 then iterations else 0;
    var first := FirstPattern(offset);
    var s := Start(mem, first);
    InitWritesImage(vcpu, bail, inverse, chunks, s);
    IterationsKeepImage(vcpu, bail, first, inverse, chunks, InitPass(vcpu, bail, inverse, chunks, s), n);
  }

  lemma IterationInactive(vcpu: int, bail: seq<bool>, first: Word, inverse: bool, chunks: seq<Span>, s: State)
    requires vcpu < 0 && !s.bailed
    ensures Iteration(vcpu, bail, first, inverse, chunks, s)
            == s.(pattern := first, ticks := s.ticks + 2 * StrideTotal(chunks))
  {
    var s0 := s.(pattern := first);
    WalkInactive(WalkUp(inverse), vcpu, bail, s0, ForwardBlocks(chunks));
    WalkInactive(WalkDown(inverse), vcpu, bail, UpPass(vcpu, bail, inverse, chunks, s0), ReverseBlocks(chunks));
    PassCounts(chunks);
  }

  lemma {:induction false} IterationsInactive(vcpu: int, bail: seq<bool>, first: Word, inverse: bool,
                                              chunks: seq<Span>, s: State, n: nat)
    requires vcpu < 0 && !s.bailed
    ensures var r := Iterations(vcpu, bail, first, inverse, chunks, s, n);
            r.cells == s.cells && !r.bailed && r.ticks == s.ticks + 2 * n * StrideTotal(chunks)
    decreases n
  {
    if n > 0 {
      IterationInactive(vcpu, bail, first, inverse, chunks, s);
      IterationsInactive(vcpu, bail, first, inverse, chunks, Iteration(vcpu, bail, first, inverse, chunks, s), n - 1);
      IterationTicksStep(StrideTotal(chunks), n);
    }
  }

  /** A negative vcpu leaves memory as it was, reports nothing, and returns
      the same ticks as a real vcpu. */
  lemma Inactive(vcpu: int, iterations: int, offset: int, inverse: bool, chunks: seq<Span>, mem: Mem, bail: seq<bool>)
    requires 0 <= offset < TESTWORD_WIDTH && vcpu < 0
    ensures var o := TestMovInvWalk1(vcpu, iterations, offset, inverse, chunks, mem, bail);
            var n := if iterations > 0 then iterations else 0;
            o == Outcome(mem, [], (1 + 2 * n) * StrideTotal(chunks))
  {
    var n := if iterations > 0 then iterations else 0;
    var s := Start(mem, FirstPattern(offset));
    WalkInactive(WalkInit(inverse), vcpu, bail, s, ForwardBlocks(chunks));
    PassCounts(chunks);
    IterationsInactive(vcpu, bail, FirstPattern(offset), inverse, chunks, InitPass(vcpu, bail, inverse, chunks, s), n);
  }

  // ---------------------------------------------------------------------
  // The top-down loop as written.

  lemma {:induction false} IterationsAsWrittenAgree(vcpu: int, bail: seq<bool>, first: Word, inverse: bool,
                                                    chunks: seq<Span>, s: State, n: nat)
    requires AboveNull(chunks)
    ensures IterationsAsWritten(vcpu, bail, first, inverse, chunks, s, n)
            == Iterations(vcpu, bail, first, inverse, chunks, s, n)
    decreases n
  {
    if n > 0 {
      ReverseBlocksAgree(chunks);
      IterationsAsWrittenAgree(vcpu, bail, first, inverse, chunks,
                               Iteration(vcpu, bail, first, inverse, chunks, s), n - 1);
    }
  }

  /** When no chunk starts at address 0, the test as written is the test
      with the corrected top-down walk, so every property of the latter
      holds for it. */
  lemma AsWrittenAgrees(vcpu: int, iterations: int, offset: int, inverse: bool, chunks: seq<Span>, mem: Mem, bail: seq<bool>)
    requires 0 <= offset < TESTWORD_WIDTH && AboveNull(chunks)
    ensures TestMovInvWalk1AsWritten(vcpu, iterations, offset, inverse, chunks, mem, bail)
            == TestMovInvWalk1(vcpu, iterations, offset, inverse, chunks, mem, bail)
  {
    var first := FirstPattern(offset);
    var init := InitPass(vcpu, bail, inverse, chunks, Start(mem, first));
    IterationsAsWrittenAgree(vcpu, bail, first, inverse, chunks, init, if iterations > 0 then iterations else 0);
  }

  /** The fault-free run of the test as written, for a map that does not
      start at address 0. */
  lemma FaultFreeAsWritten(vcpu: int, iterations: int, offset: int, inverse: bool, chunks: seq<Span>, mem: Mem, bail: seq<bool>)
    requires 0 <= offset < TESTWORD_WIDTH
    requires vcpu >= 0 && NeverRaised(bail) && Ordered(chunks) && AboveNull(chunks)
    ensures var o := TestMovInvWalk1AsWritten(vcpu, iterations, offset, inverse, chunks, mem, bail);
            var n := if iterations > 0 then iterations else 0;
            && o.errors == []
            && Image(o.mem, ChunkWords(chunks), inverse, FirstPattern(offset))
            && (forall a :: a !in ChunkWords(chunks) ==> Read(o.mem, a) == Read(mem, a))
            && o.ticks == (1 + 2 * n) * StrideTotal(chunks)
  {
    AsWrittenAgrees(vcpu, iterations, offset, inverse, chunks, mem, bail);
    FaultFree(vcpu, iterations, offset, inverse, chunks, mem, bail);
  }

  /** On the chunk [0, SPIN_SIZE] the test as written counts one stride
      fewer per iteration than the corrected test: its top-down pass stops
      after the stride that ends at word 1. */
  lemma TicksAtNull(vcpu: int, offset: int, inverse: bool, mem: Mem, bail: seq<bool>)
    requires 0 <= offset < TESTWORD_WIDTH && vcpu < 0
    ensures TestMovInvWalk1AsWritten(vcpu, 1, offset, inverse, [Span(0, SPIN_SIZE)], mem, bail).ticks == 5
    ensures TestMovInvWalk1(vcpu, 1, offset, inverse, [Span(0, SPIN_SIZE)], mem, bail).ticks == 6
  {
    var chunks := [Span(0, SPIN_SIZE)];
    var first := FirstPattern(offset);
    var s := Start(mem, first);
    AsWrittenPassAtNull();
    PassCounts(chunks);
    var init := InitPass(vcpu, bail, inverse, chunks, s);
    WalkInactive(WalkInit(inverse), vcpu, bail, s, ForwardBlocks(chunks));
    var u := UpPass(vcpu, bail, inverse, chunks, init.(pattern := first));
    WalkInactive(WalkUp(inverse), vcpu, bail, init.(pattern := first), ForwardBlocks(chunks));
    WalkInactive(WalkDown(inverse), vcpu, bail, u, ReverseBlocksAsWritten(chunks));
    assert IterationsAsWritten(vcpu, bail, first, inverse, chunks, init, 1)
           == IterationAsWritten(vcpu, bail, first, inverse, chunks, init);
    Inactive(vcpu, 1, offset, inverse, chunks, mem, bail);
  }

  // ---------------------------------------------------------------------
  // An empty chunk.

  /** Over an empty chunk [a + 1, a], init and the bottom-up pass each
      visit word a + 1 only: word a is left as it was, and the pattern ends
      one rotation on from `first`. */
  lemma InitAndUpOnEmptyChunk(vcpu: int, bail: seq<bool>, first: Word, inverse: bool, a: nat, s: State)
    requires vcpu >= 0 && !s.bailed && NeverRaised(bail)
    ensures var init := InitPass(vcpu, bail, inverse, [Span(a + 1, a)], s);
            var u := UpPass(vcpu, bail, inverse, [Span(a + 1, a)], init.(pattern := first));
            && !u.bailed && u.pattern == Rotl(first)
            && Read(u.cells.mem, a) == Read(s.cells.mem, a)
  {
    assert ForwardBlocks([Span(a + 1, a)]) == [[a + 1]];
    var init := InitPass(vcpu, bail, inverse, [Span(a + 1, a)], s);
    WalkOneWord(WalkInit(inverse), vcpu, bail, s, a + 1);
    WalkOneWord(WalkUp(inverse), vcpu, bail, init.(pattern := first), a + 1);
  }

  /** Over an empty chunk [a + 1, a] the top-down pass rotates right and
      checks word a, below the chunk, against the complement of the shown
      pattern. */
  lemma DownOnEmptyChunk(vcpu: int, bail: seq<bool>, inverse: bool, a: nat, u: State, x: Word)
    requires vcpu >= 0 && !u.bailed && NeverRaised(bail) && Rotr(u.pattern) == x
    requires Read(u.cells.mem, a) != !Shown(inverse, x)
    ensures DownPass(vcpu, bail, inverse, [Span(a + 1, a)], u).cells.errors
            == u.cells.errors + [ErrorRecord(a, !Shown(inverse, x), Read(u.cells.mem, a), true)]
  {
    assert ReverseBlocks([Span(a + 1, a)]) == [[a]];
    WalkOneWord(WalkDown(inverse), vcpu, bail, u, a);
    var op := DownOp(inverse, x);
    assert WordStep(WalkDown(inverse), u.pattern).op == op;
    assert Fails(op, Read(u.cells.mem, a));
  }

  /** One iteration after init over an empty chunk [a + 1, a] reports
      word a, whatever it holds, unless it holds the complement of the shown
      first pattern. */
  lemma IterationOnEmptyChunk(vcpu: int, bail: seq<bool>, first: Word, inverse: bool, a: nat, s: State)
    requires vcpu >= 0 && !s.bailed && NeverRaised(bail)
    requires Read(s.cells.mem, a) != !Shown(inverse, first)
    ensures ErrorRecord(a, !Shown(inverse, first), Read(s.cells.mem, a), true)
            in Iterations(vcpu, bail, first, inverse, [Span(a + 1, a)],
                          InitPass(vcpu, bail, inverse, [Span(a + 1, a)], s), 1).cells.errors
  {
    var chunks := [Span(a + 1, a)];
    var init := InitPass(vcpu, bail, inverse, chunks, s);
    var u := UpPass(vcpu, bail, inverse, chunks, init.(pattern := first));
    InitAndUpOnEmptyChunk(vcpu, bail, first, inverse, a, s);
    RotrUndoesRotl(first);
    DownOnEmptyChunk(vcpu, bail, inverse, a, u, first);
    var d := DownPass(vcpu, bail, inverse, chunks, u);
    assert Iteration(vcpu, bail, first, inverse, chunks, init) == d;
    assert Iterations(vcpu, bail, first, inverse, chunks, init, 1) == d;
  }

  /** The test with one iteration over an empty chunk [a + 1, a] reports
      word a, unless it holds the complement of the shown first pattern. */
  lemma TestOnEmptyChunk(vcpu: int, offset: int, inverse: bool, a: nat, mem: Mem, bail: seq<bool>)
    requires 0 <= offset < TESTWORD_WIDTH && vcpu >= 0 && NeverRaised(bail)
    requires Read(mem, a) != !Shown(inverse, FirstPattern(offset))
    ensures ErrorRecord(a, !Shown(inverse, FirstPattern(offset)), Read(mem, a), true)
            in TestMovInvWalk1(vcpu, 1, offset, inverse, [Span(a + 1, a)], mem, bail).errors
  {
    var first := FirstPattern(offset);
    IterationOnEmptyChunk(vcpu, bail, first, inverse, a, Start(mem, first));
  }

  /** An empty chunk [a + 1, a] is not the no-op an empty range calls for:
      the walks still make one stride each. Init and the bottom-up pass
      visit word a + 1, and the top-down pass checks word a, below the chunk
      and never initialised, against the complement of the shown first
      pattern. So memory without any fault is reported. The test as
      written does the same. */
  lemma FalseReportOnEmptyChunk(vcpu: int, offset: int, inverse: bool, a: nat, mem: Mem, bail: seq<bool>)
    requires 0 <= offset < TESTWORD_WIDTH && vcpu >= 0 && NeverRaised(bail)
    requires Read(mem, a) != !Shown(inverse, FirstPattern(offset))
    ensures ErrorRecord(a, !Shown(inverse, FirstPattern(offset)), Read(mem, a), true)
            in TestMovInvWalk1(vcpu, 1, offset, inverse, [Span(a + 1, a)], mem, bail).errors
    ensures ErrorRecord(a, !Shown(inverse, FirstPattern(offset)), Read(mem, a), true)
            in TestMovInvWalk1AsWritten(vcpu, 1, offset, inverse, [Span(a + 1, a)], mem, bail).errors
  {
    TestOnEmptyChunk(vcpu, offset, inverse, a, mem, bail);
    assert AboveNull([Span(a + 1, a)]);
    AsWrittenAgrees(vcpu, 1, offset, inverse, [Span(a + 1, a)], mem, bail);
  }
}
