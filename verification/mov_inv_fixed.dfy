/** The moving inversions test with fixed patterns: fill every chunk with
    pattern1, then repeatedly check pattern1 and write pattern2 from the
    bottom up, and check pattern2 and write pattern1 back from the top
    down. Memory faults are represented by the state a pass starts from. */
module MovInvFixed {
  import opened Helpers
  import opened Seqs
  import opened Memory
  import opened Walker
  import opened Engine
  import opened Passes

  /** Each chunk of the map is a range a `rep stos` can fill: its length
      end - start + 1 is not negative. */
  ghost predicate Fillable(chunks: seq<Span>) {
    forall i :: 0 <= i < |chunks| ==> chunks[i].start <= chunks[i].end + 1
  }

  /** The bottom-up pass: check pattern1, write pattern2. */
  function UpPass(vcpu: int, bail: seq<bool>, p1: Word, p2: Word, chunks: seq<Span>, s: State): State {
    Walk(CheckThenStore(p1, p2), vcpu, bail, s, ForwardBlocks(chunks))
  }

  /** The top-down pass: check pattern2, write pattern1. */
  function DownPass(vcpu: int, bail: seq<bool>, p1: Word, p2: Word, chunks: seq<Span>, s: State): State {
    Walk(CheckThenStore(p2, p1), vcpu, bail, s, ReverseBlocks(chunks))
  }

  /** n iterations of the bottom-up pass followed by the top-down pass. */
  function Iterations(vcpu: int, bail: seq<bool>, p1: Word, p2: Word, chunks: seq<Span>, s: State, n: nat): State
    decreases n
  {
    if n == 0 then s
    else Iterations(vcpu, bail, p1, p2, chunks, DownPass(vcpu, bail, p1, p2, chunks, UpPass(vcpu, bail, p1, p2, chunks, s)), n - 1)
  }

  /** The init pass, with the x86_64 `rep stos` fill. */
  function InitPass(vcpu: int, bail: seq<bool>, p1: Word, chunks: seq<Span>, s: State): State {
    Walk(Fill(p1), vcpu, bail, s, RepStosBlocks(chunks))
  }

  /** The init pass with the portable fill loop. */
  function PortableInitPass(vcpu: int, bail: seq<bool>, p1: Word, chunks: seq<Span>, s: State): State {
    Walk(Fill(p1), vcpu, bail, s, ForwardBlocks(chunks))
  }

  /** test_mov_inv_fixed for one vcpu. A negative iteration count runs no
      iteration. */
  function TestMovInvFixed(vcpu: int, iterations: int, p1: Word, p2: Word,
                           chunks: seq<Span>, mem: Mem, bail: seq<bool>): Outcome
    requires Fillable(chunks)
  {
    var init := InitPass(vcpu, bail, p1, chunks, Start(mem, 0));
    Finish(Iterations(vcpu, bail, p1, p2, chunks, init, if iterations > 0 then iterations else 0))
  }

  /** The top-down pass with the reverse loop as written, which also stops
      when `--ps` yields address 0. */
  function DownPassAsWritten(vcpu: int, bail: seq<bool>, p1: Word, p2: Word, chunks: seq<Span>, s: State): State {
    Walk(CheckThenStore(p2, p1), vcpu, bail, s, ReverseBlocksAsWritten(chunks))
  }

  function IterationsAsWritten(vcpu: int, bail: seq<bool>, p1: Word, p2: Word, chunks: seq<Span>, s: State, n: nat): State
    decreases n
  {
    if n == 0 then s
    else IterationsAsWritten(vcpu, bail, p1, p2, chunks,
                             DownPassAsWritten(vcpu, bail, p1, p2, chunks, UpPass(vcpu, bail, p1, p2, chunks, s)), n - 1)
  }

  /** test_mov_inv_fixed with the top-down loop exactly as written. */
  function TestMovInvFixedAsWritten(vcpu: int, iterations: int, p1: Word, p2: Word,
                                    chunks: seq<Span>, mem: Mem, bail: seq<bool>): Outcome
    requires Fillable(chunks)
  {
    var init := InitPass(vcpu, bail, p1, chunks, Start(mem, 0));
    Finish(IterationsAsWritten(vcpu, bail, p1, p2, chunks, init, if iterations > 0 then iterations else 0))
  }

  // ---------------------------------------------------------------------
  // The init pass.

  /** The `rep stos` init pass leaves pattern1 in every word of the map,
      changes no other word, reports nothing and counts one tick per
      stride. */
  lemma InitFills(vcpu: int, bail: seq<bool>, p1: Word, chunks: seq<Span>, s: State)
    requires vcpu >= 0 && !s.bailed && NeverRaised(bail) && Fillable(chunks)
    ensures var r := InitPass(vcpu, bail, p1, chunks, s);
            && !r.bailed && r.ticks == s.ticks + StrideTotal(chunks)
            && r.cells.errors == s.cells.errors
            && (forall a :: a in ChunkWords(chunks) ==> Read(r.cells.mem, a) == p1)
            && (forall a :: a !in ChunkWords(chunks) ==> Read(r.cells.mem, a) == Read(s.cells.mem, a))
  {
    var addrs := Flatten(RepStosBlocks(chunks));
    var ops := Uniform(WordOp(None, Some(p1)), |addrs|);
    WalkQuiet(Fill(p1), vcpu, bail, s, RepStosBlocks(chunks));
    PassCounts(chunks);
    FixedStepWords(Fill(p1), s.cells, s.pattern, addrs);
    StoresEffect(s.cells, addrs, ops, p1);
    RepStosCovers(chunks);
  }

  /** The portable fill loop leaves the map in the same state as `rep stos`,
      although `rep stos` stores twice into the last word of every stride
      but the last of a chunk; both count the same ticks. */
  lemma RepStosMatchesPortable(vcpu: int, bail: seq<bool>, p1: Word, chunks: seq<Span>, s: State)
    requires vcpu >= 0 && !s.bailed && NeverRaised(bail) && NonEmpty(chunks)
    ensures var r := InitPass(vcpu, bail, p1, chunks, s);
            var q := PortableInitPass(vcpu, bail, p1, chunks, s);
            && r.ticks == q.ticks && r.cells.errors == q.cells.errors
            && forall a :: Read(r.cells.mem, a) == Read(q.cells.mem, a)
  {
    var words := ChunkWords(chunks);
    InitFills(vcpu, bail, p1, chunks, s);
    ForwardPassQuiet(Fill(p1), vcpu, bail, s, chunks);
    FixedStepWords(Fill(p1), s.cells, s.pattern, words);
    StoresEffect(s.cells, words, Uniform(WordOp(None, Some(p1)), |words|), p1);
  }

  /** On an empty chunk [a + 1, a] the two fills differ: `rep stos` gets a
      length of 0 and stores nothing, while the portable do-while stores
      pattern1 into word a + 1 before its test ends the loop. */
  lemma FillsDifferOnEmptyChunk(vcpu: int, bail: seq<bool>, p1: Word, a: nat, s: State)
    requires vcpu >= 0 && !s.bailed && NeverRaised(bail)
    ensures Read(InitPass(vcpu, bail, p1, [Span(a + 1, a)], s).cells.mem, a + 1) == Read(s.cells.mem, a + 1)
    ensures Read(PortableInitPass(vcpu, bail, p1, [Span(a + 1, a)], s).cells.mem, a + 1) == p1
  {
    var chunks := [Span(a + 1, a)];
    assert RepStosBlocks(chunks) == [[]];
    assert ForwardBlocks(chunks) == [[a + 1]];
    WalkQuiet(Fill(p1), vcpu, bail, s, [[]]);
    WalkQuiet(Fill(p1), vcpu, bail, s, [[a + 1]]);
    FlattenCons<nat>([], []);
    FlattenCons([a + 1], []);
    FixedStepWords(Fill(p1), s.cells, s.pattern, [a + 1]);
    StoresEffect(s.cells, [a + 1], Uniform(WordOp(None, Some(p1)), 1), p1);
  }

  // ---------------------------------------------------------------------
  // One pass from an arbitrary (possibly faulty) memory.

  /** The bottom-up pass reports the words of the map that do not hold
      pattern1, leaves pattern2 in every word of the map and changes no
      other word. */
  lemma UpPassEffect(vcpu: int, bail: seq<bool>, p1: Word, p2: Word, chunks: seq<Span>, s: State)
    requires vcpu >= 0 && !s.bailed && NeverRaised(bail) && Ordered(chunks)
    ensures var r := UpPass(vcpu, bail, p1, p2, chunks, s);
            var words := ChunkWords(chunks);
            && !r.bailed && r.ticks == s.ticks + StrideTotal(chunks)
            && r.cells.errors
               == s.cells.errors + Mismatches(s.cells.mem, words, Uniform(WordOp(Some(p1), Some(p2)), |words|))
            && (forall a :: a in words ==> Read(r.cells.mem, a) == p2)
            && (forall a :: a !in words ==> Read(r.cells.mem, a) == Read(s.cells.mem, a))
  {
    var words := ChunkWords(chunks);
    ForwardPassQuiet(CheckThenStore(p1, p2), vcpu, bail, s, chunks);
    OrderedWordsIncrease(chunks);
    IncreasingIsDistinct(words);
    CheckThenStoreEffect(p1, p2, s.cells, s.pattern, words);
  }

  /** The reports of the bottom-up pass are (p, pattern1, actual, true) for
      exactly the words p of the map whose contents differ from pattern1,
      in ascending address order. */
  lemma UpPassReports(vcpu: int, bail: seq<bool>, p1: Word, p2: Word, chunks: seq<Span>, s: State)
    requires vcpu >= 0 && !s.bailed && NeverRaised(bail) && Ordered(chunks)
    ensures var words := ChunkWords(chunks);
            var reported := Mismatches(s.cells.mem, words, Uniform(WordOp(Some(p1), Some(p2)), |words|));
            && UpPass(vcpu, bail, p1, p2, chunks, s).cells.errors == s.cells.errors + reported
            && (forall x: ErrorRecord :: x in reported <==>
                  x.addr in words && Read(s.cells.mem, x.addr) != p1
                  && x == ErrorRecord(x.addr, p1, Read(s.cells.mem, x.addr), true))
            && (forall i, j :: 0 <= i < j < |reported| ==> reported[i].addr < reported[j].addr)
  {
    UpPassEffect(vcpu, bail, p1, p2, chunks, s);
    OrderedWordsIncrease(chunks);
    UniformReports(s.cells.mem, ChunkWords(chunks), WordOp(Some(p1), Some(p2)));
    MismatchesOrdered(s.cells.mem, ChunkWords(chunks), Uniform(WordOp(Some(p1), Some(p2)), |ChunkWords(chunks)|));
  }

  /** The top-down pass visits the same words from the top, reports those
      that do not hold pattern2 and leaves pattern1 in every word of the
      map. */
  lemma DownPassEffect(vcpu: int, bail: seq<bool>, p1: Word, p2: Word, chunks: seq<Span>, s: State)
    requires vcpu >= 0 && !s.bailed && NeverRaised(bail) && Ordered(chunks)
    ensures var r := DownPass(vcpu, bail, p1, p2, chunks, s);
            var down := Reverse(ChunkWords(chunks));
            && !r.bailed && r.ticks == s.ticks + StrideTotal(chunks)
            && r.cells.errors
               == s.cells.errors + Mismatches(s.cells.mem, down, Uniform(WordOp(Some(p2), Some(p1)), |down|))
            && (forall a :: a in ChunkWords(chunks) ==> Read(r.cells.mem, a) == p1)
            && (forall a :: a !in ChunkWords(chunks) ==> Read(r.cells.mem, a) == Read(s.cells.mem, a))
  {
    var words := ChunkWords(chunks);
    ReversePassQuiet(CheckThenStore(p2, p1), vcpu, bail, s, chunks);
    OrderedWordsIncrease(chunks);
    IncreasingIsDistinct(words);
    ReverseDistinct(words);
    ReverseMembers(words);
    CheckThenStoreEffect(p2, p1, s.cells, s.pattern, Reverse(words));
  }

  /** One iteration from any memory: the bottom-up pass reports every word of
      the map that does not hold pattern1, the top-down pass then finds
      pattern2 everywhere and reports nothing, and every word of the map ends
      as pattern1 again. */
  lemma IterationEffect(vcpu: int, bail: seq<bool>, p1: Word, p2: Word, chunks: seq<Span>, s: State)
    requires vcpu >= 0 && !s.bailed && NeverRaised(bail) && Ordered(chunks)
    ensures var words := ChunkWords(chunks);
            var r := DownPass(vcpu, bail, p1, p2, chunks, UpPass(vcpu, bail, p1, p2, chunks, s));
            && !r.bailed && r.ticks == s.ticks + 2 * StrideTotal(chunks)
            && r.cells.errors
               == s.cells.errors + Mismatches(s.cells.mem, words, Uniform(WordOp(Some(p1), Some(p2)), |words|))
            && (forall a :: a in words ==> Read(r.cells.mem, a) == p1)
            && (forall a :: a !in words ==> Read(r.cells.mem, a) == Read(s.cells.mem, a))
  {
    var words := ChunkWords(chunks);
    var down := Reverse(words);
    var u := UpPass(vcpu, bail, p1, p2, chunks, s);
    UpPassEffect(vcpu, bail, p1, p2, chunks, s);
    DownPassEffect(vcpu, bail, p1, p2, chunks, u);
    ReverseMembers(words);
    var ops := Uniform(WordOp(Some(p2), Some(p1)), |down|);
    forall k | 0 <= k < |down|
      ensures !Fails(ops[k], Read(u.cells.mem, down[k]))
    {
      assert down[k] in down;
    }
    MismatchesEmpty(u.cells.mem, down, ops);
  }

  /** A fault-free iteration: when every word of the map holds pattern1,
      an iteration reports nothing and leaves the memory as it was. */
  lemma IterationKeepsPattern(vcpu: int, bail: seq<bool>, p1: Word, p2: Word, chunks: seq<Span>, s: State)
    requires vcpu >= 0 && !s.bailed && NeverRaised(bail) && Ordered(chunks)
    requires forall a :: a in ChunkWords(chunks) ==> Read(s.cells.mem, a) == p1
    ensures var r := DownPass(vcpu, bail, p1, p2, chunks, UpPass(vcpu, bail, p1, p2, chunks, s));
            && !r.bailed && r.ticks == s.ticks + 2 * StrideTotal(chunks)
            && r.cells.errors == s.cells.errors
            && forall a :: Read(r.cells.mem, a) == Read(s.cells.mem, a)
  {
    var words := ChunkWords(chunks);
    var ops := Uniform(WordOp(Some(p1), Some(p2)), |words|);
    IterationEffect(vcpu, bail, p1, p2, chunks, s);
    forall k | 0 <= k < |words|
      ensures !Fails(ops[k], Read(s.cells.mem, words[k]))
    {
      assert words[k] in words;
    }
    MismatchesEmpty(s.cells.mem, words, ops);
  }

  /** Fault-free iterations: any number of them reports nothing and leaves
      the memory as it was. */
  lemma {:induction false} IterationsKeepPattern(vcpu: int, bail: seq<bool>, p1: Word, p2: Word,
                                                 chunks: seq<Span>, s: State, n: nat)
    requires vcpu >= 0 && !s.bailed && NeverRaised(bail) && Ordered(chunks)
    requires forall a :: a in ChunkWords(chunks) ==> Read(s.cells.mem, a) == p1
    ensures var r := Iterations(vcpu, bail, p1, p2, chunks, s, n);
            && !r.bailed && r.ticks == s.ticks + 2 * n * StrideTotal(chunks)
            && r.cells.errors == s.cells.errors
            && forall a :: Read(r.cells.mem, a) == Read(s.cells.mem, a)
    decreases n
  {
    if n > 0 {
      var t := DownPass(vcpu, bail, p1, p2, chunks, UpPass(vcpu, bail, p1, p2, chunks, s));
      IterationKeepsPattern(vcpu, bail, p1, p2, chunks, s);
      IterationsKeepPattern(vcpu, bail, p1, p2, chunks, t, n - 1);
      IterationTicksStep(StrideTotal(chunks), n);
    }
  }

  // ---------------------------------------------------------------------
  // The whole test.

  /** Without faults or bailout, the test ends with pattern1 in every word
      of the map and every other word as it was, reports nothing, and
      returns one tick per stride of the init pass and of each of the two
      passes of every iteration. */
  lemma FaultFree(vcpu: int, iterations: int, p1: Word, p2: Word, chunks: seq<Span>, mem: Mem, bail: seq<bool>)
    requires vcpu >= 0 && NeverRaised(bail) && Ordered(chunks)
    ensures var o := TestMovInvFixed(vcpu, iterations, p1, p2, chunks, mem, bail);
            var n := if iterations > 0 then iterations else 0;
            && o.errors == []
            && (forall a :: a in ChunkWords(chunks) ==> Read(o.mem, a) == p1)
            && (forall a :: a !in ChunkWords(chunks) ==> Read(o.mem, a) == Read(mem, a))
            && o.ticks == (1 + 2 * n) * StrideTotal(chunks)
  {
    var n := if iterations > 0 then iterations else 0;
    var s := Start(mem, 0);
    var init := InitPass(vcpu, bail, p1, chunks, s);
    InitFills(vcpu, bail, p1, chunks, s);
    IterationsKeepPattern(vcpu, bail, p1, p2, chunks, init, n);
  }

  /** A negative vcpu never touches memory, reports nothing, and still counts
      every stride of both passes of an iteration. */
  lemma IterationInactive(vcpu: int, bail: seq<bool>, p1: Word, p2: Word, chunks: seq<Span>, s: State)
    requires vcpu < 0 && !s.bailed
    ensures DownPass(vcpu, bail, p1, p2, chunks, UpPass(vcpu, bail, p1, p2, chunks, s))
            == s.(ticks := s.ticks + 2 * StrideTotal(chunks))
  {
    WalkInactive(CheckThenStore(p1, p2), vcpu, bail, s, ForwardBlocks(chunks));
    WalkInactive(CheckThenStore(p2, p1), vcpu, bail, UpPass(vcpu, bail, p1, p2, chunks, s), ReverseBlocks(chunks));
    PassCounts(chunks);
  }

  lemma {:induction false} IterationsInactive(vcpu: int, bail: seq<bool>, p1: Word, p2: Word,
                                              chunks: seq<Span>, s: State, n: nat)
    requires vcpu < 0 && !s.bailed
    ensures Iterations(vcpu, bail, p1, p2, chunks, s, n) == s.(ticks := s.ticks + 2 * n * StrideTotal(chunks))
    decreases n
  {
    if n > 0 {
      IterationInactive(vcpu, bail, p1, p2, chunks, s);
      IterationsInactive(vcpu, bail, p1, p2, chunks, s.(ticks := s.ticks + 2 * StrideTotal(chunks)), n - 1);
      IterationTicksStep(StrideTotal(chunks), n);
    }
  }

  /** A negative vcpu leaves memory as it was, reports nothing, and returns
      the same ticks as a real vcpu. */
  lemma Inactive(vcpu: int, iterations: int, p1: Word, p2: Word, chunks: seq<Span>, mem: Mem, bail: seq<bool>)
    requires vcpu < 0 && Fillable(chunks)
    ensures var o := TestMovInvFixed(vcpu, iterations, p1, p2, chunks, mem, bail);
            var n := if iterations > 0 then iterations else 0;
            o == Outcome(mem, [], (1 + 2 * n) * StrideTotal(chunks))
  {
    var n := if iterations > 0 then iterations else 0;
    var s := Start(mem, 0);
    WalkInactive(Fill(p1), vcpu, bail, s, RepStosBlocks(chunks));
    PassCounts(chunks);
    IterationsInactive(vcpu, bail, p1, p2, chunks, InitPass(vcpu, bail, p1, chunks, s), n);
  }

  /** Once bailed out, no further iteration does anything. */
  lemma {:induction false} IterationsAfterBail(vcpu: int, bail: seq<bool>, p1: Word, p2: Word,
                                               chunks: seq<Span>, s: State, n: nat)
    requires s.bailed
    ensures Iterations(vcpu, bail, p1, p2, chunks, s, n) == s
    decreases n
  {
    if n > 0 {
      IterationsAfterBail(vcpu, bail, p1, p2, chunks, s, n - 1);
    }
  }

  /** Over an empty chunk [a + 1, a] the bottom-up do-while still checks
      word a + 1 against pattern1 and reports it when it differs. */
  lemma UpPassOnEmptyChunk(vcpu: int, bail: seq<bool>, p1: Word, p2: Word, a: nat, s: State)
    requires vcpu >= 0 && !s.bailed && NeverRaised(bail) && Read(s.cells.mem, a + 1) != p1
    ensures var u := UpPass(vcpu, bail, p1, p2, [Span(a + 1, a)], s);
            !u.bailed && u.cells.errors == s.cells.errors + [ErrorRecord(a + 1, p1, Read(s.cells.mem, a + 1), true)]
  {
    assert ForwardBlocks([Span(a + 1, a)]) == [[a + 1]];
    FlattenCons([a + 1], []);
    WalkQuiet(CheckThenStore(p1, p2), vcpu, bail, s, [[a + 1]]);
    CheckThenStoreEffect(p1, p2, s.cells, s.pattern, [a + 1]);
    MismatchesSingle(s.cells.mem, [a + 1], Uniform(WordOp(Some(p1), Some(p2)), 1), 0);
  }

  /** Over an empty chunk [a + 1, a] the top-down do-while checks word a,
      below the chunk; earlier reports are kept. */
  lemma DownPassOnEmptyChunk(vcpu: int, bail: seq<bool>, p1: Word, p2: Word, a: nat, s: State)
    requires vcpu >= 0 && !s.bailed && NeverRaised(bail)
    ensures var d := DownPass(vcpu, bail, p1, p2, [Span(a + 1, a)], s);
            d.cells.errors == s.cells.errors + Mismatches(s.cells.mem, [a], Uniform(WordOp(Some(p2), Some(p1)), 1))
  {
    assert ReverseBlocks([Span(a + 1, a)]) == [[a]];
    FlattenCons([a], []);
    WalkQuiet(CheckThenStore(p2, p1), vcpu, bail, s, [[a]]);
    CheckThenStoreEffect(p2, p1, s.cells, s.pattern, [a]);
  }

  /** An empty chunk [a + 1, a] is not the no-op an empty range calls for:
      `rep stos` initialises nothing, but the bottom-up do-while still
      checks word a + 1 against pattern1, so memory without any fault is
      reported. The test as written does the same. */
  lemma FalseReportOnEmptyChunk(vcpu: int, p1: Word, p2: Word, a: nat, mem: Mem, bail: seq<bool>)
    requires vcpu >= 0 && NeverRaised(bail) && Read(mem, a + 1) != p1
    ensures ErrorRecord(a + 1, p1, Read(mem, a + 1), true)
            in TestMovInvFixed(vcpu, 1, p1, p2, [Span(a + 1, a)], mem, bail).errors
    ensures ErrorRecord(a + 1, p1, Read(mem, a + 1), true)
            in TestMovInvFixedAsWritten(vcpu, 1, p1, p2, [Span(a + 1, a)], mem, bail).errors
  {
    var chunks := [Span(a + 1, a)];
    var s := Start(mem, 0);
    var init := InitPass(vcpu, bail, p1, chunks, s);
    assert RepStosBlocks(chunks) == [[]];
    FlattenCons<nat>([], []);
    WalkQuiet(Fill(p1), vcpu, bail, s, [[]]);
    var u := UpPass(vcpu, bail, p1, p2, chunks, init);
    UpPassOnEmptyChunk(vcpu, bail, p1, p2, a, init);
    var d := DownPass(vcpu, bail, p1, p2, chunks, u);
    DownPassOnEmptyChunk(vcpu, bail, p1, p2, a, u);
    assert Iterations(vcpu, bail, p1, p2, chunks, init, 1) == d;
    assert d.cells.errors[0] == ErrorRecord(a + 1, p1, Read(mem, a + 1), true);
    assert AboveNull(chunks);
    AsWrittenAgrees(vcpu, 1, p1, p2, chunks, mem, bail);
  }

  /** The last word of the first stride of a chunk. */
  function FirstStrideEnd(c: Span): nat {
    if c.end - c.start >= SPIN_SIZE then c.start + SPIN_SIZE - 1 else c.end
  }

  /** A bail flag raised at the first check stops the test after the first
      stride of the init pass: one tick, no report, and pattern1 in the
      words of that stride, every other word untouched. */
  lemma BailAtFirstStride(vcpu: int, iterations: int, p1: Word, p2: Word, chunks: seq<Span>, mem: Mem, bail: seq<bool>)
    requires vcpu >= 0 && Fillable(chunks) && |chunks| > 0 && Polled(bail, 0)
    ensures TestMovInvFixed(vcpu, iterations, p1, p2, chunks, mem, bail).ticks == 1
    ensures TestMovInvFixed(vcpu, iterations, p1, p2, chunks, mem, bail).errors == []
    ensures forall a: nat :: Read(TestMovInvFixed(vcpu, iterations, p1, p2, chunks, mem, bail).mem, a)
                        == if chunks[0].start <= a <= FirstStrideEnd(chunks[0]) then p1 else Read(mem, a)
  {
    var n: nat := if iterations > 0 then iterations else 0;
    var c := chunks[0];
    var blocks := RepStosBlocks(chunks);
    var s := Start(mem, 0);
    var strides := ForwardStrides(c.start, c.end);
    ForwardEnds(c.start, c.end);
    assert blocks[0] == Ascending(c.start, strides[0].hi);
    AscendingFacts(c.start, strides[0].hi);
    WalkStopsAtBail(Fill(p1), vcpu, bail, s, blocks);
    IterationsAfterBail(vcpu, bail, p1, p2, chunks, InitPass(vcpu, bail, p1, chunks, s), n);
    var first := blocks[0];
    FixedStepWords(Fill(p1), s.cells, 0, first);
    StoresEffect(s.cells, first, Uniform(WordOp(None, Some(p1)), |first|), p1);
  }

  // ---------------------------------------------------------------------
  // The top-down loop as written.

  lemma {:induction false} IterationsAsWrittenAgree(vcpu: int, bail: seq<bool>, p1: Word, p2: Word,
                                                    chunks: seq<Span>, s: State, n: nat)
    requires AboveNull(chunks)
    ensures IterationsAsWritten(vcpu, bail, p1, p2, chunks, s, n) == Iterations(vcpu, bail, p1, p2, chunks, s, n)
    decreases n
  {
    if n > 0 {
      ReverseBlocksAgree(chunks);
      IterationsAsWrittenAgree(vcpu, bail, p1, p2, chunks,
                               DownPass(vcpu, bail, p1, p2, chunks, UpPass(vcpu, bail, p1, p2, chunks, s)), n - 1);
    }
  }

  /** When no chunk starts at address 0, the test as written is the test
      with the corrected top-down walk, so every property of the latter
      holds for it. */
  lemma AsWrittenAgrees(vcpu: int, iterations: int, p1: Word, p2: Word, chunks: seq<Span>, mem: Mem, bail: seq<bool>)
    requires Fillable(chunks) && AboveNull(chunks)
    ensures TestMovInvFixedAsWritten(vcpu, iterations, p1, p2, chunks, mem, bail)
            == TestMovInvFixed(vcpu, iterations, p1, p2, chunks, mem, bail)
  {
    var init := InitPass(vcpu, bail, p1, chunks, Start(mem, 0));
    IterationsAsWrittenAgree(vcpu, bail, p1, p2, chunks, init, if iterations > 0 then iterations else 0);
  }

  /** The fault-free run of the test as written, for a map that does not
      start at address 0. */
  lemma FaultFreeAsWritten(vcpu: int, iterations: int, p1: Word, p2: Word, chunks: seq<Span>, mem: Mem, bail: seq<bool>)
    requires vcpu >= 0 && NeverRaised(bail) && Ordered(chunks) && AboveNull(chunks)
    ensures var o := TestMovInvFixedAsWritten(vcpu, iterations, p1, p2, chunks, mem, bail);
            var n := if iterations > 0 then iterations else 0;
            && o.errors == []
            && (forall a :: a in ChunkWords(chunks) ==> Read(o.mem, a) == p1)
            && (forall a :: a !in ChunkWords(chunks) ==> Read(o.mem, a) == Read(mem, a))
            && o.ticks == (1 + 2 * n) * StrideTotal(chunks)
  {
    AsWrittenAgrees(vcpu, iterations, p1, p2, chunks, mem, bail);
    FaultFree(vcpu, iterations, p1, p2, chunks, mem, bail);
  }

  /** Over the chunk [0, SPIN_SIZE] the top-down pass as written checks and
      rewrites words SPIN_SIZE down to 1 in a single stride and leaves
      word 0 as it was. */
  lemma DownPassAsWrittenAtNull(vcpu: int, bail: seq<bool>, p1: Word, p2: Word, s: State)
    requires vcpu >= 0 && !s.bailed && NeverRaised(bail)
    ensures var down := Descending(SPIN_SIZE, 1);
            var r := DownPassAsWritten(vcpu, bail, p1, p2, [Span(0, SPIN_SIZE)], s);
            && !r.bailed && r.ticks == s.ticks + 1
            && r.cells.errors
               == s.cells.errors + Mismatches(s.cells.mem, down, Uniform(WordOp(Some(p2), Some(p1)), |down|))
            && (forall a :: a in down ==> Read(r.cells.mem, a) == p1)
            && Read(r.cells.mem, 0) == Read(s.cells.mem, 0)
  {
    var down := Descending(SPIN_SIZE, 1);
    var blocks := ReverseBlocksAsWritten([Span(0, SPIN_SIZE)]);
    AsWrittenPassAtNull();
    WalkQuiet(CheckThenStore(p2, p1), vcpu, bail, s, blocks);
    FlattenCons(down, []);
    assert Flatten(blocks) == down;
    DescendingIsReverse(1, SPIN_SIZE);
    AscendingFacts(1, SPIN_SIZE);
    IncreasingIsDistinct(Ascending(1, SPIN_SIZE));
    ReverseDistinct(Ascending(1, SPIN_SIZE));
    CheckThenStoreEffect(p2, p1, s.cells, s.pattern, down);
  }

  /** With the loop as written, a fault-free run over a chunk that starts at
      address 0 reports an error: the first top-down pass never rewrites
      word 0, so the second bottom-up pass finds pattern2 there instead of
      pattern1. The corrected test reports nothing on the same input. */
  lemma FalseReportAtNull(vcpu: int, p1: Word, p2: Word, mem: Mem, bail: seq<bool>)
    requires vcpu >= 0 && NeverRaised(bail) && p1 != p2
    ensures var o := TestMovInvFixedAsWritten(vcpu, 2, p1, p2, [Span(0, SPIN_SIZE)], mem, bail);
            && ErrorRecord(0, p1, p2, true) in o.errors
            && Read(o.mem, 0) == p2
    ensures TestMovInvFixed(vcpu, 2, p1, p2, [Span(0, SPIN_SIZE)], mem, bail).errors == []
  {
    var chunks := [Span(0, SPIN_SIZE)];
    var words := ChunkWords(chunks);
    assert Ordered(chunks);
    AsWrittenPassAtNull();
    var init := InitPass(vcpu, bail, p1, chunks, Start(mem, 0));
    InitFills(vcpu, bail, p1, chunks, Start(mem, 0));
    var u1 := UpPass(vcpu, bail, p1, p2, chunks, init);
    UpPassEffect(vcpu, bail, p1, p2, chunks, init);
    var d1 := DownPassAsWritten(vcpu, bail, p1, p2, chunks, u1);
    DownPassAsWrittenAtNull(vcpu, bail, p1, p2, u1);
    var u2 := UpPass(vcpu, bail, p1, p2, chunks, d1);
    UpPassEffect(vcpu, bail, p1, p2, chunks, d1);
    UpPassReports(vcpu, bail, p1, p2, chunks, d1);
    var d2 := DownPassAsWritten(vcpu, bail, p1, p2, chunks, u2);
    DownPassAsWrittenAtNull(vcpu, bail, p1, p2, u2);
    assert IterationsAsWritten(vcpu, bail, p1, p2, chunks, init, 2) == d2;
    FaultFree(vcpu, 2, p1, p2, chunks, mem, bail);
  }
}
