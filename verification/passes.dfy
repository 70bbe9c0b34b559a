/** A pass of a test over the whole memory map: one walk per chunk (or per
    segment), bottom-up in map order or top-down in reverse map order. Each
    chunk is an inclusive range of word addresses; the walks of all chunks
    run one after the other with one tick, pattern and bail state threaded
    through. */
module Passes {
  import opened Helpers
  import opened Seqs
  import opened Memory
  import opened Walker
  import opened Engine

  /** What a test leaves behind: the memory, the data_error reports it
      issued in order, and the ticks it returned. */
  datatype Outcome = Outcome(mem: Mem, errors: seq<ErrorRecord>, ticks: nat)

  /** A test starts with no reports, no ticks and no bail check made. */
  function Start(mem: Mem, pattern: Word): State {
    State(Cells(mem, []), pattern, 0, 0, false)
  }

  function Finish(s: State): Outcome {
    Outcome(s.cells.mem, s.cells.errors, s.ticks)
  }

  // ---------------------------------------------------------------------
  // The words and strides of a map.

  /** Every chunk holds at least one word. */
  ghost predicate NonEmpty(chunks: seq<Span>) {
    forall i :: 0 <= i < |chunks| ==> chunks[i].start <= chunks[i].end
  }

  /** Non-empty chunks in ascending address order that do not overlap, as
      the memory map lists them. */
  ghost predicate Ordered(chunks: seq<Span>) {
    NonEmpty(chunks)
    && forall i, j :: 0 <= i < j < |chunks| ==> chunks[i].end < chunks[j].start
  }

  /** The words of the map, chunk by chunk in ascending address order. */
  function ChunkWords(chunks: seq<Span>): seq<nat> {
    if |chunks| == 0 then []
    else Ascending(chunks[0].start, chunks[0].end) + ChunkWords(chunks[1..])
  }

  /** Strides a walk makes over one chunk: ceil(n / SPIN_SIZE) for n words,
      and the single stride the do-while always makes over an empty chunk. */
  function ChunkStrides(c: Span): nat {
    if c.end < c.start then 1 else StrideCount(c.end - c.start + 1)
  }

  /** Strides of a pass over the whole map: the ticks it counts. */
  function StrideTotal(chunks: seq<Span>): nat {
    if |chunks| == 0 then 0 else ChunkStrides(chunks[0]) + StrideTotal(chunks[1..])
  }

  // ---------------------------------------------------------------------
  // The blocks of each kind of pass.

  /** The bottom-up pass: chunks in map order, each walked forward. */
  function ForwardBlocks(chunks: seq<Span>): seq<seq<nat>> {
    if |chunks| == 0 then []
    else UpBlocks(ForwardStrides(chunks[0].start, chunks[0].end)) + ForwardBlocks(chunks[1..])
  }

  /** The top-down pass: chunks from the last to the first, each walked
      from its end down to its start. */
  function ReverseBlocks(chunks: seq<Span>): seq<seq<nat>> {
    if |chunks| == 0 then []
    else ReverseBlocks(chunks[1..]) + DownBlocks(ReverseStrides(chunks[0].end, chunks[0].start))
  }

  /** No chunk starts at word address 0 (NULL). */
  ghost predicate AboveNull(chunks: seq<Span>) {
    forall i :: 0 <= i < |chunks| ==> chunks[i].start > 0
  }

  /** The top-down pass with the reverse loop as written: a chunk's walk
      also ends when `--ps` yields address 0. */
  function ReverseBlocksAsWritten(chunks: seq<Span>): seq<seq<nat>> {
    if |chunks| == 0 then []
    else ReverseBlocksAsWritten(chunks[1..]) + DownBlocks(ReverseStridesAsWritten(chunks[0].end, chunks[0].start))
  }

  /** The `rep stos` fill of one chunk: each store of pe - p + 1 words starts
      at `p`, and since `p = pe` afterwards the next one starts again at the
      last word of the previous stride. */
  function RepStos(p: nat, strides: seq<Stride>): (r: seq<seq<nat>>)
    ensures |r| == |strides|
    decreases |strides|
  {
    if |strides| == 0 then []
    else [Ascending(p, strides[0].hi)] + RepStos(strides[0].hi, strides[1..])
  }

  /** The `rep stos` init pass: chunks in map order, strides of the forward
      walk. */
  function RepStosBlocks(chunks: seq<Span>): seq<seq<nat>> {
    if |chunks| == 0 then []
    else RepStos(chunks[0].start, ForwardStrides(chunks[0].start, chunks[0].end))
         + RepStosBlocks(chunks[1..])
  }

  // ---------------------------------------------------------------------
  // Stride counts.

  lemma ChunkForwardCount(c: Span)
    ensures |ForwardStrides(c.start, c.end)| == ChunkStrides(c)
  {
    if c.start <= c.end {
      ForwardCount(c.start, c.end);
    } else {
      ForwardEnds(c.start, c.end);
    }
  }

  /** Every kind of pass over the map takes StrideTotal strides, empty
      chunks included. */
  lemma {:induction false} PassCounts(chunks: seq<Span>)
    ensures |ForwardBlocks(chunks)| == StrideTotal(chunks)
    ensures |ReverseBlocks(chunks)| == StrideTotal(chunks)
    ensures |RepStosBlocks(chunks)| == StrideTotal(chunks)
  {
    if |chunks| > 0 {
      PassCounts(chunks[1..]);
      ChunkForwardCount(chunks[0]);
      SameStrideCount(chunks[0]);
    }
  }

  /** When no chunk starts at address 0, the top-down pass as written is
      the top-down pass, stride for stride. */
  lemma {:induction false} ReverseBlocksAgree(chunks: seq<Span>)
    requires AboveNull(chunks)
    ensures ReverseBlocksAsWritten(chunks) == ReverseBlocks(chunks)
  {
    if |chunks| > 0 {
      assert AboveNull(chunks[1..]) by {
        forall i | 0 <= i < |chunks[1..]|
          ensures chunks[1..][i].start > 0
        {
          assert chunks[1..][i] == chunks[i + 1];
        }
      }
      ReverseBlocksAgree(chunks[1..]);
      AsWrittenAgreesAboveNull(chunks[0].end, chunks[0].start);
    }
  }

  /** On the single chunk [0, SPIN_SIZE] the top-down pass as written makes
      one stride, over words SPIN_SIZE down to 1, where the bottom-up pass
      makes two and visits word 0. */
  lemma AsWrittenPassAtNull()
    ensures ReverseBlocksAsWritten([Span(0, SPIN_SIZE)]) == [Descending(SPIN_SIZE, 1)]
    ensures 0 !in Flatten(ReverseBlocksAsWritten([Span(0, SPIN_SIZE)]))
    ensures StrideTotal([Span(0, SPIN_SIZE)]) == 2
    ensures 0 in ChunkWords([Span(0, SPIN_SIZE)])
  {
    var chunks := [Span(0, SPIN_SIZE)];
    assert chunks[1..] == [];
    AsWrittenSkipsNull();
    assert ReverseBlocksAsWritten(chunks) == DownBlocks([Stride(1, SPIN_SIZE)]);
    AscendingFacts(0, SPIN_SIZE);
  }

  // ---------------------------------------------------------------------
  // Coverage.

  /** The bottom-up pass visits the words of the map in order, each once. */
  lemma {:induction false} ForwardPassCovers(chunks: seq<Span>)
    requires NonEmpty(chunks)
    ensures Flatten(ForwardBlocks(chunks)) == ChunkWords(chunks)
  {
    if |chunks| > 0 {
      var c := chunks[0];
      ForwardPassCovers(chunks[1..]);
      ForwardCovers(c.start, c.end);
      FlattenAppend(UpBlocks(ForwardStrides(c.start, c.end)), ForwardBlocks(chunks[1..]));
    }
  }

  /** The top-down pass visits the words of the map in exactly the reverse
      order of the bottom-up pass. */
  lemma {:induction false} ReversePassCovers(chunks: seq<Span>)
    requires NonEmpty(chunks)
    ensures Flatten(ReverseBlocks(chunks)) == Reverse(ChunkWords(chunks))
  {
    if |chunks| > 0 {
      var c := chunks[0];
      ReversePassCovers(chunks[1..]);
      ReverseCovers(c.end, c.start);
      DescendingIsReverse(c.start, c.end);
      FlattenAppend(ReverseBlocks(chunks[1..]), DownBlocks(ReverseStrides(c.end, c.start)));
      ReverseAppend(Ascending(c.start, c.end), ChunkWords(chunks[1..]));
    }
  }

  /** The `rep stos` stores of a chunk from `p`, continuing a forward walk at
      `pe`, cover exactly the words from `p` to `end`. */
  lemma {:induction false} RepStosMembers(p: nat, pe: nat, end: nat)
    requires p <= pe <= end + 1
    ensures forall a :: a in Flatten(RepStos(p, ForwardStrides(pe, end))) <==> p <= a <= end
    decreases end + 1 - pe
  {
    var strides := ForwardStrides(pe, end);
    var hi := strides[0].hi;
    var rest := RepStos(hi, strides[1..]);
    FlattenCons(Ascending(p, hi), rest);
    AscendingFacts(p, hi);
    if end - pe >= SPIN_SIZE {
      assert strides[1..] == ForwardStrides(pe + SPIN_SIZE, end);
      RepStosMembers(hi, pe + SPIN_SIZE, end);
    } else {
      assert rest == [];
    }
  }

  /** A word is a word of the map exactly when some chunk holds it. */
  lemma {:induction false} ChunkWordsMembers(chunks: seq<Span>)
    ensures forall a :: a in ChunkWords(chunks) <==>
              exists i :: 0 <= i < |chunks| && chunks[i].start <= a <= chunks[i].end
  {
    if |chunks| > 0 {
      ChunkWordsMembers(chunks[1..]);
      AscendingFacts(chunks[0].start, chunks[0].end);
      forall a | exists i :: 0 <= i < |chunks| && chunks[i].start <= a <= chunks[i].end
        ensures a in ChunkWords(chunks)
      {
        var i :| 0 <= i < |chunks| && chunks[i].start <= a <= chunks[i].end;
        if i > 0 {
          assert chunks[1..][i - 1] == chunks[i];
        }
      }
    }
  }

  /** The `rep stos` init pass stores into exactly the words of the map
      (some of them twice). */
  lemma {:induction false} RepStosCovers(chunks: seq<Span>)
    requires forall i :: 0 <= i < |chunks| ==> chunks[i].start <= chunks[i].end + 1
    ensures forall a :: a in Flatten(RepStosBlocks(chunks)) <==> a in ChunkWords(chunks)
  {
    if |chunks| > 0 {
      var c := chunks[0];
      RepStosCovers(chunks[1..]);
      RepStosMembers(c.start, c.start, c.end);
      AscendingFacts(c.start, c.end);
      FlattenAppend(RepStos(c.start, ForwardStrides(c.start, c.end)), RepStosBlocks(chunks[1..]));
    }
  }

  /** Every word of the map lies at or above `lo` when every chunk starts
      there. */
  lemma {:induction false} ChunkWordsAbove(chunks: seq<Span>, lo: nat)
    requires forall i :: 0 <= i < |chunks| ==> lo <= chunks[i].start
    ensures forall k :: 0 <= k < |ChunkWords(chunks)| ==> lo <= ChunkWords(chunks)[k]
  {
    if |chunks| > 0 {
      ChunkWordsAbove(chunks[1..], lo);
      AscendingFacts(chunks[0].start, chunks[0].end);
    }
  }

  /** The words of an ordered map come in strictly increasing address order,
      so a pass visits each word exactly once. */
  lemma {:induction false} OrderedWordsIncrease(chunks: seq<Span>)
    requires Ordered(chunks)
    ensures StrictlyIncreasing(ChunkWords(chunks))
  {
    if |chunks| > 0 {
      var c := chunks[0];
      OrderedWordsIncrease(chunks[1..]);
      AscendingFacts(c.start, c.end);
      ChunkWordsAbove(chunks[1..], c.end + 1);
      IncreasingAppend(Ascending(c.start, c.end), ChunkWords(chunks[1..]));
    }
  }

  // ---------------------------------------------------------------------
  // Passes without bailout.

  /** Each further iteration adds two passes' worth of ticks. */
  lemma IterationTicksStep(t: nat, n: nat)
    requires n > 0
    ensures 2 * n * t == 2 * t + 2 * (n - 1) * t
  {
  }

  /** A bottom-up pass that is never bailed out runs the inner loop over the
      words of the map in order, counting one tick and one poll per stride. */
  lemma ForwardPassQuiet(act: Action, vcpu: int, bail: seq<bool>, s: State, chunks: seq<Span>)
    requires vcpu >= 0 && !s.bailed && NeverRaised(bail) && NonEmpty(chunks)
    ensures var r := StepWords(act, s.cells, s.pattern, ChunkWords(chunks));
            Walk(act, vcpu, bail, s, ForwardBlocks(chunks))
            == State(r.cells, r.pattern, s.ticks + StrideTotal(chunks), s.polls + StrideTotal(chunks), false)
  {
    WalkQuiet(act, vcpu, bail, s, ForwardBlocks(chunks));
    ForwardPassCovers(chunks);
    PassCounts(chunks);
  }

  /** A top-down pass that is never bailed out runs the inner loop over the
      words of the map in reverse order. */
  lemma ReversePassQuiet(act: Action, vcpu: int, bail: seq<bool>, s: State, chunks: seq<Span>)
    requires vcpu >= 0 && !s.bailed && NeverRaised(bail) && NonEmpty(chunks)
    ensures var r := StepWords(act, s.cells, s.pattern, Reverse(ChunkWords(chunks)));
            Walk(act, vcpu, bail, s, ReverseBlocks(chunks))
            == State(r.cells, r.pattern, s.ticks + StrideTotal(chunks), s.polls + StrideTotal(chunks), false)
  {
    WalkQuiet(act, vcpu, bail, s, ReverseBlocks(chunks));
    ReversePassCovers(chunks);
    PassCounts(chunks);
  }

  /** A fixed-value inner loop is its uniform op applied word by word. */
  lemma FixedStepWords(act: Action, c: Cells, p: Word, addrs: seq<nat>)
    requires act.Fill? || act.Check? || act.CheckThenStore?
    ensures StepWords(act, c, p, addrs)
            == Run(ExecOps(c, addrs, Uniform(WordStep(act, p).op, |addrs|)), p)
  {
    StepWordsIsExecOps(act, c, p, addrs);
    UniformSchedule(act, p, |addrs|);
    assert Schedule(act, p, |addrs|) == Uniform(WordStep(act, p).op, |addrs|);
  }

  /** Checking every visited word against `expected` and storing
      `replacement` over distinct words: each visited word ends as
      `replacement`, no other word changes, and the new reports are those of
      the words that did not hold `expected`. */
  lemma CheckThenStoreEffect(expected: Word, replacement: Word, c: Cells, p: Word, addrs: seq<nat>)
    requires Distinct(addrs)
    ensures var r := StepWords(CheckThenStore(expected, replacement), c, p, addrs);
            && (forall a :: a in addrs ==> Read(r.cells.mem, a) == replacement)
            && (forall a :: a !in addrs ==> Read(r.cells.mem, a) == Read(c.mem, a))
            && r.cells.errors
               == c.errors + Mismatches(c.mem, addrs, Uniform(WordOp(Some(expected), Some(replacement)), |addrs|))
  {
    var op := WordOp(Some(expected), Some(replacement));
    FixedStepWords(CheckThenStore(expected, replacement), c, p, addrs);
    ExecOpsEffect(c, addrs, Uniform(op, |addrs|));
  }
}
