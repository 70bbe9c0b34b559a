/** The bit fade test: fill every segment of the memory map with zeros,
    wait, check that every word still reads zero, then the same with all
    ones. The caller drives it one stage per call; the stage of the previous
    call (a static variable in the program) is passed in and handed back, so
    that a repeated call on a sleeping stage does not sleep twice. */
module BitFade {
  import opened Helpers
  import opened Seqs
  import opened Memory
  import opened Walker
  import opened Engine
  import opened Passes

  const ALL_ZERO: Word := 0
  const ALL_ONES: Word := !ALL_ZERO

  /** The value of `last_stage` before the first call: -1 is no stage, so
      the first call of a sleeping stage always sleeps. */
  const INITIAL_LAST_STAGE: int := -1

  /** pattern_fill: every word of every segment receives `pattern`. */
  function PatternFill(vcpu: int, bail: seq<bool>, pattern: Word, segs: seq<Span>, s: State): State {
    Walk(Fill(pattern), vcpu, bail, s, ForwardBlocks(segs))
  }

  /** pattern_check: every word of every segment is compared with `pattern`. */
  function PatternCheck(vcpu: int, bail: seq<bool>, pattern: Word, segs: seq<Span>, s: State): State {
    Walk(Check(pattern), vcpu, bail, s, ForwardBlocks(segs))
  }

  /** fade_delay: one tick per second while `secs` is positive. A vcpu that
      is not negative sleeps that second and then polls the bail flag,
      returning at once when it is raised; memory is never touched. Without
      bailout, and always for a negative vcpu, the delay counts
      max(secs, 0) ticks. */
  function FadeDelay(vcpu: int, bail: seq<bool>, s: State, secs: int): (r: State)
    ensures r.cells == s.cells
    ensures !s.bailed && (vcpu < 0 || NeverRaised(bail))
            ==> !r.bailed && r.ticks == s.ticks + (if secs > 0 then secs else 0)
    decreases secs
  {
    if s.bailed || secs <= 0 then s
    else
      var s1 := s.(ticks := s.ticks + 1);
      if vcpu < 0 then FadeDelay(vcpu, bail, s1, secs - 1)
      else FadeDelay(vcpu, bail, s1.(polls := s.polls + 1, bailed := Polled(bail, s.polls)), secs - 1)
  }

  /** What one call of the stage machine returns, and the stage it records
      for the next call. */
  datatype StageResult = StageResult(outcome: Outcome, lastStage: int)

  /** The sleeping stages. */
  predicate Delays(stage: int) {
    stage == 1 || stage == 4
  }

  /** The value a filling stage writes: zero for stage 0, all ones for
      stage 3. */
  predicate FillsWith(stage: int, pattern: Word) {
    (stage == 0 && pattern == ALL_ZERO) || (stage == 3 && pattern == ALL_ONES)
  }

  /** The value a checking stage expects: zero for stage 2, all ones for
      stage 5. */
  predicate ChecksFor(stage: int, pattern: Word) {
    (stage == 2 && pattern == ALL_ZERO) || (stage == 5 && pattern == ALL_ONES)
  }

  /** test_bit_fade: stage 0 fills with zeros, 2 checks for zeros, 3 fills
      with ones, 5 checks for ones; 1 and 4 sleep unless the previous call
      was the same stage; any other stage does nothing. Every call records
      its stage. */
  function TestBitFade(vcpu: int, stage: int, secs: int, lastStage: int,
                       segs: seq<Span>, mem: Mem, bail: seq<bool>): (r: StageResult)
    ensures r.lastStage == stage
    ensures (stage < 0 || stage > 5 || (Delays(stage) && stage == lastStage))
            ==> r.outcome == Outcome(mem, [], 0)
  {
    var s := Start(mem, ALL_ZERO);
    var e :=
      match stage
      case 0 => PatternFill(vcpu, bail, ALL_ZERO, segs, s)
      case 1 => if stage != lastStage then FadeDelay(vcpu, bail, s, secs) else s
      case 2 => PatternCheck(vcpu, bail, ALL_ZERO, segs, s)
      case 3 => PatternFill(vcpu, bail, ALL_ONES, segs, s)
      case 4 => if stage != lastStage then FadeDelay(vcpu, bail, s, secs) else s
      case 5 => PatternCheck(vcpu, bail, ALL_ONES, segs, s)
      case _ => s;
    StageResult(Finish(e), stage)
  }

  // ---------------------------------------------------------------------
  // Fill and check.

  /** Without bailout, the fill leaves `pattern` in every word of every
      segment, changes no other word, reports nothing and counts one tick
      per stride. */
  lemma FillEffect(vcpu: int, bail: seq<bool>, pattern: Word, segs: seq<Span>, s: State)
    requires vcpu >= 0 && !s.bailed && NeverRaised(bail) && NonEmpty(segs)
    ensures var r := PatternFill(vcpu, bail, pattern, segs, s);
            && !r.bailed && r.ticks == s.ticks + StrideTotal(segs)
            && r.cells.errors == s.cells.errors
            && forall a: nat :: Read(r.cells.mem, a)
                                == if a in ChunkWords(segs) then pattern else Read(s.cells.mem, a)
  {
    var words := ChunkWords(segs);
    ForwardPassQuiet(Fill(pattern), vcpu, bail, s, segs);
    FixedStepWords(Fill(pattern), s.cells, s.pattern, words);
    StoresEffect(s.cells, words, Uniform(WordOp(None, Some(pattern)), |words|), pattern);
  }

  /** One stride of a check leaves memory as it was. */
  lemma CheckStrideKeepsMemory(pattern: Word, vcpu: int, bail: seq<bool>, s: State, block: seq<nat>)
    ensures StepBlock(Check(pattern), vcpu, bail, s, block).cells.mem == s.cells.mem
  {
    var op := WordOp(Some(pattern), None);
    FixedStepWords(Check(pattern), s.cells, s.pattern, block);
    ChecksEffect(s.cells, block, Uniform(op, |block|));
  }

  /** A check never writes memory, whether or not it is bailed out and
      whatever the vcpu. */
  lemma {:induction false} CheckWalkKeepsMemory(pattern: Word, vcpu: int, bail: seq<bool>, s: State, blocks: seq<seq<nat>>)
    ensures Walk(Check(pattern), vcpu, bail, s, blocks).cells.mem == s.cells.mem
    decreases |blocks|
  {
    if !s.bailed && |blocks| > 0 {
      CheckStrideKeepsMemory(pattern, vcpu, bail, s, blocks[0]);
      CheckWalkKeepsMemory(pattern, vcpu, bail, StepBlock(Check(pattern), vcpu, bail, s, blocks[0]), blocks[1..]);
    }
  }

  /** Without bailout, the check reports (a, pattern, actual, true) for
      exactly the words a of the segments that do not hold `pattern`, in
      ascending address order when the segments are, and counts one tick
      per stride. */
  lemma CheckEffect(vcpu: int, bail: seq<bool>, pattern: Word, segs: seq<Span>, s: State)
    requires vcpu >= 0 && !s.bailed && NeverRaised(bail) && NonEmpty(segs)
    ensures var r := PatternCheck(vcpu, bail, pattern, segs, s);
            var words := ChunkWords(segs);
            var reported := Mismatches(s.cells.mem, words, Uniform(WordOp(Some(pattern), None), |words|));
            && !r.bailed && r.ticks == s.ticks + StrideTotal(segs)
            && r.cells.mem == s.cells.mem
            && r.cells.errors == s.cells.errors + reported
            && (forall x: ErrorRecord :: x in reported <==>
                  x.addr in words && Read(s.cells.mem, x.addr) != pattern
                  && x == ErrorRecord(x.addr, pattern, Read(s.cells.mem, x.addr), true))
            && (reported == [] <==> forall a :: a in words ==> Read(s.cells.mem, a) == pattern)
            && (Ordered(segs) ==> forall i, j :: 0 <= i < j < |reported| ==> reported[i].addr < reported[j].addr)
  {
    var words := ChunkWords(segs);
    var op := WordOp(Some(pattern), None);
    ForwardPassQuiet(Check(pattern), vcpu, bail, s, segs);
    FixedStepWords(Check(pattern), s.cells, s.pattern, words);
    ChecksEffect(s.cells, words, Uniform(op, |words|));
    UniformReports(s.cells.mem, words, op);
    MismatchesEmpty(s.cells.mem, words, Uniform(op, |words|));
    if Ordered(segs) {
      OrderedWordsIncrease(segs);
      MismatchesOrdered(s.cells.mem, words, Uniform(op, |words|));
    }
  }

  // ---------------------------------------------------------------------
  // The delay.

  /** The delay polls once per second: when the bail flag is first seen
      raised at the k-th poll, the delay returns after k + 1 seconds. */
  lemma {:induction false} DelayStopsAtBail(vcpu: int, bail: seq<bool>, s: State, secs: int, k: nat)
    requires vcpu >= 0 && !s.bailed && k < secs
    requires Polled(bail, s.polls + k)
    requires forall j :: s.polls <= j < s.polls + k ==> !Polled(bail, j)
    ensures var r := FadeDelay(vcpu, bail, s, secs);
            r.bailed && r.ticks == s.ticks + k + 1
    decreases k
  {
    var s1 := s.(ticks := s.ticks + 1, polls := s.polls + 1, bailed := Polled(bail, s.polls));
    if k > 0 {
      DelayStopsAtBail(vcpu, bail, s1, secs - 1, k - 1);
    }
  }

  // ---------------------------------------------------------------------
  // The stage machine.

  /** Stages 0 and 3, without bailout: every word of the segments holds
      zero (stage 0) or all ones (stage 3), every other word is as it was,
      nothing is reported, one tick per stride. */
  lemma FillStage(vcpu: int, stage: int, pattern: Word, secs: int, lastStage: int, segs: seq<Span>, mem: Mem, bail: seq<bool>)
    requires FillsWith(stage, pattern)
    requires vcpu >= 0 && NeverRaised(bail) && NonEmpty(segs)
    ensures var o := TestBitFade(vcpu, stage, secs, lastStage, segs, mem, bail).outcome;
            && o.errors == [] && o.ticks == StrideTotal(segs)
            && forall a: nat :: Read(o.mem, a) == if a in ChunkWords(segs) then pattern else Read(mem, a)
  {
    var s := Start(mem, ALL_ZERO);
    FillEffect(vcpu, bail, pattern, segs, s);
    assert TestBitFade(vcpu, stage, secs, lastStage, segs, mem, bail).outcome
           == Finish(PatternFill(vcpu, bail, pattern, segs, s));
  }

  /** Stages 2 and 5, without bailout: memory is left as it was and the
      reports are (a, expected, actual, true) for exactly the words a of the
      segments that do not hold zero (stage 2) or all ones (stage 5). */
  lemma CheckStage(vcpu: int, stage: int, pattern: Word, secs: int, lastStage: int, segs: seq<Span>, mem: Mem, bail: seq<bool>)
    requires ChecksFor(stage, pattern)
    requires vcpu >= 0 && NeverRaised(bail) && NonEmpty(segs)
    ensures var o := TestBitFade(vcpu, stage, secs, lastStage, segs, mem, bail).outcome;
            && o.mem == mem && o.ticks == StrideTotal(segs)
            && (forall x: ErrorRecord :: x in o.errors <==>
                  x.addr in ChunkWords(segs) && Read(mem, x.addr) != pattern
                  && x == ErrorRecord(x.addr, pattern, Read(mem, x.addr), true))
            && (o.errors == [] <==> forall a :: a in ChunkWords(segs) ==> Read(mem, a) == pattern)
  {
    var s := Start(mem, ALL_ZERO);
    CheckEffect(vcpu, bail, pattern, segs, s);
    assert TestBitFade(vcpu, stage, secs, lastStage, segs, mem, bail).outcome
           == Finish(PatternCheck(vcpu, bail, pattern, segs, s));
  }

  /** Stages 1 and 4 entered from another stage, without bailout or for a
      negative vcpu: memory untouched, nothing reported, max(secs, 0) ticks. */
  lemma DelayStage(vcpu: int, stage: int, secs: int, lastStage: int, segs: seq<Span>, mem: Mem, bail: seq<bool>)
    requires Delays(stage) && stage != lastStage
    requires vcpu < 0 || NeverRaised(bail)
    ensures TestBitFade(vcpu, stage, secs, lastStage, segs, mem, bail).outcome
            == Outcome(mem, [], if secs > 0 then secs else 0)
  {
  }

  /** The first call ever of a sleeping stage sleeps: no call has recorded
      a stage yet. */
  lemma FirstDelaySleeps(vcpu: int, stage: int, secs: int, segs: seq<Span>, mem: Mem, bail: seq<bool>)
    requires Delays(stage)
    requires vcpu < 0 || NeverRaised(bail)
    ensures var r := TestBitFade(vcpu, stage, secs, INITIAL_LAST_STAGE, segs, mem, bail);
            r.outcome == Outcome(mem, [], if secs > 0 then secs else 0) && r.lastStage == stage
  {
    DelayStage(vcpu, stage, secs, INITIAL_LAST_STAGE, segs, mem, bail);
  }

  /** Only the stage of the call just before is remembered, so a sleeping
      stage entered again after another stage sleeps again: in the sequence
      of stages 1, 2, 1 both calls of stage 1 sleep. */
  lemma RevisitSleepsAgain(vcpu: int, secs: int, segs: seq<Span>, mem: Mem, bail: seq<bool>)
    requires vcpu < 0 || NeverRaised(bail)
    ensures var first := TestBitFade(vcpu, 1, secs, INITIAL_LAST_STAGE, segs, mem, bail);
            var second := TestBitFade(vcpu, 2, secs, first.lastStage, segs, first.outcome.mem, bail);
            var third := TestBitFade(vcpu, 1, secs, second.lastStage, segs, second.outcome.mem, bail);
            && first.outcome.ticks == (if secs > 0 then secs else 0)
            && third.outcome.ticks == (if secs > 0 then secs else 0)
  {
    var first := TestBitFade(vcpu, 1, secs, INITIAL_LAST_STAGE, segs, mem, bail);
    var second := TestBitFade(vcpu, 2, secs, first.lastStage, segs, first.outcome.mem, bail);
    FirstDelaySleeps(vcpu, 1, secs, segs, mem, bail);
    DelayStage(vcpu, 1, secs, second.lastStage, segs, second.outcome.mem, bail);
  }

  /** A cell that lost its charge after the fill is reported by the check
      that follows: with `a` in a segment and `w` the value it decayed to,
      stage 2 reports (a, 0, w, true). */
  lemma DecayDetected(vcpu: int, secs: int, lastStage: int, segs: seq<Span>, mem: Mem, bail: seq<bool>, a: nat, w: Word)
    requires vcpu >= 0 && NeverRaised(bail) && NonEmpty(segs)
    requires a in ChunkWords(segs) && w != ALL_ZERO
    ensures var filled := TestBitFade(vcpu, 0, secs, lastStage, segs, mem, bail);
            var checked := TestBitFade(vcpu, 2, secs, 1, segs, filled.outcome.mem[a := w], bail);
            ErrorRecord(a, ALL_ZERO, w, true) in checked.outcome.errors
  {
    var filled := TestBitFade(vcpu, 0, secs, lastStage, segs, mem, bail);
    var decayed := filled.outcome.mem[a := w];
    CheckStage(vcpu, 2, ALL_ZERO, secs, 1, segs, decayed, bail);
    assert Read(decayed, a) == w;
  }

  /** Stages 0 to 5 called in order, each with the stage the previous call
      recorded and the memory it left, and no cell decaying in between:
      stages 2 and 5 report nothing and the map ends holding all ones. */
  lemma FadeCycleClean(vcpu: int, secs: int, lastStage: int, segs: seq<Span>, mem: Mem, bail: seq<bool>)
    requires vcpu >= 0 && NeverRaised(bail) && NonEmpty(segs)
    ensures var r0 := TestBitFade(vcpu, 0, secs, lastStage, segs, mem, bail);
            var r1 := TestBitFade(vcpu, 1, secs, r0.lastStage, segs, r0.outcome.mem, bail);
            var r2 := TestBitFade(vcpu, 2, secs, r1.lastStage, segs, r1.outcome.mem, bail);
            var r3 := TestBitFade(vcpu, 3, secs, r2.lastStage, segs, r2.outcome.mem, bail);
            var r4 := TestBitFade(vcpu, 4, secs, r3.lastStage, segs, r3.outcome.mem, bail);
            var r5 := TestBitFade(vcpu, 5, secs, r4.lastStage, segs, r4.outcome.mem, bail);
            && r2.outcome.errors == [] && r5.outcome.errors == []
            && (forall a :: a in ChunkWords(segs) ==> Read(r5.outcome.mem, a) == ALL_ONES)
            && r5.lastStage == 5
  {
    var r0 := TestBitFade(vcpu, 0, secs, lastStage, segs, mem, bail);
    var r1 := TestBitFade(vcpu, 1, secs, r0.lastStage, segs, r0.outcome.mem, bail);
    var r2 := TestBitFade(vcpu, 2, secs, r1.lastStage, segs, r1.outcome.mem, bail);
    var r3 := TestBitFade(vcpu, 3, secs, r2.lastStage, segs, r2.outcome.mem, bail);
    var r4 := TestBitFade(vcpu, 4, secs, r3.lastStage, segs, r3.outcome.mem, bail);
    var r5 := TestBitFade(vcpu, 5, secs, r4.lastStage, segs, r4.outcome.mem, bail);
    FillStage(vcpu, 0, ALL_ZERO, secs, lastStage, segs, mem, bail);
    DelayStage(vcpu, 1, secs, r0.lastStage, segs, r0.outcome.mem, bail);
    CheckStage(vcpu, 2, ALL_ZERO, secs, r1.lastStage, segs, r1.outcome.mem, bail);
    FillStage(vcpu, 3, ALL_ONES, secs, r2.lastStage, segs, r2.outcome.mem, bail);
    DelayStage(vcpu, 4, secs, r3.lastStage, segs, r3.outcome.mem, bail);
    CheckStage(vcpu, 5, ALL_ONES, secs, r4.lastStage, segs, r4.outcome.mem, bail);
  }
}
