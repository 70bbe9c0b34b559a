/** The loop body every test shares. A pass walks a list of blocks (the
    addresses one stride visits, in order); per block it counts a tick, skips
    the memory entirely for a negative vcpu (the `continue`), and otherwise
    runs the inner loop over the block, then polls the bail flag and stops
    the whole test if it is set (BAILOUT). The inner loop's per-word work is
    an Action; the walking-one actions also thread a rotating pattern from
    word to word, across strides and chunks. */
module Engine {
  import opened Helpers
  import opened Seqs
  import opened Memory
  import opened Rotation

  /** The inner loop of one pass. */
  datatype Action =
    | Fill(value: Word)                               // *p = value
    | Check(value: Word)                              // report if *p != value
    | CheckThenStore(expected: Word, replacement: Word)  // report if *p != expected; *p = replacement
    | WalkInit(inverse: bool)                         // *p = shown pattern; rotate left
    | WalkUp(inverse: bool)                           // check shown pattern, store its complement; rotate left
    | WalkDown(inverse: bool)                         // rotate right; check complement, store shown pattern

  /** The word `inverse ? ~x : x` flips x with: all ones or zero. */
  function Mask(inverse: bool): Word {
    if inverse then UINTPTR_MAX else 0
  }

  /** `inverse ? ~pattern : pattern`, as an exclusive or with the mask. */
  function Shown(inverse: bool, p: Word): Word {
    p ^ Mask(inverse)
  }

  /** Shown(inverse, x) is ~x when inverse is set and x otherwise. */
  lemma ShownIsConditionalComplement(inverse: bool, x: Word)
    ensures inverse ==> Shown(inverse, x) == !x
    ensures !inverse ==> Shown(inverse, x) == x
  {
  }

  /** What init writes for pattern x: the shown pattern. */
  function InitOp(inverse: bool, x: Word): WordOp {
    WordOp(None, Some(Shown(inverse, x)))
  }

  /** What the bottom-up pass does at pattern x: expect the shown pattern
      and write its complement. */
  function UpOp(inverse: bool, x: Word): WordOp {
    WordOp(Some(Shown(inverse, x)), Some(!Shown(inverse, x)))
  }

  /** What the top-down pass does at pattern x: expect the complement of the
      shown pattern and write the shown pattern back. */
  function DownOp(inverse: bool, x: Word): WordOp {
    WordOp(Some(!Shown(inverse, x)), Some(Shown(inverse, x)))
  }

  /** The top-down pass expects `inverse ? pattern : ~pattern`, which is
      the complement of the shown pattern. */
  lemma DownExpectsComplement(inverse: bool, x: Word)
    ensures inverse ==> DownOp(inverse, x).check == Some(x)
    ensures !inverse ==> DownOp(inverse, x).check == Some(!x)
  {
  }

  /** The top-down pass writes `inverse ? ~pattern : pattern`. */
  lemma DownWritesShown(inverse: bool, x: Word)
    ensures inverse ==> DownOp(inverse, x).store == Some(!x)
    ensures !inverse ==> DownOp(inverse, x).store == Some(x)
  {
  }

  /** The bottom-up pass expects `inverse ? ~pattern : pattern`. */
  lemma UpExpectsShown(inverse: bool, x: Word)
    ensures inverse ==> UpOp(inverse, x).check == Some(!x)
    ensures !inverse ==> UpOp(inverse, x).check == Some(x)
  {
  }

  /** The bottom-up pass writes `inverse ? pattern : ~pattern`. */
  lemma UpWritesComplement(inverse: bool, x: Word)
    ensures inverse ==> UpOp(inverse, x).store == Some(x)
    ensures !inverse ==> UpOp(inverse, x).store == Some(!x)
  {
  }

  /** What the inner loop does to one word, and the pattern it leaves for the
      next word. */
  datatype Turn = Turn(op: WordOp, next: Word)

  function WordStep(act: Action, p: Word): Turn {
    match act
    case Fill(v) => Turn(WordOp(None, Some(v)), p)
    case Check(v) => Turn(WordOp(Some(v), None), p)
    case CheckThenStore(e, r) => Turn(WordOp(Some(e), Some(r)), p)
    case WalkInit(inv) => Turn(InitOp(inv, p), Rotl(p))
    case WalkUp(inv) => Turn(UpOp(inv, p), Rotl(p))
    case WalkDown(inv) => Turn(DownOp(inv, Rotr(p)), Rotr(p))
  }

  /** Memory, reports and the pattern after an inner loop. */
  datatype Run = Run(cells: Cells, pattern: Word)

  /** The inner loop over `addrs`, word by word. */
  function StepWords(act: Action, c: Cells, p: Word, addrs: seq<nat>): Run
    decreases |addrs|
  {
    if |addrs| == 0 then Run(c, p)
    else
      var t := WordStep(act, p);
      StepWords(act, Visit(c, addrs[0], t.op), t.next, addrs[1..])
  }

  /** The ops the inner loop performs on n consecutive words from pattern p. */
  function Schedule(act: Action, p: Word, n: nat): (ops: seq<WordOp>)
    ensures |ops| == n
    decreases n
  {
    if n == 0 then [] else [WordStep(act, p).op] + Schedule(act, WordStep(act, p).next, n - 1)
  }

  /** The pattern after n words. */
  function PatternAfter(act: Action, p: Word, n: nat): Word
    decreases n
  {
    if n == 0 then p else PatternAfter(act, WordStep(act, p).next, n - 1)
  }

  /** The inner loop is the precomputed schedule of ops applied in order. */
  lemma {:induction false} StepWordsIsExecOps(act: Action, c: Cells, p: Word, addrs: seq<nat>)
    ensures StepWords(act, c, p, addrs)
            == Run(ExecOps(c, addrs, Schedule(act, p, |addrs|)), PatternAfter(act, p, |addrs|))
    decreases |addrs|
  {
    if |addrs| > 0 {
      var t := WordStep(act, p);
      StepWordsIsExecOps(act, Visit(c, addrs[0], t.op), t.next, addrs[1..]);
      assert Schedule(act, p, |addrs|)[1..] == Schedule(act, t.next, |addrs| - 1);
    }
  }

  /** Running the inner loop over a + b is running it over a, then over b
      from where it stopped. */
  lemma {:induction false} StepWordsAppend(act: Action, c: Cells, p: Word, a: seq<nat>, b: seq<nat>)
    ensures StepWords(act, c, p, a + b)
            == StepWords(act, StepWords(act, c, p, a).cells, StepWords(act, c, p, a).pattern, b)
    decreases |a|
  {
    if |a| == 0 {
      assert a + b == b;
    } else {
      var t := WordStep(act, p);
      assert (a + b)[1..] == a[1..] + b;
      StepWordsAppend(act, Visit(c, a[0], t.op), t.next, a[1..], b);
    }
  }

  /** A fixed-value action performs the same op on every word and leaves the
      pattern alone. */
  lemma {:induction false} UniformSchedule(act: Action, p: Word, n: nat)
    requires act.Fill? || act.Check? || act.CheckThenStore?
    ensures forall k :: 0 <= k < n ==> Schedule(act, p, n)[k] == WordStep(act, p).op
    ensures PatternAfter(act, p, n) == p
    decreases n
  {
    if n > 0 {
      UniformSchedule(act, p, n - 1);
    }
  }

  // ---------------------------------------------------------------------
  // The walking-one schedules.

  /** Word k of an init pass from p receives rotl^k(p), shown; the pattern
      ends at rotl^n(p). */
  lemma {:induction false} InitSchedule(inverse: bool, p: Word, n: nat)
    ensures forall k :: 0 <= k < n ==> Schedule(WalkInit(inverse), p, n)[k] == InitOp(inverse, RotlN(p, k))
    ensures PatternAfter(WalkInit(inverse), p, n) == RotlN(p, n)
    decreases n
  {
    if n > 0 {
      InitSchedule(inverse, Rotl(p), n - 1);
      var s := Schedule(WalkInit(inverse), p, n);
      forall k | 0 <= k < n
        ensures s[k] == InitOp(inverse, RotlN(p, k))
      {
        if k > 0 {
          RotlNAfterRotl(p, k - 1);
        }
      }
      RotlNAfterRotl(p, n - 1);
    }
  }

  /** Word k of a bottom-up pass from p is checked against rotl^k(p), shown,
      and receives its complement; the pattern ends at rotl^n(p). */
  lemma {:induction false} UpSchedule(inverse: bool, p: Word, n: nat)
    ensures forall k :: 0 <= k < n ==> Schedule(WalkUp(inverse), p, n)[k] == UpOp(inverse, RotlN(p, k))
    ensures PatternAfter(WalkUp(inverse), p, n) == RotlN(p, n)
    decreases n
  {
    if n > 0 {
      UpSchedule(inverse, Rotl(p), n - 1);
      var s := Schedule(WalkUp(inverse), p, n);
      forall k | 0 <= k < n
        ensures s[k] == UpOp(inverse, RotlN(p, k))
      {
        if k > 0 {
          RotlNAfterRotl(p, k - 1);
        }
      }
      RotlNAfterRotl(p, n - 1);
    }
  }

  /** Started from rotl^n(p), the k-th word of a top-down pass over n words
      gets the op for rotl^(n-1-k)(p): the right rotations retrace the left
      rotations of the bottom-up pass in reverse, and the pattern ends back
      at p. */
  lemma {:induction false} DownSchedule(inverse: bool, p: Word, n: nat)
    ensures forall k :: 0 <= k < n ==>
              Schedule(WalkDown(inverse), RotlN(p, n), n)[k] == DownOp(inverse, RotlN(p, n - 1 - k))
    ensures PatternAfter(WalkDown(inverse), RotlN(p, n), n) == p
    decreases n
  {
    if n > 0 {
      RotrStepsBack(p, n - 1);
      DownSchedule(inverse, p, n - 1);
    }
  }

  // ---------------------------------------------------------------------
  // Strides, ticks and bailout.

  /** Everything a test carries from stride to stride. `polls` counts the
      BAILOUT checks made so far; `bailed` is set once one of them found the
      bail flag raised, after which the test has returned. */
  datatype State = State(cells: Cells, pattern: Word, ticks: nat, polls: nat, bailed: bool)

  /** The bail flag as seen by the k-th BAILOUT check of a run: an oracle,
      raised at the positions where `bail` holds true. */
  function Polled(bail: seq<bool>, k: nat): bool {
    k < |bail| && bail[k]
  }

  /** The bail flag is never raised. */
  ghost predicate NeverRaised(bail: seq<bool>) {
    forall k :: 0 <= k < |bail| ==> !bail[k]
  }

  /** One stride: `ticks++`; a negative vcpu `continue`s past the memory
      and the bail check; otherwise the inner loop runs, then BAILOUT. */
  function StepBlock(act: Action, vcpu: int, bail: seq<bool>, s: State, block: seq<nat>): State {
    if vcpu < 0 then
      s.(ticks := s.ticks + 1)
    else
      var r := StepWords(act, s.cells, s.pattern, block);
      State(r.cells, r.pattern, s.ticks + 1, s.polls + 1, Polled(bail, s.polls))
  }

  /** A pass over `blocks`, stride by stride, ending early on bailout. */
  function Walk(act: Action, vcpu: int, bail: seq<bool>, s: State, blocks: seq<seq<nat>>): State
    decreases |blocks|
  {
    if s.bailed || |blocks| == 0 then s
    else Walk(act, vcpu, bail, StepBlock(act, vcpu, bail, s, blocks[0]), blocks[1..])
  }

  /** Without bailout a pass runs the inner loop over all its words in
      order, counting one tick and one poll per stride. */
  lemma {:induction false} WalkQuiet(act: Action, vcpu: int, bail: seq<bool>, s: State, blocks: seq<seq<nat>>)
    requires vcpu >= 0 && !s.bailed && NeverRaised(bail)
    ensures var r := StepWords(act, s.cells, s.pattern, Flatten(blocks));
            Walk(act, vcpu, bail, s, blocks)
            == State(r.cells, r.pattern, s.ticks + |blocks|, s.polls + |blocks|, false)
    decreases |blocks|
  {
    if |blocks| > 0 {
      var s1 := StepBlock(act, vcpu, bail, s, blocks[0]);
      WalkQuiet(act, vcpu, bail, s1, blocks[1..]);
      StepWordsAppend(act, s.cells, s.pattern, blocks[0], Flatten(blocks[1..]));
    }
  }

  /** A pass of one stride over the single word `x`: one visit with the op
      the current pattern gives, one tick and one poll. */
  lemma WalkOneWord(act: Action, vcpu: int, bail: seq<bool>, s: State, x: nat)
    requires vcpu >= 0 && !s.bailed && NeverRaised(bail)
    ensures var t := WordStep(act, s.pattern);
            Walk(act, vcpu, bail, s, [[x]])
            == State(Visit(s.cells, x, t.op), t.next, s.ticks + 1, s.polls + 1, false)
  {
    WalkQuiet(act, vcpu, bail, s, [[x]]);
    assert Flatten([[x]]) == [x] by {
      assert [[x]][1..] == [];
    }
  }

  /** For a negative vcpu a pass touches neither memory nor the bail flag
      but still counts one tick per stride. */
  lemma {:induction false} WalkInactive(act: Action, vcpu: int, bail: seq<bool>, s: State, blocks: seq<seq<nat>>)
    requires vcpu < 0 && !s.bailed
    ensures Walk(act, vcpu, bail, s, blocks) == s.(ticks := s.ticks + |blocks|)
    decreases |blocks|
  {
    if |blocks| > 0 {
      WalkInactive(act, vcpu, bail, s.(ticks := s.ticks + 1), blocks[1..]);
    }
  }

  /** When the bail flag is up at a pass's first check, the pass ends right
      after its first stride: that stride's writes and tick are kept. */
  lemma WalkStopsAtBail(act: Action, vcpu: int, bail: seq<bool>, s: State, blocks: seq<seq<nat>>)
    requires vcpu >= 0 && !s.bailed && |blocks| > 0 && Polled(bail, s.polls)
    ensures Walk(act, vcpu, bail, s, blocks) == StepBlock(act, vcpu, bail, s, blocks[0])
    ensures Walk(act, vcpu, bail, s, blocks).bailed
    ensures Walk(act, vcpu, bail, s, blocks).ticks == s.ticks + 1
  {
  }

  /** After a bailout every later pass of the test does nothing. */
  lemma WalkAfterBail(act: Action, vcpu: int, bail: seq<bool>, s: State, blocks: seq<seq<nat>>)
    requires s.bailed
    ensures Walk(act, vcpu, bail, s, blocks) == s
  {
  }
}
