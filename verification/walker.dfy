/** The stride walker shared by every test: the forward do-while that
    advances `pe` by at most SPIN_SIZE words per stride over an inclusive
    range [start, end], and the reverse do-while that moves `ps` down from
    `end` to `start` in the same steps. A stride is the inclusive range of
    words the inner loop visits between two progress ticks. */
module Walker {
  import opened Helpers
  import opened Seqs

  /** An inclusive range of word addresses [start, end] as handed to a walk
      (a calculate_chunk result or a vm_map segment). A chunk may be empty,
      in which case end == start - 1. */
  datatype Span = Span(start: nat, end: nat)

  /** One stride: the inner loop runs between `lo` and `hi` inclusive. When
      hi < lo the inner do-while still visits one word (see UpWords and
      DownWords). */
  datatype Stride = Stride(lo: nat, hi: nat)

  /** ceil(n / SPIN_SIZE): the number of strides needed for n words. */
  function StrideCount(n: nat): nat {
    (n + SPIN_SIZE - 1) / SPIN_SIZE
  }

  // ---------------------------------------------------------------------
  // The forward walk.

  /** The strides of the forward walk from `pe` to `end`, in order. While
      at least SPIN_SIZE words lie beyond `pe` a full stride is taken and
      `pe` moves to the next word; otherwise the last stride ends at `end`. */
  function ForwardStrides(pe: nat, end: nat): seq<Stride>
    decreases end - pe
  {
    if end - pe >= SPIN_SIZE then
      [Stride(pe, pe + SPIN_SIZE - 1)] + ForwardStrides(pe + SPIN_SIZE, end)
    else
      [Stride(pe, end)]
  }

  /** The forward walk starts at `pe` and ends at `end`; from beyond `end`
      it is the single stride the do-while always makes. */
  lemma {:induction false} ForwardEnds(pe: nat, end: nat)
    ensures var r := ForwardStrides(pe, end);
            |r| >= 1 && r[0].lo == pe && r[|r| - 1].hi == end
            && (end < pe ==> r == [Stride(pe, end)])
    decreases end - pe
  {
    if end - pe >= SPIN_SIZE {
      ForwardEnds(pe + SPIN_SIZE, end);
    }
  }

  /** The strides of the forward walk tile the range: stride i starts
      i * SPIN_SIZE words after `pe`, every stride but the last holds exactly
      SPIN_SIZE words and ends before `end`, and the last holds between 1
      and SPIN_SIZE words when the range is not empty. */
  lemma {:induction false} ForwardShape(pe: nat, end: nat)
    ensures var r := ForwardStrides(pe, end);
            |r| >= 1
            && (forall i :: 0 <= i < |r| ==> r[i].lo == pe + i * SPIN_SIZE)
            && (forall i :: 0 <= i < |r| - 1 ==> r[i].hi == r[i].lo + SPIN_SIZE - 1 < end)
            && (pe <= end ==> r[|r| - 1].lo <= end < r[|r| - 1].lo + SPIN_SIZE)
    decreases end - pe
  {
    if end - pe >= SPIN_SIZE {
      ForwardShape(pe + SPIN_SIZE, end);
    }
  }

  /** Every stride of a forward walk over a non-empty range lies within it:
      `pe` never passes `end`. Every `++pe` that continues the walk lands
      strictly inside the address space, so the NULL test in the loop
      condition never fires. */
  lemma {:induction false} ForwardWithinRange(start: nat, end: nat)
    requires start <= end
    ensures forall s :: s in ForwardStrides(start, end) ==> start <= s.lo <= s.hi <= end
    ensures end < WORD_SPACE ==>
              forall i :: 0 <= i < |ForwardStrides(start, end)| - 1 ==>
                0 < ForwardStrides(start, end)[i].hi + 1 < WORD_SPACE
    decreases end - start
  {
    if end - start >= SPIN_SIZE {
      ForwardWithinRange(start + SPIN_SIZE, end);
    }
  }

  // ---------------------------------------------------------------------
  // The reverse walk.

  /** The strides of the reverse walk from `ps` down to `start`, in the
      order they are visited, with every stride downward of the previous
      one. This is the walk with the loop's NULL test removed; see
      ReverseStridesAsWritten for the loop exactly as written. */
  function ReverseStrides(ps: nat, start: nat): seq<Stride>
    decreases ps
  {
    if ps - start >= SPIN_SIZE then
      [Stride(ps - SPIN_SIZE + 1, ps)] + ReverseStrides(ps - SPIN_SIZE, start)
    else
      [Stride(start, ps)]
  }

  /** The reverse walk starts at `ps` and ends at `start`; from below
      `start` it is the single stride the do-while always makes. */
  lemma {:induction false} ReverseEnds(ps: nat, start: nat)
    ensures var r := ReverseStrides(ps, start);
            |r| >= 1 && r[0].hi == ps && r[|r| - 1].lo == start
            && (ps < start ==> r == [Stride(start, ps)])
    decreases ps
  {
    if ps - start >= SPIN_SIZE {
      ReverseEnds(ps - SPIN_SIZE, start);
    }
  }

  /** The strides of the reverse walk tile the range from the top: stride i
      ends i * SPIN_SIZE words below `ps`, every stride but the last holds
      exactly SPIN_SIZE words and starts above `start`, and the last holds
      between 1 and SPIN_SIZE words when the range is not empty. */
  lemma {:induction false} ReverseShape(ps: nat, start: nat)
    ensures var r := ReverseStrides(ps, start);
            |r| >= 1
            && (forall i :: 0 <= i < |r| ==> r[i].hi == ps - i * SPIN_SIZE)
            && (forall i :: 0 <= i < |r| - 1 ==> start < r[i].lo == r[i].hi - SPIN_SIZE + 1)
            && (start <= ps ==> r[|r| - 1].hi - SPIN_SIZE < start <= r[|r| - 1].hi)
    decreases ps
  {
    if ps - start >= SPIN_SIZE {
      ReverseShape(ps - SPIN_SIZE, start);
    }
  }

  /** Every stride of a reverse walk over a non-empty range lies within it:
      `ps` never goes below `start`. */
  lemma {:induction false} ReverseWithinRange(ps: nat, start: nat)
    requires start <= ps
    ensures forall s :: s in ReverseStrides(ps, start) ==> start <= s.lo <= s.hi <= ps
    decreases ps
  {
    if ps - start >= SPIN_SIZE {
      ReverseWithinRange(ps - SPIN_SIZE, start);
    }
  }

  /** A forward walk over n > 0 words takes ceil(n / SPIN_SIZE) strides. */
  lemma {:induction false} ForwardCount(pe: nat, end: nat)
    requires pe <= end
    ensures |ForwardStrides(pe, end)| == StrideCount(end - pe + 1)
    decreases end - pe
  {
    if end - pe >= SPIN_SIZE {
      ForwardCount(pe + SPIN_SIZE, end);
    }
  }

  /** A reverse walk over n > 0 words takes ceil(n / SPIN_SIZE) strides. */
  lemma {:induction false} ReverseCount(ps: nat, start: nat)
    requires start <= ps
    ensures |ReverseStrides(ps, start)| == StrideCount(ps - start + 1)
    decreases ps
  {
    if ps - start >= SPIN_SIZE {
      ReverseCount(ps - SPIN_SIZE, start);
    }
  }

  /** The reverse walk of a chunk takes as many strides as the forward walk
      of the same chunk, for every chunk including an empty one. */
  lemma SameStrideCount(c: Span)
    ensures |ReverseStrides(c.end, c.start)| == |ForwardStrides(c.start, c.end)|
  {
    if c.start <= c.end {
      ForwardCount(c.start, c.end);
      ReverseCount(c.end, c.start);
    }
  }

  /** The reverse loop as written: after each stride that is not the last,
      `--ps` moves to the word below and the loop also stops if that word
      is address 0 (NULL), although address 0 may belong to the range. */
  function ReverseStridesAsWritten(ps: nat, start: nat): seq<Stride>
    decreases ps
  {
    if ps - start >= SPIN_SIZE then
      var lo := ps - SPIN_SIZE + 1;
      [Stride(lo, ps)] + (if lo - 1 == 0 then [] else ReverseStridesAsWritten(lo - 1, start))
    else
      [Stride(start, ps)]
  }

  /** The NULL test only matters for a range that starts at address 0: for
      every other start the loop as written takes exactly the strides of the
      reverse walk. */
  lemma {:induction false} AsWrittenAgreesAboveNull(ps: nat, start: nat)
    requires start > 0
    ensures ReverseStridesAsWritten(ps, start) == ReverseStrides(ps, start)
    decreases ps
  {
    if ps - start >= SPIN_SIZE {
      AsWrittenAgreesAboveNull(ps - SPIN_SIZE, start);
    }
  }

  // ---------------------------------------------------------------------
  // The words each stride visits.

  /** Words of a forward stride, in visiting order. The inner loop
      `do { ... } while (p++ < pe)` visits `lo` even when hi < lo. */
  function UpWords(s: Stride): seq<nat> {
    if s.hi < s.lo then [s.lo] else Ascending(s.lo, s.hi)
  }

  /** Words of a reverse stride, in visiting order. The inner loop
      `do { ... } while (p-- > ps)` visits `hi` even when hi < lo. */
  function DownWords(s: Stride): seq<nat> {
    if s.hi < s.lo then [s.hi] else Descending(s.hi, s.lo)
  }

  function UpBlocks(strides: seq<Stride>): (r: seq<seq<nat>>)
    ensures |r| == |strides|
  {
    if |strides| == 0 then [] else [UpWords(strides[0])] + UpBlocks(strides[1..])
  }

  function DownBlocks(strides: seq<Stride>): (r: seq<seq<nat>>)
    ensures |r| == |strides|
  {
    if |strides| == 0 then [] else [DownWords(strides[0])] + DownBlocks(strides[1..])
  }

  lemma FlattenCons<T>(x: seq<T>, rest: seq<seq<T>>)
    ensures Flatten([x] + rest) == x + Flatten(rest)
  {
    assert ([x] + rest)[1..] == rest;
  }

  /** A full first stride followed by the rest of the walk. */
  lemma ForwardUnfold(pe: nat, end: nat)
    requires end - pe >= SPIN_SIZE
    ensures UpBlocks(ForwardStrides(pe, end))
              == [Ascending(pe, pe + SPIN_SIZE - 1)] + UpBlocks(ForwardStrides(pe + SPIN_SIZE, end))
  {
    var r := ForwardStrides(pe, end);
    assert r[1..] == ForwardStrides(pe + SPIN_SIZE, end);
  }

  /** A full stride joined to the words after it. */
  lemma StrideJoin(lo: nat, hi: nat, rest: seq<seq<nat>>)
    requires hi - lo >= SPIN_SIZE
    requires Flatten(rest) == Ascending(lo + SPIN_SIZE, hi)
    ensures Flatten([Ascending(lo, lo + SPIN_SIZE - 1)] + rest) == Ascending(lo, hi)
  {
    FlattenCons(Ascending(lo, lo + SPIN_SIZE - 1), rest);
    AscendingJoin(lo, lo + SPIN_SIZE, hi);
  }

  /** The forward walk visits every word of a non-empty range exactly once,
      in ascending order. */
  lemma {:induction false} ForwardCovers(pe: nat, end: nat)
    requires pe <= end
    ensures Flatten(UpBlocks(ForwardStrides(pe, end))) == Ascending(pe, end)
    decreases end - pe
  {
    if end - pe >= SPIN_SIZE {
      ForwardCovers(pe + SPIN_SIZE, end);
      ForwardUnfold(pe, end);
      StrideJoin(pe, end, UpBlocks(ForwardStrides(pe + SPIN_SIZE, end)));
    } else {
      FlattenCons(Ascending(pe, end), []);
    }
  }

  /** A full first reverse stride followed by the rest of the walk. */
  lemma ReverseUnfold(ps: nat, start: nat)
    requires ps - start >= SPIN_SIZE
    ensures DownBlocks(ReverseStrides(ps, start))
              == [Descending(ps, ps - SPIN_SIZE + 1)] + DownBlocks(ReverseStrides(ps - SPIN_SIZE, start))
  {
    var r := ReverseStrides(ps, start);
    assert r[1..] == ReverseStrides(ps - SPIN_SIZE, start);
  }

  /** A full reverse stride joined to the words after it. */
  lemma ReverseStrideJoin(hi: nat, lo: nat, rest: seq<seq<nat>>)
    requires hi - lo >= SPIN_SIZE
    requires Flatten(rest) == Descending(hi - SPIN_SIZE, lo)
    ensures Flatten([Descending(hi, hi - SPIN_SIZE + 1)] + rest) == Descending(hi, lo)
  {
    FlattenCons(Descending(hi, hi - SPIN_SIZE + 1), rest);
    DescendingJoin(hi, hi - SPIN_SIZE + 1, lo);
  }

  /** The reverse walk visits every word of a non-empty range exactly once,
      in descending order. */
  lemma {:induction false} ReverseCovers(ps: nat, start: nat)
    requires start <= ps
    ensures Flatten(DownBlocks(ReverseStrides(ps, start))) == Descending(ps, start)
    decreases ps
  {
    if ps - start >= SPIN_SIZE {
      ReverseCovers(ps - SPIN_SIZE, start);
      ReverseUnfold(ps, start);
      ReverseStrideJoin(ps, start, DownBlocks(ReverseStrides(ps - SPIN_SIZE, start)));
    } else {
      FlattenCons(Descending(ps, start), []);
    }
  }

  /** The loop as written skips address 0 of the range [0, SPIN_SIZE]: its
      single full stride ends at word 1 and `--ps` then yields NULL, while
      the forward walk of the same range does visit word 0. */
  lemma AsWrittenSkipsNull()
    ensures ReverseStridesAsWritten(SPIN_SIZE, 0) == [Stride(1, SPIN_SIZE)]
    ensures 0 !in Flatten(DownBlocks(ReverseStridesAsWritten(SPIN_SIZE, 0)))
    ensures 0 in Flatten(UpBlocks(ForwardStrides(0, SPIN_SIZE)))
  {
    var r := ReverseStridesAsWritten(SPIN_SIZE, 0);
    assert r == [Stride(1, SPIN_SIZE)];
    FlattenCons(Descending(SPIN_SIZE, 1), []);
    DescendingIsReverse(1, SPIN_SIZE);
    ReverseMembers(Ascending(1, SPIN_SIZE));
    AscendingFacts(1, SPIN_SIZE);
    ForwardCovers(0, SPIN_SIZE);
    AscendingFacts(0, SPIN_SIZE);
  }

  // ---------------------------------------------------------------------
  // The loops themselves, with pointers wrapping modulo the address space.

  /** One turn of the forward loop: the first stride, then the rest. */
  lemma ForwardStep(pe: nat, end: nat)
    ensures end - pe >= SPIN_SIZE ==>
              ForwardStrides(pe, end) == [Stride(pe, pe + SPIN_SIZE - 1)] + ForwardStrides(pe + SPIN_SIZE, end)
    ensures end - pe < SPIN_SIZE ==> ForwardStrides(pe, end) == [Stride(pe, end)]
  {
  }

  /** A full stride taken by the forward loop, joined to the strides before
      it and the walk after it. */
  lemma ForwardAdvance(done: seq<Stride>, pe: nat, end: nat)
    requires end - pe >= SPIN_SIZE
    ensures (done + [Stride(pe, pe + SPIN_SIZE - 1)]) + ForwardStrides(pe + SPIN_SIZE, end)
            == done + ForwardStrides(pe, end)
  {
    ForwardStep(pe, end);
  }

  /** The last stride of the forward loop completes the walk. */
  lemma ForwardLast(done: seq<Stride>, pe: nat, end: nat)
    requires end - pe < SPIN_SIZE
    ensures done + [Stride(pe, end)] == done + ForwardStrides(pe, end)
  {
    ForwardStep(pe, end);
  }

  /** A full stride taken by the reverse loop as written, joined to the
      strides before it and the walk after it; the walk ends there when
      `--ps` yields NULL. */
  lemma ReverseAdvance(done: seq<Stride>, ps: nat, start: nat)
    requires ps - start >= SPIN_SIZE
    ensures ps - SPIN_SIZE == 0 ==>
              done + [Stride(ps - SPIN_SIZE + 1, ps)] == done + ReverseStridesAsWritten(ps, start)
    ensures ps - SPIN_SIZE > 0 ==>
              (done + [Stride(ps - SPIN_SIZE + 1, ps)]) + ReverseStridesAsWritten(ps - SPIN_SIZE, start)
              == done + ReverseStridesAsWritten(ps, start)
  {
  }

  /** The last stride of the reverse loop completes the walk. */
  lemma ReverseLast(done: seq<Stride>, ps: nat, start: nat)
    requires ps - start < SPIN_SIZE
    ensures done + [Stride(start, ps)] == done + ReverseStridesAsWritten(ps, start)
  {
  }

  /** The forward do-while loop, turn by turn: a full stride when at least
      SPIN_SIZE words remain beyond `pe`, else the last stride up to `end`.
      `pe` is a pointer, so `++pe` would wrap to NULL at the top of the
      address space and end the loop; for a range inside the address space
      that never happens and the loop yields the forward walk. */
  method WalkForward(start: nat, end: nat) returns (strides: seq<Stride>)
    requires start < WORD_SPACE && end < WORD_SPACE
    ensures strides == ForwardStrides(start, end)
  {
    var pe: nat := start;
    var atEnd := false;
    strides := [];
    while !atEnd
      invariant !atEnd ==> strides + ForwardStrides(pe, end) == ForwardStrides(start, end)
      invariant atEnd ==> strides == ForwardStrides(start, end)
      decreases !atEnd, end - pe
    {
      if end - pe >= SPIN_SIZE {
        ForwardAdvance(strides, pe, end);
        strides := strides + [Stride(pe, pe + SPIN_SIZE - 1)];
        if pe + SPIN_SIZE == WORD_SPACE {
          // ++pe would wrap to NULL and end the loop
          assert false;
          break;
        }
        pe := pe + SPIN_SIZE;
      } else {
        ForwardLast(strides, pe, end);
        strides := strides + [Stride(pe, end)];
        atEnd := true;
      }
    }
  }

  /** The reverse do-while loop, turn by turn, including the NULL test of
      its `--ps`: it yields the reverse walk exactly as written. */
  method WalkReverse(start: nat, end: nat) returns (strides: seq<Stride>)
    requires start < WORD_SPACE && end < WORD_SPACE
    ensures strides == ReverseStridesAsWritten(end, start)
  {
    var ps: nat := end;
    var atStart := false;
    strides := [];
    while !atStart
      invariant !atStart ==> strides + ReverseStridesAsWritten(ps, start) == ReverseStridesAsWritten(end, start)
      invariant atStart ==> strides == ReverseStridesAsWritten(end, start)
      decreases !atStart, ps
    {
      if ps - start >= SPIN_SIZE {
        ReverseAdvance(strides, ps, start);
        strides := strides + [Stride(ps - SPIN_SIZE + 1, ps)];
        ps := ps - SPIN_SIZE;
        if ps == 0 {
          // --ps yielded NULL
          atStart := true;
        }
      } else {
        ReverseLast(strides, ps, start);
        strides := strides + [Stride(start, ps)];
        atStart := true;
      }
    }
  }
}
