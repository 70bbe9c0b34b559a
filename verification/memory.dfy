/** The memory under test and what one visit to a word does to it.

    Memory is a map from word address to test word. A read returns the
    stored word; reads are exact (no hardware fault model), so a fault is
    represented by a memory whose contents differ from what the test wrote.
    Every address a test touches is assumed mapped; an absent address reads
    as 0. */
module Memory {
  import opened Helpers
  import opened Seqs

  datatype Option<T> = None | Some(value: T)

  type Mem = map<nat, Word>

  function Read(m: Mem, a: nat): Word {
    if a in m then m[a] else 0
  }

  /** The arguments of one data_error call: address, expected value, value
      read, and whether the mismatch was seen on a read-back. */
  datatype ErrorRecord = ErrorRecord(addr: nat, expected: Word, actual: Word, readBack: bool)

  /** Memory together with the error reports issued so far, in order. */
  datatype Cells = Cells(mem: Mem, errors: seq<ErrorRecord>)

  /** What the inner loop does to one word: optionally read it and compare
      with an expected value (reporting a mismatch), then optionally store a
      value. */
  datatype WordOp = WordOp(check: Option<Word>, store: Option<Word>)

  /** The read-back of `op` at a word holding `actual` is a mismatch. */
  predicate Fails(op: WordOp, actual: Word) {
    op.check.Some? && op.check.value != actual
  }

  /** The word's contents after `op`, when it held `before`. */
  function After(op: WordOp, before: Word): Word {
    if op.store.Some? then op.store.value else before
  }

  function Report(a: nat, op: WordOp, actual: Word): ErrorRecord
    requires op.check.Some?
  {
    ErrorRecord(a, op.check.value, actual, true)
  }

  /** One visit: read, compare, report, store — in the order of the source. */
  function Visit(c: Cells, a: nat, op: WordOp): Cells {
    var actual := Read(c.mem, a);
    var errors := if Fails(op, actual) then c.errors + [Report(a, op, actual)] else c.errors;
    var mem := if op.store.Some? then c.mem[a := op.store.value] else c.mem;
    Cells(mem, errors)
  }

  /** Visits `addrs[k]` with `ops[k]`, for k in order. */
  function ExecOps(c: Cells, addrs: seq<nat>, ops: seq<WordOp>): Cells
    requires |addrs| == |ops|
    decreases |addrs|
  {
    if |addrs| == 0 then c else ExecOps(Visit(c, addrs[0], ops[0]), addrs[1..], ops[1..])
  }

  /** Reference definition of the reports a sequence of visits issues when
      every word is read as it was before the sequence began: one report per
      failing read-back, in visiting order. */
  function Mismatches(m: Mem, addrs: seq<nat>, ops: seq<WordOp>): (r: seq<ErrorRecord>)
    requires |addrs| == |ops|
    ensures |r| <= |addrs|
    decreases |addrs|
  {
    if |addrs| == 0 then []
    else
      var rest := Mismatches(m, addrs[1..], ops[1..]);
      var actual := Read(m, addrs[0]);
      if Fails(ops[0], actual) then [Report(addrs[0], ops[0], actual)] + rest else rest
  }

  /** Every report comes from a failing read-back. */
  lemma {:induction false} MismatchesSound(m: Mem, addrs: seq<nat>, ops: seq<WordOp>)
    requires |addrs| == |ops|
    ensures forall e :: e in Mismatches(m, addrs, ops) ==>
              exists k :: 0 <= k < |addrs| && Fails(ops[k], Read(m, addrs[k]))
                          && e == Report(addrs[k], ops[k], Read(m, addrs[k]))
    decreases |addrs|
  {
    if |addrs| > 0 {
      var tailAddrs := addrs[1..];
      var tailOps := ops[1..];
      MismatchesSound(m, tailAddrs, tailOps);
      forall e | e in Mismatches(m, tailAddrs, tailOps)
        ensures exists k :: 0 <= k < |addrs| && Fails(ops[k], Read(m, addrs[k]))
                            && e == Report(addrs[k], ops[k], Read(m, addrs[k]))
      {
        var k :| 0 <= k < |tailAddrs| && Fails(tailOps[k], Read(m, tailAddrs[k]))
                 && e == Report(tailAddrs[k], tailOps[k], Read(m, tailAddrs[k]));
        assert tailAddrs[k] == addrs[k + 1] && tailOps[k] == ops[k + 1];
      }
    }
  }

  /** Every failing read-back is reported. */
  lemma {:induction false} MismatchesComplete(m: Mem, addrs: seq<nat>, ops: seq<WordOp>)
    requires |addrs| == |ops|
    ensures forall k :: 0 <= k < |addrs| && Fails(ops[k], Read(m, addrs[k])) ==>
              Report(addrs[k], ops[k], Read(m, addrs[k])) in Mismatches(m, addrs, ops)
    decreases |addrs|
  {
    if |addrs| > 0 {
      var tailAddrs := addrs[1..];
      var tailOps := ops[1..];
      MismatchesComplete(m, tailAddrs, tailOps);
      forall k | 0 <= k < |addrs| && Fails(ops[k], Read(m, addrs[k]))
        ensures Report(addrs[k], ops[k], Read(m, addrs[k])) in Mismatches(m, addrs, ops)
      {
        if k > 0 {
          assert tailAddrs[k - 1] == addrs[k] && tailOps[k - 1] == ops[k];
        }
      }
    }
  }

  ghost predicate IncreasingAddrs(r: seq<ErrorRecord>) {
    forall i, j :: 0 <= i < j < |r| ==> r[i].addr < r[j].addr
  }

  /** Over increasing addresses the reports are in ascending address order. */
  lemma {:induction false} MismatchesOrdered(m: Mem, addrs: seq<nat>, ops: seq<WordOp>)
    requires |addrs| == |ops| && StrictlyIncreasing(addrs)
    ensures IncreasingAddrs(Mismatches(m, addrs, ops))
    decreases |addrs|
  {
    if |addrs| > 0 {
      var tailAddrs := addrs[1..];
      var tailOps := ops[1..];
      var rest := Mismatches(m, tailAddrs, tailOps);
      MismatchesOrdered(m, tailAddrs, tailOps);
      MismatchesSound(m, tailAddrs, tailOps);
      forall e | e in rest
        ensures addrs[0] < e.addr
      {
        var k :| 0 <= k < |tailAddrs| && Fails(tailOps[k], Read(m, tailAddrs[k]))
                 && e == Report(tailAddrs[k], tailOps[k], Read(m, tailAddrs[k]));
        assert tailAddrs[k] == addrs[k + 1];
      }
      var actual := Read(m, addrs[0]);
      if Fails(ops[0], actual) {
        var r := [Report(addrs[0], ops[0], actual)] + rest;
        assert Mismatches(m, addrs, ops) == r;
        forall i, j | 0 <= i < j < |r|
          ensures r[i].addr < r[j].addr
        {
          assert r[j] == rest[j - 1] && r[j] in rest;
          if i > 0 {
            assert r[i] == rest[i - 1];
            assert rest[i - 1].addr < rest[j - 1].addr;
          } else {
            assert r[i].addr == addrs[0];
            assert addrs[0] < r[j].addr;
          }
        }
      }
    }
  }

  /** The same op on each of n words: the inner loop of a fixed-pattern pass. */
  function Uniform(op: WordOp, n: nat): seq<WordOp> {
    seq(n, _ => op)
  }

  /** A pass that expects one value everywhere reports (a, expected, actual,
      true) for exactly the visited words a whose contents differ from the
      expected value, and nothing else. */
  lemma UniformReports(m: Mem, addrs: seq<nat>, op: WordOp)
    requires op.check.Some?
    ensures forall x: ErrorRecord :: x in Mismatches(m, addrs, Uniform(op, |addrs|)) <==>
              x.addr in addrs && Read(m, x.addr) != op.check.value
              && x == ErrorRecord(x.addr, op.check.value, Read(m, x.addr), true)
  {
    var ops := Uniform(op, |addrs|);
    var r := Mismatches(m, addrs, ops);
    MismatchesSound(m, addrs, ops);
    MismatchesComplete(m, addrs, ops);
    forall x: ErrorRecord | x.addr in addrs && Read(m, x.addr) != op.check.value
                 && x == ErrorRecord(x.addr, op.check.value, Read(m, x.addr), true)
      ensures x in r
    {
      var k :| 0 <= k < |addrs| && addrs[k] == x.addr;
      assert Fails(ops[k], Read(m, addrs[k]));
    }
  }

  /** No report is issued exactly when every read-back matches. */
  lemma MismatchesEmpty(m: Mem, addrs: seq<nat>, ops: seq<WordOp>)
    requires |addrs| == |ops|
    ensures Mismatches(m, addrs, ops) == [] <==>
              forall k :: 0 <= k < |addrs| ==> !Fails(ops[k], Read(m, addrs[k]))
  {
    var r := Mismatches(m, addrs, ops);
    MismatchesSound(m, addrs, ops);
    MismatchesComplete(m, addrs, ops);
    if r != [] {
      assert r[0] in r;
    }
  }

  /** A single failing read-back at position x yields exactly one report. */
  lemma {:induction false} MismatchesSingle(m: Mem, addrs: seq<nat>, ops: seq<WordOp>, x: nat)
    requires |addrs| == |ops| && x < |addrs|
    requires Fails(ops[x], Read(m, addrs[x]))
    requires forall k :: 0 <= k < |addrs| && k != x ==> !Fails(ops[k], Read(m, addrs[k]))
    ensures Mismatches(m, addrs, ops) == [Report(addrs[x], ops[x], Read(m, addrs[x]))]
    decreases |addrs|
  {
    if x == 0 {
      MismatchesEmpty(m, addrs[1..], ops[1..]);
    } else {
      MismatchesSingle(m, addrs[1..], ops[1..], x - 1);
    }
  }

  /** Reports depend only on the contents of the visited words. */
  lemma {:induction false} MismatchesFrame(m1: Mem, m2: Mem, addrs: seq<nat>, ops: seq<WordOp>)
    requires |addrs| == |ops|
    requires forall k :: 0 <= k < |addrs| ==> Read(m1, addrs[k]) == Read(m2, addrs[k])
    ensures Mismatches(m1, addrs, ops) == Mismatches(m2, addrs, ops)
    decreases |addrs|
  {
    if |addrs| > 0 {
      MismatchesFrame(m1, m2, addrs[1..], ops[1..]);
    }
  }

  /** The effect of visiting distinct words: each visited word ends as its
      op leaves it, every other word is untouched, and the reports are those
      of the reference definition taken on the memory before the visits. */
  lemma {:induction false} ExecOpsEffect(c: Cells, addrs: seq<nat>, ops: seq<WordOp>)
    requires |addrs| == |ops| && Distinct(addrs)
    ensures forall k :: 0 <= k < |addrs| ==>
              Read(ExecOps(c, addrs, ops).mem, addrs[k]) == After(ops[k], Read(c.mem, addrs[k]))
    ensures forall a :: a !in addrs ==> Read(ExecOps(c, addrs, ops).mem, a) == Read(c.mem, a)
    ensures ExecOps(c, addrs, ops).errors == c.errors + Mismatches(c.mem, addrs, ops)
    decreases |addrs|
  {
    if |addrs| > 0 {
      var c1 := Visit(c, addrs[0], ops[0]);
      var rest := addrs[1..];
      ExecOpsEffect(c1, rest, ops[1..]);
      assert forall k :: 0 <= k < |rest| ==> rest[k] != addrs[0];
      MismatchesFrame(c1.mem, c.mem, rest, ops[1..]);
      forall k | 0 <= k < |addrs|
        ensures Read(ExecOps(c, addrs, ops).mem, addrs[k]) == After(ops[k], Read(c.mem, addrs[k]))
      {
        if k == 0 {
          assert addrs[0] !in rest;
        } else {
          assert addrs[k] == rest[k - 1];
        }
      }
    }
  }

  /** The memory half of ExecOpsEffect, for callers whose ops make the
      reports expensive to carry along. */
  lemma ExecOpsMemory(c: Cells, addrs: seq<nat>, ops: seq<WordOp>)
    requires |addrs| == |ops| && Distinct(addrs)
    ensures forall k :: 0 <= k < |addrs| ==>
              Read(ExecOps(c, addrs, ops).mem, addrs[k]) == After(ops[k], Read(c.mem, addrs[k]))
    ensures forall a :: a !in addrs ==> Read(ExecOps(c, addrs, ops).mem, a) == Read(c.mem, a)
  {
    ExecOpsEffect(c, addrs, ops);
  }

  /** Visits that only store `v` (duplicates allowed) leave `v` in every
      visited word, touch nothing else and report nothing. */
  lemma {:induction false} StoresEffect(c: Cells, addrs: seq<nat>, ops: seq<WordOp>, v: Word)
    requires |addrs| == |ops|
    requires forall k :: 0 <= k < |ops| ==> ops[k] == WordOp(None, Some(v))
    ensures forall a :: Read(ExecOps(c, addrs, ops).mem, a) == if a in addrs then v else Read(c.mem, a)
    ensures ExecOps(c, addrs, ops).errors == c.errors
    decreases |addrs|
  {
    if |addrs| > 0 {
      StoresEffect(Visit(c, addrs[0], ops[0]), addrs[1..], ops[1..], v);
      forall a
        ensures Read(ExecOps(c, addrs, ops).mem, a) == if a in addrs then v else Read(c.mem, a)
      {
        assert a in addrs <==> a == addrs[0] || a in addrs[1..];
      }
    }
  }

  /** Visits that never store (duplicates allowed) leave memory unchanged. */
  lemma {:induction false} ChecksKeepMemory(c: Cells, addrs: seq<nat>, ops: seq<WordOp>)
    requires |addrs| == |ops|
    requires forall k :: 0 <= k < |ops| ==> ops[k].store.None?
    ensures ExecOps(c, addrs, ops).mem == c.mem
    decreases |addrs|
  {
    if |addrs| > 0 {
      ChecksKeepMemory(Visit(c, addrs[0], ops[0]), addrs[1..], ops[1..]);
    }
  }

  /** Visits that never store (duplicates allowed) leave memory unchanged and
      issue exactly the reference reports. */
  lemma {:induction false} ChecksEffect(c: Cells, addrs: seq<nat>, ops: seq<WordOp>)
    requires |addrs| == |ops|
    requires forall k :: 0 <= k < |ops| ==> ops[k].store.None?
    ensures ExecOps(c, addrs, ops).mem == c.mem
    ensures ExecOps(c, addrs, ops).errors == c.errors + Mismatches(c.mem, addrs, ops)
    decreases |addrs|
  {
    ChecksKeepMemory(c, addrs, ops);
    if |addrs| > 0 {
      var c1 := Visit(c, addrs[0], ops[0]);
      var actual := Read(c.mem, addrs[0]);
      var head := if Fails(ops[0], actual) then [Report(addrs[0], ops[0], actual)] else [];
      var tail := Mismatches(c.mem, addrs[1..], ops[1..]);
      assert c1 == Cells(c.mem, c.errors + head);
      ChecksEffect(c1, addrs[1..], ops[1..]);
      assert Mismatches(c.mem, addrs, ops) == head + tail;
      assert (c.errors + head) + tail == c.errors + (head + tail);
    }
  }
}
