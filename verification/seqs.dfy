/** Sequence vocabulary used by the walk model: address ranges in both
    directions, reversal, flattening and distinctness. */
module Seqs {

  /** The addresses lo, lo+1, ..., hi (empty when hi < lo). */
  function Ascending(lo: nat, hi: int): seq<nat> {
    if hi < lo then [] else seq(hi - lo + 1, i requires 0 <= i <= hi - lo => lo + i)
  }

  /** The addresses hi, hi-1, ..., lo (empty when hi < lo). */
  function Descending(hi: int, lo: nat): seq<nat> {
    if hi < lo then [] else seq(hi - lo + 1, i requires 0 <= i <= hi - lo => hi - i)
  }

  function Reverse<T>(s: seq<T>): seq<T> {
    seq(|s|, i requires 0 <= i < |s| => s[|s| - 1 - i])
  }

  /** Concatenation of a sequence of sequences, in order. */
  function Flatten<T>(ss: seq<seq<T>>): seq<T> {
    if |ss| == 0 then [] else ss[0] + Flatten(ss[1..])
  }

  ghost predicate Distinct<T>(s: seq<T>) {
    forall i, j :: 0 <= i < j < |s| ==> s[i] != s[j]
  }

  ghost predicate StrictlyIncreasing(s: seq<nat>) {
    forall i, j :: 0 <= i < j < |s| ==> s[i] < s[j]
  }

  lemma AscendingFacts(lo: nat, hi: int)
    ensures |Ascending(lo, hi)| == if hi < lo then 0 else hi - lo + 1
    ensures forall i :: 0 <= i < |Ascending(lo, hi)| ==> Ascending(lo, hi)[i] == lo + i
    ensures forall a :: a in Ascending(lo, hi) <==> lo <= a <= hi
    ensures StrictlyIncreasing(Ascending(lo, hi))
  {
    var s := Ascending(lo, hi);
    forall a | lo <= a <= hi
      ensures a in s
    {
      assert s[a - lo] == a;
    }
  }

  /** Two adjacent ascending ranges join into one. */
  lemma AscendingJoin(lo: nat, mid: nat, hi: int)
    requires lo <= mid <= hi + 1
    ensures Ascending(lo, mid - 1) + Ascending(mid, hi) == Ascending(lo, hi)
  {
    AscendingFacts(lo, mid - 1);
    AscendingFacts(mid, hi);
    AscendingFacts(lo, hi);
  }

  /** Two adjacent descending ranges join into one. */
  lemma DescendingJoin(hi: int, mid: nat, lo: nat)
    requires lo <= mid <= hi + 1
    ensures Descending(hi, mid) + Descending(mid - 1, lo) == Descending(hi, lo)
  {
  }

  lemma DescendingIsReverse(lo: nat, hi: int)
    ensures Descending(hi, lo) == Reverse(Ascending(lo, hi))
  {
  }

  lemma ReverseAppend<T>(a: seq<T>, b: seq<T>)
    ensures Reverse(a + b) == Reverse(b) + Reverse(a)
  {
  }

  lemma ReverseMembers<T>(s: seq<T>)
    ensures forall x :: x in Reverse(s) <==> x in s
  {
    forall x | x in s
      ensures x in Reverse(s)
    {
      var i :| 0 <= i < |s| && s[i] == x;
      assert Reverse(s)[|s| - 1 - i] == x;
    }
  }

  lemma {:induction false} FlattenAppend<T>(a: seq<seq<T>>, b: seq<seq<T>>)
    ensures Flatten(a + b) == Flatten(a) + Flatten(b)
    decreases |a|
  {
    if |a| == 0 {
      assert a + b == b;
    } else {
      assert (a + b)[1..] == a[1..] + b;
      FlattenAppend(a[1..], b);
    }
  }

  lemma ReverseDistinct<T>(s: seq<T>)
    requires Distinct(s)
    ensures Distinct(Reverse(s))
  {
  }

  lemma IncreasingIsDistinct(s: seq<nat>)
    requires StrictlyIncreasing(s)
    ensures Distinct(s)
  {
  }

  /** Two increasing sequences, all of the first below all of the second,
      concatenate into an increasing sequence. */
  lemma IncreasingAppend(a: seq<nat>, b: seq<nat>)
    requires StrictlyIncreasing(a) && StrictlyIncreasing(b)
    requires forall i, j :: 0 <= i < |a| && 0 <= j < |b| ==> a[i] < b[j]
    ensures StrictlyIncreasing(a + b)
  {
  }
}
