/** Sequence helpers shared by the row and column selections of the pipeline. */
module Seqs {

  /** No element occurs twice. */
  predicate Distinct<T(==)>(s: seq<T>) {
    forall i, j :: 0 <= i < j < |s| ==> s[i] != s[j]
  }

  /** Strictly increasing sequence of positions. */
  predicate Increasing(s: seq<nat>) {
    forall i, j :: 0 <= i < j < |s| ==> s[i] < s[j]
  }

  /** Every position is below n. */
  predicate Below(idx: seq<nat>, n: nat) {
    forall k :: 0 <= k < |idx| ==> idx[k] < n
  }

  /** The positions below n satisfying p, in increasing order. */
  function Positions(n: nat, p: nat -> bool): (r: seq<nat>)
    ensures Increasing(r) && Below(r, n)
    ensures forall k :: 0 <= k < |r| ==> p(r[k])
    ensures |r| <= n
  {
    if n == 0 then []
    else Positions(n - 1, p) + (if p(n - 1) then [n - 1] else [])
  }

  /** Every position below n satisfying p is listed. */
  lemma {:induction false} PositionsComplete(n: nat, p: nat -> bool)
    ensures forall i :: 0 <= i < n && p(i) ==> i in Positions(n, p)
  {
    if n > 0 {
      PositionsComplete(n - 1, p);
      var before := Positions(n - 1, p);
      assert forall i :: 0 <= i < n - 1 && p(i) ==> i in before;
      assert forall x :: x in before ==> x in Positions(n, p);
    }
  }

  /** When every position below n satisfies p, all of them are kept. */
  lemma {:induction false} PositionsAll(n: nat, p: nat -> bool)
    requires forall i :: 0 <= i < n ==> p(i)
    ensures Positions(n, p) == seq(n, i => i)
  {
    if n > 0 {
      PositionsAll(n - 1, p);
      assert Positions(n, p) == Positions(n - 1, p) + [n - 1];
      var before: seq<nat> := seq(n - 1, i => i);
      var after: seq<nat> := seq(n, i => i);
      assert after == before + [n - 1] by {
        forall k | 0 <= k < n
          ensures after[k] == (before + [n - 1])[k]
        {
        }
      }
    }
  }

  /** The elements of s at the given positions, in the order of the positions. */
  function Pick<T>(s: seq<T>, idx: seq<nat>): (r: seq<T>)
    requires Below(idx, |s|)
    ensures |r| == |idx|
  {
    seq(|idx|, k requires 0 <= k < |idx| => s[idx[k]])
  }

  /** Picking every position in order gives the sequence back. */
  lemma PickAll<T>(s: seq<T>)
    ensures Pick(s, seq(|s|, i => i)) == s
  {
  }

  /** Apply f to the elements of xs one at a time, front to back. */
  method MapInOrder<A, B>(xs: seq<A>, f: A -> B) returns (ys: seq<B>)
    ensures |ys| == |xs|
    ensures forall i :: 0 <= i < |xs| ==> ys[i] == f(xs[i])
  {
    ys := [];
    var i := 0;
    while i < |xs|
      invariant 0 <= i <= |xs|
      invariant |ys| == i
      invariant forall k :: 0 <= k < i ==> ys[k] == f(xs[k])
    {
      ys := ys + [f(xs[i])];
      i := i + 1;
    }
  }
}
