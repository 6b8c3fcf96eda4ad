/** The elements of a list at given positions, in order. */
module Sublists {

  function Pick<T>(xs: seq<T>, of: set<nat>): seq<T> {
    if xs == [] then []
    else
      var n := |xs| - 1;
      Pick(xs[..n], of) + (if n in of then [xs[n]] else [])
  }

  lemma {:induction false} PickSame<T>(xs: seq<T>, a: set<nat>, b: set<nat>)
    requires forall i: nat | i < |xs| :: i in a <==> i in b
    ensures Pick(xs, a) == Pick(xs, b)
  {
    if xs == [] {
    } else {
      PickSame(xs[..|xs| - 1], a, b);
    }
  }

  /** One more element at the end. */
  lemma PickNext<T>(xs: seq<T>, x: T, of: set<nat>, next: set<nat>)
    requires forall i: nat | i < |xs| :: i in of <==> i in next
    ensures Pick(xs + [x], next) == Pick(xs, of) + (if |xs| in next then [x] else [])
  {
    assert (xs + [x])[..|xs|] == xs;
    PickSame(xs, of, next);
  }

  /** The positions of `of` below `n` in ascending order. */
  function Positions(of: set<nat>, n: nat): seq<nat> {
    if n == 0 then [] else Positions(of, n - 1) + (if n - 1 in of then [n - 1] else [])
  }

  lemma {:induction false} PositionsSame(a: set<nat>, b: set<nat>, n: nat)
    requires forall i: nat | i < n :: i in a <==> i in b
    ensures Positions(a, n) == Positions(b, n)
  {
    if n == 0 {
    } else {
      PositionsSame(a, b, n - 1);
    }
  }

  ghost predicate Listed(at: seq<nat>, k: nat) {
    exists i :: 0 <= i < |at| && at[i] == k
  }

  /** They are ascending, all in `of` and below `n`, and none is missing. */
  lemma {:induction false} PositionsAscend(of: set<nat>, n: nat)
    ensures forall i | 0 <= i < |Positions(of, n)| :: Positions(of, n)[i] in of && Positions(of, n)[i] < n
    ensures forall i, j | 0 <= i < j < |Positions(of, n)| :: Positions(of, n)[i] < Positions(of, n)[j]
  {
    if n == 0 {
    } else {
      PositionsAscend(of, n - 1);
    }
  }

  lemma {:induction false} PositionsListed(of: set<nat>, n: nat, k: nat)
    requires k in of && k < n
    ensures Listed(Positions(of, n), k)
  {
    var before, at := Positions(of, n - 1), Positions(of, n);
    if k == n - 1 {
      assert at[|before|] == k;
    } else {
      PositionsListed(of, n - 1, k);
      var i :| 0 <= i < |before| && before[i] == k;
      assert at[i] == k;
    }
  }

  /** What `Pick` gives, position by position. */
  lemma {:induction false} PickAt<T>(xs: seq<T>, of: set<nat>)
    ensures |Pick(xs, of)| == |Positions(of, |xs|)|
    ensures forall i | 0 <= i < |Positions(of, |xs|)| ::
              Positions(of, |xs|)[i] < |xs| && Pick(xs, of)[i] == xs[Positions(of, |xs|)[i]]
  {
    PositionsAscend(of, |xs|);
    if xs == [] {
    } else {
      var n := |xs| - 1;
      PickAt(xs[..n], of);
      PositionsAscend(of, n);
    }
  }
}
