/** Order-preserving selection over sequences, the shape of every database query in the model. */
module Seqs {

  /** The elements of `xs` satisfying `p`, in their original order. */
  function Filter<T>(xs: seq<T>, p: T -> bool): (ys: seq<T>)
    ensures |ys| <= |xs|
    ensures forall k :: 0 <= k < |ys| ==> p(ys[k])
  {
    if |xs| == 0 then []
    else
      var init := Filter(xs[..|xs| - 1], p);
      if p(xs[|xs| - 1]) then init + [xs[|xs| - 1]] else init
  }

  /** The positions in `xs` of the elements that `Filter(xs, p)` keeps. */
  function Positions<T>(xs: seq<T>, p: T -> bool): (ix: seq<nat>)
    ensures |ix| == |Filter(xs, p)|
    ensures forall k :: 0 <= k < |ix| ==> ix[k] < |xs| && xs[ix[k]] == Filter(xs, p)[k]
  {
    if |xs| == 0 then []
    else
      var init := Positions(xs[..|xs| - 1], p);
      if p(xs[|xs| - 1]) then init + [|xs| - 1] else init
  }

  predicate StrictlyIncreasing(ix: seq<nat>)
  {
    forall a, b :: 0 <= a < b < |ix| ==> ix[a] < ix[b]
  }

  lemma {:induction false} PositionsIncrease<T>(xs: seq<T>, p: T -> bool)
    ensures StrictlyIncreasing(Positions(xs, p))
  {
    if |xs| > 0 {
      var init := xs[..|xs| - 1];
      PositionsIncrease(init, p);
      var ix0 := Positions(init, p);
      assert forall k :: 0 <= k < |ix0| ==> ix0[k] < |xs| - 1;
    }
  }

  lemma {:induction false} PositionsComplete<T>(xs: seq<T>, p: T -> bool)
    ensures forall i :: 0 <= i < |xs| ==> (i in Positions(xs, p) <==> p(xs[i]))
  {
    if |xs| > 0 {
      var n := |xs| - 1;
      var init := xs[..n];
      PositionsComplete(init, p);
      var ix0 := Positions(init, p);
      var ix := Positions(xs, p);
      assert ix == if p(xs[n]) then ix0 + [n] else ix0;
      assert n !in ix0 by {
        forall k | 0 <= k < |ix0| ensures ix0[k] != n {
        }
      }
      forall i | 0 <= i < |xs|
        ensures i in ix <==> p(xs[i])
      {
        if i < n {
          assert init[i] == xs[i];
          assert i in ix <==> i in ix0;
        }
      }
    }
  }

  /** `Filter` keeps exactly the elements satisfying `p`, each once, in their original order. */
  lemma FilterExact<T>(xs: seq<T>, p: T -> bool)
    ensures StrictlyIncreasing(Positions(xs, p))
    ensures forall i :: 0 <= i < |xs| ==> (i in Positions(xs, p) <==> p(xs[i]))
  {
    PositionsIncrease(xs, p);
    PositionsComplete(xs, p);
  }

  lemma FilterSnoc<T>(xs: seq<T>, x: T, p: T -> bool)
    ensures Filter(xs + [x], p) == if p(x) then Filter(xs, p) + [x] else Filter(xs, p)
  {
    assert (xs + [x])[..|xs|] == xs;
  }

  lemma {:induction false} FilterAppend<T>(xs: seq<T>, ys: seq<T>, p: T -> bool)
    ensures Filter(xs + ys, p) == Filter(xs, p) + Filter(ys, p)
    decreases |ys|
  {
    if |ys| > 0 {
      var init := ys[..|ys| - 1];
      var last := ys[|ys| - 1];
      assert ys == init + [last];
      assert xs + ys == (xs + init) + [last];
      FilterAppend(xs, init, p);
      FilterSnoc(xs + init, last, p);
      FilterSnoc(init, last, p);
    } else {
      assert xs + ys == xs;
    }
  }

  /** Nothing is kept when no element satisfies the predicate. */
  lemma {:induction false} FilterNone<T>(xs: seq<T>, p: T -> bool)
    requires forall k :: 0 <= k < |xs| ==> !p(xs[k])
    ensures Filter(xs, p) == []
  {
    if |xs| > 0 {
      FilterNone(xs[..|xs| - 1], p);
    }
  }

  /** Everything is kept when every element satisfies the predicate. */
  lemma {:induction false} FilterAll<T>(xs: seq<T>, p: T -> bool)
    requires forall k :: 0 <= k < |xs| ==> p(xs[k])
    ensures Filter(xs, p) == xs
  {
    if |xs| > 0 {
      FilterAll(xs[..|xs| - 1], p);
    }
  }

  /** `xs` back to front. */
  function Reverse<T>(xs: seq<T>): (r: seq<T>)
    ensures |r| == |xs|
    ensures forall k :: 0 <= k < |xs| ==> r[k] == xs[|xs| - 1 - k]
  {
    if |xs| == 0 then [] else [xs[|xs| - 1]] + Reverse(xs[..|xs| - 1])
  }
}
