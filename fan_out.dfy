/**
  `GoMap` (fzf-log.go:23-43): apply `f(i, values[i])` to every input, each call in its
  own goroutine, and concatenate the results in the order the goroutines deliver them.
  The goroutines and the channel are not modelled; what is kept is the collecting loop,
  which takes the pending results one at a time in an order nobody controls.
 */
module FanOut {

  /** The indices `0, 1, …, n-1` in increasing order. */
  function Indices(n: nat): (r: seq<nat>)
    ensures |r| == n
    ensures forall k :: 0 <= k < n ==> r[k] == k
  {
    if n == 0 then [] else Indices(n - 1) + [n - 1]
  }

  predicate InRange(order: seq<nat>, n: nat)
  {
    forall k :: 0 <= k < |order| ==> order[k] < n
  }

  /** The results of `f` for the indices in `order`, concatenated in that order. */
  function Gather<U, T>(values: seq<U>, f: (nat, U) -> seq<T>, order: seq<nat>): seq<T>
    requires InRange(order, |values|)
  {
    if order == [] then []
    else
      var last := order[|order| - 1];
      Gather(values, f, order[..|order| - 1]) + f(last, values[last])
  }

  /** The sequential reading of the fan-out: every input's results, in input order. */
  function ConcatMap<U, T>(values: seq<U>, f: (nat, U) -> seq<T>): seq<T>
  {
    Gather(values, f, Indices(|values|))
  }

  /** Gathering over two runs of indices is gathering over each in turn. */
  lemma {:induction false} GatherAppend<U, T>(values: seq<U>, f: (nat, U) -> seq<T>, a: seq<nat>, b: seq<nat>)
    requires InRange(a, |values|) && InRange(b, |values|)
    ensures InRange(a + b, |values|)
    ensures Gather(values, f, a + b) == Gather(values, f, a) + Gather(values, f, b)
  {
    if b == [] {
      assert a + b == a;
    } else {
      var b' := b[..|b| - 1];
      var last := b[|b| - 1];
      GatherAppend(values, f, a, b');
      assert (a + b)[..|a + b| - 1] == a + b';
      assert (a + b)[|a + b| - 1] == last;
      assert Gather(values, f, a + b) == Gather(values, f, a + b') + f(last, values[last]);
      assert Gather(values, f, b) == Gather(values, f, b') + f(last, values[last]);
    }
  }

  /** What is gathered, counted with multiplicity, does not depend on the order of the indices. */
  lemma {:induction false} GatherPermutation<U, T>(values: seq<U>, f: (nat, U) -> seq<T>, o1: seq<nat>, o2: seq<nat>)
    requires InRange(o1, |values|) && InRange(o2, |values|)
    requires multiset(o1) == multiset(o2)
    ensures multiset(Gather(values, f, o1)) == multiset(Gather(values, f, o2))
    decreases |o1|
  {
    if o1 != [] {
      var x := o1[|o1| - 1];
      var rest := o1[..|o1| - 1];
      assert o1 == rest + [x];
      assert x in multiset(o1);
      var a, b := SplitAround(o2, x, |values|);
      RemoveOne(rest, a, b, x);
      GatherPermutation(values, f, rest, a + b);
      GatherSplit(values, f, a, x, b);
      calc {
        multiset(Gather(values, f, o1));
        multiset(Gather(values, f, rest) + f(x, values[x]));
        multiset(Gather(values, f, rest)) + multiset(f(x, values[x]));
        multiset(Gather(values, f, a + b)) + multiset(f(x, values[x]));
        multiset(Gather(values, f, o2));
      }
    } else {
      assert o2 == [];
    }
  }

  /** Gathering around one index `x`: what the runs `a` and `b` give, and `x`'s results, in any order of the parts. */
  lemma GatherSplit<U, T>(values: seq<U>, f: (nat, U) -> seq<T>, a: seq<nat>, x: nat, b: seq<nat>)
    requires InRange(a, |values|) && InRange(b, |values|) && x < |values|
    ensures InRange(a + [x] + b, |values|) && InRange(a + b, |values|)
    ensures multiset(Gather(values, f, a + [x] + b))
         == multiset(Gather(values, f, a + b)) + multiset(f(x, values[x]))
  {
    GatherAppend(values, f, a, b);
    GatherAppend(values, f, a, [x]);
    GatherAppend(values, f, a + [x], b);
    assert Gather(values, f, [x]) == f(x, values[x]);
  }

  /** An index occurring in `order` splits it into the indices before and after one occurrence. */
  lemma SplitAround(order: seq<nat>, x: nat, n: nat) returns (a: seq<nat>, b: seq<nat>)
    requires InRange(order, n) && x in multiset(order)
    ensures order == a + [x] + b
    ensures InRange(a, n) && InRange(b, n) && x < n
  {
    var j :| 0 <= j < |order| && order[j] == x;
    a, b := order[..j], order[j + 1..];
    assert order == a + [x] + b;
  }

  /** Gathering one more index appends its results. */
  lemma GatherStep<U, T>(values: seq<U>, f: (nat, U) -> seq<T>, order: seq<nat>, i: nat)
    requires InRange(order, |values|) && i < |values|
    ensures InRange(order + [i], |values|)
    ensures Gather(values, f, order + [i]) == Gather(values, f, order) + f(i, values[i])
    ensures multiset(order + [i]) == multiset(order) + multiset{i}
  {
    assert (order + [i])[..|order|] == order;
  }

  /** Taking the same index out of two permutations leaves two permutations. */
  lemma RemoveOne(rest: seq<nat>, a: seq<nat>, b: seq<nat>, x: nat)
    requires multiset(rest + [x]) == multiset(a + [x] + b)
    ensures multiset(rest) == multiset(a + b)
  {
    assert multiset(rest + [x]) == multiset(rest) + multiset{x};
    assert multiset(a + [x] + b) == multiset(a + b) + multiset{x};
    forall y ensures multiset(rest)[y] == multiset(a + b)[y] {
      assert multiset(rest + [x])[y] == multiset(a + [x] + b)[y];
    }
  }

  /** A value is gathered exactly when some index of `order` produces it. */
  lemma GatherMember<U, T>(values: seq<U>, f: (nat, U) -> seq<T>, order: seq<nat>, x: T)
    requires InRange(order, |values|)
    ensures x in Gather(values, f, order) <==> exists k :: 0 <= k < |order| && x in f(order[k], values[order[k]])
  {
    if x in Gather(values, f, order) {
      var k := GatheredFrom(values, f, order, x);
    }
    if exists k :: 0 <= k < |order| && x in f(order[k], values[order[k]]) {
      var k :| 0 <= k < |order| && x in f(order[k], values[order[k]]);
      GatheredAt(values, f, order, x, k);
    }
  }

  /** A gathered value was produced by some index of `order`. */
  lemma {:induction false} GatheredFrom<U, T>(values: seq<U>, f: (nat, U) -> seq<T>, order: seq<nat>, x: T)
    returns (k: nat)
    requires InRange(order, |values|) && x in Gather(values, f, order)
    ensures k < |order| && x in f(order[k], values[order[k]])
  {
    var n := |order| - 1;
    var prev := order[..n];
    assert Gather(values, f, order) == Gather(values, f, prev) + f(order[n], values[order[n]]);
    if x in Gather(values, f, prev) {
      k := GatheredFrom(values, f, prev, x);
      assert order[k] == prev[k];
    } else {
      k := n;
    }
  }

  /** What index `k` of `order` produces is gathered. */
  lemma {:induction false} GatheredAt<U, T>(values: seq<U>, f: (nat, U) -> seq<T>, order: seq<nat>, x: T, k: nat)
    requires InRange(order, |values|) && k < |order| && x in f(order[k], values[order[k]])
    ensures x in Gather(values, f, order)
  {
    var n := |order| - 1;
    var prev := order[..n];
    assert Gather(values, f, order) == Gather(values, f, prev) + f(order[n], values[order[n]]);
    if k < n {
      assert prev[k] == order[k];
      GatheredAt(values, f, prev, x, k);
    }
  }

  /** A value is in the concatenation exactly when some input's result holds it. */
  lemma ConcatMapMember<U, T>(values: seq<U>, f: (nat, U) -> seq<T>, x: T)
    ensures x in ConcatMap(values, f) <==> exists i :: 0 <= i < |values| && x in f(i, values[i])
  {
    var order := Indices(|values|);
    GatherMember(values, f, order, x);
    if x in ConcatMap(values, f) {
      var k :| 0 <= k < |order| && x in f(order[k], values[order[k]]);
      assert 0 <= order[k] < |values|;
    }
    if exists i :: 0 <= i < |values| && x in f(i, values[i]) {
      var i :| 0 <= i < |values| && x in f(i, values[i]);
      assert order[i] == i;
    }
  }

  /**
    The collecting loop of `GoMap`: the pending results are taken one at a time in an
    unspecified order `order`, which takes every input exactly once. Each input's results
    stay together, in the order that input produced them, so the result holds every
    input's results as often as the sequential concatenation does.
   */
  method GoMap<U, T(==)>(values: seq<U>, f: (nat, U) -> seq<T>) returns (result: seq<T>, ghost order: seq<nat>)
    ensures multiset(order) == multiset(Indices(|values|)) && InRange(order, |values|)
    ensures result == Gather(values, f, order)
    ensures multiset(result) == multiset(ConcatMap(values, f))
  {
    order := [];
    if |values| == 0 {
      return [], order;
    }
    var pending: multiset<nat> := multiset(Indices(|values|));
    ghost var all := pending;
    result := [];
    while pending != multiset{}
      invariant multiset(order) + pending == all
      invariant InRange(order, |values|)
      invariant result == Gather(values, f, order)
      decreases |pending|
    {
      var i :| i in pending;
      PendingStep(|values|, order, pending, i);
      GatherStep(values, f, order, i);
      pending := pending - multiset{i};
      order := order + [i];
      result := result + f(i, values[i]);
    }
    GatherPermutation(values, f, order, Indices(|values|));
  }

  /** Taking a pending index `i` moves it from `pending` to the end of `order`; it is an input's index. */
  lemma PendingStep(n: nat, order: seq<nat>, pending: multiset<nat>, i: nat)
    requires multiset(order) + pending == multiset(Indices(n))
    requires i in pending
    ensures i < n
    ensures multiset(order + [i]) + (pending - multiset{i}) == multiset(Indices(n))
    ensures |pending - multiset{i}| < |pending|
  {
    assert i in multiset(Indices(n));
    var k :| 0 <= k < n && Indices(n)[k] == i;
    assert multiset(order + [i]) == multiset(order) + multiset{i};
  }
}
