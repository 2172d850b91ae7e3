/** Applying a function over and over, and feeding it one number after the other. */
module Iteration {
  function Iterate(f: nat -> nat, s: nat, count: nat): nat
    decreases count, s
  {
    if count == 0 then s else f(Iterate(f, s, count - 1))
  }

  lemma {:induction false} IterateAddsUp(f: nat -> nat, s: nat, m: nat, n: nat)
    ensures Iterate(f, Iterate(f, s, m), n) == Iterate(f, s, m + n)
    decreases n
  {
    if n > 0 {
      IterateAddsUp(f, s, m, n - 1);
    }
  }

  lemma {:induction false} IterateKeeps(f: nat -> nat, keeps: nat -> bool, s: nat, count: nat)
    requires keeps(s) && forall t :: keeps(t) ==> keeps(f(t))
    ensures keeps(Iterate(f, s, count))
    decreases count
  {
    if count > 0 {
      IterateKeeps(f, keeps, s, count - 1);
    }
  }

  lemma IterateVia(f: nat -> nat, s: nat, m: nat, t: nat, count: nat)
    requires m <= count && Iterate(f, s, m) == t
    ensures Iterate(f, s, count) == Iterate(f, t, count - m)
  {
    IterateAddsUp(f, s, m, count - m);
  }

  lemma IterateKeepsFrom(f: nat -> nat, keeps: nat -> bool, s: nat, m: nat, count: nat)
    requires m <= count && keeps(Iterate(f, s, m)) && forall t :: keeps(t) ==> keeps(f(t))
    ensures keeps(Iterate(f, s, count))
  {
    IterateVia(f, s, m, Iterate(f, s, m), count);
    IterateKeeps(f, keeps, Iterate(f, s, m), count - m);
  }

  lemma IterateOneMore(f: nat -> nat, s: nat, count: nat, now: nat)
    requires Iterate(f, s, count) == now
    ensures Iterate(f, s, count + 1) == f(now)
  {
  }

  /** A view under which each step of f looks like a step of g carries over to any number of steps. */
  lemma {:induction false} IterateSimulates(f: nat -> nat, g: nat -> nat, view: nat -> nat, s: nat, count: nat)
    requires forall t :: view(f(t)) == g(view(t))
    ensures view(Iterate(f, s, count)) == Iterate(g, view(s), count)
    decreases count
  {
    if count > 0 {
      IterateSimulates(f, g, view, s, count - 1);
    }
  }

  lemma {:induction false} IterateIsLinear(f: nat -> nat, plus: (nat, nat) -> nat, s: nat, t: nat, count: nat)
    requires forall a, b :: f(plus(a, b)) == plus(f(a), f(b))
    ensures Iterate(f, plus(s, t), count) == plus(Iterate(f, s, count), Iterate(f, t, count))
    decreases count
  {
    if count > 0 {
      IterateIsLinear(f, plus, s, t, count - 1);
    }
  }

  function Fold(feed: (nat, nat) -> nat, inputs: seq<nat>): nat
    decreases |inputs|
  {
    if inputs == [] then 0 else feed(Fold(feed, inputs[..|inputs| - 1]), inputs[|inputs| - 1])
  }

  lemma FoldOneMore(feed: (nat, nat) -> nat, inputs: seq<nat>, n: nat)
    requires n < |inputs|
    ensures Fold(feed, inputs[..n + 1]) == feed(Fold(feed, inputs[..n]), inputs[n])
  {
    assert inputs[..n + 1][..n] == inputs[..n];
  }

  lemma {:induction false} FoldSimulates(f: (nat, nat) -> nat, g: (nat, nat) -> nat, view: nat -> nat, inputs: seq<nat>)
    requires view(0) == 0 && forall s, i :: view(f(s, i)) == g(view(s), i)
    ensures view(Fold(f, inputs)) == Fold(g, inputs)
    decreases |inputs|
  {
    if inputs != [] {
      FoldSimulates(f, g, view, inputs[..|inputs| - 1]);
    }
  }

  /** From n on all inputs are zero, and a zero keeps what held before. */
  lemma {:induction false} FoldKeeps(feed: (nat, nat) -> nat, keeps: nat -> bool, inputs: seq<nat>, n: nat, m: nat)
    requires n <= m <= |inputs| && keeps(Fold(feed, inputs[..n]))
    requires forall s :: keeps(s) ==> keeps(feed(s, 0))
    requires forall j :: n <= j < m ==> inputs[j] == 0
    ensures keeps(Fold(feed, inputs[..m]))
    decreases m
  {
    if n < m {
      FoldKeeps(feed, keeps, inputs, n, m - 1);
      FoldOneMore(feed, inputs, m - 1);
    }
  }
}
