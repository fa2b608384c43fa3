/** Machines that consume a stream one element at a time and emit as they go. */
module Folds {

  datatype Step<S, O> = Step(state: S, out: seq<O>)

  function Fold<S, M, O>(f: (S, M) -> Step<S, O>, s: S, ms: seq<M>): Step<S, O> {
    if ms == [] then Step(s, [])
    else
      var before := Fold(f, s, ms[..|ms| - 1]);
      var next := f(before.state, ms[|ms| - 1]);
      Step(next.state, before.out + next.out)
  }

  lemma {:induction false} FoldConcat<S, M, O>(f: (S, M) -> Step<S, O>, s: S, xs: seq<M>, ys: seq<M>)
    ensures var first := Fold(f, s, xs); var second := Fold(f, first.state, ys);
            Fold(f, s, xs + ys) == Step(second.state, first.out + second.out)
  {
    if ys == [] {
      assert xs + ys == xs;
    } else {
      FoldConcat(f, s, xs, ys[..|ys| - 1]);
      assert (xs + ys)[..|xs + ys| - 1] == xs + ys[..|ys| - 1];
    }
  }

  lemma FoldOne<S, M, O>(f: (S, M) -> Step<S, O>, s: S, m: M)
    ensures Fold(f, s, [m]) == f(s, m)
  {
    assert [m][..0] == [];
    assert [] + f(s, m).out == f(s, m).out;
  }

  lemma FoldHead<S, M, O>(f: (S, M) -> Step<S, O>, s: S, ms: seq<M>)
    requires ms != []
    ensures var first := f(s, ms[0]); var rest := Fold(f, first.state, ms[1..]);
            Fold(f, s, ms) == Step(rest.state, first.out + rest.out)
  {
    assert ms == [ms[0]] + ms[1..];
    FoldConcat(f, s, [ms[0]], ms[1..]);
    FoldOne(f, s, ms[0]);
  }
}
