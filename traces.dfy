/** Sequential composition of state transitions: the meaning of a run of calls. */
module Traces {

  /** The state reached from `s` by applying `step` to each operation of `ops` in order. */
  function Run<S, O>(step: (S, O) -> S, s: S, ops: seq<O>): (r: S)
    decreases |ops|
  {
    if ops == [] then s else Run(step, step(s, ops[0]), ops[1..])
  }

  /** Running `xs` and then `ys` is running their concatenation. */
  lemma {:induction false} RunConcat<S, O>(step: (S, O) -> S, s: S, xs: seq<O>, ys: seq<O>)
    ensures Run(step, s, xs + ys) == Run(step, Run(step, s, xs), ys)
    decreases |xs|
  {
    if xs != [] {
      assert (xs + ys)[1..] == xs[1..] + ys;
      RunConcat(step, step(s, xs[0]), xs[1..], ys);
    } else {
      assert xs + ys == ys;
    }
  }
}
