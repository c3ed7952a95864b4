/** Runs of a step function over a sequence of events, and what is proved of them once and for all. */
module Runs {

  function Run<S, A>(step: (S, A) -> S, s: S, events: seq<A>): S
  {
    if events == [] then s
    else step(Run(step, s, events[..|events| - 1]), events[|events| - 1])
  }

  /** A property every step keeps holds at the end of every run. */
  lemma {:induction false} RunKeeps<S(!new), A(!new)>(step: (S, A) -> S, inv: S -> bool, s: S, events: seq<A>)
    requires inv(s)
    requires forall t, a :: inv(t) ==> inv(step(t, a))
    ensures inv(Run(step, s, events))
  {
    if events != [] {
      RunKeeps(step, inv, s, events[..|events| - 1]);
    }
  }

  lemma RunOne<S, A>(step: (S, A) -> S, s: S, event: A)
    ensures Run(step, s, [event]) == step(s, event)
  {
    assert [event][..0] == [];
  }

  lemma RunNext<S, A>(step: (S, A) -> S, s: S, events: seq<A>, i: nat)
    requires i < |events|
    ensures Run(step, s, events[..i + 1]) == step(Run(step, s, events[..i]), events[i])
  {
    assert events[..i + 1][..i] == events[..i];
  }

  /** A run can be cut anywhere. */
  lemma {:induction false} RunSplit<S, A>(step: (S, A) -> S, s: S, a: seq<A>, b: seq<A>)
    ensures Run(step, s, a + b) == Run(step, Run(step, s, a), b)
    decreases |b|
  {
    if b == [] {
      assert a + b == a;
    } else {
      var k := |b| - 1;
      RunSplit(step, s, a, b[..k]);
      assert (a + b)[..|a + b| - 1] == a + b[..k];
    }
  }
}
