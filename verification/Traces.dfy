/** Runs of a transition system, as traces of what happens: which are legal, and where they lead. */
module Traces {
  import opened Blocks

  function After<S, H>(next: (S, H) -> S, start: S, trace: seq<H>): S
  {
    if trace == [] then start else next(After(next, start, trace[..|trace| - 1]), trace[|trace| - 1])
  }

  /** Each step was enabled where it happened. */
  predicate Legal<S, H>(enabled: (S, H) -> bool, next: (S, H) -> S, start: S, trace: seq<H>)
  {
    trace == [] ||
    (var before := trace[..|trace| - 1];
     Legal(enabled, next, start, before) && enabled(After(next, start, before), trace[|trace| - 1]))
  }

  lemma LegalNext<S, H>(enabled: (S, H) -> bool, next: (S, H) -> S, start: S, trace: seq<H>, h: H)
    requires Legal(enabled, next, start, trace) && enabled(After(next, start, trace), h)
    ensures Legal(enabled, next, start, trace + [h])
    ensures After(next, start, trace + [h]) == next(After(next, start, trace), h)
  {
    assert (trace + [h])[..|trace|] == trace;
  }

  lemma {:induction false} LegalConcat<S, H>(
    enabled: (S, H) -> bool, next: (S, H) -> S, start: S, a: seq<H>, b: seq<H>)
    requires Legal(enabled, next, start, a) && Legal(enabled, next, After(next, start, a), b)
    ensures Legal(enabled, next, start, a + b)
    ensures After(next, start, a + b) == After(next, After(next, start, a), b)
    decreases |b|
  {
    if b == [] {
      assert a + b == a;
    } else {
      var front, h := b[..|b| - 1], b[|b| - 1];
      LegalConcat(enabled, next, start, a, front);
      LegalNext(enabled, next, start, a + front, h);
      assert a + b == a + front + [h];
    }
  }

  lemma {:induction false} LegalPrefix<S, H>(
    enabled: (S, H) -> bool, next: (S, H) -> S, start: S, trace: seq<H>, k: nat)
    requires Legal(enabled, next, start, trace) && k <= |trace|
    ensures Legal(enabled, next, start, trace[..k])
    ensures k < |trace| ==>
              && Legal(enabled, next, start, trace[..k + 1]) && enabled(After(next, start, trace[..k]), trace[k])
              && After(next, start, trace[..k + 1]) == next(After(next, start, trace[..k]), trace[k])
    decreases |trace| - k
  {
    if k == |trace| {
      assert trace[..k] == trace;
    } else {
      assert trace[..k + 1][..k] == trace[..k];
      if k + 1 < |trace| {
        LegalPrefix(enabled, next, start, trace, k + 1);
      } else {
        assert trace[..k + 1] == trace;
      }
    }
  }

  /** history tells for each action what happened: what must, given all that happened before. */
  ghost predicate Answers<S, A, H>(
    performed: (S, A, seq<H>) -> bool, next: (S, H) -> S, start: S, actions: seq<A>, history: seq<seq<H>>)
  {
    && |history| == |actions|
    && forall i: nat {:trigger history[..i]} | i < |actions| ::
         performed(After(next, start, Flatten(history[..i])), actions[i], history[i])
  }

  lemma AnswersNext<S, A, H>(
    performed: (S, A, seq<H>) -> bool, next: (S, H) -> S, start: S, actions: seq<A>, history: seq<seq<H>>,
    a: A, happened: seq<H>)
    requires Answers(performed, next, start, actions, history)
    requires performed(After(next, start, Flatten(history)), a, happened)
    ensures Answers(performed, next, start, actions + [a], history + [happened])
    ensures Flatten(history + [happened]) == Flatten(history) + happened
  {
    hide After;
    var longer := history + [happened];
    assert longer[..|history|] == history;
    assert forall i: nat | i <= |history| :: longer[..i] == history[..i];
  }
}
