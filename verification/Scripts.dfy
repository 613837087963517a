/** Runs of a client's script: what a simple machine promises about every answer of the real one. */
module Scripts {

  /** One operation and what the client saw of it. */
  datatype Step<+O, +R> = Step(op: O, seen: R)

  /** A simple machine: where it starts, how it goes on, and what it promises about an answer. */
  datatype Rules<!S, !O, !R> = Rules(start: S, next: (S, O, R) -> S, promised: (S, O, R) -> bool)

  /** The state of the simple machine after a trace. */
  ghost function Replay<S, O, R>(rules: Rules<S, O, R>, trace: seq<Step<O, R>>): S {
    if trace == [] then rules.start
    else
      var last := trace[|trace| - 1];
      rules.next(Replay(rules, trace[..|trace| - 1]), last.op, last.seen)
  }

  /** Every answer of the trace is one that the simple machine promises at that point. */
  ghost predicate Kept<S, O, R>(rules: Rules<S, O, R>, trace: seq<Step<O, R>>) {
    forall i :: 0 <= i < |trace| ==> rules.promised(Replay(rules, trace[..i]), trace[i].op, trace[i].seen)
  }

  /** The trace performs the operations of a script, in order, perhaps not all of them. */
  ghost predicate Follows<O, R>(trace: seq<Step<O, R>>, ops: seq<O>) {
    |trace| <= |ops| && forall i :: 0 <= i < |trace| ==> trace[i].op == ops[i]
  }

  lemma NothingYet<S, O, R>(rules: Rules<S, O, R>)
    ensures Kept(rules, []) && Replay(rules, []) == rules.start
  {
  }

  lemma ReplaySnoc<S, O, R>(rules: Rules<S, O, R>, trace: seq<Step<O, R>>, s: Step<O, R>)
    ensures Replay(rules, trace + [s]) == rules.next(Replay(rules, trace), s.op, s.seen)
  {
    assert (trace + [s])[..|trace|] == trace;
  }

  lemma KeptSnoc<S, O, R>(rules: Rules<S, O, R>, trace: seq<Step<O, R>>, s: Step<O, R>)
    requires Kept(rules, trace) && rules.promised(Replay(rules, trace), s.op, s.seen)
    ensures Kept(rules, trace + [s])
    ensures Replay(rules, trace + [s]) == rules.next(Replay(rules, trace), s.op, s.seen)
  {
    hide Replay;
    ReplaySnoc(rules, trace, s);
    var trace' := trace + [s];
    forall i | 0 <= i < |trace'|
      ensures rules.promised(Replay(rules, trace'[..i]), trace'[i].op, trace'[i].seen)
    {
      if i < |trace| {
        assert rules.promised(Replay(rules, trace[..i]), trace[i].op, trace[i].seen);
        assert trace'[..i] == trace[..i];
      } else {
        assert trace'[..i] == trace;
      }
    }
  }

  lemma {:induction false} KeptPrefix<S, O, R>(rules: Rules<S, O, R>, trace: seq<Step<O, R>>, n: nat)
    requires Kept(rules, trace) && n <= |trace|
    ensures Kept(rules, trace[..n])
  {
    hide Replay;
    forall i | 0 <= i < n
      ensures rules.promised(Replay(rules, trace[..n][..i]), trace[..n][i].op, trace[..n][i].seen)
    {
      assert rules.promised(Replay(rules, trace[..i]), trace[i].op, trace[i].seen);
      assert trace[..n][..i] == trace[..i];
    }
  }
}
