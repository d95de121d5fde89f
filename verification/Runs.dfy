/**
 Runs of a state machine. Every concurrent module describes one atomic step of one thread as a
 relation between states; a run is any finite interleaving of such steps, and a state is reachable
 when some run ends in it.
 */
module Runs {

  /** `run` starts in an initial state and every two neighbouring states are related by a step. */
  ghost predicate IsRun<S(!new)>(init: S -> bool, next: (S, S) -> bool, run: seq<S>) {
    && |run| > 0
    && init(run[0])
    && forall i :: 0 <= i < |run| - 1 ==> next(run[i], run[i + 1])
  }

  ghost predicate Reachable<S(!new)>(init: S -> bool, next: (S, S) -> bool, s: S) {
    exists run: seq<S> :: IsRun(init, next, run) && run[|run| - 1] == s
  }

  lemma ReachableInit<S(!new)>(init: S -> bool, next: (S, S) -> bool, s: S)
    requires init(s)
    ensures Reachable(init, next, s)
  {
    assert IsRun(init, next, [s]);
  }

  lemma ReachableStep<S(!new)>(init: S -> bool, next: (S, S) -> bool, s: S, s': S)
    requires Reachable(init, next, s) && next(s, s')
    ensures Reachable(init, next, s')
  {
    var run: seq<S> :| IsRun(init, next, run) && run[|run| - 1] == s;
    var longer := run + [s'];
    forall i | 0 <= i < |longer| - 1 ensures next(longer[i], longer[i + 1]) {
      if i < |run| - 1 { assert next(run[i], run[i + 1]); }
    }
    assert IsRun(init, next, longer);
  }

  lemma ReachableAlong<S(!new)>(init: S -> bool, next: (S, S) -> bool, run: seq<S>, i: nat)
    requires IsRun(init, next, run) && i < |run|
    ensures Reachable(init, next, run[i])
  {
    var prefix := run[..i + 1];
    assert IsRun(init, next, prefix) && prefix[|prefix| - 1] == run[i];
  }

  /** What holds initially and is kept by every step holds in every state of every run. */
  lemma {:induction false} InvariantOfRun<S(!new)>(
      init: S -> bool, next: (S, S) -> bool, inv: S -> bool, run: seq<S>)
    requires IsRun(init, next, run)
    requires init(run[0]) ==> inv(run[0])
    requires forall s, s' :: inv(s) && next(s, s') ==> inv(s')
    ensures forall i :: 0 <= i < |run| ==> inv(run[i])
  {
    if |run| == 1 {
    } else {
      var shorter := run[..|run| - 1];
      InvariantOfRun(init, next, inv, shorter);
      assert inv(shorter[|run| - 2]);
      assert next(run[|run| - 2], run[|run| - 2 + 1]);
    }
  }

  lemma InvariantOfReachable<S(!new)>(init: S -> bool, next: (S, S) -> bool, inv: S -> bool, s: S)
    requires Reachable(init, next, s)
    requires forall s :: init(s) ==> inv(s)
    requires forall s, s' :: inv(s) && next(s, s') ==> inv(s')
    ensures inv(s)
  {
    var run: seq<S> :| IsRun(init, next, run) && run[|run| - 1] == s;
    InvariantOfRun(init, next, inv, run);
  }

  /** A reflexive, transitive relation kept by every step relates any earlier state to any later one. */
  lemma {:induction false} RelatedAlongRun<S(!new)>(
      init: S -> bool, next: (S, S) -> bool, inv: S -> bool, rel: (S, S) -> bool, run: seq<S>, i: nat, j: nat)
    requires IsRun(init, next, run) && i <= j < |run|
    requires forall k :: 0 <= k < |run| ==> inv(run[k])
    requires forall s, s' :: inv(s) && next(s, s') ==> rel(s, s')
    requires forall s :: rel(s, s)
    requires forall a, b, c :: rel(a, b) && rel(b, c) ==> rel(a, c)
    ensures rel(run[i], run[j])
    decreases j - i
  {
    if i == j {
    } else {
      RelatedAlongRun(init, next, inv, rel, run, i, j - 1);
      assert next(run[j - 1], run[j - 1 + 1]);
    }
  }
}
