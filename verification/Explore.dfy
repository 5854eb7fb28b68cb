/**
The exhaustive model checker: breadth-first search over the states of a model.

A model is any initial state, successor function and list of named checks; the only
assumption is that some finite set of states contains the initial state and is closed
under successors.
 */
module Explore {
  import opened Sums

  datatype Invariant<!S> = Invariant(name: string, check: S -> bool)

  datatype Model<!S> = Model(initial: S, successors: S -> seq<S>, invariants: seq<Invariant<S>>)

  datatype Verdict<S> = Pass | Fail(state: S, broken: string)

  datatype Report<S> = Report(states: nat, transitions: nat, verdict: Verdict<S>)

  ghost predicate Closed<S(!new)>(m: Model<S>, universe: set<S>) {
    && m.initial in universe
    && (forall s, i {:trigger m.successors(s)[i]} :: s in universe && 0 <= i < |m.successors(s)| ==> m.successors(s)[i] in universe)
  }

  predicate Step<S(==)>(m: Model<S>, s: S, t: S) {
    t in m.successors(s)
  }

  /** A walk of the transition graph from the initial state. */
  ghost predicate Walk<S(!new)>(m: Model<S>, w: seq<S>) {
    && |w| > 0 && w[0] == m.initial
    && forall i :: 0 <= i < |w| - 1 ==> Step(m, w[i], w[i + 1])
  }

  ghost predicate Reaches<S(!new)>(m: Model<S>, w: seq<S>, s: S) {
    Walk(m, w) && w[|w| - 1] == s
  }

  ghost predicate ReachableIn<S(!new)>(m: Model<S>, s: S, steps: nat) {
    exists w :: Reaches(m, w, s) && |w| == steps + 1
  }

  /** Every walk through fewer states ends in a state that satisfies the invariants. */
  ghost predicate NothingNearerFails<S(!new)>(m: Model<S>, states: nat) {
    forall w :: Walk(m, w) && |w| < states ==> Holds(m, w[|w| - 1])
  }

  ghost predicate Reachable<S(!new)>(m: Model<S>, s: S) {
    exists w :: Reaches(m, w, s)
  }

  ghost function ReachableSet<S(!new)>(m: Model<S>, universe: set<S>): set<S> {
    set s | s in universe && Reachable(m, s)
  }

  predicate Holds<S(!new)>(m: Model<S>, s: S) {
    forall i :: 0 <= i < |m.invariants| ==> m.invariants[i].check(s)
  }

  function OutDegree<S(!new)>(m: Model<S>): S -> nat {
    (s: S) => |m.successors(s)|
  }

  /** The first check that rejects `s`, by name. */
  ghost predicate FirstViolation<S(!new)>(m: Model<S>, s: S, name: string) {
    exists i :: && 0 <= i < |m.invariants| && m.invariants[i].name == name && !m.invariants[i].check(s)
                && forall j :: 0 <= j < i ==> m.invariants[j].check(s)
  }

  // ---------------------------------------------------------------- search invariant

  ghost predicate SeenInv<S(!new)>(m: Model<S>, done: set<S>, queue: seq<S>, depth: map<S, nat>) {
    && (forall s :: s in depth <==> s in done || s in queue)
    && (forall i :: 0 <= i < |queue| ==> queue[i] !in done)
    && (forall i, j :: 0 <= i < j < |queue| ==> queue[i] != queue[j])
    && (forall s :: s in depth ==> ReachableIn(m, s, depth[s]))
  }

  /** The queue holds at most two consecutive levels, in order, and nothing done lies deeper. */
  ghost predicate LevelInv<S(!new)>(done: set<S>, queue: seq<S>, depth: map<S, nat>, level: nat)
    requires forall s :: s in done || s in queue ==> s in depth
  {
    && (forall s :: s in done ==> depth[s] <= level)
    && (forall i :: 0 <= i < |queue| ==> level <= depth[queue[i]] <= level + 1)
    && (forall i, j :: 0 <= i < j < |queue| ==> depth[queue[i]] <= depth[queue[j]])
  }

  /** Everything done was checked and its successors were seen, at most one level deeper. */
  ghost predicate DoneInv<S(!new)>(m: Model<S>, done: set<S>, depth: map<S, nat>) {
    && m.initial in depth && depth[m.initial] == 0
    && (forall s :: s in done ==> s in depth && Holds(m, s))
    && (forall s, t :: s in done && Step(m, s, t) ==> s in depth && t in depth && depth[t] <= depth[s] + 1)
  }

  /** A walk no longer than the current level ends in a seen state that is no deeper than the walk is long. */
  lemma {:induction false} ShortWalksSeen<S(!new)>(m: Model<S>, done: set<S>, queue: seq<S>, depth: map<S, nat>,
                                             level: nat, w: seq<S>)
    requires SeenInv(m, done, queue, depth) && DoneInv(m, done, depth) && LevelInv(done, queue, depth, level)
    requires Walk(m, w)
    requires queue == [] || |w| - 1 <= level
    ensures w[|w| - 1] in depth
    ensures depth[w[|w| - 1]] <= |w| - 1
  {
    if |w| > 1 {
      var shorter := w[..|w| - 1];
      ShortWalksSeen(m, done, queue, depth, level, shorter);
      var last := shorter[|shorter| - 1];
      assert Step(m, last, w[|w| - 1]);
      assert last in done;
    }
  }

  lemma ReachableExtends<S(!new)>(m: Model<S>, s: S, t: S, n: nat)
    requires ReachableIn(m, s, n) && Step(m, s, t)
    ensures ReachableIn(m, t, n + 1)
  {
    var w :| Reaches(m, w, s) && |w| == n + 1;
    var longer := w + [t];
    forall i | 0 <= i < |longer| - 1
      ensures Step(m, longer[i], longer[i + 1])
    {
      if i < |w| - 1 {
        assert longer[i] == w[i] && longer[i + 1] == w[i + 1];
      }
    }
    assert Reaches(m, longer, t);
  }

  /** Taking the head off the queue. */
  lemma HeadTaken<S(!new)>(m: Model<S>, done: set<S>, queue: seq<S>, depth: map<S, nat>, level: nat)
    requires SeenInv(m, done, queue, depth) && LevelInv(done, queue, depth, level) && queue != []
    ensures SeenInv(m, done + {queue[0]}, queue[1..], depth)
    ensures LevelInv(done + {queue[0]}, queue[1..], depth, depth[queue[0]])
  {
    HeadSeen(m, done, queue, depth);
    HeadLevel(done, queue, depth, level);
  }

  lemma HeadSeen<S(!new)>(m: Model<S>, done: set<S>, queue: seq<S>, depth: map<S, nat>)
    requires SeenInv(m, done, queue, depth) && queue != []
    ensures SeenInv(m, done + {queue[0]}, queue[1..], depth)
  {
    var head, rest := queue[0], queue[1..];
    assert queue == [head] + rest;
    assert forall s :: s in queue <==> s == head || s in rest;
  }

  lemma HeadLevel<S(!new)>(done: set<S>, queue: seq<S>, depth: map<S, nat>, level: nat)
    requires (forall s :: s in done || s in queue ==> s in depth) && LevelInv(done, queue, depth, level) && queue != []
    ensures LevelInv(done + {queue[0]}, queue[1..], depth, depth[queue[0]])
  {
  }

  /** Appending a successor of `current` that was not seen before. */
  lemma Discovered<S(!new)>(m: Model<S>, done: set<S>, queue: seq<S>, depth: map<S, nat>, current: S, t: S)
    requires SeenInv(m, done, queue, depth) && current in done
    requires LevelInv(done, queue, depth, depth[current])
    requires Step(m, current, t) && t !in depth
    ensures SeenInv(m, done, queue + [t], depth[t := depth[current] + 1])
    ensures LevelInv(done, queue + [t], depth[t := depth[current] + 1], depth[current])
  {
    var depth' := depth[t := depth[current] + 1];
    ReachableExtends(m, current, t, depth[current]);
    forall s | s in depth'
      ensures ReachableIn(m, s, depth'[s])
    {
      if s != t { assert s in depth; }
    }
  }

  ghost predicate Extends<S(!new)>(depth: map<S, nat>, depth': map<S, nat>) {
    forall s :: s in depth ==> s in depth' && depth'[s] == depth[s]
  }

  lemma ExpansionDone<S(!new)>(m: Model<S>, current: S, done: set<S>, depth: map<S, nat>, depth': map<S, nat>)
    requires current in done && DoneInv(m, done - {current}, depth) && Holds(m, current)
    requires current in depth && Extends(depth, depth')
    requires forall t :: Step(m, current, t) ==> t in depth' && depth'[t] <= depth[current] + 1
    ensures DoneInv(m, done, depth')
  {
  }

  /** The head of the queue lies no deeper than any violation: everything nearer was done and held. */
  lemma HeadIsNearest<S(!new)>(m: Model<S>, done: set<S>, queue: seq<S>, depth: map<S, nat>, level: nat)
    requires SeenInv(m, done, queue, depth) && DoneInv(m, done, depth) && LevelInv(done, queue, depth, level)
    requires queue != []
    ensures exists w :: Reaches(m, w, queue[0]) && NothingNearerFails(m, |w|)
  {
    var near := depth[queue[0]];
    var w :| Reaches(m, w, queue[0]) && |w| == near + 1;
    forall v | Walk(m, v) && |v| < |w|
      ensures Holds(m, v[|v| - 1])
    {
      ShortWalksSeen(m, done, queue, depth, near, v);
    }
  }

  /** An exhausted queue means every reachable state was done. */
  lemma DoneIsReachable<S(!new)>(m: Model<S>, universe: set<S>, done: set<S>, depth: map<S, nat>, level: nat)
    requires SeenInv(m, done, [], depth) && DoneInv(m, done, depth) && LevelInv(done, [], depth, level)
    requires done <= universe
    ensures forall s :: Reachable(m, s) ==> s in done
    ensures done == ReachableSet(m, universe)
  {
    forall s | Reachable(m, s)
      ensures s in done
    {
      var w :| Reaches(m, w, s);
      ShortWalksSeen(m, done, [], depth, level, w);
    }
    forall s | s in done
      ensures Reachable(m, s)
    {
      assert ReachableIn(m, s, depth[s]);
    }
  }

  lemma AlreadyShallow<S(!new)>(m: Model<S>, done: set<S>, queue: seq<S>, depth: map<S, nat>, level: nat, s: S)
    requires SeenInv(m, done, queue, depth) && LevelInv(done, queue, depth, level) && s in depth
    ensures depth[s] <= level + 1
  {
  }
}
