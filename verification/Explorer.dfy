/** The search itself: `explore`, proved against the reachability facts of `Explore`. */
module Explorer {
  import opened Sums
  import opened Explore

  /** Checks the invariants of one state in order. */
  method CheckState<S(!new)>(m: Model<S>, s: S) returns (verdict: Verdict<S>)
    ensures verdict.Pass? <==> Holds(m, s)
    ensures verdict.Fail? ==> verdict.state == s && FirstViolation(m, s, verdict.broken)
  {
    for i := 0 to |m.invariants|
      invariant forall j :: 0 <= j < i ==> m.invariants[j].check(s)
    {
      if !m.invariants[i].check(s) {
        return Fail(s, m.invariants[i].name);
      }
    }
    return Pass;
  }

  /** One successor of `current`: queued unless it was seen before. */
  method Visit<S(==, !new)>(m: Model<S>, current: S, next: S, seen: set<S>, queue: seq<S>,
                            ghost done: set<S>, ghost depth: map<S, nat>, ghost universe: set<S>)
    returns (seen': set<S>, queue': seq<S>, ghost depth': map<S, nat>)
    requires seen == depth.Keys <= universe && next in universe && current in done && current in depth && Step(m, current, next)
    requires SeenInv(m, done, queue, depth) && LevelInv(done, queue, depth, depth[current])
    ensures seen' == depth'.Keys <= universe && Extends(depth, depth')
    ensures SeenInv(m, done, queue', depth') && LevelInv(done, queue', depth', depth[current])
    ensures next in depth' && depth'[next] <= depth[current] + 1
  {
    seen', queue', depth' := seen, queue, depth;
    if next !in seen {
      Discovered(m, done, queue, depth, current, next);
      seen', queue' := seen + {next}, queue + [next];
      depth' := depth[next := depth[current] + 1];
    } else {
      AlreadyShallow(m, done, queue, depth, depth[current], next);
    }
  }

  /** One round of the search: every successor of `current` ends up seen. */
  method Expand<S(==, !new)>(m: Model<S>, current: S, seen: set<S>, queue: seq<S>,
                             ghost done: set<S>, ghost depth: map<S, nat>, ghost universe: set<S>)
    returns (seen': set<S>, queue': seq<S>, ghost depth': map<S, nat>)
    requires Closed(m, universe) && seen == depth.Keys <= universe && current in done && current in depth
    requires SeenInv(m, done, queue, depth) && LevelInv(done, queue, depth, depth[current])
    ensures seen' == depth'.Keys <= universe
    ensures SeenInv(m, done, queue', depth') && LevelInv(done, queue', depth', depth[current])
    ensures Extends(depth, depth')
    ensures forall t :: Step(m, current, t) ==> t in depth' && depth'[t] <= depth[current] + 1
  {
    seen', queue', depth' := seen, queue, depth;
    var steps := m.successors(current);
    for i := 0 to |steps|
      invariant seen' == depth'.Keys <= universe
      invariant SeenInv(m, done, queue', depth') && LevelInv(done, queue', depth', depth[current])
      invariant Extends(depth, depth')
      invariant forall j :: 0 <= j < i ==> steps[j] in depth' && depth'[steps[j]] <= depth[current] + 1
    {
      assert Step(m, current, steps[i]);
      seen', queue', depth' := Visit(m, current, steps[i], seen', queue', done, depth', universe);
    }
  }

  /** The head of the queue passed its checks: it is done, and its successors are seen. */
  method Advance<S(==, !new)>(m: Model<S>, seen: set<S>, queue: seq<S>,
                              ghost done: set<S>, ghost depth: map<S, nat>, ghost level: nat, ghost universe: set<S>)
    returns (seen': set<S>, queue': seq<S>, ghost depth': map<S, nat>)
    requires Closed(m, universe) && seen == depth.Keys <= universe && queue != [] && Holds(m, queue[0])
    requires SeenInv(m, done, queue, depth) && DoneInv(m, done, depth) && LevelInv(done, queue, depth, level)
    ensures seen' == depth'.Keys <= universe && queue[0] in universe - done
    ensures SeenInv(m, done + {queue[0]}, queue', depth') && DoneInv(m, done + {queue[0]}, depth')
    ensures LevelInv(done + {queue[0]}, queue', depth', depth[queue[0]])
  {
    var current := queue[0];
    HeadTaken(m, done, queue, depth, level);
    seen', queue', depth' := Expand(m, current, seen, queue[1..], done + {current}, depth, universe);
    assert done + {current} - {current} == done;
    ExpansionDone(m, current, done + {current}, depth, depth');
  }

  lemma CountOne<S(!new)>(m: Model<S>, done: set<S>, current: S)
    requires current !in done
    ensures |done + {current}| == |done| + 1
    ensures Sum(done + {current}, OutDegree(m)) == Sum(done, OutDegree(m)) + |m.successors(current)|
  {
    SumInsert(done, OutDegree(m), current);
  }

  method Search<S(==, !new)>(m: Model<S>, ghost universe: set<S>) returns (report: Report<S>)
    requires Closed(m, universe)
    // The verdict is exact: pass means every reachable state satisfies every invariant.
    ensures report.verdict.Pass? <==> forall s :: Reachable(m, s) ==> Holds(m, s)
    // A pass counted every reachable state and every transition out of one.
    ensures report.verdict.Pass? ==>
              && report.states == |ReachableSet(m, universe)|
              && report.transitions == Sum(ReachableSet(m, universe), OutDegree(m))
    // A failure names a reachable state and its first broken invariant...
    ensures report.verdict.Fail? ==>
              Reachable(m, report.verdict.state) && FirstViolation(m, report.verdict.state, report.verdict.broken)
    // ...as near to the initial state as any violation is.
    ensures report.verdict.Fail? ==>
              exists w :: Reaches(m, w, report.verdict.state) && NothingNearerFails(m, |w|)
  {
    var seen := {m.initial};
    var queue := [m.initial];
    var states, transitions := 0, 0;
    ghost var done: set<S> := {};
    ghost var depth: map<S, nat> := map[m.initial := 0];
    ghost var level := 0;
    assert Reaches(m, [m.initial], m.initial);
    while |queue| > 0
      invariant seen == depth.Keys <= universe
      invariant SeenInv(m, done, queue, depth) && DoneInv(m, done, depth) && LevelInv(done, queue, depth, level)
      invariant states == |done| && transitions == Sum(done, OutDegree(m))
      decreases universe - done
    {
      var current := queue[0];
      states := states + 1;
      var verdict := CheckState(m, current);
      if verdict.Fail? {
        HeadIsNearest(m, done, queue, depth, level);
        assert ReachableIn(m, current, depth[current]);
        return Report(states, transitions, verdict);
      }
      ghost var near := depth[current];
      seen, queue, depth := Advance(m, seen, queue, done, depth, level, universe);
      CountOne(m, done, current);
      done, level := done + {current}, near;
      transitions := transitions + |m.successors(current)|;
    }
    DoneIsReachable(m, universe, done, depth, level);
    return Report(states, transitions, Pass);
  }
}
