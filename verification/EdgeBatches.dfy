/**
What the replay loop can do from any state it gets into: a batch of any size is replicated
and committed, and when replication fails in the middle the records before it still are.
 */
module EdgeBatches {
  import opened Quorum
  import opened EdgeProtocol
  import opened EdgeRuns

  ghost predicate Leads<E(!new)>(c: Config, s: State<E>, t: State<E>) {
    exists actions: seq<Action<E>> :: LegalRun(c, s, actions) && Run(c, s, actions) == t
  }

  lemma LeadsNext<E(!new)>(c: Config, s: State<E>, t: State<E>, a: Action<E>) returns (u: State<E>)
    requires Leads(c, s, t) && Enabled(c, t, a)
    ensures u == Apply(c, t, a) && Leads(c, s, u)
  {
    var actions: seq<Action<E>> :| LegalRun(c, s, actions) && Run(c, s, actions) == t;
    RunSnoc(c, s, actions, a);
    u := Apply(c, t, a);
    assert Run(c, s, actions + [a]) == u;
  }

  lemma LeadsToItself<E(!new)>(c: Config, s: State<E>)
    ensures Leads(c, s, s)
  {
    var none: seq<Action<E>> := [];
    assert LegalRun(c, s, none) && Run(c, s, none) == s;
  }

  /** Nothing but the loop and its evidence has moved. */
  ghost predicate SameRecords<E>(s: State<E>, t: State<E>) {
    t.log == s.log && t.committed == s.committed && t.acked == s.acked && t.published == s.published
  }

  // ---------------------------------------------------------------- replicating

  lemma {:induction false} LoopHearsAll<E(!new)>(c: Config, s: State<E>, t: State<E>, heard: set<Node>) returns (u: State<E>)
    requires Leads(c, s, t) && t.loop.Replicating? && t.loop.acks == {}
    requires AllAcked(t.acked, heard, t.loop.first + t.loop.index)
    ensures Leads(c, s, u) && SameRecords(t, u) && u.loop == t.loop.(acks := heard)
    decreases |heard|
  {
    if heard == {} {
      u := t;
    } else {
      var peer :| peer in heard;
      u := LoopHearsAll(c, s, t, heard - {peer});
      u := LeadsNext(c, s, u, LoopHears(peer));
      assert heard - {peer} + {peer} == heard;
    }
  }

  lemma ReplicateOne<E(!new)>(c: Config, s: State<E>, t: State<E>, acks: set<Node>) returns (u: State<E>)
    requires Leads(c, s, t) && t.loop.Replicating? && t.loop.acks == {} && Enough(c, acks)
    requires AllAcked(t.acked, acks, t.loop.first + t.loop.index)
    ensures Leads(c, s, u) && SameRecords(t, u)
    ensures var Replicating(first, count, index, _) := t.loop;
            u.loop == if index + 1 < count then Replicating(first, count, index + 1, {}) else Delivering(first, count)
  {
    u := LoopHearsAll(c, s, t, acks);
    u := LeadsNext(c, s, u, LoopSatisfied);
  }

  ghost predicate BatchAcked(acked: set<(Node, nat)>, acks: set<Node>, first: nat, count: nat) {
    forall q :: first <= q < first + count ==> AllAcked(acked, acks, q)
  }

  lemma {:induction false} ReplicateRest<E(!new)>(c: Config, s: State<E>, t: State<E>, acks: set<Node>) returns (u: State<E>)
    requires Leads(c, s, t) && t.loop.Replicating? && t.loop.acks == {} && t.loop.index < t.loop.count && Enough(c, acks)
    requires BatchAcked(t.acked, acks, t.loop.first, t.loop.count)
    ensures Leads(c, s, u) && SameRecords(t, u) && u.loop == Delivering(t.loop.first, t.loop.count)
    decreases t.loop.count - t.loop.index
  {
    u := ReplicateOne(c, s, t, acks);
    if u.loop.Replicating? {
      u := ReplicateRest(c, s, u, acks);
    }
  }

  // ---------------------------------------------------------------- delivering

  function AllTaken(ready: nat): (results: seq<bool>)
    ensures |results| == ready && forall i :: 0 <= i < ready ==> results[i]
  {
    seq(ready, _ => true)
  }

  /** The sequences of a batch. */
  function Batch(first: nat, ready: nat): (sequences: set<nat>)
    ensures forall q :: q in sequences <==> first <= q < first + ready
  {
    if ready == 0 then {} else Batch(first, ready - 1) + {first + ready - 1}
  }

  lemma {:induction false} CommitRest<E(!new)>(c: Config, s: State<E>, t: State<E>) returns (u: State<E>)
    requires Leads(c, s, t) && t.loop.Committing? && t.loop.index < t.loop.ready && t.loop.results == AllTaken(t.loop.ready)
    ensures Leads(c, s, u) && u.log == t.log && u.published == t.published && u.loop.Waiting?
    ensures u.committed == t.loop.first + t.loop.ready - 1
    decreases t.loop.ready - t.loop.index
  {
    u := LeadsNext(c, s, t, CommitNext);
    if u.loop.Committing? {
      u := CommitRest(c, s, u);
    }
  }

  /** A batch that is ready can be taken whole and committed to its last record. */
  lemma DeliverWhole<E(!new)>(c: Config, s: State<E>, t: State<E>) returns (u: State<E>)
    requires Leads(c, s, t) && t.loop.Delivering? && t.loop.ready > 0
    ensures Leads(c, s, u) && u.log == t.log && u.published == t.published && u.loop.Waiting?
    ensures u.committed == t.loop.first + t.loop.ready - 1
  {
    var first, ready := t.loop.first, t.loop.ready;
    assert PrefixHonest(AllTaken(ready), first, Batch(first, ready));
    u := LeadsNext(c, s, t, Deliver(AllTaken(ready), Batch(first, ready)));
    u := CommitRest(c, s, u);
  }

  // ---------------------------------------------------------------- the two ways a batch ends

  /** From any state in which the next records have their acknowledgements, a batch of exactly those reaches delivery, and its end. */
  lemma BatchCommits<E(!new)>(c: Config, s: State<E>, count: nat, acks: set<Node>) returns (ready: State<E>, done: State<E>)
    requires s.loop.Waiting? && 0 < count && s.committed + count <= |s.log|
    requires Enough(c, acks) && BatchAcked(s.acked, acks, s.committed + 1, count)
    ensures Leads(c, s, ready) && SameRecords(s, ready) && ready.loop == Delivering(s.committed + 1, count)
    ensures Leads(c, s, done) && done.log == s.log && done.committed == s.committed + count
  {
    LeadsToItself(c, s);
    ready := LeadsNext(c, s, s, TakeBatch(count));
    ready := ReplicateRest(c, s, ready, acks);
    done := DeliverWhole(c, s, ready);
  }

  /** From any state in which the loop gives up on a record, the records of the batch before it can still be committed, and no other is. */
  lemma PrefixCommits<E(!new)>(c: Config, s: State<E>) returns (done: State<E>)
    requires Inv(c, s) && s.loop.Replicating? && s.loop.index > 0
    ensures var given := Apply(c, s, LoopGivesUp); Leads(c, given, done)
    ensures done.log == s.log && done.committed == s.committed + s.loop.index
  {
    var given := Apply(c, s, LoopGivesUp);
    LeadsToItself(c, given);
    done := DeliverWhole(c, given, given);
  }
}
