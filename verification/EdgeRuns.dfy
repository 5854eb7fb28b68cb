/**
Runs of the durable edge that do come to pass: for every configuration whose policy some of
its peers can satisfy, an event is appended, acknowledged, delivered, committed and released.
 */
module EdgeRuns {
  import opened Quorum
  import opened EdgeProtocol

  /** A call that succeeds has its sequence published, with the nodes it heard from as evidence. */
  lemma SuccessIsPublished<E>(c: Config, s: State<E>, thread: nat)
    requires Enabled(c, s, CallSucceeds(thread))
    ensures var t, call := Apply(c, s, CallSucceeds(thread)), s.calls[thread];
            && t.published == s.published + {call.sequence} && t.evidence[call.sequence] == call.acks
            && thread !in t.calls && t.log == s.log && t.committed == s.committed
  {
  }

  ghost predicate Reachable<E(!new)>(c: Config, s: State<E>) {
    exists actions: seq<Action<E>> :: LegalRun(c, Start(c), actions) && Run(c, Start(c), actions) == s
  }

  lemma {:induction false} RunSnoc<E>(c: Config, s: State<E>, actions: seq<Action<E>>, a: Action<E>)
    requires LegalRun(c, s, actions) && Enabled(c, Run(c, s, actions), a)
    ensures LegalRun(c, s, actions + [a]) && Run(c, s, actions + [a]) == Apply(c, Run(c, s, actions), a)
    decreases |actions|
  {
    var more := actions + [a];
    if actions == [] {
      assert more == [a] && more[1..] == [];
    } else {
      RunSnoc(c, Apply(c, s, actions[0]), actions[1..], a);
      assert more[1..] == actions[1..] + [a];
    }
  }

  lemma ReachNext<E(!new)>(c: Config, s: State<E>, a: Action<E>) returns (t: State<E>)
    requires Reachable(c, s) && Enabled(c, s, a)
    ensures t == Apply(c, s, a) && Reachable(c, t)
  {
    var actions: seq<Action<E>> :| LegalRun(c, Start(c), actions) && Run(c, Start(c), actions) == s;
    RunSnoc(c, Start(c), actions, a);
    t := Apply(c, s, a);
    assert Run(c, Start(c), actions + [a]) == t;
  }

  lemma StartReachable<E(!new)>(c: Config)
    ensures Reachable(c, Start<E>(c))
  {
    var none: seq<Action<E>> := [];
    assert LegalRun(c, Start<E>(c), none) && Run(c, Start<E>(c), none) == Start<E>(c);
  }

  // ---------------------------------------------------------------- one event on its way

  /** The only event is in the log, and each of `nodes` has acknowledged it. */
  ghost predicate Stored<E>(c: Config, s: State<E>, event: E, nodes: set<Node>) {
    s.log == [event] && NoneReleased(c, s) && AllAcked(s.acked, nodes, 1)
  }

  ghost predicate NoneReleased<E>(c: Config, s: State<E>) {
    s.peers.Keys == NodesOf(c.peers) && forall n :: n in s.peers ==> s.peers[n].released == 0
  }

  ghost predicate Collecting<E>(c: Config, s: State<E>, event: E, heard: set<Node>) {
    Stored(c, s, event, heard) && s.committed == 0 && s.loop.Waiting? && s.calls == map[0 := Call(1, heard)]
  }

  lemma {:induction false} CollectAll<E(!new)>(c: Config, event: E, acks: set<Node>) returns (s: State<E>)
    requires acks <= NodesOf(c.peers)
    ensures Reachable(c, s) && Collecting(c, s, event, acks)
    decreases |acks|
  {
    if acks == {} {
      StartReachable<E>(c);
      s := ReachNext(c, Start(c), Append(0, event));
    } else {
      var peer :| peer in acks;
      s := CollectAll(c, event, acks - {peer});
      s := CollectOne(c, s, event, acks - {peer}, peer);
      assert acks - {peer} + {peer} == acks;
    }
  }

  lemma CollectOne<E(!new)>(c: Config, s: State<E>, event: E, heard: set<Node>, peer: Node) returns (t: State<E>)
    requires Reachable(c, s) && Collecting(c, s, event, heard) && peer in NodesOf(c.peers)
    ensures Reachable(c, t) && Collecting(c, t, event, heard + {peer})
  {
    t := ReachNext(c, s, PeerStores(peer, 1));
    assert NoneReleased(c, t);
    t := ReachNext(c, t, CallHears(0, peer));
    assert t.calls == map[0 := Call(1, heard + {peer})];
  }

  /** Acknowledged to the client, and waiting for the replay loop. */
  ghost predicate Published<E>(c: Config, s: State<E>, event: E, acks: set<Node>) {
    Stored(c, s, event, acks) && s.committed == 0 && s.loop.Waiting? && 1 in s.published
  }

  lemma PublishedState<E(!new)>(c: Config, event: E, acks: set<Node>) returns (s: State<E>)
    requires acks <= NodesOf(c.peers) && Enough(c, acks)
    ensures Reachable(c, s) && Published(c, s, event, acks)
  {
    s := CollectAll(c, event, acks);
    s := ReachNext(c, s, CallSucceeds(0));
  }

  ghost predicate Replayed<E>(c: Config, s: State<E>, event: E, acks: set<Node>, heard: set<Node>) {
    Stored(c, s, event, acks) && s.committed == 0 && s.loop == Replicating(1, 1, 0, heard) && 1 in s.published
  }

  lemma {:induction false} ReplayAll<E(!new)>(c: Config, event: E, acks: set<Node>, heard: set<Node>) returns (s: State<E>)
    requires acks <= NodesOf(c.peers) && Enough(c, acks) && heard <= acks
    ensures Reachable(c, s) && Replayed(c, s, event, acks, heard)
    decreases |heard|
  {
    if heard == {} {
      s := PublishedState(c, event, acks);
      s := ReachNext(c, s, TakeBatch(1));
    } else {
      var peer :| peer in heard;
      s := ReplayAll(c, event, acks, heard - {peer});
      s := ReachNext(c, s, LoopHears(peer));
      assert heard - {peer} + {peer} == heard;
    }
  }

  lemma TakenWhole()
    ensures PrefixHonest([true], 1, {1})
  {
  }

  ghost predicate Committed<E>(c: Config, s: State<E>, event: E) {
    s.log == [event] && NoneReleased(c, s) && 1 in s.published && s.committed == 1 && 1 in s.accepted
  }

  lemma CommittedState<E(!new)>(c: Config, event: E, acks: set<Node>) returns (s: State<E>)
    requires acks <= NodesOf(c.peers) && Enough(c, acks)
    ensures Reachable(c, s) && Committed(c, s, event)
  {
    s := ReplayAll(c, event, acks, acks);
    s := ReachNext(c, s, LoopSatisfied);
    TakenWhole();
    s := ReachNext(c, s, Deliver([true], {1}));
    s := ReachNext(c, s, CommitNext);
  }

  // ---------------------------------------------------------------- the runs

  /** Some run acknowledges an event and has not yet committed it. */
  lemma AcknowledgementHappens<E(!new)>(c: Config, event: E, acks: set<Node>) returns (actions: seq<Action<E>>)
    requires acks <= NodesOf(c.peers) && Enough(c, acks)
    ensures LegalRun(c, Start(c), actions)
    ensures var s := Run(c, Start(c), actions); s.log == [event] && 1 in s.published && s.committed == 0
  {
    var s := PublishedState(c, event, acks);
    actions :| LegalRun(c, Start(c), actions) && Run(c, Start(c), actions) == s;
  }

  /** Some run commits it, after the downstream took it. */
  lemma CommitHappens<E(!new)>(c: Config, event: E, acks: set<Node>) returns (actions: seq<Action<E>>)
    requires acks <= NodesOf(c.peers) && Enough(c, acks)
    ensures LegalRun(c, Start(c), actions)
    ensures var s := Run(c, Start(c), actions); s.log == [event] && 1 in s.published && 1 in s.accepted && s.committed == 1
  {
    var s := CommittedState(c, event, acks);
    actions :| LegalRun(c, Start(c), actions) && Run(c, Start(c), actions) == s;
  }

  /** Some run then lets a peer forget it. */
  lemma ReleaseHappens<E(!new)>(c: Config, event: E, acks: set<Node>, peer: Node) returns (actions: seq<Action<E>>)
    requires acks <= NodesOf(c.peers) && Enough(c, acks) && peer in c.peers
    ensures LegalRun(c, Start(c), actions)
    ensures var s := Run(c, Start(c), actions);
            s.committed == 1 && peer in s.peers && s.peers[peer].released == 1 && 1 !in s.peers[peer].held
  {
    var s := CommittedState(c, event, acks);
    s := ReachNext(c, s, SendRelease);
    s := ReachNext(c, s, PeerReleases(peer, 1));
    actions :| LegalRun(c, Start(c), actions) && Run(c, Start(c), actions) == s;
  }
}
