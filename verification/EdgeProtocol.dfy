/**
The durable edge: append to the local log, replicate to a quorum, acknowledge, deliver in
batches, commit, release.  Publishing clients, the replay loop, the peers and the network
interleave freely; the origin may crash at any point.
 */
module EdgeProtocol {
  import opened Quorum

  /** One peer's replica store, seen from this origin. */
  datatype Peer<E> = Peer(held: map<nat, E>, released: nat)

  /** A peer acknowledges after its put: the record is held unless it was already released. */
  function PeerPut<E>(p: Peer<E>, sequence: nat, event: E): Peer<E> {
    if sequence <= p.released || sequence in p.held then p else p.(held := p.held[sequence := event])
  }

  function PeerRelease<E>(p: Peer<E>, through: nat): Peer<E> {
    if through <= p.released then p
    else Peer(map s | s in p.held && s > through :: p.held[s], through)
  }

  /** A `Publish` call that has appended its record and is collecting acknowledgements. */
  datatype Call = Call(sequence: nat, acks: set<Node>)

  /** Where the replay loop stands; batches start at `first`. */
  datatype Loop =
    | Waiting
    | Replicating(first: nat, count: nat, index: nat, acks: set<Node>)
    | Delivering(first: nat, ready: nat)
    | Committing(first: nat, ready: nat, index: nat, results: seq<bool>)

  /**
  `log` and `committed` are the origin's write-ahead log, which survives a crash.
  `published`, `evidence` and `accepted` record what was promised to clients, the quorum
  behind each sequence, and what the downstream took.
   */
  datatype State<E> = State(
    log: seq<E>,
    committed: nat,
    peers: map<Node, Peer<E>>,
    acked: set<(Node, nat)>,
    calls: map<nat, Call>,
    published: set<nat>,
    evidence: map<nat, set<Node>>,
    accepted: set<nat>,
    releases: set<nat>,
    loop: Loop)

  datatype Action<E> =
    | Append(thread: nat, event: E)
    | PeerStores(peer: Node, sequence: nat)
    | CallHears(thread: nat, peer: Node)
    | CallSucceeds(thread: nat)
    | CallFails(thread: nat)
    | TakeBatch(count: nat)
    | LoopHears(peer: Node)
    | LoopSatisfied
    | LoopGivesUp
    | Deliver(results: seq<bool>, took: set<nat>)
    | CommitNext
    | CommitStops
    | SendRelease
    | PeerReleases(peer: Node, through: nat)
    | OriginCrash

  function Start<E>(c: Config): State<E> {
    State([], 0, map n | n in c.peers :: Peer(map[], 0), {}, map[], {}, map[], {}, {}, Waiting)
  }

  /** When `Replicate` reports success; in local mode it does so without the test. */
  ghost predicate Enough(c: Config, acks: set<Node>) {
    c.mode.Local? || Satisfied(c, {c.origin} + acks)
  }

  predicate AllOk(results: seq<bool>, n: nat) {
    n <= |results| && forall i :: 0 <= i < n ==> results[i]
  }

  /** Leading successes name records the downstream really took. */
  ghost predicate PrefixHonest(results: seq<bool>, first: nat, took: set<nat>) {
    forall n: nat :: n > 0 && AllOk(results, n) ==> first + n - 1 in took
  }

  ghost predicate Enabled<E>(c: Config, s: State<E>, a: Action<E>) {
    match a
    case Append(thread, _) => thread !in s.calls
    case PeerStores(peer, sequence) => peer in s.peers && 1 <= sequence <= |s.log|
    case CallHears(thread, peer) => thread in s.calls && (peer, s.calls[thread].sequence) in s.acked
    case CallSucceeds(thread) => thread in s.calls && Enough(c, s.calls[thread].acks)
    case CallFails(thread) => thread in s.calls
    case TakeBatch(count) => s.loop.Waiting? && 0 < count && s.committed + count <= |s.log|
    case LoopHears(peer) => s.loop.Replicating? && (peer, s.loop.first + s.loop.index) in s.acked
    case LoopSatisfied => s.loop.Replicating? && Enough(c, s.loop.acks)
    case LoopGivesUp => s.loop.Replicating?
    case Deliver(results, took) => s.loop.Delivering? && PrefixHonest(results, s.loop.first, took)
    case CommitNext =>
      && s.loop.Committing? && s.loop.index < s.loop.ready
      && s.loop.index < |s.loop.results| && s.loop.results[s.loop.index]
    case CommitStops => s.loop.Committing?
    case SendRelease => s.committed > 0
    case PeerReleases(peer, through) => peer in s.peers && through in s.releases
    case OriginCrash => true
  }

  ghost function Apply<E>(c: Config, s: State<E>, a: Action<E>): State<E>
    requires Enabled(c, s, a)
  {
    match a
    case Append(thread, event) =>
      s.(log := s.log + [event], calls := s.calls[thread := Call(|s.log| + 1, {})])
    case PeerStores(peer, sequence) =>
      s.(peers := s.peers[peer := PeerPut(s.peers[peer], sequence, s.log[sequence - 1])],
         acked := s.acked + {(peer, sequence)})
    case CallHears(thread, peer) =>
      s.(calls := s.calls[thread := s.calls[thread].(acks := s.calls[thread].acks + {peer})])
    case CallSucceeds(thread) =>
      var call := s.calls[thread];
      s.(calls := s.calls - {thread},
         published := s.published + {call.sequence},
         evidence := s.evidence[call.sequence := call.acks])
    case CallFails(thread) => s.(calls := s.calls - {thread})
    case TakeBatch(count) => s.(loop := Replicating(s.committed + 1, count, 0, {}))
    case LoopHears(peer) =>
      var Replicating(first, count, index, acks) := s.loop;
      s.(loop := Replicating(first, count, index, acks + {peer}))
    case LoopSatisfied =>
      var Replicating(first, count, index, acks) := s.loop;
      s.(evidence := s.evidence[first + index := acks],
         loop := if index + 1 < count then Replicating(first, count, index + 1, {}) else Delivering(first, count))
    case LoopGivesUp =>
      s.(loop := if s.loop.index > 0 then Delivering(s.loop.first, s.loop.index) else Waiting)
    case Deliver(results, took) =>
      s.(accepted := s.accepted + took, loop := Committing(s.loop.first, s.loop.ready, 0, results))
    case CommitNext =>
      var Committing(first, ready, index, results) := s.loop;
      s.(committed := first + index,
         loop := if index + 1 < ready then Committing(first, ready, index + 1, results) else Waiting)
    case CommitStops => s.(loop := Waiting)
    case SendRelease => s.(releases := s.releases + {s.committed})
    case PeerReleases(peer, through) =>
      s.(peers := s.peers[peer := PeerRelease(s.peers[peer], through)])
    case OriginCrash => s.(calls := map[], loop := Waiting)
  }

  // ---------------------------------------------------------------- invariant

  ghost predicate PeersInv<E>(s: State<E>) {
    forall n :: n in s.peers ==>
      && s.peers[n].released <= s.committed
      && (forall q :: q in s.peers[n].held ==> 1 <= q <= |s.log| && s.peers[n].held[q] == s.log[q - 1])
  }

  /** What an acknowledgement is worth: the peer holds the record, or was told it is committed. */
  ghost predicate AckInv<E>(s: State<E>) {
    forall n, q :: (n, q) in s.acked ==>
      n in s.peers && 1 <= q <= |s.log| && (q in s.peers[n].held || q <= s.peers[n].released)
  }

  ghost predicate AllAcked(acked: set<(Node, nat)>, acks: set<Node>, sequence: nat) {
    forall n :: n in acks ==> (n, sequence) in acked
  }

  /** Every recorded quorum satisfies the policy, and each of its members acknowledged. */
  ghost predicate EvidenceInv(c: Config, evidence: map<nat, set<Node>>, acked: set<(Node, nat)>) {
    forall q :: q in evidence ==> Enough(c, evidence[q]) && AllAcked(acked, evidence[q], q)
  }

  ghost predicate CommitInv(committed: nat, evidence: map<nat, set<Node>>, accepted: set<nat>) {
    forall q :: 1 <= q <= committed ==> q in evidence && q in accepted
  }

  ghost predicate CallsInv(calls: map<nat, Call>, appended: nat, acked: set<(Node, nat)>) {
    forall t :: t in calls ==> 1 <= calls[t].sequence <= appended && AllAcked(acked, calls[t].acks, calls[t].sequence)
  }

  ghost predicate Quorate(evidence: map<nat, set<Node>>, first: nat, count: nat) {
    forall q :: first <= q < first + count ==> q in evidence
  }

  ghost predicate LoopInv(loop: Loop, committed: nat, appended: nat, evidence: map<nat, set<Node>>,
                          acked: set<(Node, nat)>, accepted: set<nat>)
  {
    match loop
    case Waiting => true
    case Replicating(first, count, index, acks) =>
      && first == committed + 1 && index < count && first + count <= appended + 1
      && Quorate(evidence, first, index) && AllAcked(acked, acks, first + index)
    case Delivering(first, ready) =>
      first == committed + 1 && 0 < ready && first + ready <= appended + 1 && Quorate(evidence, first, ready)
    case Committing(first, ready, index, results) =>
      && first + index == committed + 1 && index < ready && first + ready <= appended + 1
      && Quorate(evidence, first, ready)
      && AllOk(results, index) && PrefixHonest(results, first, accepted)
  }

  ghost predicate Inv<E>(c: Config, s: State<E>) {
    && s.committed <= |s.log|
    && (forall t :: t in s.releases ==> t <= s.committed)
    && s.published <= s.evidence.Keys
    && (forall q :: q in s.evidence ==> 1 <= q <= |s.log|)
    && PeersInv(s) && AckInv(s)
    && EvidenceInv(c, s.evidence, s.acked)
    && CommitInv(s.committed, s.evidence, s.accepted)
    && CallsInv(s.calls, |s.log|, s.acked)
    && LoopInv(s.loop, s.committed, |s.log|, s.evidence, s.acked, s.accepted)
  }

  lemma StartInv<E>(c: Config)
    ensures Inv(c, Start<E>(c))
  {
  }

  lemma MoreAcks(fewer: set<(Node, nat)>, more: set<(Node, nat)>)
    requires fewer <= more
    ensures forall acks, q :: AllAcked(fewer, acks, q) ==> AllAcked(more, acks, q)
  {
  }

  lemma MoreEvidence(evidence: map<nat, set<Node>>, sequence: nat, acks: set<Node>)
    ensures forall first, count :: Quorate(evidence, first, count) ==> Quorate(evidence[sequence := acks], first, count)
  {
  }

  lemma HonestForMore(results: seq<bool>, first: nat, took: set<nat>, more: set<nat>)
    requires PrefixHonest(results, first, took) && took <= more
    ensures PrefixHonest(results, first, more)
  {
  }

  lemma AppendKeeps<E>(c: Config, s: State<E>, a: Action<E>)
    requires Inv(c, s) && Enabled(c, s, a) && a.Append?
    ensures Inv(c, Apply(c, s, a))
  {
  }

  lemma PeerStoresKeeps<E>(c: Config, s: State<E>, a: Action<E>)
    requires Inv(c, s) && Enabled(c, s, a) && a.PeerStores?
    ensures Inv(c, Apply(c, s, a))
  {
    MoreAcks(s.acked, Apply(c, s, a).acked);
  }

  lemma PeerReleasesKeeps<E>(c: Config, s: State<E>, a: Action<E>)
    requires Inv(c, s) && Enabled(c, s, a) && a.PeerReleases?
    ensures Inv(c, Apply(c, s, a))
  {
  }

  lemma CallKeeps<E>(c: Config, s: State<E>, a: Action<E>)
    requires Inv(c, s) && Enabled(c, s, a) && (a.CallHears? || a.CallSucceeds? || a.CallFails?)
    ensures Inv(c, Apply(c, s, a))
  {
    if a.CallSucceeds? {
      MoreEvidence(s.evidence, s.calls[a.thread].sequence, s.calls[a.thread].acks);
    }
  }

  /** A step that only moves the delivery loop. */
  lemma LoopMoves<E>(c: Config, s: State<E>, loop: Loop)
    requires Inv(c, s) && LoopInv(loop, s.committed, |s.log|, s.evidence, s.acked, s.accepted)
    ensures Inv(c, s.(loop := loop))
  {
  }

  lemma LoopSatisfiedKeeps<E>(c: Config, s: State<E>)
    requires Inv(c, s) && Enabled(c, s, LoopSatisfied)
    ensures Inv(c, Apply(c, s, LoopSatisfied))
  {
  }

  lemma ReplicationKeeps<E>(c: Config, s: State<E>, a: Action<E>)
    requires Inv(c, s) && Enabled(c, s, a) && (a.TakeBatch? || a.LoopHears? || a.LoopSatisfied? || a.LoopGivesUp?)
    ensures Inv(c, Apply(c, s, a))
  {
    if a.LoopSatisfied? {
      LoopSatisfiedKeeps(c, s);
    } else {
      LoopMoves(c, s, Apply(c, s, a).loop);
    }
  }

  lemma DeliveryKeeps<E>(c: Config, s: State<E>, a: Action<E>)
    requires Inv(c, s) && Enabled(c, s, a) && (a.Deliver? || a.CommitNext? || a.CommitStops?)
    ensures Inv(c, Apply(c, s, a))
  {
    if a.Deliver? {
      HonestForMore(a.results, s.loop.first, a.took, s.accepted + a.took);
    } else if a.CommitNext? {
      assert AllOk(s.loop.results, s.loop.index + 1);
    }
  }

  lemma ApplyKeepsInv<E>(c: Config, s: State<E>, a: Action<E>)
    requires Inv(c, s) && Enabled(c, s, a)
    ensures Inv(c, Apply(c, s, a))
  {
    match a {
      case Append(_, _) => AppendKeeps(c, s, a);
      case PeerStores(_, _) => PeerStoresKeeps(c, s, a);
      case PeerReleases(_, _) => PeerReleasesKeeps(c, s, a);
      case CallHears(_, _) => CallKeeps(c, s, a);
      case CallSucceeds(_) => CallKeeps(c, s, a);
      case CallFails(_) => CallKeeps(c, s, a);
      case Deliver(_, _) => DeliveryKeeps(c, s, a);
      case CommitNext => DeliveryKeeps(c, s, a);
      case CommitStops => DeliveryKeeps(c, s, a);
      case SendRelease =>
      case OriginCrash =>
      case _ => ReplicationKeeps(c, s, a);
    }
  }

  // ---------------------------------------------------------------- whole runs

  ghost predicate LegalRun<E>(c: Config, s: State<E>, actions: seq<Action<E>>)
    decreases |actions|
  {
    actions == [] || (Enabled(c, s, actions[0]) && LegalRun(c, Apply(c, s, actions[0]), actions[1..]))
  }

  ghost function Run<E>(c: Config, s: State<E>, actions: seq<Action<E>>): State<E>
    requires LegalRun(c, s, actions)
    decreases |actions|
  {
    if actions == [] then s else Run(c, Apply(c, s, actions[0]), actions[1..])
  }

  lemma {:induction false} RunKeepsInv<E>(c: Config, s: State<E>, actions: seq<Action<E>>)
    requires Inv(c, s) && LegalRun(c, s, actions)
    ensures Inv(c, Run(c, s, actions))
    decreases |actions|
  {
    if actions != [] {
      ApplyKeepsInv(c, s, actions[0]);
      RunKeepsInv(c, Apply(c, s, actions[0]), actions[1..]);
    }
  }

  /** The peers that hold this very event durably. */
  ghost predicate HeldBy<E>(s: State<E>, nodes: set<Node>, sequence: nat)
    requires 1 <= sequence <= |s.log|
  {
    forall n :: n in nodes ==>
      n in s.peers && sequence in s.peers[n].held && s.peers[n].held[sequence] == s.log[sequence - 1]
  }

  /**
  Every event acknowledged to a client and not yet committed is in the origin's log and
  held by peers that satisfy the policy together with the origin: in every run, after any
  crash of the origin and any release it ever sent.
   */
  lemma AcknowledgedIsHeld<E>(c: Config, actions: seq<Action<E>>, sequence: nat)
    requires !c.mode.Local? && LegalRun(c, Start<E>(c), actions)
    requires var s := Run(c, Start<E>(c), actions); sequence in s.published && sequence > s.committed
    ensures var s := Run(c, Start<E>(c), actions);
            && 1 <= sequence <= |s.log|
            && exists holders :: Satisfied(c, {c.origin} + holders) && HeldBy(s, holders, sequence)
  {
    StartInv<E>(c);
    RunKeepsInv(c, Start<E>(c), actions);
    var s := Run(c, Start<E>(c), actions);
    var holders := s.evidence[sequence];
    assert AllAcked(s.acked, holders, sequence);
    assert HeldBy(s, holders, sequence);
  }

  /** Commits are a prefix: every sequence up to the checkpoint had its quorum and was taken downstream. */
  lemma CommittedWasDelivered<E>(c: Config, actions: seq<Action<E>>, sequence: nat)
    requires !c.mode.Local? && LegalRun(c, Start<E>(c), actions)
    requires 1 <= sequence <= Run(c, Start<E>(c), actions).committed
    ensures var s := Run(c, Start<E>(c), actions);
            && sequence <= |s.log| && sequence in s.accepted
            && sequence in s.evidence && Satisfied(c, {c.origin} + s.evidence[sequence])
  {
    StartInv<E>(c);
    RunKeepsInv(c, Start<E>(c), actions);
  }

  /** No peer is ever told to forget an uncommitted record. */
  lemma ReleasedWasCommitted<E>(c: Config, actions: seq<Action<E>>, peer: Node)
    requires LegalRun(c, Start<E>(c), actions) && peer in Run(c, Start<E>(c), actions).peers
    ensures var s := Run(c, Start<E>(c), actions); s.peers[peer].released <= s.committed
  {
    StartInv<E>(c);
    RunKeepsInv(c, Start<E>(c), actions);
  }
}
