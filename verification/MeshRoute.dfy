/** Route ownership in the edge mesh: locality tiers first, rendezvous hashing inside a tier. */
module MeshRoute {
  import opened Sorting
  import opened Wrappers

  datatype Domain = Domain(cloud: string, region: string, zone: string)

  datatype Node = Node(id: string, domain: Domain)

  /** A node's advertisement; `observedAt` is absent until the first successful probe. */
  datatype State = State(node: Node, ready: bool, draining: bool, pressure: real, observedAt: Option<real>)

  datatype PeerStatus = PeerStatus(state: State, healthy: bool, latencyMS: real)

  datatype Candidate = Candidate(node: Node, locality: nat, score: nat, pressure: real, latencyMS: real, isLocal: bool)

  datatype Policy = Locality | Global

  /** `score` is the rendezvous hash of a route key and a node ID. */
  datatype Config = Config(origin: Node, policy: Policy, staleAfter: real, maxPressure: real, score: (string, string) -> nat)

  function LocalityTier(origin: Domain, remote: Domain): (tier: nat)
    ensures tier <= 3
  {
    if origin == remote then 0
    else if origin.cloud == remote.cloud && origin.region != "" && origin.region == remote.region then 1
    else if origin.cloud != "" && origin.cloud == remote.cloud then 2
    else 3
  }

  predicate Eligible(c: Config, state: State, isLocal: bool, now: real) {
    && state.ready && !state.draining && state.pressure < c.maxPressure
    && (isLocal || (state.observedAt.Some? && now - state.observedAt.value <= c.staleAfter))
  }

  function CandidateFor(c: Config, key: string, node: Node, pressure: real, latencyMS: real, isLocal: bool): Candidate {
    Candidate(node, if c.policy.Locality? then LocalityTier(c.origin.domain, node.domain) else 0,
              c.score(key, node.id), pressure, latencyMS, isLocal)
  }

  /** The ranking of `Route`: nearest tier, then highest score, then smallest ID. */
  predicate Before(a: Candidate, b: Candidate) {
    if a.locality != b.locality then a.locality < b.locality
    else if a.score != b.score then a.score > b.score
    else LexLess(a.node.id, b.node.id)
  }

  lemma BeforeIsStrictOrder()
    ensures StrictOrder(Before)
  {
    forall a: Candidate ensures !Before(a, a) {
      LexIrreflexive(a.node.id);
    }
    forall a, b, c | Before(a, b) && Before(b, c)
      ensures Before(a, c)
    {
      if a.locality == b.locality == c.locality && a.score == b.score == c.score {
        LexTransitive(a.node.id, b.node.id, c.node.id);
      }
    }
  }

  /** Node IDs tell candidates apart. */
  ghost predicate UniqueIds(candidates: set<Candidate>) {
    forall a, b :: a in candidates && b in candidates && a.node.id == b.node.id ==> a == b
  }

  lemma BeforeIsTotal(candidates: set<Candidate>)
    requires UniqueIds(candidates)
    ensures TotalOn(Before, candidates)
  {
    forall a, b | a in candidates && b in candidates && a != b
      ensures Before(a, b) || Before(b, a)
    {
      LexTotal(a.node.id, b.node.id);
    }
  }

  // ---------------------------------------------------------------- candidates of a topology view

  predicate Routable(c: Config, status: PeerStatus, now: real) {
    status.healthy && Eligible(c, status.state, false, now)
  }

  function PeerCandidate(c: Config, key: string, status: PeerStatus): Candidate {
    CandidateFor(c, key, status.state.node, status.state.pressure, status.latencyMS, false)
  }

  /** Everyone `Route` considers for a key. */
  function Candidates(c: Config, key: string, self: State, peers: map<string, PeerStatus>, now: real): set<Candidate> {
    (if Eligible(c, self, true, now) then {CandidateFor(c, key, c.origin, self.pressure, 0.0, true)} else {}) +
    (set id | id in peers && Routable(c, peers[id], now) :: PeerCandidate(c, key, peers[id]))
  }

  /** The health map is keyed by node ID, and no peer carries the origin's. */
  predicate WellKeyed(c: Config, peers: map<string, PeerStatus>) {
    forall id :: id in peers ==> peers[id].state.node.id == id && id != c.origin.id
  }

  lemma CandidatesUnique(c: Config, key: string, self: State, peers: map<string, PeerStatus>, now: real)
    requires WellKeyed(c, peers)
    ensures UniqueIds(Candidates(c, key, self, peers, now))
  {
  }

  /** An enumeration of a set, in whatever order a map iteration produces. */
  ghost predicate Enumerates(order: seq<Candidate>, candidates: set<Candidate>) {
    Distinct(order) && Elements(order) == candidates
  }

  /** The peers visited so far. */
  ghost function Visited(peers: map<string, PeerStatus>, ids: seq<string>, k: nat): map<string, PeerStatus>
    requires k <= |ids|
  {
    map id | id in peers && id in ids[..k] :: peers[id]
  }

  lemma VisitOneMore(peers: map<string, PeerStatus>, ids: seq<string>, k: nat)
    requires k < |ids| && Distinct(ids) && Elements(ids) == peers.Keys
    ensures ids[k] in peers && ids[k] !in Visited(peers, ids, k)
    ensures Visited(peers, ids, k + 1) == Visited(peers, ids, k)[ids[k] := peers[ids[k]]]
  {
    assert ids[k] in Elements(ids);
    assert ids[..k + 1] == ids[..k] + [ids[k]];
  }

  lemma VisitedAll(peers: map<string, PeerStatus>, ids: seq<string>)
    requires Elements(ids) == peers.Keys
    ensures Visited(peers, ids, |ids|) == peers
  {
    assert ids[..|ids|] == ids;
    assert forall id :: id in peers ==> id in Elements(ids);
  }

  lemma Grown(candidates: seq<Candidate>, candidate: Candidate)
    requires Distinct(candidates) && candidate !in Elements(candidates)
    ensures Distinct(candidates + [candidate]) && Elements(candidates + [candidate]) == Elements(candidates) + {candidate}
  {
    forall i | 0 <= i < |candidates|
      ensures candidates[i] != candidate
    {
      assert candidates[i] in Elements(candidates);
    }
  }

  /** The candidate slice `Route` builds, with the peer map iterated in the order `ids`. */
  method Collect(c: Config, key: string, self: State, peers: map<string, PeerStatus>, now: real, ids: seq<string>)
    returns (candidates: seq<Candidate>)
    requires WellKeyed(c, peers) && Distinct(ids) && Elements(ids) == peers.Keys
    ensures Enumerates(candidates, Candidates(c, key, self, peers, now))
  {
    candidates := [];
    if Eligible(c, self, true, now) {
      candidates := [CandidateFor(c, key, c.origin, self.pressure, 0.0, true)];
    }
    assert Visited(peers, ids, 0) == map[];
    for i := 0 to |ids|
      invariant Enumerates(candidates, Candidates(c, key, self, Visited(peers, ids, i), now))
    {
      VisitOneMore(peers, ids, i);
      var status := peers[ids[i]];
      PeerAdded(c, key, self, Visited(peers, ids, i), now, ids[i], status);
      if Routable(c, status, now) {
        Grown(candidates, PeerCandidate(c, key, status));
        candidates := candidates + [PeerCandidate(c, key, status)];
      }
    }
    VisitedAll(peers, ids);
  }

  /** `Route` fails exactly when nobody is eligible; otherwise it lists every candidate once, ranked. */
  method Route(c: Config, key: string, self: State, peers: map<string, PeerStatus>, now: real, ids: seq<string>)
    returns (r: Result<seq<Candidate>>)
    requires WellKeyed(c, peers) && Distinct(ids) && Elements(ids) == peers.Keys
    ensures r.Ok? <==> Candidates(c, key, self, peers, now) != {}
    ensures r.Ok? ==> Ranking(c, key, self, peers, now, r.value)
    // It lists exactly the nodes that may be used, the nearer first and within a distance by score.
    ensures r.Err? <==> forall node :: !Usable(c, self, peers, now, node)
    ensures r.Ok? ==> r.value != [] && forall node :: node in NodesOf(r.value) <==> Usable(c, self, peers, now, node)
    ensures r.Ok? ==> forall i, j :: 0 <= i < j < |r.value| ==> RanksAhead(c, key, r.value[i].node, r.value[j].node)
    ensures r.Ok? ==> forall i :: 0 <= i < |r.value| ==> Reports(c, key, self, peers, r.value[i])
  {
    var candidates := Collect(c, key, self, peers, now, ids);
    EligiblesAreUsable(c, self, peers, now);
    if |candidates| == 0 {
      NobodyUsable(c, key, self, peers, now);
      return Err("no healthy mesh route available");
    }
    assert candidates[0] in Elements(candidates);
    CandidatesUnique(c, key, self, peers, now);
    BeforeIsStrictOrder();
    BeforeIsTotal(Elements(candidates));
    SortSorts(Before, candidates);
    var route := Sort(Before, candidates);
    RankingSpelled(c, key, self, peers, now, route);
    assert NodesOf(route)[0] in NodesOf(route);
    RankingReports(c, key, self, peers, now, route);
    return Ok(route);
  }

  /** Bringing in one peer adds its candidate, if it is routable, and nothing else. */
  lemma PeerAdded(c: Config, key: string, self: State, peers: map<string, PeerStatus>, now: real, id: string, status: PeerStatus)
    requires WellKeyed(c, peers) && id !in peers && status.state.node.id == id && id != c.origin.id
    ensures Candidates(c, key, self, peers[id := status], now) ==
              Candidates(c, key, self, peers, now) + (if Routable(c, status, now) then {PeerCandidate(c, key, status)} else {})
    ensures PeerCandidate(c, key, status) !in Candidates(c, key, self, peers, now)
  {
    var more := peers[id := status];
    forall candidate
      ensures candidate in Candidates(c, key, self, more, now) <==>
                candidate in Candidates(c, key, self, peers, now) ||
                (Routable(c, status, now) && candidate == PeerCandidate(c, key, status))
    {
      if other :| other in peers && Routable(c, peers[other], now) && candidate == PeerCandidate(c, key, peers[other]) {
        assert more[other] == peers[other];
      }
      if Routable(c, status, now) && candidate == PeerCandidate(c, key, status) {
        assert more[id] == status;
      }
    }
  }

  // ---------------------------------------------------------------- ownership

  /** The one ranking of a view's candidates: what every iteration order of `Route` returns. */
  ghost predicate Ranking(c: Config, key: string, self: State, peers: map<string, PeerStatus>, now: real, route: seq<Candidate>) {
    Sorted(Before, route) && Elements(route) == Candidates(c, key, self, peers, now)
  }

  /** Two calls of `Route` on one view agree, whatever order the peer map was iterated in. */
  lemma RankingUnique(c: Config, key: string, self: State, peers: map<string, PeerStatus>, now: real, a: seq<Candidate>, b: seq<Candidate>)
    requires Ranking(c, key, self, peers, now, a) && Ranking(c, key, self, peers, now, b)
    ensures a == b
  {
    BeforeIsStrictOrder();
    SortedUnique(Before, a, b);
  }

  // ---------------------------------------------------------------- ownership is a matter of eligible nodes

  /** The nodes a route may use; which they are is all that pressure, probes and the clock decide. */
  ghost function Eligibles(c: Config, self: State, peers: map<string, PeerStatus>, now: real): set<Node> {
    (if Eligible(c, self, true, now) then {c.origin} else {}) +
    (set id | id in peers && Routable(c, peers[id], now) :: peers[id].state.node)
  }

  function NodesOf(route: seq<Candidate>): (nodes: seq<Node>)
    ensures |nodes| == |route|
  {
    seq(|route|, i requires 0 <= i < |route| => route[i].node)
  }

  predicate NodeBefore(c: Config, key: string, a: Node, b: Node) {
    Before(CandidateFor(c, key, a, 0.0, 0.0, false), CandidateFor(c, key, b, 0.0, 0.0, false))
  }

  function Order(c: Config, key: string): (Node, Node) -> bool {
    (a: Node, b: Node) => NodeBefore(c, key, a, b)
  }

  lemma OrderIsStrict(c: Config, key: string)
    ensures StrictOrder(Order(c, key))
  {
    BeforeIsStrictOrder();
    forall x: Node, y: Node, z: Node | Order(c, key)(x, y) && Order(c, key)(y, z)
      ensures Order(c, key)(x, z)
    {
      assert Before(CandidateFor(c, key, x, 0.0, 0.0, false), CandidateFor(c, key, z, 0.0, 0.0, false));
    }
  }

  /** Rank is a property of the node: a candidate's pressure and latency do not enter. */
  ghost predicate RankedAs(c: Config, key: string, candidate: Candidate) {
    candidate == CandidateFor(c, key, candidate.node, candidate.pressure, candidate.latencyMS, candidate.isLocal)
  }

  lemma CandidatesRanked(c: Config, key: string, self: State, peers: map<string, PeerStatus>, now: real, candidate: Candidate)
    requires candidate in Candidates(c, key, self, peers, now)
    ensures RankedAs(c, key, candidate) && candidate.node in Eligibles(c, self, peers, now)
  {
    if id :| id in peers && Routable(c, peers[id], now) && candidate == PeerCandidate(c, key, peers[id]) {
      assert peers[id].state.node in Eligibles(c, self, peers, now);
    }
  }

  lemma EligibleHasCandidate(c: Config, key: string, self: State, peers: map<string, PeerStatus>, now: real, node: Node)
    requires node in Eligibles(c, self, peers, now)
    ensures exists candidate :: candidate in Candidates(c, key, self, peers, now) && candidate.node == node
  {
    if id :| id in peers && Routable(c, peers[id], now) && peers[id].state.node == node {
      assert PeerCandidate(c, key, peers[id]) in Candidates(c, key, self, peers, now);
    } else {
      assert CandidateFor(c, key, c.origin, self.pressure, 0.0, true) in Candidates(c, key, self, peers, now);
    }
  }

  /** A route read as nodes is the eligible nodes in rank order. */
  lemma RankingNodes(c: Config, key: string, self: State, peers: map<string, PeerStatus>, now: real, route: seq<Candidate>)
    requires Ranking(c, key, self, peers, now, route)
    ensures Sorted(Order(c, key), NodesOf(route)) && Elements(NodesOf(route)) == Eligibles(c, self, peers, now)
  {
    forall i, j | 0 <= i < j < |route|
      ensures Order(c, key)(route[i].node, route[j].node)
    {
      assert route[i] in Elements(route) && route[j] in Elements(route);
      CandidatesRanked(c, key, self, peers, now, route[i]);
      CandidatesRanked(c, key, self, peers, now, route[j]);
    }
    forall node
      ensures node in Elements(NodesOf(route)) <==> node in Eligibles(c, self, peers, now)
    {
      RouteVisits(c, key, self, peers, now, route, node);
    }
  }

  lemma RouteVisits(c: Config, key: string, self: State, peers: map<string, PeerStatus>, now: real, route: seq<Candidate>, node: Node)
    requires Ranking(c, key, self, peers, now, route)
    ensures node in NodesOf(route) <==> node in Eligibles(c, self, peers, now)
  {
    if node in NodesOf(route) {
      var i :| 0 <= i < |route| && NodesOf(route)[i] == node;
      assert route[i] in Elements(route);
      CandidatesRanked(c, key, self, peers, now, route[i]);
    }
    if node in Eligibles(c, self, peers, now) {
      EligibleHasCandidate(c, key, self, peers, now, node);
      var candidate :| candidate in Candidates(c, key, self, peers, now) && candidate.node == node;
      assert candidate in Elements(route);
      var i :| 0 <= i < |route| && route[i] == candidate;
      assert NodesOf(route)[i] == node;
    }
  }

  // ---------------------------------------------------------------- the ranking, in the nodes' own fields

  /** The origin when it is ready, not draining and under the pressure limit; a peer when it is healthy and freshly probed too. */
  ghost predicate Usable(c: Config, self: State, peers: map<string, PeerStatus>, now: real, node: Node) {
    || (node == c.origin && self.ready && !self.draining && self.pressure < c.maxPressure)
    || (exists id :: id in peers && peers[id].state.node == node && UsablePeer(c, peers[id], now))
  }

  predicate UsablePeer(c: Config, peer: PeerStatus, now: real) {
    && peer.healthy && peer.state.ready && !peer.state.draining && peer.state.pressure < c.maxPressure
    && peer.state.observedAt.Some? && now <= peer.state.observedAt.value + c.staleAfter
  }

  /**
  What being ahead of `b` says about `a`.  Under the locality policy `a` shares with the
  origin whatever `b` shares: the whole domain, the region of the cloud, the cloud.  Where
  they share the same, and always under the global policy, the higher score is ahead, and on
  equal scores the smaller ID.
   */
  ghost predicate RanksAhead(c: Config, key: string, a: Node, b: Node) {
    var o, p, q := c.origin.domain, a.domain, b.domain;
    var zoneA := p.cloud == o.cloud && p.region == o.region && p.zone == o.zone;
    var zoneB := q.cloud == o.cloud && q.region == o.region && q.zone == o.zone;
    var regionA := p.cloud == o.cloud && p.region == o.region && o.region != "";
    var regionB := q.cloud == o.cloud && q.region == o.region && o.region != "";
    var cloudA := p.cloud == o.cloud && o.cloud != "";
    var cloudB := q.cloud == o.cloud && o.cloud != "";
    && (c.policy.Locality? ==> (zoneB ==> zoneA) && (regionB ==> regionA) && (cloudB ==> cloudA))
    && (c.policy.Global? || (zoneA == zoneB && regionA == regionB && cloudA == cloudB) ==>
          c.score(key, a.id) > c.score(key, b.id) || (c.score(key, a.id) == c.score(key, b.id) && LexLess(a.id, b.id)))
  }

  /** What a candidate tells about its node: its score, its pressure and latency, and whether it is the origin. */
  ghost predicate Reports(c: Config, key: string, self: State, peers: map<string, PeerStatus>, candidate: Candidate) {
    && candidate.score == c.score(key, candidate.node.id)
    && if candidate.isLocal
       then candidate.node == c.origin && candidate.pressure == self.pressure && candidate.latencyMS == 0.0
       else exists id :: id in peers && peers[id].state.node == candidate.node
                         && peers[id].state.pressure == candidate.pressure && peers[id].latencyMS == candidate.latencyMS
  }

  lemma RankingReports(c: Config, key: string, self: State, peers: map<string, PeerStatus>, now: real, route: seq<Candidate>)
    requires Ranking(c, key, self, peers, now, route)
    ensures forall i :: 0 <= i < |route| ==> Reports(c, key, self, peers, route[i])
  {
    forall i | 0 <= i < |route|
      ensures Reports(c, key, self, peers, route[i])
    {
      assert route[i] in Elements(route);
      if id :| id in peers && Routable(c, peers[id], now) && route[i] == PeerCandidate(c, key, peers[id]) {
        assert peers[id].state.node == route[i].node;
      }
    }
  }

  lemma NodeBeforeSpelled(c: Config, key: string, a: Node, b: Node)
    requires NodeBefore(c, key, a, b)
    ensures RanksAhead(c, key, a, b)
  {
  }

  lemma EligiblesAreUsable(c: Config, self: State, peers: map<string, PeerStatus>, now: real)
    ensures forall node :: node in Eligibles(c, self, peers, now) <==> Usable(c, self, peers, now, node)
  {
    forall node
      ensures node in Eligibles(c, self, peers, now) <==> Usable(c, self, peers, now, node)
    {
      if id :| id in peers && peers[id].state.node == node && UsablePeer(c, peers[id], now) {
        assert Routable(c, peers[id], now);
      }
      if id :| id in peers && Routable(c, peers[id], now) && peers[id].state.node == node {
        assert UsablePeer(c, peers[id], now);
      }
    }
  }

  lemma NobodyUsable(c: Config, key: string, self: State, peers: map<string, PeerStatus>, now: real)
    requires Candidates(c, key, self, peers, now) == {}
    ensures forall node :: !Usable(c, self, peers, now, node)
  {
    EligiblesAreUsable(c, self, peers, now);
    forall node | node in Eligibles(c, self, peers, now)
      ensures false
    {
      EligibleHasCandidate(c, key, self, peers, now, node);
    }
  }

  /** Every route lists exactly the usable nodes, each ahead of the next in cloud, region and zone, score and ID. */
  lemma RankingSpelled(c: Config, key: string, self: State, peers: map<string, PeerStatus>, now: real, route: seq<Candidate>)
    requires Ranking(c, key, self, peers, now, route)
    ensures forall node :: node in NodesOf(route) <==> Usable(c, self, peers, now, node)
    ensures forall i, j :: 0 <= i < j < |route| ==> RanksAhead(c, key, route[i].node, route[j].node)
  {
    EligiblesAreUsable(c, self, peers, now);
    RankingNodes(c, key, self, peers, now, route);
    forall node
      ensures node in NodesOf(route) <==> Usable(c, self, peers, now, node)
    {
      RouteVisits(c, key, self, peers, now, route, node);
    }
    forall i, j | 0 <= i < j < |route|
      ensures RanksAhead(c, key, route[i].node, route[j].node)
    {
      assert Order(c, key)(NodesOf(route)[i], NodesOf(route)[j]);
      NodeBeforeSpelled(c, key, route[i].node, route[j].node);
    }
  }

  /**
  The owner of a key: a usable node, as near to the origin as any, and among those as near
  the one with the highest score, or the smallest ID on equal scores.
   */
  lemma OwnerIsNearest(c: Config, key: string, self: State, peers: map<string, PeerStatus>, now: real, route: seq<Candidate>, node: Node)
    requires Ranking(c, key, self, peers, now, route) && Usable(c, self, peers, now, node)
    ensures route != [] && Usable(c, self, peers, now, route[0].node)
    ensures node == route[0].node || RanksAhead(c, key, route[0].node, node)
  {
    RankingSpelled(c, key, self, peers, now, route);
    var i :| 0 <= i < |route| && NodesOf(route)[i] == node;
    assert route[0].node in NodesOf(route) by { assert NodesOf(route)[0] == route[0].node; }
  }

  /** The origin serves its own keys while it is usable, when no peer is as near: here the only peer is in another cloud. */
  lemma OriginBeatsFarPeer(c: Config, key: string, self: State, peer: PeerStatus, now: real, route: seq<Candidate>)
    requires c.policy.Locality? && c.origin.domain == Domain("aws", "us", "a") && peer.state.node.domain == Domain("gcp", "eu", "z")
    requires self.ready && !self.draining && self.pressure < c.maxPressure && UsablePeer(c, peer, now)
    requires Ranking(c, key, self, map[peer.state.node.id := peer], now, route)
    ensures route != [] && route[0].node == c.origin
  {
    var peers := map[peer.state.node.id := peer];
    assert Usable(c, self, peers, now, c.origin);
    OwnerIsNearest(c, key, self, peers, now, route, c.origin);
    assert "gcp"[0] != "aws"[0];
  }

  /** Two views with the same eligible nodes route every key alike, whatever else they disagree on. */
  lemma SameEligiblesSameRoute(c: Config, key: string, self: State, peers: map<string, PeerStatus>, now: real, before: seq<Candidate>,
                               self': State, peers': map<string, PeerStatus>, now': real, after: seq<Candidate>)
    requires Ranking(c, key, self, peers, now, before) && Ranking(c, key, self', peers', now', after)
    requires Eligibles(c, self', peers', now') == Eligibles(c, self, peers, now)
    ensures NodesOf(after) == NodesOf(before)
  {
    RankingNodes(c, key, self, peers, now, before);
    RankingNodes(c, key, self', peers', now', after);
    OrderIsStrict(c, key);
    SortedUnique(Order(c, key), NodesOf(before), NodesOf(after));
  }

  /** A node that becomes eligible only takes keys for itself: without it the route reads as before. */
  lemma JoinTakesOnlyForItself(c: Config, key: string, self: State, peers: map<string, PeerStatus>, now: real, before: seq<Candidate>,
                               self': State, peers': map<string, PeerStatus>, now': real, after: seq<Candidate>, node: Node)
    requires Ranking(c, key, self, peers, now, before) && Ranking(c, key, self', peers', now', after)
    requires node !in Eligibles(c, self, peers, now)
    requires Eligibles(c, self', peers', now') == Eligibles(c, self, peers, now) + {node}
    ensures after != [] && NodesOf(before) == Without(NodesOf(after), node)
    ensures after[0].node != node ==> before != [] && before[0].node == after[0].node
    ensures after[0].node == node ==> NodesOf(before) == NodesOf(after)[1..]
  {
    var less, more := NodesOf(before), NodesOf(after);
    RankingNodes(c, key, self, peers, now, before);
    RankingNodes(c, key, self', peers', now', after);
    assert node in Elements(more);
    OrderIsStrict(c, key);
    WithoutSorted(Order(c, key), more, node);
    assert Elements(more) - {node} == Elements(less);
    SortedUnique(Order(c, key), less, Without(more, node));
    assert more[0] == after[0].node && (more[0] != node ==> less[0] == more[0]);
  }

  /** A node that stops being eligible hands its keys to the next in rank; every other key keeps its owner. */
  lemma LossMovesOnlyItsKeys(c: Config, key: string, self: State, peers: map<string, PeerStatus>, now: real, before: seq<Candidate>,
                             self': State, peers': map<string, PeerStatus>, now': real, after: seq<Candidate>, node: Node)
    requires Ranking(c, key, self, peers, now, before) && Ranking(c, key, self', peers', now', after)
    requires node in Eligibles(c, self, peers, now)
    requires Eligibles(c, self', peers', now') == Eligibles(c, self, peers, now) - {node}
    ensures before != []
    ensures before[0].node == node ==> NodesOf(after) == NodesOf(before)[1..]
    ensures before[0].node != node ==> after != [] && after[0].node == before[0].node
  {
    assert Eligibles(c, self', peers', now') + {node} == Eligibles(c, self, peers, now);
    JoinTakesOnlyForItself(c, key, self', peers', now', after, self, peers, now, before, node);
  }

  // ---------------------------------------------------------------- the ways to become or stop being eligible

  /** Whatever changes about one peer, no other node's eligibility does. */
  lemma PeerEligibility(c: Config, self: State, peers: map<string, PeerStatus>, now: real, id: string, status: PeerStatus)
    requires WellKeyed(c, peers) && status.state.node.id == id && id != c.origin.id
    ensures Eligibles(c, self, peers[id := status], now) ==
              Eligibles(c, self, peers - {id}, now) + (if Routable(c, status, now) then {status.state.node} else {})
    ensures status.state.node !in Eligibles(c, self, peers - {id}, now)
  {
    var changed, rest := peers[id := status], peers - {id};
    forall node
      ensures node in Eligibles(c, self, changed, now) <==>
                node in Eligibles(c, self, rest, now) || (Routable(c, status, now) && node == status.state.node)
    {
      if other :| other in rest && Routable(c, rest[other], now) && rest[other].state.node == node {
        assert changed[other] == rest[other];
      }
      if other :| other in changed && other != id && Routable(c, changed[other], now) && changed[other].state.node == node {
        assert rest[other] == changed[other];
      }
      if Routable(c, status, now) && node == status.state.node {
        assert changed[id] == status;
      }
    }
  }

  /** Whatever changes about the origin, no peer's eligibility does. */
  lemma OriginEligibility(c: Config, self: State, self': State, peers: map<string, PeerStatus>, now: real)
    requires WellKeyed(c, peers)
    ensures Eligible(c, self, true, now) && !Eligible(c, self', true, now) ==>
              c.origin in Eligibles(c, self, peers, now) &&
              Eligibles(c, self', peers, now) == Eligibles(c, self, peers, now) - {c.origin}
    ensures Eligible(c, self, true, now) == Eligible(c, self', true, now) ==>
              Eligibles(c, self', peers, now) == Eligibles(c, self, peers, now)
  {
    assert forall id :: id in peers && Routable(c, peers[id], now) ==> peers[id].state.node != c.origin;
  }

  /** A peer that fails for any reason: it is unready, draining, over pressure, stale, unhealthy or gone. */
  lemma PeerFails(c: Config, key: string, self: State, peers: map<string, PeerStatus>, now: real, id: string, status: PeerStatus,
                  before: seq<Candidate>, after: seq<Candidate>)
    requires WellKeyed(c, peers) && id in peers && Routable(c, peers[id], now)
    requires status.state.node.id == id && !Routable(c, status, now)
    requires Ranking(c, key, self, peers, now, before)
    requires Ranking(c, key, self, peers[id := status], now, after) || Ranking(c, key, self, peers - {id}, now, after)
    ensures before != []
    ensures before[0].node.id == id ==> NodesOf(after) == NodesOf(before)[1..]
    ensures before[0].node.id != id ==> after != [] && after[0].node == before[0].node
  {
    var node := peers[id].state.node;
    assert peers[id := peers[id]] == peers;
    PeerEligibility(c, self, peers, now, id, peers[id]);
    PeerEligibility(c, self, peers, now, id, status);
    var peers' := if Ranking(c, key, self, peers[id := status], now, after) then peers[id := status] else peers - {id};
    assert Eligibles(c, self, peers', now) == Eligibles(c, self, peers, now) - {node};
    LossMovesOnlyItsKeys(c, key, self, peers, now, before, self, peers', now, after, node);
    OwnerByID(c, key, self, peers, now, before, id);
  }

  lemma OwnerByID(c: Config, key: string, self: State, peers: map<string, PeerStatus>, now: real, route: seq<Candidate>, id: string)
    requires WellKeyed(c, peers) && Ranking(c, key, self, peers, now, route) && route != [] && id in peers
    ensures route[0].node.id == id <==> route[0].node == peers[id].state.node
  {
    assert route[0] in Elements(route);
    CandidatesRanked(c, key, self, peers, now, route[0]);
  }

  /** The origin fails over as any other node does, when it is unready, draining or over pressure. */
  lemma OriginFails(c: Config, key: string, self: State, self': State, peers: map<string, PeerStatus>, now: real,
                    before: seq<Candidate>, after: seq<Candidate>)
    requires WellKeyed(c, peers) && Eligible(c, self, true, now) && !Eligible(c, self', true, now)
    requires Ranking(c, key, self, peers, now, before) && Ranking(c, key, self', peers, now, after)
    ensures before != []
    ensures before[0].node == c.origin ==> NodesOf(after) == NodesOf(before)[1..]
    ensures before[0].node != c.origin ==> after != [] && after[0].node == before[0].node
  {
    OriginEligibility(c, self, self', peers, now);
    LossMovesOnlyItsKeys(c, key, self, peers, now, before, self', peers, now, after, c.origin);
  }

  /** A peer that is new, or recovers from whatever it failed of, takes keys for itself only. */
  lemma PeerJoins(c: Config, key: string, self: State, peers: map<string, PeerStatus>, now: real, id: string, status: PeerStatus,
                  before: seq<Candidate>, after: seq<Candidate>)
    requires WellKeyed(c, peers) && (id in peers ==> !Routable(c, peers[id], now))
    requires status.state.node.id == id && id != c.origin.id && Routable(c, status, now)
    requires Ranking(c, key, self, peers, now, before) && Ranking(c, key, self, peers[id := status], now, after)
    ensures after != [] && NodesOf(before) == Without(NodesOf(after), status.state.node)
    ensures after[0].node.id != id ==> before != [] && before[0].node == after[0].node
  {
    if id in peers {
      assert peers[id := peers[id]] == peers;
      PeerEligibility(c, self, peers, now, id, peers[id]);
    } else {
      assert peers - {id} == peers;
    }
    PeerEligibility(c, self, peers, now, id, status);
    JoinTakesOnlyForItself(c, key, self, peers, now, before, self, peers[id := status], now, after, status.state.node);
  }

  /** The origin that becomes eligible again takes keys for itself only. */
  lemma OriginReturns(c: Config, key: string, self: State, self': State, peers: map<string, PeerStatus>, now: real,
                      before: seq<Candidate>, after: seq<Candidate>)
    requires WellKeyed(c, peers) && !Eligible(c, self, true, now) && Eligible(c, self', true, now)
    requires Ranking(c, key, self, peers, now, before) && Ranking(c, key, self', peers, now, after)
    ensures after != [] && NodesOf(before) == Without(NodesOf(after), c.origin)
    ensures after[0].node != c.origin ==> before != [] && before[0].node == after[0].node
  {
    OriginEligibility(c, self', self, peers, now);
    assert Eligibles(c, self, peers, now) + {c.origin} == Eligibles(c, self', peers, now);
    JoinTakesOnlyForItself(c, key, self, peers, now, before, self', peers, now, after, c.origin);
  }

  /** Time only takes peers away: those whose last probe has become too old. */
  lemma TimeOnlyExpires(c: Config, self: State, peers: map<string, PeerStatus>, now: real, now': real)
    requires now <= now'
    ensures Eligibles(c, self, peers, now') <= Eligibles(c, self, peers, now)
    ensures forall id :: id in peers && Routable(c, peers[id], now) ==>
              (Routable(c, peers[id], now') <==> now' - peers[id].state.observedAt.value <= c.staleAfter)
  {
  }

  /** One peer going stale moves only its keys. */
  lemma PeerExpires(c: Config, key: string, self: State, peers: map<string, PeerStatus>, now: real, now': real, id: string,
                    before: seq<Candidate>, after: seq<Candidate>)
    requires WellKeyed(c, peers) && id in peers && now <= now'
    requires Routable(c, peers[id], now) && !Routable(c, peers[id], now')
    requires forall other :: other in peers && other != id ==> Routable(c, peers[other], now') == Routable(c, peers[other], now)
    requires Ranking(c, key, self, peers, now, before) && Ranking(c, key, self, peers, now', after)
    ensures before != []
    ensures before[0].node.id == id ==> NodesOf(after) == NodesOf(before)[1..]
    ensures before[0].node.id != id ==> after != [] && after[0].node == before[0].node
  {
    var node := peers[id].state.node;
    assert node in Eligibles(c, self, peers, now);
    forall other | other in Eligibles(c, self, peers, now) && other != node
      ensures other in Eligibles(c, self, peers, now')
    {
      if i :| i in peers && Routable(c, peers[i], now) && peers[i].state.node == other {
        assert i != id;
        assert peers[i].state.node in Eligibles(c, self, peers, now');
      } else {
        assert other == c.origin && Eligible(c, self, true, now');
      }
    }
    TimeOnlyExpires(c, self, peers, now, now');
    assert node !in Eligibles(c, self, peers, now');
    assert Eligibles(c, self, peers, now') == Eligibles(c, self, peers, now) - {node};
    LossMovesOnlyItsKeys(c, key, self, peers, now, before, self, peers, now', after, node);
    OwnerByID(c, key, self, peers, now, before, id);
  }

  /** Marking a peer unhealthy has the same effect on every route as removing it. */
  lemma UnhealthyIsGone(c: Config, key: string, self: State, peers: map<string, PeerStatus>, now: real, id: string)
    requires WellKeyed(c, peers) && id in peers
    ensures Candidates(c, key, self, peers[id := peers[id].(healthy := false)], now) ==
              Candidates(c, key, self, peers - {id}, now)
  {
    var rest := peers - {id};
    assert rest[id := peers[id].(healthy := false)] == peers[id := peers[id].(healthy := false)];
    PeerAdded(c, key, self, rest, now, id, peers[id].(healthy := false));
  }
}
