/** The replication policy: which acknowledgements make a record durable, and the calls that enforce it. */
module Quorum {
  import opened Text
  import opened Wrappers

  datatype Domain = Domain(cloud: string, region: string, zone: string)

  datatype Node = Node(id: string, url: string, domain: Domain)

  datatype Mode = Unset | Local | Regional | CrossRegion | CrossCloud

  datatype Config = Config(origin: Node, peers: seq<Node>, mode: Mode, quorum: int, token: string)

  datatype Verdict = Verdict(ackCount: nat, satisfied: bool)

  function Normalized(config: Config): (c: Config)
    ensures !c.mode.Unset?
  {
    var mode := if config.mode.Unset? then Local else config.mode;
    config.(mode := mode, quorum := if config.quorum != 0 then config.quorum else if mode.Local? then 1 else 2)
  }

  // ---------------------------------------------------------------- meaning of the policy

  /** Regional durability only counts acknowledgements from the origin's own region. */
  predicate Counts(c: Config, node: Node) {
    !Blank(node.id) && (c.mode.Regional? ==> node.domain.region == c.origin.domain.region)
  }

  function CountedIds(c: Config, nodes: set<Node>): set<string> {
    set n | n in nodes && Counts(c, n) :: n.id
  }

  /** The failure domain a mode protects against. */
  function Place(c: Config, node: Node): string {
    match c.mode
    case Regional => node.domain.zone
    case CrossRegion => node.domain.region
    case _ => node.domain.cloud
  }

  /** Two counted nodes that a single failure of the mode's domain cannot take together. */
  predicate Apart(c: Config, a: Node, b: Node) {
    Counts(c, a) && Counts(c, b) && Place(c, a) != "" && Place(c, b) != "" && Place(c, a) != Place(c, b)
  }

  /** A set of acknowledging nodes is enough: a quorum of nodes, two of them apart unless the mode is local. */
  ghost predicate Satisfied(c: Config, nodes: set<Node>) {
    && |CountedIds(c, nodes)| >= c.quorum
    && (c.mode.Local? || exists a, b :: a in nodes && b in nodes && Apart(c, a, b))
  }

  lemma SubsetCardinality<T>(a: set<T>, b: set<T>)
    requires a <= b
    ensures |a| <= |b|
  {
    if x :| x in a {
      SubsetCardinality(a - {x}, b - {x});
    }
  }

  /** More acknowledgements never hurt. */
  lemma SatisfiedMonotone(c: Config, fewer: set<Node>, more: set<Node>)
    requires fewer <= more && Satisfied(c, fewer)
    ensures Satisfied(c, more)
  {
    assert CountedIds(c, fewer) <= CountedIds(c, more);
    SubsetCardinality(CountedIds(c, fewer), CountedIds(c, more));
  }

  /** Outside local mode one node alone is never durable, whatever the quorum. */
  lemma OriginAloneNeverSatisfies(c: Config)
    requires !c.mode.Local? && !c.mode.Unset?
    ensures !Satisfied(c, {c.origin})
  {
  }

  /** Both nodes carry an ID, as acknowledgements that count must. */
  predicate Named(a: Node, b: Node) { !Blank(a.id) && !Blank(b.id) }

  /** Two known places, and not the same one. */
  predicate Differ(x: string, y: string) { x != "" && y != "" && x != y }

  /** The policy of each mode, in the nodes' own fields. */
  lemma SatisfiedMeans(c: Config, nodes: set<Node>)
    requires !c.mode.Unset?
    ensures Satisfied(c, nodes) ==>
              |set n | n in nodes && !Blank(n.id) && (c.mode.Regional? ==> n.domain.region == c.origin.domain.region) :: n.id| >= c.quorum
    ensures c.mode.Local? && |set n | n in nodes && !Blank(n.id) :: n.id| >= c.quorum ==> Satisfied(c, nodes)
    ensures c.mode.CrossCloud? ==>
              (Satisfied(c, nodes) <==>
                 && |set n | n in nodes && !Blank(n.id) :: n.id| >= c.quorum
                 && exists a, b :: a in nodes && b in nodes && Named(a, b) && Differ(a.domain.cloud, b.domain.cloud))
    ensures c.mode.CrossRegion? ==>
              (Satisfied(c, nodes) <==>
                 && |set n | n in nodes && !Blank(n.id) :: n.id| >= c.quorum
                 && exists a, b :: a in nodes && b in nodes && Named(a, b) && Differ(a.domain.region, b.domain.region))
    ensures c.mode.Regional? ==>
              (Satisfied(c, nodes) <==>
                 && |set n | n in nodes && !Blank(n.id) && n.domain.region == c.origin.domain.region :: n.id| >= c.quorum
                 && exists a, b :: a in nodes && b in nodes && Named(a, b) && Differ(a.domain.zone, b.domain.zone)
                      && a.domain.region == b.domain.region == c.origin.domain.region)
  {
    CountedSpelled(c, nodes);
    if a, b :| a in nodes && b in nodes && Apart(c, a, b) {
      assert Named(a, b);
    }
    if a, b :| a in nodes && b in nodes && Named(a, b) && Counts(c, a) && Counts(c, b) && Differ(Place(c, a), Place(c, b)) {
      assert Apart(c, a, b);
    }
  }

  lemma CountedSpelled(c: Config, nodes: set<Node>)
    ensures CountedIds(c, nodes) ==
              set n | n in nodes && !Blank(n.id) && (c.mode.Regional? ==> n.domain.region == c.origin.domain.region) :: n.id
    ensures !c.mode.Regional? ==> CountedIds(c, nodes) == set n | n in nodes && !Blank(n.id) :: n.id
    ensures c.mode.Regional? ==>
              CountedIds(c, nodes) == set n | n in nodes && !Blank(n.id) && n.domain.region == c.origin.domain.region :: n.id
  {
  }

  // ---------------------------------------------------------------- evaluate

  lemma AtLeastTwo<T>(s: set<T>)
    ensures |s| >= 2 <==> exists x, y :: x in s && y in s && x != y
  {
    if |s| >= 2 {
      var x :| x in s;
      assert |s - {x}| >= 1;
      var y :| y in s - {x};
    }
    if x, y :| x in s && y in s && x != y {
      SubsetCardinality({x, y}, s);
    }
  }

  function Clouds(c: Config, nodes: set<Node>): set<string> {
    set n | n in nodes && Counts(c, n) && n.domain.cloud != "" :: n.domain.cloud
  }

  function Regions(c: Config, nodes: set<Node>): set<string> {
    set n | n in nodes && Counts(c, n) && n.domain.region != "" :: n.domain.region
  }

  function OriginZones(c: Config, nodes: set<Node>): set<string> {
    set n | n in nodes && Counts(c, n) && n.domain.region == c.origin.domain.region && n.domain.zone != "" :: n.domain.zone
  }

  /** The failure domains the acknowledgements cover. */
  function Places(c: Config, nodes: set<Node>): set<string> {
    set n | n in nodes && Counts(c, n) && Place(c, n) != "" :: Place(c, n)
  }

  /** Counting domains finds exactly the pairs of nodes that are apart. */
  lemma PlacesMeanApart(c: Config, nodes: set<Node>)
    ensures |Places(c, nodes)| >= 2 <==> exists a, b :: a in nodes && b in nodes && Apart(c, a, b)
  {
    AtLeastTwo(Places(c, nodes));
    if |Places(c, nodes)| >= 2 {
      var x, y :| x in Places(c, nodes) && y in Places(c, nodes) && x != y;
      var a :| a in nodes && Counts(c, a) && Place(c, a) == x;
      var b :| b in nodes && Counts(c, b) && Place(c, b) == y;
      assert Apart(c, a, b);
    }
    if a, b :| a in nodes && b in nodes && Apart(c, a, b) {
      assert Place(c, a) in Places(c, nodes) && Place(c, b) in Places(c, nodes);
    }
  }

  ghost function NodesOf(acks: seq<Node>): set<Node> {
    set n | n in acks
  }

  /** The loop of `evaluate` over the acknowledgements. */
  method Tally(c: Config, acks: seq<Node>)
    returns (ids: set<string>, clouds: set<string>, regions: set<string>, zones: set<string>)
    ensures ids == CountedIds(c, NodesOf(acks)) && clouds == Clouds(c, NodesOf(acks))
    ensures regions == Regions(c, NodesOf(acks)) && zones == OriginZones(c, NodesOf(acks))
  {
    ids, clouds, regions, zones := {}, {}, {}, {};
    for k := 0 to |acks|
      invariant ids == CountedIds(c, NodesOf(acks[..k])) && clouds == Clouds(c, NodesOf(acks[..k]))
      invariant regions == Regions(c, NodesOf(acks[..k])) && zones == OriginZones(c, NodesOf(acks[..k]))
    {
      var node := acks[k];
      assert NodesOf(acks[..k + 1]) == NodesOf(acks[..k]) + {node};
      if Blank(node.id) { continue; }
      if c.mode.Regional? && node.domain.region != c.origin.domain.region { continue; }
      ids := ids + {node.id};
      if node.domain.cloud != "" {
        clouds := clouds + {node.domain.cloud};
      }
      if node.domain.region != "" {
        regions := regions + {node.domain.region};
      }
      if node.domain.region == c.origin.domain.region && node.domain.zone != "" {
        zones := zones + {node.domain.zone};
      }
    }
    assert acks[..|acks|] == acks;
  }

  method Evaluate(config: Config, acks: seq<Node>) returns (verdict: Verdict)
    ensures verdict.ackCount == |CountedIds(Normalized(config), NodesOf(acks))|
    ensures verdict.satisfied <==> Satisfied(Normalized(config), NodesOf(acks))
  {
    var c := Normalized(config);
    var nodes, clouds, regions, sameRegionZones := Tally(c, acks);
    if |nodes| < c.quorum { return Verdict(|nodes|, false); }
    PlacesMeanApart(c, NodesOf(acks));
    assert c.mode.Regional? ==> sameRegionZones == Places(c, NodesOf(acks));
    assert c.mode.CrossRegion? ==> regions == Places(c, NodesOf(acks));
    assert c.mode.CrossCloud? ==> clouds == Places(c, NodesOf(acks));
    match c.mode {
      case Local => return Verdict(|nodes|, true);
      case Regional => return Verdict(|nodes|, |sameRegionZones| >= 2);
      case CrossRegion => return Verdict(|nodes|, |regions| >= 2);
      case CrossCloud => return Verdict(|nodes|, |clouds| >= 2);
    }
  }

  // ---------------------------------------------------------------- manager

  /** `Config.Validate`, on a normalized configuration. */
  predicate Acceptable(c: Config) {
    && !Blank(c.origin.id)
    && (c.mode.Regional? ==> !Blank(c.origin.domain.region) && !Blank(c.origin.domain.zone))
    && (c.mode.CrossRegion? ==> !Blank(c.origin.domain.region))
    && (c.mode.CrossCloud? ==> !Blank(c.origin.domain.cloud))
    && 1 <= c.quorum <= |c.peers| + 1
    && (c.mode.Local? || !Blank(c.token))
    && (forall i :: 0 <= i < |c.peers| ==> !Blank(c.peers[i].id) && !Blank(c.peers[i].url) && c.peers[i].id != c.origin.id)
    && (forall i, j :: 0 <= i < j < |c.peers| ==> c.peers[i].id != c.peers[j].id)
  }

  /** Startup rejects exactly the topologies that no set of its peers could ever satisfy. */
  method NewManager(config: Config) returns (r: Result<Config>)
    ensures r.Ok? ==> r.value == Normalized(config)
    // An unset mode is local; an unset quorum is one in local mode and two in any other.
    ensures r.Ok? ==> r.value.origin == config.origin && r.value.peers == config.peers
    ensures r.Ok? ==> r.value.mode == if config.mode.Unset? then Local else config.mode
    ensures r.Ok? ==> r.value.quorum == if config.quorum != 0 then config.quorum else if r.value.mode.Local? then 1 else 2
    ensures r.Ok? ==>
              && !Blank(config.origin.id) && 1 <= r.value.quorum <= |config.peers| + 1 && (r.value.mode.Local? || !Blank(config.token))
              && (forall i :: 0 <= i < |config.peers| ==>
                    !Blank(config.peers[i].id) && !Blank(config.peers[i].url) && config.peers[i].id != config.origin.id)
              && (forall i, j :: 0 <= i < j < |config.peers| ==> config.peers[i].id != config.peers[j].id)
    ensures r.Ok? <==>
              && Acceptable(Normalized(config))
              && exists acks :: acks <= NodesOf(config.peers) && Satisfied(Normalized(config), {config.origin} + acks)
  {
    var c := Normalized(config);
    if !Acceptable(c) { return Err("invalid replication config"); }
    var possible := Evaluate(c, [c.origin] + c.peers);
    assert NodesOf([c.origin] + c.peers) == {c.origin} + NodesOf(c.peers);
    forall acks | acks <= NodesOf(c.peers) && Satisfied(c, {c.origin} + acks)
      ensures possible.satisfied
    {
      SatisfiedMonotone(c, {c.origin} + acks, {c.origin} + NodesOf(c.peers));
    }
    if !possible.satisfied { return Err("configured replication topology cannot satisfy durability"); }
    return Ok(c);
  }

  /** What the receive loop of `Replicate` sees next: a peer's acknowledgement, a peer's error, or the deadline. */
  datatype Arrival = Acked(node: Node) | Failed | Deadline

  /** The nodes that acknowledged before the deadline. */
  ghost function Heard(arrivals: seq<Arrival>): set<Node> {
    if arrivals == [] || arrivals[0].Deadline? then {}
    else (if arrivals[0].Acked? then {arrivals[0].node} else {}) + Heard(arrivals[1..])
  }

  /**
  `Replicate` on a normalized configuration; `arrivals` is what each of the per-peer
  receives yields.  Outside local mode it succeeds exactly when the origin together with
  the peers heard in time satisfies the policy.
   */
  method Replicate(c: Config, arrivals: seq<Arrival>) returns (ok: bool, acks: seq<Node>)
    requires Normalized(c) == c && |arrivals| == |c.peers|
    ensures {c.origin} <= NodesOf(acks) <= {c.origin} + Heard(arrivals)
    ensures c.mode.Local? ==> ok && acks == [c.origin]
    ensures !c.mode.Local? && ok ==> Satisfied(c, NodesOf(acks))
    ensures !c.mode.Local? ==> (ok <==> Satisfied(c, {c.origin} + Heard(arrivals)))
  {
    acks := [c.origin];
    if c.mode.Local? {
      return true, acks;
    }
    OriginAloneNeverSatisfies(c);
    assert NodesOf(acks) == {c.origin};
    for k := 0 to |arrivals|
      invariant c.origin in acks
      invariant {c.origin} + Heard(arrivals) == NodesOf(acks) + Heard(arrivals[k..])
      invariant !Satisfied(c, NodesOf(acks))
    {
      var arrival := arrivals[k];
      if arrival.Deadline? {
        assert {c.origin} + Heard(arrivals) == NodesOf(acks);
        return false, acks;
      }
      if arrival.Acked? {
        assert NodesOf(acks + [arrival.node]) == NodesOf(acks) + {arrival.node};
        acks := acks + [arrival.node];
        var verdict := Evaluate(c, acks);
        if verdict.satisfied {
          SatisfiedMonotone(c, NodesOf(acks), {c.origin} + Heard(arrivals));
          return true, acks;
        }
      }
    }
    assert {c.origin} + Heard(arrivals) == NodesOf(acks);
    return false, acks;
  }

  /** A local configuration with a quorum of two passes startup, and then every record is reported durable on the origin alone. */
  method LocalQuorumOfTwo() returns (c: Config, accepted: bool, ok: bool, acks: seq<Node>)
    ensures c.mode.Local? && c.quorum == 2 && accepted && ok
    ensures !Satisfied(c, NodesOf(acks))
  {
    var nowhere := Domain("", "", "");
    var origin, peer := Node("a", "", nowhere), Node("b", "url", nowhere);
    c := Config(origin, [peer], Local, 2, "");
    assert !IsSpace('a') && !IsSpace('b') && !IsSpace('u');
    assert !Blank("a") && !Blank("b") && !Blank("url") by { assert "a"[0] == 'a' && "b"[0] == 'b' && "url"[0] == 'u'; }
    assert CountedIds(c, {origin} + {peer}) == {"a", "b"};
    assert {peer} <= NodesOf(c.peers) && Satisfied(c, {origin} + {peer});
    var startup := NewManager(c);
    accepted := startup.Ok?;
    ok, acks := Replicate(c, [Failed]);
    assert NodesOf(acks) == {origin};
    LocalModeHonestIffQuorumOne(c);
  }

  /** Local mode answers success without the test: it is honest exactly when one node is quorum enough. */
  lemma LocalModeHonestIffQuorumOne(c: Config)
    requires c.mode.Local? && Acceptable(c)
    ensures Satisfied(c, {c.origin}) <==> c.quorum <= 1
  {
    assert CountedIds(c, {c.origin}) == {c.origin.id};
  }
}
