/** The multi-cloud fabric as a state machine: what every schedule of offers, faults, healings and deliveries keeps. */
module FabricSpec {
  import opened Sorting
  import opened FabricPlacement

  /** A refused event has no copies; the only reason for refusal is a missing quorum. */
  datatype Event = Event(id: int, accepted: bool, copies: set<string>, delivered: bool, attempts: nat, duplicates: nat, corrupted: bool)

  datatype View = View(nodes: map<string, Node>, quorum: int, target: int, events: seq<Event>)

  datatype Op =
    | Offer(count: int)
    | SetCloud(cloud: string, healthy: bool, writable: bool, partitioned: bool)
    | SetRegion(region: string, healthy: bool, writable: bool, partitioned: bool)
    | SetNodeWritable(id: string, writable: bool)
    | Heal
    | Deliver(ambiguousRetries: int)

  // ---------------------------------------------------------------- operations

  ghost function NewEvent(nodes: map<string, Node>, quorum: int, target: int, id: int): Event {
    var candidates := Candidates(nodes);
    if |Clouds(candidates)| >= quorum
    then Event(id, true, Ids(Placement(candidates, target)), false, 0, 0, false)
    else Event(id, false, {}, false, 0, 0, false)
  }

  ghost function OfferView(v: View, count: int): View
    decreases count
  {
    if count <= 0 then v
    else
      var w := OfferView(v, count - 1);
      w.(events := w.events + [NewEvent(w.nodes, w.quorum, w.target, |w.events| + 1)])
  }

  function Flagged(n: Node, healthy: bool, writable: bool, partitioned: bool): Node {
    n.(healthy := healthy, writable := writable, partitioned := partitioned)
  }

  ghost function FlagCloud(nodes: map<string, Node>, cloud: string, healthy: bool, writable: bool, partitioned: bool): map<string, Node> {
    map id | id in nodes :: if nodes[id].cloud == cloud then Flagged(nodes[id], healthy, writable, partitioned) else nodes[id]
  }

  ghost function FlagRegion(nodes: map<string, Node>, region: string, healthy: bool, writable: bool, partitioned: bool): map<string, Node> {
    map id | id in nodes :: if nodes[id].region == region then Flagged(nodes[id], healthy, writable, partitioned) else nodes[id]
  }

  ghost function FlagNode(nodes: map<string, Node>, node: string, writable: bool): map<string, Node> {
    map id | id in nodes :: if id == node then nodes[id].(writable := writable) else nodes[id]
  }

  ghost function Healed(nodes: map<string, Node>): map<string, Node> {
    map id | id in nodes :: Flagged(nodes[id], true, true, false)
  }

  predicate CanReach(nodes: map<string, Node>, copies: set<string>) {
    exists id :: id in copies && id in nodes && Reachable(nodes[id])
  }

  function Retries(ambiguousRetries: int): nat { if ambiguousRetries < 0 then 0 else ambiguousRetries }

  /** A reachable accepted event is delivered once; lost acknowledgements only add duplicate attempts. */
  function Delivered(nodes: map<string, Node>, e: Event, ambiguousRetries: int): Event {
    if !e.accepted || e.delivered || !CanReach(nodes, e.copies) then e
    else e.(delivered := true, attempts := e.attempts + 1 + Retries(ambiguousRetries),
            duplicates := e.duplicates + Retries(ambiguousRetries))
  }

  ghost function DeliverView(v: View, ambiguousRetries: int): View {
    v.(events := seq(|v.events|, i requires 0 <= i < |v.events| => Delivered(v.nodes, v.events[i], ambiguousRetries)))
  }

  ghost function Step(v: View, op: Op): View {
    match op
    case Offer(count) => OfferView(v, count)
    case SetCloud(cloud, h, w, p) => v.(nodes := FlagCloud(v.nodes, cloud, h, w, p))
    case SetRegion(region, h, w, p) => v.(nodes := FlagRegion(v.nodes, region, h, w, p))
    case SetNodeWritable(id, w) => v.(nodes := FlagNode(v.nodes, id, w))
    case Heal => v.(nodes := Healed(v.nodes))
    case Deliver(retries) => DeliverView(v, retries)
  }

  ghost function Run(v: View, ops: seq<Op>): View {
    if ops == [] then v else Step(Run(v, ops[..|ops| - 1]), ops[|ops| - 1])
  }

  // ---------------------------------------------------------------- invariant

  /** No two copies share a cloud. */
  ghost predicate Apart(nodes: map<string, Node>, copies: set<string>) {
    forall a, b :: a in copies && b in copies && a in nodes && b in nodes && nodes[a].cloud == nodes[b].cloud ==> a == b
  }

  ghost predicate Placed(nodes: map<string, Node>, quorum: int, target: int, copies: set<string>) {
    copies <= nodes.Keys && quorum <= |copies| <= target && Apart(nodes, copies)
  }

  predicate Counted(e: Event) {
    && !e.corrupted
    && if e.delivered then e.attempts == 1 + e.duplicates else e.attempts == e.duplicates == 0
  }

  ghost predicate Sound(nodes: map<string, Node>, quorum: int, target: int, e: Event) {
    && Counted(e)
    && if e.accepted then Placed(nodes, quorum, target, e.copies) else e.copies == {} && !e.delivered
  }

  ghost predicate Inv(v: View) {
    && 1 <= v.quorum <= v.target && Keyed(v.nodes)
    && (forall i :: 0 <= i < |v.events| ==> v.events[i].id == i + 1)
    && (forall i :: 0 <= i < |v.events| ==> Sound(v.nodes, v.quorum, v.target, v.events[i]))
  }

  /** The fault operations change flags only. */
  ghost predicate SameNodes(a: map<string, Node>, b: map<string, Node>) {
    a.Keys == b.Keys && forall id :: id in a ==> a[id].id == b[id].id && a[id].cloud == b[id].cloud && a[id].region == b[id].region && a[id].zone == b[id].zone
  }

  lemma SoundOnSameNodes(a: map<string, Node>, b: map<string, Node>, quorum: int, target: int, e: Event)
    requires SameNodes(a, b) && Sound(a, quorum, target, e)
    ensures Sound(b, quorum, target, e)
  {
  }

  lemma CandidatesUnique(nodes: map<string, Node>)
    requires Keyed(nodes)
    ensures UniqueIds(Candidates(nodes))
  {
  }

  lemma {:induction false} IdsCount(nodes: set<Node>)
    requires UniqueIds(nodes)
    ensures |Ids(nodes)| == |nodes|
    decreases |nodes|
  {
    if nodes != {} {
      var n :| n in nodes;
      IdsCount(nodes - {n});
      assert Ids(nodes) == Ids(nodes - {n}) + {n.id};
      assert n.id !in Ids(nodes - {n});
    }
  }

  lemma PlacementIsThere(nodes: map<string, Node>, target: int, id: string)
    requires Keyed(nodes) && id in Ids(Placement(Candidates(nodes), target))
    ensures id in nodes && Writable(nodes[id]) && nodes[id] in Leaders(Candidates(nodes))
  {
    var n :| n in Placement(Candidates(nodes), target) && n.id == id;
    var key :| key in nodes && Writable(nodes[key]) && nodes[key] == n;
  }

  lemma PlacementApart(nodes: map<string, Node>, target: int)
    requires Keyed(nodes)
    ensures Apart(nodes, Ids(Placement(Candidates(nodes), target)))
  {
    var copies := Ids(Placement(Candidates(nodes), target));
    CandidatesUnique(nodes);
    BeforeOrders(Candidates(nodes));
    LeadersApart(Candidates(nodes));
    forall a, b | a in copies && b in copies && a in nodes && b in nodes && nodes[a].cloud == nodes[b].cloud
      ensures a == b
    {
      PlacementIsThere(nodes, target, a);
      PlacementIsThere(nodes, target, b);
    }
  }

  /** Copies number the smaller of the target and the writable clouds. */
  lemma CopiesCount(nodes: map<string, Node>, target: int)
    requires Keyed(nodes) && target >= 0
    ensures |Ids(Placement(Candidates(nodes), target))| == Min(target, |Clouds(Candidates(nodes))|)
  {
    CandidatesUnique(nodes);
    PlacementCount(Candidates(nodes), target);
    IdsCount(Placement(Candidates(nodes), target));
  }

  lemma NewEventSound(nodes: map<string, Node>, quorum: int, target: int, id: int)
    requires Keyed(nodes) && 1 <= quorum <= target
    ensures Sound(nodes, quorum, target, NewEvent(nodes, quorum, target, id))
  {
    var copies := Ids(Placement(Candidates(nodes), target));
    PlacementApart(nodes, target);
    CopiesCount(nodes, target);
    forall id | id in copies ensures id in nodes { PlacementIsThere(nodes, target, id); }
  }

  lemma {:induction false} OfferKeeps(v: View, count: int)
    requires Inv(v)
    ensures Inv(OfferView(v, count))
    decreases count
  {
    if count > 0 {
      OfferKeeps(v, count - 1);
      var w := OfferView(v, count - 1);
      NewEventSound(w.nodes, w.quorum, w.target, |w.events| + 1);
    }
  }

  // ---------------------------------------------------------------- acceptance, in the nodes' own flags

  /** The clouds with a node that is healthy, writable and not partitioned. */
  ghost function OpenClouds(nodes: map<string, Node>): set<string> {
    set id | id in nodes && nodes[id].healthy && nodes[id].writable && !nodes[id].partitioned :: nodes[id].cloud
  }

  lemma OpenCloudsAreCandidates(nodes: map<string, Node>)
    ensures OpenClouds(nodes) == Clouds(Candidates(nodes))
  {
    forall cloud | cloud in OpenClouds(nodes)
      ensures cloud in Clouds(Candidates(nodes))
    {
      var id :| id in nodes && Writable(nodes[id]) && nodes[id].cloud == cloud;
      assert nodes[id] in Candidates(nodes);
    }
  }

  /** Every copy is on a node that can be written. */
  ghost predicate OnOpenNodes(nodes: map<string, Node>, copies: set<string>) {
    forall id :: id in copies ==> id in nodes && nodes[id].healthy && nodes[id].writable && !nodes[id].partitioned
  }

  /** Some copy is on the cloud. */
  ghost predicate Covers(nodes: map<string, Node>, copies: set<string>, cloud: string) {
    exists id :: id in copies && id in nodes && nodes[id].cloud == cloud
  }

  /** Node `a` has a copy, and node `b` could have had one: it is of the same cloud, or of a cloud without a copy. */
  ghost predicate Preferred(nodes: map<string, Node>, copies: set<string>, a: string, b: string) {
    && a in copies && a in nodes && b in nodes && a != b
    && nodes[b].healthy && nodes[b].writable && !nodes[b].partitioned
    && (nodes[a].cloud == nodes[b].cloud || !Covers(nodes, copies, nodes[b].cloud))
  }

  /** The cloud decides by name; within a cloud, and among the clouds that come last, the smaller ID does. */
  ghost predicate ByPreference(nodes: map<string, Node>, copies: set<string>) {
    forall a, b :: Preferred(nodes, copies, a, b) ==>
      Outranks(nodes[a].cloud, nodes[b].cloud) || (!Outranks(nodes[b].cloud, nodes[a].cloud) && LexLess(a, b))
  }

  lemma PlacementByPreference(nodes: map<string, Node>, target: int)
    requires Keyed(nodes)
    ensures ByPreference(nodes, Ids(Placement(Candidates(nodes), target)))
  {
    var candidates := Candidates(nodes);
    var placed := Placement(candidates, target);
    var copies := Ids(placed);
    CandidatesUnique(nodes);
    forall a, b | Preferred(nodes, copies, a, b)
      ensures Outranks(nodes[a].cloud, nodes[b].cloud) || (!Outranks(nodes[b].cloud, nodes[a].cloud) && LexLess(a, b))
    {
      PlacementIsThere(nodes, target, a);
      var n :| n in placed && n.id == a;
      assert n == nodes[a] && nodes[b] in candidates;
      if nodes[b].cloud in Clouds(placed) {
        var m :| m in placed && m.cloud == nodes[b].cloud;
        assert m.id in copies && m.id in nodes && nodes[m.id] == m;
      }
      ChosenComesFirst(candidates, target, nodes[a], nodes[b]);
      BeforeByName(nodes[a], nodes[b]);
    }
  }

  /** What an offer makes of an event, given the flags of the nodes. */
  ghost predicate Rightly(nodes: map<string, Node>, quorum: int, target: int, e: Event) {
    && (e.accepted <==> |OpenClouds(nodes)| >= quorum)
    && (e.accepted ==> |e.copies| == Min(target, |OpenClouds(nodes)|))
    && (!e.accepted ==> e.copies == {})
    && OnOpenNodes(nodes, e.copies) && Apart(nodes, e.copies) && ByPreference(nodes, e.copies)
    && !e.delivered && e.attempts == e.duplicates == 0 && !e.corrupted
  }

  lemma NewEventRightly(nodes: map<string, Node>, quorum: int, target: int, id: int)
    requires Keyed(nodes) && 1 <= quorum <= target
    ensures Rightly(nodes, quorum, target, NewEvent(nodes, quorum, target, id))
  {
    var copies := Ids(Placement(Candidates(nodes), target));
    OpenCloudsAreCandidates(nodes);
    CopiesCount(nodes, target);
    PlacementApart(nodes, target);
    PlacementByPreference(nodes, target);
    forall id | id in copies
      ensures id in nodes && nodes[id].healthy && nodes[id].writable && !nodes[id].partitioned
    {
      PlacementIsThere(nodes, target, id);
    }
  }

  /** Whether an offered event is accepted depends only on how many clouds are writable; an accepted one gets its copies on as many of them as the target allows. */
  lemma {:induction false} AcceptedExactlyAtQuorum(v: View, count: int, i: nat)
    requires Inv(v) && |v.events| <= i < |OfferView(v, count).events|
    ensures var e := OfferView(v, count).events[i];
            e.id == i + 1 && Rightly(v.nodes, v.quorum, v.target, e)
    decreases count
  {
    if count > 0 {
      var w := OfferView(v, count - 1);
      OfferConfig(v, count - 1);
      if i < |w.events| {
        AcceptedExactlyAtQuorum(v, count - 1, i);
      } else {
        NewEventRightly(v.nodes, v.quorum, v.target, i + 1);
      }
    }
  }

  /** An offer leaves the nodes and the earlier events alone and appends one event per offered one. */
  lemma {:induction false} OfferAppends(v: View, count: int)
    ensures var w := OfferView(v, count);
            w.nodes == v.nodes && v.events <= w.events && |w.events| == |v.events| + if count > 0 then count else 0
    decreases count
  {
    if count > 0 {
      OfferAppends(v, count - 1);
    }
  }

  // ---------------------------------------------------------------- a cloud that cannot be written

  /** The operation makes a node of the cloud writable. */
  ghost predicate Opens(nodes: map<string, Node>, op: Op, cloud: string) {
    match op
    case SetCloud(name, _, writable, _) => name == cloud && writable
    case SetRegion(region, _, writable, _) => writable && exists id :: id in nodes && nodes[id].cloud == cloud && nodes[id].region == region
    case SetNodeWritable(id, writable) => writable && id in nodes && nodes[id].cloud == cloud
    case Heal => true
    case _ => false
  }

  ghost predicate Closed(nodes: map<string, Node>, cloud: string) {
    forall id :: id in nodes && nodes[id].cloud == cloud ==> !nodes[id].writable
  }

  lemma StepKeepsNodes(v: View, op: Op)
    ensures SameNodes(v.nodes, Step(v, op).nodes)
  {
    if op.Offer? {
      OfferConfig(v, op.count);
    }
  }

  lemma StepKeepsClosed(v: View, op: Op, cloud: string)
    requires Closed(v.nodes, cloud) && !Opens(v.nodes, op, cloud)
    ensures Closed(Step(v, op).nodes, cloud)
  {
    if op.Offer? {
      OfferConfig(v, op.count);
    }
  }

  lemma OpensOnSameNodes(a: map<string, Node>, b: map<string, Node>, op: Op, cloud: string)
    requires SameNodes(a, b) && Opens(b, op, cloud)
    ensures Opens(a, op, cloud)
  {
    if op.SetRegion? {
      var id :| id in b && b[id].cloud == cloud && b[id].region == op.region;
      assert id in a && a[id].cloud == cloud && a[id].region == op.region;
    }
  }

  lemma {:induction false} RunKeepsClosed(v: View, ops: seq<Op>, cloud: string)
    requires Closed(v.nodes, cloud) && forall k :: 0 <= k < |ops| ==> !Opens(v.nodes, ops[k], cloud)
    ensures SameNodes(v.nodes, Run(v, ops).nodes) && Closed(Run(v, ops).nodes, cloud)
  {
    if ops != [] {
      var u, op := Run(v, ops[..|ops| - 1]), ops[|ops| - 1];
      RunKeepsClosed(v, ops[..|ops| - 1], cloud);
      if Opens(u.nodes, op, cloud) {
        OpensOnSameNodes(v.nodes, u.nodes, op, cloud);
      }
      StepKeepsClosed(u, op, cloud);
      StepKeepsNodes(u, op);
    }
  }

  /** The copies of event `i` avoid the cloud. */
  ghost predicate Avoids(nodes: map<string, Node>, e: Event, cloud: string) {
    forall id :: id in e.copies ==> id in nodes && nodes[id].cloud != cloud
  }

  /** While no node of a cloud is writable, no later event gets a copy on it until some operation makes a node of it writable. */
  lemma {:induction false} ClosedCloudGetsNothing(v: View, ops: seq<Op>, cloud: string, i: nat)
    requires Inv(v) && Closed(v.nodes, cloud) && forall k :: 0 <= k < |ops| ==> !Opens(v.nodes, ops[k], cloud)
    requires |v.events| <= i < |Run(v, ops).events|
    ensures Avoids(v.nodes, Run(v, ops).events[i], cloud)
  {
    if ops != [] {
      var earlier, op := ops[..|ops| - 1], ops[|ops| - 1];
      var u := Run(v, earlier);
      RunKeeps(v, earlier);
      RunKeepsClosed(v, earlier, cloud);
      if i < |u.events| {
        ClosedCloudGetsNothing(v, earlier, cloud, i);
        StepExtends(u, op);
        assert Continues(u.events[i], Run(v, ops).events[i]);
      } else {
        AcceptedExactlyAtQuorum(u, op.count, i);
      }
    }
  }

  /** Setting a cloud unwritable is enough, whatever its other flags. */
  lemma SetCloudShutsOut(v: View, cloud: string, healthy: bool, partitioned: bool, ops: seq<Op>, i: nat)
    requires Inv(v) && forall k :: 0 <= k < |ops| ==> !Opens(v.nodes, ops[k], cloud)
    requires |v.events| <= i < |Run(Step(v, SetCloud(cloud, healthy, false, partitioned)), ops).events|
    ensures Avoids(v.nodes, Run(Step(v, SetCloud(cloud, healthy, false, partitioned)), ops).events[i], cloud)
  {
    var op := SetCloud(cloud, healthy, false, partitioned);
    var u := Step(v, op);
    StepKeeps(v, op);
    StepKeepsNodes(v, op);
    forall k | 0 <= k < |ops|
      ensures !Opens(u.nodes, ops[k], cloud)
    {
      if Opens(u.nodes, ops[k], cloud) {
        OpensOnSameNodes(v.nodes, u.nodes, ops[k], cloud);
      }
    }
    ClosedCloudGetsNothing(u, ops, cloud, i);
  }

  // ---------------------------------------------------------------- a schedule below the quorum

  function DefaultNode(id: string, cloud: string, region: string, zone: string): Node {
    Node(id, cloud, region, zone, true, true, false)
  }

  /** The topology the fault schedules start from. */
  function DefaultTopology(): map<string, Node> {
    map["edge-aws-us-west-2" := DefaultNode("edge-aws-us-west-2", "aws", "us-west-2", "us-west-2a"),
        "edge-gcp-us-central1" := DefaultNode("edge-gcp-us-central1", "gcp", "us-central1", "us-central1-a"),
        "edge-azure-westus2" := DefaultNode("edge-azure-westus2", "azure", "westus2", "1"),
        "edge-bare-denver" := DefaultNode("edge-bare-denver", "bare-metal", "denver", "dc1")]
  }

  /** With only one cloud left to write to, the next event is refused. */
  lemma CapacityExhausted()
    ensures var v := View(DefaultTopology(), 2, 3, []);
            var closed := Run(v, [SetCloud("aws", true, false, false), SetCloud("gcp", true, false, false), SetCloud("bare-metal", true, false, false)]);
            var w := Step(closed, Offer(1));
            Inv(v) && |w.events| == 1 && !w.events[0].accepted && w.events[0].copies == {}
  {
    var v := View(DefaultTopology(), 2, 3, []);
    var a, b, c := SetCloud("aws", true, false, false), SetCloud("gcp", true, false, false), SetCloud("bare-metal", true, false, false);
    TopologyClouds();
    RunKeeps(v, [a, b, c]);
    var closed := Run(v, [a, b, c]);
    RunThree(v, a, b, c);
    OnlyAzureIsOpen(v.nodes, "edge-azure-westus2");
    OfferAppends(closed, 1);
    AcceptedExactlyAtQuorum(closed, 1, 0);
  }

  lemma RunThree(v: View, a: Op, b: Op, c: Op)
    ensures Run(v, [a, b, c]) == Step(Step(Step(v, a), b), c)
  {
    RunSnoc(v, [], a);
    RunSnoc(v, [a], b);
    RunSnoc(v, [a, b], c);
    assert [] + [a] == [a] && [a] + [b] == [a, b] && [a, b] + [c] == [a, b, c];
  }

  lemma RunSnoc(v: View, ops: seq<Op>, op: Op)
    ensures Run(v, ops + [op]) == Step(Run(v, ops), op)
  {
    assert (ops + [op])[..|ops|] == ops;
  }

  lemma OnlyAzureIsOpen(whole: map<string, Node>, id: string)
    requires forall id :: id in whole ==> whole[id].cloud in ["aws", "gcp", "azure", "bare-metal"]
    requires id in whole && Writable(whole[id]) && whole[id].cloud == "azure"
    ensures var nodes := FlagCloud(FlagCloud(FlagCloud(whole, "aws", true, false, false), "gcp", true, false, false), "bare-metal", true, false, false);
            OpenClouds(nodes) == {"azure"}
  {
    var noAws := FlagCloud(whole, "aws", true, false, false);
    var noGcp := FlagCloud(noAws, "gcp", true, false, false);
    var nodes := FlagCloud(noGcp, "bare-metal", true, false, false);
    forall id | id in nodes && nodes[id].writable
      ensures nodes[id].cloud == "azure"
    {
      assert noGcp[id].cloud == noAws[id].cloud == whole[id].cloud;
    }
    assert noAws[id] == noGcp[id] == nodes[id] == whole[id];
  }

  lemma TopologyClouds()
    ensures var whole := DefaultTopology();
            && Keyed(whole) && "edge-azure-westus2" in whole && whole["edge-azure-westus2"].cloud == "azure"
            && (forall id :: id in whole ==> whole[id].cloud in ["aws", "gcp", "azure", "bare-metal"] && Writable(whole[id]))
  {
    assert |"edge-aws-us-west-2"| == |"edge-azure-westus2"| == 18 && "edge-aws-us-west-2"[6] == 'w' && "edge-azure-westus2"[6] == 'z';
    assert |"edge-gcp-us-central1"| == 20 && |"edge-bare-denver"| == 16;
  }

  lemma FlagsKeep(v: View, nodes: map<string, Node>)
    requires Inv(v) && SameNodes(v.nodes, nodes)
    ensures Inv(v.(nodes := nodes))
  {
    forall i | 0 <= i < |v.events|
      ensures Sound(nodes, v.quorum, v.target, v.events[i])
    {
      SoundOnSameNodes(v.nodes, nodes, v.quorum, v.target, v.events[i]);
    }
  }

  lemma SetCloudKeeps(v: View, cloud: string, healthy: bool, writable: bool, partitioned: bool)
    requires Inv(v)
    ensures Inv(v.(nodes := FlagCloud(v.nodes, cloud, healthy, writable, partitioned)))
  {
    FlagsKeep(v, FlagCloud(v.nodes, cloud, healthy, writable, partitioned));
  }

  lemma SetRegionKeeps(v: View, region: string, healthy: bool, writable: bool, partitioned: bool)
    requires Inv(v)
    ensures Inv(v.(nodes := FlagRegion(v.nodes, region, healthy, writable, partitioned)))
  {
    FlagsKeep(v, FlagRegion(v.nodes, region, healthy, writable, partitioned));
  }

  lemma DeliverKeeps(v: View, ambiguousRetries: int)
    requires Inv(v)
    ensures Inv(DeliverView(v, ambiguousRetries))
  {
    var w := DeliverView(v, ambiguousRetries);
    forall i | 0 <= i < |w.events|
      ensures w.events[i].id == i + 1 && Sound(w.nodes, w.quorum, w.target, w.events[i])
    {
      DeliveredSound(v.nodes, v.quorum, v.target, v.events[i], ambiguousRetries);
    }
  }

  lemma DeliveredSound(nodes: map<string, Node>, quorum: int, target: int, e: Event, ambiguousRetries: int)
    requires Sound(nodes, quorum, target, e)
    ensures Sound(nodes, quorum, target, Delivered(nodes, e, ambiguousRetries)) && Delivered(nodes, e, ambiguousRetries).id == e.id
  {
  }

  lemma StepKeeps(v: View, op: Op)
    requires Inv(v)
    ensures Inv(Step(v, op))
  {
    match op
    case Offer(count) => OfferKeeps(v, count);
    case SetCloud(cloud, h, w, p) => SetCloudKeeps(v, cloud, h, w, p);
    case SetRegion(region, h, w, p) => SetRegionKeeps(v, region, h, w, p);
    case SetNodeWritable(id, w) => FlagsKeep(v, FlagNode(v.nodes, id, w));
    case Heal => FlagsKeep(v, Healed(v.nodes));
    case Deliver(retries) => DeliverKeeps(v, retries);
  }

  /** Every schedule keeps the invariant. */
  lemma {:induction false} RunKeeps(v: View, ops: seq<Op>)
    requires Inv(v)
    ensures Inv(Run(v, ops))
  {
    if ops != [] {
      RunKeeps(v, ops[..|ops| - 1]);
      StepKeeps(Run(v, ops[..|ops| - 1]), ops[|ops| - 1]);
    }
  }

  // ---------------------------------------------------------------- what a run never takes back

  ghost predicate Continues(e: Event, f: Event) {
    f.id == e.id && f.accepted == e.accepted && f.copies == e.copies && (e.delivered ==> f == e)
  }

  /** Events stay where they are; acceptance and copies are final, and so is delivery. */
  ghost predicate Extends(v: View, w: View) {
    |v.events| <= |w.events| && forall i :: 0 <= i < |v.events| ==> Continues(v.events[i], w.events[i])
  }

  lemma {:induction false} OfferExtends(v: View, count: int)
    ensures Extends(v, OfferView(v, count))
    decreases count
  {
    if count > 0 {
      OfferExtends(v, count - 1);
    }
  }

  lemma ExtendsTrans(u: View, v: View, w: View)
    requires Extends(u, v) && Extends(v, w)
    ensures Extends(u, w)
  {
    forall i | 0 <= i < |u.events| ensures Continues(u.events[i], w.events[i]) {
      assert Continues(u.events[i], v.events[i]) && Continues(v.events[i], w.events[i]);
    }
  }

  lemma StepExtends(v: View, op: Op)
    ensures Extends(v, Step(v, op))
  {
    if op.Offer? {
      OfferExtends(v, op.count);
    }
  }

  lemma {:induction false} RunExtends(v: View, ops: seq<Op>)
    ensures Extends(v, Run(v, ops))
  {
    if ops != [] {
      var u := Run(v, ops[..|ops| - 1]);
      RunExtends(v, ops[..|ops| - 1]);
      StepExtends(u, ops[|ops| - 1]);
      ExtendsTrans(v, u, Run(v, ops));
    }
  }

  // ---------------------------------------------------------------- accounting

  datatype Fate = Refused | Done | Retained | Lost

  predicate Stored(nodes: map<string, Node>, copies: set<string>) { exists id :: id in copies && id in nodes }

  function FateOf(nodes: map<string, Node>, e: Event): Fate {
    if !e.accepted then Refused else if e.delivered then Done else if Stored(nodes, e.copies) then Retained else Lost
  }

  /** How many of the first `k` events met a fate. */
  function Count(nodes: map<string, Node>, events: seq<Event>, k: nat, fate: Fate): nat
    requires k <= |events|
  {
    if k == 0 then 0 else Count(nodes, events, k - 1, fate) + if FateOf(nodes, events[k - 1]) == fate then 1 else 0
  }

  function Corrupted(events: seq<Event>, k: nat): nat
    requires k <= |events|
  {
    if k == 0 then 0 else Corrupted(events, k - 1) + if events[k - 1].accepted && events[k - 1].corrupted then 1 else 0
  }

  ghost function Total(v: View, fate: Fate): nat { Count(v.nodes, v.events, |v.events|, fate) }

  lemma {:induction false} FatesAddUp(nodes: map<string, Node>, events: seq<Event>, k: nat)
    requires k <= |events|
    ensures Count(nodes, events, k, Refused) + Count(nodes, events, k, Done) + Count(nodes, events, k, Retained) + Count(nodes, events, k, Lost) == k
  {
    if k > 0 {
      FatesAddUp(nodes, events, k - 1);
    }
  }

  lemma {:induction false} NoneMet(nodes: map<string, Node>, events: seq<Event>, k: nat, fate: Fate)
    requires k <= |events| && forall i :: 0 <= i < k ==> FateOf(nodes, events[i]) != fate
    ensures Count(nodes, events, k, fate) == 0
  {
    if k > 0 {
      NoneMet(nodes, events, k - 1, fate);
    }
  }

  lemma {:induction false} NoneCorrupted(events: seq<Event>, k: nat)
    requires k <= |events| && forall i :: 0 <= i < k ==> Counted(events[i])
    ensures Corrupted(events, k) == 0
  {
    if k > 0 {
      NoneCorrupted(events, k - 1);
    }
  }

  lemma AcceptedIsStored(nodes: map<string, Node>, quorum: int, target: int, e: Event)
    requires quorum >= 1 && Sound(nodes, quorum, target, e) && e.accepted
    ensures Stored(nodes, e.copies)
  {
    assert e.copies != {};
    var id :| id in e.copies;
    assert id in nodes;
  }

  /** Every offered event is refused, delivered or still stored; none is lost or corrupted. */
  lemma Conservation(v: View)
    requires Inv(v)
    ensures |v.events| == Total(v, Refused) + Total(v, Done) + Total(v, Retained)
    ensures Total(v, Lost) == 0 && Corrupted(v.events, |v.events|) == 0
  {
    forall i | 0 <= i < |v.events|
      ensures FateOf(v.nodes, v.events[i]) != Lost && Counted(v.events[i])
    {
      assert Sound(v.nodes, v.quorum, v.target, v.events[i]);
      if v.events[i].accepted {
        AcceptedIsStored(v.nodes, v.quorum, v.target, v.events[i]);
      }
    }
    FatesAddUp(v.nodes, v.events, |v.events|);
    NoneMet(v.nodes, v.events, |v.events|, Lost);
    NoneCorrupted(v.events, |v.events|);
  }

  /** Nothing is lost in any schedule. */
  lemma RunConserves(v: View, ops: seq<Op>)
    requires Inv(v)
    ensures var w := Run(v, ops);
            && |w.events| == Total(w, Refused) + Total(w, Done) + Total(w, Retained)
            && Total(w, Lost) == 0 && Corrupted(w.events, |w.events|) == 0
  {
    RunKeeps(v, ops);
    Conservation(Run(v, ops));
  }

  // ---------------------------------------------------------------- delivery

  ghost predicate AllDelivered(v: View) {
    forall i :: 0 <= i < |v.events| && v.events[i].accepted ==> v.events[i].delivered
  }

  lemma DrainedMeansNoneRetained(v: View)
    requires AllDelivered(v)
    ensures Total(v, Retained) == 0 && Total(v, Lost) == 0
  {
    NoneMet(v.nodes, v.events, |v.events|, Retained);
    NoneMet(v.nodes, v.events, |v.events|, Lost);
  }

  /** After any schedule, healing every node and delivering drains everything accepted. */
  lemma HealThenDeliverDrains(v: View, ops: seq<Op>, ambiguousRetries: int)
    requires Inv(v)
    ensures var w := Step(Step(Run(v, ops), Heal), Deliver(ambiguousRetries));
            AllDelivered(w) && Total(w, Retained) == 0 && Total(w, Lost) == 0
  {
    RunKeeps(v, ops);
    var u := Run(v, ops);
    var h := Step(u, Heal);
    StepKeeps(u, Heal);
    var w := Step(h, Deliver(ambiguousRetries));
    forall i | 0 <= i < |w.events| && w.events[i].accepted
      ensures w.events[i].delivered
    {
      AcceptedIsStored(h.nodes, h.quorum, h.target, h.events[i]);
      var id :| id in h.events[i].copies && id in h.nodes;
      assert Reachable(h.nodes[id]);
    }
    DrainedMeansNoneRetained(w);
  }

  /** Some copy is on a healthy node that is not partitioned. */
  ghost predicate ReachableCopy(nodes: map<string, Node>, copies: set<string>) {
    exists id :: id in copies && id in nodes && nodes[id].healthy && !nodes[id].partitioned
  }

  /** What a delivery makes of an event `e`: an accepted one with a reachable copy is delivered once, any other stays as it is. */
  ghost predicate AsDelivered(nodes: map<string, Node>, e: Event, ambiguousRetries: int, f: Event) {
    if e.accepted && !e.delivered && ReachableCopy(nodes, e.copies)
    then f.delivered && f.duplicates == e.duplicates + (if ambiguousRetries > 0 then ambiguousRetries else 0)
         && f.attempts - e.attempts == 1 + f.duplicates - e.duplicates
         && f.id == e.id && f.accepted && f.copies == e.copies && f.corrupted == e.corrupted
    else f == e
  }

  lemma DeliveredSpelled(nodes: map<string, Node>, e: Event, ambiguousRetries: int)
    ensures AsDelivered(nodes, e, ambiguousRetries, Delivered(nodes, e, ambiguousRetries))
  {
    assert ReachableCopy(nodes, e.copies) <==> CanReach(nodes, e.copies);
  }

  /** The clouds with a node that cannot be reached. */
  ghost function Down(nodes: map<string, Node>): set<string> {
    set id | id in nodes && !Reachable(nodes[id]) :: nodes[id].cloud
  }

  ghost function CloudsOf(nodes: map<string, Node>, copies: set<string>): set<string>
    requires copies <= nodes.Keys
  {
    set id | id in copies :: nodes[id].cloud
  }

  lemma {:induction false} ApartClouds(nodes: map<string, Node>, copies: set<string>)
    requires copies <= nodes.Keys && Apart(nodes, copies)
    ensures |CloudsOf(nodes, copies)| == |copies|
    decreases |copies|
  {
    if copies != {} {
      var id :| id in copies;
      ApartClouds(nodes, copies - {id});
      assert CloudsOf(nodes, copies) == CloudsOf(nodes, copies - {id}) + {nodes[id].cloud};
      assert nodes[id].cloud !in CloudsOf(nodes, copies - {id});
    }
  }

  /** With fewer clouds down than an event has copies, some copy is reachable. */
  lemma SurvivesFewerClouds(nodes: map<string, Node>, copies: set<string>)
    requires copies <= nodes.Keys && Apart(nodes, copies) && |Down(nodes)| < |copies|
    ensures CanReach(nodes, copies)
  {
    ApartClouds(nodes, copies);
    if CloudsOf(nodes, copies) <= Down(nodes) {
      SubsetCount(CloudsOf(nodes, copies), Down(nodes));
    } else {
      var cloud :| cloud in CloudsOf(nodes, copies) && cloud !in Down(nodes);
      var id :| id in copies && nodes[id].cloud == cloud;
      assert Reachable(nodes[id]);
    }
  }

  /** The nodes after every node of some clouds has become unhealthy. */
  ghost function Faulted(nodes: map<string, Node>, clouds: set<string>): map<string, Node> {
    map id | id in nodes :: if nodes[id].cloud in clouds then Flagged(nodes[id], false, true, false) else nodes[id]
  }

  /** One fault operation per cloud takes a set of clouds down. */
  lemma {:induction false} TakeDown(v: View, clouds: set<string>) returns (ops: seq<Op>)
    ensures |ops| == |clouds| && (forall i :: 0 <= i < |ops| ==> ops[i].SetCloud?)
    ensures Run(v, ops) == v.(nodes := Faulted(v.nodes, clouds))
    decreases |clouds|
  {
    if clouds == {} {
      ops := [];
      assert Faulted(v.nodes, {}) == v.nodes;
    } else {
      var cloud :| cloud in clouds;
      var fewer := TakeDown(v, clouds - {cloud});
      var last := SetCloud(cloud, false, true, false);
      ops := fewer + [last];
      assert ops[..|ops| - 1] == fewer;
      TakeDownOne(v.nodes, clouds, cloud);
    }
  }

  lemma TakeDownOne(nodes: map<string, Node>, clouds: set<string>, cloud: string)
    requires cloud in clouds
    ensures FlagCloud(Faulted(nodes, clouds - {cloud}), cloud, false, true, false) == Faulted(nodes, clouds)
  {
  }

  lemma {:induction false} RunAfter(v: View, a: seq<Op>, b: seq<Op>)
    ensures Run(v, a + b) == Run(Run(v, a), b)
  {
    if b == [] {
      assert a + b == a;
    } else {
      RunAfter(v, a, b[..|b| - 1]);
      assert (a + b)[..|a + b| - 1] == a + b[..|b| - 1];
    }
  }

  lemma DownIsTakenDown(nodes: map<string, Node>, clouds: set<string>)
    requires (forall id :: id in nodes ==> Reachable(nodes[id])) && forall cloud :: cloud in clouds ==> exists id :: id in nodes && nodes[id].cloud == cloud
    ensures Down(Faulted(nodes, clouds)) == clouds
  {
    var down := Faulted(nodes, clouds);
    forall cloud | cloud in clouds
      ensures cloud in Down(down)
    {
      var id :| id in nodes && nodes[id].cloud == cloud;
      assert id in down && !Reachable(down[id]) && down[id].cloud == cloud;
    }
  }

  /** That bound is tight: after healing, faults in as many clouds as the event has copies keep the next delivery from it. */
  lemma AllItsCloudsDown(v: View, i: nat, ambiguousRetries: int) returns (ops: seq<Op>)
    requires Inv(v) && i < |v.events| && v.events[i].accepted && !v.events[i].delivered
    ensures |ops| == |v.events[i].copies| && forall k :: 0 <= k < |ops| ==> ops[k].SetCloud?
    ensures var u := Run(v, [Heal] + ops);
            && u.events == v.events && |Down(u.nodes)| == |v.events[i].copies|
            && !Step(u, Deliver(ambiguousRetries)).events[i].delivered
  {
    var copies, healed := v.events[i].copies, Healed(v.nodes);
    assert Sound(v.nodes, v.quorum, v.target, v.events[i]);
    var clouds := CloudsOf(v.nodes, copies);
    ApartClouds(v.nodes, copies);
    var h := v.(nodes := healed);
    ops := TakeDown(h, clouds);
    RunAfter(v, [Heal], ops);
    assert Run(v, [Heal]) == h by { assert [Heal][..0] == []; }
    forall cloud | cloud in clouds
      ensures exists id :: id in healed && healed[id].cloud == cloud
    {
      var id :| id in copies && v.nodes[id].cloud == cloud;
      assert id in healed && healed[id].cloud == cloud;
    }
    DownIsTakenDown(healed, clouds);
    CopiesUnreachable(v.nodes, copies);
  }

  lemma CopiesUnreachable(nodes: map<string, Node>, copies: set<string>)
    requires copies <= nodes.Keys
    ensures !CanReach(Faulted(Healed(nodes), CloudsOf(nodes, copies)), copies)
  {
    var down := Faulted(Healed(nodes), CloudsOf(nodes, copies));
    forall id | id in copies
      ensures !Reachable(down[id])
    {
      assert nodes[id].cloud in CloudsOf(nodes, copies);
    }
  }

  /** Over any schedule: an accepted event is delivered by the next delivery when fewer clouds are down than it has copies. */
  lemma DeliveredDespiteFaults(v: View, ops: seq<Op>, i: nat, ambiguousRetries: int)
    requires Inv(v) && i < |Run(v, ops).events| && Run(v, ops).events[i].accepted
    requires |Down(Run(v, ops).nodes)| < |Run(v, ops).events[i].copies|
    ensures Step(Run(v, ops), Deliver(ambiguousRetries)).events[i].delivered
  {
    RunKeeps(v, ops);
    var u := Run(v, ops);
    assert Sound(u.nodes, u.quorum, u.target, u.events[i]);
    SurvivesFewerClouds(u.nodes, u.events[i].copies);
  }

  /** Fewer clouds down than the quorum never stop a delivery. */
  lemma QuorumSurvives(v: View, ops: seq<Op>, ambiguousRetries: int)
    requires Inv(v) && |Down(Run(v, ops).nodes)| < v.quorum
    ensures AllDelivered(Step(Run(v, ops), Deliver(ambiguousRetries)))
  {
    RunKeeps(v, ops);
    RunConfig(v, ops);
    var u := Run(v, ops);
    forall i | 0 <= i < |u.events| && u.events[i].accepted
      ensures Step(u, Deliver(ambiguousRetries)).events[i].delivered
    {
      assert Sound(u.nodes, u.quorum, u.target, u.events[i]);
      DeliveredDespiteFaults(v, ops, i, ambiguousRetries);
    }
  }

  lemma {:induction false} OfferConfig(v: View, count: int)
    ensures OfferView(v, count).quorum == v.quorum && OfferView(v, count).target == v.target && OfferView(v, count).nodes == v.nodes
    decreases count
  {
    if count > 0 {
      OfferConfig(v, count - 1);
    }
  }

  lemma {:induction false} RunConfig(v: View, ops: seq<Op>)
    ensures Run(v, ops).quorum == v.quorum && Run(v, ops).target == v.target
  {
    if ops != [] {
      RunConfig(v, ops[..|ops| - 1]);
      if ops[|ops| - 1].Offer? {
        OfferConfig(Run(v, ops[..|ops| - 1]), ops[|ops| - 1].count);
      }
    }
  }
}
