/** The multi-cloud fabric's in-memory state and the operations that change it. */
module Fabric {
  import opened Wrappers
  import opened Text
  import opened Sorting
  import opened FabricPlacement
  import opened FabricSpec

  // ---------------------------------------------------------------- construction

  predicate Named(n: Node) { !Blank(n.id) && !Blank(n.cloud) }

  /** A topology is acceptable when every node is named and no ID repeats. */
  ghost predicate Acceptable(nodes: seq<Node>, k: nat)
    requires k <= |nodes|
  {
    (forall i :: 0 <= i < k ==> Named(nodes[i])) && forall i, j :: 0 <= i < j < k ==> nodes[i].id != nodes[j].id
  }

  /** The node table, or the first thing wrong with the request. */
  method Index(nodes: seq<Node>, quorum: int, copyTarget: int) returns (r: Result<map<string, Node>>)
    ensures r.Ok? <==> quorum >= 1 && copyTarget >= quorum && Acceptable(nodes, |nodes|)
    ensures r.Ok? ==> Keyed(r.value) && forall n :: n in nodes <==> n.id in r.value && r.value[n.id] == n
  {
    if quorum < 1 {
      return Err("quorum must be positive");
    }
    if copyTarget < quorum {
      return Err("copy target must be at least quorum");
    }
    var m: map<string, Node> := map[];
    for i := 0 to |nodes|
      invariant Acceptable(nodes, i) && Keyed(m)
      invariant forall j :: 0 <= j < i ==> nodes[j].id in m && m[nodes[j].id] == nodes[j]
      invariant forall id :: id in m ==> exists j :: 0 <= j < i && nodes[j] == m[id]
    {
      var n := nodes[i];
      if Blank(n.id) || Blank(n.cloud) {
        return Err("node id and cloud are required");
      }
      if n.id in m {
        return Err("duplicate node " + n.id);
      }
      m := m[n.id := n];
    }
    r := Ok(m);
  }

  // ---------------------------------------------------------------- placement

  /** The writable nodes in preference order, however the node table is iterated. */
  method WritableCandidates(nodes: map<string, Node>) returns (out: seq<Node>)
    requires Keyed(nodes)
    ensures Ordered(out) && Elements(out) == Candidates(nodes)
    ensures forall n :: n in out <==> n.id in nodes && nodes[n.id] == n && n.healthy && n.writable && !n.partitioned
    ensures forall i, j :: 0 <= i < j < |out| ==>
              Outranks(out[i].cloud, out[j].cloud) || (!Outranks(out[j].cloud, out[i].cloud) && LexLess(out[i].id, out[j].id))
  {
    var found: seq<Node> := [];
    var rest := nodes.Keys;
    while rest != {}
      invariant rest <= nodes.Keys
      invariant Distinct(found) && Elements(found) == Candidates(map id | id in nodes && id !in rest :: nodes[id])
      decreases |rest|
    {
      var id :| id in rest;
      CandidatesWithout(nodes, rest, id);
      if Writable(nodes[id]) {
        Grown(found, nodes[id]);
        found := found + [nodes[id]];
      }
      rest := rest - {id};
    }
    assert (map id | id in nodes && id !in rest :: nodes[id]) == nodes;
    CandidatesUnique(nodes);
    BeforeOrders(Candidates(nodes));
    SortSorts(Before, found);
    out := Sort(Before, found);
    CandidatesSpelled(nodes, out);
  }

  lemma CandidatesSpelled(nodes: map<string, Node>, out: seq<Node>)
    requires Keyed(nodes) && Ordered(out) && Elements(out) == Candidates(nodes)
    ensures forall n :: n in out <==> n.id in nodes && nodes[n.id] == n && n.healthy && n.writable && !n.partitioned
    ensures forall i, j :: 0 <= i < j < |out| ==>
              Outranks(out[i].cloud, out[j].cloud) || (!Outranks(out[j].cloud, out[i].cloud) && LexLess(out[i].id, out[j].id))
  {
    forall n
      ensures n in out <==> n.id in nodes && nodes[n.id] == n && n.healthy && n.writable && !n.partitioned
    {
      assert n in out <==> n in Elements(out);
    }
    forall i, j | 0 <= i < j < |out|
      ensures Outranks(out[i].cloud, out[j].cloud) || (!Outranks(out[j].cloud, out[i].cloud) && LexLess(out[i].id, out[j].id))
    {
      BeforeByName(out[i], out[j]);
    }
  }

  lemma CandidatesWithout(nodes: map<string, Node>, rest: set<string>, id: string)
    requires Keyed(nodes) && rest <= nodes.Keys && id in rest
    ensures var before := Candidates(map k | k in nodes && k !in rest :: nodes[k]);
            var after := Candidates(map k | k in nodes && k !in rest - {id} :: nodes[k]);
            nodes[id] !in before && after == if Writable(nodes[id]) then before + {nodes[id]} else before
  {
    var m := map k | k in nodes && k !in rest :: nodes[k];
    var m' := map k | k in nodes && k !in rest - {id} :: nodes[k];
    assert m' == m[id := nodes[id]];
    CandidatesInsert(m, nodes[id]);
  }

  lemma CandidatesInsert(m: map<string, Node>, n: Node)
    requires Keyed(m) && n.id !in m
    ensures n !in Candidates(m)
    ensures Candidates(m[n.id := n]) == if Writable(n) then Candidates(m) + {n} else Candidates(m)
  {
    var m' := m[n.id := n];
    forall x | x in Candidates(m)
      ensures x in Candidates(m')
    {
      var k :| k in m && Writable(m[k]) && m[k] == x;
      assert m'[k] == x;
    }
    assert m'[n.id] == n;
  }

  lemma Grown(s: seq<Node>, n: Node)
    requires Distinct(s) && n !in Elements(s)
    ensures Distinct(s + [n]) && Elements(s + [n]) == Elements(s) + {n}
  {
    forall i | 0 <= i < |s|
      ensures s[i] != n
    {
      assert s[i] in Elements(s);
    }
  }

  lemma IdsAdd(nodes: set<Node>, n: Node)
    ensures Ids(nodes + {n}) == Ids(nodes) + {n.id}
  {
  }

  /** The nodes taken among the first `k` candidates: each from a cloud not taken before. */
  ghost function Taken(order: seq<Node>, k: nat): set<Node>
    requires k <= |order|
  {
    if k == 0 then {}
    else if order[k - 1].cloud in Clouds(Taken(order, k - 1)) then Taken(order, k - 1)
    else Taken(order, k - 1) + {order[k - 1]}
  }

  /** In preference order these are the leaders of their clouds. */
  lemma {:induction false} TakenIsScanned(order: seq<Node>, k: nat)
    requires k <= |order| && Ordered(order)
    ensures Taken(order, k) == Scanned(order, k)
  {
    if k > 0 {
      TakenIsScanned(order, k - 1);
      ScanByCloud(order, k - 1);
    }
  }

  lemma ScanByCloud(order: seq<Node>, k: nat)
    requires k < |order| && Ordered(order)
    ensures Scanned(order, k + 1) ==
            if order[k].cloud in Clouds(Scanned(order, k)) then Scanned(order, k) else Scanned(order, k) + {order[k]}
  {
    ScannedClouds(order, k);
    LeadsIffFirst(order, k);
    ScanOne(order, k);
  }

  /** The scan over the candidates: it stops at the end or once the target is met. */
  method Choose(order: seq<Node>, target: int) returns (copies: set<string>, distinct: set<string>, ghost stop: nat)
    requires target >= 0
    ensures stop <= |order| && copies == Ids(Taken(order, stop)) && distinct == Clouds(Taken(order, stop))
    ensures |copies| <= target && (stop < |order| ==> |copies| == target)
  {
    copies, distinct := {}, {};
    var k := 0;
    while k < |order| && |copies| < target
      invariant 0 <= k <= |order| && |copies| <= target
      invariant copies == Ids(Taken(order, k)) && distinct == Clouds(Taken(order, k))
    {
      IdsAdd(Taken(order, k), order[k]);
      CloudsAdd(Taken(order, k), order[k]);
      if order[k].cloud !in distinct {
        copies := copies + {order[k].id};
        distinct := distinct + {order[k].cloud};
      }
      k := k + 1;
    }
    stop := k;
  }

  lemma ChosenIsPlacement(order: seq<Node>, stop: nat, target: int)
    requires stop <= |order| && Ordered(order)
    requires |Ids(Taken(order, stop))| <= target && (stop < |order| ==> |Ids(Taken(order, stop))| == target)
    ensures Taken(order, stop) == Placement(Elements(order), target)
    ensures |Clouds(Taken(order, stop))| == Min(target, |Clouds(Elements(order))|)
  {
    TakenIsScanned(order, stop);
    IdsCount(Scanned(order, stop));
    StoppedIsPlacement(order, stop, target);
    PlacementCount(Elements(order), target);
    BeforeOrders(Elements(order));
    LeadersApart(Elements(order));
    ApartCount(Scanned(order, stop));
  }

  /** The durable copies of a new event, and on how many clouds they are. */
  method Place(nodes: map<string, Node>, target: int) returns (copies: set<string>, clouds: nat)
    requires Keyed(nodes) && target >= 0
    ensures copies == Ids(Placement(Candidates(nodes), target))
    ensures clouds == Min(target, |Clouds(Candidates(nodes))|)
    ensures |copies| == clouds == Min(target, |OpenClouds(nodes)|)
    ensures OnOpenNodes(nodes, copies) && FabricSpec.Apart(nodes, copies) && ByPreference(nodes, copies)
  {
    CopiesSpelled(nodes, target);
    var order := WritableCandidates(nodes);
    var chosen, distinct, stop := Choose(order, target);
    ChosenIsPlacement(order, stop, target);
    copies, clouds := chosen, |distinct|;
  }

  lemma CopiesSpelled(nodes: map<string, Node>, target: int)
    requires Keyed(nodes) && target >= 0
    ensures var copies := Ids(Placement(Candidates(nodes), target));
            && |copies| == Min(target, |OpenClouds(nodes)|) == Min(target, |Clouds(Candidates(nodes))|)
            && OnOpenNodes(nodes, copies) && FabricSpec.Apart(nodes, copies) && ByPreference(nodes, copies)
  {
    CopiesCount(nodes, target);
    OpenCloudsAreCandidates(nodes);
    PlacementApart(nodes, target);
    PlacementByPreference(nodes, target);
    forall id | id in Ids(Placement(Candidates(nodes), target))
      ensures id in nodes && nodes[id].healthy && nodes[id].writable && !nodes[id].partitioned
    {
      PlacementIsThere(nodes, target, id);
    }
  }

  // ---------------------------------------------------------------- faults

  /** Sets the three flags of every node that matches. */
  method FlagWhere(nodes: map<string, Node>, hit: Node -> bool, healthy: bool, writable: bool, partitioned: bool) returns (r: map<string, Node>)
    ensures r == map id | id in nodes :: if hit(nodes[id]) then Flagged(nodes[id], healthy, writable, partitioned) else nodes[id]
  {
    r := nodes;
    var rest := nodes.Keys;
    while rest != {}
      invariant rest <= nodes.Keys && r.Keys == nodes.Keys
      invariant forall id :: id in nodes ==>
        r[id] == if id !in rest && hit(nodes[id]) then Flagged(nodes[id], healthy, writable, partitioned) else nodes[id]
      decreases |rest|
    {
      var id :| id in rest;
      if hit(r[id]) {
        r := r[id := Flagged(r[id], healthy, writable, partitioned)];
      }
      rest := rest - {id};
    }
  }

  method FlagNodesOfCloud(nodes: map<string, Node>, cloud: string, healthy: bool, writable: bool, partitioned: bool) returns (r: map<string, Node>)
    ensures r == FlagCloud(nodes, cloud, healthy, writable, partitioned)
  {
    r := FlagWhere(nodes, (n: Node) => n.cloud == cloud, healthy, writable, partitioned);
  }

  method FlagNodesOfRegion(nodes: map<string, Node>, region: string, healthy: bool, writable: bool, partitioned: bool) returns (r: map<string, Node>)
    ensures r == FlagRegion(nodes, region, healthy, writable, partitioned)
  {
    r := FlagWhere(nodes, (n: Node) => n.region == region, healthy, writable, partitioned);
  }

  // ---------------------------------------------------------------- delivery

  method FindReachable(nodes: map<string, Node>, copies: set<string>) returns (reachable: bool)
    ensures reachable <==> CanReach(nodes, copies)
  {
    var rest := copies;
    while rest != {}
      invariant rest <= copies
      invariant forall id :: id in copies - rest ==> !(id in nodes && Reachable(nodes[id]))
      decreases |rest|
    {
      var id :| id in rest;
      if id in nodes && Reachable(nodes[id]) {
        return true;
      }
      rest := rest - {id};
    }
    return false;
  }

  method DeliverEvent(nodes: map<string, Node>, e: Event, ambiguousRetries: int) returns (r: Event)
    ensures r == Delivered(nodes, e, ambiguousRetries)
    ensures AsDelivered(nodes, e, ambiguousRetries, r)
  {
    DeliveredSpelled(nodes, e, ambiguousRetries);
    r := e;
    if !e.accepted || e.delivered {
      return;
    }
    var reachable := FindReachable(nodes, e.copies);
    if !reachable {
      return;
    }
    r := r.(attempts := r.attempts + 1, delivered := true);
    var i := 0;
    while i < ambiguousRetries
      invariant 0 <= i <= Retries(ambiguousRetries)
      invariant r == e.(delivered := true, attempts := e.attempts + 1 + i, duplicates := e.duplicates + i)
    {
      r := r.(attempts := r.attempts + 1, duplicates := r.duplicates + 1);
      i := i + 1;
    }
  }

  // ---------------------------------------------------------------- accounting

  datatype Accounting = Accounting(offered: int, accepted: int, rejected: int, deliveredUnique: int, retained: int,
                                   duplicateAttempts: int, lost: int, corrupted: int, unaccounted: int)

  function Duplicates(events: seq<Event>, k: nat): nat
    requires k <= |events|
  {
    if k == 0 then 0 else Duplicates(events, k - 1) + if events[k - 1].accepted then events[k - 1].duplicates else 0
  }

  method FindStored(nodes: map<string, Node>, copies: set<string>) returns (stored: bool)
    ensures stored <==> Stored(nodes, copies)
  {
    var rest := copies;
    while rest != {}
      invariant rest <= copies
      invariant forall id :: id in copies - rest ==> id !in nodes
      decreases |rest|
    {
      var id :| id in rest;
      if id in nodes {
        return true;
      }
      rest := rest - {id};
    }
    return false;
  }

  /** Each counter is the number of events that met that fate, and no event escapes the count. */
  method Account(nodes: map<string, Node>, events: seq<Event>) returns (a: Accounting)
    ensures a.offered == |events| == a.accepted + a.rejected
    ensures a.rejected == Count(nodes, events, |events|, Refused) && a.deliveredUnique == Count(nodes, events, |events|, Done)
    ensures a.retained == Count(nodes, events, |events|, Retained) && a.lost == Count(nodes, events, |events|, Lost)
    ensures a.corrupted == Corrupted(events, |events|) && a.duplicateAttempts == Duplicates(events, |events|)
    ensures a.unaccounted == 0
  {
    a := Accounting(|events|, 0, 0, 0, 0, 0, 0, 0, 0);
    for k := 0 to |events|
      invariant a.offered == |events| && a.accepted + a.rejected == k && a.unaccounted == 0
      invariant a.rejected == Count(nodes, events, k, Refused) && a.deliveredUnique == Count(nodes, events, k, Done)
      invariant a.retained == Count(nodes, events, k, Retained) && a.lost == Count(nodes, events, k, Lost)
      invariant a.corrupted == Corrupted(events, k) && a.duplicateAttempts == Duplicates(events, k)
    {
      var e := events[k];
      if !e.accepted {
        a := a.(rejected := a.rejected + 1);
      } else {
        a := a.(accepted := a.accepted + 1, duplicateAttempts := a.duplicateAttempts + e.duplicates,
                corrupted := a.corrupted + if e.corrupted then 1 else 0);
        if e.delivered {
          a := a.(deliveredUnique := a.deliveredUnique + 1);
        } else {
          var stored := FindStored(nodes, e.copies);
          a := if stored then a.(retained := a.retained + 1) else a.(lost := a.lost + 1);
        }
      }
    }
    FatesAddUp(nodes, events, |events|);
    a := a.(unaccounted := a.accepted - a.deliveredUnique - a.retained - a.lost);
  }

  // ---------------------------------------------------------------- the fabric

  class Fabric {
    var nodes: map<string, Node>
    const quorum: int
    const copyTarget: int
    var nextID: int
    var events: seq<Event>

    ghost function State(): View
      reads this
    {
      View(nodes, quorum, copyTarget, events)
    }

    ghost predicate Valid()
      reads this
    {
      Inv(State()) && nextID == |events|
    }

    constructor (nodes: map<string, Node>, quorum: int, copyTarget: int)
      requires Keyed(nodes) && 1 <= quorum <= copyTarget
      ensures Valid() && State() == View(nodes, quorum, copyTarget, [])
    {
      this.nodes, this.quorum, this.copyTarget := nodes, quorum, copyTarget;
      this.nextID, this.events := 0, [];
    }

    /** Appends one event, accepted with its durable copies or refused for want of a quorum. */
    method OfferOne()
      requires Valid()
      modifies this
      ensures Valid() && State() == OfferView(old(State()), 1)
    {
      ghost var before := State();
      OfferKeeps(before, 1);
      assert OfferView(before, 1) == before.(events := before.events + [NewEvent(nodes, quorum, copyTarget, |events| + 1)]) by {
        assert OfferView(before, 0) == before;
      }
      nextID := nextID + 1;
      var copies, clouds := Place(nodes, copyTarget);
      var event := if clouds < quorum then Event(nextID, false, {}, false, 0, 0, false)
                   else Event(nextID, true, copies, false, 0, 0, false);
      events := events + [event];
    }

    method Offer(count: int)
      requires Valid()
      modifies this
      ensures Valid() && State() == OfferView(old(State()), count)
      ensures nodes == old(nodes) && old(events) <= events && |events| == |old(events)| + if count > 0 then count else 0
      ensures forall i :: |old(events)| <= i < |events| ==> events[i].id == i + 1 && Rightly(nodes, quorum, copyTarget, events[i])
    {
      ghost var before := State();
      var i := 0;
      while i < count
        invariant Valid() && (0 <= i <= count || (i == 0 && count < 0))
        invariant State() == OfferView(old(State()), i)
      {
        OfferMore(old(State()), i);
        OfferOne();
        i := i + 1;
      }
      OfferedRightly(before, count);
    }

    method SetCloud(cloud: string, healthy: bool, writable: bool, partitioned: bool)
      requires Valid()
      modifies this
      ensures Valid() && State() == Step(old(State()), Op.SetCloud(cloud, healthy, writable, partitioned))
      ensures forall id :: id in nodes && nodes[id].cloud == cloud ==>
                nodes[id].healthy == healthy && nodes[id].writable == writable && nodes[id].partitioned == partitioned
      ensures forall id :: id in nodes && nodes[id].cloud != cloud ==> id in old(nodes) && nodes[id] == old(nodes)[id]
    {
      StepKeeps(State(), Op.SetCloud(cloud, healthy, writable, partitioned));
      nodes := FlagNodesOfCloud(nodes, cloud, healthy, writable, partitioned);
    }

    method SetRegion(region: string, healthy: bool, writable: bool, partitioned: bool)
      requires Valid()
      modifies this
      ensures Valid() && State() == Step(old(State()), Op.SetRegion(region, healthy, writable, partitioned))
      ensures forall id :: id in nodes && nodes[id].region == region ==>
                nodes[id].healthy == healthy && nodes[id].writable == writable && nodes[id].partitioned == partitioned
      ensures forall id :: id in nodes && nodes[id].region != region ==> id in old(nodes) && nodes[id] == old(nodes)[id]
    {
      StepKeeps(State(), Op.SetRegion(region, healthy, writable, partitioned));
      nodes := FlagNodesOfRegion(nodes, region, healthy, writable, partitioned);
    }

    method SetNodeWritable(id: string, writable: bool)
      requires Valid()
      modifies this
      ensures Valid() && State() == Step(old(State()), Op.SetNodeWritable(id, writable))
      ensures nodes.Keys == old(nodes).Keys && (id in nodes ==> nodes[id] == old(nodes)[id].(writable := writable))
      ensures forall other :: other in nodes && other != id ==> nodes[other] == old(nodes)[other]
    {
      StepKeeps(State(), Op.SetNodeWritable(id, writable));
      if id in nodes {
        nodes := nodes[id := nodes[id].(writable := writable)];
      }
      assert nodes == FlagNode(old(nodes), id, writable);
    }

    method Heal()
      requires Valid()
      modifies this
      ensures Valid() && State() == Step(old(State()), Op.Heal)
      ensures forall id :: id in nodes ==> nodes[id].healthy && nodes[id].writable && !nodes[id].partitioned
    {
      StepKeeps(State(), Op.Heal);
      nodes := FlagWhere(nodes, (n: Node) => true, true, true, false);
    }

    method DeliverAvailable(ambiguousRetries: int)
      requires Valid()
      modifies this
      ensures Valid() && State() == Step(old(State()), Deliver(ambiguousRetries))
      ensures nodes == old(nodes) && |events| == |old(events)|
      ensures forall i :: 0 <= i < |events| ==> AsDelivered(nodes, old(events)[i], ambiguousRetries, events[i])
    {
      StepKeeps(State(), Deliver(ambiguousRetries));
      for k := 0 to |events|
        invariant nodes == old(nodes) && nextID == old(nextID) && |events| == |old(events)|
        invariant forall i :: 0 <= i < k ==> events[i] == Delivered(nodes, old(events)[i], ambiguousRetries)
        invariant forall i :: k <= i < |events| ==> events[i] == old(events)[i]
      {
        var e := DeliverEvent(nodes, events[k], ambiguousRetries);
        events := events[k := e];
      }
      assert events == DeliverView(old(State()), ambiguousRetries).events;
      forall i | 0 <= i < |events|
        ensures AsDelivered(nodes, old(events)[i], ambiguousRetries, events[i])
      {
        DeliveredSpelled(nodes, old(events)[i], ambiguousRetries);
      }
    }

    /** The report of a reachable fabric never shows a lost, corrupted or unaccounted event. */
    method Accounts() returns (a: Accounting)
      requires Valid()
      ensures a.offered == |events| == a.accepted + a.rejected
      ensures a.accepted == a.deliveredUnique + a.retained
      ensures a.lost == a.corrupted == a.unaccounted == 0
      ensures a.rejected == Total(State(), Refused) && a.deliveredUnique == Total(State(), Done) && a.retained == Total(State(), Retained)
    {
      a := Account(nodes, events);
      Conservation(State());
    }
  }

  lemma OfferedRightly(v: View, count: int)
    requires Inv(v)
    ensures var w := OfferView(v, count);
            && w.nodes == v.nodes && v.events <= w.events && |w.events| == |v.events| + (if count > 0 then count else 0)
            && forall i :: |v.events| <= i < |w.events| ==> w.events[i].id == i + 1 && Rightly(v.nodes, v.quorum, v.target, w.events[i])
  {
    OfferAppends(v, count);
    forall i | |v.events| <= i < |OfferView(v, count).events|
      ensures OfferView(v, count).events[i].id == i + 1 && Rightly(v.nodes, v.quorum, v.target, OfferView(v, count).events[i])
    {
      AcceptedExactlyAtQuorum(v, count, i);
    }
  }

  lemma {:induction false} OfferMore(v: View, count: nat)
    ensures OfferView(OfferView(v, count), 1) == OfferView(v, count + 1)
  {
    var w := OfferView(v, count);
    assert OfferView(w, 0) == w;
  }

  /** `NewFabric`: the fabric starts empty, and every later schedule is covered by its invariant. */
  method NewFabric(nodes: seq<Node>, quorum: int, copyTarget: int) returns (r: Result<Fabric>)
    ensures r.Ok? <==> quorum >= 1 && copyTarget >= quorum && Acceptable(nodes, |nodes|)
    ensures r.Ok? ==> fresh(r.value) && r.value.Valid() && r.value.events == [] && r.value.quorum == quorum && r.value.copyTarget == copyTarget
    ensures r.Ok? ==> forall n :: n in nodes <==> n.id in r.value.nodes && r.value.nodes[n.id] == n
  {
    var table := Index(nodes, quorum, copyTarget);
    match table
    case Err(error) => r := Err(error);
    case Ok(m) =>
      var fabric := new Fabric(m, quorum, copyTarget);
      r := Ok(fabric);
  }
}
