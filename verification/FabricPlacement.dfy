/** Where the multi-cloud fabric puts the durable copies of an event. */
module FabricPlacement {
  import opened Sorting

  datatype Node = Node(id: string, cloud: string, region: string, zone: string, healthy: bool, writable: bool, partitioned: bool)

  predicate Writable(n: Node) { n.healthy && n.writable && !n.partitioned }

  predicate Reachable(n: Node) { n.healthy && !n.partitioned }

  function Rank(cloud: string): nat {
    if cloud == "aws" then 0
    else if cloud == "gcp" then 1
    else if cloud == "azure" then 2
    else if cloud == "bare-metal" then 3
    else 100
  }

  /** Candidates are ordered by cloud preference, then by node ID. */
  predicate Before(a: Node, b: Node) {
    if Rank(a.cloud) != Rank(b.cloud) then Rank(a.cloud) < Rank(b.cloud) else LexLess(a.id, b.id)
  }

  predicate Keyed(nodes: map<string, Node>) {
    forall id :: id in nodes ==> nodes[id].id == id
  }

  /** Node IDs tell the nodes of a set apart. */
  ghost predicate UniqueIds(nodes: set<Node>) {
    forall a, b :: a in nodes && b in nodes && a.id == b.id ==> a == b
  }

  lemma BeforeOrders(nodes: set<Node>)
    requires UniqueIds(nodes)
    ensures StrictOrder(Before) && TotalOn(Before, nodes)
  {
    BeforeIsStrict();
    forall a, b | a in nodes && b in nodes && a != b
      ensures Before(a, b) || Before(b, a)
    {
      LexTotal(a.id, b.id);
    }
  }

  lemma BeforeIsStrict()
    ensures StrictOrder(Before)
  {
    forall a: Node ensures !Before(a, a) {
      LexIrreflexive(a.id);
    }
    forall a, b, c | Before(a, b) && Before(b, c)
      ensures Before(a, c)
    {
      if Rank(a.cloud) == Rank(b.cloud) == Rank(c.cloud) {
        LexTransitive(a.id, b.id, c.id);
      }
    }
  }

  ghost function Candidates(nodes: map<string, Node>): set<Node> {
    set id | id in nodes && Writable(nodes[id]) :: nodes[id]
  }

  ghost function Clouds(nodes: set<Node>): set<string> {
    set n | n in nodes :: n.cloud
  }

  ghost function Ids(nodes: set<Node>): set<string> {
    set n | n in nodes :: n.id
  }

  // ---------------------------------------------------------------- the reference placement

  /** The preferred node of its cloud. */
  ghost predicate Leads(nodes: set<Node>, n: Node) {
    forall m :: m in nodes && m.cloud == n.cloud ==> !Before(m, n)
  }

  ghost function Leaders(nodes: set<Node>): set<Node> {
    set n | n in nodes && Leads(nodes, n)
  }

  ghost function Ahead(nodes: set<Node>, n: Node): set<Node> {
    set m | m in Leaders(nodes) && Before(m, n)
  }

  /** One node per cloud, the preferred clouds first, at most `target` of them. */
  ghost function Placement(nodes: set<Node>, target: int): set<Node> {
    set n | n in Leaders(nodes) && |Ahead(nodes, n)| < target
  }

  ghost function Min(a: int, b: int): int { if a <= b then a else b }

  // ---------------------------------------------------------------- one leader per cloud

  lemma {:induction false} LeastExists(nodes: set<Node>) returns (least: Node)
    requires nodes != {} && StrictOrder(Before) && TotalOn(Before, nodes)
    ensures least in nodes && forall m :: m in nodes ==> !Before(m, least)
    decreases |nodes|
  {
    var n :| n in nodes;
    least := n;
    var rest := nodes - {n};
    if rest != {} {
      var r := LeastExists(rest);
      if Before(r, n) {
        least := r;
      }
      forall m | m in nodes
        ensures !Before(m, least)
      {
        assert m == n || m in rest;
      }
    } else {
      assert nodes == {n};
    }
  }

  lemma LeaderOf(nodes: set<Node>, cloud: string) returns (leader: Node)
    requires StrictOrder(Before) && TotalOn(Before, nodes) && cloud in Clouds(nodes)
    ensures leader in Leaders(nodes) && leader.cloud == cloud
  {
    var there := set n | n in nodes && n.cloud == cloud;
    var n :| n in nodes && n.cloud == cloud;
    assert n in there;
    leader := LeastExists(there);
  }

  lemma LeadersApart(nodes: set<Node>)
    requires TotalOn(Before, nodes)
    ensures forall a, b :: a in Leaders(nodes) && b in Leaders(nodes) && a.cloud == b.cloud ==> a == b
  {
  }

  lemma {:induction false} ApartCount(nodes: set<Node>)
    requires forall a, b :: a in nodes && b in nodes && a.cloud == b.cloud ==> a == b
    ensures |Clouds(nodes)| == |nodes|
    decreases |nodes|
  {
    if nodes != {} {
      var n :| n in nodes;
      ApartCount(nodes - {n});
      assert Clouds(nodes) == Clouds(nodes - {n}) + {n.cloud};
      assert n.cloud !in Clouds(nodes - {n});
    }
  }

  /** There is exactly one leader for each cloud. */
  lemma LeadersCountClouds(nodes: set<Node>)
    requires UniqueIds(nodes)
    ensures |Leaders(nodes)| == |Clouds(nodes)|
  {
    BeforeOrders(nodes);
    LeadersApart(nodes);
    ApartCount(Leaders(nodes));
    forall cloud | cloud in Clouds(nodes)
      ensures cloud in Clouds(Leaders(nodes))
    {
      var leader := LeaderOf(nodes, cloud);
    }
    assert Clouds(Leaders(nodes)) == Clouds(nodes);
  }

  // ---------------------------------------------------------------- preference

  /** The preference order of the clouds, by name: any other cloud comes last. */
  predicate Outranks(a: string, b: string) {
    || (a == "aws" && b != "aws")
    || (a == "gcp" && b != "aws" && b != "gcp")
    || (a == "azure" && b != "aws" && b != "gcp" && b != "azure")
    || (a == "bare-metal" && b != "aws" && b != "gcp" && b != "azure" && b != "bare-metal")
  }

  lemma BeforeByName(a: Node, b: Node)
    requires Before(a, b)
    ensures Outranks(a.cloud, b.cloud) || (!Outranks(b.cloud, a.cloud) && LexLess(a.id, b.id))
  {
  }

  lemma AheadGrows(nodes: set<Node>, a: Node, b: Node)
    requires Before(a, b)
    ensures Ahead(nodes, a) <= Ahead(nodes, b)
  {
    BeforeIsStrict();
  }

  /** A chosen node comes before every other node of its cloud and every node of a cloud that was passed over. */
  lemma ChosenComesFirst(nodes: set<Node>, target: int, a: Node, b: Node)
    requires UniqueIds(nodes) && a in Placement(nodes, target) && b in nodes && a != b
    requires a.cloud == b.cloud || b.cloud !in Clouds(Placement(nodes, target))
    ensures Before(a, b)
  {
    BeforeOrders(nodes);
    if a.cloud != b.cloud {
      var leader := LeaderOf(nodes, b.cloud);
      assert leader !in Placement(nodes, target);
      if Before(leader, a) {
        AheadGrows(nodes, leader, a);
        SubsetCount(Ahead(nodes, leader), Ahead(nodes, a));
      }
      assert Before(a, leader);
      assert leader == b || Before(leader, b);
    }
  }

  // ---------------------------------------------------------------- the scan

  /** The leaders among the first `k` candidates. */
  ghost function Scanned(order: seq<Node>, k: nat): set<Node>
    requires k <= |order|
  {
    set n | n in Leaders(Elements(order)) && n in order[..k]
  }

  ghost predicate Ordered(order: seq<Node>) {
    UniqueIds(Elements(order)) && Sorted(Before, order)
  }

  /** A candidate leads its cloud exactly when no earlier candidate is from that cloud. */
  lemma LeadsIffFirst(order: seq<Node>, k: nat)
    requires k < |order| && Ordered(order)
    ensures Leads(Elements(order), order[k]) <==> order[k].cloud !in Clouds(Elements(order[..k]))
  {
    BeforeIsStrict();
    var n := order[k];
    if n.cloud in Clouds(Elements(order[..k])) {
      var m :| m in Elements(order[..k]) && m.cloud == n.cloud;
      var i :| 0 <= i < k && order[i] == m;
      assert Before(order[i], order[k]);
      assert m in Elements(order);
    } else {
      forall m | m in Elements(order) && m.cloud == n.cloud
        ensures !Before(m, n)
      {
        var i :| 0 <= i < |order| && order[i] == m;
        assert m !in order[..k];
        assert i >= k;
      }
    }
  }

  lemma NotScannedYet(order: seq<Node>, k: nat)
    requires k < |order| && Ordered(order)
    ensures order[k] !in order[..k] && order[k] in Elements(order)
  {
    BeforeIsStrict();
    forall i | 0 <= i < k
      ensures order[i] != order[k]
    {
      assert Before(order[i], order[k]);
    }
  }

  lemma ScanOne(order: seq<Node>, k: nat)
    requires k < |order| && Ordered(order)
    ensures Scanned(order, k + 1) == if Leads(Elements(order), order[k]) then Scanned(order, k) + {order[k]} else Scanned(order, k)
  {
    NotScannedYet(order, k);
    assert order[..k + 1] == order[..k] + [order[k]];
  }

  lemma CloudsAdd(nodes: set<Node>, n: Node)
    ensures Clouds(nodes + {n}) == Clouds(nodes) + {n.cloud}
    ensures n.cloud in Clouds(nodes) ==> Clouds(nodes) + {n.cloud} == Clouds(nodes)
  {
  }

  lemma CloudsGrow(order: seq<Node>, k: nat)
    requires k < |order|
    ensures Clouds(Elements(order[..k + 1])) == Clouds(Elements(order[..k])) + {order[k].cloud}
  {
    assert order[..k + 1] == order[..k] + [order[k]];
    assert Elements(order[..k + 1]) == Elements(order[..k]) + {order[k]};
    CloudsAdd(Elements(order[..k]), order[k]);
  }

  lemma ScannedCloudsStep(order: seq<Node>, k: nat)
    requires k < |order| && Ordered(order) && Clouds(Scanned(order, k)) == Clouds(Elements(order[..k]))
    ensures Clouds(Scanned(order, k + 1)) == Clouds(Elements(order[..k + 1]))
  {
    var scanned, met, n := Scanned(order, k), Elements(order[..k]), order[k];
    ScanOne(order, k);
    CloudsGrow(order, k);
    LeadsIffFirst(order, k);
    CloudsAdd(scanned, n);
  }

  /** The clouds met so far are the clouds of the leaders met so far. */
  lemma {:induction false} ScannedClouds(order: seq<Node>, k: nat)
    requires k <= |order| && Ordered(order)
    ensures Clouds(Scanned(order, k)) == Clouds(Elements(order[..k]))
  {
    if k > 0 {
      ScannedClouds(order, k - 1);
      ScannedCloudsStep(order, k - 1);
    }
  }

  lemma ScannedAll(order: seq<Node>)
    ensures Scanned(order, |order|) == Leaders(Elements(order))
  {
    assert order[..|order|] == order;
  }

  /** The leaders ahead of a candidate are those scanned before it. */
  lemma AheadIsScanned(order: seq<Node>, k: nat)
    requires k < |order| && Ordered(order)
    ensures Ahead(Elements(order), order[k]) == Scanned(order, k)
  {
    forall m | m in Leaders(Elements(order))
      ensures Before(m, order[k]) <==> m in order[..k]
    {
      var i :| 0 <= i < |order| && order[i] == m;
      if i < k {
        assert Before(order[i], order[k]);
        assert order[..k][i] == m;
      } else if i > k {
        assert Before(order[k], order[i]);
        NotBoth(order[k], order[i]);
        NotEarlier(order, i, k);
      } else {
        NotScannedYet(order, k);
      }
    }
  }

  lemma NotBoth(a: Node, b: Node)
    requires Before(a, b)
    ensures !Before(b, a)
  {
    BeforeIsStrict();
  }

  lemma NotEarlier(order: seq<Node>, i: nat, k: nat)
    requires k <= i < |order| && Ordered(order)
    ensures order[i] !in order[..k]
  {
    BeforeIsStrict();
    forall j | 0 <= j < k ensures order[j] != order[i] {
      assert Before(order[j], order[i]);
    }
  }

  lemma {:induction false} ScannedGrows(order: seq<Node>, j: nat, k: nat)
    requires j <= k <= |order|
    ensures Scanned(order, j) <= Scanned(order, k)
  {
    assert order[..j] <= order[..k];
  }

  lemma SubsetCount<T>(a: set<T>, b: set<T>)
    requires a <= b
    ensures |a| <= |b|
  {
    assert b == a + (b - a);
  }

  /** Stopping once the target is met, or at the end, leaves exactly the reference placement. */
  lemma StoppedIsPlacement(order: seq<Node>, stop: nat, target: int)
    requires stop <= |order| && Ordered(order)
    requires |Scanned(order, stop)| <= target && (stop < |order| ==> |Scanned(order, stop)| == target)
    ensures Placement(Elements(order), target) == Scanned(order, stop)
  {
    forall n | n in Leaders(Elements(order))
      ensures |Ahead(Elements(order), n)| < target <==> n in order[..stop]
    {
      var i :| 0 <= i < |order| && order[i] == n;
      AheadIsScanned(order, i);
      if i < stop {
        ScannedGrows(order, i + 1, stop);
        ScanOne(order, i);
        SubsetCount(Scanned(order, i + 1), Scanned(order, stop));
        NotScannedYet(order, i);
        assert order[..stop][i] == n;
      } else {
        ScannedGrows(order, stop, i);
        SubsetCount(Scanned(order, stop), Scanned(order, i));
        NotEarlier(order, i, stop);
      }
    }
  }

  lemma {:induction false} StopExists(order: seq<Node>, target: int, from: nat) returns (stop: nat)
    requires from <= |order| && Ordered(order) && |Scanned(order, from)| <= target
    ensures stop <= |order| && |Scanned(order, stop)| <= target && (stop < |order| ==> |Scanned(order, stop)| == target)
    decreases |order| - from
  {
    if from == |order| || |Scanned(order, from)| == target {
      stop := from;
    } else {
      ScanOne(order, from);
      stop := StopExists(order, target, from + 1);
    }
  }

  /** An event gets as many copies as there are clouds, up to the target. */
  lemma PlacementCount(nodes: set<Node>, target: int)
    requires UniqueIds(nodes) && target >= 0
    ensures |Placement(nodes, target)| == Min(target, |Clouds(nodes)|)
  {
    BeforeOrders(nodes);
    var listing := Listing(nodes);
    SortSorts(Before, listing);
    var order := Sort(Before, listing);
    assert Scanned(order, 0) == {};
    var stop := StopExists(order, target, 0);
    StoppedIsPlacement(order, stop, target);
    LeadersCountClouds(nodes);
    ScannedAll(order);
    ScannedGrows(order, stop, |order|);
    SubsetCount(Scanned(order, stop), Leaders(nodes));
  }
}
