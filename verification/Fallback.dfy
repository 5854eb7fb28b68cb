/** Failure fallbacks between routing destinations: what configuration validation accepts, and what a run of failures then does. */
module Fallback {
  import opened Wrappers
  import opened Text

  /** The parts of a destination that fallback depends on. */
  datatype Destination = Destination(name: string, enabled: bool, fallback: string)

  type Graph = map<string, Destination>

  /** A missing destination has no fallback. */
  function Next(g: Graph, name: string): string {
    if name in g then g[name].fallback else ""
  }

  function Walk(g: Graph, start: string, n: nat): string {
    if n == 0 then start else Next(g, Walk(g, start, n - 1))
  }

  ghost predicate OnCycle(g: Graph, name: string) {
    name != "" && exists n: nat :: n > 0 && Walk(g, name, n) == name
  }

  ghost predicate HasCycle(g: Graph) { exists name :: OnCycle(g, name) }

  // ---------------------------------------------------------------- walks

  lemma {:induction false} WalkOn(g: Graph, start: string, i: nat, n: nat)
    ensures Walk(g, Walk(g, start, i), n) == Walk(g, start, i + n)
  {
    if n > 0 {
      WalkOn(g, start, i, n - 1);
    }
  }

  /** A finished walk stays finished. */
  lemma {:induction false} EndedStays(g: Graph, start: string, m: nat, n: nat)
    requires "" !in g && Walk(g, start, m) == "" && m <= n
    ensures Walk(g, start, n) == ""
  {
    if m < n {
      EndedStays(g, start, m, n - 1);
    }
  }

  lemma {:induction false} RoundAndRound(g: Graph, name: string, n: nat, times: nat)
    requires Walk(g, name, n) == name
    ensures Walk(g, name, times * n) == name
  {
    if times > 0 {
      RoundAndRound(g, name, n, times - 1);
      WalkOn(g, name, (times - 1) * n, n);
      assert (times - 1) * n + n == times * n;
    }
  }

  lemma AtLeastFactor(m: nat, n: nat)
    requires n > 0
    ensures m * n >= m
  {
  }

  /** A walk that ends did not start on a cycle. */
  lemma EndedIsOffCycle(g: Graph, start: string, m: nat)
    requires "" !in g && Walk(g, start, m) == ""
    ensures !OnCycle(g, start)
  {
    if OnCycle(g, start) {
      var n: nat :| n > 0 && Walk(g, start, n) == start;
      RoundAndRound(g, start, n, m);
      AtLeastFactor(m, n);
      EndedStays(g, start, m, m * n);
    }
  }

  lemma RepeatIsCycle(g: Graph, start: string, i: nat, j: nat)
    requires i < j && Walk(g, start, i) == Walk(g, start, j) != ""
    ensures OnCycle(g, Walk(g, start, i))
  {
    WalkOn(g, start, i, j - i);
  }

  /** Only destinations can be on a cycle. */
  lemma CycleIsInside(g: Graph, name: string)
    requires "" !in g && OnCycle(g, name)
    ensures name in g
  {
    if name !in g {
      assert Walk(g, name, 1) == "" by { assert Walk(g, name, 0) == name; }
      EndedIsOffCycle(g, name, 1);
    }
  }

  // ---------------------------------------------------------------- validation

  /** The names a walk has passed. */
  ghost function Passed(g: Graph, start: string, k: nat): set<string> {
    set i: nat | i < k :: Walk(g, start, i)
  }

  lemma PassOne(g: Graph, start: string, k: nat)
    ensures Passed(g, start, k + 1) == Passed(g, start, k) + {Walk(g, start, k)}
  {
    forall x | x in Passed(g, start, k) ensures x in Passed(g, start, k + 1) {
      var i: nat :| i < k && Walk(g, start, i) == x;
    }
  }

  lemma CameRound(g: Graph, start: string, k: nat)
    requires Walk(g, start, k) in Passed(g, start, k) && Walk(g, start, k) != ""
    ensures OnCycle(g, Walk(g, start, k))
  {
    var i: nat :| i < k && Walk(g, start, i) == Walk(g, start, k);
    RepeatIsCycle(g, start, i, k);
  }

  /** Follows the fallbacks from one destination; reports a name that came round again. */
  method FollowChain(g: Graph, start: string) returns (repeated: Option<string>)
    requires "" !in g
    ensures repeated.None? ==> !OnCycle(g, start)
    ensures repeated.Some? ==> OnCycle(g, repeated.value)
  {
    var seen: set<string> := {};
    var current := start;
    ghost var k := 0;
    while current != ""
      invariant current == Walk(g, start, k) && seen == Passed(g, start, k)
      decreases |g.Keys - seen|, if current == "" then 0 else 1
    {
      if current in seen {
        CameRound(g, start, k);
        return Some(current);
      }
      PassOne(g, start, k);
      Shrinks(g.Keys, seen, current);
      seen := seen + {current};
      current := Next(g, current);
      k := k + 1;
    }
    EndedIsOffCycle(g, start, k);
    return None;
  }

  lemma Shrinks(keys: set<string>, seen: set<string>, current: string)
    requires current !in seen
    ensures current in keys ==> |keys - (seen + {current})| < |keys - seen|
    ensures current !in keys ==> keys - (seen + {current}) == keys - seen
  {
    if current in keys {
      assert keys - seen == (keys - (seen + {current})) + {current};
    }
  }

  /** Accepts exactly the graphs without a cycle; a refusal names a destination on one. */
  method ValidateFallbackCycles(g: Graph) returns (repeated: Option<string>)
    requires "" !in g
    ensures repeated.None? <==> !HasCycle(g)
    ensures repeated.Some? ==> OnCycle(g, repeated.value)
  {
    var rest := g.Keys;
    while rest != {}
      invariant rest <= g.Keys && forall name :: name in g && name !in rest ==> !OnCycle(g, name)
      decreases |rest|
    {
      var start :| start in rest;
      var found := FollowChain(g, start);
      if found.Some? {
        return found;
      }
      rest := rest - {start};
    }
    forall name ensures !OnCycle(g, name) {
      if OnCycle(g, name) {
        CycleIsInside(g, name);
      }
    }
    return None;
  }

  /** Destinations are looked up by trimmed name. */
  function Keys(config: seq<Destination>): (keys: seq<string>)
    ensures |keys| == |config|
  {
    seq(|config|, i requires 0 <= i < |config| => Trim(config[i].name))
  }

  ghost predicate DistinctNames(keys: seq<string>, k: nat)
    requires k <= |keys|
  {
    (forall i :: 0 <= i < k ==> keys[i] != "") && forall i, j :: 0 <= i < j < k ==> keys[i] != keys[j]
  }

  ghost predicate Tabulates(g: Graph, config: seq<Destination>, keys: seq<string>, k: nat)
    requires k <= |config| == |keys|
  {
    && (forall i :: 0 <= i < k ==> keys[i] in g && g[keys[i]] == config[i])
    && (forall key :: key in g ==> key in keys[..k])
    && |g| == k
  }

  method Tabulate(config: seq<Destination>, keys: seq<string>) returns (r: Result<Graph>)
    requires |keys| == |config|
    ensures r.Ok? <==> DistinctNames(keys, |keys|)
    ensures r.Ok? ==> Tabulates(r.value, config, keys, |config|)
  {
    var g: Graph := map[];
    for k := 0 to |config|
      invariant DistinctNames(keys, k) && Tabulates(g, config, keys, k)
    {
      if keys[k] == "" {
        return Err("destination name is required");
      }
      if keys[k] in g {
        Repeated(g, config, keys, k);
        return Err("duplicate destination " + keys[k]);
      }
      TabulateOne(g, config, keys, k);
      OneMoreName(keys, k);
      g := g[keys[k] := config[k]];
    }
    r := Ok(g);
  }

  lemma Repeated(g: Graph, config: seq<Destination>, keys: seq<string>, k: nat)
    requires k < |config| == |keys| && Tabulates(g, config, keys, k) && keys[k] in g
    ensures !DistinctNames(keys, |keys|)
  {
    var i :| 0 <= i < k && keys[i] == keys[k];
  }

  lemma OneMoreName(keys: seq<string>, k: nat)
    requires k < |keys| && DistinctNames(keys, k) && keys[k] != "" && keys[k] !in keys[..k]
    ensures DistinctNames(keys, k + 1)
  {
    forall i | 0 <= i < k ensures keys[i] != keys[k] {
      assert keys[..k][i] == keys[i];
    }
  }

  lemma NewKey(g: Graph, config: seq<Destination>, keys: seq<string>, k: nat)
    requires k < |config| == |keys| && Tabulates(g, config, keys, k) && keys[k] !in g
    ensures keys[k] !in keys[..k]
  {
    forall i | 0 <= i < k ensures keys[i] != keys[k] {
      assert keys[i] in g;
    }
  }

  lemma TabulateOne(g: Graph, config: seq<Destination>, keys: seq<string>, k: nat)
    requires k < |config| == |keys| && Tabulates(g, config, keys, k) && keys[k] !in g
    ensures Tabulates(g[keys[k] := config[k]], config, keys, k + 1) && keys[k] !in keys[..k]
  {
    NewKey(g, config, keys, k);
    OneMoreEntry(g, keys[k], config[k]);
    assert keys[..k + 1] == keys[..k] + [keys[k]];
  }

  lemma OneMoreEntry(g: Graph, key: string, destination: Destination)
    requires key !in g
    ensures |g[key := destination]| == |g| + 1
  {
    var g' := g[key := destination];
    assert g'.Keys == g.Keys + {key};
    assert |g'| == |g'.Keys|;
  }

  /** A fallback must name another destination that is enabled. */
  predicate FallbackOk(g: Graph, name: string)
    requires name in g
  {
    var fallback := g[name].fallback;
    fallback == "" || (fallback in g && g[fallback].enabled && fallback != name)
  }

  method ValidateTargets(g: Graph) returns (ok: bool)
    ensures ok <==> forall name :: name in g ==> FallbackOk(g, name)
  {
    var rest := g.Keys;
    while rest != {}
      invariant rest <= g.Keys && forall name :: name in g && name !in rest ==> FallbackOk(g, name)
      decreases |rest|
    {
      var name :| name in rest;
      if !FallbackOk(g, name) {
        return false;
      }
      rest := rest - {name};
    }
    return true;
  }

  ghost predicate Sane(config: seq<Destination>, keys: seq<string>, g: Graph)
    requires |keys| == |config|
  {
    && DistinctNames(keys, |keys|) && Tabulates(g, config, keys, |config|)
    && (forall name :: name in g ==> FallbackOk(g, name)) && !HasCycle(g)
  }

  ghost predicate Accepted(config: seq<Destination>, g: Graph) {
    Sane(config, Keys(config), g)
  }

  /** The fallback checks of configuration validation. */
  method Validate(config: seq<Destination>) returns (r: Result<Graph>)
    ensures r.Ok? ==> Accepted(config, r.value)
    ensures r.Err? ==> forall g :: !Accepted(config, g)
  {
    r := Check(config, Keys(config));
  }

  method Check(config: seq<Destination>, keys: seq<string>) returns (r: Result<Graph>)
    requires |keys| == |config|
    ensures r.Ok? ==> Sane(config, keys, r.value)
    ensures r.Err? ==> forall g :: !Sane(config, keys, g)
  {
    r := Tabulate(config, keys);
    if r.Err? {
      return;
    }
    var g := r.value;
    TableUnique(config, keys, g);
    NoEmptyKey(config, keys, g);
    var targets := ValidateTargets(g);
    if !targets {
      return Err("failure_fallback is missing or disabled");
    }
    var repeated := ValidateFallbackCycles(g);
    if repeated.Some? {
      return Err("routing failure fallback cycle includes " + repeated.value);
    }
  }

  lemma TableUnique(config: seq<Destination>, keys: seq<string>, g: Graph)
    requires |keys| == |config| && Tabulates(g, config, keys, |config|)
    ensures forall h :: Tabulates(h, config, keys, |config|) ==> h == g
  {
    assert keys[..|config|] == keys;
    forall h | Tabulates(h, config, keys, |config|)
      ensures h == g
    {
      assert h.Keys == g.Keys;
      forall key | key in g ensures g[key] == h[key] {
        var i :| 0 <= i < |keys| && keys[i] == key;
      }
    }
  }

  lemma NoEmptyKey(config: seq<Destination>, keys: seq<string>, g: Graph)
    requires |keys| == |config| && DistinctNames(keys, |keys|) && Tabulates(g, config, keys, |config|)
    ensures "" !in g
  {
    assert keys[..|config|] == keys;
  }

  // ---------------------------------------------------------------- runs of terminal failures

  /** The first destination with exactly this name. */
  function ByName(config: seq<Destination>, name: string): (r: Option<Destination>)
    ensures r.Some? ==> r.value in config && r.value.name == name
  {
    if config == [] then None else if config[0].name == name then Some(config[0]) else ByName(config[1..], name)
  }

  /** Where a delivery goes after it has failed for good. */
  function Handoff(config: seq<Destination>, failed: Destination): Option<Destination> {
    if failed.fallback == "" then None
    else match ByName(config, failed.fallback)
      case None => None
      case Some(destination) => if destination.enabled then Some(destination) else None
  }

  /** One delivery's destinations, each taken after the one before it failed. */
  ghost predicate Chain(config: seq<Destination>, chain: seq<Destination>) {
    && (forall i :: 0 <= i < |chain| ==> chain[i] in config)
    && (forall i :: 0 < i < |chain| ==> Handoff(config, chain[i - 1]) == Some(chain[i]))
  }

  lemma KeyIsTrimmed(config: seq<Destination>, g: Graph, key: string)
    requires Accepted(config, g) && key in g
    ensures Trim(key) == key != ""
  {
    var keys := Keys(config);
    assert keys[..|config|] == keys;
    var i :| 0 <= i < |keys| && keys[i] == key;
    TrimIdempotent(config[i].name);
  }

  lemma EntryOf(config: seq<Destination>, g: Graph, destination: Destination)
    requires Accepted(config, g) && destination in config
    ensures Trim(destination.name) in g && g[Trim(destination.name)] == destination
  {
    var i :| 0 <= i < |config| && config[i] == destination;
    assert Keys(config)[i] == Trim(config[i].name);
  }

  /** A handoff follows an edge of the validated graph, also when names were written with surrounding space. */
  lemma HandoffIsEdge(config: seq<Destination>, g: Graph, failed: Destination, destination: Destination)
    requires Accepted(config, g) && failed in config && Handoff(config, failed) == Some(destination)
    ensures Next(g, Trim(failed.name)) == Trim(destination.name) == destination.name
  {
    EntryOf(config, g, failed);
    assert FallbackOk(g, Trim(failed.name));
    KeyIsTrimmed(config, g, failed.fallback);
  }

  lemma {:induction false} ByNameFinds(config: seq<Destination>, name: string)
    ensures ByName(config, name).None? <==> forall i :: 0 <= i < |config| ==> config[i].name != name
  {
    if config != [] {
      ByNameFinds(config[1..], name);
      assert forall i :: 0 < i < |config| ==> config[i] == config[1..][i - 1];
    }
  }

  /**
  A failed delivery is handed to the enabled destination its fallback names.  Validation
  looks names up trimmed and the handoff does not: a fallback to a destination whose name is
  written with surrounding space passes the one and is dropped by the other.
   */
  lemma HandoffIff(config: seq<Destination>, g: Graph, failed: Destination)
    requires Accepted(config, g) && failed in config
    ensures Handoff(config, failed).Some? <==> failed.fallback != "" && g[failed.fallback].name == failed.fallback
    ensures Handoff(config, failed).Some? ==>
              var next := Handoff(config, failed).value; next in config && next.enabled && next.name == failed.fallback
  {
    EntryOf(config, g, failed);
    assert FallbackOk(g, Trim(failed.name));
    ByNameFinds(config, failed.fallback);
    if failed.fallback != "" {
      KeyIsTrimmed(config, g, failed.fallback);
      var keys := Keys(config);
      assert keys[..|config|] == keys;
      var i :| 0 <= i < |keys| && keys[i] == failed.fallback;
      assert g[failed.fallback] == config[i];
      if ByName(config, failed.fallback).Some? {
        EntryOf(config, g, ByName(config, failed.fallback).value);
      }
    }
  }

  lemma {:induction false} ChainIsWalk(config: seq<Destination>, g: Graph, chain: seq<Destination>, i: nat)
    requires Accepted(config, g) && Chain(config, chain) && i < |chain|
    ensures Trim(chain[i].name) == Walk(g, Trim(chain[0].name), i) && Trim(chain[i].name) in g
  {
    EntryOf(config, g, chain[i]);
    if i > 0 {
      ChainIsWalk(config, g, chain, i - 1);
      HandoffIsEdge(config, g, chain[i - 1], chain[i]);
    }
  }

  lemma ChainApart(config: seq<Destination>, g: Graph, chain: seq<Destination>, i: nat, j: nat)
    requires Accepted(config, g) && Chain(config, chain) && i < j < |chain|
    ensures Trim(chain[i].name) != Trim(chain[j].name)
  {
    ChainIsWalk(config, g, chain, i);
    ChainIsWalk(config, g, chain, j);
    KeyIsTrimmed(config, g, Trim(chain[i].name));
    if Trim(chain[i].name) == Trim(chain[j].name) {
      RepeatIsCycle(g, Trim(chain[0].name), i, j);
    }
  }

  lemma {:induction false} DistinctFit(s: seq<string>, names: set<string>)
    requires (forall i, j :: 0 <= i < j < |s| ==> s[i] != s[j]) && forall i :: 0 <= i < |s| ==> s[i] in names
    ensures |s| <= |names|
  {
    if s != [] {
      DistinctFit(s[1..], names - {s[0]});
    }
  }

  /** With an accepted configuration no run of failures visits a destination twice, and none is longer than the configuration. */
  lemma ChainsEnd(config: seq<Destination>, g: Graph, chain: seq<Destination>)
    requires Accepted(config, g) && Chain(config, chain)
    ensures forall i, j :: 0 <= i < j < |chain| ==> chain[i].name != chain[j].name
    ensures |chain| <= |config|
  {
    var names := Keys(chain);
    forall i, j | 0 <= i < j < |chain|
      ensures names[i] != names[j] && chain[i].name != chain[j].name
    {
      ChainApart(config, g, chain, i, j);
    }
    forall i | 0 <= i < |chain| ensures names[i] in g.Keys {
      ChainIsWalk(config, g, chain, i);
    }
    DistinctFit(names, g.Keys);
    assert |g.Keys| == |g|;
  }

  /** The presence check matters: with names that are not trimmed, a graph without a cycle alone would allow an endless run. */
  lemma CycleCheckAloneIsNotEnough(n: nat)
    ensures var looping := Destination("a ", true, "a ");
            var g := map["a" := looping];
            Tabulates(g, [looping], Keys([looping]), 1) && !HasCycle(g) && Chain([looping], seq(n, i => looping))
  {
    var looping := Destination("a ", true, "a ");
    var g := map["a" := looping];
    TrimLiteral();
    assert Keys([looping]) == ["a"];
    forall name ensures !OnCycle(g, name) {
      OneEdgeOut(g, name, "a ");
    }
    assert ByName([looping], "a ") == Some(looping);
  }

  lemma OneEdgeOut(g: Graph, name: string, missing: string)
    requires "" !in g && missing !in g && forall key :: key in g ==> g[key].fallback == missing
    ensures !OnCycle(g, name)
  {
    assert Walk(g, name, 0) == name;
    assert Walk(g, name, 1) == Next(g, name);
    assert Walk(g, name, 2) == Next(g, Next(g, name)) == "";
    EndedIsOffCycle(g, name, 2);
  }

  lemma TrimLiteral()
    ensures Trim("a ") == "a"
  {
    assert TrimLeft("a ") == "a ";
    assert "a "[..1] == "a";
    assert TrimRight("a") == "a";
  }
}
