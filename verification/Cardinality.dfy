/**
Cardinality tracking: a 64-register HyperLogLog behind an exact window of 16 hashes, kept
once in process memory and once in a shared SQL row.  Both are proved to be functions of
the set of hashes seen.
 */
module Cardinality {
  import opened Wrappers
  import opened Arith

  const REGISTERS := 64
  const WINDOW := 16
  const MAX_RANK := 59

  // ---------------------------------------------------------------- one hash

  function RankFrom(rank: nat, remaining: nat): (r: nat)
    requires 1 <= rank <= MAX_RANK
    ensures rank <= r <= MAX_RANK
    decreases MAX_RANK - rank
  {
    if rank < MAX_RANK && remaining % 2 == 0 then RankFrom(rank + 1, remaining / 2) else rank
  }

  function Index(hash: nat): (i: nat)
    ensures i < REGISTERS
  {
    hash % REGISTERS
  }

  function Rank(hash: nat): (r: nat)
    ensures 1 <= r <= MAX_RANK
  {
    RankFrom(1, hash / REGISTERS)
  }

  /** The register index and rank of a hash, bit by bit. */
  method HLLRegister(hash: nat) returns (index: nat, rank: nat)
    ensures index == Index(hash) && rank == Rank(hash)
    ensures Splits(hash, index, rank)
  {
    HashSplits(hash);
    index := hash % REGISTERS;
    var remaining: nat := hash / REGISTERS;
    rank := 1;
    while rank < MAX_RANK && remaining % 2 == 0
      invariant 1 <= rank <= MAX_RANK
      invariant RankFrom(rank, remaining) == Rank(hash)
      decreases MAX_RANK - rank
    {
      rank := rank + 1;
      remaining := remaining / 2;
    }
  }

  lemma {:induction false} RankFromMeaning(rank: nat, remaining: nat)
    requires 1 <= rank <= MAX_RANK
    ensures var zeros := RankFrom(rank, remaining) - rank;
            && remaining % Pow2(zeros) == 0
            && (RankFrom(rank, remaining) < MAX_RANK ==> remaining % Pow2(zeros + 1) != 0)
    decreases MAX_RANK - rank
  {
    if rank < MAX_RANK && remaining % 2 == 0 {
      RankFromMeaning(rank + 1, remaining / 2);
      var zeros := RankFrom(rank + 1, remaining / 2) - (rank + 1);
      DoubledResidue(remaining, Pow2(zeros));
      DoubledResidue(remaining, Pow2(zeros + 1));
    }
  }

  /** The rank is one more than the number of trailing zero bits above the index, up to the cap. */
  lemma RankCountsTrailingZeros(hash: nat)
    ensures var bits := hash / REGISTERS;
            && bits % Pow2(Rank(hash) - 1) == 0
            && (Rank(hash) < MAX_RANK ==> bits % Pow2(Rank(hash)) != 0)
  {
    RankFromMeaning(1, hash / REGISTERS);
  }

  /** The six low bits are the register; the rank is one more than the zeros that follow them, and at most 59. */
  ghost predicate Splits(hash: nat, index: nat, rank: nat) {
    && index < 64 && 1 <= rank <= 59
    && exists bits: nat :: hash == 64 * bits + index && bits % Pow2(rank - 1) == 0 && (rank < 59 ==> bits % Pow2(rank) != 0)
  }

  lemma HashSplits(hash: nat)
    ensures Splits(hash, Index(hash), Rank(hash))
  {
    RankCountsTrailingZeros(hash);
    var bits := hash / REGISTERS;
    assert hash == 64 * bits + Index(hash);
  }

  // ---------------------------------------------------------------- sketches

  datatype Sketch = Sketch(registers: seq<nat>, exact: seq<nat>, overflow: bool)

  function EmptySketch(): Sketch { Sketch(seq(REGISTERS, _ => 0), [], false) }

  /** Register `i` holds the highest rank among the hashes of `seen` that fall on it. */
  ghost predicate RegisterDescribes(register: nat, seen: set<nat>, i: nat) {
    && (forall h :: h in seen && Index(h) == i ==> Rank(h) <= register)
    && (register == 0 || exists h :: h in seen && Index(h) == i && Rank(h) == register)
  }

  ghost predicate NoRepeats(s: seq<nat>) {
    forall i, j :: 0 <= i < j < |s| ==> s[i] != s[j]
  }

  ghost function SetOf(s: seq<nat>): set<nat> {
    set h | h in s
  }

  /** The sketch is the one the set of hashes determines. */
  ghost predicate Describes(sketch: Sketch, seen: set<nat>) {
    && |sketch.registers| == REGISTERS
    && (forall i :: 0 <= i < REGISTERS ==> RegisterDescribes(sketch.registers[i], seen, i))
    && NoRepeats(sketch.exact) && |sketch.exact| <= WINDOW
    && (sketch.overflow <==> |seen| > WINDOW)
    && (if sketch.overflow then |sketch.exact| == WINDOW else SetOf(sketch.exact) == seen)
  }

  function AddHash(registers: seq<nat>, hash: nat): seq<nat>
    requires |registers| == REGISTERS
  {
    if Rank(hash) > registers[Index(hash)] then registers[Index(hash) := Rank(hash)] else registers
  }

  function ObserveExact(exact: seq<nat>, overflow: bool, hash: nat): (seq<nat>, bool) {
    if overflow || hash in exact then (exact, overflow)
    else if |exact| >= WINDOW then (exact, true)
    else (exact + [hash], false)
  }

  function Observe(sketch: Sketch, hash: nat): Sketch
    requires |sketch.registers| == REGISTERS
  {
    var (exact, overflow) := ObserveExact(sketch.exact, sketch.overflow, hash);
    Sketch(AddHash(sketch.registers, hash), exact, overflow)
  }

  /** The scan of the exact window, as the local tracker does it. */
  method ObserveExactScan(exact: seq<nat>, overflow: bool, hash: nat) returns (exact': seq<nat>, overflow': bool)
    ensures (exact', overflow') == ObserveExact(exact, overflow, hash)
  {
    if overflow { return exact, overflow; }
    for index := 0 to |exact|
      invariant hash !in exact[..index]
    {
      if exact[index] == hash { return exact, overflow; }
      assert exact[..index + 1] == exact[..index] + [exact[index]];
    }
    assert exact[..|exact|] == exact;
    if |exact| >= WINDOW { return exact, true; }
    return exact + [hash], false;
  }

  lemma RegisterObserve(register: nat, seen: set<nat>, i: nat, hash: nat)
    requires RegisterDescribes(register, seen, i)
    ensures RegisterDescribes(if Index(hash) == i && Rank(hash) > register then Rank(hash) else register, seen + {hash}, i)
  {
    var register' := if Index(hash) == i && Rank(hash) > register then Rank(hash) else register;
    if register' == Rank(hash) && Index(hash) == i {
      assert hash in seen + {hash};
    } else if register != 0 {
      var h :| h in seen && Index(h) == i && Rank(h) == register;
      assert h in seen + {hash};
    }
  }

  lemma RegistersObserve(registers: seq<nat>, seen: set<nat>, hash: nat)
    requires |registers| == REGISTERS
    requires forall i :: 0 <= i < REGISTERS ==> RegisterDescribes(registers[i], seen, i)
    ensures forall i :: 0 <= i < REGISTERS ==> RegisterDescribes(AddHash(registers, hash)[i], seen + {hash}, i)
  {
    forall i | 0 <= i < REGISTERS
      ensures RegisterDescribes(AddHash(registers, hash)[i], seen + {hash}, i)
    {
      RegisterObserve(registers[i], seen, i, hash);
    }
  }

  lemma {:induction false} CountDistinct(s: seq<nat>)
    requires NoRepeats(s)
    ensures |SetOf(s)| == |s|
  {
    if s != [] {
      CountDistinct(s[1..]);
      assert SetOf(s) == SetOf(s[1..]) + {s[0]};
      assert s[0] !in s[1..];
    }
  }

  lemma ExactObserve(exact: seq<nat>, overflow: bool, seen: set<nat>, hash: nat)
    requires NoRepeats(exact) && |exact| <= WINDOW && (overflow <==> |seen| > WINDOW)
    requires if overflow then |exact| == WINDOW else SetOf(exact) == seen
    ensures var (exact', overflow') := ObserveExact(exact, overflow, hash);
            && NoRepeats(exact') && |exact'| <= WINDOW && (overflow' <==> |seen + {hash}| > WINDOW)
            && (if overflow' then |exact'| == WINDOW else SetOf(exact') == seen + {hash})
  {
    if hash in seen {
      assert seen + {hash} == seen;
    } else {
      assert |seen + {hash}| == |seen| + 1;
      CountDistinct(exact);
      assert SetOf(exact + [hash]) == SetOf(exact) + {hash};
    }
  }

  lemma ObserveDescribes(sketch: Sketch, seen: set<nat>, hash: nat)
    requires Describes(sketch, seen)
    ensures Describes(Observe(sketch, hash), seen + {hash})
  {
    RegistersObserve(sketch.registers, seen, hash);
    ExactObserve(sketch.exact, sketch.overflow, seen, hash);
  }

  /** The estimate of a sketch; `count` is the HyperLogLog formula on the registers. */
  function Estimate(count: seq<nat> -> nat, sketch: Sketch): nat {
    if sketch.overflow then count(sketch.registers) else |sketch.exact|
  }

  /** The set of hashes decides the registers, the overflow flag and the estimate. */
  lemma DescriptionDecides(count: seq<nat> -> nat, a: Sketch, b: Sketch, seen: set<nat>)
    requires Describes(a, seen) && Describes(b, seen)
    ensures a.registers == b.registers && a.overflow == b.overflow
    ensures Estimate(count, a) == Estimate(count, b)
    ensures |seen| <= WINDOW ==> Estimate(count, a) == |seen|
  {
    forall i | 0 <= i < REGISTERS
      ensures a.registers[i] == b.registers[i]
    {
      assert RegisterDescribes(a.registers[i], seen, i) && RegisterDescribes(b.registers[i], seen, i);
    }
    CountDistinct(a.exact);
    CountDistinct(b.exact);
  }

  // ---------------------------------------------------------------- local state and shared row

  /** One tracked dimension in process memory. */
  datatype LocalState = LocalState(sketch: Sketch, firstSeen: int, lastSeen: int, samples: nat)

  function NewLocal(now: int): LocalState { LocalState(EmptySketch(), now, now, 0) }

  function ObserveLocal(s: LocalState, hash: nat, now: int): LocalState
    requires |s.sketch.registers| == REGISTERS
  {
    LocalState(Observe(s.sketch, hash), s.firstSeen, now, s.samples + 1)
  }

  /** One row of the shared table. */
  datatype Row = Row(sketch: Sketch, firstSeen: int, lastSeen: int, samples: nat)

  /** The row an insert without conflict writes. */
  function InsertRow(hash: nat, now: int): Row {
    Row(Sketch(EmptySketch().registers[Index(hash) := Rank(hash)], [hash], false), now, now, 1)
  }

  /** The `ON CONFLICT DO UPDATE` of the upsert, clause by clause. */
  function UpdateRow(row: Row, hash: nat, now: int): Row
    requires |row.sketch.registers| == REGISTERS
  {
    var registers := row.sketch.registers;
    var stored := registers[Index(hash)];
    Row(Sketch(registers[Index(hash) := if stored >= Rank(hash) then stored else Rank(hash)],
               if row.sketch.overflow then row.sketch.exact
               else if hash in row.sketch.exact then row.sketch.exact
               else if |row.sketch.exact| < WINDOW then row.sketch.exact + [hash]
               else row.sketch.exact,
               row.sketch.overflow || (hash !in row.sketch.exact && |row.sketch.exact| >= WINDOW)),
        if row.firstSeen <= now then row.firstSeen else now,
        if row.lastSeen >= now then row.lastSeen else now,
        row.samples + 1)
  }

  lemma EmptyDescribes()
    ensures Describes(EmptySketch(), {})
  {
  }

  /** Inserting is observing on an empty sketch, and updating is observing on the stored one. */
  lemma UpsertObserves(row: Row, hash: nat, now: int)
    requires |row.sketch.registers| == REGISTERS
    ensures InsertRow(hash, now).sketch == Observe(EmptySketch(), hash)
    ensures UpdateRow(row, hash, now).sketch == Observe(row.sketch, hash)
  {
  }

  /** One observation of a dimension: the hash of its value and when it arrived. */
  datatype Arrival = Arrival(hash: nat, at: int)

  function Local(arrivals: seq<Arrival>): (s: LocalState)
    requires arrivals != []
    ensures |s.sketch.registers| == REGISTERS
  {
    var last := arrivals[|arrivals| - 1];
    if |arrivals| == 1 then ObserveLocal(NewLocal(last.at), last.hash, last.at)
    else ObserveLocal(Local(arrivals[..|arrivals| - 1]), last.hash, last.at)
  }

  function Shared(arrivals: seq<Arrival>): (r: Row)
    requires arrivals != []
    ensures |r.sketch.registers| == REGISTERS
  {
    var last := arrivals[|arrivals| - 1];
    if |arrivals| == 1 then InsertRow(last.hash, last.at)
    else UpdateRow(Shared(arrivals[..|arrivals| - 1]), last.hash, last.at)
  }

  ghost function Hashes(arrivals: seq<Arrival>): set<nat> {
    set a | a in arrivals :: a.hash
  }

  lemma HashesSnoc(arrivals: seq<Arrival>)
    requires arrivals != []
    ensures Hashes(arrivals) == Hashes(arrivals[..|arrivals| - 1]) + {arrivals[|arrivals| - 1].hash}
  {
    var last := arrivals[|arrivals| - 1];
    assert arrivals == arrivals[..|arrivals| - 1] + [last];
    assert last in arrivals;
  }

  lemma {:induction false} RunsDescribe(arrivals: seq<Arrival>)
    requires arrivals != []
    ensures Describes(Local(arrivals).sketch, Hashes(arrivals))
    ensures Describes(Shared(arrivals).sketch, Hashes(arrivals))
    ensures Local(arrivals).samples == Shared(arrivals).samples == |arrivals|
  {
    var before, last := arrivals[..|arrivals| - 1], arrivals[|arrivals| - 1];
    HashesSnoc(arrivals);
    if before == [] {
      EmptyDescribes();
      ObserveDescribes(EmptySketch(), {}, last.hash);
      UpsertObserves(InsertRow(last.hash, last.at), last.hash, last.at);
      assert Hashes(before) == {};
    } else {
      RunsDescribe(before);
      ObserveDescribes(Local(before).sketch, Hashes(before), last.hash);
      ObserveDescribes(Shared(before).sketch, Hashes(before), last.hash);
      UpsertObserves(Shared(before), last.hash, last.at);
    }
  }

  /**
  The observed count of a dimension depends on the set of hashed values only: any two
  arrival sequences with the same set agree, in process memory and in the shared row, and
  up to sixteen distinct values the count is exact.
   */
  lemma EstimateDependsOnSetOnly(count: seq<nat> -> nat, a: seq<Arrival>, b: seq<Arrival>)
    requires a != [] && b != [] && Hashes(a) == Hashes(b)
    ensures Estimate(count, Local(a).sketch) == Estimate(count, Local(b).sketch) == Estimate(count, Shared(b).sketch)
    ensures Local(a).sketch.overflow <==> |Hashes(a)| > WINDOW
    ensures |Hashes(a)| <= WINDOW ==> Estimate(count, Local(a).sketch) == |Hashes(a)|
  {
    RunsDescribe(a);
    RunsDescribe(b);
    DescriptionDecides(count, Local(a).sketch, Local(b).sketch, Hashes(a));
    DescriptionDecides(count, Local(b).sketch, Shared(b).sketch, Hashes(a));
  }

  /** The two trackers date the first sighting alike exactly when the first arrival was the earliest. */
  lemma {:induction false} FirstSeenAgrees(arrivals: seq<Arrival>)
    requires arrivals != []
    ensures Local(arrivals).firstSeen == arrivals[0].at
    ensures forall i :: 0 <= i < |arrivals| ==> Shared(arrivals).firstSeen <= arrivals[i].at
    ensures exists i :: 0 <= i < |arrivals| && Shared(arrivals).firstSeen == arrivals[i].at
    ensures Local(arrivals).firstSeen == Shared(arrivals).firstSeen <==>
              forall i :: 0 <= i < |arrivals| ==> arrivals[0].at <= arrivals[i].at
  {
    if |arrivals| > 1 {
      FirstSeenAgrees(arrivals[..|arrivals| - 1]);
      var before := Shared(arrivals[..|arrivals| - 1]);
      var j :| 0 <= j < |arrivals| - 1 && before.firstSeen == arrivals[..|arrivals| - 1][j].at;
      assert arrivals[..|arrivals| - 1][j] == arrivals[j];
    }
  }

  /** They date the last sighting alike exactly when the last arrival was the latest. */
  lemma {:induction false} LastSeenAgrees(arrivals: seq<Arrival>)
    requires arrivals != []
    ensures var last := arrivals[|arrivals| - 1].at;
            && Local(arrivals).lastSeen == last
            && (forall i :: 0 <= i < |arrivals| ==> arrivals[i].at <= Shared(arrivals).lastSeen)
            && (exists i :: 0 <= i < |arrivals| && Shared(arrivals).lastSeen == arrivals[i].at)
            && (Local(arrivals).lastSeen == Shared(arrivals).lastSeen <==>
                  forall i :: 0 <= i < |arrivals| ==> arrivals[i].at <= last)
  {
    if |arrivals| > 1 {
      LastSeenAgrees(arrivals[..|arrivals| - 1]);
      var before := Shared(arrivals[..|arrivals| - 1]);
      var j :| 0 <= j < |arrivals| - 1 && before.lastSeen == arrivals[..|arrivals| - 1][j].at;
      assert arrivals[..|arrivals| - 1][j] == arrivals[j];
    }
  }

  // ---------------------------------------------------------------- the bounded tracker

  /** A dimension within one hourly window. */
  datatype Key = Key(tenant: string, source: string, eventType: string, dimension: string, windowStart: int)

  type States = map<Key, LocalState>

  /** A late event with an earlier timestamp is enough to make them differ. */
  lemma LateArrivalDisagrees(hash: nat)
    ensures var arrivals := [Arrival(hash, 1), Arrival(hash, 0)];
            && Local(arrivals).firstSeen == 1 && Shared(arrivals).firstSeen == 0
            && Local(arrivals).lastSeen == 0 && Shared(arrivals).lastSeen == 1
  {
    var arrivals := [Arrival(hash, 1), Arrival(hash, 0)];
    FirstSeenAgrees(arrivals);
    assert arrivals[0].at == 1 && arrivals[1].at == 0;
  }

  /** Every tracked state is the one the hashes observed under its key determine. */
  ghost predicate Tracked(states: States, seen: map<Key, set<nat>>) {
    states.Keys == seen.Keys && forall key :: key in states ==> Describes(states[key].sketch, seen[key])
  }

  lemma TrackedUpdate(states: States, seen: map<Key, set<nat>>, key: Key, state: LocalState, hashes: set<nat>)
    requires Tracked(states, seen) && Describes(state.sketch, hashes)
    ensures Tracked(states[key := state], seen[key := hashes])
    ensures |states[key := state]| == if key in states then |states| else |states| + 1
  {
    if key in states {
      assert (states[key := state]).Keys == states.Keys;
    } else {
      assert (states[key := state]).Keys == states.Keys + {key};
    }
  }

  lemma TrackedRemove(states: States, seen: map<Key, set<nat>>, key: Key)
    requires Tracked(states, seen) && key in states
    ensures Tracked(states - {key}, seen - {key}) && |states - {key}| == |states| - 1
  {
    assert states.Keys == (states - {key}).Keys + {key};
  }

  /** A state seen longest ago. */
  method Oldest(states: States) returns (oldest: Key)
    requires states != map[]
    ensures oldest in states
    ensures forall other :: other in states ==> states[oldest].lastSeen <= states[other].lastSeen
  {
    var pending := states.Keys;
    oldest :| oldest in pending;
    pending := pending - {oldest};
    while pending != {}
      invariant pending <= states.Keys && oldest in states
      invariant forall other :: other in states && other !in pending ==> states[oldest].lastSeen <= states[other].lastSeen
      decreases pending
    {
      var key :| key in pending;
      pending := pending - {key};
      if states[key].lastSeen < states[oldest].lastSeen {
        oldest := key;
      }
    }
  }

  lemma OthersKept<V>(before: map<Key, V>, middle: map<Key, V>, after: map<Key, V>, evicted: set<Key>, key: Key)
    requires key in after && after == middle[key := after[key]]
    requires (middle == before && evicted == {}) || (key in middle && middle == (before - evicted)[key := middle[key]])
    ensures after - {key} == before - evicted - {key}
  {
  }

  class Tracker {
    const maxDimensions: nat
    var states: States
    ghost var seen: map<Key, set<nat>>

    ghost predicate Valid()
      reads this
    {
      1 <= maxDimensions && |states| <= maxDimensions && Tracked(states, seen)
    }

    constructor (limit: int)
      ensures Valid() && states == map[] && maxDimensions == if limit < 1 then 20000 else limit
    {
      maxDimensions := if limit < 1 then 20000 else limit;
      states, seen := map[], map[];
    }

    /** Makes room for a new key, dropping a state seen longest ago when the tracker is full. */
    method MakeRoom() returns (ghost evicted: set<Key>)
      requires Valid()
      modifies this
      ensures Valid() && |states| < maxDimensions
      ensures states == old(states) - evicted && seen == old(seen) - evicted && evicted <= old(states).Keys
      ensures old(|states|) < maxDimensions ==> evicted == {}
      ensures old(|states|) >= maxDimensions ==> |evicted| == 1
      ensures forall key, other :: key in evicted && other in old(states) ==>
                old(states)[key].lastSeen <= old(states)[other].lastSeen
    {
      evicted := {};
      if |states| >= maxDimensions {
        var oldest := Oldest(states);
        TrackedRemove(states, seen, oldest);
        evicted := {oldest};
        states, seen := states - {oldest}, seen - {oldest};
      }
    }

    /** For a key that is tracked, the answer is the estimate of the set of hashes observed under it. */
    method ObserveTracked(key: Key, hash: nat, now: int, count: seq<nat> -> nat) returns (observed: nat)
      requires Valid() && key in states
      modifies this
      ensures Valid() && states == old(states)[key := ObserveLocal(old(states)[key], hash, now)]
      ensures seen == old(seen)[key := old(seen)[key] + {hash}]
      ensures observed == Estimate(count, states[key].sketch)
      ensures |seen[key]| <= WINDOW ==> observed == |seen[key]|
    {
      ghost var hashes := seen[key] + {hash};
      ObserveDescribes(states[key].sketch, seen[key], hash);
      var state := ObserveState(states[key], hash, now);
      TrackedUpdate(states, seen, key, state, hashes);
      DescriptionDecides(count, state.sketch, state.sketch, hashes);
      states, seen := states[key := state], seen[key := hashes];
      observed := if state.sketch.overflow then count(state.sketch.registers) else |state.sketch.exact|;
    }

    /** An unknown key starts empty, possibly at the price of the oldest other key. */
    method Admit(key: Key, now: int) returns (ghost evicted: set<Key>)
      requires Valid()
      modifies this
      ensures Valid() && key in states && evicted <= old(states).Keys - {key}
      ensures key in old(states) ==> evicted == {} && states == old(states) && seen == old(seen)
      ensures old(|states|) < maxDimensions ==> evicted == {}
      ensures key !in old(states) ==>
                states == (old(states) - evicted)[key := NewLocal(now)] && seen == (old(seen) - evicted)[key := {}]
    {
      evicted := {};
      if key !in states {
        evicted := MakeRoom();
        EmptyDescribes();
        TrackedUpdate(states, seen, key, NewLocal(now), {});
        states, seen := states[key := NewLocal(now)], seen[key := {}];
      }
    }

    /**
    One observation.  Every other key that was not evicted keeps its state; this key's
    state and answer are those of the set of hashes observed under it.
     */
    method Observe(key: Key, hash: nat, now: int, count: seq<nat> -> nat)
      returns (observed: nat, firstSeen: int, ghost evicted: set<Key>)
      requires Valid()
      modifies this
      ensures Valid() && key in states
      ensures evicted <= old(states).Keys - {key} && (key in old(states) || old(|states|) < maxDimensions ==> evicted == {})
      ensures states - {key} == old(states) - evicted - {key} && seen - {key} == old(seen) - evicted - {key}
      ensures seen[key] == (if key in old(seen) then old(seen)[key] else {}) + {hash}
      ensures states[key] == ObserveLocal(if key in old(states) then old(states)[key] else NewLocal(now), hash, now)
      ensures observed == Estimate(count, states[key].sketch) && firstSeen == states[key].firstSeen
      ensures |seen[key]| <= WINDOW ==> observed == |seen[key]|
    {
      ghost var states0, seen0 := states, seen;
      evicted := Admit(key, now);
      ghost var states1, seen1 := states, seen;
      observed := ObserveTracked(key, hash, now, count);
      OthersKept(states0, states1, states, evicted, key);
      OthersKept(seen0, seen1, seen, evicted, key);
      firstSeen := states[key].firstSeen;
    }
  }

  /** Both halves of an observation on one state: the registers and the exact window. */
  method ObserveState(s: LocalState, hash: nat, now: int) returns (s': LocalState)
    requires |s.sketch.registers| == REGISTERS
    ensures s' == ObserveLocal(s, hash, now)
  {
    var registers := s.sketch.registers;
    var index, rank := HLLRegister(hash);
    if rank > registers[index] {
      registers := registers[index := rank];
    }
    var exact, overflow := ObserveExactScan(s.sketch.exact, s.sketch.overflow, hash);
    s' := LocalState(Sketch(registers, exact, overflow), s.firstSeen, now, s.samples + 1);
  }
}
