/** A schedule in which the ring refuses a push although it holds nothing: a stalled pop keeps its slot. */
module RingStall {
  import opened Arith
  import opened Ring

  ghost predicate Reachable<T(!new)>(k: nat, zero: T, s: State<T>) {
    exists actions: seq<Action<T>> :: Execute(k, zero, actions) == s
  }

  lemma ReachNext<T(!new)>(k: nat, zero: T, s: State<T>, action: Action<T>)
    requires WellFormed(s, k) && Reachable(k, zero, s)
    ensures Reachable(k, zero, Apply(s, k, zero, action))
  {
    var actions: seq<Action<T>> :| Execute(k, zero, actions) == s;
    var more := actions + [action];
    assert more[..|more| - 1] == actions;
    assert Execute(k, zero, more) == Apply(s, k, zero, action);
  }

  /** A thread that runs alone for one step. */
  lemma RunStep<T(!new)>(k: nat, zero: T, s: State<T>, thread: nat, s': State<T>)
    requires WellFormed(s, k) && Reachable(k, zero, s) && s' == Apply(s, k, zero, Step(thread))
    ensures WellFormed(s', k) && Reachable(k, zero, s')
  {
    ReachNext(k, zero, s, Step(thread));
  }

  // ---------------------------------------------------------------- operations that run alone

  /** A push up to its peek: the ticket is loaded, nothing is claimed. */
  lemma PushLoads<T(!new)>(k: nat, zero: T, s: State<T>, thread: nat, item: T)
    requires WellFormed(s, k) && Reachable(k, zero, s) && At(s.threads, thread).Idle?
    ensures Reachable(k, zero, s.(threads := s.threads[thread := PushPeek(item, 0, s.memory.enqueue)]))
  {
    ReachNext(k, zero, s, StartPush(thread, item));
    var started := s.(threads := s.threads[thread := PushLoad(item, 0)]);
    var loaded := s.(threads := s.threads[thread := PushPeek(item, 0, s.memory.enqueue)]);
    assert started.threads[thread := PushPeek(item, 0, s.memory.enqueue)] == loaded.threads;
    RunStep(k, zero, started, thread, loaded);
  }

  function Claimed<T>(s: State<T>, thread: nat, item: T): State<T> {
    State(s.memory.(enqueue := s.memory.enqueue + 1, pushed := s.memory.pushed + [item]),
          s.threads[thread := PushWrite(item, s.memory.enqueue)], s.popped)
  }

  lemma PushClaims<T(!new)>(k: nat, zero: T, s: State<T>, thread: nat, item: T)
    requires WellFormed(s, k) && Reachable(k, zero, s) && At(s.threads, thread).Idle?
    requires s.memory.slots[Index(s.memory.enqueue, k)].sequence == s.memory.enqueue
    ensures Reachable(k, zero, Claimed(s, thread, item))
  {
    var position := s.memory.enqueue;
    PushLoads(k, zero, s, thread, item);
    var loaded := s.(threads := s.threads[thread := PushPeek(item, 0, position)]);
    var peeked := s.(threads := s.threads[thread := PushDecide(item, 0, position, position)]);
    assert loaded.threads[thread := PushDecide(item, 0, position, position)] == peeked.threads;
    RunStep(k, zero, loaded, thread, peeked);
    assert peeked.threads[thread := PushWrite(item, position)] == Claimed(s, thread, item).threads;
    RunStep(k, zero, peeked, thread, Claimed(s, thread, item));
  }

  function Pushed<T>(k: nat, s: State<T>, thread: nat, item: T): State<T>
    requires WellFormed(s, k)
  {
    var m := s.memory;
    State(Memory(m.slots[Index(m.enqueue, k) := Slot(m.enqueue + 1, item)], m.enqueue + 1, m.dequeue, m.pushed + [item]),
          s.threads[thread := Idle], s.popped)
  }

  lemma PushRuns<T(!new)>(k: nat, zero: T, s: State<T>, thread: nat, item: T)
    requires WellFormed(s, k) && Reachable(k, zero, s) && At(s.threads, thread).Idle?
    requires s.memory.slots[Index(s.memory.enqueue, k)].sequence == s.memory.enqueue
    ensures Reachable(k, zero, Pushed(k, s, thread, item))
  {
    PushClaims(k, zero, s, thread, item);
    var won := Claimed(s, thread, item);
    var written := Apply(won, k, zero, Step(thread));
    RunStep(k, zero, won, thread, written);
    var published := Apply(written, k, zero, Step(thread));
    RunStep(k, zero, written, thread, published);
    assert published.threads == s.threads[thread := Idle];
    assert published == Pushed(k, s, thread, item);
  }

  lemma PopLoads<T(!new)>(k: nat, zero: T, s: State<T>, thread: nat)
    requires WellFormed(s, k) && Reachable(k, zero, s) && At(s.threads, thread).Idle?
    ensures Reachable(k, zero, s.(threads := s.threads[thread := PopPeek(0, s.memory.dequeue)]))
  {
    ReachNext(k, zero, s, StartPop(thread));
    var started := s.(threads := s.threads[thread := PopLoad(0)]);
    var loaded := s.(threads := s.threads[thread := PopPeek(0, s.memory.dequeue)]);
    assert started.threads[thread := PopPeek(0, s.memory.dequeue)] == loaded.threads;
    RunStep(k, zero, started, thread, loaded);
  }

  function PopClaimed<T>(s: State<T>, thread: nat): State<T> {
    State(s.memory.(dequeue := s.memory.dequeue + 1), s.threads[thread := PopRead(s.memory.dequeue)], s.popped)
  }

  lemma PopClaims<T(!new)>(k: nat, zero: T, s: State<T>, thread: nat)
    requires WellFormed(s, k) && Reachable(k, zero, s) && At(s.threads, thread).Idle?
    requires s.memory.slots[Index(s.memory.dequeue, k)].sequence == s.memory.dequeue + 1
    ensures Reachable(k, zero, PopClaimed(s, thread))
  {
    var position := s.memory.dequeue;
    PopLoads(k, zero, s, thread);
    var loaded := s.(threads := s.threads[thread := PopPeek(0, position)]);
    var peeked := s.(threads := s.threads[thread := PopDecide(0, position, position + 1)]);
    assert loaded.threads[thread := PopDecide(0, position, position + 1)] == peeked.threads;
    RunStep(k, zero, loaded, thread, peeked);
    assert peeked.threads[thread := PopRead(position)] == PopClaimed(s, thread).threads;
    RunStep(k, zero, peeked, thread, PopClaimed(s, thread));
  }

  function Popped<T>(k: nat, zero: T, s: State<T>, thread: nat): State<T>
    requires WellFormed(s, k)
  {
    var m := s.memory;
    var i := Index(m.dequeue, k);
    State(Memory(m.slots[i := Slot(m.dequeue + |m.slots|, zero)], m.enqueue, m.dequeue + 1, m.pushed),
          s.threads[thread := Idle], s.popped + [Receipt(m.dequeue, m.slots[i].value)])
  }

  lemma PopRuns<T(!new)>(k: nat, zero: T, s: State<T>, thread: nat)
    requires WellFormed(s, k) && Reachable(k, zero, s) && At(s.threads, thread).Idle?
    requires s.memory.slots[Index(s.memory.dequeue, k)].sequence == s.memory.dequeue + 1
    ensures Reachable(k, zero, Popped(k, zero, s, thread))
  {
    PopClaims(k, zero, s, thread);
    PopReads(k, zero, s, thread);
    var read := PopHolds(k, s, thread);
    var cleared := Apply(read, k, zero, Step(thread));
    RunStep(k, zero, read, thread, cleared);
    var freed := Apply(cleared, k, zero, Step(thread));
    RunStep(k, zero, cleared, thread, freed);
    assert freed.threads == s.threads[thread := Idle];
    assert freed == Popped(k, zero, s, thread);
  }

  function PopHolds<T>(k: nat, s: State<T>, thread: nat): State<T>
    requires WellFormed(s, k)
  {
    var position := s.memory.dequeue;
    State(s.memory.(dequeue := position + 1), s.threads[thread := PopClear(position, s.memory.slots[Index(position, k)].value)], s.popped)
  }

  lemma PopReads<T(!new)>(k: nat, zero: T, s: State<T>, thread: nat)
    requires WellFormed(s, k) && Reachable(k, zero, PopClaimed(s, thread))
    ensures Reachable(k, zero, PopHolds(k, s, thread))
  {
    assert Apply(PopClaimed(s, thread), k, zero, Step(thread)).threads == PopHolds(k, s, thread).threads;
    RunStep(k, zero, PopClaimed(s, thread), thread, PopHolds(k, s, thread));
  }

  // ---------------------------------------------------------------- the schedule

  lemma TwoSlots()
    ensures Pow2(1) == 2 && Index(0, 1) == 0 && Index(1, 1) == 1 && Index(2, 1) == 0
  {
    assert Pow2(1) == 2 * Pow2(0);
  }

  /** Two values pushed. */
  function Filled<T>(a: T, b: T): State<T> {
    State(Memory([Slot(1, a), Slot(2, b)], 2, 0, [a, b]), map[0 := Idle], [])
  }

  lemma FilledIsReachable<T(!new)>(zero: T, a: T, b: T)
    ensures Reachable(1, zero, Filled(a, b))
  {
    TwoSlots();
    var start := Fresh(1, zero);
    var none: seq<Action<T>> := [];
    assert Execute(1, zero, none) == start;
    assert start.memory.slots == [Slot(0, zero), Slot(1, zero)];
    PushRuns(1, zero, start, 0, a);
    var one := Pushed(1, start, 0, a);
    assert one == State(Memory([Slot(1, a), Slot(1, zero)], 1, 0, [a]), map[0 := Idle], []);
    PushRuns(1, zero, one, 0, b);
    assert Pushed(1, one, 0, b).threads == map[0 := Idle];
    assert Pushed(1, one, 0, b) == Filled(a, b);
  }

  /** One pop has claimed the first value and stalled; another has returned the second. */
  function Stalled<T>(zero: T, a: T, b: T): State<T> {
    State(Memory([Slot(1, a), Slot(3, zero)], 2, 2, [a, b]), map[0 := Idle, 1 := PopRead(0), 2 := Idle], [Receipt(1, b)])
  }

  lemma StalledIsReachable<T(!new)>(zero: T, a: T, b: T)
    ensures Reachable(1, zero, Stalled(zero, a, b))
  {
    TwoSlots();
    FilledIsReachable(zero, a, b);
    PopClaims(1, zero, Filled(a, b), 1);
    var claimed := PopClaimed(Filled(a, b), 1);
    assert claimed == State(Memory([Slot(1, a), Slot(2, b)], 2, 1, [a, b]), map[0 := Idle, 1 := PopRead(0)], []);
    PopRuns(1, zero, claimed, 2);
    assert Popped(1, zero, claimed, 2).threads == Stalled(zero, a, b).threads;
    assert Popped(1, zero, claimed, 2) == Stalled(zero, a, b);
  }

  /** With as many values claimed as were pushed, the ring is empty; a push still finds its slot lagging and gives up. */
  lemma EmptyRingRefuses<T(!new)>(zero: T, a: T, b: T, item: T) returns (actions: seq<Action<T>>)
    ensures var s := Execute(1, zero, actions);
            var pc := At(s.threads, 3);
            && s.memory.enqueue == s.memory.dequeue
            && pc.PushPeek? && s.memory.slots[Index(pc.position, 1)].sequence < pc.position
  {
    TwoSlots();
    StalledIsReachable(zero, a, b);
    var s := Stalled(zero, a, b);
    PushLoads(1, zero, s, 3, item);
    var waiting := s.(threads := s.threads[3 := PushPeek(item, 0, 2)]);
    assert At(waiting.threads, 3) == PushPeek(item, 0, 2);
    actions :| Execute(1, zero, actions) == waiting;
  }
}
