/** The ring does not hold on to what was popped: a slot that waits for a push holds the zero value. */
module RingClears {
  import opened Arith
  import opened Ring
  import opened RingInvariant
  import opened RingSafety

  /** The slot waits for a push that nobody has claimed yet. */
  predicate Waiting<T>(m: Memory<T>, i: nat)
    requires i < |m.slots|
  {
    m.slots[i].sequence >= m.enqueue && m.slots[i].sequence % |m.slots| == i
  }

  ghost predicate WaitingClear<T>(m: Memory<T>, zero: T) {
    forall i :: 0 <= i < |m.slots| && Waiting(m, i) ==> m.slots[i].value == zero
  }

  /** A pop about to free its slot has cleared it. */
  ghost predicate Cleared<T>(m: Memory<T>, zero: T, pc: Thread<T>)
    requires |m.slots| > 0
  {
    pc.PopFree? ==> m.slots[pc.position % |m.slots|].value == zero
  }

  ghost predicate ClearInv<T>(s: State<T>, zero: T) {
    |s.memory.slots| > 0 && WaitingClear(s.memory, zero) && AllCleared(s.memory, zero, s.threads)
  }

  lemma NextIsElsewhere(position: nat, n: nat)
    requires n >= 2
    ensures (position + 1) % n != position % n
  {
    if (position + 1) % n == position % n {
      SameResidueApart(position, position + 1, n);
    }
  }

  /** A value is only written to a slot that no pop is about to free. */
  lemma WriteSparesPops<T>(m: Memory<T>, pc: Thread<T>, other: Thread<T>)
    requires MemoryInv(m) && pc.PushWrite? && other.PopFree? && ThreadInv(m, pc) && ThreadInv(m, other)
    ensures pc.position % |m.slots| != other.position % |m.slots|
  {
    NextIsElsewhere(other.position, |m.slots|);
  }

  lemma StepKeepsWaitingClear<T>(m: Memory<T>, k: nat, zero: T, pc: Thread<T>)
    requires |m.slots| == Pow2(k) && MemoryInv(m) && ThreadInv(m, pc) && WaitingClear(m, zero) && Cleared(m, zero, pc)
    ensures WaitingClear(Touch(m, k, zero, pc), zero)
  {
    if pc.PushPublish? {
      NextIsElsewhere(pc.position, |m.slots|);
    }
  }

  lemma StepKeepsCleared<T>(m: Memory<T>, k: nat, zero: T, pc: Thread<T>, other: Thread<T>)
    requires |m.slots| == Pow2(k) && MemoryInv(m) && ThreadInv(m, pc) && ThreadInv(m, other) && Cleared(m, zero, other)
    ensures Cleared(Touch(m, k, zero, pc), zero, other)
  {
    if pc.PushWrite? && other.PopFree? {
      WriteSparesPops(m, pc, other);
    }
  }

  lemma StepClearsOwn<T>(m: Memory<T>, k: nat, zero: T, pc: Thread<T>)
    requires |m.slots| == Pow2(k)
    ensures Cleared(Touch(m, k, zero, pc), zero, Next(m, k, pc))
  {
  }

  ghost predicate AllCleared<T>(m: Memory<T>, zero: T, threads: map<nat, Thread<T>>)
    requires |m.slots| > 0
  {
    forall thread :: Cleared(m, zero, At(threads, thread))
  }

  lemma StepKeepsClear<T>(m: Memory<T>, threads: map<nat, Thread<T>>, k: nat, zero: T, thread: nat)
    requires |m.slots| == Pow2(k) && MemoryInv(m) && ThreadsInv(m, threads) && AllCleared(m, zero, threads)
    ensures AllCleared(Touch(m, k, zero, At(threads, thread)), zero, threads[thread := Next(m, k, At(threads, thread))])
  {
    var pc := At(threads, thread);
    var m', threads' := Touch(m, k, zero, pc), threads[thread := Next(m, k, pc)];
    forall other
      ensures Cleared(m', zero, At(threads', other))
    {
      if other == thread {
        StepClearsOwn(m, k, zero, pc);
      } else {
        assert At(threads', other) == At(threads, other);
        assert ThreadInv(m, pc) && ThreadInv(m, At(threads, other)) && Cleared(m, zero, At(threads, other));
        StepKeepsCleared(m, k, zero, pc, At(threads, other));
      }
    }
  }

  lemma StartKeepsClear<T>(m: Memory<T>, threads: map<nat, Thread<T>>, zero: T, thread: nat, pc: Thread<T>)
    requires |m.slots| > 0 && AllCleared(m, zero, threads) && !pc.PopFree?
    ensures AllCleared(m, zero, threads[thread := pc])
  {
    var threads' := threads[thread := pc];
    forall other
      ensures Cleared(m, zero, At(threads', other))
    {
      assert other == thread || Cleared(m, zero, At(threads, other));
    }
  }

  lemma ApplyKeepsClear<T>(s: State<T>, k: nat, zero: T, action: Action<T>)
    requires WellFormed(s, k) && MemoryInv(s.memory) && ThreadsInv(s.memory, s.threads) && ClearInv(s, zero)
    ensures ClearInv(Apply(s, k, zero, action), zero)
  {
    var pc := At(s.threads, action.thread);
    match action
    case StartPush(thread, item) => StartKeepsClear(s.memory, s.threads, zero, thread, PushLoad(item, 0));
    case StartPop(thread) => StartKeepsClear(s.memory, s.threads, zero, thread, PopLoad(0));
    case Step(thread) =>
      StepKeepsClear(s.memory, s.threads, k, zero, thread);
      assert ThreadInv(s.memory, pc) && Cleared(s.memory, zero, pc);
      StepKeepsWaitingClear(s.memory, k, zero, pc);
  }

  /** Every interleaving leaves the slots that wait for a push cleared. */
  lemma {:induction false} ReachableClear<T>(k: nat, zero: T, actions: seq<Action<T>>)
    requires k >= 1
    ensures ClearInv(Execute(k, zero, actions), zero)
  {
    if actions != [] {
      var before := actions[..|actions| - 1];
      ReachableClear(k, zero, before);
      ReachableInv(k, zero, before);
      ApplyKeepsClear(Execute(k, zero, before), k, zero, actions[|actions| - 1]);
    }
  }

  lemma FullIsLive<T>(s: State<T>, i: nat)
    requires Inv(s) && i < |s.memory.slots| && Full(s.memory, i) && forall thread :: At(s.threads, thread).Idle?
    ensures var ticket := s.memory.slots[i].sequence - 1;
            s.memory.dequeue <= ticket < |s.memory.pushed| && ticket % |s.memory.slots| == i && s.memory.slots[i].value == s.memory.pushed[ticket]
  {
    var ticket := s.memory.slots[i].sequence - 1;
    NotReturnedYet(s, ticket);
    assert !Popping(s.threads, ticket);
  }

  /** With no thread inside an operation, a slot holds a value still to be popped or nothing at all. */
  lemma QuiescentRingKeepsNothing<T>(k: nat, zero: T, actions: seq<Action<T>>, i: nat)
    requires k >= 1 && i < Pow2(k)
    requires forall thread :: At(Execute(k, zero, actions).threads, thread).Idle?
    ensures var m := Execute(k, zero, actions).memory;
            || m.slots[i].value == zero
            || exists ticket :: m.dequeue <= ticket < |m.pushed| && ticket % |m.slots| == i && m.slots[i].value == m.pushed[ticket]
  {
    var s := Execute(k, zero, actions);
    var m := s.memory;
    ReachableInv(k, zero, actions);
    ReachableClear(k, zero, actions);
    assert !Pushing(s.threads, m.slots[i].sequence);
    if Free(m, i) {
      assert Waiting(m, i);
    } else {
      assert Full(m, i);
      FullIsLive(s, i);
    }
  }
}
