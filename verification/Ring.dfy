/**
The bounded lock-free multi-producer multi-consumer queue, as a step system.

Every atomic load, compare-and-swap, value access and sequence store of `TryPush` and
`TryPop` is one step of one thread; an execution is an arbitrary list of actions of
arbitrarily many threads.  Tickets are unbounded naturals.
 */
module Ring {
  import opened Arith

  datatype Slot<T> = Slot(sequence: nat, value: T)

  /** Where a thread stands inside `TryPush` or `TryPop`. */
  datatype Thread<T> =
    | Idle
    | PushLoad(item: T, attempts: nat)
    | PushPeek(item: T, attempts: nat, position: nat)
    | PushDecide(item: T, attempts: nat, position: nat, sequence: nat)
    | PushWrite(item: T, position: nat)
    | PushPublish(item: T, position: nat)
    | PopLoad(attempts: nat)
    | PopPeek(attempts: nat, position: nat)
    | PopDecide(attempts: nat, position: nat, sequence: nat)
    | PopRead(position: nat)
    | PopClear(position: nat, item: T)
    | PopFree(position: nat, item: T)

  /** The shared words of the ring; `pushed` records the item of every enqueue ticket. */
  datatype Memory<T> = Memory(slots: seq<Slot<T>>, enqueue: nat, dequeue: nat, pushed: seq<T>)

  /** One successful `TryPop`: the dequeue ticket it won and the value it returned. */
  datatype Receipt<T> = Receipt(ticket: nat, item: T)

  datatype State<T> = State(memory: Memory<T>, threads: map<nat, Thread<T>>, popped: seq<Receipt<T>>)

  datatype Action<T> =
    | StartPush(thread: nat, item: T)
    | StartPop(thread: nat)
    | Step(thread: nat)

  const MAX_ATTEMPTS := 32

  /** The ring `NewRing` builds when it rounds the capacity to `Pow2(k)`. */
  function Fresh<T>(k: nat, zero: T): (s: State<T>) {
    State(Memory(seq(Pow2(k), i requires 0 <= i => Slot(i, zero)), 0, 0, []), map[], [])
  }

  predicate WellFormed<T>(s: State<T>, k: nat) {
    |s.memory.slots| == Pow2(k)
  }

  function At<T>(threads: map<nat, Thread<T>>, thread: nat): Thread<T> {
    if thread in threads then threads[thread] else Idle
  }

  /** `position & mask`. */
  function Index(position: nat, k: nat): (i: nat)
    ensures i == position % Pow2(k) && i < Pow2(k)
  {
    MaskIsModulo(position, k);
    BitAnd(position, Pow2(k) - 1)
  }

  function RetryPush<T>(item: T, attempts: nat): Thread<T> {
    if attempts + 1 < MAX_ATTEMPTS then PushLoad(item, attempts + 1) else Idle
  }

  function RetryPop<T>(attempts: nat): Thread<T> {
    if attempts + 1 < MAX_ATTEMPTS then PopLoad(attempts + 1) else Idle
  }

  /** What one step of a thread at `pc` does to shared memory. */
  function Touch<T>(m: Memory<T>, k: nat, zero: T, pc: Thread<T>): (m': Memory<T>)
    requires |m.slots| == Pow2(k)
    ensures |m'.slots| == Pow2(k)
  {
    match pc
    case PushDecide(item, _, position, sequence) =>
      if sequence == position && m.enqueue == position
      then m.(enqueue := position + 1, pushed := m.pushed + [item]) else m
    case PushWrite(item, position) =>
      var i := Index(position, k);
      m.(slots := m.slots[i := m.slots[i].(value := item)])
    case PushPublish(item, position) =>
      var i := Index(position, k);
      m.(slots := m.slots[i := m.slots[i].(sequence := position + 1)])
    case PopDecide(_, position, sequence) =>
      if sequence == position + 1 && m.dequeue == position then m.(dequeue := position + 1) else m
    case PopClear(position, _) =>
      var i := Index(position, k);
      m.(slots := m.slots[i := m.slots[i].(value := zero)])
    case PopFree(position, _) =>
      var i := Index(position, k);
      m.(slots := m.slots[i := m.slots[i].(sequence := position + |m.slots|)])
    case _ => m
  }

  /** Where one step takes a thread at `pc`. */
  function Next<T>(m: Memory<T>, k: nat, pc: Thread<T>): (pc': Thread<T>)
    requires |m.slots| == Pow2(k)
  {
    match pc
    case Idle => Idle
    case PushLoad(item, attempts) => PushPeek(item, attempts, m.enqueue)
    case PushPeek(item, attempts, position) =>
      PushDecide(item, attempts, position, m.slots[Index(position, k)].sequence)
    case PushDecide(item, attempts, position, sequence) =>
      if sequence == position then
        if m.enqueue == position then PushWrite(item, position) else RetryPush(item, attempts)
      else if sequence < position then Idle
      else RetryPush(item, attempts)
    case PushWrite(item, position) => PushPublish(item, position)
    case PushPublish(_, _) => Idle
    case PopLoad(attempts) => PopPeek(attempts, m.dequeue)
    case PopPeek(attempts, position) =>
      PopDecide(attempts, position, m.slots[Index(position, k)].sequence)
    case PopDecide(attempts, position, sequence) =>
      if sequence == position + 1 then
        if m.dequeue == position then PopRead(position) else RetryPop(attempts)
      else if sequence < position + 1 then Idle
      else RetryPop(attempts)
    case PopRead(position) => PopClear(position, m.slots[Index(position, k)].value)
    case PopClear(position, item) => PopFree(position, item)
    case PopFree(_, _) => Idle
  }

  function Apply<T>(s: State<T>, k: nat, zero: T, action: Action<T>): (s': State<T>)
    requires WellFormed(s, k)
    ensures WellFormed(s', k)
  {
    var pc := At(s.threads, action.thread);
    match action
    case StartPush(thread, item) =>
      if pc.Idle? then s.(threads := s.threads[thread := PushLoad(item, 0)]) else s
    case StartPop(thread) =>
      if pc.Idle? then s.(threads := s.threads[thread := PopLoad(0)]) else s
    case Step(thread) =>
      State(Touch(s.memory, k, zero, pc),
            s.threads[thread := Next(s.memory, k, pc)],
            if pc.PopFree? then s.popped + [Receipt(pc.position, pc.item)] else s.popped)
  }

  /** The state after an arbitrary interleaving. */
  function Execute<T>(k: nat, zero: T, actions: seq<Action<T>>): (s: State<T>)
    ensures WellFormed(s, k)
  {
    if actions == [] then Fresh(k, zero)
    else Apply(Execute(k, zero, actions[..|actions| - 1]), k, zero, actions[|actions| - 1])
  }

  // ---------------------------------------------------------------- invariant

  predicate OwnsPush<T>(pc: Thread<T>, ticket: nat) {
    (pc.PushWrite? || pc.PushPublish?) && pc.position == ticket
  }

  predicate OwnsPop<T>(pc: Thread<T>, ticket: nat) {
    (pc.PopRead? || pc.PopClear? || pc.PopFree?) && pc.position == ticket
  }

  ghost predicate Pushing<T>(threads: map<nat, Thread<T>>, ticket: nat) {
    exists thread :: OwnsPush(At(threads, thread), ticket)
  }

  ghost predicate Popping<T>(threads: map<nat, Thread<T>>, ticket: nat) {
    exists thread :: OwnsPop(At(threads, thread), ticket)
  }

  ghost predicate Returned<T>(popped: seq<Receipt<T>>, ticket: nat) {
    exists r :: 0 <= r < |popped| && popped[r].ticket == ticket
  }

  /** Slot `i` waits for the push of the ticket that is its sequence number. */
  ghost predicate Free<T>(m: Memory<T>, i: nat)
    requires i < |m.slots|
  {
    var ticket := m.slots[i].sequence;
    ticket % |m.slots| == i && m.dequeue <= ticket < m.dequeue + |m.slots|
  }

  /** Slot `i` holds the value of the ticket just below its sequence number. */
  ghost predicate Full<T>(m: Memory<T>, i: nat)
    requires i < |m.slots|
  {
    var ticket := m.slots[i].sequence - 1;
    && 0 <= ticket < |m.pushed|
    && ticket % |m.slots| == i
    && ticket < m.enqueue <= ticket + |m.slots|
    && (m.dequeue <= ticket ==> m.slots[i].value == m.pushed[ticket])
  }

  ghost predicate MemoryInv<T>(m: Memory<T>) {
    && |m.slots| >= 2
    && |m.pushed| == m.enqueue
    && m.dequeue <= m.enqueue <= m.dequeue + |m.slots|
    && (forall i :: 0 <= i < |m.slots| ==> Free(m, i) || Full(m, i))
  }

  ghost predicate ThreadInv<T>(m: Memory<T>, pc: Thread<T>)
    requires |m.slots| > 0
  {
    match pc
    case PushPeek(_, _, position) => position <= m.enqueue
    case PushDecide(_, _, position, sequence) =>
      position <= m.enqueue && sequence <= m.slots[position % |m.slots|].sequence
    case PushWrite(item, position) =>
      && position < m.enqueue && position < |m.pushed| && m.pushed[position] == item
      && m.slots[position % |m.slots|].sequence == position
    case PushPublish(item, position) =>
      && position < m.enqueue && position < |m.pushed| && m.pushed[position] == item
      && m.slots[position % |m.slots|] == Slot(position, item)
    case PopPeek(_, position) => position <= m.dequeue
    case PopDecide(_, position, sequence) =>
      position <= m.dequeue && sequence <= m.slots[position % |m.slots|].sequence
    case PopRead(position) =>
      && position < m.dequeue && position < |m.pushed|
      && m.slots[position % |m.slots|] == Slot(position + 1, m.pushed[position])
    case PopClear(position, item) =>
      && position < m.dequeue && position < |m.pushed| && m.pushed[position] == item
      && m.slots[position % |m.slots|].sequence == position + 1
    case PopFree(position, item) =>
      && position < m.dequeue && position < |m.pushed| && m.pushed[position] == item
      && m.slots[position % |m.slots|].sequence == position + 1
    case _ => true
  }

  ghost predicate ThreadsInv<T>(m: Memory<T>, threads: map<nat, Thread<T>>)
    requires |m.slots| > 0
  {
    forall thread :: ThreadInv(m, At(threads, thread))
  }

  ghost predicate OwnersUnique<T>(threads: map<nat, Thread<T>>) {
    && (forall a, b, ticket :: OwnsPush(At(threads, a), ticket) && OwnsPush(At(threads, b), ticket) ==> a == b)
    && (forall a, b, ticket :: OwnsPop(At(threads, a), ticket) && OwnsPop(At(threads, b), ticket) ==> a == b)
  }

  /** A claimed ticket that is not yet published, or not yet returned, has a thread working on it. */
  ghost predicate Attended<T>(s: State<T>) {
    && (forall i {:trigger s.memory.slots[i]} :: 0 <= i < |s.memory.slots| ==>
          Free(s.memory, i) && s.memory.slots[i].sequence < s.memory.enqueue ==>
            Pushing(s.threads, s.memory.slots[i].sequence))
    && (forall ticket :: 0 <= ticket < s.memory.dequeue ==>
          Returned(s.popped, ticket) || Popping(s.threads, ticket))
  }

  /** The slot of `ticket` has been handed on to the next lap. */
  predicate PastLap<T>(m: Memory<T>, ticket: nat) {
    |m.slots| > 0 && m.slots[ticket % |m.slots|].sequence >= ticket + |m.slots|
  }

  ghost predicate ReceiptsInv<T>(s: State<T>) {
    && (forall r {:trigger s.popped[r]} :: 0 <= r < |s.popped| ==>
          && s.popped[r].ticket < s.memory.dequeue
          && s.popped[r].ticket < |s.memory.pushed|
          && s.popped[r].item == s.memory.pushed[s.popped[r].ticket]
          && PastLap(s.memory, s.popped[r].ticket)
          && !Popping(s.threads, s.popped[r].ticket))
    && (forall q, r :: 0 <= q < r < |s.popped| ==> s.popped[q].ticket != s.popped[r].ticket)
  }

  ghost predicate Inv<T>(s: State<T>) {
    && MemoryInv(s.memory)
    && ThreadsInv(s.memory, s.threads)
    && OwnersUnique(s.threads)
    && Attended(s)
    && ReceiptsInv(s)
  }
}
