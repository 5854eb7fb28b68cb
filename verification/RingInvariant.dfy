/** Every step of every thread keeps the ring's invariant. */
module RingInvariant {
  import opened Arith
  import opened Ring

  lemma FreshInv<T>(k: nat, zero: T)
    requires k >= 1
    ensures Inv(Fresh(k, zero))
  {
    var s := Fresh(k, zero);
    assert |s.memory.slots| == 2 * Pow2(k - 1);
    forall i | 0 <= i < |s.memory.slots|
      ensures Free(s.memory, i)
    {
      UniqueRemainder(i, |s.memory.slots|, 0, i);
    }
  }

  /** A winning push compare-and-swap still sees the slot free for its ticket. */
  lemma PushWinsFreeSlot<T>(m: Memory<T>, position: nat)
    requires MemoryInv(m) && m.enqueue == position
    requires position <= m.slots[position % |m.slots|].sequence
    ensures m.slots[position % |m.slots|].sequence == position
    ensures position < m.dequeue + |m.slots|
  {
    var i := position % |m.slots|;
    var q := m.slots[i].sequence;
    assert Free(m, i) || Full(m, i);
    if !Free(m, i) {
      assert q == position;
      ConsecutiveResiduesDiffer(position - 1, |m.slots|);
    } else if q > position {
      SameResidueApart(position, q, |m.slots|);
    }
  }

  /** A winning pop compare-and-swap still sees its ticket's value in the slot. */
  lemma PopWinsFullSlot<T>(m: Memory<T>, position: nat)
    requires MemoryInv(m) && m.dequeue == position
    requires position + 1 <= m.slots[position % |m.slots|].sequence
    ensures position < m.enqueue
    ensures m.slots[position % |m.slots|] == Slot(position + 1, m.pushed[position])
  {
    var i := position % |m.slots|;
    var q := m.slots[i].sequence;
    assert Free(m, i) || Full(m, i);
    if Free(m, i) {
      SameResidueApart(position, q, |m.slots|);
    } else if q - 1 > position {
      SameResidueApart(position, q - 1, |m.slots|);
    }
  }

  /** A slot is never both free and full: that is where a capacity of at least two is needed. */
  lemma FreeIsNotFull<T>(m: Memory<T>, i: nat)
    requires |m.slots| >= 2 && i < |m.slots|
    ensures !(Free(m, i) && Full(m, i))
  {
    if Free(m, i) && Full(m, i) {
      ConsecutiveResiduesDiffer(m.slots[i].sequence - 1, |m.slots|);
    }
  }

  lemma SequenceShowsFree<T>(m: Memory<T>, position: nat)
    requires MemoryInv(m) && m.slots[position % |m.slots|].sequence == position
    ensures Free(m, position % |m.slots|)
  {
    var i := position % |m.slots|;
    assert Free(m, i) || Full(m, i);
    if !Free(m, i) {
      ConsecutiveResiduesDiffer(position - 1, |m.slots|);
    }
  }

  lemma SequenceShowsFull<T>(m: Memory<T>, position: nat)
    requires MemoryInv(m) && m.slots[position % |m.slots|].sequence == position + 1
    ensures Full(m, position % |m.slots|)
  {
    var i := position % |m.slots|;
    assert Free(m, i) || Full(m, i);
    if Free(m, i) {
      ConsecutiveResiduesDiffer(position, |m.slots|);
    }
  }

  lemma ClaimPushKeepsMemory<T>(m: Memory<T>, item: T)
    requires MemoryInv(m) && m.enqueue <= m.slots[m.enqueue % |m.slots|].sequence
    ensures MemoryInv(m.(enqueue := m.enqueue + 1, pushed := m.pushed + [item]))
  {
    var m' := m.(enqueue := m.enqueue + 1, pushed := m.pushed + [item]);
    PushWinsFreeSlot(m, m.enqueue);
    forall i | 0 <= i < |m'.slots|
      ensures Free(m', i) || Full(m', i)
    {
      assert Free(m, i) || Full(m, i);
      if !Free(m, i) {
        AddModulus(m.slots[i].sequence - 1, |m.slots|);
      }
    }
  }

  lemma ClaimPopKeepsMemory<T>(m: Memory<T>)
    requires MemoryInv(m) && m.dequeue + 1 <= m.slots[m.dequeue % |m.slots|].sequence
    ensures MemoryInv(m.(dequeue := m.dequeue + 1))
  {
    var m' := m.(dequeue := m.dequeue + 1);
    PopWinsFullSlot(m, m.dequeue);
    forall i | 0 <= i < |m'.slots|
      ensures Free(m', i) || Full(m', i)
    {
      assert Free(m, i) || Full(m, i);
    }
  }

  /** Changing one slot leaves the others free or full as they were. */
  lemma OneSlotChanged<T>(m: Memory<T>, i: nat, slot: Slot<T>)
    requires MemoryInv(m) && i < |m.slots|
    requires var m' := m.(slots := m.slots[i := slot]); Free(m', i) || Full(m', i)
    ensures MemoryInv(m.(slots := m.slots[i := slot]))
  {
    var m' := m.(slots := m.slots[i := slot]);
    forall j | 0 <= j < |m'.slots|
      ensures Free(m', j) || Full(m', j)
    {
      if j != i {
        assert m'.slots[j] == m.slots[j];
        assert Free(m, j) || Full(m, j);
      }
    }
  }

  /** The owner of an enqueue ticket may write the value and then publish it. */
  lemma PushOwnerKeepsMemory<T>(m: Memory<T>, position: nat, item: T, slot: Slot<T>)
    requires MemoryInv(m) && position < m.enqueue && m.pushed[position] == item
    requires m.slots[position % |m.slots|].sequence == position
    requires slot == Slot(position, item) || slot == Slot(position + 1, item)
    ensures MemoryInv(m.(slots := m.slots[position % |m.slots| := slot]))
  {
    SequenceShowsFree(m, position);
    OneSlotChanged(m, position % |m.slots|, slot);
  }

  /** The owner of a dequeue ticket may clear the value and then free the slot for the next lap. */
  lemma PopOwnerKeepsMemory<T>(m: Memory<T>, position: nat, slot: Slot<T>)
    requires MemoryInv(m) && position < m.dequeue
    requires m.slots[position % |m.slots|].sequence == position + 1
    requires slot.sequence == position + 1 || slot.sequence == position + |m.slots|
    ensures MemoryInv(m.(slots := m.slots[position % |m.slots| := slot]))
  {
    SequenceShowsFull(m, position);
    AddModulus(position, |m.slots|);
    OneSlotChanged(m, position % |m.slots|, slot);
  }

  lemma TouchKeepsMemory<T>(m: Memory<T>, k: nat, zero: T, pc: Thread<T>)
    requires |m.slots| == Pow2(k) && MemoryInv(m) && ThreadInv(m, pc)
    ensures MemoryInv(Touch(m, k, zero, pc))
  {
    match pc {
      case PushDecide(item, _, position, sequence) =>
        if sequence == position && m.enqueue == position {
          ClaimPushKeepsMemory(m, item);
        }
      case PushWrite(item, position) =>
        PushOwnerKeepsMemory(m, position, item, Slot(position, item));
      case PushPublish(item, position) =>
        PushOwnerKeepsMemory(m, position, item, Slot(position + 1, item));
      case PopDecide(_, position, sequence) =>
        if sequence == position + 1 && m.dequeue == position {
          ClaimPopKeepsMemory(m);
        }
      case PopClear(position, _) =>
        PopOwnerKeepsMemory(m, position, Slot(position + 1, zero));
      case PopFree(position, _) =>
        PopOwnerKeepsMemory(m, position, m.slots[Index(position, k)].(sequence := position + |m.slots|));
      case _ =>
    }
  }

  /** What a thread relies on survives a change of another slot, or a sequence that only grows. */
  lemma SlotChangeSeenBy<T>(m: Memory<T>, i: nat, slot: Slot<T>, pc: Thread<T>)
    requires 0 <= i < |m.slots| && ThreadInv(m, pc)
    requires m.slots[i].sequence <= slot.sequence
    requires forall ticket: nat :: OwnsPush(pc, ticket) || OwnsPop(pc, ticket) ==> ticket % |m.slots| != i
    ensures ThreadInv(m.(slots := m.slots[i := slot]), pc)
  {
    assert pc.PushWrite? || pc.PushPublish? ==> OwnsPush(pc, pc.position);
    assert pc.PopRead? || pc.PopClear? || pc.PopFree? ==> OwnsPop(pc, pc.position);
  }

  /** No other thread owns a ticket that lives in the slot of an owned enqueue ticket. */
  lemma PushOwnerAlone<T>(m: Memory<T>, position: nat, pc: Thread<T>, ticket: nat)
    requires |m.slots| >= 2 && ThreadInv(m, pc)
    requires m.slots[position % |m.slots|].sequence == position
    requires !OwnsPush(pc, position)
    requires OwnsPush(pc, ticket) || OwnsPop(pc, ticket)
    ensures ticket % |m.slots| != position % |m.slots|
  {
    if ticket % |m.slots| == position % |m.slots| {
      assert position == ticket + 1;
      ConsecutiveResiduesDiffer(ticket, |m.slots|);
    }
  }

  lemma PopOwnerAlone<T>(m: Memory<T>, position: nat, pc: Thread<T>, ticket: nat)
    requires |m.slots| >= 2 && ThreadInv(m, pc)
    requires m.slots[position % |m.slots|].sequence == position + 1
    requires !OwnsPop(pc, position)
    requires OwnsPush(pc, ticket) || OwnsPop(pc, ticket)
    ensures ticket % |m.slots| != position % |m.slots|
  {
    if ticket % |m.slots| == position % |m.slots| {
      assert ticket == position + 1;
      ConsecutiveResiduesDiffer(position, |m.slots|);
    }
  }

  /** One thread's step leaves what every other thread relies on intact. */
  lemma StepSeenByOthers<T>(m: Memory<T>, k: nat, zero: T, pc: Thread<T>, other: Thread<T>)
    requires |m.slots| == Pow2(k) >= 2 && |m.pushed| == m.enqueue && ThreadInv(m, pc) && ThreadInv(m, other)
    requires forall ticket :: !(OwnsPush(pc, ticket) && OwnsPush(other, ticket))
    requires forall ticket :: !(OwnsPop(pc, ticket) && OwnsPop(other, ticket))
    ensures ThreadInv(Touch(m, k, zero, pc), other)
  {
    if pc.PushWrite? || pc.PushPublish? {
      assert OwnsPush(pc, pc.position);
      forall ticket: nat | OwnsPush(other, ticket) || OwnsPop(other, ticket)
        ensures ticket % |m.slots| != pc.position % |m.slots|
      {
        PushOwnerAlone(m, pc.position, other, ticket);
      }
      var i := Index(pc.position, k);
      SlotChangeSeenBy(m, i, Touch(m, k, zero, pc).slots[i], other);
    } else if pc.PopClear? || pc.PopFree? {
      assert OwnsPop(pc, pc.position);
      forall ticket: nat | OwnsPush(other, ticket) || OwnsPop(other, ticket)
        ensures ticket % |m.slots| != pc.position % |m.slots|
      {
        PopOwnerAlone(m, pc.position, other, ticket);
      }
      var i := Index(pc.position, k);
      SlotChangeSeenBy(m, i, Touch(m, k, zero, pc).slots[i], other);
    }
  }

  /** The stepping thread finds what its next step relies on. */
  lemma StepSeenBySelf<T>(m: Memory<T>, k: nat, zero: T, pc: Thread<T>)
    requires |m.slots| == Pow2(k) && MemoryInv(m) && ThreadInv(m, pc)
    ensures ThreadInv(Touch(m, k, zero, pc), Next(m, k, pc))
  {
    match pc {
      case PushDecide(item, _, position, sequence) =>
        if sequence == position && m.enqueue == position {
          PushWinsFreeSlot(m, position);
        }
      case PopDecide(_, position, sequence) =>
        if sequence == position + 1 && m.dequeue == position {
          PopWinsFullSlot(m, position);
        }
      case _ =>
    }
  }

  /** Owners before and after thread `thread` moves to `pc`. */
  lemma OwnersAfterMove<T>(threads: map<nat, Thread<T>>, thread: nat, pc: Thread<T>, ticket: nat)
    ensures Pushing(threads, ticket) && !OwnsPush(At(threads, thread), ticket) ==>
              Pushing(threads[thread := pc], ticket)
    ensures Popping(threads, ticket) && !OwnsPop(At(threads, thread), ticket) ==>
              Popping(threads[thread := pc], ticket)
    ensures OwnsPush(pc, ticket) ==> Pushing(threads[thread := pc], ticket)
    ensures OwnsPop(pc, ticket) ==> Popping(threads[thread := pc], ticket)
    ensures Popping(threads[thread := pc], ticket) && !OwnsPop(pc, ticket) ==>
              exists t :: t != thread && OwnsPop(At(threads, t), ticket)
  {
    var threads' := threads[thread := pc];
    assert forall t :: At(threads', t) == if t == thread then pc else At(threads, t);
    if Pushing(threads, ticket) && !OwnsPush(At(threads, thread), ticket) {
      var t :| OwnsPush(At(threads, t), ticket);
      assert OwnsPush(At(threads', t), ticket);
    }
    if Popping(threads, ticket) && !OwnsPop(At(threads, thread), ticket) {
      var t :| OwnsPop(At(threads, t), ticket);
      assert OwnsPop(At(threads', t), ticket);
    }
    assert At(threads', thread) == pc;
    if Popping(threads', ticket) && !OwnsPop(pc, ticket) {
      var t :| OwnsPop(At(threads', t), ticket);
      assert OwnsPop(At(threads, t), ticket);
    }
  }

  lemma StepKeepsThreads<T>(s: State<T>, k: nat, zero: T, thread: nat)
    requires WellFormed(s, k) && Inv(s)
    ensures ThreadsInv(Apply(s, k, zero, Step(thread)).memory, Apply(s, k, zero, Step(thread)).threads)
  {
    var m, pc := s.memory, At(s.threads, thread);
    var s' := Apply(s, k, zero, Step(thread));
    assert ThreadInv(m, pc);
    StepSeenBySelf(m, k, zero, pc);
    forall t
      ensures ThreadInv(s'.memory, At(s'.threads, t))
    {
      if t != thread {
        var other := At(s.threads, t);
        assert At(s'.threads, t) == other && ThreadInv(m, other);
        StepSeenByOthers(m, k, zero, pc, other);
      }
    }
  }

  lemma StepKeepsOwners<T>(s: State<T>, k: nat, zero: T, thread: nat)
    requires WellFormed(s, k) && Inv(s)
    ensures OwnersUnique(Apply(s, k, zero, Step(thread)).threads)
  {
    var m, pc := s.memory, At(s.threads, thread);
    forall t: nat, ticket: nat | t != thread
      ensures !(OwnsPush(At(s.threads, t), ticket) && OwnsPush(Next(m, k, pc), ticket))
      ensures !(OwnsPop(At(s.threads, t), ticket) && OwnsPop(Next(m, k, pc), ticket))
    {
      assert ThreadInv(m, At(s.threads, t));
      OwnedIsClaimed(m, At(s.threads, t), ticket);
      OwnedNext(m, k, pc, ticket);
    }
    UniqueAfterMove(s.threads, thread, Next(m, k, pc));
  }

  /** A thread owns claimed tickets only. */
  lemma OwnedIsClaimed<T>(m: Memory<T>, pc: Thread<T>, ticket: nat)
    requires |m.slots| > 0 && ThreadInv(m, pc)
    ensures OwnsPush(pc, ticket) ==> ticket < m.enqueue
    ensures OwnsPop(pc, ticket) ==> ticket < m.dequeue
  {
  }

  /** A step keeps a thread's ticket or claims the next one. */
  lemma OwnedNext<T>(m: Memory<T>, k: nat, pc: Thread<T>, ticket: nat)
    requires |m.slots| == Pow2(k)
    ensures OwnsPush(Next(m, k, pc), ticket) ==> OwnsPush(pc, ticket) || ticket == m.enqueue
    ensures OwnsPop(Next(m, k, pc), ticket) ==> OwnsPop(pc, ticket) || ticket == m.dequeue
  {
  }

  lemma UniqueAfterMove<T>(threads: map<nat, Thread<T>>, thread: nat, pc: Thread<T>)
    requires OwnersUnique(threads)
    requires forall t: nat, ticket: nat :: t != thread ==> !(OwnsPush(At(threads, t), ticket) && OwnsPush(pc, ticket))
    requires forall t: nat, ticket: nat :: t != thread ==> !(OwnsPop(At(threads, t), ticket) && OwnsPop(pc, ticket))
    ensures OwnersUnique(threads[thread := pc])
  {
    var threads' := threads[thread := pc];
    assert forall t :: At(threads', t) == if t == thread then pc else At(threads, t);
  }

  lemma StepKeepsAttended<T>(s: State<T>, k: nat, zero: T, thread: nat)
    requires WellFormed(s, k) && Inv(s)
    ensures Attended(Apply(s, k, zero, Step(thread)))
  {
    var m, pc := s.memory, At(s.threads, thread);
    var s' := Apply(s, k, zero, Step(thread));
    var m', pc' := s'.memory, Next(m, k, pc);
    assert ThreadInv(m, pc);
    forall i | 0 <= i < |m'.slots| && Free(m', i) && m'.slots[i].sequence < m'.enqueue
      ensures Pushing(s'.threads, m'.slots[i].sequence)
    {
      StepKeepsPushers(s, k, zero, thread, i);
    }
    forall ticket | 0 <= ticket < m'.dequeue
      ensures Returned(s'.popped, ticket) || Popping(s'.threads, ticket)
    {
      OwnersAfterMove(s.threads, thread, pc', ticket);
      if ticket < m.dequeue && Returned(s.popped, ticket) {
        var r :| 0 <= r < |s.popped| && s.popped[r].ticket == ticket;
        assert s'.popped[r] == s.popped[r];
      } else if pc.PopFree? && ticket == pc.position {
        assert s'.popped[|s.popped|].ticket == ticket;
      }
    }
  }

  lemma StepKeepsPushers<T>(s: State<T>, k: nat, zero: T, thread: nat, i: nat)
    requires WellFormed(s, k) && Inv(s) && i < |s.memory.slots|
    requires var m' := Apply(s, k, zero, Step(thread)).memory; Free(m', i) && m'.slots[i].sequence < m'.enqueue
    ensures var s' := Apply(s, k, zero, Step(thread)); Pushing(s'.threads, s'.memory.slots[i].sequence)
  {
    var m, pc := s.memory, At(s.threads, thread);
    var s' := Apply(s, k, zero, Step(thread));
    assert ThreadInv(m, pc);
    var ticket := s'.memory.slots[i].sequence;
    OwnersAfterMove(s.threads, thread, Next(m, k, pc), ticket);
    assert m.slots[i] == m.slots[i];
    if pc.PushPublish? && i == pc.position % |m.slots| {
      ConsecutiveResiduesDiffer(pc.position, |m.slots|);
      assert false;
    } else if pc.PopFree? && i == pc.position % |m.slots| {
      SequenceShowsFull(m, pc.position);
      assert false;
    }
  }

  lemma SequencesGrow<T>(m: Memory<T>, k: nat, zero: T, pc: Thread<T>, i: nat)
    requires |m.slots| == Pow2(k) && ThreadInv(m, pc) && i < |m.slots|
    ensures m.slots[i].sequence <= Touch(m, k, zero, pc).slots[i].sequence
  {
  }

  lemma StepKeepsReceipts<T>(s: State<T>, k: nat, zero: T, thread: nat)
    requires WellFormed(s, k) && Inv(s)
    ensures ReceiptsInv(Apply(s, k, zero, Step(thread)))
  {
    var m, pc := s.memory, At(s.threads, thread);
    var s' := Apply(s, k, zero, Step(thread));
    var pc' := Next(m, k, pc);
    assert ThreadInv(m, pc);
    forall r | 0 <= r < |s'.popped|
      ensures s'.popped[r].ticket < s'.memory.dequeue
      ensures s'.popped[r].ticket < |s'.memory.pushed|
      ensures s'.popped[r].item == s'.memory.pushed[s'.popped[r].ticket]
      ensures PastLap(s'.memory, s'.popped[r].ticket)
      ensures !Popping(s'.threads, s'.popped[r].ticket)
    {
      var ticket := s'.popped[r].ticket;
      SequencesGrow(m, k, zero, pc, ticket % |m.slots|);
      OwnersAfterMove(s.threads, thread, pc', ticket);
      if r < |s.popped| {
        assert s'.popped[r] == s.popped[r];
      } else {
        assert OwnsPop(At(s.threads, thread), ticket);
      }
    }
    forall q, r | 0 <= q < r < |s'.popped|
      ensures s'.popped[q].ticket != s'.popped[r].ticket
    {
      if r == |s.popped| {
        assert s'.popped[q] == s.popped[q];
        assert OwnsPop(At(s.threads, thread), s'.popped[r].ticket);
      }
    }
  }

  lemma ApplyKeepsInv<T>(s: State<T>, k: nat, zero: T, action: Action<T>)
    requires WellFormed(s, k) && Inv(s)
    ensures Inv(Apply(s, k, zero, action))
  {
    var pc := At(s.threads, action.thread);
    if action.Step? {
      assert ThreadInv(s.memory, pc);
      TouchKeepsMemory(s.memory, k, zero, pc);
      StepKeepsThreads(s, k, zero, action.thread);
      StepKeepsOwners(s, k, zero, action.thread);
      StepKeepsAttended(s, k, zero, action.thread);
      StepKeepsReceipts(s, k, zero, action.thread);
    } else if pc.Idle? {
      StartKeepsInv(s, action.thread, if action.StartPush? then PushLoad(action.item, 0) else PopLoad(0));
    }
  }

  lemma StartKeepsInv<T>(s: State<T>, thread: nat, pc: Thread<T>)
    requires Inv(s) && At(s.threads, thread).Idle? && (pc.PushLoad? || pc.PopLoad?)
    ensures Inv(s.(threads := s.threads[thread := pc]))
  {
    var threads' := s.threads[thread := pc];
    assert forall t :: At(threads', t) == if t == thread then pc else At(s.threads, t);
    forall ticket: nat
      ensures Pushing(s.threads, ticket) ==> Pushing(threads', ticket)
      ensures Popping(s.threads, ticket) <==> Popping(threads', ticket)
    {
      OwnersAfterMove(s.threads, thread, pc, ticket);
    }
  }
}
