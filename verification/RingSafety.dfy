/** What the ring promises in every interleaving, and why it needs two slots. */
module RingSafety {
  import opened Arith
  import opened Ring
  import opened RingInvariant

  /** Every interleaving of any number of threads keeps the invariant. */
  lemma {:induction false} ReachableInv<T>(k: nat, zero: T, actions: seq<Action<T>>)
    requires k >= 1
    ensures Inv(Execute(k, zero, actions))
  {
    if actions == [] {
      FreshInv(k, zero);
    } else {
      var before := actions[..|actions| - 1];
      ReachableInv(k, zero, before);
      ApplyKeepsInv(Execute(k, zero, before), k, zero, actions[|actions| - 1]);
    }
  }

  // ---------------------------------------------------------------- what the ring promises

  /** Every returned value is the one pushed under the same ticket, and no ticket is returned twice. */
  ghost predicate Faithful<T>(s: State<T>) {
    && (forall r {:trigger s.popped[r]} :: 0 <= r < |s.popped| ==>
          && s.popped[r].ticket < |s.memory.pushed|
          && s.popped[r].item == s.memory.pushed[s.popped[r].ticket])
    && (forall q, r :: 0 <= q < r < |s.popped| ==> s.popped[q].ticket != s.popped[r].ticket)
  }

  /** Every value pushed and not yet claimed by a pop is still in its slot, once its push has finished. */
  ghost predicate Intact<T>(s: State<T>) {
    forall ticket {:trigger s.memory.pushed[ticket]} :: s.memory.dequeue <= ticket < |s.memory.pushed| ==>
      || Pushing(s.threads, ticket)
      || (|s.memory.slots| > 0 && s.memory.slots[ticket % |s.memory.slots|].value == s.memory.pushed[ticket])
  }

  lemma LiveTicketInSlot<T>(s: State<T>, ticket: nat)
    requires Inv(s) && s.memory.dequeue <= ticket < s.memory.enqueue
    ensures Pushing(s.threads, ticket) ||
            s.memory.slots[ticket % |s.memory.slots|] == Slot(ticket + 1, s.memory.pushed[ticket])
  {
    var m := s.memory;
    var i := ticket % |m.slots|;
    var q := m.slots[i].sequence;
    assert Free(m, i) || Full(m, i);
    if Free(m, i) {
      if q < ticket { SameResidueApart(q, ticket, |m.slots|); }
      if ticket < q { SameResidueApart(ticket, q, |m.slots|); }
    } else {
      if q - 1 < ticket { SameResidueApart(q - 1, ticket, |m.slots|); }
      if ticket < q - 1 { SameResidueApart(ticket, q - 1, |m.slots|); }
    }
  }

  lemma InvMeansFaithful<T>(s: State<T>)
    requires Inv(s)
    ensures Faithful(s) && Intact(s)
  {
    forall ticket: nat | s.memory.dequeue <= ticket < |s.memory.pushed|
      ensures || Pushing(s.threads, ticket)
              || s.memory.slots[ticket % |s.memory.slots|].value == s.memory.pushed[ticket]
    {
      LiveTicketInSlot(s, ticket);
    }
  }

  /** A thread about to write never finds an unreturned value in its slot. */
  lemma WriteNeverOverwrites<T>(k: nat, zero: T, actions: seq<Action<T>>, thread: nat)
    requires k >= 1
    requires At(Execute(k, zero, actions).threads, thread).PushWrite?
    ensures var s := Execute(k, zero, actions);
            var position := At(s.threads, thread).position;
            position >= |s.memory.slots| ==> Returned(s.popped, position - |s.memory.slots|)
  {
    ReachableInv(k, zero, actions);
    WriterFindsReturned(Execute(k, zero, actions), thread);
  }

  lemma WriterFindsReturned<T>(s: State<T>, thread: nat)
    requires Inv(s) && At(s.threads, thread).PushWrite?
    ensures var position := At(s.threads, thread).position;
            position >= |s.memory.slots| ==> Returned(s.popped, position - |s.memory.slots|)
  {
    var m, position := s.memory, At(s.threads, thread).position;
    assert ThreadInv(m, At(s.threads, thread));
    SequenceShowsFree(m, position);
    if position >= |m.slots| {
      LastLapNotPopping(m, s.threads, position);
    }
  }

  /** Nobody is still popping from a slot that waits for the next lap. */
  lemma LastLapNotPopping<T>(m: Memory<T>, threads: map<nat, Thread<T>>, position: nat)
    requires |m.slots| >= 2 && ThreadsInv(m, threads) && position >= |m.slots|
    requires m.slots[position % |m.slots|].sequence == position
    ensures !Popping(threads, position - |m.slots|)
  {
    AddModulus(position - |m.slots|, |m.slots|);
    forall t
      ensures !OwnsPop(At(threads, t), position - |m.slots|)
    {
      assert ThreadInv(m, At(threads, t));
    }
  }

  /**
  A push refused because the slot lags found the previous lap's value not yet returned.  Then
  the counters are a full lap apart, or the pop that claimed that value has not finished, and
  never both.
   */
  lemma PushRefusalIsTruthful<T>(k: nat, zero: T, actions: seq<Action<T>>, thread: nat)
    requires k >= 1
    requires var s := Execute(k, zero, actions);
             var pc := At(s.threads, thread);
             pc.PushPeek? && s.memory.slots[Index(pc.position, k)].sequence < pc.position
    ensures var s := Execute(k, zero, actions);
            var last := At(s.threads, thread).position - |s.memory.slots|;
            && 0 <= last && last + |s.memory.slots| == s.memory.enqueue && !Returned(s.popped, last)
            && (s.memory.enqueue - s.memory.dequeue == |s.memory.slots| <==> !Popping(s.threads, last))
  {
    ReachableInv(k, zero, actions);
    var s := Execute(k, zero, actions);
    var position := At(s.threads, thread).position;
    assert ThreadInv(s.memory, At(s.threads, thread));
    LaggingSlotIsLastLap(s.memory, position);
    NotReturnedYet(s, position - |s.memory.slots|);
    FullOrPopping(s, position - |s.memory.slots|);
  }

  lemma FullOrPopping<T>(s: State<T>, last: nat)
    requires Inv(s) && last + |s.memory.slots| == s.memory.enqueue && !Returned(s.popped, last)
    ensures s.memory.enqueue - s.memory.dequeue == |s.memory.slots| <==> !Popping(s.threads, last)
  {
    if s.memory.dequeue <= last {
      forall t
        ensures !OwnsPop(At(s.threads, t), last)
      {
        assert ThreadInv(s.memory, At(s.threads, t));
      }
    }
  }

  /** A slot behind the ticket a push loaded still belongs to the previous lap. */
  lemma LaggingSlotIsLastLap<T>(m: Memory<T>, position: nat)
    requires MemoryInv(m) && position <= m.enqueue && m.slots[position % |m.slots|].sequence < position
    ensures position >= |m.slots| && position == m.enqueue && !PastLap(m, position - |m.slots|)
  {
    var i := position % |m.slots|;
    var q := m.slots[i].sequence;
    assert Free(m, i) || Full(m, i);
    if Free(m, i) {
      SameResidueApart(q, position, |m.slots|);
    } else {
      SameResidueApart(q - 1, position, |m.slots|);
    }
    AddModulus(position - |m.slots|, |m.slots|);
  }

  lemma NotReturnedYet<T>(s: State<T>, ticket: nat)
    requires ReceiptsInv(s) && !PastLap(s.memory, ticket)
    ensures !Returned(s.popped, ticket)
  {
  }

  /** A pop refused because the slot lags really found its ticket not yet published. */
  lemma PopRefusalIsTruthful<T>(k: nat, zero: T, actions: seq<Action<T>>, thread: nat)
    requires k >= 1
    requires var s := Execute(k, zero, actions);
             var pc := At(s.threads, thread);
             pc.PopPeek? && s.memory.slots[Index(pc.position, k)].sequence < pc.position + 1
    ensures var s := Execute(k, zero, actions);
            var position := At(s.threads, thread).position;
            position >= s.memory.enqueue || Pushing(s.threads, position)
  {
    ReachableInv(k, zero, actions);
    var s := Execute(k, zero, actions);
    var m, position := s.memory, At(s.threads, thread).position;
    assert ThreadInv(m, At(s.threads, thread));
    var i := Index(position, k);
    var q := m.slots[i].sequence;
    assert Free(m, i) || Full(m, i);
    if Free(m, i) {
      if q < position { SameResidueApart(q, position, |m.slots|); }
    } else {
      SameResidueApart(q - 1, position, |m.slots|);
    }
  }

  /** When no thread is inside an operation, every push is either returned exactly once or still in the ring. */
  lemma QuiescentConservation<T>(k: nat, zero: T, actions: seq<Action<T>>)
    requires k >= 1
    requires forall thread :: At(Execute(k, zero, actions).threads, thread).Idle?
    ensures var s := Execute(k, zero, actions);
            && s.memory.enqueue - s.memory.dequeue <= |s.memory.slots|
            && |s.popped| == s.memory.dequeue
            && (forall ticket: nat :: ticket < |s.memory.pushed| ==>
                  if ticket < s.memory.dequeue then Returned(s.popped, ticket)
                  else s.memory.slots[ticket % |s.memory.slots|] == Slot(ticket + 1, s.memory.pushed[ticket]))
  {
    ReachableInv(k, zero, actions);
    var s := Execute(k, zero, actions);
    forall ticket: nat | ticket < |s.memory.pushed|
      ensures if ticket < s.memory.dequeue then Returned(s.popped, ticket)
              else s.memory.slots[ticket % |s.memory.slots|] == Slot(ticket + 1, s.memory.pushed[ticket])
    {
      if ticket >= s.memory.dequeue {
        LiveTicketInSlot(s, ticket);
      }
    }
    ReceiptsCount(s.popped, s.memory.dequeue);
  }

  lemma {:induction false} ReceiptsCount<T>(popped: seq<Receipt<T>>, bound: nat)
    requires forall r {:trigger popped[r]} :: 0 <= r < |popped| ==> popped[r].ticket < bound
    requires forall q, r :: 0 <= q < r < |popped| ==> popped[q].ticket != popped[r].ticket
    requires forall ticket :: 0 <= ticket < bound ==> Returned(popped, ticket)
    ensures |popped| == bound
  {
    assert |popped| > 0 ==> popped[0].ticket < bound;
    if bound > 0 {
      assert Returned(popped, bound - 1);
      var r :| 0 <= r < |popped| && popped[r].ticket == bound - 1;
      var rest := popped[..r] + popped[r + 1..];
      assert forall j {:trigger rest[j]} :: 0 <= j < |rest| ==> rest[j] == popped[if j < r then j else j + 1];
      forall ticket | 0 <= ticket < bound - 1
        ensures Returned(rest, ticket)
      {
        assert Returned(popped, ticket);
        var q :| 0 <= q < |popped| && popped[q].ticket == ticket;
        assert rest[if q < r then q else q - 1].ticket == ticket;
      }
      ReceiptsCount(rest, bound - 1);
    }
  }

  // ---------------------------------------------------------------- why the capacity is at least two

  ghost predicate SafeFor<T(!new)>(k: nat, zero: T) {
    forall actions: seq<Action<T>> ::
      Faithful(Execute(k, zero, actions)) && Intact(Execute(k, zero, actions))
  }

  function Then<T>(k: nat, zero: T, actions: seq<Action<T>>, action: Action<T>): (all: seq<Action<T>>)
    ensures all == actions + [action]
    ensures Execute(k, zero, all) == Apply(Execute(k, zero, actions), k, zero, action)
  {
    var all := actions + [action];
    assert all[..|all| - 1] == actions;
    all
  }

  /** One complete uncontended push: start, load, peek, win, write, publish. */
  function PushAlone<T>(k: nat, zero: T, actions: seq<Action<T>>, item: T): (all: seq<Action<T>>) {
    var a := Then(k, zero, actions, StartPush(0, item));
    var a := Then(k, zero, a, Step(0));
    var a := Then(k, zero, a, Step(0));
    var a := Then(k, zero, a, Step(0));
    var a := Then(k, zero, a, Step(0));
    Then(k, zero, a, Step(0))
  }

  /** With a single slot a second push overwrites the first value. */
  lemma OneSlotOverwrites<T>(zero: T, first: T, second: T)
    requires first != second
    ensures !Intact(Execute(0, zero, PushAlone(0, zero, PushAlone(0, zero, [], first), second)))
  {
    TwoPushes(zero, first, second);
    FirstIsGone(Execute(0, zero, PushAlone(0, zero, PushAlone(0, zero, [], first), second)), first, second);
  }

  lemma FirstIsGone<T>(s: State<T>, first: T, second: T)
    requires first != second && s.memory == Memory([Slot(2, second)], 2, 0, [first, second]) && s.threads == map[0 := Idle]
    ensures !Intact(s)
  {
    assert s.memory.pushed[0] == first;
    assert forall thread :: At(s.threads, thread).Idle?;
  }

  lemma OnePush<T>(zero: T, item: T)
    ensures var s := Execute(0, zero, PushAlone(0, zero, [], item));
            s.memory == Memory([Slot(1, item)], 1, 0, [item]) && s.threads == map[0 := Idle]
  {
    PushedAlone(zero, [], item, Fresh(0, zero));
    assert Fresh(0, zero).memory.slots == [Slot(0, zero)];
  }

  /** On a single slot whose sequence is the next ticket, a push runs through whatever the slot holds. */
  lemma PushedAlone<T>(zero: T, actions: seq<Action<T>>, item: T, s: State<T>)
    requires s == Execute(0, zero, actions) && At(s.threads, 0).Idle?
    requires |s.memory.slots| == 1 && s.memory.slots[0].sequence == s.memory.enqueue
    ensures var s' := Execute(0, zero, PushAlone(0, zero, actions, item));
            && s'.memory == Memory([Slot(s.memory.enqueue + 1, item)], s.memory.enqueue + 1, s.memory.dequeue, s.memory.pushed + [item])
            && s'.threads == s.threads[0 := Idle]
  {
    assert Index(s.memory.enqueue, 0) == 0 by { DivMod(s.memory.enqueue, 1); }
    var started := Apply(s, 0, zero, StartPush(0, item));
    var loaded := Apply(started, 0, zero, Step(0));
    assert At(loaded.threads, 0) == PushPeek(item, 0, s.memory.enqueue);
    var peeked := Apply(loaded, 0, zero, Step(0));
    var won := Apply(peeked, 0, zero, Step(0));
    assert At(won.threads, 0) == PushWrite(item, s.memory.enqueue);
    var written := Apply(won, 0, zero, Step(0));
    var published := Apply(written, 0, zero, Step(0));
    assert published.threads == s.threads[0 := Idle];
  }

  lemma TwoPushes<T>(zero: T, first: T, second: T)
    ensures var s := Execute(0, zero, PushAlone(0, zero, PushAlone(0, zero, [], first), second));
            s.memory == Memory([Slot(2, second)], 2, 0, [first, second]) && s.threads == map[0 := Idle]
  {
    OnePush(zero, first);
    PushedAlone(zero, PushAlone(0, zero, [], first), second, Execute(0, zero, PushAlone(0, zero, [], first)));
  }

  /** The capacity floor of `NewRing` is exactly what safety needs: `Pow2(k)` slots are safe iff there are at least two. */
  lemma SafeExactlyFromTwoSlots<T(!new)>(k: nat, zero: T, first: T, second: T)
    requires first != second
    ensures SafeFor(k, zero) <==> Pow2(k) >= 2
  {
    if k == 0 {
      OneSlotOverwrites(zero, first, second);
    } else {
      forall actions: seq<Action<T>>
        ensures Faithful(Execute(k, zero, actions)) && Intact(Execute(k, zero, actions))
      {
        ReachableInv(k, zero, actions);
        InvMeansFaithful(Execute(k, zero, actions));
      }
    }
  }
}
