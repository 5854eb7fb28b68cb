/**
The ring used by one thread at a time: a class with the source's fields, proved to be a
bounded first-in first-out queue.
 */
module RingSequential {
  import opened Arith
  import opened Ring

  /** The rounding loop of `NewRing`: the least power of two that is at least two and at least `capacity`. */
  method RoundCapacity(capacity: int) returns (rounded: nat, ghost k: nat)
    ensures rounded == Pow2(k) && rounded >= 2 && rounded >= capacity
    ensures forall j: nat :: Pow2(j) >= 2 && Pow2(j) >= capacity ==> rounded <= Pow2(j)
  {
    var wanted := if capacity < 2 then 2 else capacity;
    rounded, k := 1, 0;
    while rounded < wanted
      invariant rounded == Pow2(k)
      invariant k == 0 || Pow2(k - 1) < wanted
      decreases wanted - rounded
    {
      rounded, k := rounded * 2, k + 1;
    }
    forall j: nat | Pow2(j) >= 2 && Pow2(j) >= capacity
      ensures rounded <= Pow2(j)
    {
      if j < k { Pow2Monotone(j, k - 1); } else { Pow2Monotone(k, j); }
    }
  }

  /** `Len` from its two separate loads, clipped to the capacity. */
  function LengthFrom(enqueued: nat, dequeued: nat, capacity: nat): (length: nat)
    ensures length <= capacity
    ensures dequeued <= enqueued <= dequeued + capacity ==> length == enqueued - dequeued
  {
    if enqueued <= dequeued then 0
    else if enqueued - dequeued > capacity then capacity
    else enqueued - dequeued
  }

  // ---------------------------------------------------------------- the slots as a value

  /** Tickets from `dequeue` up to `enqueue` are published; the rest of the lap is free. */
  ghost predicate Lapped<T>(slots: seq<Slot<T>>, enqueue: nat, dequeue: nat) {
    && |slots| >= 2
    && dequeue <= enqueue <= dequeue + |slots|
    && (forall t: nat :: dequeue <= t < enqueue ==> slots[t % |slots|].sequence == t + 1)
    && (forall t: nat :: enqueue <= t < dequeue + |slots| ==> slots[t % |slots|].sequence == t)
  }

  /** The queue, oldest item first. */
  ghost function Queue<T>(slots: seq<Slot<T>>, enqueue: nat, dequeue: nat): (items: seq<T>)
    requires |slots| > 0 && dequeue <= enqueue
    ensures |items| == enqueue - dequeue
  {
    seq(enqueue - dequeue, j requires 0 <= j < enqueue - dequeue => slots[(dequeue + j) % |slots|].value)
  }

  /** The slot under `enqueue` is free, unless the ring is full and it still holds the oldest item. */
  lemma SlotOfEnqueue<T>(slots: seq<Slot<T>>, enqueue: nat, dequeue: nat)
    requires Lapped(slots, enqueue, dequeue)
    ensures slots[enqueue % |slots|].sequence == enqueue <==> enqueue < dequeue + |slots|
  {
    if enqueue == dequeue + |slots| {
      AddModulus(dequeue, |slots|);
    }
  }

  lemma SlotOfDequeue<T>(slots: seq<Slot<T>>, enqueue: nat, dequeue: nat)
    requires Lapped(slots, enqueue, dequeue)
    ensures slots[dequeue % |slots|].sequence == dequeue + 1 <==> dequeue < enqueue
  {
  }

  /** Within one lap, different tickets live in different slots. */
  lemma ApartInLap(a: nat, b: nat, n: nat)
    requires n > 0 && a < b < a + n
    ensures a % n != b % n
  {
    if a % n == b % n {
      SameResidueApart(a, b, n);
    }
  }

  lemma PushKeepsLap<T>(slots: seq<Slot<T>>, enqueue: nat, dequeue: nat, item: T)
    requires Lapped(slots, enqueue, dequeue) && enqueue < dequeue + |slots|
    ensures Lapped(slots[enqueue % |slots| := Slot(enqueue + 1, item)], enqueue + 1, dequeue)
  {
    var n := |slots|;
    forall t: nat | dequeue <= t < dequeue + n && t != enqueue
      ensures t % n != enqueue % n
    {
      if t < enqueue { ApartInLap(t, enqueue, n); } else { ApartInLap(enqueue, t, n); }
    }
  }

  lemma PushAppends<T>(slots: seq<Slot<T>>, enqueue: nat, dequeue: nat, item: T)
    requires Lapped(slots, enqueue, dequeue) && enqueue < dequeue + |slots|
    ensures Queue(slots[enqueue % |slots| := Slot(enqueue + 1, item)], enqueue + 1, dequeue) == Queue(slots, enqueue, dequeue) + [item]
  {
    var n := |slots|;
    forall t: nat | dequeue <= t < enqueue
      ensures t % n != enqueue % n
    {
      ApartInLap(t, enqueue, n);
    }
  }

  lemma PopKeepsLap<T>(slots: seq<Slot<T>>, enqueue: nat, dequeue: nat, zero: T)
    requires Lapped(slots, enqueue, dequeue) && dequeue < enqueue
    ensures Lapped(slots[dequeue % |slots| := Slot(dequeue + |slots|, zero)], enqueue, dequeue + 1)
  {
    var n := |slots|;
    AddModulus(dequeue, n);
    forall t: nat | dequeue < t < dequeue + n
      ensures t % n != dequeue % n
    {
      ApartInLap(dequeue, t, n);
    }
  }

  lemma PopRemovesHead<T>(slots: seq<Slot<T>>, enqueue: nat, dequeue: nat, zero: T)
    requires Lapped(slots, enqueue, dequeue) && dequeue < enqueue
    ensures Queue(slots, enqueue, dequeue) ==
            [slots[dequeue % |slots|].value] + Queue(slots[dequeue % |slots| := Slot(dequeue + |slots|, zero)], enqueue, dequeue + 1)
  {
    var n := |slots|;
    forall t: nat | dequeue < t < enqueue
      ensures t % n != dequeue % n
    {
      ApartInLap(dequeue, t, n);
    }
  }

  // ---------------------------------------------------------------- the ring

  class SequentialRing<T(0)> {
    const zero: T
    const slots: array<Slot<T>>
    ghost const k: nat
    var enqueue: nat
    var dequeue: nat

    ghost predicate Valid()
      reads this, slots
    {
      slots.Length == Pow2(k) && Lapped(slots[..], enqueue, dequeue)
    }

    ghost function Contents(): (items: seq<T>)
      requires Valid()
      reads this, slots
    {
      Queue(slots[..], enqueue, dequeue)
    }

    constructor (capacity: int, zero: T)
      ensures Valid() && fresh(slots) && Contents() == []
      ensures slots.Length >= 2 && slots.Length >= capacity
    {
      var rounded, exponent := RoundCapacity(capacity);
      this.zero := zero;
      k := exponent;
      slots := new Slot<T>[rounded](i => Slot(if i < 0 then 0 else i, zero));
      enqueue, dequeue := 0, 0;
      new;
      forall t: nat | 0 <= t < slots.Length
        ensures slots[t % slots.Length].sequence == t
      {
        UniqueRemainder(t, slots.Length, 0, t);
      }
    }

    method Len() returns (length: nat)
      requires Valid()
      ensures length == |Contents()|
    {
      var enqueued := enqueue;
      var dequeued := dequeue;
      length := LengthFrom(enqueued, dequeued, slots.Length);
    }

    /** With no other thread the first of the attempts decides. */
    method TryPush(item: T) returns (ok: bool)
      requires Valid()
      modifies this`enqueue, slots
      ensures Valid()
      ensures ok == (|old(Contents())| < slots.Length)
      ensures Contents() == if ok then old(Contents()) + [item] else old(Contents())
    {
      ghost var before := slots[..];
      var position := enqueue;
      var i := MaskedIndex(position);
      SlotOfEnqueue(before, enqueue, dequeue);
      if slots[i].sequence != position { return false; }
      PushKeepsLap(before, enqueue, dequeue, item);
      PushAppends(before, enqueue, dequeue, item);
      enqueue := position + 1;
      slots[i] := slots[i].(value := item);
      slots[i] := slots[i].(sequence := position + 1);
      assert slots[..] == before[i := Slot(position + 1, item)];
      return true;
    }

    method TryPop() returns (item: T, ok: bool)
      requires Valid()
      modifies this`dequeue, slots
      ensures Valid()
      ensures ok == (old(Contents()) != [])
      ensures if ok then old(Contents()) == [item] + Contents() else item == zero && Contents() == old(Contents())
    {
      ghost var before := slots[..];
      var position := dequeue;
      var i := MaskedIndex(position);
      SlotOfDequeue(before, enqueue, dequeue);
      if slots[i].sequence != position + 1 { return zero, false; }
      PopKeepsLap(before, enqueue, dequeue, zero);
      PopRemovesHead(before, enqueue, dequeue, zero);
      dequeue := position + 1;
      item := slots[i].value;
      slots[i] := slots[i].(value := zero);
      slots[i] := slots[i].(sequence := position + slots.Length);
      assert slots[..] == before[i := Slot(position + slots.Length, zero)];
      return item, true;
    }

    /** `position & mask` for the mask `slots.Length - 1`. */
    method MaskedIndex(position: nat) returns (i: nat)
      requires slots.Length == Pow2(k) >= 2
      ensures i == position % slots.Length
    {
      MaskIsModulo(position, k);
      DivMod(position, slots.Length);
      i := BitAnd(position, slots.Length - 1);
    }
  }
}
