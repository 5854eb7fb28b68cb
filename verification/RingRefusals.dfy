/** Why an operation of the ring gives up: it saw a lagging slot, or it lost thirty-two races. */
module RingRefusals {
  import opened Arith
  import opened Ring

  predicate Searching<T>(pc: Thread<T>) {
    pc.PushLoad? || pc.PushPeek? || pc.PushDecide? || pc.PopLoad? || pc.PopPeek? || pc.PopDecide?
  }

  predicate Deciding<T>(pc: Thread<T>) { pc.PushDecide? || pc.PopDecide? }

  /** The slot had the sequence the thread needs, and nobody moved the counter in between. */
  predicate Wins<T>(m: Memory<T>, pc: Thread<T>)
    requires Deciding(pc)
  {
    if pc.PushDecide? then pc.sequence == pc.position == m.enqueue
    else pc.sequence == pc.position + 1 && m.dequeue == pc.position
  }

  /** The slot was behind: full for a push, empty for a pop. */
  predicate Lags<T>(pc: Thread<T>)
    requires Deciding(pc)
  {
    if pc.PushDecide? then pc.sequence < pc.position else pc.sequence < pc.position + 1
  }

  /** The races the thread has lost since it last started an operation. */
  ghost function Lost<T>(k: nat, zero: T, actions: seq<Action<T>>, thread: nat): nat
    decreases |actions|
  {
    if actions == [] then 0
    else
      var earlier, last := actions[..|actions| - 1], actions[|actions| - 1];
      var s := Execute(k, zero, earlier);
      var pc := At(s.threads, thread);
      if last.thread != thread then Lost(k, zero, earlier, thread)
      else if !last.Step? then if pc.Idle? then 0 else Lost(k, zero, earlier, thread)
      else Lost(k, zero, earlier, thread) + if Deciding(pc) && !Wins(s.memory, pc) && !Lags(pc) then 1 else 0
  }

  /** In every execution a thread still searching counts exactly the races it lost, and has lost fewer than thirty-two. */
  lemma {:induction false} AttemptsAreLosses<T>(k: nat, zero: T, actions: seq<Action<T>>, thread: nat)
    ensures var pc := At(Execute(k, zero, actions).threads, thread);
            Searching(pc) ==> pc.attempts == Lost(k, zero, actions, thread) < 32
    decreases |actions|
  {
    if actions != [] {
      AttemptsAreLosses(k, zero, actions[..|actions| - 1], thread);
    }
  }

  /** A decision ends the operation without success exactly when the slot lags, or the race lost is the thirty-second. */
  lemma GivesUpIff<T>(k: nat, zero: T, actions: seq<Action<T>>, thread: nat)
    requires Deciding(At(Execute(k, zero, actions).threads, thread))
    ensures var s, after := Execute(k, zero, actions), Execute(k, zero, actions + [Step(thread)]);
            var pc := At(s.threads, thread);
            At(after.threads, thread).Idle? <==> Lags(pc) || (!Wins(s.memory, pc) && Lost(k, zero, actions, thread) == 31)
  {
    AttemptsAreLosses(k, zero, actions, thread);
    assert (actions + [Step(thread)])[..|actions|] == actions;
  }
}
