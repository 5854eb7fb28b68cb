/** Whole lives of a replica store: any sequence of puts, releases and crashes with reopening. */
module ReplicaRuns {
  import opened Wrappers
  import opened Text
  import opened ReplicaLog
  import opened ReplicaSpec

  datatype Event = Put(record: Record) | Release(edge: string, through: nat) | Died(crash: Crash)

  /** The store and every record whose put was answered with success, fresh or duplicate. */
  datatype History = History(view: View, acked: set<Record>)

  predicate Acknowledges(outcome: Outcome) { outcome.Accepted? || outcome.Duplicate? }

  ghost function Step(c: Codec, h: History, event: Event): History {
    match event
    case Put(r) =>
      var (view, outcome) := PutView(c, h.view, r);
      History(view, if Acknowledges(outcome) then h.acked + {r} else h.acked)
    case Release(edge, through) => h.(view := ReleaseView(c, h.view, edge, through))
    case Died(crash) => h.(view := Reopen(c, h.view, crash))
  }

  /** Every record the store accepts is within the scan's limit, and no crash is fatal. */
  ghost predicate Legal(c: Codec, v: View, event: Event) {
    match event
    case Put(r) => PutView(c, v, r).1.Accepted? ==> Fits(c, r)
    case Release(_, _) => true
    case Died(crash) => Possible(c, v, crash) && !Fatal(c, v, crash)
  }

  ghost function Run(c: Codec, h: History, events: seq<Event>): History
    decreases |events|
  {
    if events == [] then h else Run(c, Step(c, h, events[0]), events[1..])
  }

  ghost predicate LegalRun(c: Codec, h: History, events: seq<Event>)
    decreases |events|
  {
    events == [] || (Legal(c, h.view, events[0]) && LegalRun(c, Step(c, h, events[0]), events[1..]))
  }

  /** Marks only move forward, and what stays unreleased stays indexed with the same fingerprint. */
  ghost predicate Continues(v: View, v': View) {
    && v'.maxBytes == v.maxBytes
    && (forall edge :: Mark(v.released, edge) <= Mark(v'.released, edge))
    && (forall slot :: slot in v.fingerprints && slot.sequence > Mark(v'.released, slot.edge) ==>
          slot in v'.fingerprints && v'.fingerprints[slot] == v.fingerprints[slot])
  }

  /** The record is released, or indexed under its own fingerprint. */
  predicate Indexed(c: Codec, v: View, r: Record) {
    r.sequence > Mark(v.released, r.edge) ==>
      SlotOf(r) in v.fingerprints && v.fingerprints[SlotOf(r)] == Fingerprint(c, r)
  }

  ghost predicate Promise(c: Codec, h: History) {
    forall r :: r in h.acked ==> c.valid(r) && Indexed(c, h.view, r)
  }

  lemma PutContinues(c: Codec, v: View, r: Record)
    requires Inv(c, v)
    ensures Continues(v, PutView(c, v, r).0)
    ensures Acknowledges(PutView(c, v, r).1) ==> c.valid(r) && Indexed(c, PutView(c, v, r).0, r)
  {
    if c.valid(r) && r.sequence > Mark(v.released, r.edge) && SlotOf(r) !in v.fingerprints {
      var w := MakeRoom(c, v, r);
      assert PutView(c, v, r) == PutInto(c, w, r);
      MakeRoomKeepsInv(c, v, r);
      PutIntoContinues(c, v, w, r);
    } else {
      assert PutView(c, v, r).0 == v;
      ContinuesItself(v);
    }
  }

  lemma ContinuesItself(v: View)
    ensures Continues(v, v)
  {
  }

  lemma PutIntoContinues(c: Codec, v: View, w: View, r: Record)
    requires w.fingerprints == v.fingerprints && w.released == v.released && w.maxBytes == v.maxBytes
    requires SlotOf(r) !in v.fingerprints
    ensures Continues(v, PutInto(c, w, r).0)
    ensures Acknowledges(PutInto(c, w, r).1) ==> Indexed(c, PutInto(c, w, r).0, r)
  {
  }

  lemma ReleaseContinues(c: Codec, v: View, edge: string, through: nat)
    ensures Continues(v, ReleaseView(c, v, edge, through))
  {
  }

  lemma DeathContinues(c: Codec, v: View, crash: Crash)
    requires Sound(c) && Inv(c, v) && Possible(c, v, crash) && !Fatal(c, v, crash)
    ensures Inv(c, Reopen(c, v, crash)) && Continues(v, Reopen(c, v, crash))
    ensures WithinBudget(c, v) ==> WithinBudget(c, Reopen(c, v, crash))
  {
    if crash.InAppend? {
      DeathInAppend(c, v, crash.record, crash.cut);
    } else {
      CrashElsewhereLosesNothing(c, v, crash);
      if crash.InRelease? {
        DeathInRelease(c, v, crash);
      }
    }
  }

  lemma DeathInAppend(c: Codec, v: View, r: Record, cut: nat)
    requires Sound(c) && Inv(c, v) && Possible(c, v, InAppend(r, cut)) && !Fatal(c, v, InAppend(r, cut))
    ensures Inv(c, Reopen(c, v, InAppend(r, cut))) && Continues(v, Reopen(c, v, InAppend(r, cut)))
    ensures WithinBudget(c, Reopen(c, v, InAppend(r, cut)))
  {
    AcceptedMeans(c, v, r);
    CrashInAppendLosesNothing(c, v, r, cut);
    ContinuesWithSlot(v, Reopen(c, v, InAppend(r, cut)), SlotOf(r), Fingerprint(c, r));
  }

  lemma ContinuesWithSlot(v: View, v': View, slot: Slot, fingerprint: string)
    requires v'.maxBytes == v.maxBytes && v'.released == v.released && slot !in v.fingerprints
    requires v'.fingerprints == v.fingerprints || v'.fingerprints == v.fingerprints[slot := fingerprint]
    ensures Continues(v, v')
  {
  }

  lemma DeathInRelease(c: Codec, v: View, crash: Crash)
    requires Possible(c, v, crash) && crash.InRelease?
    requires Reopen(c, v, crash).released == Settled(c, v, crash).released
    requires Reopen(c, v, crash).fingerprints == Settled(c, v, crash).fingerprints
    ensures Continues(v, Reopen(c, v, crash))
  {
    var marked := MarkReleased(v, crash.edge, crash.through);
    assert Settled(c, v, crash).released == marked.released;
    assert Settled(c, v, crash).fingerprints == marked.fingerprints;
  }

  ghost predicate Sane(c: Codec, h: History) {
    Inv(c, h.view) && Promise(c, h)
  }

  /** An acknowledged set stays honest when the store continues and only indexed records join it. */
  lemma PromiseContinues(c: Codec, h: History, v': View, acked': set<Record>)
    requires Promise(c, h) && Continues(h.view, v')
    requires forall r :: r in acked' && r !in h.acked ==> c.valid(r) && Indexed(c, v', r)
    ensures Promise(c, History(v', acked'))
  {
    forall r | r in acked'
      ensures c.valid(r) && Indexed(c, v', r)
    {
      if r in h.acked {
        assert c.valid(r) && Indexed(c, h.view, r);
        assert Mark(h.view.released, r.edge) <= Mark(v'.released, r.edge);
      }
    }
  }

  lemma StepKeeps(c: Codec, h: History, event: Event)
    requires Sound(c) && Sane(c, h) && Legal(c, h.view, event)
    ensures Sane(c, Step(c, h, event)) && Continues(h.view, Step(c, h, event).view)
    ensures WithinBudget(c, h.view) ==> WithinBudget(c, Step(c, h, event).view)
  {
    match event {
      case Put(r) =>
        PutKeepsInv(c, h.view, r);
        PutContinues(c, h.view, r);
      case Release(edge, through) =>
        ReleaseKeepsInv(c, h.view, edge, through);
        ReleaseContinues(c, h.view, edge, through);
      case Died(crash) =>
        DeathContinues(c, h.view, crash);
    }
    PromiseContinues(c, h, Step(c, h, event).view, Step(c, h, event).acked);
  }

  /**
  Durability over every run with crashes: the in-memory index always equals what a rescan
  would build, release marks never move back, every acknowledged unreleased record keeps its
  fingerprint, and a store within its byte budget stays within it.
   */
  lemma {:induction false} RunKeeps(c: Codec, h: History, events: seq<Event>)
    requires Sound(c) && Sane(c, h) && LegalRun(c, h, events)
    ensures Sane(c, Run(c, h, events))
    ensures WithinBudget(c, h.view) ==> WithinBudget(c, Run(c, h, events).view)
    ensures forall edge :: Mark(h.view.released, edge) <= Mark(Run(c, h, events).view.released, edge)
    decreases |events|
  {
    if events != [] {
      StepKeeps(c, h, events[0]);
      RunKeeps(c, Step(c, h, events[0]), events[1..]);
    }
  }

  lemma EmptyStoreSane(c: Codec, maxBytes: nat)
    ensures Sane(c, History(Opened(c, map[], map[], maxBytes), {}))
    ensures WithinBudget(c, Opened(c, map[], map[], maxBytes))
  {
    OpenedInv(c, map[], map[], maxBytes);
  }

  /** Two different payloads with one digest. */
  predicate DigestCollision(c: Codec, a: Record, b: Record) {
    c.encode(a) != c.encode(b) && c.digest(c.encode(a)) == c.digest(c.encode(b))
  }

  lemma SameFingerprint(c: Codec, a: Record, b: Record)
    requires Sound(c) && c.valid(a) && c.valid(b) && Fingerprint(c, a) == Fingerprint(c, b)
    ensures a == b || DigestCollision(c, a, b)
  {
    assert c.decode(c.encode(a)) == Some(a) && c.decode(c.encode(b)) == Some(b);
  }

  /** An acknowledged unreleased record is on disk, or the digest has collided. */
  lemma AckedIsOnDisk(c: Codec, h: History, r: Record)
    requires Sound(c) && Sane(c, h) && r in h.acked && r.sequence > Mark(h.view.released, r.edge)
    ensures Stored(h.view.logs, SlotOf(r))
    ensures var kept := StoredRecord(h.view.logs, SlotOf(r)); kept == r || DigestCollision(c, kept, r)
  {
    assert Indexed(c, h.view, r);
    IndexLookup(c, h.view.logs, h.view.released, SlotOf(r));
    var i :| HoldsAt(h.view.logs, SlotOf(r), i) && StoredRecord(h.view.logs, SlotOf(r)) == h.view.logs[r.edge][i];
    assert LogOk(c, r.edge, h.view.logs[r.edge]);
    SameFingerprint(c, h.view.logs[r.edge][i], r);
  }

  /** Two contents are acknowledged for one origin and sequence only after its release, or when the digest collides. */
  lemma NoTwoContents(c: Codec, h: History, a: Record, b: Record)
    requires Sound(c) && Sane(c, h) && a in h.acked && b in h.acked && SlotOf(a) == SlotOf(b)
    ensures a == b || DigestCollision(c, a, b) || a.sequence <= Mark(h.view.released, a.edge)
  {
    assert Indexed(c, h.view, a) && Indexed(c, h.view, b);
    if Fingerprint(c, a) == Fingerprint(c, b) {
      SameFingerprint(c, a, b);
    }
  }

  /** Once one content is acknowledged, another is acknowledged exactly when the slot is released or the fingerprints agree. */
  lemma SecondContentIff(c: Codec, h: History, a: Record, b: Record)
    requires Sound(c) && Sane(c, h) && a in h.acked && c.valid(b) && SlotOf(a) == SlotOf(b)
    ensures Acknowledges(PutView(c, h.view, b).1) <==>
              a.sequence <= Mark(h.view.released, a.edge) || Fingerprint(c, a) == Fingerprint(c, b)
  {
    assert Indexed(c, h.view, a);
  }

  /** The run that shows it: once released, a slot acknowledges any content. */
  lemma ReleasedSlotTakesAnything(c: Codec, h: History, a: Record, b: Record)
    requires Sound(c) && Sane(c, h) && a in h.acked && c.valid(b) && SlotOf(a) == SlotOf(b) && Trim(a.edge) == a.edge
    ensures var events := [Release(a.edge, a.sequence), Put(b)];
            LegalRun(c, h, events) && a in Run(c, h, events).acked && b in Run(c, h, events).acked
  {
    var events := [Release(a.edge, a.sequence), Put(b)];
    var released := Step(c, h, events[0]);
    ReleaseCovers(c, h.view, a);
    assert PutView(c, released.view, b) == (released.view, Duplicate);
    assert events[1..] == [Put(b)] && [Put(b)][1..] == [];
    assert Run(c, released, [Put(b)]) == Step(c, released, Put(b));
    assert Run(c, h, events) == Run(c, released, [Put(b)]);
    assert LegalRun(c, released, [Put(b)]);
  }

  lemma ReleaseCovers(c: Codec, v: View, r: Record)
    requires Sound(c) && Trim(r.edge) == r.edge
    requires c.valid(r)
    ensures r.sequence <= Mark(ReleaseView(c, v, r.edge, r.sequence).released, r.edge)
  {
    assert c.encode(r) != [] && !Blank(r.edge);
  }

  /** The disk never holds two records of one origin and sequence, and the index names the one it holds. */
  lemma OneContentOnDisk(c: Codec, h: History, slot: Slot, i: int, j: int)
    requires Sane(c, h) && HoldsAt(h.view.logs, slot, i) && HoldsAt(h.view.logs, slot, j)
    ensures i == j
    ensures slot.sequence > Mark(h.view.released, slot.edge) ==>
              slot in h.view.fingerprints && h.view.fingerprints[slot] == Fingerprint(c, h.view.logs[slot.edge][i])
  {
    assert LogOk(c, slot.edge, h.view.logs[slot.edge]);
    IndexLookup(c, h.view.logs, h.view.released, slot);
    StoredUnique(c, h.view.logs, slot, i);
  }

  // ---------------------------------------------------------------- what makes a step legal

  /** The steps that can happen; a payload of 4 GiB, whose length field wraps, is outside the model. */
  ghost predicate Happens(c: Codec, v: View, event: Event) {
    match event
    case Put(r) => |c.encode(r)| < WORD
    case Release(_, _) => true
    case Died(crash) => Possible(c, v, crash)
  }

  /** The files after a step. */
  ghost function DiskAfter(c: Codec, v: View, event: Event): map<string, Bytes>
    requires Happens(c, v, event)
  {
    match event
    case Put(r) => Image(c, PutView(c, v, r).0.logs)
    case Release(edge, through) => Image(c, ReleaseView(c, v, edge, through).logs)
    case Died(crash) => Wreckage(c, v, crash)
  }

  lemma InvOpens(c: Codec, v: View)
    requires Sound(c) && Inv(c, v)
    ensures Openable(c, Image(c, v.logs))
  {
    ImageYields(c, v.logs);
  }

  /** Legality is not a convenience: a step is legal exactly when the directory it leaves can be opened. */
  lemma LegalIffOpens(c: Codec, h: History, event: Event)
    requires Sound(c) && Sane(c, h) && Happens(c, h.view, event)
    ensures Legal(c, h.view, event) <==> Openable(c, DiskAfter(c, h.view, event))
  {
    match event {
      case Put(r) =>
        PutKeepsInv(c, h.view, r);
        if PutView(c, h.view, r).1.Accepted? {
          AcceptedPutOpensIffFits(c, h.view, r);
        } else {
          InvOpens(c, PutView(c, h.view, r).0);
        }
      case Release(edge, through) =>
        ReleaseKeepsInv(c, h.view, edge, through);
        InvOpens(c, ReleaseView(c, h.view, edge, through));
      case Died(crash) => OpensUnlessFatal(c, h.view, crash);
    }
  }

  // ---------------------------------------------------------------- origins with surrounding space

  lemma StepKeepsUntrimmedMark(c: Codec, h: History, event: Event, edge: string)
    requires Sound(c) && Sane(c, h) && Legal(c, h.view, event) && Trim(edge) != edge
    ensures Mark(Step(c, h, event).view.released, edge) == Mark(h.view.released, edge)
  {
    match event {
      case Put(r) => PutKeepsMarks(c, h.view, r);
      case Release(origin, through) => ReleaseMarksTrimmed(c, h.view, origin, through, edge);
      case Died(crash) =>
        if crash.InAppend? {
          CrashInAppendLosesNothing(c, h.view, crash.record, crash.cut);
        } else {
          CrashElsewhereLosesNothing(c, h.view, crash);
        }
    }
  }

  lemma PutKeepsMarks(c: Codec, v: View, r: Record)
    requires Inv(c, v)
    ensures PutView(c, v, r).0.released == v.released
  {
    PutIsKnownOrNew(c, v, r);
    MakeRoomKeepsInv(c, v, r);
  }

  lemma ReleaseMarksTrimmed(c: Codec, v: View, origin: string, through: nat, edge: string)
    requires Trim(edge) != edge
    ensures Mark(ReleaseView(c, v, origin, through).released, edge) == Mark(v.released, edge)
  {
    TrimIdempotent(origin);
  }

  /** A release trims its origin and a put does not: in no run is a record of an origin with surrounding space ever released. */
  lemma {:induction false} UntrimmedNeverReleased(c: Codec, h: History, events: seq<Event>, edge: string)
    requires Sound(c) && Sane(c, h) && LegalRun(c, h, events) && Trim(edge) != edge
    ensures Mark(Run(c, h, events).view.released, edge) == Mark(h.view.released, edge)
    decreases |events|
  {
    if events != [] {
      StepKeeps(c, h, events[0]);
      StepKeepsUntrimmedMark(c, h, events[0], edge);
      UntrimmedNeverReleased(c, Step(c, h, events[0]), events[1..], edge);
    }
  }
}
