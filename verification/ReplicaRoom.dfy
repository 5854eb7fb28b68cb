/**
When a put finds room: the budget against the bytes that are left once every released record
that can be dropped is dropped.
 */
module ReplicaRoom {
  import opened Wrappers
  import opened Text
  import opened Sums
  import opened ReplicaLog
  import opened ReplicaSpec

  /** The bytes of the frames of the records above a mark. */
  ghost function FrameBytes(c: Codec, records: seq<Record>, above: int): nat {
    if records == [] then 0
    else FrameBytes(c, records[1..], above) + if records[0].sequence > above then FRAME_HEADER + |c.encode(records[0])| else 0
  }

  /** The origin has released records since its log was last compacted. */
  predicate Due(released: Marks, compacted: Marks, edge: string) {
    Mark(released, edge) > Mark(compacted, edge)
  }

  /** There is no log of the origin, or nothing of it is left when it is compacted. */
  ghost predicate Gone(logs: Logs, released: Marks, compacted: Marks, edge: string) {
    edge in logs ==>
      Due(released, compacted, edge) && forall i :: 0 <= i < |logs[edge]| ==> logs[edge][i].sequence <= Mark(released, edge)
  }

  /** What one log takes when the logs that are due drop their released records. */
  ghost function SizeLeft(c: Codec, logs: Logs, released: Marks, compacted: Marks): string -> nat {
    (edge: string) =>
      if Gone(logs, released, compacted, edge) then 0
      else |HEADER| + FrameBytes(c, logs[edge], if Due(released, compacted, edge) then Mark(released, edge) else -1)
  }

  /** The bytes a directory needs to hold the record as well. */
  ghost function Needed(c: Codec, logs: Logs, released: Marks, compacted: Marks, r: Record): nat {
    Sum(logs.Keys, SizeLeft(c, logs, released, compacted))
    + FRAME_HEADER + |c.encode(r)| + if Gone(logs, released, compacted, r.edge) then |HEADER| else 0
  }

  // ---------------------------------------------------------------- compaction in bytes

  lemma {:induction false} KeptBytes(c: Codec, records: seq<Record>, mark: nat)
    ensures |Body(c, Keep(records, mark))| == FrameBytes(c, records, mark)
  {
    if records != [] {
      var rest := Keep(records[1..], mark);
      KeptBytes(c, records[1..], mark);
      assert ([records[0]] + rest)[1..] == rest;
    }
  }

  lemma {:induction false} AllBytes(c: Codec, records: seq<Record>)
    ensures |Body(c, records)| == FrameBytes(c, records, -1)
  {
    if records != [] {
      AllBytes(c, records[1..]);
    }
  }

  lemma {:induction false} NoneKept(records: seq<Record>, mark: nat)
    ensures Keep(records, mark) == [] <==> forall i :: 0 <= i < |records| ==> records[i].sequence <= mark
  {
    if records != [] {
      NoneKept(records[1..], mark);
      assert records == [records[0]] + records[1..];
    }
  }

  lemma OverdueIsDue(v: View, edge: string)
    ensures edge in Overdue(v) <==> Due(v.released, v.compacted, edge)
  {
  }

  /** A compacted log takes what is left of it. */
  lemma CompactedSizeLeft(c: Codec, v: View, edge: string)
    requires edge in v.logs
    ensures var logs := CompactLogs(v.logs, v.released, Overdue(v));
            && (edge in logs <==> !Gone(v.logs, v.released, v.compacted, edge))
            && SizeIn(c, logs)(edge) == SizeLeft(c, v.logs, v.released, v.compacted)(edge)
  {
    OverdueIsDue(v, edge);
    NoneKept(v.logs[edge], Mark(v.released, edge));
    KeptBytes(c, v.logs[edge], Mark(v.released, edge));
    AllBytes(c, v.logs[edge]);
  }

  lemma {:induction false} SumWithoutZeros<K>(keys: set<K>, fewer: set<K>, f: K -> nat)
    requires fewer <= keys && forall k :: k in keys - fewer ==> f(k) == 0
    ensures Sum(keys, f) == Sum(fewer, f)
    decreases keys
  {
    if k :| k in keys - fewer {
      SumExtract(keys, f, k);
      SumWithoutZeros(keys - {k}, fewer, f);
    } else {
      forall k | k in keys ensures k in fewer { assert k !in keys - fewer; }
      assert keys == fewer;
    }
  }

  lemma CompactedTotal(c: Codec, v: View)
    ensures Total(c, CompactLogs(v.logs, v.released, Overdue(v))) == Sum(v.logs.Keys, SizeLeft(c, v.logs, v.released, v.compacted))
  {
    var logs := CompactLogs(v.logs, v.released, Overdue(v));
    forall edge | edge in v.logs.Keys
      ensures SizeIn(c, logs)(edge) == SizeLeft(c, v.logs, v.released, v.compacted)(edge)
    {
      CompactedSizeLeft(c, v, edge);
    }
    SumAgree(v.logs.Keys, SizeIn(c, logs), SizeLeft(c, v.logs, v.released, v.compacted));
    SumWithoutZeros(v.logs.Keys, logs.Keys, SizeIn(c, logs));
  }

  lemma CompactedNeed(c: Codec, v: View, r: Record)
    ensures TotalWith(c, CompactLogs(v.logs, v.released, Overdue(v)), r) == Needed(c, v.logs, v.released, v.compacted, r)
  {
    CompactedTotal(c, v);
    if r.edge in v.logs {
      CompactedSizeLeft(c, v, r.edge);
    }
  }

  /** With nothing due, what is needed is what is there and the record. */
  lemma NeedAsItIs(c: Codec, logs: Logs, marks: Marks, r: Record)
    ensures TotalWith(c, logs, r) == Needed(c, logs, marks, marks, r)
  {
    forall edge | edge in logs.Keys
      ensures SizeIn(c, logs)(edge) == SizeLeft(c, logs, marks, marks)(edge)
    {
      AllBytes(c, logs[edge]);
    }
    SumAgree(logs.Keys, SizeIn(c, logs), SizeLeft(c, logs, marks, marks));
  }

  /** Dropping a log gives back at least the header it takes to begin it again. */
  lemma DroppedLogPays(c: Codec, logs: Logs, marks: Marks, done: set<string>, edge: string)
    requires edge in logs && edge !in CompactLogs(logs, marks, done)
    ensures Total(c, CompactLogs(logs, marks, done)) + |HEADER| <= Total(c, logs)
  {
    var rest := logs - {edge};
    TotalRemove(c, logs, edge);
    CompactShrinks(c, rest, marks, done);
    CompactWithout(logs, marks, done, edge);
    assert CompactLogs(logs, marks, done) - {edge} == CompactLogs(logs, marks, done);
  }

  /** Compaction never makes a record need more. */
  lemma CompactionHelps(c: Codec, v: View, r: Record)
    ensures Needed(c, v.logs, v.released, v.compacted, r) <= TotalWith(c, v.logs, r)
  {
    var done := Overdue(v);
    CompactedNeed(c, v, r);
    CompactShrinks(c, v.logs, v.released, done);
    if r.edge in v.logs && r.edge !in CompactLogs(v.logs, v.released, done) {
      DroppedLogPays(c, v.logs, v.released, done, r.edge);
    }
  }

  // ---------------------------------------------------------------- what a put answers

  /** What a put answers, in the fields of the store. */
  ghost predicate Answers(c: Codec, v: View, r: Record, outcome: Outcome) {
    var released := r.sequence <= Mark(v.released, r.edge);
    var indexed := SlotOf(r) in v.fingerprints;
    var same := indexed && v.fingerprints[SlotOf(r)] == Fingerprint(c, r);
    var needed := Needed(c, v.logs, v.released, v.compacted, r);
    && (outcome.Invalid? <==> !c.valid(r))
    && (outcome.Duplicate? <==> c.valid(r) && (released || same))
    && (outcome.Conflict? <==> c.valid(r) && !released && indexed && !same)
    && (outcome.Pressure? <==> c.valid(r) && !released && !indexed && needed > v.maxBytes)
    && (outcome.Accepted? <==> c.valid(r) && !released && !indexed && needed <= v.maxBytes)
  }

  lemma NewPutAnswers(c: Codec, v: View, r: Record)
    ensures PutInto(c, MakeRoom(c, v, r), r).1 == if Needed(c, v.logs, v.released, v.compacted, r) > v.maxBytes then Pressure else Accepted
  {
    CompactedNeed(c, v, r);
    CompactionHelps(c, v, r);
  }

  /** Exactly when a put is invalid, a duplicate, a conflict, refused for want of room, or accepted. */
  lemma PutAnswers(c: Codec, v: View, r: Record)
    ensures Answers(c, v, r, PutView(c, v, r).1)
  {
    NewPutAnswers(c, v, r);
  }

  /** The record is in the log of the origin. */
  predicate InLog(logs: Logs, edge: string, x: Record) {
    edge in logs && x in logs[edge]
  }

  /** The put could not append to the logs as they were. */
  ghost predicate Short(c: Codec, v: View, r: Record) {
    NewTo(c, v, r) && Needed(c, v.logs, v.released, v.released, r) > v.maxBytes
  }

  lemma CompactedHolds(v: View, done: set<string>, edge: string, x: Record)
    ensures InLog(Compact(v, done).logs, edge, x) <==>
              InLog(v.logs, edge, x) && (edge in done ==> x.sequence > Mark(v.released, edge))
  {
    if edge in v.logs {
      KeepMembers(v.logs[edge], Mark(v.released, edge), x);
    }
  }

  lemma AppendedHolds(c: Codec, v: View, r: Record, edge: string, x: Record)
    ensures InLog(Append(c, v, r).logs, edge, x) <==> InLog(v.logs, edge, x) || (edge == r.edge && x == r)
  {
  }

  /**
  What a put leaves in the logs: everything as it was, and the record if it was accepted;
  released records of logs that are due are dropped exactly when the record did not fit
  beside them.
   */
  lemma PutLeaves(c: Codec, v: View, r: Record, edge: string, x: Record)
    ensures var (w, outcome) := PutView(c, v, r);
            InLog(w.logs, edge, x) <==>
              || (InLog(v.logs, edge, x) && !(Short(c, v, r) && Due(v.released, v.compacted, edge) && x.sequence <= Mark(v.released, edge)))
              || (outcome.Accepted? && edge == r.edge && x == r)
  {
    NeedAsItIs(c, v.logs, v.released, r);
    PutIsKnownOrNew(c, v, r);
    OverdueIsDue(v, edge);
    CompactedHolds(v, Overdue(v), edge, x);
    if NewTo(c, v, r) {
      AppendedHolds(c, MakeRoom(c, v, r), r, edge, x);
    }
  }

  /** A store that was just opened forgets what it had compacted, so everything released may be dropped to make room. */
  lemma OpenedIsDue(c: Codec, logs: Logs, marks: Marks, maxBytes: int, edge: string)
    ensures var v := Opened(c, logs, marks, maxBytes);
            v.released == marks && (Due(v.released, v.compacted, edge) <==> Mark(marks, edge) > 0)
  {
  }

  // ---------------------------------------------------------------- what a release leaves

  /** The release rewrites the log: a stride of records is released, or three quarters of the budget are used. */
  ghost predicate Sweeps(c: Codec, v: View, edge: string, through: nat) {
    through >= Mark(v.compacted, edge) + 256 || Sum(v.logs.Keys, SizeLeft(c, v.logs, v.released, v.released)) >= v.maxBytes * 3 / 4
  }

  /** The release raises the mark of its origin. */
  predicate Raises(v: View, origin: string, through: nat) {
    !Blank(origin) && through > Mark(v.released, Trim(origin))
  }

  lemma TotalAsItIs(c: Codec, logs: Logs, marks: Marks)
    ensures Total(c, logs) == Sum(logs.Keys, SizeLeft(c, logs, marks, marks))
  {
    forall edge | edge in logs.Keys
      ensures SizeIn(c, logs)(edge) == SizeLeft(c, logs, marks, marks)(edge)
    {
      AllBytes(c, logs[edge]);
    }
    SumAgree(logs.Keys, SizeIn(c, logs), SizeLeft(c, logs, marks, marks));
  }

  /** What a release changes: one mark, the fingerprints it covers, and the released records of its log when it sweeps. */
  lemma ReleaseLeaves(c: Codec, v: View, origin: string, through: nat, edge: string, sequence: nat, x: Record)
    ensures var w := ReleaseView(c, v, origin, through);
            var own := Raises(v, origin, through) && edge == Trim(origin);
            && (Mark(w.released, edge) == if own then through else Mark(v.released, edge))
            && (Slot(edge, sequence) in w.fingerprints <==> Slot(edge, sequence) in v.fingerprints && !(own && sequence <= through))
            && (Slot(edge, sequence) in w.fingerprints ==> w.fingerprints[Slot(edge, sequence)] == v.fingerprints[Slot(edge, sequence)])
            && (InLog(w.logs, edge, x) <==> InLog(v.logs, edge, x) && !(own && Sweeps(c, v, edge, through) && x.sequence <= through))
  {
    TotalAsItIs(c, v.logs, v.released);
    var name := Trim(origin);
    if Raises(v, origin, through) {
      var marked := MarkReleased(v, name, through);
      CompactedHolds(marked, {name}, edge, x);
    }
  }
}
