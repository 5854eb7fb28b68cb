/**
What the replica store means: the records each log file holds, the release marks, and the
index of unreleased fingerprints, with every operation and every crash as a function on
that state.
 */
module ReplicaSpec {
  import opened Wrappers
  import opened Text
  import opened Sums
  import opened ReplicaLog

  /** The key of the index: an origin edge and one of its sequence numbers. */
  datatype Slot = Slot(edge: string, sequence: nat)

  type Logs = map<string, seq<Record>>
  type Marks = map<string, nat>

  datatype View = View(
    logs: Logs,
    marks: Marks,
    released: Marks,
    compacted: Marks,
    fingerprints: map<Slot, string>,
    maxBytes: int)

  const COMPACT_STRIDE := 256

  function Mark(marks: Marks, edge: string): nat {
    if edge in marks then marks[edge] else 0
  }

  function Fingerprint(c: Codec, r: Record): string { c.digest(c.encode(r)) }

  function SlotOf(r: Record): Slot { Slot(r.edge, r.sequence) }

  // ---------------------------------------------------------------- sizes

  ghost function SizeIn(c: Codec, logs: Logs): string -> nat {
    (edge: string) => if edge in logs then |Log(c, logs[edge])| else 0
  }

  ghost function Total(c: Codec, logs: Logs): nat {
    Sum(logs.Keys, SizeIn(c, logs))
  }

  lemma TotalUpdate(c: Codec, logs: Logs, edge: string, records: seq<Record>)
    ensures Total(c, logs[edge := records]) == Total(c, logs - {edge}) + |Log(c, records)|
  {
    var logs' := logs[edge := records];
    SumExtract(logs'.Keys, SizeIn(c, logs'), edge);
    assert logs'.Keys - {edge} == (logs - {edge}).Keys;
    SumAgree((logs - {edge}).Keys, SizeIn(c, logs'), SizeIn(c, logs - {edge}));
  }

  lemma TotalRemove(c: Codec, logs: Logs, edge: string)
    requires edge in logs
    ensures Total(c, logs) == Total(c, logs - {edge}) + |Log(c, logs[edge])|
  {
    TotalUpdate(c, logs, edge, logs[edge]);
    assert logs[edge := logs[edge]] == logs;
  }

  lemma {:induction false} BodyAppend(c: Codec, records: seq<Record>, r: Record)
    ensures Body(c, records + [r]) == Body(c, records) + Frame(c, r)
  {
    if records == [] {
      assert Body(c, [r]) == Frame(c, r) + Body(c, []);
    } else {
      BodyAppend(c, records[1..], r);
      assert (records + [r])[1..] == records[1..] + [r];
    }
  }

  // ---------------------------------------------------------------- the index

  predicate LogOk(c: Codec, edge: string, records: seq<Record>) {
    && AllFit(c, records)
    && (forall i :: 0 <= i < |records| ==> records[i].edge == edge)
    && (forall i, j :: 0 <= i < j < |records| ==> records[i].sequence != records[j].sequence)
  }

  predicate LogsOk(c: Codec, logs: Logs) {
    forall edge :: edge in logs ==> LogOk(c, edge, logs[edge])
  }

  predicate HoldsAt(logs: Logs, slot: Slot, i: int) {
    slot.edge in logs && 0 <= i < |logs[slot.edge]| && logs[slot.edge][i].sequence == slot.sequence
  }

  ghost predicate Stored(logs: Logs, slot: Slot) {
    exists i :: HoldsAt(logs, slot, i)
  }

  ghost function StoredRecord(logs: Logs, slot: Slot): Record
    requires Stored(logs, slot)
  {
    var i :| HoldsAt(logs, slot, i);
    logs[slot.edge][i]
  }

  function Slots(logs: Logs): set<Slot> {
    set edge, i | edge in logs && 0 <= i < |logs[edge]| :: Slot(edge, logs[edge][i].sequence)
  }

  /** What a scan of the logs puts in the index: one fingerprint for every unreleased record. */
  ghost function IndexOf(c: Codec, logs: Logs, marks: Marks): map<Slot, string> {
    map slot | slot in Slots(logs) && slot.sequence > Mark(marks, slot.edge) && Stored(logs, slot) ::
      Fingerprint(c, StoredRecord(logs, slot))
  }

  lemma StoredIsSlot(logs: Logs, slot: Slot)
    ensures slot in Slots(logs) <==> Stored(logs, slot)
  {
    if slot in Slots(logs) {
      var i :| slot.edge in logs && 0 <= i < |logs[slot.edge]| && logs[slot.edge][i].sequence == slot.sequence;
      assert HoldsAt(logs, slot, i);
    }
    if i :| HoldsAt(logs, slot, i) {
      assert Slot(slot.edge, logs[slot.edge][i].sequence) == slot;
    }
  }

  /** The index is determined by who is stored, in any order and any file layout. */
  lemma IndexLookup(c: Codec, logs: Logs, marks: Marks, slot: Slot)
    ensures slot in IndexOf(c, logs, marks) <==> Stored(logs, slot) && slot.sequence > Mark(marks, slot.edge)
    ensures slot in IndexOf(c, logs, marks) ==> IndexOf(c, logs, marks)[slot] == Fingerprint(c, StoredRecord(logs, slot))
  {
    StoredIsSlot(logs, slot);
  }

  lemma StoredUnique(c: Codec, logs: Logs, slot: Slot, i: int)
    requires LogsOk(c, logs) && HoldsAt(logs, slot, i)
    ensures Stored(logs, slot) && StoredRecord(logs, slot) == logs[slot.edge][i]
  {
    var j :| HoldsAt(logs, slot, j) && StoredRecord(logs, slot) == logs[slot.edge][j];
    assert LogOk(c, slot.edge, logs[slot.edge]);
  }

  // ---------------------------------------------------------------- invariant

  ghost predicate Inv(c: Codec, v: View) {
    && v.released == v.marks
    && LogsOk(c, v.logs)
    && v.fingerprints == IndexOf(c, v.logs, v.released)
    && (forall edge :: Mark(v.compacted, edge) <= Mark(v.released, edge))
  }

  ghost predicate WithinBudget(c: Codec, v: View) {
    Total(c, v.logs) <= v.maxBytes
  }

  // ---------------------------------------------------------------- compaction

  function Keep(records: seq<Record>, mark: nat): (kept: seq<Record>) {
    if records == [] then []
    else if records[0].sequence > mark then [records[0]] + Keep(records[1..], mark)
    else Keep(records[1..], mark)
  }

  lemma {:induction false} KeepMembers(records: seq<Record>, mark: nat, r: Record)
    ensures r in Keep(records, mark) <==> r in records && r.sequence > mark
  {
    if records != [] {
      KeepMembers(records[1..], mark, r);
      assert records == [records[0]] + records[1..];
    }
  }

  /** The logs after compacting the edges in `done`: released records gone, emptied logs deleted. */
  function CompactLogs(logs: Logs, marks: Marks, done: set<string>): (logs': Logs) {
    map edge | edge in logs && (edge in done ==> Keep(logs[edge], Mark(marks, edge)) != []) ::
      if edge in done then Keep(logs[edge], Mark(marks, edge)) else logs[edge]
  }

  /** Compaction progress once the edges in `done` have caught up with their release marks. */
  function CaughtUp(compacted: Marks, released: Marks, done: set<string>): Marks {
    compacted + (map edge | edge in done :: Mark(released, edge))
  }

  function Compact(v: View, done: set<string>): View {
    v.(logs := CompactLogs(v.logs, v.released, done), compacted := CaughtUp(v.compacted, v.released, done))
  }

  /** The edges `compactReleased` rewrites. */
  function Overdue(v: View): set<string> {
    set edge | edge in v.released && v.released[edge] > Mark(v.compacted, edge)
  }

  lemma {:induction false} KeepSnoc(records: seq<Record>, r: Record, mark: nat)
    ensures Keep(records + [r], mark) == Keep(records, mark) + (if r.sequence > mark then [r] else [])
  {
    if records == [] {
      assert (records + [r])[1..] == [];
    } else {
      KeepSnoc(records[1..], r, mark);
      assert (records + [r])[1..] == records[1..] + [r];
    }
  }

  lemma {:induction false} KeepOk(c: Codec, edge: string, records: seq<Record>, mark: nat)
    requires LogOk(c, edge, records)
    ensures LogOk(c, edge, Keep(records, mark))
  {
    if records != [] {
      var r, rest := records[0], Keep(records[1..], mark);
      KeepOk(c, edge, records[1..], mark);
      forall i | 0 <= i < |rest|
        ensures rest[i].sequence != r.sequence
      {
        KeepMembers(records[1..], mark, rest[i]);
        assert rest[i] in records[1..];
      }
    }
  }

  lemma {:induction false} KeepShrinks(c: Codec, records: seq<Record>, mark: nat)
    ensures |Body(c, Keep(records, mark))| <= |Body(c, records)|
  {
    if records != [] {
      var r, rest := records[0], Keep(records[1..], mark);
      KeepShrinks(c, records[1..], mark);
      assert ([r] + rest)[1..] == rest;
    }
  }

  lemma CompactLogsOk(c: Codec, logs: Logs, marks: Marks, done: set<string>)
    requires LogsOk(c, logs)
    ensures LogsOk(c, CompactLogs(logs, marks, done))
  {
    forall edge | edge in CompactLogs(logs, marks, done)
      ensures LogOk(c, edge, CompactLogs(logs, marks, done)[edge])
    {
      KeepOk(c, edge, logs[edge], Mark(marks, edge));
    }
  }

  /** Compaction keeps every unreleased record. */
  lemma CompactKeepsUnreleased(c: Codec, logs: Logs, marks: Marks, done: set<string>, slot: Slot)
    requires LogsOk(c, logs) && slot.sequence > Mark(marks, slot.edge)
    ensures Stored(CompactLogs(logs, marks, done), slot) <==> Stored(logs, slot)
    ensures Stored(logs, slot) ==> StoredRecord(CompactLogs(logs, marks, done), slot) == StoredRecord(logs, slot)
  {
    var logs' := CompactLogs(logs, marks, done);
    CompactLogsOk(c, logs, marks, done);
    if i :| HoldsAt(logs, slot, i) {
      var r := logs[slot.edge][i];
      KeepMembers(logs[slot.edge], Mark(marks, slot.edge), r);
      assert r in logs'[slot.edge];
      var j :| 0 <= j < |logs'[slot.edge]| && logs'[slot.edge][j] == r;
      assert HoldsAt(logs', slot, j);
      StoredUnique(c, logs, slot, i);
      StoredUnique(c, logs', slot, j);
    }
    if j :| HoldsAt(logs', slot, j) {
      var r := logs'[slot.edge][j];
      KeepMembers(logs[slot.edge], Mark(marks, slot.edge), r);
      assert r in logs[slot.edge];
      var i :| 0 <= i < |logs[slot.edge]| && logs[slot.edge][i] == r;
      assert HoldsAt(logs, slot, i);
    }
  }

  lemma CompactKeepsIndex(c: Codec, logs: Logs, marks: Marks, done: set<string>)
    requires LogsOk(c, logs)
    ensures IndexOf(c, CompactLogs(logs, marks, done), marks) == IndexOf(c, logs, marks)
  {
    var logs' := CompactLogs(logs, marks, done);
    forall slot: Slot
      ensures slot in IndexOf(c, logs', marks) <==> slot in IndexOf(c, logs, marks)
      ensures slot in IndexOf(c, logs, marks) ==> IndexOf(c, logs', marks)[slot] == IndexOf(c, logs, marks)[slot]
    {
      IndexLookup(c, logs, marks, slot);
      IndexLookup(c, logs', marks, slot);
      if slot.sequence > Mark(marks, slot.edge) {
        CompactKeepsUnreleased(c, logs, marks, done, slot);
      }
    }
  }

  /** Compaction never grows the disk. */
  lemma {:induction false} CompactShrinks(c: Codec, logs: Logs, marks: Marks, done: set<string>)
    ensures Total(c, CompactLogs(logs, marks, done)) <= Total(c, logs)
    decreases logs.Keys
  {
    if edge :| edge in logs {
      CompactShrinks(c, logs - {edge}, marks, done);
      CompactOneShrinks(c, logs, marks, done, edge);
    } else {
      assert CompactLogs(logs, marks, done) == logs;
    }
  }

  lemma CompactWithout(logs: Logs, marks: Marks, done: set<string>, edge: string)
    ensures CompactLogs(logs - {edge}, marks, done) == CompactLogs(logs, marks, done) - {edge}
  {
  }

  lemma CompactedSize(c: Codec, logs: Logs, marks: Marks, done: set<string>, edge: string)
    requires edge in CompactLogs(logs, marks, done)
    ensures |Log(c, CompactLogs(logs, marks, done)[edge])| <= |Log(c, logs[edge])|
  {
    KeepShrinks(c, logs[edge], Mark(marks, edge));
  }

  lemma CompactOneShrinks(c: Codec, logs: Logs, marks: Marks, done: set<string>, edge: string)
    requires edge in logs
    ensures Total(c, CompactLogs(logs, marks, done)) - Total(c, CompactLogs(logs - {edge}, marks, done))
         <= Total(c, logs) - Total(c, logs - {edge})
  {
    var logs' := CompactLogs(logs, marks, done);
    TotalRemove(c, logs, edge);
    CompactWithout(logs, marks, done, edge);
    if edge in logs' {
      TotalRemove(c, logs', edge);
      CompactedSize(c, logs, marks, done, edge);
    } else {
      assert logs' - {edge} == logs';
    }
  }

  /** Compacting edges one at a time or all at once is the same. */
  lemma CompactOneMore(v: View, done: set<string>, edge: string)
    requires edge !in done
    ensures Compact(Compact(v, done), {edge}) == Compact(v, done + {edge})
  {
    CompactLogsOneMore(v.logs, v.released, done, edge);
    CaughtUpOneMore(v.compacted, v.released, done, edge);
  }

  lemma CaughtUpOneMore(compacted: Marks, released: Marks, done: set<string>, edge: string)
    ensures CaughtUp(CaughtUp(compacted, released, done), released, {edge}) == CaughtUp(compacted, released, done + {edge})
  {
  }

  lemma CompactLogsOneMore(logs: Logs, marks: Marks, done: set<string>, edge: string)
    requires edge !in done
    ensures CompactLogs(CompactLogs(logs, marks, done), marks, {edge}) == CompactLogs(logs, marks, done + {edge})
  {
  }

  lemma CompactKeepsInv(c: Codec, v: View, done: set<string>)
    requires Inv(c, v)
    ensures Inv(c, Compact(v, done))
    ensures Total(c, Compact(v, done).logs) <= Total(c, v.logs)
    ensures Compact(v, done).fingerprints == v.fingerprints
  {
    CompactLogsOk(c, v.logs, v.released, done);
    CompactKeepsIndex(c, v.logs, v.released, done);
    CompactShrinks(c, v.logs, v.released, done);
  }

  // ---------------------------------------------------------------- put

  datatype Outcome = Accepted | Duplicate | Invalid | Conflict | Pressure

  function Existing(logs: Logs, edge: string): seq<Record> {
    if edge in logs then logs[edge] else []
  }

  /** The bytes an append writes: the frame, after the header when the file is new. */
  function Written(c: Codec, logs: Logs, r: Record): (w: Bytes) {
    (if r.edge in logs then [] else HEADER) + Frame(c, r)
  }

  function Append(c: Codec, v: View, r: Record): View {
    v.(logs := v.logs[r.edge := Existing(v.logs, r.edge) + [r]],
       fingerprints := v.fingerprints[SlotOf(r) := Fingerprint(c, r)])
  }

  /** The bytes on disk once the append of `r` is complete. */
  ghost function TotalWith(c: Codec, logs: Logs, r: Record): nat {
    Total(c, logs) + |Written(c, logs, r)|
  }

  /** Over budget, everything released and not yet compacted is compacted first. */
  ghost function MakeRoom(c: Codec, v: View, r: Record): View {
    if TotalWith(c, v.logs, r) > v.maxBytes then Compact(v, Overdue(v)) else v
  }

  ghost function PutView(c: Codec, v: View, r: Record): (View, Outcome) {
    if !c.valid(r) then (v, Invalid)
    else if r.sequence <= Mark(v.released, r.edge) then (v, Duplicate)
    else if SlotOf(r) in v.fingerprints then
      (v, if v.fingerprints[SlotOf(r)] == Fingerprint(c, r) then Duplicate else Conflict)
    else PutInto(c, MakeRoom(c, v, r), r)
  }

  ghost function PutInto(c: Codec, v: View, r: Record): (View, Outcome) {
    if TotalWith(c, v.logs, r) > v.maxBytes then (v, Pressure)
    else (Append(c, v, r), Accepted)
  }

  lemma AppendLogsOk(c: Codec, v: View, r: Record)
    requires Inv(c, v) && Fits(c, r) && SlotOf(r) !in v.fingerprints && r.sequence > Mark(v.released, r.edge)
    ensures LogsOk(c, Append(c, v, r).logs)
  {
    var past := Existing(v.logs, r.edge);
    forall i | 0 <= i < |past|
      ensures past[i].sequence != r.sequence
    {
      if past[i].sequence == r.sequence {
        assert HoldsAt(v.logs, SlotOf(r), i);
        IndexLookup(c, v.logs, v.released, SlotOf(r));
      }
    }
    assert past == [] || LogOk(c, r.edge, past);
  }

  lemma AppendIndex(c: Codec, logs: Logs, marks: Marks, r: Record)
    requires LogsOk(c, logs) && LogsOk(c, logs[r.edge := Existing(logs, r.edge) + [r]])
    requires r.sequence > Mark(marks, r.edge)
    ensures IndexOf(c, logs[r.edge := Existing(logs, r.edge) + [r]], marks)
         == IndexOf(c, logs, marks)[SlotOf(r) := Fingerprint(c, r)]
  {
    var logs' := logs[r.edge := Existing(logs, r.edge) + [r]];
    var past := Existing(logs, r.edge);
    forall slot: Slot
      ensures slot in IndexOf(c, logs', marks) <==> slot in IndexOf(c, logs, marks) || slot == SlotOf(r)
      ensures slot in IndexOf(c, logs', marks) ==>
                IndexOf(c, logs', marks)[slot] == IndexOf(c, logs, marks)[SlotOf(r) := Fingerprint(c, r)][slot]
    {
      IndexLookup(c, logs, marks, slot);
      IndexLookup(c, logs', marks, slot);
      if slot == SlotOf(r) {
        assert HoldsAt(logs', slot, |past|);
        StoredUnique(c, logs', slot, |past|);
      } else {
        AppendKeepsStored(c, logs, r, slot);
      }
    }
  }

  lemma AppendKeepsStored(c: Codec, logs: Logs, r: Record, slot: Slot)
    requires LogsOk(c, logs) && LogsOk(c, logs[r.edge := Existing(logs, r.edge) + [r]]) && slot != SlotOf(r)
    ensures var logs' := logs[r.edge := Existing(logs, r.edge) + [r]];
            && (Stored(logs', slot) <==> Stored(logs, slot))
            && (Stored(logs, slot) ==> StoredRecord(logs', slot) == StoredRecord(logs, slot))
  {
    var logs' := logs[r.edge := Existing(logs, r.edge) + [r]];
    if i :| HoldsAt(logs, slot, i) {
      assert HoldsAt(logs', slot, i);
      StoredUnique(c, logs, slot, i);
      StoredUnique(c, logs', slot, i);
    }
    if i :| HoldsAt(logs', slot, i) {
      assert HoldsAt(logs, slot, i);
    }
  }

  lemma AppendTotal(c: Codec, logs: Logs, r: Record)
    ensures Total(c, logs[r.edge := Existing(logs, r.edge) + [r]]) == Total(c, logs) + |Written(c, logs, r)|
  {
    TotalUpdate(c, logs, r.edge, Existing(logs, r.edge) + [r]);
    BodyAppend(c, Existing(logs, r.edge), r);
    if r.edge in logs {
      TotalRemove(c, logs, r.edge);
    } else {
      assert logs - {r.edge} == logs;
    }
  }

  lemma AppendKeepsInv(c: Codec, v: View, r: Record)
    requires Inv(c, v) && Fits(c, r) && SlotOf(r) !in v.fingerprints && r.sequence > Mark(v.released, r.edge)
    ensures Inv(c, Append(c, v, r))
  {
    AppendLogsOk(c, v, r);
    AppendIndex(c, v.logs, v.released, r);
  }

  lemma MakeRoomKeepsInv(c: Codec, v: View, r: Record)
    requires Inv(c, v)
    ensures Inv(c, MakeRoom(c, v, r))
    ensures Total(c, MakeRoom(c, v, r).logs) <= Total(c, v.logs)
    ensures MakeRoom(c, v, r).fingerprints == v.fingerprints
    ensures MakeRoom(c, v, r).released == v.released && MakeRoom(c, v, r).maxBytes == v.maxBytes
  {
    CompactKeepsInv(c, v, Overdue(v));
  }

  /** A put keeps the invariant unless it accepts a record no scan will read, and it never leaves the byte budget. */
  lemma PutKeepsInv(c: Codec, v: View, r: Record)
    requires Inv(c, v)
    ensures Inv(c, PutView(c, v, r).0) <==> (PutView(c, v, r).1.Accepted? ==> Fits(c, r))
    ensures WithinBudget(c, v) ==> WithinBudget(c, PutView(c, v, r).0)
  {
    PutIsKnownOrNew(c, v, r);
    if NewTo(c, v, r) {
      MakeRoomKeepsInv(c, v, r);
      PutIntoKeepsInv(c, MakeRoom(c, v, r), r);
      MakeRoomInBudget(c, v, r);
    }
  }

  /** A valid record the store has neither released nor indexed. */
  predicate NewTo(c: Codec, v: View, r: Record) {
    c.valid(r) && r.sequence > Mark(v.released, r.edge) && SlotOf(r) !in v.fingerprints
  }

  lemma PutIsKnownOrNew(c: Codec, v: View, r: Record)
    ensures NewTo(c, v, r) ==> PutView(c, v, r) == PutInto(c, MakeRoom(c, v, r), r)
    ensures !NewTo(c, v, r) ==> PutView(c, v, r).0 == v && !PutView(c, v, r).1.Accepted?
  {
  }

  lemma MakeRoomInBudget(c: Codec, v: View, r: Record)
    requires Inv(c, v)
    ensures WithinBudget(c, v) ==> WithinBudget(c, MakeRoom(c, v, r))
  {
    MakeRoomKeepsInv(c, v, r);
  }

  lemma PutIntoKeepsInv(c: Codec, v: View, r: Record)
    requires Inv(c, v) && SlotOf(r) !in v.fingerprints && r.sequence > Mark(v.released, r.edge)
    ensures Inv(c, PutInto(c, v, r).0) <==> (PutInto(c, v, r).1.Accepted? ==> Fits(c, r))
    ensures WithinBudget(c, v) ==> WithinBudget(c, PutInto(c, v, r).0)
  {
    if Fits(c, r) {
      AppendKeepsInv(c, v, r);
    } else {
      OversizeBreaksInv(c, v, r);
    }
    AppendTotal(c, v.logs, r);
  }

  lemma OversizeBreaksInv(c: Codec, v: View, r: Record)
    requires !Fits(c, r)
    ensures !Inv(c, Append(c, v, r))
  {
    var logs, past := Append(c, v, r).logs, Existing(v.logs, r.edge);
    assert logs[r.edge][|past|] == r;
    assert !LogOk(c, r.edge, logs[r.edge]);
  }

  /** After an accepted put the directory opens again exactly when the record is within the scan's limit. */
  lemma AcceptedPutOpensIffFits(c: Codec, v: View, r: Record)
    requires Sound(c) && Inv(c, v) && PutView(c, v, r).1.Accepted? && |c.encode(r)| < WORD
    ensures Openable(c, Image(c, PutView(c, v, r).0.logs)) <==> Fits(c, r)
  {
    AcceptedMeans(c, v, r);
    AppendedOpensIffFits(c, MakeRoom(c, v, r), r);
    assert PutView(c, v, r) == PutInto(c, MakeRoom(c, v, r), r);
  }

  lemma AppendedOpensIffFits(c: Codec, v: View, r: Record)
    requires Sound(c) && Inv(c, v) && c.valid(r) && |c.encode(r)| < WORD
    ensures Openable(c, Image(c, Append(c, v, r).logs)) <==> Fits(c, r)
  {
    var past, logs := Existing(v.logs, r.edge), Append(c, v, r).logs;
    assert past == [] || LogOk(c, r.edge, past);
    var records := past + [r];
    assert AllFit(c, records) <==> Fits(c, r) by { assert records[|past|] == r; }
    LogReadableIffAllFit(c, records);
    forall edge | edge in logs && edge != r.edge
      ensures ScanLog(c, Image(c, logs)[edge]).Scanned?
    {
      assert LogOk(c, edge, v.logs[edge]);
      ScanWholeLog(c, v.logs[edge]);
    }
    assert Image(c, logs)[r.edge] == Log(c, records);
  }

  // ---------------------------------------------------------------- release

  function MarkReleased(v: View, edge: string, through: nat): View {
    v.(marks := v.marks[edge := through],
       released := v.released[edge := through],
       fingerprints := map slot | slot in v.fingerprints && !(slot.edge == edge && slot.sequence <= through) ::
                         v.fingerprints[slot])
  }

  ghost function ReleaseView(c: Codec, v: View, origin: string, through: nat): View {
    var edge := Trim(origin);
    if edge == "" || through <= Mark(v.released, edge) then v
    else
      var marked := MarkReleased(v, edge, through);
      if through - Mark(v.compacted, edge) >= COMPACT_STRIDE || Total(c, v.logs) >= v.maxBytes * 3 / 4
      then Compact(marked, {edge}) else marked
  }

  lemma MarkKeepsInv(c: Codec, v: View, edge: string, through: nat)
    requires Inv(c, v) && through > Mark(v.released, edge)
    ensures Inv(c, MarkReleased(v, edge, through))
  {
    MarkedIndex(c, v.logs, v.released, edge, through);
  }

  /** Raising a mark takes the released slots out of the index and nothing else. */
  lemma MarkedIndex(c: Codec, logs: Logs, marks: Marks, edge: string, through: nat)
    requires through > Mark(marks, edge)
    ensures IndexOf(c, logs, marks[edge := through]) ==
            map slot | slot in IndexOf(c, logs, marks) && !(slot.edge == edge && slot.sequence <= through) :: IndexOf(c, logs, marks)[slot]
  {
    var before, after := IndexOf(c, logs, marks), IndexOf(c, logs, marks[edge := through]);
    forall slot: Slot
      ensures slot in after <==> slot in before && !(slot.edge == edge && slot.sequence <= through)
      ensures slot in after ==> after[slot] == before[slot]
    {
      IndexLookup(c, logs, marks, slot);
      IndexLookup(c, logs, marks[edge := through], slot);
    }
  }

  lemma ReleaseKeepsInv(c: Codec, v: View, origin: string, through: nat)
    requires Inv(c, v)
    ensures Inv(c, ReleaseView(c, v, origin, through))
    ensures Total(c, ReleaseView(c, v, origin, through).logs) <= Total(c, v.logs)
  {
    var edge := Trim(origin);
    if edge != "" && through > Mark(v.released, edge) {
      MarkKeepsInv(c, v, edge, through);
      CompactKeepsInv(c, MarkReleased(v, edge, through), {edge});
    }
  }

  // ---------------------------------------------------------------- crash and reopen

  /** The files on disk when no write is in flight. */
  function Image(c: Codec, logs: Logs): map<string, Bytes> {
    map edge | edge in logs :: Log(c, logs[edge])
  }

  /** Where a process can die: between operations, inside a put, or inside a release. */
  datatype Crash =
    | Idle
    | InCompaction(done: set<string>)
    | InAppend(record: Record, cut: nat)
    | InRelease(edge: string, through: nat, swept: bool)

  /** The state the dying process had reached on disk, apart from a torn append. */
  ghost function Settled(c: Codec, v: View, crash: Crash): View {
    match crash
    case Idle => v
    case InCompaction(done) => Compact(v, done)
    case InAppend(r, _) => MakeRoom(c, v, r)
    case InRelease(edge, through, swept) =>
      var marked := MarkReleased(v, edge, through);
      if swept then Compact(marked, {edge}) else marked
  }

  /** The crashes a run can meet; a release works on the trimmed name of its origin. */
  ghost predicate Possible(c: Codec, v: View, crash: Crash) {
    match crash
    case InAppend(r, cut) =>
      PutView(c, v, r).1.Accepted? && |c.encode(r)| < WORD && cut <= |Written(c, MakeRoom(c, v, r).logs, r)|
    case InRelease(edge, through, _) => through > Mark(v.released, edge) && Trim(edge) == edge != ""
    case _ => true
  }

  /** The files found after the crash: an append leaves any prefix of what it was writing. */
  ghost function Wreckage(c: Codec, v: View, crash: Crash): map<string, Bytes>
    requires Possible(c, v, crash)
  {
    var logs := Settled(c, v, crash).logs;
    match crash
    case InAppend(r, cut) =>
      Image(c, logs)[r.edge := TornFile(c, logs, r, cut)]
    case _ => Image(c, logs)
  }

  /** The append died inside the header of a file it had just created. */
  ghost predicate HeaderTorn(c: Codec, v: View, crash: Crash) {
    crash.InAppend? && crash.record.edge !in MakeRoom(c, v, crash.record).logs && crash.cut < |HEADER|
  }

  /** The append of a record beyond the scan's limit died with the length of its payload already written. */
  ghost predicate LengthWritten(c: Codec, v: View, crash: Crash) {
    crash.InAppend? && !Fits(c, crash.record) && crash.cut >= Lead(MakeRoom(c, v, crash.record).logs, crash.record) + FRAME_HEADER
  }

  /** The crashes a directory does not recover from. */
  ghost predicate Fatal(c: Codec, v: View, crash: Crash) {
    HeaderTorn(c, v, crash) || LengthWritten(c, v, crash)
  }

  /** The bytes an append writes before its frame. */
  function Lead(logs: Logs, r: Record): nat {
    if r.edge in logs then 0 else |HEADER|
  }

  /** The complete records in the wreckage. */
  ghost function Survivors(c: Codec, v: View, crash: Crash): Logs {
    var logs := Settled(c, v, crash).logs;
    match crash
    case InAppend(r, cut) =>
      logs[r.edge := Existing(logs, r.edge) + (if cut == |Written(c, logs, r)| then [r] else [])]
    case _ => logs
  }

  predicate Openable(c: Codec, files: map<string, Bytes>) {
    forall edge :: edge in files ==> ScanLog(c, files[edge]).Scanned?
  }

  /** The file scans to `records`, and up to its torn tail is exactly the log of those records. */
  ghost predicate Yields(c: Codec, file: Bytes, records: seq<Record>) {
    var s := ScanLog(c, file);
    s.Scanned? && s.records == records && file[..|HEADER| + s.clean] == Log(c, records)
  }

  /** The store `OpenStoreWithConfig` builds from recovered logs and release checkpoints. */
  ghost function Opened(c: Codec, logs: Logs, marks: Marks, maxBytes: int): View {
    View(logs, marks, marks, map[], IndexOf(c, logs, marks), maxBytes)
  }

  lemma OpenedInv(c: Codec, logs: Logs, marks: Marks, maxBytes: int)
    requires LogsOk(c, logs)
    ensures Inv(c, Opened(c, logs, marks, maxBytes))
  {
  }

  lemma WholeFileYields(c: Codec, records: seq<Record>)
    requires Sound(c) && AllFit(c, records)
    ensures Yields(c, Log(c, records), records)
  {
    ScanWholeLog(c, records);
    assert Log(c, records)[..|HEADER| + |Body(c, records)|] == Log(c, records);
  }

  lemma ImageYields(c: Codec, logs: Logs)
    requires Sound(c) && LogsOk(c, logs)
    ensures forall edge :: edge in logs ==> Yields(c, Image(c, logs)[edge], logs[edge])
  {
    forall edge | edge in logs
      ensures Yields(c, Image(c, logs)[edge], logs[edge])
    {
      assert LogOk(c, edge, logs[edge]);
      WholeFileYields(c, logs[edge]);
    }
  }

  /** One log with a partly written append scans to what was complete. */
  lemma TornAppendYields(c: Codec, records: seq<Record>, r: Record, cut: nat)
    requires Sound(c) && AllFit(c, records) && (Fits(c, r) || cut < FRAME_HEADER) && cut <= |Frame(c, r)|
    ensures Yields(c, Log(c, records) + Frame(c, r)[..cut], if cut == |Frame(c, r)| then records + [r] else records)
  {
    var file := Log(c, records) + Frame(c, r)[..cut];
    if cut == 0 {
      assert file == Log(c, records);
      WholeFileYields(c, records);
    } else if cut < FRAME_HEADER {
      ScanTornPrefix(c, records, r, cut);
      assert file[..|HEADER| + |Body(c, records)|] == Log(c, records);
    } else if cut < |Frame(c, r)| {
      ScanTornLog(c, records, r, cut);
      assert file[..|HEADER| + |Body(c, records)|] == Log(c, records);
    } else {
      BodyAppend(c, records, r);
      assert Frame(c, r)[..cut] == Frame(c, r);
      assert file == Log(c, records + [r]);
      WholeFileYields(c, records + [r]);
    }
  }

  lemma SettledInv(c: Codec, v: View, crash: Crash)
    requires Inv(c, v) && Possible(c, v, crash)
    ensures Inv(c, Settled(c, v, crash))
    ensures Total(c, Settled(c, v, crash).logs) <= Total(c, v.logs)
  {
    match crash {
      case Idle =>
      case InCompaction(done) => CompactKeepsInv(c, v, done);
      case InAppend(r, _) => CompactKeepsInv(c, v, Overdue(v));
      case InRelease(edge, through, _) =>
        MarkKeepsInv(c, v, edge, through);
        CompactKeepsInv(c, MarkReleased(v, edge, through), {edge});
    }
  }

  /** The bytes of `r`'s log file when the append of `r` stopped after `cut` bytes. */
  function TornFile(c: Codec, logs: Logs, r: Record, cut: nat): Bytes
    requires cut <= |Written(c, logs, r)|
  {
    (if r.edge in logs then Log(c, logs[r.edge]) else []) + Written(c, logs, r)[..cut]
  }

  lemma TornFileIsCutLog(c: Codec, logs: Logs, r: Record, cut: nat)
    requires Lead(logs, r) <= cut <= |Written(c, logs, r)|
    ensures TornFile(c, logs, r, cut) == Log(c, Existing(logs, r.edge)) + Frame(c, r)[..cut - Lead(logs, r)]
  {
    if r.edge !in logs {
      assert Written(c, logs, r)[..cut] == HEADER + Frame(c, r)[..cut - |HEADER|];
      assert Log(c, []) == HEADER;
    } else {
      assert Written(c, logs, r) == Frame(c, r);
    }
  }

  lemma TornFileYields(c: Codec, logs: Logs, r: Record, cut: nat)
    requires Sound(c) && LogsOk(c, logs) && c.valid(r) && |c.encode(r)| < WORD && cut <= |Written(c, logs, r)|
    ensures var fatal := cut < Lead(logs, r) || (!Fits(c, r) && cut >= Lead(logs, r) + FRAME_HEADER);
            && (fatal ==> ScanLog(c, TornFile(c, logs, r, cut)).Corrupt?)
            && (!fatal ==> Yields(c, TornFile(c, logs, r, cut),
                                  Existing(logs, r.edge) + (if cut == |Written(c, logs, r)| then [r] else [])))
  {
    var past, lead := Existing(logs, r.edge), Lead(logs, r);
    if cut < lead {
      assert TornFile(c, logs, r, cut) == HEADER[..cut];
      ShortHeaderIsCorrupt(c, cut);
    } else {
      assert past == [] || LogOk(c, r.edge, past);
      TornFileIsCutLog(c, logs, r, cut);
      CutLogReadableIff(c, past, r, cut - lead);
      if Fits(c, r) || cut < lead + FRAME_HEADER {
        TornAppendYields(c, past, r, cut - lead);
        assert past + [] == past;
      }
    }
  }

  /** The files yield the logs, file by file. */
  ghost predicate AllYield(c: Codec, files: map<string, Bytes>, logs: Logs) {
    files.Keys == logs.Keys && forall edge :: edge in files ==> Yields(c, files[edge], logs[edge])
  }

  /**
  A crashed store opens again exactly when the crash tore no header of a brand-new log and
  left no length of a payload beyond the scan's limit, and then every file yields the
  surviving records.
   */
  lemma OpensUnlessFatal(c: Codec, v: View, crash: Crash)
    requires Sound(c) && Inv(c, v) && Possible(c, v, crash)
    ensures Openable(c, Wreckage(c, v, crash)) <==> !Fatal(c, v, crash)
    ensures !Fatal(c, v, crash) ==> AllYield(c, Wreckage(c, v, crash), Survivors(c, v, crash))
  {
    SettledInv(c, v, crash);
    ImageYields(c, Settled(c, v, crash).logs);
    if crash.InAppend? {
      TornAppendOpens(c, v, crash.record, crash.cut);
    }
  }

  lemma TornAppendOpens(c: Codec, v: View, r: Record, cut: nat)
    requires Sound(c) && Inv(c, v) && Possible(c, v, InAppend(r, cut))
    ensures Openable(c, Wreckage(c, v, InAppend(r, cut))) <==> !Fatal(c, v, InAppend(r, cut))
    ensures !Fatal(c, v, InAppend(r, cut)) ==> AllYield(c, Wreckage(c, v, InAppend(r, cut)), Survivors(c, v, InAppend(r, cut)))
  {
    var logs := MakeRoom(c, v, r).logs;
    MakeRoomKeepsInv(c, v, r);
    AcceptedIsValid(c, v, r);
    CutAppendOpens(c, logs, r, cut);
    FatalInAppend(c, v, r, cut);
  }

  lemma AcceptedIsValid(c: Codec, v: View, r: Record)
    requires PutView(c, v, r).1.Accepted?
    ensures c.valid(r)
  {
  }

  lemma FatalInAppend(c: Codec, v: View, r: Record, cut: nat)
    ensures var lead := Lead(MakeRoom(c, v, r).logs, r);
            Fatal(c, v, InAppend(r, cut)) <==> cut < lead || (!Fits(c, r) && cut >= lead + FRAME_HEADER)
  {
  }

  lemma CutAppendOpens(c: Codec, logs: Logs, r: Record, cut: nat)
    requires Sound(c) && LogsOk(c, logs) && c.valid(r) && |c.encode(r)| < WORD && cut <= |Written(c, logs, r)|
    ensures var fatal := cut < Lead(logs, r) || (!Fits(c, r) && cut >= Lead(logs, r) + FRAME_HEADER);
            var files := Image(c, logs)[r.edge := TornFile(c, logs, r, cut)];
            && (Openable(c, files) <==> !fatal)
            && (!fatal ==> AllYield(c, files,
                                    logs[r.edge := Existing(logs, r.edge) + (if cut == |Written(c, logs, r)| then [r] else [])]))
  {
    ImageYields(c, logs);
    TornFileYields(c, logs, r, cut);
    OneFileReplaced(c, logs, r.edge, TornFile(c, logs, r, cut),
                    Existing(logs, r.edge) + (if cut == |Written(c, logs, r)| then [r] else []));
  }

  lemma OneFileReplaced(c: Codec, logs: Logs, edge: string, file: Bytes, records: seq<Record>)
    requires forall e :: e in logs ==> Yields(c, Image(c, logs)[e], logs[e])
    ensures ScanLog(c, file).Corrupt? ==> !Openable(c, Image(c, logs)[edge := file])
    ensures Yields(c, file, records) ==>
              Openable(c, Image(c, logs)[edge := file]) && AllYield(c, Image(c, logs)[edge := file], logs[edge := records])
  {
    var files := Image(c, logs)[edge := file];
    assert edge in files;
    if Yields(c, file, records) {
      forall e | e in files
        ensures Yields(c, files[e], logs[edge := records][e])
      {
        if e != edge {
          assert files[e] == Image(c, logs)[e];
        }
      }
    }
  }

  // ---------------------------------------------------------------- runs

  /** The store that comes back after a crash. */
  ghost function Reopen(c: Codec, v: View, crash: Crash): View {
    Opened(c, Survivors(c, v, crash), Settled(c, v, crash).marks, v.maxBytes)
  }

  lemma AcceptedMeans(c: Codec, v: View, r: Record)
    requires Inv(c, v) && PutView(c, v, r).1.Accepted?
    ensures var w := MakeRoom(c, v, r);
            && Inv(c, w) && SlotOf(r) !in w.fingerprints && r.sequence > Mark(w.released, r.edge)
            && TotalWith(c, w.logs, r) <= w.maxBytes
            && w.released == v.released && w.fingerprints == v.fingerprints && w.maxBytes == v.maxBytes
  {
    MakeRoomKeepsInv(c, v, r);
  }

  /** A crash inside an append keeps the marks and the index; the record in flight is indexed iff its frame is complete. */
  lemma CrashInAppendLosesNothing(c: Codec, v: View, r: Record, cut: nat)
    requires Sound(c) && Inv(c, v) && Possible(c, v, InAppend(r, cut)) && !Fatal(c, v, InAppend(r, cut))
    ensures var v' := Reopen(c, v, InAppend(r, cut));
            && Inv(c, v') && v'.released == v.released && WithinBudget(c, v')
            && v'.fingerprints == (if cut == |Written(c, MakeRoom(c, v, r).logs, r)|
                                   then v.fingerprints[SlotOf(r) := Fingerprint(c, r)] else v.fingerprints)
  {
    AcceptedMeans(c, v, r);
    AppendSurvives(c, MakeRoom(c, v, r), r, cut);
  }

  /** Any other crash leaves exactly the store the last completed disk operation made. */
  lemma CrashElsewhereLosesNothing(c: Codec, v: View, crash: Crash)
    requires Sound(c) && Inv(c, v) && Possible(c, v, crash) && !crash.InAppend?
    ensures var v', w := Reopen(c, v, crash), Settled(c, v, crash);
            && Inv(c, v') && v'.released == w.released && v'.fingerprints == w.fingerprints
            && Total(c, v'.logs) <= Total(c, v.logs)
            && (!crash.InRelease? ==> v'.released == v.released && v'.fingerprints == v.fingerprints)
  {
    SettledInv(c, v, crash);
    OpenedInv(c, Survivors(c, v, crash), Settled(c, v, crash).marks, v.maxBytes);
  }

  lemma AppendSurvives(c: Codec, w: View, r: Record, cut: nat)
    requires Inv(c, w) && SlotOf(r) !in w.fingerprints && r.sequence > Mark(w.released, r.edge)
    requires TotalWith(c, w.logs, r) <= w.maxBytes && Lead(w.logs, r) <= cut <= |Written(c, w.logs, r)|
    requires Fits(c, r) || cut < |Written(c, w.logs, r)|
    ensures var complete := cut == |Written(c, w.logs, r)|;
            var logs := w.logs[r.edge := Existing(w.logs, r.edge) + (if complete then [r] else [])];
            && LogsOk(c, logs)
            && Total(c, logs) <= w.maxBytes
            && IndexOf(c, logs, w.marks) ==
               (if complete then w.fingerprints[SlotOf(r) := Fingerprint(c, r)] else w.fingerprints)
  {
    if cut == |Written(c, w.logs, r)| {
      AppendKeepsInv(c, w, r);
      AppendTotal(c, w.logs, r);
    } else {
      assert Existing(w.logs, r.edge) + [] == Existing(w.logs, r.edge);
      EmptyLogHarmless(c, w, r.edge);
    }
  }

  /** A log with no complete record adds nothing to the index and only its header to the disk. */
  lemma EmptyLogHarmless(c: Codec, v: View, edge: string)
    requires Inv(c, v)
    ensures var logs := v.logs[edge := Existing(v.logs, edge)];
            && LogsOk(c, logs)
            && IndexOf(c, logs, v.released) == v.fingerprints
            && Total(c, logs) <= Total(c, v.logs) + |HEADER|
            && (edge in v.logs ==> logs == v.logs)
  {
    if edge in v.logs {
      assert v.logs[edge := Existing(v.logs, edge)] == v.logs;
    } else {
      TotalUpdate(c, v.logs, edge, []);
      assert v.logs - {edge} == v.logs;
      EmptyLogIndex(c, v.logs, v.released, edge);
    }
  }

  lemma EmptyLogIndex(c: Codec, logs: Logs, marks: Marks, edge: string)
    requires LogsOk(c, logs) && edge !in logs
    ensures IndexOf(c, logs[edge := []], marks) == IndexOf(c, logs, marks)
  {
    forall slot: Slot
      ensures slot in IndexOf(c, logs[edge := []], marks) <==> slot in IndexOf(c, logs, marks)
      ensures slot in IndexOf(c, logs, marks) ==>
                IndexOf(c, logs[edge := []], marks)[slot] == IndexOf(c, logs, marks)[slot]
    {
      IndexLookup(c, logs[edge := []], marks, slot);
      IndexLookup(c, logs, marks, slot);
      EmptyLogStores(c, logs, edge, slot);
    }
  }

  lemma EmptyLogStores(c: Codec, logs: Logs, edge: string, slot: Slot)
    requires LogsOk(c, logs) && edge !in logs
    ensures Stored(logs[edge := []], slot) <==> Stored(logs, slot)
    ensures Stored(logs, slot) ==> StoredRecord(logs[edge := []], slot) == StoredRecord(logs, slot)
  {
    var logs' := logs[edge := []];
    assert forall i :: HoldsAt(logs', slot, i) <==> HoldsAt(logs, slot, i);
    if i :| HoldsAt(logs, slot, i) {
      StoredUnique(c, logs, slot, i);
      StoredUnique(c, logs', slot, i);
    }
  }
}
