/** The receiver-side replica store on real bytes, proved to do what ReplicaSpec says. */
module ReplicaStore {
  import opened Wrappers
  import opened Text
  import opened ReplicaLog
  import opened ReplicaSpec
  import opened ReplicaRoom

  const DEFAULT_MAX_BYTES := 0x2_0000_0000

  /** Writes the header and one frame per record. */
  method WriteLog(c: Codec, records: seq<Record>) returns (data: Bytes)
    ensures data == Log(c, records)
  {
    data := HEADER;
    for i := 0 to |records|
      invariant data == Log(c, records[..i])
    {
      BodyAppend(c, records[..i], records[i]);
      assert records[..i + 1] == records[..i] + [records[i]];
      data := data + Frame(c, records[i]);
    }
    assert records[..|records|] == records;
  }

  /** The records above a release mark, in order. */
  method Retain(records: seq<Record>, mark: nat) returns (retained: seq<Record>)
    ensures retained == Keep(records, mark)
  {
    retained := [];
    for i := 0 to |records|
      invariant retained == Keep(records[..i], mark)
    {
      KeepSnoc(records[..i], records[i], mark);
      assert records[..i + 1] == records[..i] + [records[i]];
      if records[i].sequence > mark {
        retained := retained + [records[i]];
      }
    }
    assert records[..|records|] == records;
  }

  /** Rewrites or deletes the log file of one edge, and the byte count with it. */
  method CompactedFiles(c: Codec, files: map<string, Bytes>, totalBytes: int, edge: string, mark: nat, ghost v: View)
    returns (files': map<string, Bytes>, totalBytes': int)
    requires edge in v.logs && files == Image(c, v.logs) && totalBytes == Total(c, v.logs)
    requires ScanLog(c, files[edge]).Scanned? && ScanLog(c, files[edge]).records == v.logs[edge]
    requires mark == Mark(v.released, edge)
    ensures files' == Image(c, Compact(v, {edge}).logs) && totalBytes' == Total(c, Compact(v, {edge}).logs)
  {
    var scan := ScanReplicaFile(c, files[edge]);
    var retained := Retain(scan.records, mark);
    CompactOne(c, v, edge, retained);
    if |retained| == 0 {
      files', totalBytes' := files - {edge}, totalBytes - |files[edge]|;
    } else {
      var temporary := WriteLog(c, retained);
      files', totalBytes' := files[edge := temporary], totalBytes - |files[edge]| + |temporary|;
    }
  }

  /** Deletes the fingerprints a release covers. */
  method DropReleased(fingerprints: map<Slot, string>, edge: string, through: nat) returns (rest: map<Slot, string>)
    ensures rest == map slot | slot in fingerprints && !(slot.edge == edge && slot.sequence <= through) :: fingerprints[slot]
  {
    rest := fingerprints;
    var pending := fingerprints.Keys;
    while pending != {}
      invariant pending <= fingerprints.Keys
      invariant forall slot :: slot in rest <==>
                  slot in fingerprints && (slot in pending || !(slot.edge == edge && slot.sequence <= through))
      invariant forall slot :: slot in rest ==> rest[slot] == fingerprints[slot]
      decreases pending
    {
      var slot :| slot in pending;
      pending := pending - {slot};
      if slot.edge == edge && slot.sequence <= through {
        rest := rest - {slot};
      }
    }
  }

  class Store {
    const c: Codec
    const maxBytes: int
    var files: map<string, Bytes>
    var marks: Marks
    var totalBytes: int
    var fingerprints: map<Slot, string>
    var released: Marks
    var compacted: Marks
    ghost var logs: Logs

    ghost function Abstract(): (v: View)
      reads this
    {
      View(logs, marks, released, compacted, fingerprints, maxBytes)
    }

    ghost predicate Valid()
      reads this
    {
      Sound(c) && Inv(c, Abstract()) && files == Image(c, logs) && totalBytes == Total(c, logs)
    }

    /** An empty replica directory. */
    constructor (c: Codec, maxBytes: int)
      requires Sound(c)
      ensures Valid() && this.c == c
      ensures Abstract() == Opened(c, map[], map[], if maxBytes <= 0 then DEFAULT_MAX_BYTES else maxBytes)
    {
      this.c := c;
      this.maxBytes := if maxBytes <= 0 then DEFAULT_MAX_BYTES else maxBytes;
      files, marks, logs := map[], map[], map[];
      totalBytes, fingerprints, released, compacted := 0, map[], map[], map[];
    }

    /** A store over recovered files; the caller has built the index and the byte count. */
    constructor Recovered(c: Codec, files: map<string, Bytes>, marks: Marks, fingerprints: map<Slot, string>,
                          totalBytes: int, maxBytes: int, ghost logs: Logs)
      ensures this.c == c && this.files == files && this.totalBytes == totalBytes && this.logs == logs
      ensures Abstract() == View(logs, marks, marks, map[], fingerprints, maxBytes)
    {
      this.c, this.files, this.marks, this.fingerprints := c, files, marks, fingerprints;
      this.totalBytes, this.maxBytes, this.released, this.compacted, this.logs := totalBytes, maxBytes, marks, map[], logs;
    }

    /** The record's own log file holds exactly the frames of its records. */
    lemma FileIsLog(edge: string)
      requires Valid() && edge in files
      ensures edge in logs && files[edge] == Log(c, logs[edge])
      ensures ScanLog(c, files[edge]) == Scanned(logs[edge], |Body(c, logs[edge])|, false)
    {
      assert LogOk(c, edge, logs[edge]);
      ScanWholeLog(c, logs[edge]);
    }

    method CompactEdge(edge: string)
      requires Valid()
      modifies this
      ensures Valid() && Abstract() == Compact(old(Abstract()), {edge})
    {
      ghost var v, w := Abstract(), Compact(Abstract(), {edge});
      CompactKeepsInv(c, v, {edge});
      CaughtUpOne(v, edge);
      var files', totalBytes' := files, totalBytes;
      if edge in files {
        FileIsLog(edge);
        files', totalBytes' := CompactedFiles(c, files, totalBytes, edge, Mark(released, edge), v);
      } else {
        NothingToCompact(v, edge);
      }
      files, totalBytes, compacted, logs := files', totalBytes', compacted[edge := Mark(released, edge)], w.logs;
      assert Abstract() == w;
    }

    /** The open-file half of a put: append the frame, account for it, index it. */
    method AppendRecord(r: Record)
      requires Sound(c) && files == Image(c, logs) && totalBytes == Total(c, logs)
      modifies this
      ensures files == Image(c, logs) && totalBytes == Total(c, logs)
      ensures Abstract() == Append(c, old(Abstract()), r)
    {
      ghost var w := Append(c, Abstract(), r);
      AppendedFile(c, logs, r);
      AppendTotal(c, logs, r);
      var file := (if r.edge in files then files[r.edge] else HEADER) + Frame(c, r);
      var additional := FRAME_HEADER + |c.encode(r)| + (if r.edge in files then 0 else |HEADER|);
      files, totalBytes, logs := files[r.edge := file], totalBytes + additional, w.logs;
      fingerprints := fingerprints[SlotOf(r) := Fingerprint(c, r)];
      assert Abstract() == w;
    }

    method Put(r: Record) returns (outcome: Outcome)
      requires Valid()
      modifies this
      ensures (Abstract(), outcome) == PutView(c, old(Abstract()), r)
      ensures Answers(c, old(Abstract()), r, outcome)
      ensures files == Image(c, logs) && totalBytes == Total(c, logs)
      ensures Valid() <==> (outcome.Accepted? ==> Fits(c, r))
    {
      ghost var v := Abstract();
      PutKeepsInv(c, v, r);
      PutAnswers(c, v, r);
      if !c.valid(r) { return Invalid; }
      var fingerprint := Fingerprint(c, r);
      if r.sequence <= Mark(released, r.edge) { return Duplicate; }
      if SlotOf(r) in fingerprints {
        return if fingerprints[SlotOf(r)] != fingerprint then Conflict else Duplicate;
      }
      outcome := PutNew(r);
    }

    /** The bytes an append of the record would add. */
    method Additional(r: Record) returns (additional: nat)
      requires files == Image(c, logs)
      ensures additional == |Written(c, logs, r)|
    {
      additional := FRAME_HEADER + |c.encode(r)| + (if r.edge in files then 0 else |HEADER|);
    }

    /** A record the index does not know: compaction makes room when it must, and the append follows if there is room. */
    method PutNew(r: Record) returns (outcome: Outcome)
      requires Valid()
      modifies this
      ensures (Abstract(), outcome) == PutInto(c, MakeRoom(c, old(Abstract()), r), r)
      ensures files == Image(c, logs) && totalBytes == Total(c, logs)
    {
      var additional := Additional(r);
      if totalBytes + additional > maxBytes {
        CompactReleased();
        additional := Additional(r);
        if totalBytes + additional > maxBytes { return Pressure; }
      }
      AppendRecord(r);
      return Accepted;
    }

    method Release(origin: string, through: nat) returns (ok: bool)
      requires Valid()
      modifies this
      ensures ok <==> !Blank(origin)
      ensures Valid() && Abstract() == ReleaseView(c, old(Abstract()), origin, through)
    {
      ghost var v := Abstract();
      ReleaseKeepsInv(c, v, origin, through);
      var edge := Trim(origin);
      if edge == "" { return false; }
      if through <= Mark(released, edge) { return true; }
      MarkKeepsInv(c, v, edge, through);
      var remaining := DropReleased(fingerprints, edge, through);
      marks, released, fingerprints := marks[edge := through], released[edge := through], remaining;
      assert Abstract() == MarkReleased(v, edge, through);
      if through - Mark(compacted, edge) >= COMPACT_STRIDE || totalBytes >= maxBytes * 3 / 4 {
        CompactEdge(edge);
      }
      return true;
    }

    method CompactIfOverdue(edge: string)
      requires Valid()
      modifies this
      ensures Valid() && Abstract() == CompactIf(old(Abstract()), edge)
    {
      if edge in released && released[edge] > Mark(compacted, edge) {
        CompactEdge(edge);
      }
    }

    /** Compacts every edge whose release mark has moved since its last compaction, in any order. */
    method CompactReleased()
      requires Valid()
      modifies this
      ensures Valid() && Abstract() == Compact(old(Abstract()), Overdue(old(Abstract())))
    {
      ghost var v := Abstract();
      var pending := released.Keys;
      CompactedNone(v);
      while pending != {}
        invariant Valid() && pending <= v.released.Keys
        invariant Abstract() == Compact(v, Overdue(v) - pending)
        decreases pending
      {
        var edge :| edge in pending;
        CompactedOneMore(v, pending, edge);
        CompactIfOverdue(edge);
        pending := pending - {edge};
      }
      assert Overdue(v) - pending == Overdue(v);
    }
  }

  ghost function CompactIf(v: View, edge: string): View {
    if edge in Overdue(v) then Compact(v, {edge}) else v
  }

  lemma CompactedNone(v: View)
    ensures Compact(v, Overdue(v) - v.released.Keys) == v
  {
    assert Overdue(v) - v.released.Keys == {};
    CompactNothing(v);
  }

  /** One round of the loop: the edge taken from `pending` is compacted iff it was overdue at the start. */
  lemma CompactedOneMore(v: View, pending: set<string>, edge: string)
    requires edge in pending && edge in v.released
    ensures CompactIf(Compact(v, Overdue(v) - pending), edge) == Compact(v, Overdue(v) - (pending - {edge}))
  {
    var done := Overdue(v) - pending;
    StillOverdue(v, done, edge);
    OneLessPending(Overdue(v), pending, edge);
    if edge in Overdue(v) {
      CompactOneMore(v, done, edge);
    } else {
      assert done + {} == done;
    }
  }

  lemma AppendedFile(c: Codec, logs: Logs, r: Record)
    ensures Image(c, logs[r.edge := Existing(logs, r.edge) + [r]]) ==
              Image(c, logs)[r.edge := (if r.edge in logs then Log(c, logs[r.edge]) else HEADER) + Frame(c, r)]
  {
    var past := Existing(logs, r.edge);
    BodyAppend(c, past, r);
    assert Log(c, past + [r]) == Log(c, past) + Frame(c, r);
    assert Log(c, []) == HEADER;
  }

  lemma OneLessPending(overdue: set<string>, pending: set<string>, edge: string)
    requires edge in pending
    ensures overdue - (pending - {edge}) == (overdue - pending) + (if edge in overdue then {edge} else {})
  {
  }

  /** An edge not yet compacted is overdue in the middle of the loop iff it was at the start. */
  lemma StillOverdue(v: View, done: set<string>, edge: string)
    requires edge !in done && edge in v.released
    ensures edge in Overdue(Compact(v, done)) <==> edge in Overdue(v)
  {
  }

  lemma CompactNothing(v: View)
    ensures Compact(v, {}) == v
  {
    assert CompactLogs(v.logs, v.released, {}) == v.logs;
    assert CaughtUp(v.compacted, v.released, {}) == v.compacted;
  }

  lemma NothingToCompact(v: View, edge: string)
    requires edge !in v.logs
    ensures Compact(v, {edge}).logs == v.logs
  {
  }

  lemma CaughtUpOne(v: View, edge: string)
    ensures Compact(v, {edge}).compacted == v.compacted[edge := Mark(v.released, edge)]
  {
  }

  /** Compacting one edge: its log is deleted or rewritten, every other log stays. */
  function Replaced(logs: Logs, edge: string, retained: seq<Record>): Logs {
    if retained == [] then logs - {edge} else logs[edge := retained]
  }

  lemma CompactOneLogs(logs: Logs, marks: Marks, edge: string)
    requires edge in logs
    ensures CompactLogs(logs, marks, {edge}) == Replaced(logs, edge, Keep(logs[edge], Mark(marks, edge)))
  {
  }

  lemma ReplacedTotal(c: Codec, logs: Logs, edge: string, retained: seq<Record>)
    requires edge in logs
    ensures Total(c, Replaced(logs, edge, retained)) ==
              Total(c, logs) - |Log(c, logs[edge])| + (if retained == [] then 0 else |Log(c, retained)|)
  {
    TotalRemove(c, logs, edge);
    TotalUpdate(c, logs, edge, retained);
  }

  lemma ReplacedImage(c: Codec, logs: Logs, edge: string, retained: seq<Record>)
    ensures Image(c, Replaced(logs, edge, retained)) ==
              (if retained == [] then Image(c, logs) - {edge} else Image(c, logs)[edge := Log(c, retained)])
  {
  }

  /** The file and the byte count of a compacted edge. */
  lemma CompactOne(c: Codec, v: View, edge: string, retained: seq<Record>)
    requires edge in v.logs && retained == Keep(v.logs[edge], Mark(v.released, edge))
    ensures Image(c, Compact(v, {edge}).logs) ==
              (if retained == [] then Image(c, v.logs) - {edge} else Image(c, v.logs)[edge := Log(c, retained)])
    ensures Total(c, Compact(v, {edge}).logs) ==
              Total(c, v.logs) - |Log(c, v.logs[edge])| + (if retained == [] then 0 else |Log(c, retained)|)
  {
    CompactOneLogs(v.logs, v.released, edge);
    ReplacedImage(c, v.logs, edge, retained);
    ReplacedTotal(c, v.logs, edge, retained);
  }
}
