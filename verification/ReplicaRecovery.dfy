/** Opening a replica directory: which directories open, and what the store then holds. */
module ReplicaRecovery {
  import opened Wrappers
  import opened Text
  import opened Sums
  import opened ReplicaLog
  import opened ReplicaSpec
  import opened ReplicaStore

  // ---------------------------------------------------------------- what recovery means

  predicate Unreleased(marks: Marks, r: Record) { r.sequence > Mark(marks, r.edge) }

  /** No two unreleased records claim one origin and sequence with different contents. */
  ghost predicate Compatible(c: Codec, marks: Marks, records: set<Record>) {
    forall a, b :: a in records && b in records && Unreleased(marks, a) && SlotOf(a) == SlotOf(b) ==>
      Fingerprint(c, a) == Fingerprint(c, b)
  }

  /** The index of a set of records: every unreleased one under its fingerprint, and nothing else. */
  ghost predicate Indexes(c: Codec, marks: Marks, fingerprints: map<Slot, string>, records: set<Record>) {
    && (forall r :: r in records && Unreleased(marks, r) ==>
          SlotOf(r) in fingerprints && fingerprints[SlotOf(r)] == Fingerprint(c, r))
    && (forall slot :: slot in fingerprints ==> exists r :: r in records && Unreleased(marks, r) && SlotOf(r) == slot)
  }

  ghost function SetOf(records: seq<Record>): set<Record> { set r | r in records }

  /** The complete records of a file. */
  ghost function ScannedIn(c: Codec, file: Bytes): set<Record> {
    match ScanLog(c, file)
    case Corrupt => {}
    case Scanned(records, _, _) => SetOf(records)
  }

  /** The complete records of some of the files. */
  ghost function RecordsIn(c: Codec, files: map<string, Bytes>, edges: set<string>): set<Record> {
    set edge, r | edge in edges && edge in files && r in ScannedIn(c, files[edge]) :: r
  }

  /** A file without its torn tail. */
  function Clean(c: Codec, file: Bytes): Bytes {
    var scan := ScanLog(c, file);
    if scan.Scanned? && scan.torn then file[..|HEADER| + scan.clean] else file
  }

  ghost function Cleaned(c: Codec, files: map<string, Bytes>, edges: set<string>): map<string, Bytes> {
    map edge | edge in files && edge in edges :: Clean(c, files[edge])
  }

  ghost function CleanSize(c: Codec, files: map<string, Bytes>): string -> nat {
    (edge: string) => if edge in files then |Clean(c, files[edge])| else 0
  }

  /** The directories that open: every file scans, and no two files or records conflict. */
  ghost predicate Recoverable(c: Codec, files: map<string, Bytes>, marks: Marks) {
    Openable(c, files) && Compatible(c, marks, RecordsIn(c, files, files.Keys))
  }

  // ---------------------------------------------------------------- indexing

  lemma CompatibleSubset(c: Codec, marks: Marks, fewer: set<Record>, more: set<Record>)
    requires fewer <= more && Compatible(c, marks, more)
    ensures Compatible(c, marks, fewer)
  {
  }

  lemma IndexesAreCompatible(c: Codec, marks: Marks, fingerprints: map<Slot, string>, records: set<Record>)
    requires Indexes(c, marks, fingerprints, records)
    ensures Compatible(c, marks, records)
  {
  }

  /** There is only one index of a set of records. */
  lemma IndexesUnique(c: Codec, marks: Marks, f: map<Slot, string>, g: map<Slot, string>, records: set<Record>)
    requires Indexes(c, marks, f, records) && Indexes(c, marks, g, records)
    ensures f == g
  {
    forall slot
      ensures slot in f <==> slot in g
      ensures slot in f ==> f[slot] == g[slot]
    {
      if slot in f {
        var r :| r in records && Unreleased(marks, r) && SlotOf(r) == slot;
      }
      if slot in g {
        var r :| r in records && Unreleased(marks, r) && SlotOf(r) == slot;
      }
    }
  }

  lemma SkipReleased(c: Codec, marks: Marks, fingerprints: map<Slot, string>, records: set<Record>, r: Record)
    requires Indexes(c, marks, fingerprints, records) && !Unreleased(marks, r)
    ensures Indexes(c, marks, fingerprints, records + {r})
  {
    forall slot | slot in fingerprints
      ensures exists x :: x in records + {r} && Unreleased(marks, x) && SlotOf(x) == slot
    {
      var x :| x in records && Unreleased(marks, x) && SlotOf(x) == slot;
    }
  }

  lemma IndexOne(c: Codec, marks: Marks, fingerprints: map<Slot, string>, records: set<Record>, r: Record)
    requires Indexes(c, marks, fingerprints, records) && Unreleased(marks, r)
    requires SlotOf(r) in fingerprints ==> fingerprints[SlotOf(r)] == Fingerprint(c, r)
    ensures Indexes(c, marks, fingerprints[SlotOf(r) := Fingerprint(c, r)], records + {r})
  {
    var more := fingerprints[SlotOf(r) := Fingerprint(c, r)];
    forall slot | slot in more
      ensures exists x :: x in records + {r} && Unreleased(marks, x) && SlotOf(x) == slot
    {
      if slot != SlotOf(r) {
        var x :| x in records && Unreleased(marks, x) && SlotOf(x) == slot;
      } else {
        assert r in records + {r};
      }
    }
  }

  lemma Conflicts(c: Codec, marks: Marks, fingerprints: map<Slot, string>, records: set<Record>, r: Record)
    requires Indexes(c, marks, fingerprints, records) && Unreleased(marks, r)
    requires SlotOf(r) in fingerprints && fingerprints[SlotOf(r)] != Fingerprint(c, r)
    ensures !Compatible(c, marks, records + {r})
  {
    var x :| x in records && Unreleased(marks, x) && SlotOf(x) == SlotOf(r);
    assert x in records + {r} && r in records + {r};
  }

  /** The indexing loop over the records of one file: it fails exactly on a conflict. */
  method IndexRecords(c: Codec, records: seq<Record>, marks: Marks, fingerprints: map<Slot, string>, ghost before: set<Record>)
    returns (ok: bool, fingerprints': map<Slot, string>)
    requires Indexes(c, marks, fingerprints, before)
    ensures ok <==> Compatible(c, marks, before + SetOf(records))
    ensures ok ==> Indexes(c, marks, fingerprints', before + SetOf(records))
  {
    fingerprints' := fingerprints;
    assert before + SetOf(records[..0]) == before;
    for i := 0 to |records|
      invariant Indexes(c, marks, fingerprints', before + SetOf(records[..i]))
    {
      var r := records[i];
      assert before + SetOf(records[..i + 1]) == before + SetOf(records[..i]) + {r};
      if !Unreleased(marks, r) {
        SkipReleased(c, marks, fingerprints', before + SetOf(records[..i]), r);
        continue;
      }
      var fingerprint := Fingerprint(c, r);
      if SlotOf(r) in fingerprints' && fingerprints'[SlotOf(r)] != fingerprint {
        Conflicts(c, marks, fingerprints', before + SetOf(records[..i]), r);
        StillConflicts(c, marks, before, records, i + 1);
        return false, fingerprints';
      }
      IndexOne(c, marks, fingerprints', before + SetOf(records[..i]), r);
      fingerprints' := fingerprints'[SlotOf(r) := fingerprint];
    }
    assert records[..|records|] == records;
    IndexesAreCompatible(c, marks, fingerprints', before + SetOf(records));
    ok := true;
  }

  lemma StillConflicts(c: Codec, marks: Marks, before: set<Record>, records: seq<Record>, k: nat)
    requires k <= |records| && !Compatible(c, marks, before + SetOf(records[..k]))
    ensures !Compatible(c, marks, before + SetOf(records))
  {
    if Compatible(c, marks, before + SetOf(records)) {
      CompatibleSubset(c, marks, before + SetOf(records[..k]), before + SetOf(records));
    }
  }

  /** Recovers one log file: it is truncated to its complete records and these are indexed, or it is refused. */
  method RecoverFile(c: Codec, file: Bytes, marks: Marks, fingerprints: map<Slot, string>, ghost before: set<Record>)
    returns (ok: bool, file': Bytes, fingerprints': map<Slot, string>)
    requires Indexes(c, marks, fingerprints, before)
    ensures ok <==> ScanLog(c, file).Scanned? && Compatible(c, marks, before + ScannedIn(c, file))
    ensures ok ==> file' == Clean(c, file) && Indexes(c, marks, fingerprints', before + ScannedIn(c, file))
  {
    file', fingerprints' := file, fingerprints;
    var scan := ScanReplicaFile(c, file);
    if scan.Corrupt? { return false, file', fingerprints'; }
    if scan.torn {
      file' := file[..|HEADER| + scan.clean];
    }
    ok, fingerprints' := IndexRecords(c, scan.records, marks, fingerprints, before);
  }

  // ---------------------------------------------------------------- the whole directory

  lemma RecordsGrow(c: Codec, files: map<string, Bytes>, done: set<string>, edge: string)
    requires edge in files
    ensures RecordsIn(c, files, done + {edge}) == RecordsIn(c, files, done) + ScannedIn(c, files[edge])
  {
    forall r
      ensures r in RecordsIn(c, files, done + {edge}) <==> r in RecordsIn(c, files, done) || r in ScannedIn(c, files[edge])
    {
      if e :| e in done + {edge} && e in files && r in ScannedIn(c, files[e]) {
        if e != edge {
          assert e in done;
        }
      }
      if e :| e in done && e in files && r in ScannedIn(c, files[e]) {
        assert e in done + {edge};
      }
      if r in ScannedIn(c, files[edge]) {
        assert edge in done + {edge};
      }
    }
  }

  lemma FewerRecords(c: Codec, files: map<string, Bytes>, some: set<string>, all: set<string>)
    requires some <= all
    ensures RecordsIn(c, files, some) <= RecordsIn(c, files, all)
  {
    forall r | r in RecordsIn(c, files, some)
      ensures r in RecordsIn(c, files, all)
    {
      var e :| e in some && e in files && r in ScannedIn(c, files[e]);
      assert e in all;
    }
  }

  lemma FileRefused(c: Codec, files: map<string, Bytes>, marks: Marks, done: set<string>, edge: string)
    requires edge in files && done <= files.Keys
    requires !(ScanLog(c, files[edge]).Scanned? && Compatible(c, marks, RecordsIn(c, files, done) + ScannedIn(c, files[edge])))
    ensures !Recoverable(c, files, marks)
  {
    if Recoverable(c, files, marks) {
      RecordsGrow(c, files, done, edge);
      FewerRecords(c, files, done + {edge}, files.Keys);
      CompatibleSubset(c, marks, RecordsIn(c, files, done + {edge}), RecordsIn(c, files, files.Keys));
    }
  }

  /** What the recovery loop has after the files in `done`. */
  ghost predicate RecoveredPart(c: Codec, files: map<string, Bytes>, marks: Marks, done: set<string>,
                                files': map<string, Bytes>, fingerprints: map<Slot, string>, totalBytes: int)
  {
    && Indexes(c, marks, fingerprints, RecordsIn(c, files, done))
    && files' == Cleaned(c, files, done)
    && totalBytes == Sum(done, CleanSize(c, files))
  }

  lemma RecoverStep(c: Codec, files: map<string, Bytes>, marks: Marks, done: set<string>, edge: string,
                    files': map<string, Bytes>, fingerprints': map<Slot, string>, totalBytes: int)
    requires edge in files && edge !in done
    requires files' == Cleaned(c, files, done) && totalBytes == Sum(done, CleanSize(c, files))
    requires Indexes(c, marks, fingerprints', RecordsIn(c, files, done) + ScannedIn(c, files[edge]))
    ensures RecoveredPart(c, files, marks, done + {edge}, files'[edge := Clean(c, files[edge])], fingerprints',
                          totalBytes + |Clean(c, files[edge])|)
  {
    RecordsGrow(c, files, done, edge);
    CleanedGrows(c, files, done, edge);
  }

  lemma CleanedGrows(c: Codec, files: map<string, Bytes>, done: set<string>, edge: string)
    requires edge in files && edge !in done
    ensures Cleaned(c, files, done + {edge}) == Cleaned(c, files, done)[edge := Clean(c, files[edge])]
    ensures Sum(done + {edge}, CleanSize(c, files)) == Sum(done, CleanSize(c, files)) + |Clean(c, files[edge])|
  {
    SumInsert(done, CleanSize(c, files), edge);
  }

  lemma NothingRecovered(c: Codec, files: map<string, Bytes>, marks: Marks)
    ensures RecoveredPart(c, files, marks, {}, map[], map[], 0)
  {
    assert RecordsIn(c, files, {}) == {};
  }

  /** The recovery loop over the log files, in any order: it succeeds exactly on the directories that are recoverable. */
  method RecoverAll(c: Codec, files: map<string, Bytes>, marks: Marks)
    returns (ok: bool, files': map<string, Bytes>, fingerprints: map<Slot, string>, totalBytes: int)
    ensures ok <==> Recoverable(c, files, marks)
    ensures ok ==> RecoveredPart(c, files, marks, files.Keys, files', fingerprints, totalBytes)
  {
    files', fingerprints, totalBytes := map[], map[], 0;
    NothingRecovered(c, files, marks);
    var pending := files.Keys;
    assert files.Keys - pending == {};
    while pending != {}
      invariant pending <= files.Keys
      invariant forall edge :: edge in files && edge !in pending ==> ScanLog(c, files[edge]).Scanned?
      invariant RecoveredPart(c, files, marks, files.Keys - pending, files', fingerprints, totalBytes)
      decreases pending
    {
      var edge :| edge in pending;
      ghost var done := files.Keys - pending;
      var file', indexed;
      ok, file', indexed := RecoverFile(c, files[edge], marks, fingerprints, RecordsIn(c, files, done));
      if !ok {
        FileRefused(c, files, marks, done, edge);
        return;
      }
      RecoverStep(c, files, marks, done, edge, files', indexed, totalBytes);
      files', fingerprints, totalBytes := files'[edge := file'], indexed, totalBytes + |file'|;
      pending := pending - {edge};
      assert files.Keys - pending == done + {edge};
    }
    assert files.Keys - pending == files.Keys;
    IndexesAreCompatible(c, marks, fingerprints, RecordsIn(c, files, files.Keys));
    ok := true;
  }

  // ---------------------------------------------------------------- logs with torn tails

  /** The records of a set of logs. */
  ghost function LoggedIn(logs: Logs): set<Record> {
    set edge, i | edge in logs && 0 <= i < |logs[edge]| :: logs[edge][i]
  }

  lemma YieldedRecords(c: Codec, files: map<string, Bytes>, logs: Logs)
    requires AllYield(c, files, logs)
    ensures RecordsIn(c, files, files.Keys) == LoggedIn(logs)
  {
    forall r
      ensures r in RecordsIn(c, files, files.Keys) <==> r in LoggedIn(logs)
    {
      if e :| e in files && r in ScannedIn(c, files[e]) {
        var i :| 0 <= i < |logs[e]| && logs[e][i] == r;
      }
      if e, i :| e in logs && 0 <= i < |logs[e]| && logs[e][i] == r {
        assert r in ScannedIn(c, files[e]);
      }
    }
  }

  lemma LogsIndex(c: Codec, logs: Logs, marks: Marks)
    requires LogsOk(c, logs)
    ensures Indexes(c, marks, IndexOf(c, logs, marks), LoggedIn(logs))
  {
    var index := IndexOf(c, logs, marks);
    forall r | r in LoggedIn(logs) && Unreleased(marks, r)
      ensures SlotOf(r) in index && index[SlotOf(r)] == Fingerprint(c, r)
    {
      var edge, i :| edge in logs && 0 <= i < |logs[edge]| && logs[edge][i] == r;
      assert LogOk(c, edge, logs[edge]);
      assert HoldsAt(logs, SlotOf(r), i);
      IndexLookup(c, logs, marks, SlotOf(r));
      StoredUnique(c, logs, SlotOf(r), i);
    }
    forall slot | slot in index
      ensures exists r :: r in LoggedIn(logs) && Unreleased(marks, r) && SlotOf(r) == slot
    {
      IndexLookup(c, logs, marks, slot);
      var i :| HoldsAt(logs, slot, i);
      assert LogOk(c, slot.edge, logs[slot.edge]);
      assert logs[slot.edge][i] in LoggedIn(logs);
    }
  }

  lemma YieldedClean(c: Codec, files: map<string, Bytes>, logs: Logs)
    requires AllYield(c, files, logs)
    ensures Cleaned(c, files, files.Keys) == Image(c, logs)
    ensures Sum(files.Keys, CleanSize(c, files)) == Total(c, logs)
  {
    forall edge | edge in files
      ensures Clean(c, files[edge]) == Log(c, logs[edge])
    {
      var s := ScanLog(c, files[edge]);
      assert !s.torn ==> files[edge][..|HEADER| + s.clean] == files[edge];
    }
    SumAgree(files.Keys, CleanSize(c, files), SizeIn(c, logs));
  }

  /** A directory whose files hold logs, up to torn tails, opens as the store of exactly those logs. */
  lemma YieldedOpens(c: Codec, files: map<string, Bytes>, marks: Marks, logs: Logs)
    requires AllYield(c, files, logs) && LogsOk(c, logs)
    ensures Recoverable(c, files, marks)
    ensures forall files', fingerprints, totalBytes :: RecoveredPart(c, files, marks, files.Keys, files', fingerprints, totalBytes) ==>
              files' == Image(c, logs) && fingerprints == IndexOf(c, logs, marks) && totalBytes == Total(c, logs)
  {
    YieldedRecords(c, files, logs);
    LogsIndex(c, logs, marks);
    YieldedClean(c, files, logs);
    IndexesAreCompatible(c, marks, IndexOf(c, logs, marks), LoggedIn(logs));
    forall files', fingerprints, totalBytes | RecoveredPart(c, files, marks, files.Keys, files', fingerprints, totalBytes)
      ensures files' == Image(c, logs) && fingerprints == IndexOf(c, logs, marks) && totalBytes == Total(c, logs)
    {
      IndexesUnique(c, marks, fingerprints, IndexOf(c, logs, marks), LoggedIn(logs));
    }
  }

  // ---------------------------------------------------------------- opening

  /**
  `OpenStoreWithConfig` on the files and release checkpoints of a directory.  It succeeds
  exactly when every file scans and no two unreleased records conflict; on files that hold
  the logs, up to torn tails, it is the store of exactly those logs.
   */
  method Open(c: Codec, files: map<string, Bytes>, marks: Marks, maxBytes: int, ghost logs: Logs)
    returns (store: Store?)
    requires Sound(c)
    ensures store != null <==> Recoverable(c, files, marks)
    ensures store != null ==>
              && fresh(store) && store.marks == store.released == marks && store.compacted == map[]
              && store.maxBytes == (if maxBytes <= 0 then DEFAULT_MAX_BYTES else maxBytes)
              && RecoveredPart(c, files, marks, files.Keys, store.files, store.fingerprints, store.totalBytes)
    ensures AllYield(c, files, logs) && LogsOk(c, logs) ==>
              && store != null && store.Valid()
              && store.Abstract() == Opened(c, logs, marks, if maxBytes <= 0 then DEFAULT_MAX_BYTES else maxBytes)
  {
    var ok, files', fingerprints, totalBytes := RecoverAll(c, files, marks);
    ghost var good := AllYield(c, files, logs) && LogsOk(c, logs);
    var budget := if maxBytes <= 0 then DEFAULT_MAX_BYTES else maxBytes;
    if good {
      YieldedOpens(c, files, marks, logs);
      OpenedInv(c, logs, marks, budget);
    }
    if !ok { return null; }
    store := new Store.Recovered(c, files', marks, fingerprints, totalBytes, budget, logs);
    assert good ==> store.Abstract() == Opened(c, logs, marks, budget);
  }

  /**
  Restarting after a crash: the wreckage opens exactly when the crash was not fatal,
  and then as the store the crash left behind.
   */
  method Restart(c: Codec, files: map<string, Bytes>, marks: Marks, maxBytes: int, ghost v: View, ghost crash: Crash)
    returns (store: Store?)
    requires Sound(c) && Inv(c, v) && Possible(c, v, crash) && v.maxBytes == maxBytes > 0
    requires files == Wreckage(c, v, crash) && marks == Settled(c, v, crash).marks
    ensures store != null <==> !Fatal(c, v, crash)
    ensures store != null ==> fresh(store) && store.Valid() && store.Abstract() == Reopen(c, v, crash)
  {
    OpensUnlessFatal(c, v, crash);
    SurvivorsOk(c, v, crash);
    store := Open(c, files, marks, maxBytes, Survivors(c, v, crash));
  }

  lemma SurvivorsOk(c: Codec, v: View, crash: Crash)
    requires Sound(c) && Inv(c, v) && Possible(c, v, crash)
    ensures !Fatal(c, v, crash) ==> LogsOk(c, Survivors(c, v, crash))
  {
    if !Fatal(c, v, crash) {
      if crash.InAppend? {
        CrashInAppendLosesNothing(c, v, crash.record, crash.cut);
      } else {
        CrashElsewhereLosesNothing(c, v, crash);
      }
    }
  }
}
