/** A replica store is a peer of the edge protocol: put and release act on it as the protocol assumes. */
module ReplicaPeer {
  import opened Text
  import opened ReplicaLog
  import opened ReplicaSpec
  import opened ReplicaRuns
  import EdgeProtocol

  /** What the store holds for one origin: fingerprints by sequence, and the release mark. */
  function PeerOf(v: View, edge: string): EdgeProtocol.Peer<string> {
    EdgeProtocol.Peer(Held(v.fingerprints, edge), Mark(v.released, edge))
  }

  function Held(fingerprints: map<Slot, string>, edge: string): map<nat, string> {
    map slot | slot in fingerprints && slot.edge == edge :: slot.sequence := fingerprints[slot]
  }

  lemma HeldLookup(fingerprints: map<Slot, string>, edge: string, sequence: nat)
    ensures sequence in Held(fingerprints, edge) <==> Slot(edge, sequence) in fingerprints
    ensures sequence in Held(fingerprints, edge) ==> Held(fingerprints, edge)[sequence] == fingerprints[Slot(edge, sequence)]
  {
    if Slot(edge, sequence) in fingerprints {
      assert Slot(edge, sequence).edge == edge;
    }
  }

  lemma HeldInsert(fingerprints: map<Slot, string>, slot: Slot, fingerprint: string, edge: string)
    ensures Held(fingerprints[slot := fingerprint], edge) ==
              (if slot.edge == edge then Held(fingerprints, edge)[slot.sequence := fingerprint] else Held(fingerprints, edge))
  {
    forall sequence: nat
      ensures sequence in Held(fingerprints[slot := fingerprint], edge) <==>
                sequence in Held(fingerprints, edge) || (slot.edge == edge && sequence == slot.sequence)
      ensures sequence in Held(fingerprints[slot := fingerprint], edge) ==>
                Held(fingerprints[slot := fingerprint], edge)[sequence] ==
                  if slot == Slot(edge, sequence) then fingerprint else Held(fingerprints, edge)[sequence]
    {
      HeldLookup(fingerprints, edge, sequence);
      HeldLookup(fingerprints[slot := fingerprint], edge, sequence);
    }
  }

  /** An acknowledged put is the protocol's put for its origin and nothing for any other. */
  lemma PutIsPeerPut(c: Codec, v: View, r: Record, edge: string)
    requires Inv(c, v) && Acknowledges(PutView(c, v, r).1)
    ensures PeerOf(PutView(c, v, r).0, edge) ==
              (if edge == r.edge then EdgeProtocol.PeerPut(PeerOf(v, edge), r.sequence, Fingerprint(c, r)) else PeerOf(v, edge))
  {
    HeldLookup(v.fingerprints, r.edge, r.sequence);
    if PutView(c, v, r).1.Accepted? {
      AcceptedMeans(c, v, r);
      HeldInsert(v.fingerprints, SlotOf(r), Fingerprint(c, r), edge);
      AcceptedIsAppend(c, v, r);
    } else {
      assert PutView(c, v, r).0 == v;
    }
  }

  lemma AcceptedIsAppend(c: Codec, v: View, r: Record)
    requires Inv(c, v) && PutView(c, v, r).1.Accepted?
    ensures PutView(c, v, r).0.fingerprints == v.fingerprints[SlotOf(r) := Fingerprint(c, r)]
    ensures PutView(c, v, r).0.released == v.released
  {
    AcceptedMeans(c, v, r);
    assert PutView(c, v, r) == PutInto(c, MakeRoom(c, v, r), r);
  }

  lemma RefusedKeepsIndex(c: Codec, v: View, r: Record)
    requires Inv(c, v) && !Acknowledges(PutView(c, v, r).1)
    ensures PutView(c, v, r).0.fingerprints == v.fingerprints && PutView(c, v, r).0.released == v.released
  {
    PutIsKnownOrNew(c, v, r);
    if NewTo(c, v, r) {
      MakeRoomKeepsInv(c, v, r);
    }
  }

  /** A refused put changes nothing a client could see. */
  lemma RefusedPutIsInvisible(c: Codec, v: View, r: Record, edge: string)
    requires Inv(c, v) && !Acknowledges(PutView(c, v, r).1)
    ensures PeerOf(PutView(c, v, r).0, edge) == PeerOf(v, edge)
  {
    RefusedKeepsIndex(c, v, r);
  }

  lemma ReleasedIndex(c: Codec, v: View, origin: string, through: nat)
    requires !Blank(origin) && through > Mark(v.released, Trim(origin))
    ensures var v', edge := ReleaseView(c, v, origin, through), Trim(origin);
            && v'.released == v.released[edge := through]
            && v'.fingerprints == map slot | slot in v.fingerprints && !(slot.edge == edge && slot.sequence <= through) ::
                                    v.fingerprints[slot]
  {
  }

  lemma ReleaseIsPeerRelease(c: Codec, v: View, origin: string, through: nat, edge: string)
    requires !Blank(origin)
    ensures PeerOf(ReleaseView(c, v, origin, through), edge) ==
              (if edge == Trim(origin) then EdgeProtocol.PeerRelease(PeerOf(v, edge), through) else PeerOf(v, edge))
  {
    var target := Trim(origin);
    if through > Mark(v.released, target) {
      ReleasedIndex(c, v, origin, through);
      PeerAfterMark(v.fingerprints, Mark(v.released, edge), target, through, edge, ReleaseView(c, v, origin, through).fingerprints);
    } else {
      assert ReleaseView(c, v, origin, through) == v;
    }
  }

  lemma HeldAfterRelease(fingerprints: map<Slot, string>, released: string, through: nat, edge: string, rest: map<Slot, string>)
    requires rest == map slot | slot in fingerprints && !(slot.edge == released && slot.sequence <= through) :: fingerprints[slot]
    ensures Held(rest, edge) ==
              map s | s in Held(fingerprints, edge) && !(edge == released && s <= through) :: Held(fingerprints, edge)[s]
  {
    forall s: nat
      ensures s in Held(rest, edge) <==> s in Held(fingerprints, edge) && !(edge == released && s <= through)
      ensures s in Held(rest, edge) ==> Held(rest, edge)[s] == Held(fingerprints, edge)[s]
    {
      HeldLookup(fingerprints, edge, s);
      HeldLookup(rest, edge, s);
    }
  }

  /** What a crash does to one origin's records: nothing, the put in flight, or the release in flight. */
  function AfterCrash(c: Codec, crash: Crash, complete: bool, peer: EdgeProtocol.Peer<string>, edge: string): EdgeProtocol.Peer<string> {
    match crash
    case InAppend(r, _) =>
      if complete && edge == r.edge then EdgeProtocol.PeerPut(peer, r.sequence, Fingerprint(c, r)) else peer
    case InRelease(released, through, _) => if edge == released then EdgeProtocol.PeerRelease(peer, through) else peer
    case _ => peer
  }

  /** A peer that crashes and reopens is a peer of the protocol still: it took a step of it, or none. */
  lemma CrashIsPeerStep(c: Codec, v: View, crash: Crash, edge: string)
    requires Sound(c) && Inv(c, v) && Possible(c, v, crash) && !Fatal(c, v, crash)
    ensures var complete := crash.InAppend? && crash.cut == |Written(c, MakeRoom(c, v, crash.record).logs, crash.record)|;
            PeerOf(Reopen(c, v, crash), edge) == AfterCrash(c, crash, complete, PeerOf(v, edge), edge)
  {
    match crash {
      case InAppend(r, cut) => AppendCrashIsPeerStep(c, v, r, cut, edge);
      case InRelease(released, through, swept) => ReleaseCrashIsPeerStep(c, v, released, through, swept, edge);
      case _ => CrashElsewhereLosesNothing(c, v, crash);
    }
  }

  lemma AppendCrashIsPeerStep(c: Codec, v: View, r: Record, cut: nat, edge: string)
    requires Sound(c) && Inv(c, v) && Possible(c, v, InAppend(r, cut)) && !Fatal(c, v, InAppend(r, cut))
    ensures PeerOf(Reopen(c, v, InAppend(r, cut)), edge) ==
              (if cut == |Written(c, MakeRoom(c, v, r).logs, r)| && edge == r.edge
               then EdgeProtocol.PeerPut(PeerOf(v, edge), r.sequence, Fingerprint(c, r)) else PeerOf(v, edge))
  {
    CrashInAppendLosesNothing(c, v, r, cut);
    AppendIsPeerPut(c, v, r, edge);
  }

  lemma ReleaseCrashIsPeerStep(c: Codec, v: View, released: string, through: nat, swept: bool, edge: string)
    requires Sound(c) && Inv(c, v) && Possible(c, v, InRelease(released, through, swept))
    ensures PeerOf(Reopen(c, v, InRelease(released, through, swept)), edge) ==
              (if edge == released then EdgeProtocol.PeerRelease(PeerOf(v, edge), through) else PeerOf(v, edge))
  {
    CrashElsewhereLosesNothing(c, v, InRelease(released, through, swept));
    MarkIsPeerRelease(c, v, released, through, edge);
  }

  lemma MarkIsPeerRelease(c: Codec, v: View, released: string, through: nat, edge: string)
    requires through > Mark(v.released, released)
    ensures PeerOf(MarkReleased(v, released, through), edge) ==
              (if edge == released then EdgeProtocol.PeerRelease(PeerOf(v, edge), through) else PeerOf(v, edge))
  {
    PeerAfterMark(v.fingerprints, Mark(v.released, edge), released, through, edge, MarkReleased(v, released, through).fingerprints);
  }

  lemma PeerAfterMark(fingerprints: map<Slot, string>, mark: nat, released: string, through: nat, edge: string, rest: map<Slot, string>)
    requires rest == map slot | slot in fingerprints && !(slot.edge == released && slot.sequence <= through) :: fingerprints[slot]
    requires edge == released ==> through > mark
    ensures EdgeProtocol.Peer(Held(rest, edge), if edge == released then through else mark) ==
              (var peer := EdgeProtocol.Peer(Held(fingerprints, edge), mark);
               if edge == released then EdgeProtocol.PeerRelease(peer, through) else peer)
  {
    HeldAfterRelease(fingerprints, released, through, edge, rest);
    if edge != released {
      assert Held(rest, edge) == Held(fingerprints, edge);
    }
  }

  lemma AppendIsPeerPut(c: Codec, v: View, r: Record, edge: string)
    requires Inv(c, v) && PutView(c, v, r).1.Accepted?
    ensures EdgeProtocol.Peer(Held(v.fingerprints[SlotOf(r) := Fingerprint(c, r)], edge), Mark(v.released, edge)) ==
              (if edge == r.edge then EdgeProtocol.PeerPut(PeerOf(v, edge), r.sequence, Fingerprint(c, r)) else PeerOf(v, edge))
  {
    PutIsPeerPut(c, v, r, edge);
    AcceptedIsAppend(c, v, r);
  }
}
