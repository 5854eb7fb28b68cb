/** Inputs on which the replica store does not keep what it acknowledged. */
module ReplicaLimits {
  import opened Wrappers
  import opened Text
  import opened Sums
  import opened ReplicaLog
  import opened ReplicaSpec
  import opened ReplicaRoom

  const EIGHT_GIB := 0x2_0000_0000

  /** A codec for a single record with a given encoding. */
  function CodecFor(r: Record, payload: Bytes): Codec {
    Codec(_ => payload, bytes => if bytes == payload then Some(r) else None, _ => 0, _ => "", x => x == r)
  }

  function Sample(): Record { Record("edge", 1, []) }

  function Payload(size: nat): (p: Bytes)
    ensures |p| == size
  {
    seq(size, _ => 0)
  }

  lemma CodecForIsSound(size: nat)
    requires size > 0
    ensures Sound(CodecFor(Sample(), Payload(size)))
  {
    NamedBy("edge");
  }

  lemma NamedBy(edge: string)
    requires edge != "" && edge[0] == 'e'
    ensures !Blank(edge)
  {
    assert !IsSpace(edge[0]);
  }

  ghost function Empty(c: Codec): View { Opened(c, map[], map[], EIGHT_GIB) }

  lemma EmptyAccepts(size: nat)
    requires 0 < size <= 0x1_0000_0000
    ensures var c := CodecFor(Sample(), Payload(size));
            && Inv(c, Empty(c)) && PutView(c, Empty(c), Sample()).1.Accepted?
            && MakeRoom(c, Empty(c), Sample()) == Empty(c)
  {
    var c, r := CodecFor(Sample(), Payload(size)), Sample();
    OpenedInv(c, map[], map[], EIGHT_GIB);
    IndexLookup(c, map[], map[], SlotOf(r));
    assert Total(c, map[]) == 0;
    assert TotalWith(c, map[], r) == |HEADER| + FRAME_HEADER + size;
  }

  // ---------------------------------------------------------------- a put that has to make room

  function First(): Record { Record("e", 1, []) }

  function Second(): Record { Record("e", 2, []) }

  /** A codec for two records of one origin, with payloads of 684 and of 400 bytes. */
  function TwoCodec(): Codec {
    Codec(r => if r == First() then Payload(684) else Payload(400),
          bytes => if bytes == Payload(684) then Some(First()) else if bytes == Payload(400) then Some(Second()) else None,
          _ => 0, bytes => if bytes == Payload(684) then "a" else "b", r => r == First() || r == Second())
  }

  lemma TwoCodecIsSound()
    ensures Sound(TwoCodec())
  {
    NamedBy("e");
    assert |Payload(684)| != |Payload(400)|;
  }

  ghost function SmallStore(): View { Opened(TwoCodec(), map[], map[], 1000) }

  /** The store after the first put: one log of 700 bytes. */
  lemma FirstPut()
    ensures var (v, outcome) := PutView(TwoCodec(), SmallStore(), First());
            outcome.Accepted? && v.logs == map["e" := [First()]] && v.released == v.compacted == map[] && v.maxBytes == 1000
  {
    var c := TwoCodec();
    IndexLookup(c, map[], map[], SlotOf(First()));
    assert Total(c, map[]) == 0;
    assert TotalWith(c, map[], First()) == |HEADER| + FRAME_HEADER + 684;
    assert Existing(map[], "e") + [First()] == [First()];
  }

  lemma OneLogTotal(c: Codec, edge: string, records: seq<Record>)
    ensures Total(c, map[edge := records]) == |Log(c, records)|
  {
    var logs := map[edge := records];
    TotalRemove(c, logs, edge);
    assert logs - {edge} == map[];
    assert Total(c, map[]) == 0;
  }

  /** The first record is released; neither its stride nor the bytes on disk make the release rewrite the log. */
  lemma FirstReleased()
    ensures var v := ReleaseView(TwoCodec(), PutView(TwoCodec(), SmallStore(), First()).0, "e", 1);
            v.logs == map["e" := [First()]] && v.released == map["e" := 1] && v.compacted == map[] && v.maxBytes == 1000
            && SlotOf(Second()) !in v.fingerprints
  {
    var c := TwoCodec();
    FirstPut();
    OneLogTotal(c, "e", [First()]);
    OneFrame(c, First());
    assert !IsSpace('e') && "e"[0] == 'e';
    assert Trim("e") == "e";
    IndexLookup(c, map[], map[], SlotOf(Second()));
  }

  lemma OneFrame(c: Codec, r: Record)
    ensures |Log(c, [r])| == |HEADER| + FRAME_HEADER + |c.encode(r)|
  {
    BodyAppend(c, [], r);
    assert [] + [r] == [r] && Body(c, [r]) == Frame(c, r);
  }

  /** The store once the first record is released: 700 bytes of log, and nothing in them still wanted. */
  ghost predicate AfterRelease(v: View) {
    && v.logs == map["e" := [First()]] && v.released == map["e" := 1] && v.compacted == map[] && v.maxBytes == 1000
    && SlotOf(Second()) !in v.fingerprints
  }

  lemma SecondIsShort(v: View)
    requires AfterRelease(v)
    ensures Short(TwoCodec(), v, Second())
  {
    var c := TwoCodec();
    NeedAsItIs(c, v.logs, v.released, Second());
    OneLogTotal(c, "e", [First()]);
    OneFrame(c, First());
  }

  lemma SecondFitsAlone(v: View)
    requires AfterRelease(v)
    ensures Needed(TwoCodec(), v.logs, v.released, v.compacted, Second()) == 416
  {
    assert Gone(v.logs, v.released, v.compacted, "e");
    SumExtract(v.logs.Keys, SizeLeft(TwoCodec(), v.logs, v.released, v.compacted), "e");
    assert v.logs.Keys - {"e"} == {};
  }

  lemma SecondIsAccepted(v: View)
    requires AfterRelease(v)
    ensures PutView(TwoCodec(), v, Second()).1.Accepted?
  {
    SecondFitsAlone(v);
    PutAnswers(TwoCodec(), v, Second());
  }

  /** Beside the released record the second one does not fit into 1000 bytes; the put compacts it away and accepts. */
  lemma CompactionMakesRoom()
    ensures Sound(TwoCodec())
    ensures var v := ReleaseView(TwoCodec(), PutView(TwoCodec(), SmallStore(), First()).0, "e", 1);
            Short(TwoCodec(), v, Second()) && PutView(TwoCodec(), v, Second()).1.Accepted?
  {
    TwoCodecIsSound();
    var v := Released();
    SecondIsShort(v);
    SecondIsAccepted(v);
  }

  lemma Released() returns (v: View)
    ensures v == ReleaseView(TwoCodec(), PutView(TwoCodec(), SmallStore(), First()).0, "e", 1) && AfterRelease(v)
  {
    FirstReleased();
    v := ReleaseView(TwoCodec(), PutView(TwoCodec(), SmallStore(), First()).0, "e", 1);
  }

  /** A record of 17 MiB is accepted by an empty store, and the store never opens again. */
  lemma OversizeIsAccepted() returns (c: Codec, v: View, r: Record)
    ensures Sound(c) && Inv(c, v) && PutView(c, v, r).1.Accepted?
    ensures !Openable(c, Image(c, PutView(c, v, r).0.logs))
  {
    var size := 0x110_0000;
    c, r := CodecFor(Sample(), Payload(size)), Sample();
    v := Empty(c);
    CodecForIsSound(size);
    EmptyAccepts(size);
    AcceptedPutOpensIffFits(c, v, r);
  }

  /** So is a crash anywhere in that append from the last byte of its length on, with the header intact. */
  lemma OversizeCrashIsFatal(cut: nat) returns (c: Codec, v: View, crash: Crash)
    requires |HEADER| + FRAME_HEADER <= cut <= |HEADER| + FRAME_HEADER + 0x110_0000
    ensures Sound(c) && Inv(c, v) && Possible(c, v, crash) && crash == InAppend(Sample(), cut)
    ensures !HeaderTorn(c, v, crash) && !Openable(c, Wreckage(c, v, crash))
  {
    var size := 0x110_0000;
    c := CodecFor(Sample(), Payload(size));
    v, crash := Empty(c), InAppend(Sample(), cut);
    CodecForIsSound(size);
    EmptyAccepts(size);
    assert Sample().edge !in Empty(c).logs;
    OpensUnlessFatal(c, v, crash);
  }

  /** A crash after any of the first seven bytes of a new log, or before the first, leaves a directory that does not open. */
  lemma HeaderTears(cut: nat) returns (c: Codec, v: View, crash: Crash)
    requires cut < |HEADER|
    ensures Sound(c) && Inv(c, v) && Possible(c, v, crash) && crash == InAppend(Sample(), cut)
    ensures !Openable(c, Wreckage(c, v, crash))
  {
    c := CodecFor(Sample(), Payload(1));
    v, crash := Empty(c), InAppend(Sample(), cut);
    CodecForIsSound(1);
    EmptyAccepts(1);
    assert Sample().edge !in Empty(c).logs;
    OpensUnlessFatal(c, v, crash);
  }
}
