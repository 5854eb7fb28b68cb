/** What a replica log the scan accepts looks like, byte for byte: the other direction of reading back what was written. */
module ReplicaFrames {
  import opened Wrappers
  import opened ReplicaLog

  /** A frame around a payload: its length, its checksum and itself. */
  function FrameOf(c: Codec, payload: Bytes): (frame: Bytes)
    ensures |frame| == 8 + |payload|
  {
    Word(|payload|) + Word(c.checksum(payload)) + payload
  }

  /** The payload is neither empty nor above 16 MiB, and decodes to this valid record. */
  predicate Carries(c: Codec, payload: Bytes, r: Record) {
    1 <= |payload| <= 0x100_0000 && c.decode(payload) == Some(r) && c.valid(r)
  }

  function Frames(c: Codec, payloads: seq<Bytes>): Bytes {
    if payloads == [] then [] else FrameOf(c, payloads[0]) + Frames(c, payloads[1..])
  }

  /** A last frame that was not written to its end: no whole header, or an acceptable length and too few bytes after it. */
  predicate Unfinished(tail: Bytes) {
    tail != [] && (|tail| < 8 || (1 <= Value(tail[..4]) <= 0x100_0000 && |tail| < 8 + Value(tail[..4])))
  }

  /** The bytes are undamaged frames of the payloads, one for each record, and then nothing or an unfinished frame. */
  ghost predicate Written(c: Codec, data: Bytes, payloads: seq<Bytes>, records: seq<Record>, torn: bool) {
    && |payloads| == |records| && (forall i :: 0 <= i < |payloads| ==> Carries(c, payloads[i], records[i]))
    && |Frames(c, payloads)| <= |data| && data[..|Frames(c, payloads)|] == Frames(c, payloads)
    && if torn then Unfinished(data[|Frames(c, payloads)|..]) else |Frames(c, payloads)| == |data|
  }

  // ---------------------------------------------------------------- words

  lemma ValueOfFour(b: Bytes)
    requires |b| == 4
    ensures Value(b) == ((b[0] as int * 256 + b[1] as int) * 256 + b[2] as int) * 256 + b[3] as int
  {
    assert b[..3][..2] == b[..2] && b[..2][..1] == b[..1] && b[..1][..0] == [];
    assert Value(b[..1]) == b[0] as int;
    assert Value(b[..2]) == Value(b[..1]) * 256 + b[1] as int;
    assert Value(b[..3]) == Value(b[..2]) * 256 + b[2] as int;
  }

  /** Four bytes are the word of their value. */
  lemma WordOfValue(b: Bytes)
    requires |b| == 4
    ensures Value(b) < WORD && Word(Value(b)) == b
  {
    ValueOfFour(b);
    var top := b[0] as int;
    var upper := top * 256 + b[1] as int;
    var most := upper * 256 + b[2] as int;
    BigEndianSnoc(0, b[0], 0);
    BigEndianSnoc(top, b[1], 1);
    BigEndianSnoc(upper, b[2], 2);
    BigEndianSnoc(most, b[3], 3);
    assert BigEndian(0, 0) == [];
    assert b == [b[0]] + [b[1]] + [b[2]] + [b[3]];
  }

  lemma BigEndianSnoc(n: nat, last: byte, k: nat)
    ensures BigEndian(n * 256 + last, k + 1) == BigEndian(n, k) + [last]
  {
    assert (n * 256 + last) / 256 == n && (n * 256 + last) % 256 == last;
  }

  // ---------------------------------------------------------------- one frame

  lemma FrameParses(c: Codec, payload: Bytes, r: Record, rest: Bytes)
    requires Sound(c) && Carries(c, payload, r)
    ensures ReadFrame(c, FrameOf(c, payload) + rest) == Next(r, 8 + |payload|)
    ensures (FrameOf(c, payload) + rest)[8 + |payload|..] == rest
  {
    var data := FrameOf(c, payload) + rest;
    WordRoundTrip(|payload|);
    WordRoundTrip(c.checksum(payload));
    assert data[..4] == Word(|payload|) && data[4..8] == Word(c.checksum(payload)) && data[8..8 + |payload|] == payload;
  }

  lemma NextIsFrame(c: Codec, data: Bytes) returns (payload: Bytes)
    requires Sound(c) && ReadFrame(c, data).Next?
    ensures Carries(c, payload, ReadFrame(c, data).record) && ReadFrame(c, data).size == 8 + |payload|
    ensures data == FrameOf(c, payload) + data[8 + |payload|..]
  {
    var size := Value(data[..4]);
    payload := data[8..8 + size];
    WordOfValue(data[..4]);
    WordOfValue(data[4..8]);
    Reassemble(data, size);
  }

  lemma Reassemble(data: Bytes, size: nat)
    requires |data| >= 8 + size
    ensures data == data[..4] + data[4..8] + data[8..8 + size] + data[8 + size..]
  {
  }

  /** A frame whose checksum does not match its payload makes the log corrupt. */
  lemma DamageIsCorrupt(c: Codec, payload: Bytes, checksum: nat, rest: Bytes)
    requires 1 <= |payload| <= 0x100_0000 && checksum < WORD && checksum != c.checksum(payload)
    ensures ScanBody(c, Word(|payload|) + Word(checksum) + payload + rest) == Corrupt
  {
    var data := Word(|payload|) + Word(checksum) + payload + rest;
    WordRoundTrip(|payload|);
    WordRoundTrip(checksum);
    assert data[..4] == Word(|payload|) && data[4..8] == Word(checksum) && data[8..8 + |payload|] == payload;
  }

  // ---------------------------------------------------------------- whole logs

  lemma {:induction false} ScannedIsWritten(c: Codec, data: Bytes) returns (payloads: seq<Bytes>)
    requires Sound(c) && ScanBody(c, data).Scanned?
    ensures var s := ScanBody(c, data); Written(c, data, payloads, s.records, s.torn) && |Frames(c, payloads)| == s.clean
    decreases |data|
  {
    var round := ReadFrame(c, data);
    payloads := [];
    if round.Next? {
      var payload := NextIsFrame(c, data);
      var rest := data[round.size..];
      var more := ScannedIsWritten(c, rest);
      payloads := [payload] + more;
      WrittenOneMore(c, payload, round.record, rest, more, ScanBody(c, rest).records, ScanBody(c, rest).torn);
    } else {
      assert data[0..] == data;
    }
  }

  lemma WrittenOneMore(c: Codec, payload: Bytes, r: Record, rest: Bytes, payloads: seq<Bytes>, records: seq<Record>, torn: bool)
    requires Carries(c, payload, r) && Written(c, rest, payloads, records, torn)
    ensures Written(c, FrameOf(c, payload) + rest, [payload] + payloads, [r] + records, torn)
    ensures |Frames(c, [payload] + payloads)| == 8 + |payload| + |Frames(c, payloads)|
  {
    var data, all := FrameOf(c, payload) + rest, [payload] + payloads;
    assert all[1..] == payloads;
    assert data[..|Frames(c, all)|] == Frames(c, all);
    assert data[|Frames(c, all)|..] == rest[|Frames(c, payloads)|..];
  }

  lemma {:induction false} WrittenScans(c: Codec, data: Bytes, payloads: seq<Bytes>, records: seq<Record>, torn: bool)
    requires Sound(c) && Written(c, data, payloads, records, torn)
    ensures ScanBody(c, data) == Scanned(records, |Frames(c, payloads)|, torn)
    decreases |payloads|
  {
    if payloads == [] {
      assert data[0..] == data;
    } else {
      var payload, tail := payloads[0], payloads[1..];
      var rest := data[8 + |payload|..];
      FirstFrame(c, data, payloads, records, torn);
      WrittenScans(c, rest, tail, records[1..], torn);
      FrameParses(c, payload, records[0], rest);
      assert records == [records[0]] + records[1..];
    }
  }

  lemma FirstFrame(c: Codec, data: Bytes, payloads: seq<Bytes>, records: seq<Record>, torn: bool)
    requires Written(c, data, payloads, records, torn) && payloads != []
    ensures 8 + |payloads[0]| <= |data| && data == FrameOf(c, payloads[0]) + data[8 + |payloads[0]|..]
    ensures Written(c, data[8 + |payloads[0]|..], payloads[1..], records[1..], torn)
  {
    var first, rest := FrameOf(c, payloads[0]), Frames(c, payloads[1..]);
    var tail := data[|first|..];
    assert Frames(c, payloads) == first + rest;
    assert data[..|first|] == (first + rest)[..|first|] == first;
    assert tail[..|rest|] == data[..|first + rest|][|first|..] == (first + rest)[|first|..] == rest;
    assert tail[|rest|..] == data[|first + rest|..];
  }

  /**
  The scan accepts exactly the logs that consist of undamaged frames of acceptable length,
  each with a payload that decodes to a valid record, and at most one unfinished frame after
  them; and it reports just those records.
   */
  lemma ReadableIff(c: Codec, body: Bytes, records: seq<Record>, clean: nat, torn: bool)
    requires Sound(c)
    ensures ScanLog(c, HEADER + body) == Scanned(records, clean, torn) <==>
              exists payloads :: Written(c, body, payloads, records, torn) && |Frames(c, payloads)| == clean
  {
    ScanAfterHeader(c, body);
    if ScanBody(c, body) == Scanned(records, clean, torn) {
      var payloads := ScannedIsWritten(c, body);
    }
    if payloads :| Written(c, body, payloads, records, torn) && |Frames(c, payloads)| == clean {
      WrittenScans(c, body, payloads, records, torn);
    }
  }
}
