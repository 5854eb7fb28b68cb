/**
The replica log file: an eight-byte header followed by frames, and the scan that reads it
back, stopping at a torn tail.
 */
module ReplicaLog {
  import opened Wrappers
  import opened Text

  type Bytes = seq<byte>

  datatype Record = Record(edge: string, sequence: nat, content: Bytes)

  /** JSON, CRC-32, SHA-256 and record validation, as unknown functions. */
  datatype Codec = Codec(
    encode: Record -> Bytes,
    decode: Bytes -> Option<Record>,
    checksum: Bytes -> nat,
    digest: Bytes -> string,
    valid: Record -> bool)

  const WORD := 0x1_0000_0000
  const MAX_PAYLOAD := 0x100_0000
  const FRAME_HEADER := 8
  const HEADER: Bytes := [0x54, 0x46, 0x52, 0x45, 0x50, 0x30, 0x30, 0x31] // TFREP001

  /** What the codec promises: decoding undoes encoding, and a checksum fits a 32-bit word. */
  ghost predicate Sound(c: Codec) {
    && (forall r {:trigger c.encode(r)} :: c.valid(r) ==>
          c.decode(c.encode(r)) == Some(r) && c.encode(r) != [] && r.sequence > 0 && !Blank(r.edge))
    && (forall p {:trigger c.checksum(p)} :: c.checksum(p) < WORD)
  }

  /** The `k` low-order bytes of `n`, most significant first. */
  function BigEndian(n: nat, k: nat): (w: Bytes)
    ensures |w| == k
  {
    if k == 0 then [] else BigEndian(n / 256, k - 1) + [n % 256]
  }

  function Value(w: Bytes): nat {
    if w == [] then 0 else Value(w[..|w| - 1]) * 256 + w[|w| - 1] as int
  }

  function Word(n: nat): (w: Bytes)
    ensures |w| == 4
  {
    BigEndian(n, 4)
  }

  /** Writing `n` in `k` bytes keeps it whenever it fits. */
  lemma {:induction false} BigEndianRoundTrip(n: nat, k: nat, bound: nat)
    requires n < bound
    requires bound == if k == 0 then 1 else if k == 1 then 0x100 else if k == 2 then 0x1_0000 else if k == 3 then 0x100_0000 else WORD
    requires k <= 4
    ensures Value(BigEndian(n, k)) == n
  {
    if k > 0 {
      BigEndianRoundTrip(n / 256, k - 1, bound / 256);
      var w := BigEndian(n, k);
      assert w[..|w| - 1] == BigEndian(n / 256, k - 1);
    }
  }

  lemma WordRoundTrip(n: nat)
    requires n < WORD
    ensures Value(Word(n)) == n
  {
    BigEndianRoundTrip(n, 4, WORD);
  }

  /** The length field is the low 32 bits of the payload length. */
  function Frame(c: Codec, r: Record): (f: Bytes)
    ensures |f| == FRAME_HEADER + |c.encode(r)|
  {
    var payload := c.encode(r);
    Word(|payload| % WORD) + Word(c.checksum(payload) % WORD) + payload
  }

  /** A word is written with its most significant byte first. */
  lemma WordMeaning(n: nat)
    requires n < WORD
    ensures var w := Word(n); n == w[0] as int * 0x100_0000 + w[1] as int * 0x1_0000 + w[2] as int * 0x100 + w[3] as int
  {
    var a, b, c := n / 256, n / 256 / 256, n / 256 / 256 / 256;
    assert BigEndian(c, 1) == BigEndian(c / 256, 0) + [c % 256];
    assert BigEndian(b, 2) == BigEndian(c, 1) + [b % 256];
    assert BigEndian(a, 3) == BigEndian(b, 2) + [a % 256];
    assert BigEndian(n, 4) == BigEndian(a, 3) + [n % 256];
    assert Word(n) == [c % 256, b % 256, a % 256, n % 256];
  }

  /** A frame is the length of the payload, its checksum and the payload. */
  lemma FrameLayout(c: Codec, r: Record)
    requires Sound(c) && |c.encode(r)| < WORD
    ensures var f, payload := Frame(c, r), c.encode(r);
            f[..4] == Word(|payload|) && f[4..8] == Word(c.checksum(payload)) && f[8..] == payload
  {
    var payload := c.encode(r);
    FrameParts(Word(|payload|), Word(c.checksum(payload)), payload);
  }

  lemma FrameParts(length: Bytes, checksum: Bytes, payload: Bytes)
    requires |length| == |checksum| == 4
    ensures var f := length + checksum + payload; f[..4] == length && f[4..8] == checksum && f[8..] == payload
  {
  }

  function Body(c: Codec, records: seq<Record>): (b: Bytes) {
    if records == [] then [] else Frame(c, records[0]) + Body(c, records[1..])
  }

  function Log(c: Codec, records: seq<Record>): (log: Bytes) {
    HEADER + Body(c, records)
  }

  /** A record whose frame the scan will accept. */
  predicate Fits(c: Codec, r: Record) {
    c.valid(r) && 1 <= |c.encode(r)| <= MAX_PAYLOAD
  }

  predicate AllFit(c: Codec, records: seq<Record>) {
    forall i :: 0 <= i < |records| ==> Fits(c, records[i])
  }

  /** Complete records, the bytes their frames take, and whether an incomplete frame follows. */
  datatype Scan = Scanned(records: seq<Record>, clean: nat, torn: bool) | Corrupt

  function Prepend(r: Record, size: nat, rest: Scan): Scan {
    if rest.Corrupt? then Corrupt else Scanned([r] + rest.records, size + rest.clean, rest.torn)
  }

  /** What one round of the frame loop finds at the start of `data`. */
  datatype Round = End | Torn | Bad | Next(record: Record, size: nat)

  function ReadFrame(c: Codec, data: Bytes): (round: Round)
    ensures round.Next? ==> 0 < round.size <= |data|
  {
    if data == [] then End
    else if |data| < FRAME_HEADER then Torn
    else
      var size := Value(data[..4]);
      if size == 0 || size > MAX_PAYLOAD then Bad
      else if |data| - FRAME_HEADER < size then Torn
      else
        var payload := data[FRAME_HEADER..FRAME_HEADER + size];
        if c.checksum(payload) != Value(data[4..8]) then Bad
        else match c.decode(payload)
          case None => Bad
          case Some(r) => if c.valid(r) then Next(r, FRAME_HEADER + size) else Bad
  }

  function ScanBody(c: Codec, data: Bytes): (s: Scan)
    ensures s.Scanned? ==> s.clean <= |data|
    ensures s.Scanned? && !s.torn ==> s.clean == |data|
    decreases |data|
  {
    match ReadFrame(c, data)
    case End => Scanned([], 0, false)
    case Torn => Scanned([], 0, true)
    case Bad => Corrupt
    case Next(r, size) => Prepend(r, size, ScanBody(c, data[size..]))
  }

  function ScanLog(c: Codec, data: Bytes): (s: Scan)
    ensures s.Scanned? ==> |HEADER| + s.clean <= |data|
    ensures s.Scanned? && !s.torn ==> |HEADER| + s.clean == |data|
  {
    if |data| < |HEADER| || data[..|HEADER|] != HEADER then Corrupt else ScanBody(c, data[|HEADER|..])
  }

  /** The frame loop of `scanReplicaFile`, with its running offset. */
  method ScanReplicaFile(c: Codec, data: Bytes) returns (s: Scan)
    ensures s == ScanLog(c, data)
  {
    if |data| < |HEADER| || data[..|HEADER|] != HEADER { return Corrupt; }
    var offset := |HEADER|;
    var records: seq<Record> := [];
    AfterNothing(ScanBody(c, data[offset..]));
    while true
      invariant |HEADER| <= offset <= |data|
      invariant ScanLog(c, data) == After(records, offset - |HEADER|, ScanBody(c, data[offset..]))
      decreases |data| - offset
    {
      var round := ReadFrame(c, data[offset..]);
      match round {
        case End => return Scanned(records, offset - |HEADER|, false);
        case Torn => return Scanned(records, offset - |HEADER|, true);
        case Bad => return Corrupt;
        case Next(r, size) =>
          assert data[offset..][size..] == data[offset + size..];
          AfterPrepend(records, offset - |HEADER|, r, size, ScanBody(c, data[offset + size..]));
          records := records + [r];
          offset := offset + size;
      }
    }
  }

  /** A scan resumed after `records` were read from the first `clean` bytes. */
  function After(records: seq<Record>, clean: nat, rest: Scan): Scan {
    if rest.Corrupt? then Corrupt else Scanned(records + rest.records, clean + rest.clean, rest.torn)
  }

  lemma AfterPrepend(records: seq<Record>, clean: nat, r: Record, size: nat, rest: Scan)
    ensures After(records, clean, Prepend(r, size, rest)) == After(records + [r], clean + size, rest)
  {
    if rest.Scanned? {
      assert records + ([r] + rest.records) == records + [r] + rest.records;
    }
  }

  // ---------------------------------------------------------------- what a scan gives back

  /** What the scan reads at the start of a frame. */
  lemma FrameReads(c: Codec, r: Record, rest: Bytes)
    requires Sound(c) && |c.encode(r)| < WORD
    ensures var payload, data := c.encode(r), Frame(c, r) + rest;
            && Value(data[..4]) == |payload|
            && Value(data[4..8]) == c.checksum(payload)
            && data[FRAME_HEADER..FRAME_HEADER + |payload|] == payload
            && data[FRAME_HEADER + |payload|..] == rest
  {
    var payload, data := c.encode(r), Frame(c, r) + rest;
    assert data[..4] == Word(|payload|) && data[4..8] == Word(c.checksum(payload));
    WordRoundTrip(|payload|);
    WordRoundTrip(c.checksum(payload));
  }

  lemma ScanFrame(c: Codec, r: Record, rest: Bytes)
    requires Sound(c) && Fits(c, r)
    ensures ScanBody(c, Frame(c, r) + rest) == Prepend(r, |Frame(c, r)|, ScanBody(c, rest))
  {
    FrameReads(c, r, rest);
    assert ReadFrame(c, Frame(c, r) + rest) == Next(r, |Frame(c, r)|);
  }

  lemma PrependAfter(r: Record, size: nat, records: seq<Record>, clean: nat, rest: Scan)
    ensures Prepend(r, size, After(records, clean, rest)) == After([r] + records, size + clean, rest)
  {
    if rest.Scanned? {
      assert [r] + (records + rest.records) == [r] + records + rest.records;
    }
  }

  /** Scanning past whole frames. */
  lemma {:induction false} ScanFrames(c: Codec, records: seq<Record>, rest: Bytes)
    requires Sound(c) && AllFit(c, records)
    ensures ScanBody(c, Body(c, records) + rest) == After(records, |Body(c, records)|, ScanBody(c, rest))
  {
    if records == [] {
      assert Body(c, records) + rest == rest;
      AfterNothing(ScanBody(c, rest));
    } else {
      var r, tail := records[0], records[1..];
      var more := Body(c, tail) + rest;
      assert Body(c, records) + rest == Frame(c, r) + more;
      ScanFrame(c, r, more);
      ScanFrames(c, tail, rest);
      PrependAfter(r, |Frame(c, r)|, tail, |Body(c, tail)|, ScanBody(c, rest));
      assert records == [r] + tail;
    }
  }

  lemma AfterNothing(s: Scan)
    ensures After([], 0, s) == s
  {
    if s.Scanned? {
      assert [] + s.records == s.records;
    }
  }

  lemma ScanAfterHeader(c: Codec, body: Bytes)
    ensures ScanLog(c, HEADER + body) == ScanBody(c, body)
  {
    assert (HEADER + body)[|HEADER|..] == body && (HEADER + body)[..|HEADER|] == HEADER;
  }

  lemma AfterAll(records: seq<Record>, clean: nat, torn: bool)
    ensures After(records, clean, Scanned([], 0, torn)) == Scanned(records, clean, torn)
  {
    assert records + [] == records;
  }

  /** Reading back a log yields exactly the records written to it. */
  lemma ScanWholeLog(c: Codec, records: seq<Record>)
    requires Sound(c) && AllFit(c, records)
    ensures ScanLog(c, Log(c, records)) == Scanned(records, |Body(c, records)|, false)
  {
    ScanFrames(c, records, []);
    ScanAfterHeader(c, Body(c, records));
    assert Body(c, records) + [] == Body(c, records);
    AfterAll(records, |Body(c, records)|, false);
  }

  lemma ScanTornFrame(c: Codec, r: Record, cut: nat)
    requires Sound(c) && Fits(c, r) && 0 < cut < |Frame(c, r)|
    ensures ScanBody(c, Frame(c, r)[..cut]) == Scanned([], 0, true)
  {
    var tail := Frame(c, r)[..cut];
    if cut >= FRAME_HEADER {
      FrameReads(c, r, []);
      assert tail[..4] == (Frame(c, r) + [])[..4];
    }
  }

  /** A frame cut anywhere is recognised as torn: nothing of it is read and nothing before it is lost. */
  lemma ScanTornLog(c: Codec, records: seq<Record>, r: Record, cut: nat)
    requires Sound(c) && AllFit(c, records) && Fits(c, r) && 0 < cut < |Frame(c, r)|
    ensures ScanLog(c, Log(c, records) + Frame(c, r)[..cut]) == Scanned(records, |Body(c, records)|, true)
  {
    var tail := Frame(c, r)[..cut];
    ScanTornFrame(c, r, cut);
    ScanFrames(c, records, tail);
    ScanAfterHeader(c, Body(c, records) + tail);
    assert Log(c, records) + tail == HEADER + (Body(c, records) + tail);
    AfterAll(records, |Body(c, records)|, true);
  }

  lemma ScanOversizeFrame(c: Codec, r: Record, cut: nat)
    requires Sound(c) && c.valid(r) && !Fits(c, r) && |c.encode(r)| < WORD && FRAME_HEADER <= cut <= |Frame(c, r)|
    ensures ScanBody(c, Frame(c, r)[..cut]) == Corrupt
  {
    var tail := Frame(c, r)[..cut];
    FrameReads(c, r, []);
    assert tail[..4] == (Frame(c, r) + [])[..4];
  }

  /** A cut inside the eight bytes before the payload is seen as torn, whatever the payload. */
  lemma ScanTornPrefix(c: Codec, records: seq<Record>, r: Record, cut: nat)
    requires Sound(c) && AllFit(c, records) && 0 < cut < FRAME_HEADER
    ensures ScanLog(c, Log(c, records) + Frame(c, r)[..cut]) == Scanned(records, |Body(c, records)|, true)
  {
    var tail := Frame(c, r)[..cut];
    ScanFrames(c, records, tail);
    ScanAfterHeader(c, Body(c, records) + tail);
    assert Log(c, records) + tail == HEADER + (Body(c, records) + tail);
    AfterAll(records, |Body(c, records)|, true);
  }

  lemma ScanOversizeLog(c: Codec, records: seq<Record>, r: Record, cut: nat)
    requires Sound(c) && AllFit(c, records)
    requires c.valid(r) && !Fits(c, r) && |c.encode(r)| < WORD && FRAME_HEADER <= cut <= |Frame(c, r)|
    ensures ScanLog(c, Log(c, records) + Frame(c, r)[..cut]) == Corrupt
  {
    var tail := Frame(c, r)[..cut];
    ScanOversizeFrame(c, r, cut);
    ScanFrames(c, records, tail);
    ScanAfterHeader(c, Body(c, records) + tail);
    assert Log(c, records) + tail == HEADER + (Body(c, records) + tail);
  }

  /** After an append of any length cut anywhere, the log is readable exactly when the payload is within the limit or its length was not yet written. */
  lemma CutLogReadableIff(c: Codec, records: seq<Record>, r: Record, cut: nat)
    requires Sound(c) && AllFit(c, records) && c.valid(r) && |c.encode(r)| < WORD && cut <= |Frame(c, r)|
    ensures ScanLog(c, Log(c, records) + Frame(c, r)[..cut]).Scanned? <==> Fits(c, r) || cut < FRAME_HEADER
  {
    var file := Log(c, records) + Frame(c, r)[..cut];
    if cut == 0 {
      assert file == Log(c, records);
      ScanWholeLog(c, records);
    } else if cut < FRAME_HEADER {
      ScanTornPrefix(c, records, r, cut);
    } else if !Fits(c, r) {
      ScanOversizeLog(c, records, r, cut);
    } else if cut < |Frame(c, r)| {
      ScanTornLog(c, records, r, cut);
    } else {
      assert Frame(c, r)[..cut] == Frame(c, r);
      ScanWholeFrame(c, records, r);
    }
  }

  lemma ScanWholeFrame(c: Codec, records: seq<Record>, r: Record)
    requires Sound(c) && AllFit(c, records) && Fits(c, r)
    ensures ScanLog(c, Log(c, records) + Frame(c, r)).Scanned?
  {
    assert Frame(c, r) + [] == Frame(c, r);
    ScanFrames(c, records, Frame(c, r));
    ScanFrame(c, r, []);
    ScanAfterHeader(c, Body(c, records) + Frame(c, r));
    assert Log(c, records) + Frame(c, r) == HEADER + (Body(c, records) + Frame(c, r));
  }

  /** The header itself is not protected: a file cut inside it cannot be opened. */
  lemma ShortHeaderIsCorrupt(c: Codec, cut: nat)
    requires cut < |HEADER|
    ensures ScanLog(c, HEADER[..cut]) == Corrupt
  {
  }

  /** A payload above the limit is written without complaint, and then no log containing it can be read. */
  lemma {:induction false} LogReadableIffAllFit(c: Codec, records: seq<Record>)
    requires Sound(c)
    requires forall i :: 0 <= i < |records| ==> c.valid(records[i]) && |c.encode(records[i])| < WORD
    ensures ScanLog(c, Log(c, records)).Scanned? <==> AllFit(c, records)
  {
    ScanAfterHeader(c, Body(c, records));
    BodyReadableIffAllFit(c, records);
  }

  lemma {:induction false} BodyReadableIffAllFit(c: Codec, records: seq<Record>)
    requires Sound(c)
    requires forall i :: 0 <= i < |records| ==> c.valid(records[i]) && |c.encode(records[i])| < WORD
    ensures ScanBody(c, Body(c, records)).Scanned? <==> AllFit(c, records)
  {
    if records != [] {
      var r, tail := records[0], records[1..];
      BodyReadableIffAllFit(c, tail);
      if Fits(c, r) {
        ScanFrame(c, r, Body(c, tail));
      } else {
        FrameReads(c, r, Body(c, tail));
      }
      assert records == [r] + tail;
    }
  }
}
