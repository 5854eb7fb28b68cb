/** Variable-length integers, protobuf fields and literal-only Snappy blocks, with decoders for each. */
module Wire {
  import opened Wrappers

  type Bytes = seq<byte>

  const WORD32 := 0x1_0000_0000
  const WORD64 := 0x1_0000_0000_0000_0000

  // ---------------------------------------------------------------- uvarint

  function Uvarint(v: nat): (b: Bytes)
    ensures b != []
  {
    if v < 128 then [v] else [v % 128 + 128] + Uvarint(v / 128)
  }

  method AppendUvarint(d: Bytes, v: nat) returns (r: Bytes)
    ensures r == d + Uvarint(v)
  {
    r := d;
    var rest := v;
    while rest >= 0x80
      invariant r + Uvarint(rest) == d + Uvarint(v)
      decreases rest
    {
      assert r + Uvarint(rest) == (r + [rest % 128 + 128]) + Uvarint(rest / 128);
      r := r + [rest % 128 + 128];
      rest := rest / 128;
    }
    r := r + [rest];
  }

  datatype Taken<+T> = Taken(value: T, rest: Bytes)

  function TakeUvarint(data: Bytes): (r: Option<Taken<nat>>)
    ensures r.Some? ==> |r.value.rest| < |data|
  {
    if data == [] then None
    else if data[0] < 128 then Some(Taken(data[0], data[1..]))
    else match TakeUvarint(data[1..])
      case None => None
      case Some(Taken(high, rest)) => Some(Taken(high * 128 + (data[0] as int - 128), rest))
  }

  lemma {:induction false} UvarintRoundTrip(v: nat, rest: Bytes)
    ensures TakeUvarint(Uvarint(v) + rest) == Some(Taken(v, rest))
  {
    var data := Uvarint(v) + rest;
    if v < 128 {
      assert data[1..] == rest;
    } else {
      UvarintRoundTrip(v / 128, rest);
      assert data[1..] == Uvarint(v / 128) + rest;
    }
  }

  // ---------------------------------------------------------------- little-endian words

  function LittleEndian(v: nat, k: nat): (b: Bytes)
    ensures |b| == k
  {
    if k == 0 then [] else [v % 256] + LittleEndian(v / 256, k - 1)
  }

  function LittleValue(b: Bytes): nat {
    if b == [] then 0 else b[0] as int + 256 * LittleValue(b[1..])
  }

  function Pow256(k: nat): (p: nat)
    ensures p >= 1
  {
    if k == 0 then 1 else 256 * Pow256(k - 1)
  }

  lemma {:induction false} LittleEndianRoundTrip(v: nat, k: nat)
    ensures v < Pow256(k) ==> LittleValue(LittleEndian(v, k)) == v
    ensures LittleValue(LittleEndian(v, k)) < Pow256(k)
    ensures LittleValue(LittleEndian(v, k)) <= v
  {
    if k > 0 {
      LittleEndianRoundTrip(v / 256, k - 1);
      assert LittleEndian(v, k)[1..] == LittleEndian(v / 256, k - 1);
    }
  }

  lemma Widths()
    ensures Pow256(1) == 0x100 && Pow256(2) == 0x1_0000 && Pow256(3) == 0x100_0000 && Pow256(4) == WORD32
    ensures Pow256(8) == WORD64
  {
    assert Pow256(4) == 256 * Pow256(3);
    assert Pow256(8) == 256 * Pow256(7) == 256 * 256 * Pow256(6) == 256 * 256 * 256 * Pow256(5);
  }

  // ---------------------------------------------------------------- protobuf

  /** A field of a protobuf message by wire type; numbers are 64-bit values. */
  datatype Field =
    | Varint(number: nat, value: nat)
    | Fixed64(number: nat, value: nat)
    | Delimited(number: nat, payload: Bytes)

  predicate Representable(f: Field) {
    f.Fixed64? ==> f.value < WORD64
  }

  function EncodeField(f: Field): (b: Bytes) {
    match f
    case Varint(number, value) => Uvarint(8 * number) + Uvarint(value)
    case Fixed64(number, value) => Uvarint(8 * number + 1) + LittleEndian(value, 8)
    case Delimited(number, payload) => Uvarint(8 * number + 2) + Uvarint(|payload|) + payload
  }

  function EncodeMessage(fields: seq<Field>): (b: Bytes) {
    if fields == [] then [] else EncodeMessage(fields[..|fields| - 1]) + EncodeField(fields[|fields| - 1])
  }

  method AppendProtoBytes(d: Bytes, number: nat, payload: Bytes) returns (r: Bytes)
    ensures r == d + EncodeField(Delimited(number, payload))
  {
    r := AppendUvarint(d, 8 * number + 2);
    r := AppendUvarint(r, |payload|);
    r := r + payload;
    assert r == d + (Uvarint(8 * number + 2) + Uvarint(|payload|) + payload);
  }

  method AppendProtoVarint(d: Bytes, number: nat, value: nat) returns (r: Bytes)
    ensures r == d + EncodeField(Varint(number, value))
  {
    r := AppendUvarint(d, 8 * number);
    r := AppendUvarint(r, value);
    assert r == d + (Uvarint(8 * number) + Uvarint(value));
  }

  method AppendProtoFixed64(d: Bytes, number: nat, value: nat) returns (r: Bytes)
    ensures r == d + EncodeField(Fixed64(number, value))
  {
    r := AppendUvarint(d, 8 * number + 1);
    r := r + LittleEndian(value, 8);
    assert r == d + (Uvarint(8 * number + 1) + LittleEndian(value, 8));
  }

  function TakeVarint(number: nat, data: Bytes): (r: Option<Taken<Field>>)
    ensures r.Some? ==> |r.value.rest| <= |data|
  {
    match TakeUvarint(data)
    case None => None
    case Some(Taken(value, rest)) => Some(Taken(Varint(number, value), rest))
  }

  function TakeFixed64(number: nat, data: Bytes): (r: Option<Taken<Field>>)
    ensures r.Some? ==> |r.value.rest| <= |data|
  {
    if |data| < 8 then None else Some(Taken(Fixed64(number, LittleValue(data[..8])), data[8..]))
  }

  function TakeSized(number: nat, size: nat, data: Bytes): (r: Option<Taken<Field>>)
    ensures r.Some? ==> |r.value.rest| <= |data|
  {
    if |data| < size then None else Some(Taken(Delimited(number, data[..size]), data[size..]))
  }

  function TakeDelimited(number: nat, data: Bytes): (r: Option<Taken<Field>>)
    ensures r.Some? ==> |r.value.rest| <= |data|
  {
    match TakeUvarint(data)
    case None => None
    case Some(Taken(size, rest)) => TakeSized(number, size, rest)
  }

  /** Reads the field whose tag was just read. */
  function TakeValue(tag: nat, data: Bytes): (r: Option<Taken<Field>>)
    ensures r.Some? ==> |r.value.rest| <= |data|
  {
    if tag % 8 == 0 then TakeVarint(tag / 8, data)
    else if tag % 8 == 1 then TakeFixed64(tag / 8, data)
    else if tag % 8 == 2 then TakeDelimited(tag / 8, data)
    else None
  }

  function TakeField(data: Bytes): (r: Option<Taken<Field>>)
    ensures r.Some? ==> |r.value.rest| < |data|
  {
    match TakeUvarint(data)
    case None => None
    case Some(Taken(tag, rest)) => TakeValue(tag, rest)
  }

  function ParseMessage(data: Bytes): (r: Option<seq<Field>>)
    decreases |data|
  {
    if data == [] then Some([])
    else match TakeField(data)
      case None => None
      case Some(Taken(field, rest)) =>
        match ParseMessage(rest)
        case None => None
        case Some(fields) => Some([field] + fields)
  }

  lemma Split(a: Bytes, b: Bytes)
    ensures (a + b)[..|a|] == a && (a + b)[|a|..] == b
  {
  }

  lemma Associate(a: Bytes, b: Bytes, c: Bytes)
    ensures a + b + c == a + (b + c)
  {
  }

  lemma SizedValue(number: nat, payload: Bytes, rest: Bytes)
    ensures TakeSized(number, |payload|, payload + rest) == Some(Taken(Delimited(number, payload), rest))
  {
    Split(payload, rest);
  }

  lemma DelimitedValue(number: nat, payload: Bytes, rest: Bytes)
    ensures TakeDelimited(number, Uvarint(|payload|) + (payload + rest)) == Some(Taken(Delimited(number, payload), rest))
  {
    UvarintRoundTrip(|payload|, payload + rest);
    SizedValue(number, payload, rest);
  }

  lemma Fixed64Value(number: nat, value: nat, rest: Bytes)
    requires value < WORD64
    ensures TakeFixed64(number, LittleEndian(value, 8) + rest) == Some(Taken(Fixed64(number, value), rest))
  {
    LittleEndianRoundTrip(value, 8);
    Widths();
    Split(LittleEndian(value, 8), rest);
  }

  /** Reading a field whose tag and value stand side by side. */
  lemma TagThenValue(number: nat, wire: nat, value: Bytes)
    requires wire < 3
    ensures TakeField(Uvarint(8 * number + wire) + value) ==
              if wire == 0 then TakeVarint(number, value)
              else if wire == 1 then TakeFixed64(number, value)
              else TakeDelimited(number, value)
  {
    UvarintRoundTrip(8 * number + wire, value);
    assert (8 * number + wire) / 8 == number && (8 * number + wire) % 8 == wire;
  }

  /** A field reads back as itself, whatever follows. */
  lemma FieldRoundTrip(f: Field, rest: Bytes)
    requires Representable(f)
    ensures TakeField(EncodeField(f) + rest) == Some(Taken(f, rest))
  {
    match f {
      case Varint(number, value) =>
        Associate(Uvarint(8 * number), Uvarint(value), rest);
        TagThenValue(number, 0, Uvarint(value) + rest);
        UvarintRoundTrip(value, rest);
      case Fixed64(number, value) =>
        Associate(Uvarint(8 * number + 1), LittleEndian(value, 8), rest);
        TagThenValue(number, 1, LittleEndian(value, 8) + rest);
        Fixed64Value(number, value, rest);
      case Delimited(number, payload) =>
        DelimitedLayout(number, payload, rest);
        TagThenValue(number, 2, Uvarint(|payload|) + (payload + rest));
        DelimitedValue(number, payload, rest);
    }
  }

  lemma DelimitedLayout(number: nat, payload: Bytes, rest: Bytes)
    ensures EncodeField(Delimited(number, payload)) + rest == Uvarint(8 * number + 2) + (Uvarint(|payload|) + (payload + rest))
  {
    var tag, size := Uvarint(8 * number + 2), Uvarint(|payload|);
    Associate(tag + size, payload, rest);
    Associate(tag, size, payload + rest);
  }

  lemma {:induction false} EncodeCons(f: Field, fields: seq<Field>)
    ensures EncodeMessage([f] + fields) == EncodeField(f) + EncodeMessage(fields)
  {
    var all := [f] + fields;
    if fields == [] {
      assert all[..0] == [] && all[0] == f;
    } else {
      var init, last := fields[..|fields| - 1], fields[|fields| - 1];
      EncodeCons(f, init);
      assert all[..|all| - 1] == [f] + init && all[|all| - 1] == last;
      Associate(EncodeField(f), EncodeMessage(init), EncodeField(last));
    }
  }

  /** A message parses back to exactly the fields it was built from. */
  lemma {:induction false} MessageRoundTrip(fields: seq<Field>)
    requires forall i :: 0 <= i < |fields| ==> Representable(fields[i])
    ensures ParseMessage(EncodeMessage(fields)) == Some(fields)
  {
    if fields != [] {
      var f, tail := fields[0], fields[1..];
      assert fields == [f] + tail;
      EncodeCons(f, tail);
      FieldRoundTrip(f, EncodeMessage(tail));
      MessageRoundTrip(tail);
      assert TakeField([]).None?;
    }
  }

  // ---------------------------------------------------------------- snappy

  /** The tag of one literal of `n + 1` bytes; the longest form keeps the low 32 bits of `n`. */
  function LiteralTag(n: nat): (tag: Bytes) {
    if n < 60 then [n * 4]
    else if n <= 0xff then [60 * 4] + LittleEndian(n, 1)
    else if n <= 0xffff then [61 * 4] + LittleEndian(n, 2)
    else if n <= 0xff_ffff then [62 * 4] + LittleEndian(n, 3)
    else [63 * 4] + LittleEndian(n, 4)
  }

  function SnappyLiteral(p: Bytes): (b: Bytes) {
    Uvarint(|p|) + (if p == [] then [] else LiteralTag(|p| - 1) + p)
  }

  method SnappyLiteralBlock(p: Bytes) returns (r: Bytes)
    ensures r == SnappyLiteral(p)
  {
    r := AppendUvarint([], |p|);
    assert r == Uvarint(|p|);
    if |p| == 0 { return; }
    r := AppendLiteralTag(r, |p| - 1);
    r := r + p;
    Associate(Uvarint(|p|), LiteralTag(|p| - 1), p);
  }

  /** The tag of a literal of `n + 1` bytes. */
  method AppendLiteralTag(d: Bytes, n: nat) returns (r: Bytes)
    ensures r == d + LiteralTag(n)
  {
    if n + 1 < 61 {
      r := d + [n * 4];
    } else if n <= 0xff {
      r := d + ([60 * 4] + LittleEndian(n, 1));
    } else if n <= 0xffff {
      r := d + ([61 * 4] + LittleEndian(n, 2));
    } else if n <= 0xff_ffff {
      r := d + ([62 * 4] + LittleEndian(n, 3));
    } else {
      r := d + ([63 * 4] + LittleEndian(n, 4));
    }
  }

  /** Reads a literal tag: the literal's length and the bytes after the tag. */
  function TakeLiteralTag(data: Bytes): (r: Option<Taken<nat>>)
    ensures r.Some? ==> |r.value.rest| < |data| && r.value.value >= 1
  {
    if data == [] || data[0] % 4 != 0 then None
    else
      var m := data[0] / 4;
      if m < 60 then Some(Taken(m + 1, data[1..]))
      else
        var extra := m - 59;
        if |data| < 1 + extra then None
        else Some(Taken(LittleValue(data[1..1 + extra]) + 1, data[1 + extra..]))
  }

  /** The literal elements of a block, concatenated; a copy element is refused. */
  function ReadLiterals(data: Bytes): (r: Option<Bytes>)
    ensures r.Some? && data != [] ==> |r.value| < |data|
    ensures data == [] ==> r == Some([])
    decreases |data|
  {
    if data == [] then Some([])
    else match TakeLiteralTag(data)
      case None => None
      case Some(Taken(size, rest)) =>
        if |rest| < size then None
        else match ReadLiterals(rest[size..])
          case None => None
          case Some(more) => Some(rest[..size] + more)
  }

  /** The format allows a declared length of at most 2^32 - 1. */
  function SnappyDecode(data: Bytes): (r: Option<Bytes>) {
    match TakeUvarint(data)
    case None => None
    case Some(Taken(size, rest)) =>
      if size >= WORD32 then None
      else match ReadLiterals(rest)
        case None => None
        case Some(p) => if |p| == size then Some(p) else None
  }

  lemma ExtendedTag(k: nat, n: nat, p: Bytes)
    requires 1 <= k <= 4
    ensures TakeLiteralTag([(59 + k) * 4] + LittleEndian(n, k) + p) == Some(Taken(LittleValue(LittleEndian(n, k)) + 1, p))
  {
    var data := [(59 + k) * 4] + LittleEndian(n, k) + p;
    assert data[0] / 4 == 59 + k && data[0] % 4 == 0;
    assert data[1..1 + k] == LittleEndian(n, k) && data[1 + k..] == p;
  }

  /** The length read back is the true one, except that the longest form wraps at 32 bits. */
  lemma LiteralTagReads(n: nat, p: Bytes)
    ensures TakeLiteralTag(LiteralTag(n) + p).Some?
    ensures TakeLiteralTag(LiteralTag(n) + p).value.rest == p
    ensures var size := TakeLiteralTag(LiteralTag(n) + p).value.value;
            (n < WORD32 ==> size == n + 1) && (n >= WORD32 ==> size <= n)
  {
    Widths();
    if n < 60 {
      assert (LiteralTag(n) + p)[1..] == p;
    } else {
      var k := if n <= 0xff then 1 else if n <= 0xffff then 2 else if n <= 0xff_ffff then 3 else 4;
      assert LiteralTag(n) == [(59 + k) * 4] + LittleEndian(n, k);
      ExtendedTag(k, n, p);
      LittleEndianRoundTrip(n, k);
    }
  }

  /** Decoding gives the payload back exactly when it has fewer than 2^32 bytes. */
  lemma SnappyRoundTripExact(p: Bytes)
    ensures SnappyDecode(SnappyLiteral(p)) == Some(p) <==> |p| < WORD32
  {
    var elements: Bytes := if p == [] then [] else LiteralTag(|p| - 1) + p;
    UvarintRoundTrip(|p|, elements);
    if p != [] {
      LiteralTagReads(|p| - 1, p);
      if |p| < WORD32 {
        assert p[..|p|] == p && p[|p|..] == [];
        assert p[..|p|] + [] == p;
      }
    }
  }

  // ---------------------------------------------------------------- the formats themselves

  /** Seven bits a byte, the least significant first. */
  ghost function SevenBits(b: Bytes): nat {
    if b == [] then 0 else b[0] % 128 + 128 * SevenBits(b[1..])
  }

  /** A varint is the number in groups of seven bits; every byte but the last is marked, and the last is zero for zero only. */
  lemma {:induction false} UvarintMeaning(v: nat)
    ensures var b := Uvarint(v);
            && SevenBits(b) == v && b[|b| - 1] < 128 && (v > 0 ==> b[|b| - 1] > 0)
            && forall i :: 0 <= i < |b| - 1 ==> b[i] >= 128
  {
    var b := Uvarint(v);
    if v < 128 {
      assert b[1..] == [];
    } else {
      UvarintMeaning(v / 128);
      assert b[1..] == Uvarint(v / 128);
      assert forall i :: 0 < i < |b| ==> b[i] == b[1..][i - 1];
    }
  }

  /** The tags of literals by size: one byte, or one and as many length bytes as the size takes. */
  lemma LiteralTagExamples()
    ensures LiteralTag(0) == [0] && LiteralTag(59) == [236] && LiteralTag(60) == [240, 60]
    ensures LiteralTag(256) == [244, 0, 1] && LiteralTag(0x1_0000) == [248, 0, 0, 1] && LiteralTag(0x100_0000) == [252, 0, 0, 0, 1]
  {
    assert LittleEndian(0, 0) == [] && LittleEndian(1, 1) == [1] && LittleEndian(0x100, 2) == [0, 1];
    assert LittleEndian(0x100, 2) == [0] + LittleEndian(1, 1) && LittleEndian(0x1_0000, 3) == [0] + LittleEndian(0x100, 2);
    assert LittleEndian(0x100_0000, 4) == [0] + LittleEndian(0x1_0000, 3);
    assert LittleEndian(60, 1) == [60] + LittleEndian(0, 0);
  }
}
