/**
The Prometheus remote-write request: the label map of an event, the protobuf encoding of
one sample, and a decoder that recovers both.  A text is a sequence of bytes.
 */
module RemoteWrite {
  import opened Wrappers
  import opened Sorting
  import opened Wire

  predicate ByteText(s: string) {
    forall i :: 0 <= i < |s| ==> s[i] as int < 256
  }

  type Text = s: string | ByteText(s)

  function TextBytes(s: Text): (b: Bytes)
    ensures |b| == |s| && forall i :: 0 <= i < |b| ==> b[i] == s[i] as int
  {
    seq(|s|, i requires 0 <= i < |s| => s[i] as int)
  }

  function BytesText(b: Bytes): (s: Text) {
    var s := seq(|b|, i requires 0 <= i < |b| => b[i] as char);
    assert forall i :: 0 <= i < |s| ==> s[i] == b[i] as char;
    s
  }

  lemma TextRoundTrip(s: Text)
    ensures BytesText(TextBytes(s)) == s
  {
  }

  // ---------------------------------------------------------------- labels

  type Labels = map<Text, Text>

  /** The label map after visiting the first `k` tags: an allowed tag overwrites the label of its sanitized name. */
  function LabelsAfter(base: Labels, tags: Labels, allowed: set<Text>, sanitize: Text -> Text, order: seq<Text>, k: nat): Labels
    requires k <= |order| && forall i :: 0 <= i < |order| ==> order[i] in tags
  {
    if k == 0 then base
    else
      var tag := order[k - 1];
      var labels := LabelsAfter(base, tags, allowed, sanitize, order, k - 1);
      if tag in allowed then labels[sanitize(tag) := tags[tag]] else labels
  }

  method BuildLabels(base: Labels, tags: Labels, allowed: set<Text>, sanitize: Text -> Text, order: seq<Text>) returns (labels: Labels)
    requires forall i :: 0 <= i < |order| ==> order[i] in tags
    ensures labels == LabelsAfter(base, tags, allowed, sanitize, order, |order|)
  {
    labels := base;
    for k := 0 to |order|
      invariant labels == LabelsAfter(base, tags, allowed, sanitize, order, k)
    {
      if order[k] in allowed {
        labels := labels[sanitize(order[k]) := tags[order[k]]];
      }
    }
  }

  /** An allowed tag that sets the label `name`. */
  predicate Sets(tags: Labels, allowed: set<Text>, sanitize: Text -> Text, tag: Text, name: Text) {
    tag in tags && tag in allowed && sanitize(tag) == name
  }

  /** Two allowed tags with different values collapse to one label name. */
  ghost predicate Clash(tags: Labels, allowed: set<Text>, sanitize: Text -> Text) {
    exists a, b :: Sets(tags, allowed, sanitize, a, sanitize(a)) && Sets(tags, allowed, sanitize, b, sanitize(a)) && tags[a] != tags[b]
  }

  /** Without a clash a label is settled by any tag that sets it, wherever that tag was visited. */
  lemma {:induction false} LabelSettled(base: Labels, tags: Labels, allowed: set<Text>, sanitize: Text -> Text, order: seq<Text>, k: nat, name: Text)
    requires k <= |order| && (forall i :: 0 <= i < |order| ==> order[i] in tags) && !Clash(tags, allowed, sanitize)
    ensures var labels := LabelsAfter(base, tags, allowed, sanitize, order, k);
            && (forall i :: 0 <= i < k && Sets(tags, allowed, sanitize, order[i], name) ==> name in labels && labels[name] == tags[order[i]])
            && ((forall i :: 0 <= i < k ==> !Sets(tags, allowed, sanitize, order[i], name)) ==>
                  (name in labels <==> name in base) && (name in base ==> labels[name] == base[name]))
  {
    if k > 0 {
      LabelSettled(base, tags, allowed, sanitize, order, k - 1, name);
      var tag := order[k - 1];
      if Sets(tags, allowed, sanitize, tag, name) {
        forall i | 0 <= i < k && Sets(tags, allowed, sanitize, order[i], name)
          ensures tags[order[i]] == tags[tag]
        {
          assert Sets(tags, allowed, sanitize, tag, sanitize(tag)) && Sets(tags, allowed, sanitize, order[i], sanitize(tag));
        }
      }
    }
  }

  /** Without a clash the label map does not depend on the order the tag map was iterated in. */
  lemma LabelsIndependent(base: Labels, tags: Labels, allowed: set<Text>, sanitize: Text -> Text, a: seq<Text>, b: seq<Text>)
    requires Elements(a) == Elements(b) == tags.Keys && !Clash(tags, allowed, sanitize)
    requires (forall i :: 0 <= i < |a| ==> a[i] in tags) && forall i :: 0 <= i < |b| ==> b[i] in tags
    ensures LabelsAfter(base, tags, allowed, sanitize, a, |a|) == LabelsAfter(base, tags, allowed, sanitize, b, |b|)
  {
    var la, lb := LabelsAfter(base, tags, allowed, sanitize, a, |a|), LabelsAfter(base, tags, allowed, sanitize, b, |b|);
    forall name: Text
      ensures (name in la <==> name in lb) && (name in la ==> la[name] == lb[name])
    {
      LabelAgrees(base, tags, allowed, sanitize, a, b, name);
    }
  }

  lemma LabelAgrees(base: Labels, tags: Labels, allowed: set<Text>, sanitize: Text -> Text, a: seq<Text>, b: seq<Text>, name: Text)
    requires Elements(a) == Elements(b) && !Clash(tags, allowed, sanitize)
    requires (forall i :: 0 <= i < |a| ==> a[i] in tags) && forall i :: 0 <= i < |b| ==> b[i] in tags
    ensures var la, lb := LabelsAfter(base, tags, allowed, sanitize, a, |a|), LabelsAfter(base, tags, allowed, sanitize, b, |b|);
            (name in la <==> name in lb) && (name in la ==> la[name] == lb[name])
  {
    LabelSettled(base, tags, allowed, sanitize, a, |a|, name);
    LabelSettled(base, tags, allowed, sanitize, b, |b|, name);
    if i :| 0 <= i < |a| && Sets(tags, allowed, sanitize, a[i], name) {
      assert a[i] in Elements(b);
      var j :| 0 <= j < |b| && b[j] == a[i];
    } else {
      forall j | 0 <= j < |b|
        ensures !Sets(tags, allowed, sanitize, b[j], name)
      {
        assert b[j] in Elements(a);
      }
    }
  }

  /** With a clash the last of the two visited wins, so the two orders give different label maps. */
  lemma ClashShows(base: Labels, tags: Labels, allowed: set<Text>, sanitize: Text -> Text, rest: seq<Text>, a: Text, b: Text)
    requires Sets(tags, allowed, sanitize, a, sanitize(a)) && Sets(tags, allowed, sanitize, b, sanitize(a)) && tags[a] != tags[b]
    requires forall i :: 0 <= i < |rest| ==> rest[i] in tags
    ensures LabelsAfter(base, tags, allowed, sanitize, rest + [a, b], |rest| + 2) !=
            LabelsAfter(base, tags, allowed, sanitize, rest + [b, a], |rest| + 2)
  {
    assert LabelsAfter(base, tags, allowed, sanitize, rest + [a, b], |rest| + 2)[sanitize(a)] == tags[b];
    assert LabelsAfter(base, tags, allowed, sanitize, rest + [b, a], |rest| + 2)[sanitize(a)] == tags[a];
  }

  ghost predicate Enumerates(order: seq<Text>, tags: Labels) {
    Distinct(order) && Elements(order) == tags.Keys && forall i :: 0 <= i < |order| ==> order[i] in tags
  }

  /** The labels are the same whichever way the tag map happens to be iterated. */
  ghost predicate OrderFree(base: Labels, tags: Labels, allowed: set<Text>, sanitize: Text -> Text) {
    forall a, b :: Enumerates(a, tags) && Enumerates(b, tags) ==>
      LabelsAfter(base, tags, allowed, sanitize, a, |a|) == LabelsAfter(base, tags, allowed, sanitize, b, |b|)
  }

  /** Two tags put last, in either order, still enumerate the map. */
  lemma PutLast(tags: Labels, rest: seq<Text>, a: Text, b: Text)
    requires a in tags && b in tags && a != b && Distinct(rest) && Elements(rest) == tags.Keys - {a, b}
    ensures Enumerates(rest + [a, b], tags)
  {
    assert a !in Elements(rest) && b !in Elements(rest);
    var order := rest + [a, b];
    forall name ensures name in Elements(order) <==> name in tags.Keys {
      assert name in order <==> name in rest || name == a || name == b;
      assert name in Elements(rest) <==> name in rest;
    }
    forall i | 0 <= i < |order| ensures order[i] in tags { assert order[i] in Elements(order); }
  }

  lemma ClashDepends(base: Labels, tags: Labels, allowed: set<Text>, sanitize: Text -> Text, a: Text, b: Text)
    requires Sets(tags, allowed, sanitize, a, sanitize(a)) && Sets(tags, allowed, sanitize, b, sanitize(a)) && tags[a] != tags[b]
    ensures !OrderFree(base, tags, allowed, sanitize)
  {
    var rest := Listing(tags.Keys - {a, b});
    PutLast(tags, rest, a, b);
    assert tags.Keys - {a, b} == tags.Keys - {b, a};
    PutLast(tags, rest, b, a);
    RestInTags(tags, rest, a, b);
    ClashShows(base, tags, allowed, sanitize, rest, a, b);
  }

  /** The labels depend on the iteration order exactly when two allowed tags clash. */
  lemma OrderFreeIffNoClash(base: Labels, tags: Labels, allowed: set<Text>, sanitize: Text -> Text)
    ensures OrderFree(base, tags, allowed, sanitize) <==> !Clash(tags, allowed, sanitize)
  {
    if Clash(tags, allowed, sanitize) {
      var a, b :| Sets(tags, allowed, sanitize, a, sanitize(a)) && Sets(tags, allowed, sanitize, b, sanitize(a)) && tags[a] != tags[b];
      ClashDepends(base, tags, allowed, sanitize, a, b);
    } else {
      forall a, b | Enumerates(a, tags) && Enumerates(b, tags)
        ensures LabelsAfter(base, tags, allowed, sanitize, a, |a|) == LabelsAfter(base, tags, allowed, sanitize, b, |b|)
      {
        LabelsIndependent(base, tags, allowed, sanitize, a, b);
      }
    }
  }

  /** Two tags with one sanitized name: which value the label gets depends on the order of iteration. */
  lemma ClashingTags(base: Labels, sanitize: Text -> Text)
    requires sanitize("a.b") == sanitize("a_b")
    ensures !OrderFree(base, map["a.b" := "x", "a_b" := "y"], {"a.b", "a_b"}, sanitize)
  {
    var tags: Labels := map["a.b" := "x", "a_b" := "y"];
    assert "x"[0] != "y"[0];
    assert Sets(tags, {"a.b", "a_b"}, sanitize, "a.b", sanitize("a.b")) && Sets(tags, {"a.b", "a_b"}, sanitize, "a_b", sanitize("a.b"));
    OrderFreeIffNoClash(base, tags, {"a.b", "a_b"}, sanitize);
  }

  /** Whichever way the tags are iterated, the label `name` ends with the value the event itself gave it. */
  ghost predicate Keeps(base: Labels, tags: Labels, allowed: set<Text>, sanitize: Text -> Text, name: Text)
    requires name in base
  {
    forall order :: Enumerates(order, tags) ==>
      Has(LabelsAfter(base, tags, allowed, sanitize, order, |order|), name, base[name])
  }

  predicate Has(labels: Labels, name: Text, value: Text) {
    name in labels && labels[name] == value
  }

  /** An allowed tag whose sanitized name is `name` and whose value is another one. */
  predicate Replaces(base: Labels, tags: Labels, allowed: set<Text>, sanitize: Text -> Text, tag: Text, name: Text)
    requires name in base
  {
    Sets(tags, allowed, sanitize, tag, name) && tags[tag] != base[name]
  }

  lemma {:induction false} Untouched(base: Labels, tags: Labels, allowed: set<Text>, sanitize: Text -> Text, order: seq<Text>, k: nat, name: Text)
    requires k <= |order| && (forall i :: 0 <= i < |order| ==> order[i] in tags) && name in base
    requires forall tag :: !Replaces(base, tags, allowed, sanitize, tag, name)
    ensures Has(LabelsAfter(base, tags, allowed, sanitize, order, k), name, base[name])
  {
    if k > 0 {
      Untouched(base, tags, allowed, sanitize, order, k - 1, name);
      assert !Replaces(base, tags, allowed, sanitize, order[k - 1], name);
    }
  }

  lemma TagLast(tags: Labels, tag: Text) returns (order: seq<Text>)
    requires tag in tags
    ensures Enumerates(order, tags) && order != [] && order[|order| - 1] == tag
  {
    var rest := Listing(tags.Keys - {tag});
    order := rest + [tag];
    assert tag !in Elements(rest);
    forall name ensures name in Elements(order) <==> name in tags.Keys {
      assert name in order <==> name in rest || name == tag;
      assert name in Elements(rest) <==> name in rest;
    }
    forall i | 0 <= i < |order| ensures order[i] in tags { assert order[i] in Elements(order); }
  }

  /**
  The metric name, the source and the tenant of an event are labels a tag can replace: one
  keeps its own value in every order exactly when no allowed tag sanitizes to its name with
  another value.
   */
  lemma BaseLabelKeptIff(base: Labels, tags: Labels, allowed: set<Text>, sanitize: Text -> Text, name: Text)
    requires name in base
    ensures Keeps(base, tags, allowed, sanitize, name) <==> forall tag :: !Replaces(base, tags, allowed, sanitize, tag, name)
  {
    if tag :| Replaces(base, tags, allowed, sanitize, tag, name) {
      var order := TagLast(tags, tag);
      assert Has(LabelsAfter(base, tags, allowed, sanitize, order, |order|), name, tags[tag]);
    } else {
      forall order | Enumerates(order, tags)
        ensures Has(LabelsAfter(base, tags, allowed, sanitize, order, |order|), name, base[name])
      {
        Untouched(base, tags, allowed, sanitize, order, |order|, name);
      }
    }
  }

  lemma RestInTags(tags: Labels, rest: seq<Text>, a: Text, b: Text)
    requires Elements(rest) == tags.Keys - {a, b}
    ensures forall i :: 0 <= i < |rest| ==> rest[i] in tags
  {
    forall i | 0 <= i < |rest| ensures rest[i] in tags { assert rest[i] in Elements(rest); }
  }

  // ---------------------------------------------------------------- request

  const HALF64 := 0x8000_0000_0000_0000

  /** The unsigned image of a signed 64-bit timestamp, and back. */
  function Unsigned(t: int): (u: nat)
    requires -HALF64 <= t < HALF64
    ensures u < WORD64
  {
    if t < 0 then t + WORD64 else t
  }

  function Signed(u: nat): int { if u < HALF64 then u else u - WORD64 }

  function LabelMessage(name: Text, value: Text): seq<Field> {
    [Delimited(1, TextBytes(name)), Delimited(2, TextBytes(value))]
  }

  function SampleMessage(bits: nat, timestamp: int): seq<Field>
    requires -HALF64 <= timestamp < HALF64
  {
    [Fixed64(1, bits), Varint(2, Unsigned(timestamp))]
  }

  function LabelFields(labels: Labels, names: seq<Text>): (fields: seq<Field>)
    requires forall i :: 0 <= i < |names| ==> names[i] in labels
    ensures |fields| == |names|
  {
    seq(|names|, i requires 0 <= i < |names| => Delimited(1, EncodeMessage(LabelMessage(names[i], labels[names[i]]))))
  }

  function SeriesMessage(labels: Labels, names: seq<Text>, bits: nat, timestamp: int): seq<Field>
    requires (forall i :: 0 <= i < |names| ==> names[i] in labels) && -HALF64 <= timestamp < HALF64
  {
    LabelFields(labels, names) + [Delimited(2, EncodeMessage(SampleMessage(bits, timestamp)))]
  }

  function Request(labels: Labels, names: seq<Text>, bits: nat, timestamp: int): Bytes
    requires (forall i :: 0 <= i < |names| ==> names[i] in labels) && -HALF64 <= timestamp < HALF64
  {
    EncodeMessage([Delimited(1, EncodeMessage(SeriesMessage(labels, names, bits, timestamp)))])
  }

  lemma EncodeSnoc(fields: seq<Field>, f: Field)
    ensures EncodeMessage(fields + [f]) == EncodeMessage(fields) + EncodeField(f)
  {
    assert (fields + [f])[..|fields|] == fields;
  }

  lemma EncodeTwo(a: Field, b: Field)
    ensures EncodeMessage([a, b]) == EncodeField(a) + EncodeField(b)
  {
    EncodeCons(a, [b]);
    EncodeCons(b, []);
    assert [a] + [b] == [a, b] && [b] + [] == [b];
    assert EncodeField(b) + EncodeMessage([]) == EncodeField(b);
  }

  /** The bytes of one label pair. */
  method EncodeLabel(name: Text, value: Text) returns (b: Bytes)
    ensures b == EncodeMessage(LabelMessage(name, value))
  {
    b := AppendProtoBytes([], 1, TextBytes(name));
    b := AppendProtoBytes(b, 2, TextBytes(value));
    EncodeTwo(Delimited(1, TextBytes(name)), Delimited(2, TextBytes(value)));
  }

  method EncodeSample(bits: nat, timestamp: int) returns (b: Bytes)
    requires -HALF64 <= timestamp < HALF64
    ensures b == EncodeMessage(SampleMessage(bits, timestamp))
  {
    b := AppendProtoFixed64([], 1, bits);
    b := AppendProtoVarint(b, 2, Unsigned(timestamp));
    EncodeTwo(Fixed64(1, bits), Varint(2, Unsigned(timestamp)));
  }

  /** `sort.Strings` on an enumeration of distinct names. */
  method SortNames(order: seq<Text>) returns (names: seq<Text>)
    requires Distinct(order)
    ensures Sorted(TextLess, names) && Elements(names) == Elements(order)
  {
    TextOrder(Elements(order));
    SortSorts(TextLess, order);
    names := Sort(TextLess, order);
  }

  lemma LabelFieldsGrow(labels: Labels, names: seq<Text>, i: nat)
    requires i < |names| && forall i :: 0 <= i < |names| ==> names[i] in labels
    ensures EncodeMessage(LabelFields(labels, names)[..i + 1]) ==
            EncodeMessage(LabelFields(labels, names)[..i]) + EncodeField(Delimited(1, EncodeMessage(LabelMessage(names[i], labels[names[i]]))))
  {
    EncodePrefix(LabelFields(labels, names), i);
  }

  lemma EncodePrefix(fields: seq<Field>, i: nat)
    requires i < |fields|
    ensures EncodeMessage(fields[..i + 1]) == EncodeMessage(fields[..i]) + EncodeField(fields[i])
  {
    assert fields[..i + 1] == fields[..i] + [fields[i]];
    EncodeSnoc(fields[..i], fields[i]);
  }

  /** Appends one label field. */
  method AppendLabel(d: Bytes, name: Text, value: Text) returns (r: Bytes)
    ensures r == d + EncodeField(Delimited(1, EncodeMessage(LabelMessage(name, value))))
  {
    var pair := EncodeLabel(name, value);
    r := AppendProtoBytes(d, 1, pair);
  }

  /** The label fields of a series, in the order of `names`. */
  method EncodeLabels(labels: Labels, names: seq<Text>) returns (series: Bytes)
    requires forall i :: 0 <= i < |names| ==> names[i] in labels
    ensures series == EncodeMessage(LabelFields(labels, names))
  {
    series := [];
    for i := 0 to |names|
      invariant series == EncodeMessage(LabelFields(labels, names)[..i])
    {
      LabelFieldsGrow(labels, names, i);
      series := AppendLabel(series, names[i], labels[names[i]]);
    }
    assert LabelFields(labels, names)[..|names|] == LabelFields(labels, names);
  }

  /** The labels and then the sample. */
  method EncodeSeries(labels: Labels, names: seq<Text>, bits: nat, timestamp: int) returns (series: Bytes)
    requires (forall i :: 0 <= i < |names| ==> names[i] in labels) && -HALF64 <= timestamp < HALF64
    ensures series == EncodeMessage(SeriesMessage(labels, names, bits, timestamp))
  {
    series := EncodeLabels(labels, names);
    var sample := EncodeSample(bits, timestamp);
    series := AppendProtoBytes(series, 2, sample);
    EncodeSnoc(LabelFields(labels, names), Delimited(2, sample));
  }

  /** The request for an event whose label names were iterated in the order `order`. */
  method EncodeWriteRequest(labels: Labels, order: seq<Text>, bits: nat, timestamp: int) returns (b: Bytes, names: seq<Text>)
    requires Distinct(order) && Elements(order) == labels.Keys && -HALF64 <= timestamp < HALF64
    ensures Sorted(TextLess, names) && Elements(names) == labels.Keys
    ensures forall i :: 0 <= i < |names| ==> names[i] in labels
    ensures b == Request(labels, names, bits, timestamp)
  {
    names := SortNames(order);
    assert forall i :: 0 <= i < |names| ==> names[i] in Elements(names);
    var series := EncodeSeries(labels, names, bits, timestamp);
    b := AppendProtoBytes([], 1, series);
    EncodeSnoc([], Delimited(1, series));
    assert [] + [Delimited(1, series)] == [Delimited(1, series)];
  }

  predicate TextLess(a: Text, b: Text) { LexLess(a, b) }

  lemma TextOrder(names: set<Text>)
    ensures StrictOrder(TextLess) && TotalOn(TextLess, names)
  {
    forall a: Text ensures !TextLess(a, a) { LexIrreflexive(a); }
    forall a: Text, b: Text, c: Text | TextLess(a, b) && TextLess(b, c)
      ensures TextLess(a, c)
    {
      LexTransitive(a, b, c);
    }
    forall a, b | a in names && b in names && a != b
      ensures TextLess(a, b) || TextLess(b, a)
    {
      LexTotal(a, b);
    }
  }

  // ---------------------------------------------------------------- decoding

  /** What a receiver learns from a request. */
  datatype Series = Series(labels: seq<(Text, Text)>, bits: nat, timestamp: int)

  function DecodeLabel(payload: Bytes): Option<(Text, Text)> {
    match ParseMessage(payload)
    case None => None
    case Some(fields) =>
      if |fields| == 2 && fields[0].Delimited? && fields[0].number == 1 && fields[1].Delimited? && fields[1].number == 2
      then Some((BytesText(fields[0].payload), BytesText(fields[1].payload))) else None
  }

  function DecodeSample(payload: Bytes): Option<(nat, int)> {
    match ParseMessage(payload)
    case None => None
    case Some(fields) =>
      if |fields| == 2 && fields[0].Fixed64? && fields[0].number == 1 && fields[1].Varint? && fields[1].number == 2
      then Some((fields[0].value, Signed(fields[1].value))) else None
  }

  /** Labels are field 1, repeated; the sample is field 2 and comes last. */
  function DecodeSeries(fields: seq<Field>): Option<Series> {
    if fields == [] || !fields[0].Delimited? then None
    else if fields[0].number == 2 then
      match DecodeSample(fields[0].payload)
      case None => None
      case Some((bits, timestamp)) => if |fields| == 1 then Some(Series([], bits, timestamp)) else None
    else if fields[0].number == 1 then
      match (DecodeLabel(fields[0].payload), DecodeSeries(fields[1..]))
      case (Some(pair), Some(series)) => Some(series.(labels := [pair] + series.labels))
      case _ => None
    else None
  }

  function DecodeRequest(data: Bytes): Option<Series> {
    match ParseMessage(data)
    case None => None
    case Some(fields) =>
      if |fields| == 1 && fields[0].Delimited? && fields[0].number == 1 then
        match ParseMessage(fields[0].payload)
        case None => None
        case Some(inner) => DecodeSeries(inner)
      else None
  }

  function Pairs(labels: Labels, names: seq<Text>): seq<(Text, Text)>
    requires forall i :: 0 <= i < |names| ==> names[i] in labels
  {
    seq(|names|, i requires 0 <= i < |names| => (names[i], labels[names[i]]))
  }

  lemma LabelRoundTrip(name: Text, value: Text)
    ensures DecodeLabel(EncodeMessage(LabelMessage(name, value))) == Some((name, value))
  {
    MessageRoundTrip(LabelMessage(name, value));
    TextRoundTrip(name);
    TextRoundTrip(value);
  }

  lemma SampleRoundTrip(bits: nat, timestamp: int)
    requires bits < WORD64 && -HALF64 <= timestamp < HALF64
    ensures DecodeSample(EncodeMessage(SampleMessage(bits, timestamp))) == Some((bits, timestamp))
  {
    MessageRoundTrip(SampleMessage(bits, timestamp));
  }

  lemma SeriesTail(labels: Labels, names: seq<Text>, bits: nat, timestamp: int)
    requires names != [] && (forall i :: 0 <= i < |names| ==> names[i] in labels)
    requires -HALF64 <= timestamp < HALF64
    ensures SeriesMessage(labels, names, bits, timestamp)[1..] == SeriesMessage(labels, names[1..], bits, timestamp)
    ensures SeriesMessage(labels, names, bits, timestamp)[0] == Delimited(1, EncodeMessage(LabelMessage(names[0], labels[names[0]])))
  {
    assert LabelFields(labels, names)[1..] == LabelFields(labels, names[1..]);
  }

  lemma DecodeLast(payload: Bytes, bits: nat, timestamp: int)
    requires DecodeSample(payload) == Some((bits, timestamp))
    ensures DecodeSeries([Delimited(2, payload)]) == Some(Series([], bits, timestamp))
  {
  }

  lemma DecodeFirst(fields: seq<Field>, payload: Bytes, pair: (Text, Text), series: Series)
    requires fields != [] && fields[0] == Delimited(1, payload)
    requires DecodeLabel(payload) == Some(pair) && DecodeSeries(fields[1..]) == Some(series)
    ensures DecodeSeries(fields) == Some(Series([pair] + series.labels, series.bits, series.timestamp))
  {
  }

  lemma SeriesBase(labels: Labels, bits: nat, timestamp: int)
    requires bits < WORD64 && -HALF64 <= timestamp < HALF64
    ensures DecodeSeries(SeriesMessage(labels, [], bits, timestamp)) == Some(Series([], bits, timestamp))
  {
    SampleRoundTrip(bits, timestamp);
    DecodeLast(EncodeMessage(SampleMessage(bits, timestamp)), bits, timestamp);
    assert LabelFields(labels, []) == [];
  }

  lemma SeriesStep(labels: Labels, names: seq<Text>, bits: nat, timestamp: int, series: Series)
    requires names != [] && (forall i :: 0 <= i < |names| ==> names[i] in labels)
    requires -HALF64 <= timestamp < HALF64
    requires DecodeSeries(SeriesMessage(labels, names[1..], bits, timestamp)) == Some(series)
    ensures DecodeSeries(SeriesMessage(labels, names, bits, timestamp)) ==
            Some(Series([(names[0], labels[names[0]])] + series.labels, series.bits, series.timestamp))
  {
    LabelRoundTrip(names[0], labels[names[0]]);
    SeriesTail(labels, names, bits, timestamp);
    DecodeFirst(SeriesMessage(labels, names, bits, timestamp), EncodeMessage(LabelMessage(names[0], labels[names[0]])),
                (names[0], labels[names[0]]), series);
  }

  lemma PairsTail(labels: Labels, names: seq<Text>)
    requires names != [] && (forall i :: 0 <= i < |names| ==> names[i] in labels)
    ensures Pairs(labels, names) == [(names[0], labels[names[0]])] + Pairs(labels, names[1..])
  {
  }

  lemma {:induction false} SeriesRoundTrip(labels: Labels, names: seq<Text>, bits: nat, timestamp: int)
    requires (forall i :: 0 <= i < |names| ==> names[i] in labels)
    requires bits < WORD64 && -HALF64 <= timestamp < HALF64
    ensures DecodeSeries(SeriesMessage(labels, names, bits, timestamp)) == Some(Series(Pairs(labels, names), bits, timestamp))
    decreases |names|
  {
    if names == [] {
      SeriesBase(labels, bits, timestamp);
      assert Pairs(labels, names) == [];
    } else {
      SeriesRoundTrip(labels, names[1..], bits, timestamp);
      SeriesStep(labels, names, bits, timestamp, Series(Pairs(labels, names[1..]), bits, timestamp));
      PairsTail(labels, names);
    }
  }

  /** Everything on the wire is recovered: each label in sorted order, the value's bits and the timestamp. */
  lemma RequestRoundTrip(labels: Labels, names: seq<Text>, bits: nat, timestamp: int)
    requires forall i :: 0 <= i < |names| ==> names[i] in labels
    requires bits < WORD64 && -HALF64 <= timestamp < HALF64
    ensures DecodeRequest(Request(labels, names, bits, timestamp)) == Some(Series(Pairs(labels, names), bits, timestamp))
  {
    var inner := SeriesMessage(labels, names, bits, timestamp);
    MessageRoundTrip([Delimited(1, EncodeMessage(inner))]);
    MessageRoundTrip(inner);
    SeriesRoundTrip(labels, names, bits, timestamp);
  }

  /** The whole pipeline, compressed body included, for every request the block format can carry. */
  lemma CompressedRoundTrip(labels: Labels, names: seq<Text>, bits: nat, timestamp: int)
    requires forall i :: 0 <= i < |names| ==> names[i] in labels
    requires bits < WORD64 && -HALF64 <= timestamp < HALF64
    requires |Request(labels, names, bits, timestamp)| < WORD32
    ensures var body := SnappyDecode(SnappyLiteral(Request(labels, names, bits, timestamp)));
            body.Some? && DecodeRequest(body.value) == Some(Series(Pairs(labels, names), bits, timestamp))
  {
    SnappyRoundTripExact(Request(labels, names, bits, timestamp));
    RequestRoundTrip(labels, names, bits, timestamp);
  }

  /** The recovered pairs are the label map: every label once, under its own value, and nothing else. */
  lemma PairsAreLabels(labels: Labels, names: seq<Text>)
    requires Sorted(TextLess, names) && Elements(names) == labels.Keys
    requires forall i :: 0 <= i < |names| ==> names[i] in labels
    ensures |Pairs(labels, names)| == |labels|
    ensures forall name :: name in labels ==> (name, labels[name]) in Pairs(labels, names)
    ensures forall pair :: pair in Pairs(labels, names) ==> pair.0 in labels && labels[pair.0] == pair.1
  {
    forall name | name in labels
      ensures (name, labels[name]) in Pairs(labels, names)
    {
      assert name in Elements(names);
      var i :| 0 <= i < |names| && names[i] == name;
      assert Pairs(labels, names)[i] == (name, labels[name]);
    }
    TextOrder({});
    SortedCount(names);
    assert |labels| == |labels.Keys|;
  }

  lemma {:induction false} SortedCount(names: seq<Text>)
    requires StrictOrder(TextLess) && Sorted(TextLess, names)
    ensures |Elements(names)| == |names|
  {
    if names != [] {
      TailElements(TextLess, names);
      assert Sorted(TextLess, names[1..]);
      SortedCount(names[1..]);
      assert Elements(names) == Elements(names[1..]) + {names[0]};
    }
  }

  // ---------------------------------------------------------------- the bytes of a request

  /** A length-delimited field: tag byte, length, payload. */
  function Sized(tag: byte, payload: Bytes): Bytes { [tag] + Uvarint(|payload|) + payload }

  lemma SizedField(number: nat, payload: Bytes)
    requires 8 * number + 2 < 128
    ensures EncodeField(Delimited(number, payload)) == Sized(8 * number + 2, payload)
  {
  }

  /** A label is its name under tag 0x0A and its value under tag 0x12. */
  lemma LabelLayout(name: Text, value: Text)
    ensures EncodeMessage(LabelMessage(name, value)) == Sized(0x0A, TextBytes(name)) + Sized(0x12, TextBytes(value))
  {
    EncodeTwo(Delimited(1, TextBytes(name)), Delimited(2, TextBytes(value)));
    SizedField(1, TextBytes(name));
    SizedField(2, TextBytes(value));
  }

  /** A sample is the bits of its value, least significant byte first, under tag 0x09 and its timestamp under tag 0x10. */
  lemma SampleLayout(bits: nat, timestamp: int)
    requires -HALF64 <= timestamp < HALF64
    ensures EncodeMessage(SampleMessage(bits, timestamp)) ==
              ([0x09] + LittleEndian(bits, 8)) + ([0x10] + Uvarint(if timestamp < 0 then timestamp + WORD64 else timestamp))
  {
    EncodeTwo(Fixed64(1, bits), Varint(2, Unsigned(timestamp)));
    assert Uvarint(9) == [9] && Uvarint(16) == [16];
  }

  /** The labels of a series, one after the other under tag 0x0A. */
  ghost function LabelBytes(labels: Labels, names: seq<Text>): Bytes
    requires forall i :: 0 <= i < |names| ==> names[i] in labels
  {
    if names == [] then []
    else Sized(0x0A, Sized(0x0A, TextBytes(names[0])) + Sized(0x12, TextBytes(labels[names[0]]))) + LabelBytes(labels, names[1..])
  }

  lemma {:induction false} LabelsLayout(labels: Labels, names: seq<Text>)
    requires forall i :: 0 <= i < |names| ==> names[i] in labels
    ensures EncodeMessage(LabelFields(labels, names)) == LabelBytes(labels, names)
  {
    if names != [] {
      LabelsLayout(labels, names[1..]);
      LabelLayout(names[0], labels[names[0]]);
      FirstLabel(labels, names);
    }
  }

  lemma FirstLabel(labels: Labels, names: seq<Text>)
    requires names != [] && forall i :: 0 <= i < |names| ==> names[i] in labels
    ensures EncodeMessage(LabelFields(labels, names)) ==
              Sized(0x0A, EncodeMessage(LabelMessage(names[0], labels[names[0]]))) + EncodeMessage(LabelFields(labels, names[1..]))
  {
    LabelFieldsCons(labels, names);
    ConsLayout(EncodeMessage(LabelMessage(names[0], labels[names[0]])), LabelFields(labels, names[1..]));
  }

  lemma LabelFieldsCons(labels: Labels, names: seq<Text>)
    requires names != [] && forall i :: 0 <= i < |names| ==> names[i] in labels
    ensures LabelFields(labels, names) ==
              [Delimited(1, EncodeMessage(LabelMessage(names[0], labels[names[0]])))] + LabelFields(labels, names[1..])
  {
  }

  lemma ConsLayout(pair: Bytes, rest: seq<Field>)
    ensures EncodeMessage([Delimited(1, pair)] + rest) == Sized(0x0A, pair) + EncodeMessage(rest)
  {
    EncodeCons(Delimited(1, pair), rest);
    SizedField(1, pair);
  }

  lemma EncodeOne(f: Field)
    ensures EncodeMessage([f]) == EncodeField(f)
  {
    EncodeCons(f, []);
    assert [f] + [] == [f];
  }

  /** The request, byte for byte: one series under tag 0x0A, in it the labels and then the sample under tag 0x12. */
  lemma RequestLayout(labels: Labels, names: seq<Text>, bits: nat, timestamp: int)
    requires (forall i :: 0 <= i < |names| ==> names[i] in labels) && -HALF64 <= timestamp < HALF64
    ensures var sample := ([0x09] + LittleEndian(bits, 8)) + ([0x10] + Uvarint(if timestamp < 0 then timestamp + WORD64 else timestamp));
            Request(labels, names, bits, timestamp) == Sized(0x0A, LabelBytes(labels, names) + Sized(0x12, sample))
  {
    var sample := EncodeMessage(SampleMessage(bits, timestamp));
    SampleLayout(bits, timestamp);
    LabelsLayout(labels, names);
    EncodeSnoc(LabelFields(labels, names), Delimited(2, sample));
    SizedField(2, sample);
    var series := EncodeMessage(SeriesMessage(labels, names, bits, timestamp));
    EncodeOne(Delimited(1, series));
    SizedField(1, series);
  }
}
