/** When a Kafka record gives back the event, the key and the transport headers: the binary
    report is exact up to the cases it does not look at, absent and empty data stay apart, and
    metadata beside a structured event is accepted exactly when it repeats the event. */
module KafkaRoundTrip {
  import opened Bytes
  import opened Order
  import opened Event
  import opened Conversion
  import opened Admission
  import opened Binding
  import opened KafkaBinding
  import JsonCodec
  import JsonRoundTrip
  import Utf8

  // ---------- partitioning what was written ----------

  predicate AllTransport(hs: seq<KafkaHeader>) {
    forall i :: 0 <= i < |hs| ==> IsTransportKey(hs[i].key)
  }

  /** Headers of the transport change neither the content types nor the attributes, and come
      out in their order. */
  lemma {:induction false} TransportApart(hs: seq<KafkaHeader>, transport: seq<KafkaHeader>)
    requires AllTransport(transport)
    ensures ContentTypeValues(hs + transport) == ContentTypeValues(hs)
    ensures AttributeValues(hs + transport) == AttributeValues(hs)
    ensures TransportHeaders(hs + transport) == TransportHeaders(hs) + transport
    decreases |transport|
  {
    hide CONTENT_TYPE, IsAttributeKey, NameOf, ContentTypeValues, AttributeValues, TransportHeaders;
    if transport == [] {
      assert hs + transport == hs && TransportHeaders(hs) + [] == TransportHeaders(hs);
    } else {
      var n := |transport| - 1;
      var all := hs + transport;
      TransportApart(hs, transport[..n]);
      PartitionStep(all, |hs| + n);
      assert all[..|hs| + n] == hs + transport[..n] && all[..|hs| + n + 1] == all && all[|hs| + n] == transport[n];
      assert transport[..n] + [transport[n]] == transport;
      assert TransportHeaders(hs) + transport[..n] + [transport[n]] == TransportHeaders(hs) + transport;
    }
  }

  /** Partitioning headers with distinct names. */
  lemma {:induction false} PartitionDistinct(hs: seq<KafkaHeader>)
    requires Distinct(hs)
    ensures var m := ToMap(hs);
      && ContentTypeValues(hs) == (if CONTENT_TYPE in m then [m[CONTENT_TYPE]] else [])
      && (forall n :: n in AttributeValues(hs) <==> CE + n in m)
      && (forall n :: n in AttributeValues(hs) ==> AttributeValues(hs)[n] == [m[CE + n]])
  {
    hide CONTENT_TYPE, IsAttributeKey, IsTransportKey, NameOf, ContentTypeValues, AttributeValues, TransportHeaders;
    hide ToMap, CE;
    if hs == [] {
      PartitionNothing();
      EmptyMap<Option<bytes>>();
    } else {
      var n := |hs| - 1;
      PartitionDistinct(hs[..n]);
      LastKeyNew(hs);
      ToMapAppend(hs[..n], hs[n]);
      assert hs[..n] + [hs[n]] == hs && hs[..n + 1] == hs;
      PartitionStep(hs, n);
      AddedValues(AttributeValues(hs[..n]), ToMap(hs[..n]), hs[n]);
    }
  }

  lemma AddedValues(values: map<bytes, seq<Option<bytes>>>, m: map<bytes, Option<bytes>>, h: KafkaHeader)
    requires h.key !in m && (forall n :: n in values <==> CE + n in m)
    requires forall n :: n in values ==> values[n] == [m[CE + n]]
    ensures var next := m[h.key := h.value];
      var name := NameOf(h.key);
      var all := if IsAttributeKey(h.key) then values[name := ValuesFor(values, name) + [h.value]] else values;
      && (forall n :: n in all <==> CE + n in next) && (forall n :: n in all ==> all[n] == [next[CE + n]])
  {
    hide CONTENT_TYPE, IsTransportKey, NameOf, CE, IsAttributeKey;
    if IsAttributeKey(h.key) {
      AttributeKeyName(h.key);
      SameName(NameOf(h.key));
    } else {
      forall n ensures CE + n != h.key {
        Keys(n);
      }
    }
  }

  lemma SameName(name: bytes)
    ensures forall n :: CE + n == CE + name ==> n == name
  {
    hide CE, NameOf, IsAttributeKey, CONTENT_TYPE;
    forall n | CE + n == CE + name ensures n == name {
      Keys(n);
      Keys(name);
    }
  }

  function Wrapped(m: map<bytes, bytes>): map<bytes, seq<Option<bytes>>> {
    map n | n in m :: [Some(m[n])]
  }

  lemma BoundLookup(m: map<bytes, bytes>, w: bytes)
    ensures var hs, h := BoundHeaders(m, w), AttributeHeaders(m) + ContentTypeHeader(w);
      && Distinct(hs) && ToMap(hs) == h
      && (CONTENT_TYPE in h <==> w != []) && (w != [] ==> h[CONTENT_TYPE] == Some(w))
      && (forall n :: CE + n in h <==> n in m) && (forall n :: n in m ==> h[CE + n] == Some(m[n]))
      && (forall k :: k in h ==> !IsTransportKey(k))
  {
    hide CONTENT_TYPE, CE, IsAttributeKey, NameOf, AttributeHeaders, ToMap, SortedEntries, Distinct;
    AttributeHeadersLookup(m);
    AscendingDistinct(BoundHeaders(m, w));
    var h := AttributeHeaders(m) + ContentTypeHeader(w);
    forall n ensures CE + n in h <==> n in m {
      Keys(n);
    }
    forall n | n in m ensures h[CE + n] == Some(m[n]) {
      Keys(n);
    }
  }

  lemma {:induction false} NoTransport(hs: seq<KafkaHeader>)
    requires forall i :: 0 <= i < |hs| ==> !IsTransportKey(hs[i].key)
    ensures TransportHeaders(hs) == []
  {
    hide IsTransportKey;
    if hs != [] {
      NoTransport(hs[..|hs| - 1]);
    }
  }

  /** What the decoder finds in headers that were written. */
  lemma BoundPartition(m: map<bytes, bytes>, w: bytes, transport: seq<KafkaHeader>)
    requires AllTransport(transport)
    ensures var hs := BoundHeaders(m, w) + transport;
      && ContentTypeValues(hs) == (if w == [] then [] else [Some(w)])
      && AttributeValues(hs) == Wrapped(m)
      && TransportHeaders(hs) == transport
  {
    hide CONTENT_TYPE, CE, IsTransportKey, BoundHeaders, AttributeHeaders, ContentTypeHeader, ContentTypeValues;
    hide AttributeValues, TransportHeaders, ToMap;
    var hs := BoundHeaders(m, w);
    BoundLookup(m, w);
    PartitionDistinct(hs);
    TransportApart(hs, transport);
    assert AttributeValues(hs) == Wrapped(m);
    forall i | 0 <= i < |hs| ensures !IsTransportKey(hs[i].key) {
      KeyStored(hs, i);
    }
    NoTransport(hs);
    assert [] + transport == transport;
  }

  // ---------- where the parts of a record come from ----------

  lemma {:induction false} ContentTypeFrom(hs: seq<KafkaHeader>, v: Option<bytes>)
    requires v in ContentTypeValues(hs)
    ensures Entry(CONTENT_TYPE, v) in hs
  {
    hide CONTENT_TYPE;
    var n := |hs| - 1;
    if v in ContentTypeValues(hs[..n]) {
      ContentTypeFrom(hs[..n], v);
    }
  }

  lemma {:induction false} AttributeFrom(hs: seq<KafkaHeader>, name: bytes, v: Option<bytes>)
    requires name in AttributeValues(hs) && v in AttributeValues(hs)[name]
    ensures Entry(CE + name, v) in hs
  {
    hide CE, IsAttributeKey, NameOf;
    var n := |hs| - 1;
    var before := AttributeValues(hs[..n]);
    if name in before && v in before[name] {
      AttributeFrom(hs[..n], name, v);
    } else {
      assert IsAttributeKey(hs[n].key) && NameOf(hs[n].key) == name && hs[n].value == v;
      AttributeKeyName(hs[n].key);
      assert hs[n] == Entry(CE + name, v);
    }
  }

  lemma {:induction false} TransportFrom(hs: seq<KafkaHeader>, h: KafkaHeader)
    requires h in TransportHeaders(hs)
    ensures h in hs && IsTransportKey(h.key)
  {
    hide IsTransportKey;
    var n := |hs| - 1;
    if h in TransportHeaders(hs[..n]) {
      TransportFrom(hs[..n], h);
    }
  }

  // ---------- admission ----------

  predicate SizesFit(hs: seq<KafkaHeader>, limits: Limits) {
    forall i :: 0 <= i < |hs| ==>
      |hs[i].key| <= limits.maxKafkaHeaderNameBytes && |BytesOf(hs[i].value)| <= limits.maxKafkaHeaderValueBytes
  }

  predicate NamesUtf8(hs: seq<KafkaHeader>) {
    forall i :: 0 <= i < |hs| ==> Utf8.Valid(hs[i].key)
  }

  predicate NamesValid(m: map<bytes, bytes>) {
    forall n :: n in m ==> ValidName(n)
  }

  lemma BoundNamesUtf8(m: map<bytes, bytes>, w: bytes)
    requires NamesValid(m)
    ensures NamesUtf8(BoundHeaders(m, w))
  {
    hide CONTENT_TYPE, CE, BoundHeaders, AttributeHeaders, NameOf, ToMap, Utf8.Valid, ValidName;
    var hs := BoundHeaders(m, w);
    BoundLookup(m, w);
    AttributeHeadersLookup(m);
    forall i | 0 <= i < |hs| ensures Utf8.Valid(hs[i].key) {
      KeyStored(hs, i);
      var k := hs[i].key;
      if k == CONTENT_TYPE {
        ContentTypeUtf8();
      } else {
        AttributeKeyUtf8(NameOf(k));
      }
    }
  }

  lemma ContentTypeUtf8()
    ensures Utf8.Valid(CONTENT_TYPE)
  {
    hide Utf8.Valid;
    Utf8.ValidAscii(CONTENT_TYPE);
  }

  lemma AttributeKeyUtf8(name: bytes)
    requires ValidName(name)
    ensures Utf8.Valid(CE + name)
  {
    hide Utf8.Valid;
    Utf8.ValidAscii(CE + name);
  }

  lemma BoundAdmitted(m: map<bytes, bytes>, w: bytes, transport: seq<KafkaHeader>, limits: Limits)
    ensures var hs := BoundHeaders(m, w) + transport;
      && (HeadersAdmitted(hs, limits) ==> SizesFit(hs, limits) && NamesUtf8(transport))
      && (NamesValid(m) && SizesFit(hs, limits) && NamesUtf8(transport) ==> HeadersAdmitted(hs, limits))
  {
    hide BoundHeaders, NamesValid, Utf8.Valid;
    var bound := BoundHeaders(m, w);
    var hs := bound + transport;
    if HeadersAdmitted(hs, limits) {
      forall i | 0 <= i < |transport| ensures Utf8.Valid(transport[i].key) {
        assert hs[|bound| + i] == transport[i] && HeaderAdmitted(hs[|bound| + i], limits);
      }
    }
    if NamesValid(m) && SizesFit(hs, limits) && NamesUtf8(transport) {
      BoundNamesUtf8(m, w);
      forall i | 0 <= i < |hs| ensures HeaderAdmitted(hs[i], limits) {
        assert hs[i] == if i < |bound| then bound[i] else transport[i - |bound|];
      }
    }
  }

  lemma WrappedTexts(m: map<bytes, bytes>, limits: Limits)
    requires m != map[]
    ensures |Wrapped(m)| == |m| && SingleTexts(Wrapped(m)) == m
    ensures ValuesDecode(Wrapped(m), limits) <==> AllUtf8(m) && EachAdmitted(m, limits)
  {
    hide Utf8.Valid;
    var v := Wrapped(m);
    assert v.Keys == m.Keys;
    assert |v| == |v.Keys| && |m| == |m.Keys|;
    forall n | n in m ensures ValueDecodes(n, v[n], limits) <==>
      && 0 < limits.maxAttributeNameBytes && |n| <= limits.maxAttributeNameBytes
      && 0 < limits.maxAttributeValueBytes && |m[n]| <= limits.maxAttributeValueBytes && Utf8.Valid(m[n])
    {
    }
    if ValuesDecode(v, limits) {
      forall n | n in m ensures ValueDecodes(n, v[n], limits) {
      }
    }
  }

  // ---------- binary mode ----------

  /** The record of an event, with headers of the transport after those of the binding. */
  ghost function BinaryRecord(env: Env, e: Event, key: Option<bytes>, transport: seq<KafkaHeader>): KafkaRecord {
    KafkaRecord(key, EncodedValue(e.data), EncodedHeaders(env, e) + transport)
  }

  /** What the report does not look at. Unlike in HTTP the content type must be UTF-8, and
      absent data may have one. */
  predicate KafkaFaithful(env: Env, e: Event) {
    && (e.attributes.dataContentType != [] ==> ModeOf(env, e.attributes.dataContentType) == Some(BinaryMode))
    && (e.data.Present? && e.data.kind == TextData ==> !IsJsonMediaType(env, e.attributes.dataContentType))
    && JsonRoundTrip.Faithful(env, e.attributes)
  }

  ghost predicate KafkaAdmits(env: Env, e: Event, key: Option<bytes>, transport: seq<KafkaHeader>, limits: Limits) {
    var record := BinaryRecord(env, e, key, transport);
    && RecordAdmitted(record, limits) && SizesFit(record.headers, limits)
    && TextsAdmitted(ContextTexts(env, e.attributes), limits)
    && |BytesOf(record.value)| <= limits.maxDataBytes
  }

  lemma KafkaDataExact(env: Env, e: Event, contentType: bytes, limits: Limits)
    requires ValidData(e.data) && 0 < limits.maxDataBytes
    ensures KafkaData(env, contentType, EncodedValue(e.data), limits) == Some(e.data) <==>
      && |BytesOf(EncodedValue(e.data))| <= limits.maxDataBytes
      && (e.data.Present? ==> KindMatches(env, e.data.kind, contentType))
      && (e.data.Present? && e.data.kind == TextData ==> !IsJsonMediaType(env, contentType))
  {
    hide DataByContentType, IsJsonMediaType, IsTextMediaType, KindMatches;
    if e.data.Present? {
      DataKindExact(env, contentType, e.data.kind, e.data.bytes);
    }
  }

  lemma ContextNames(env: Env, a: Attributes)
    requires ValidAttributes(env, a)
    ensures NamesValid(ContextTexts(env, a))
  {
    hide ContextTexts, ValidAttributes, ValidName;
    ContextFacts(env, a);
  }

  /** Decoding a binary record, in terms of what was encoded. */
  lemma BinaryDecoded(env: Env, e: Event, key: Option<bytes>, transport: seq<KafkaHeader>, limits: Limits)
    requires ValidEvent(env, e) && AllTransport(transport)
    ensures var decoded := DecodedKafka(env, BinaryRecord(env, e, key, transport), limits);
      decoded == Some(KafkaMessage(BinaryMode, e, key, transport)) <==>
      var w, m, record := SentContentType(e), ContextTexts(env, e.attributes), BinaryRecord(env, e, key, transport);
      && RecordAdmitted(record, limits) && SizesFit(record.headers, limits) && NamesUtf8(transport)
      && (w != [] ==> Utf8.Valid(w) && ModeOf(env, w) == Some(BinaryMode))
      && AllUtf8(m) && TextsAdmitted(m, limits)
      && Assemble(env, m, w, KafkaData(env, w, EncodedValue(e.data), limits)) == Some(e)
  {
    hide ContextTexts, ValidAttributes, ValidData, SentContentType, BoundHeaders, HeadersAdmitted, SizesFit, NamesUtf8;
    hide ModeOf, AllUtf8, Assemble, KafkaData, EncodedValue, ContentTypeValues, AttributeValues, TransportHeaders;
    hide Wrapped, ValuesDecode, SingleTexts, AllTransport, NamesValid, DATACONTENTTYPE, Utf8.Valid;
    hide JsonCodec.DecodeText, EachAdmitted, RecordAdmitted;
    var w, m := SentContentType(e), ContextTexts(env, e.attributes);
    ContextNames(env, e.attributes);
    assert DATACONTENTTYPE !in m && m != map[] by { ContextFacts(env, e.attributes); }
    BoundPartition(m, w, transport);
    BoundAdmitted(m, w, transport, limits);
    WrappedTexts(m, limits);
    assert DATACONTENTTYPE !in Wrapped(m) by { WrappedKeys(m); }
  }

  lemma WrappedKeys(m: map<bytes, bytes>)
    ensures Wrapped(m).Keys == m.Keys
  {
  }

  /** The binary report is exact. For every valid event, key and transport headers, and all
      limits: encoding in binary mode, adding the transport headers and decoding gives back
      the event, the key (nil or not) and exactly the transport headers, if and only if the
      report is empty, none of the cases it does not look at applies, the transport names are
      UTF-8 and the limits admit the record. */
  lemma KafkaBinaryExact(env: Env, e: Event, key: Option<bytes>, transport: seq<KafkaHeader>, limits: Limits)
    requires ValidEvent(env, e) && AsciiTime(env, e.attributes.time) && AllTransport(transport)
    ensures var decoded := DecodedKafka(env, BinaryRecord(env, e, key, transport), limits);
      decoded == Some(KafkaMessage(BinaryMode, e, key, transport)) <==>
      && BinaryReport(env, e) == [] && KafkaFaithful(env, e)
      && NamesUtf8(transport) && KafkaAdmits(env, e, key, transport, limits)
  {
    hide DecodedKafka, BinaryReport, ContextTexts, ValidAttributes, ModeOf, Assemble, KafkaData, KindMatches;
    hide AllTransport, NamesUtf8, AllUtf8, TextsAdmitted, SizesFit, IsJsonMediaType, Utf8.Valid, AsciiTime, ValidData;
    hide EncodedHeaders;
    var w, ct := SentContentType(e), e.attributes.dataContentType;
    BinaryDecoded(env, e, key, transport, limits);
    AssembleExact(env, e, w, KafkaData(env, w, EncodedValue(e.data), limits));
    BinaryReportEmpty(env, e);
    JsonRoundTrip.EmptyUtf8();
    if AllStrings(e.attributes.extensions) {
      StringContextUtf8(env, e.attributes);
    }
    if 0 < limits.maxDataBytes {
      KafkaDataExact(env, e, ct, limits);
    }
  }

  // ---------- structured mode ----------

  lemma {:induction false} ValueListed(hs: seq<KafkaHeader>, i: nat)
    requires i < |hs| && IsAttributeKey(hs[i].key)
    ensures var values := AttributeValues(hs); NameOf(hs[i].key) in values && hs[i].value in values[NameOf(hs[i].key)]
  {
    hide IsAttributeKey, NameOf, CE, CONTENT_TYPE;
    var n := |hs| - 1;
    if i < n {
      ValueListed(hs[..n], i);
    }
  }

  lemma {:induction false} ListedTwice(hs: seq<KafkaHeader>, i: nat, j: nat)
    requires i < j < |hs| && hs[i].key == hs[j].key && IsAttributeKey(hs[i].key)
    ensures NameOf(hs[i].key) in AttributeValues(hs) && |AttributeValues(hs)[NameOf(hs[i].key)]| >= 2
  {
    hide IsAttributeKey, NameOf, CE, CONTENT_TYPE;
    var n := |hs| - 1;
    if j < n {
      ListedTwice(hs[..n], i, j);
    } else {
      ValueListed(hs[..n], i);
    }
  }

  /** An accepted structured record carries, besides its event, only metadata headers with
      that event's own texts, and none twice. */
  lemma StructuredMetadataSound(env: Env, record: KafkaRecord, limits: Limits, e: Event, key: Option<bytes>,
      transport: seq<KafkaHeader>)
    requires DecodedKafka(env, record, limits) == Some(KafkaMessage(StructuredMode, e, key, transport))
    ensures key == record.key && transport == TransportHeaders(record.headers)
    ensures record.value.Some? && JsonCodec.DecodeText(env, record.value.value, limits) == Some(e)
    ensures forall i :: 0 <= i < |record.headers| && IsAttributeKey(record.headers[i].key) ==>
      var name, expected := NameOf(record.headers[i].key), ExpectedTexts(env, e.attributes);
      name in expected && BytesOf(record.headers[i].value) == expected[name]
    ensures forall i, j :: 0 <= i < j < |record.headers| && IsAttributeKey(record.headers[i].key) ==>
      record.headers[i].key != record.headers[j].key
  {
    hide IsAttributeKey, NameOf, CE, CONTENT_TYPE, ExpectedTexts, JsonCodec.DecodeText, AttributeValues;
    hide TransportHeaders, Detect, HeadersAdmitted, RecordAdmitted, DecodedBinary, Utf8.Valid;
    var hs, expected := record.headers, ExpectedTexts(env, e.attributes);
    var values := AttributeValues(hs);
    assert MetadataAgrees(expected, values, limits);
    forall i | 0 <= i < |hs| && IsAttributeKey(hs[i].key)
      ensures NameOf(hs[i].key) in expected && BytesOf(hs[i].value) == expected[NameOf(hs[i].key)]
    {
      ValueListed(hs, i);
      assert MetadataValueOk(expected, NameOf(hs[i].key), values[NameOf(hs[i].key)], limits);
    }
    forall i, j | 0 <= i < j < |hs| && IsAttributeKey(hs[i].key) ensures hs[i].key != hs[j].key {
      if hs[i].key == hs[j].key {
        ListedTwice(hs, i, j);
      }
    }
  }

  /** A structured record with metadata headers and headers of the transport. */
  ghost function StructuredRecord(env: Env, e: Event, m: map<bytes, bytes>, key: Option<bytes>,
      transport: seq<KafkaHeader>): KafkaRecord {
    KafkaRecord(key, Some(JsonCodec.EncodedText(env, e)), BoundHeaders(m, JSON_MEDIA_TYPE) + transport)
  }

  lemma StructuredSelected(env: Env)
    requires env.mediaType(JSON_MEDIA_TYPE) == Some(JSON_MEDIA_TYPE)
    ensures ModeOf(env, JSON_MEDIA_TYPE) == Some(StructuredMode) && JSON_MEDIA_TYPE != [] && Utf8.Valid(JSON_MEDIA_TYPE)
  {
    hide Utf8.Valid;
    Utf8.ValidAscii(JSON_MEDIA_TYPE);
  }

  lemma StructuredDecoded(env: Env, e: Event, m: map<bytes, bytes>, key: Option<bytes>, transport: seq<KafkaHeader>,
      limits: Limits)
    requires env.mediaType(JSON_MEDIA_TYPE) == Some(JSON_MEDIA_TYPE) && AllTransport(transport)
    ensures var record := StructuredRecord(env, e, m, key, transport);
      DecodedKafka(env, record, limits) == Some(KafkaMessage(StructuredMode, e, key, transport)) <==>
        && RecordAdmitted(record, limits) && HeadersAdmitted(record.headers, limits)
        && |JsonCodec.EncodedText(env, e)| <= limits.maxEventBytes
        && JsonCodec.DecodeText(env, JsonCodec.EncodedText(env, e), limits) == Some(e)
        && MetadataAgrees(ExpectedTexts(env, e.attributes), Wrapped(m), limits)
  {
    hide BoundHeaders, HeadersAdmitted, ModeOf, ContentTypeValues, AttributeValues, TransportHeaders, Wrapped;
    hide AllTransport, Utf8.Valid, RecordAdmitted, JsonCodec.DecodeText, JsonCodec.EncodedText, MetadataAgrees;
    hide ExpectedTexts, DecodedBinary;
    StructuredSelected(env);
    hide Ascii;
    BoundPartition(m, JSON_MEDIA_TYPE, transport);
  }

  lemma MetadataExact(env: Env, e: Event, m: map<bytes, bytes>, limits: Limits)
    requires ValidEvent(env, e) && AsciiTime(env, e.attributes.time)
    requires JsonLossless(env, e) && JsonRoundTrip.Faithful(env, e.attributes)
    requires JsonRoundTrip.ContextFits(env, e.attributes, limits)
    ensures MetadataAgrees(ExpectedTexts(env, e.attributes), Wrapped(m), limits) <==>
      Repeats(m, ExpectedTexts(env, e.attributes)) && NamesFit(m, limits)
  {
    hide ExpectedTexts, ValidEvent, AsciiTime, JsonLossless, JsonRoundTrip.Faithful, ContextTexts, Utf8.Valid;
    var expected, v := ExpectedTexts(env, e.attributes), Wrapped(m);
    ExpectedFacts(env, e, limits);
    WrappedKeys(m);
    assert |v| == |v.Keys| && |m| == |m.Keys|;
    if MetadataAgrees(expected, v, limits) {
      forall n | n in m ensures n in expected && m[n] == expected[n] && |n| <= limits.maxAttributeNameBytes {
        assert MetadataValueOk(expected, n, v[n], limits);
      }
    }
    if Repeats(m, expected) && NamesFit(m, limits) {
      RepeatsSize(env, e.attributes, m);
      forall n | n in v ensures MetadataValueOk(expected, n, v[n], limits) {
        assert n in m && n != [];
      }
    }
  }

  lemma RepeatedNames(env: Env, a: Attributes, m: map<bytes, bytes>)
    requires ValidAttributes(env, a) && Repeats(m, ExpectedTexts(env, a))
    ensures NamesValid(m)
  {
    hide ContextTexts, ValidAttributes, ValidName, DATACONTENTTYPE;
    ContextFacts(env, a);
    assert ValidName(DATACONTENTTYPE) by { ContentTypeNameValid(); }
  }

  lemma ContentTypeNameValid()
    ensures ValidName(DATACONTENTTYPE)
  {
  }

  /** Headers listed in any order: no attribute twice, each with the event's own text. */
  predicate HeadersRepeat(expected: map<bytes, bytes>, hs: seq<KafkaHeader>, limits: Limits) {
    && NoneTwice(hs)
    && forall i :: 0 <= i < |hs| && IsAttributeKey(hs[i].key) ==> HeaderRepeats(expected, hs[i], limits)
  }

  predicate NoneTwice(hs: seq<KafkaHeader>) {
    forall i, j :: 0 <= i < j < |hs| && IsAttributeKey(hs[i].key) ==> hs[i].key != hs[j].key
  }

  predicate HeaderRepeats(expected: map<bytes, bytes>, h: KafkaHeader, limits: Limits) {
    var name := NameOf(h.key);
    name in expected && BytesOf(h.value) == expected[name] && |name| <= limits.maxAttributeNameBytes
  }

  lemma {:induction false} ListedOnce(hs: seq<KafkaHeader>)
    requires NoneTwice(hs)
    ensures forall n :: n in AttributeValues(hs) ==> |AttributeValues(hs)[n]| == 1
  {
    hide IsAttributeKey, NameOf, CE, CONTENT_TYPE, AttributeValues, ContentTypeValues, TransportHeaders;
    if hs == [] {
      PartitionNothing();
    } else {
      var n := |hs| - 1;
      ListedOnce(hs[..n]);
      PartitionStep(hs, n);
      assert hs[..n + 1] == hs;
      var name, before := NameOf(hs[n].key), AttributeValues(hs[..n]);
      if IsAttributeKey(hs[n].key) && name in before {
        AttributeFrom(hs[..n], name, before[name][0]);
        AttributeKeyName(hs[n].key);
      }
    }
  }

  /** The values by name agree with the event exactly when the headers repeat it. */
  lemma HeadersRepeatMeaning(env: Env, e: Event, hs: seq<KafkaHeader>, limits: Limits)
    requires ValidEvent(env, e) && AsciiTime(env, e.attributes.time)
    requires JsonLossless(env, e) && JsonRoundTrip.Faithful(env, e.attributes)
    requires JsonRoundTrip.ContextFits(env, e.attributes, limits)
    ensures MetadataAgrees(ExpectedTexts(env, e.attributes), AttributeValues(hs), limits) <==>
      HeadersRepeat(ExpectedTexts(env, e.attributes), hs, limits)
  {
    hide ExpectedTexts, ValidEvent, AsciiTime, JsonLossless, JsonRoundTrip.Faithful, JsonRoundTrip.ContextFits;
    hide IsAttributeKey, NameOf, AttributeValues, Utf8.Valid;
    var expected := ExpectedTexts(env, e.attributes);
    ExpectedFacts(env, e, limits);
    if MetadataAgrees(expected, AttributeValues(hs), limits) {
      AgreementRepeats(expected, hs, limits);
    }
    if HeadersRepeat(expected, hs, limits) {
      RepeatsAgree(expected, hs, limits);
      RepeatsSize(env, e.attributes, SingleTexts(AttributeValues(hs)));
      assert |SingleTexts(AttributeValues(hs))| == |AttributeValues(hs)| by { SingleTextsSize(AttributeValues(hs)); }
      ContextRoom(env, e.attributes, limits);
    }
  }

  lemma ContextRoom(env: Env, a: Attributes, limits: Limits)
    requires JsonRoundTrip.ContextFits(env, a, limits)
    ensures |ContextTexts(env, a)| + (if a.dataContentType == [] then 0 else 1) <= limits.maxAttributes
  {
    hide ContextTexts;
  }

  lemma SingleTextsSize(m: map<bytes, seq<Option<bytes>>>)
    ensures |SingleTexts(m)| == |m|
  {
    assert SingleTexts(m).Keys == m.Keys && |m| == |m.Keys| && |SingleTexts(m)| == |SingleTexts(m).Keys|;
  }

  lemma AgreementRepeats(expected: map<bytes, bytes>, hs: seq<KafkaHeader>, limits: Limits)
    requires MetadataAgrees(expected, AttributeValues(hs), limits)
    ensures HeadersRepeat(expected, hs, limits)
  {
    hide IsAttributeKey, NameOf, AttributeValues, Utf8.Valid;
    var values := AttributeValues(hs);
    forall i | 0 <= i < |hs| && IsAttributeKey(hs[i].key) ensures HeaderRepeats(expected, hs[i], limits) {
      ValueListed(hs, i);
      assert MetadataValueOk(expected, NameOf(hs[i].key), values[NameOf(hs[i].key)], limits);
    }
    forall i, j | 0 <= i < j < |hs| && IsAttributeKey(hs[i].key) ensures hs[i].key != hs[j].key {
      if hs[i].key == hs[j].key {
        ListedTwice(hs, i, j);
      }
    }
  }

  lemma RepeatsAgree(expected: map<bytes, bytes>, hs: seq<KafkaHeader>, limits: Limits)
    requires HeadersRepeat(expected, hs, limits) && AllUtf8(expected) && 0 < limits.maxAttributeValueBytes
    requires forall n :: n in expected ==> n != [] && |expected[n]| <= limits.maxAttributeValueBytes
    ensures var m := AttributeValues(hs);
      && (forall n :: n in m ==> MetadataValueOk(expected, n, m[n], limits)) && Repeats(SingleTexts(m), expected)
  {
    hide IsAttributeKey, NameOf, AttributeValues, Utf8.Valid, CE, CONTENT_TYPE;
    var m := AttributeValues(hs);
    ListedOnce(hs);
    forall n | n in m ensures MetadataValueOk(expected, n, m[n], limits) {
      AttributeFrom(hs, n, m[n][0]);
      var i :| 0 <= i < |hs| && hs[i] == Entry(CE + n, m[n][0]);
      Keys(n);
      assert HeaderRepeats(expected, hs[i], limits);
    }
  }

  /** The content type in the list selects structured mode. */
  predicate SelectsStructured(env: Env, hs: seq<KafkaHeader>) {
    var values := ContentTypeValues(hs);
    |values| == 1 && Utf8.Valid(BytesOf(values[0])) && ModeOf(env, BytesOf(values[0])) == Some(StructuredMode)
  }

  /** Structured records, exactly: for any headers in any order and any key, the record is
      accepted and yields event, key and transport headers if and only if the event survives
      the JSON format, the content type selects structured mode, the metadata repeats the
      event's own texts, and the limits admit the record. */
  lemma KafkaStructuredExact(env: Env, e: Event, key: Option<bytes>, hs: seq<KafkaHeader>, limits: Limits)
    requires ValidEvent(env, e) && AsciiTime(env, e.attributes.time)
    ensures var record := KafkaRecord(key, Some(JsonCodec.EncodedText(env, e)), hs);
      DecodedKafka(env, record, limits) == Some(KafkaMessage(StructuredMode, e, key, TransportHeaders(hs))) <==>
        && JsonReport(env, e) == [] && JsonRoundTrip.Faithful(env, e.attributes)
        && JsonRoundTrip.JsonAdmits(env, e, limits)
        && RecordAdmitted(record, limits) && HeadersAdmitted(hs, limits)
        && SelectsStructured(env, hs) && HeadersRepeat(ExpectedTexts(env, e.attributes), hs, limits)
  {
    hide JsonCodec.EncodedText, JsonCodec.DecodeText, MetadataAgrees, ExpectedTexts, HeadersAdmitted, ValidEvent;
    hide JsonReport, JsonLossless, AsciiTime, JsonRoundTrip.Faithful, JsonRoundTrip.ContextFits, JsonRoundTrip.DataFits;
    hide HeadersRepeat, RecordAdmitted, ContentTypeValues, AttributeValues, TransportHeaders, ModeOf, Utf8.Valid;
    hide DecodedBinary;
    JsonRoundTrip.JsonReportExact(env, e, limits);
    JsonReportEmpty(env, e);
    if JsonReport(env, e) == [] && JsonRoundTrip.Faithful(env, e.attributes)
       && JsonRoundTrip.JsonAdmits(env, e, limits) {
      HeadersRepeatMeaning(env, e, hs, limits);
    }
  }

  /** The same for headers as the encoder writes them, in terms of the texts they carry, with
      transport headers behind them. */
  lemma StructuredWrittenExact(env: Env, e: Event, m: map<bytes, bytes>, key: Option<bytes>,
      transport: seq<KafkaHeader>, limits: Limits)
    requires ValidEvent(env, e) && AsciiTime(env, e.attributes.time) && AllTransport(transport)
    requires env.mediaType(JSON_MEDIA_TYPE) == Some(JSON_MEDIA_TYPE)
    ensures var record := StructuredRecord(env, e, m, key, transport);
      DecodedKafka(env, record, limits) == Some(KafkaMessage(StructuredMode, e, key, transport)) <==>
        && JsonReport(env, e) == [] && JsonRoundTrip.Faithful(env, e.attributes)
        && JsonRoundTrip.JsonAdmits(env, e, limits)
        && RecordAdmitted(record, limits) && SizesFit(record.headers, limits) && NamesUtf8(transport)
        && Repeats(m, ExpectedTexts(env, e.attributes)) && NamesFit(m, limits)
  {
    hide DecodedKafka, JsonCodec.EncodedText, JsonCodec.DecodeText, MetadataAgrees, ExpectedTexts, HeadersAdmitted;
    hide ValidAttributes, ValidData, JsonReport, JsonLossless, AsciiTime, JsonRoundTrip.Faithful;
    hide JsonRoundTrip.ContextFits, JsonRoundTrip.DataFits, Repeats, NamesFit, BoundHeaders, SizesFit, NamesUtf8;
    hide RecordAdmitted, AllTransport, Wrapped, NamesValid, Ascii;
    StructuredDecoded(env, e, m, key, transport, limits);
    BoundAdmitted(m, JSON_MEDIA_TYPE, transport, limits);
    JsonRoundTrip.JsonReportExact(env, e, limits);
    JsonReportEmpty(env, e);
    if JsonReport(env, e) == [] && JsonRoundTrip.Faithful(env, e.attributes)
       && JsonRoundTrip.JsonAdmits(env, e, limits) {
      MetadataExact(env, e, m, limits);
    }
    if Repeats(m, ExpectedTexts(env, e.attributes)) {
      RepeatedNames(env, e.attributes, m);
    }
  }

  /** In particular every metadata header of the binary encoding may be attached. */
  lemma BinaryMetadataAttached(env: Env, e: Event, key: Option<bytes>, transport: seq<KafkaHeader>, limits: Limits)
    requires ValidEvent(env, e) && AsciiTime(env, e.attributes.time) && AllTransport(transport) && NamesUtf8(transport)
    requires env.mediaType(JSON_MEDIA_TYPE) == Some(JSON_MEDIA_TYPE)
    requires JsonReport(env, e) == [] && JsonRoundTrip.Faithful(env, e.attributes)
    requires JsonRoundTrip.JsonAdmits(env, e, limits)
    requires NamesFit(ContextTexts(env, e.attributes), limits)
    requires var record := StructuredRecord(env, e, ContextTexts(env, e.attributes), key, transport);
      RecordAdmitted(record, limits) && SizesFit(record.headers, limits)
    ensures DecodedKafka(env, StructuredRecord(env, e, ContextTexts(env, e.attributes), key, transport), limits)
      == Some(KafkaMessage(StructuredMode, e, key, transport))
  {
    hide DecodedKafka, StructuredRecord, JsonReport, JsonRoundTrip.Faithful, JsonRoundTrip.JsonAdmits, NamesFit;
    hide RecordAdmitted, SizesFit, ValidEvent, AsciiTime, AllTransport, NamesUtf8, ContextTexts, Ascii;
    assert Repeats(ContextTexts(env, e.attributes), ExpectedTexts(env, e.attributes)) by { ContextRepeats(env, e); }
    StructuredWrittenExact(env, e, ContextTexts(env, e.attributes), key, transport, limits);
  }

  lemma ContextRepeats(env: Env, e: Event)
    requires ValidEvent(env, e)
    ensures Repeats(ContextTexts(env, e.attributes), ExpectedTexts(env, e.attributes))
  {
    hide ContextTexts, ValidAttributes, ValidData, DATACONTENTTYPE, ValidName;
    ContextFacts(env, e.attributes);
  }

  /** What the structured encoder writes is such a record without metadata. */
  lemma NoMetadata()
    ensures BoundHeaders(map[], JSON_MEDIA_TYPE) == [Entry(CONTENT_TYPE, Some(JSON_MEDIA_TYPE))]
  {
    hide CONTENT_TYPE, SortedEntries, CE, NameOf;
    assert JSON_MEDIA_TYPE != [] by { assert |JSON_MEDIA_TYPE| == 28; }
    hide Ascii;
    assert AttributeHeaders(map[]) == map[];
    assert map[] + ContentTypeHeader(JSON_MEDIA_TYPE) == map[CONTENT_TYPE := Some(JSON_MEDIA_TYPE)];
    SingleEntry(Entry(CONTENT_TYPE, Some(JSON_MEDIA_TYPE)));
  }

  lemma SingleEntry(h: KafkaHeader)
    ensures SortedEntries(map[h.key := h.value]) == [h]
  {
    hide SortedEntries, ToMap;
    EmptyMap<Option<bytes>>();
    ToMapAppend([], h);
    assert [] + [h] == [h];
    SortedEntriesAre([h]);
  }
}
