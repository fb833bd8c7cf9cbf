/** Decoding a Kafka binary record normalises it once. */
module KafkaNormal {
  import opened Bytes
  import opened Order
  import opened Event
  import opened Conversion
  import opened Admission
  import opened Binding
  import opened BinaryNormal
  import opened KafkaBinding
  import opened KafkaRoundTrip
  import JsonCodec
  import JsonNormal
  import JsonRoundTrip
  import Utf8

  // ---------- what is sent again ----------

  /** Every header goes to one place only. */
  lemma {:induction false} PartsCount(hs: seq<KafkaHeader>)
    ensures |ContentTypeValues(hs)| + |AttributeValues(hs)| + |TransportHeaders(hs)| <= |hs|
  {
    hide CONTENT_TYPE, IsAttributeKey, NameOf, ContentTypeValues, AttributeValues, TransportHeaders, ValuesFor;
    if hs == [] {
      PartitionNothing();
    } else {
      var n := |hs| - 1;
      PartsCount(hs[..n]);
      PartitionStep(hs, n);
      assert hs[..n + 1] == hs;
      Keys([]);
    }
  }

  lemma {:induction false} KeyCount(names: set<bytes>)
    ensures |set n | n in names :: CE + n| <= |names|
  {
    hide CE;
    if names != {} {
      var n :| n in names;
      KeyCount(names - {n});
      assert (set x | x in names :: CE + x) == (set x | x in names - {n} :: CE + x) + {CE + n};
    }
  }

  lemma AttributeHeaderCount(m: map<bytes, bytes>)
    ensures |AttributeHeaders(m)| <= |m|
  {
    hide CE, CONTENT_TYPE, NameOf, IsAttributeKey, AttributeHeaders;
    KeyCount(m.Keys);
    AttributeHeadersLookup(m);
    assert AttributeHeaders(m).Keys == set n | n in m.Keys :: CE + n;
    assert |m| == |m.Keys| && |AttributeHeaders(m)| == |AttributeHeaders(m).Keys|;
  }

  lemma UnionCount(a: map<bytes, Option<bytes>>, b: map<bytes, Option<bytes>>)
    ensures |a + b| <= |a| + |b|
  {
    assert (a + b).Keys == a.Keys + b.Keys;
    assert |a + b| == |(a + b).Keys| && |a| == |a.Keys| && |b| == |b.Keys|;
  }

  lemma BoundCount(m: map<bytes, bytes>, w: bytes)
    ensures |BoundHeaders(m, w)| <= |m| + if w == [] then 0 else 1
  {
    hide CE, CONTENT_TYPE, ToMap, BoundHeaders, AttributeHeaders, IsTransportKey;
    BoundLookup(m, w);
    ToMapSize(BoundHeaders(m, w));
    AttributeHeaderCount(m);
    UnionCount(AttributeHeaders(m), ContentTypeHeader(w));
  }

  predicate HeaderFits(h: KafkaHeader, limits: Limits) {
    |h.key| <= limits.maxKafkaHeaderNameBytes && |BytesOf(h.value)| <= limits.maxKafkaHeaderValueBytes
  }

  predicate EachFits(m: map<bytes, Option<bytes>>, limits: Limits) {
    forall k :: k in m ==> HeaderFits(Entry(k, m[k]), limits)
  }

  lemma SizesByMap(hs: seq<KafkaHeader>, limits: Limits)
    requires Distinct(hs)
    ensures SizesFit(hs, limits) <==> EachFits(ToMap(hs), limits)
  {
    hide ToMap;
    forall i | 0 <= i < |hs| ensures hs[i].key in ToMap(hs) && ToMap(hs)[hs[i].key] == hs[i].value {
      ValueStored(hs, i);
    }
    if SizesFit(hs, limits) {
      forall k | k in ToMap(hs) ensures HeaderFits(Entry(k, ToMap(hs)[k]), limits) {
        var i := KeyAt(hs, k);
      }
    }
    if EachFits(ToMap(hs), limits) {
      forall i | 0 <= i < |hs| ensures HeaderFits(hs[i], limits) {
        assert HeaderFits(Entry(hs[i].key, ToMap(hs)[hs[i].key]), limits);
      }
    }
  }

  lemma AttributesFit(m: map<bytes, bytes>, limits: Limits)
    ensures EachFits(AttributeHeaders(m), limits) <==>
      forall n :: n in m ==> HeaderFits(Entry(CE + n, Some(m[n])), limits)
  {
    hide CE, CONTENT_TYPE, NameOf, AttributeHeaders, IsAttributeKey, HeaderFits;
    AttributeHeadersLookup(m);
    if forall n :: n in m ==> HeaderFits(Entry(CE + n, Some(m[n])), limits) {
      forall k | k in AttributeHeaders(m) ensures HeaderFits(Entry(k, AttributeHeaders(m)[k]), limits) {
        assert HeaderFits(Entry(CE + NameOf(k), Some(m[NameOf(k)])), limits);
      }
    }
  }

  lemma BoundFits(m: map<bytes, bytes>, w: bytes, limits: Limits)
    ensures SizesFit(BoundHeaders(m, w), limits) <==>
      && (w != [] ==> HeaderFits(Entry(CONTENT_TYPE, Some(w)), limits))
      && forall n :: n in m ==> HeaderFits(Entry(CE + n, Some(m[n])), limits)
  {
    hide CE, CONTENT_TYPE, NameOf, ToMap, BoundHeaders, AttributeHeaders, IsAttributeKey, IsTransportKey, HeaderFits;
    hide SizesFit;
    BoundLookup(m, w);
    SizesByMap(BoundHeaders(m, w), limits);
    AttributesFit(m, limits);
    AttributeHeadersLookup(m);
    var a, b := AttributeHeaders(m), ContentTypeHeader(w);
    assert forall k :: k in a ==> k !in b && (a + b)[k] == a[k];
    assert forall k :: k in b ==> (a + b)[k] == b[k];
    assert EachFits(b, limits) <==> (w != [] ==> HeaderFits(Entry(CONTENT_TYPE, Some(w)), limits));
    assert EachFits(a + b, limits) <==> EachFits(a, limits) && EachFits(b, limits);
  }

  /** The time as it is written fits both as an attribute and as a header. */
  predicate KafkaTimeFits(env: Env, t: Option<Instant>, limits: Limits) {
    && JsonNormal.TimeFits(env, t, limits)
    && (t.Some? ==> |env.formatTime(t.value)| <= limits.maxKafkaHeaderValueBytes)
  }

  /** The parts of a binary record that was accepted. */
  lemma BinaryParts(env: Env, record: KafkaRecord, limits: Limits, e: Event, key: Option<bytes>,
      transport: seq<KafkaHeader>)
    requires DecodedKafka(env, record, limits) == Some(KafkaMessage(BinaryMode, e, key, transport))
    ensures RecordAdmitted(record, limits) && HeadersAdmitted(record.headers, limits)
    ensures key == record.key && transport == TransportHeaders(record.headers)
    ensures var m, ct := AttributeValues(record.headers), e.attributes.dataContentType;
      && Detect(env, ContentTypeValues(record.headers)) == Some((BinaryMode, ct))
      && |m| <= limits.maxAttributes && ValuesDecode(m, limits)
      && Assemble(env, SingleTexts(m), ct, KafkaData(env, ct, record.value, limits)) == Some(e)
  {
    hide RecordAdmitted, HeadersAdmitted, AttributeValues, ContentTypeValues, TransportHeaders, Detect, ValuesDecode;
    hide SingleTexts, Assemble, KafkaData, ValidAttributes, DATACONTENTTYPE, JsonCodec.DecodeText;
    var ct := Detect(env, ContentTypeValues(record.headers)).value.1;
    var m := SingleTexts(AttributeValues(record.headers));
    Assembled(env, m, ct, KafkaData(env, ct, record.value, limits), e);
  }

  lemma ReadTexts(m: map<bytes, seq<Option<bytes>>>, limits: Limits)
    requires m != map[] && |m| <= limits.maxAttributes && ValuesDecode(m, limits)
    ensures AllUtf8(SingleTexts(m)) && TextsAdmitted(SingleTexts(m), limits)
  {
    hide Utf8.Valid;
    var t := SingleTexts(m);
    assert t.Keys == m.Keys && |t| == |t.Keys| && |m| == |m.Keys|;
    var n :| n in m;
    assert ValueDecodes(n, m[n], limits);
  }

  lemma ReadData(env: Env, contentType: bytes, value: Option<bytes>, limits: Limits, e: Event)
    requires KafkaData(env, contentType, value, limits) == Some(e.data) && 0 < limits.maxDataBytes
    ensures ValidData(e.data) && EncodedValue(e.data) == value && |BytesOf(value)| <= limits.maxDataBytes
    ensures e.data.Present? ==>
      KindMatches(env, e.data.kind, contentType) && (e.data.kind == TextData ==> !IsJsonMediaType(env, contentType))
  {
    hide DataByContentType, KindMatches, IsJsonMediaType;
    if value.Some? {
      InferredData(env, contentType, value.value, e.data);
    }
  }

  lemma ReadTransport(hs: seq<KafkaHeader>, limits: Limits)
    requires HeadersAdmitted(hs, limits)
    ensures var t := TransportHeaders(hs); AllTransport(t) && NamesUtf8(t) && SizesFit(t, limits)
  {
    hide IsTransportKey, TransportHeaders, Utf8.Valid;
    var t := TransportHeaders(hs);
    forall i | 0 <= i < |t| ensures IsTransportKey(t[i].key) && HeaderAdmitted(t[i], limits) {
      TransportFrom(hs, t[i]);
    }
  }

  /** The headers of the binding fit where those received did, if the time does. */
  lemma SentHeadersFit(env: Env, hs: seq<KafkaHeader>, e: Event, data: Option<Data>, limits: Limits)
    requires HeadersAdmitted(hs, limits) && ValuesDecode(AttributeValues(hs), limits)
    requires Detect(env, ContentTypeValues(hs)) == Some((BinaryMode, e.attributes.dataContentType))
    requires Assemble(env, SingleTexts(AttributeValues(hs)), e.attributes.dataContentType, data) == Some(e)
    ensures SizesFit(BoundHeaders(ContextTexts(env, e.attributes), e.attributes.dataContentType), limits) <==>
      (e.attributes.time.Some? ==> |env.formatTime(e.attributes.time.value)| <= limits.maxKafkaHeaderValueBytes)
  {
    hide CE, CONTENT_TYPE, ContentTypeValues, AttributeValues, BoundHeaders, ContextTexts, Assemble, Utf8.Valid, ModeOf;
    hide SizesFit, SPECVERSION, TIME;
    var ct, texts, m := e.attributes.dataContentType, ContextTexts(env, e.attributes), AttributeValues(hs);
    BoundFits(texts, ct, limits);
    AssembledTexts(env, SingleTexts(m), ct, data, e);
    if ct != [] {
      ContentTypeFrom(hs, ContentTypeValues(hs)[0]);
      assert HeaderAdmitted(Entry(CONTENT_TYPE, ContentTypeValues(hs)[0]), limits);
    }
    forall n | n in texts
      ensures |CE + n| <= limits.maxKafkaHeaderNameBytes
      ensures n != TIME ==> |texts[n]| <= limits.maxKafkaHeaderValueBytes
    {
      assert n in SingleTexts(m) && ValueDecodes(n, m[n], limits);
      AttributeFrom(hs, n, m[n][0]);
      assert HeaderAdmitted(Entry(CE + n, m[n][0]), limits);
    }
    if e.attributes.time.Some? {
      assert HeaderFits(Entry(CE + TIME, Some(texts[TIME])), limits) <==>
        |env.formatTime(e.attributes.time.value)| <= limits.maxKafkaHeaderValueBytes;
    }
  }

  lemma SizesFitParts(a: seq<KafkaHeader>, b: seq<KafkaHeader>, limits: Limits)
    requires SizesFit(b, limits)
    ensures SizesFit(a + b, limits) <==> SizesFit(a, limits)
  {
    var hs := a + b;
    assert forall i :: 0 <= i < |a| ==> hs[i] == a[i];
    assert forall i :: |a| <= i < |hs| ==> hs[i] == b[i - |a|];
    if SizesFit(hs, limits) {
      forall i | 0 <= i < |a| ensures HeaderFits(a[i], limits) {
        assert hs[i] == a[i];
      }
    }
  }

  /** No more headers are sent than were received. */
  lemma SentCount(env: Env, hs: seq<KafkaHeader>, e: Event, data: Option<Data>)
    requires Detect(env, ContentTypeValues(hs)) == Some((BinaryMode, e.attributes.dataContentType))
    requires Assemble(env, SingleTexts(AttributeValues(hs)), e.attributes.dataContentType, data) == Some(e)
    ensures |BoundHeaders(ContextTexts(env, e.attributes), e.attributes.dataContentType) + TransportHeaders(hs)| <= |hs|
  {
    hide ContentTypeValues, AttributeValues, TransportHeaders, BoundHeaders, ContextTexts, Assemble, Utf8.Valid, ModeOf;
    hide SPECVERSION, TIME;
    var texts, m := ContextTexts(env, e.attributes), AttributeValues(hs);
    BoundCount(texts, e.attributes.dataContentType);
    AssembledTexts(env, SingleTexts(m), e.attributes.dataContentType, data, e);
    SubsetSize(texts.Keys, m.Keys);
    assert |texts| == |texts.Keys| && |m| == |m.Keys|;
    PartsCount(hs);
  }

  lemma DetectedBinary(env: Env, values: seq<Option<bytes>>, contentType: bytes)
    requires Detect(env, values) == Some((BinaryMode, contentType))
    ensures Utf8.Valid(contentType) && (contentType != [] ==> ModeOf(env, contentType) == Some(BinaryMode))
  {
    hide Utf8.Valid, ModeOf;
    JsonRoundTrip.EmptyUtf8();
  }

  /** Decoding normalises once. Every event accepted from a binary record is valid; its binary
      report is empty exactly when it has no data or a content type; and encoding it with the
      same key and transport headers and decoding under the same limits gives event, key and
      transport headers back if and only if that is so and its time survives formatting within
      the limits. */
  lemma KafkaBinaryNormalises(env: Env, record: KafkaRecord, limits: Limits, e: Event, key: Option<bytes>,
      transport: seq<KafkaHeader>)
    requires DecodedKafka(env, record, limits) == Some(KafkaMessage(BinaryMode, e, key, transport))
    requires AsciiTime(env, e.attributes.time)
    ensures ValidEvent(env, e)
    ensures BinaryReport(env, e) == [] <==> e.data.Absent? || e.attributes.dataContentType != []
    ensures var decoded := DecodedKafka(env, BinaryRecord(env, e, key, transport), limits);
      decoded == Some(KafkaMessage(BinaryMode, e, key, transport)) <==>
      && (e.data.Absent? || e.attributes.dataContentType != [])
      && TimeSurvives(env, e.attributes.time) && KafkaTimeFits(env, e.attributes.time, limits)
  {
    hide DecodedKafka, Detect, Assemble, KafkaData, BinaryReport, ContextTexts, BoundHeaders, ContentTypeValues;
    hide AttributeValues, TransportHeaders, ValidAttributes, ValidData, KindMatches, IsJsonMediaType, TextsAdmitted;
    hide AllUtf8, AsciiTime, JsonNormal.TimeFits, HeadersAdmitted, ModeOf, Utf8.Valid, ValuesDecode, SingleTexts;
    hide SizesFit, NamesUtf8, AllTransport, EncodedValue;
    BinaryParts(env, record, limits, e, key, transport);
    var ct, hs := e.attributes.dataContentType, record.headers;
    var m, data := SingleTexts(AttributeValues(hs)), KafkaData(env, ct, record.value, limits);
    Assembled(env, m, ct, data, e);
    assert AttributeValues(hs) != map[] by { NoTexts(AttributeValues(hs)); }
    ReadTexts(AttributeValues(hs), limits);
    ReadData(env, ct, record.value, limits, e);
    ReadTransport(hs, limits);
    DetectedBinary(env, ContentTypeValues(hs), ct);
    AssembledReport(env, m, ct, data, e);
    AssembledSchema(env, m, ct, data, e);
    AssembledAdmitted(env, m, ct, data, e, limits);
    SentHeadersFit(env, hs, e, data, limits);
    SentCount(env, hs, e, data);
    SizesFitParts(BoundHeaders(ContextTexts(env, e.attributes), ct), transport, limits);
    KafkaBinaryExact(env, e, key, transport, limits);
  }

  lemma NoTexts(m: map<bytes, seq<Option<bytes>>>)
    ensures SingleTexts(m) != map[] ==> m != map[]
  {
  }
}
