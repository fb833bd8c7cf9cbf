/** The Kafka transport adapter (`adapters/kafka/kafka.go`): a producer's own key and headers
    travel beside the event. Topic, partition and timestamp are passed through unread and are
    one value of any type here. */
module KafkaAdapter {
  import opened Bytes
  import opened Order
  import opened Event
  import opened Conversion
  import opened Admission
  import opened Binding
  import opened KafkaBinding
  import opened KafkaRoundTrip
  import BinaryReading
  import JsonCodec
  import JsonRoundTrip

  datatype Transport<R> = Transport(routing: R, key: Option<bytes>, headers: seq<KafkaHeader>)

  datatype ProducerRecord<R> = ProducerRecord(routing: R, key: Option<bytes>, value: Option<bytes>,
      headers: seq<KafkaHeader>)

  datatype ConsumedRecord<S> = ConsumedRecord(delivery: S, key: Option<bytes>, value: Option<bytes>,
      headers: seq<KafkaHeader>)

  /** `KafkaPartitionKey`. */
  function PartitionKey(e: Event): (key: Option<bytes>)
    ensures key.Some? ==> key.value != []
  {
    var x := e.attributes.extensions;
    if PARTITIONKEY in x && x[PARTITIONKEY].kind == KindString && x[PARTITIONKEY].text != []
    then Some(x[PARTITIONKEY].text) else None
  }

  /** The key that is sent: the event's partition key, which a producer's own key may not
      contradict, or else the producer's key, nil or not. */
  function EffectiveKey(e: Event, key: Option<bytes>): Option<bytes> {
    if PartitionKey(e).Some? then PartitionKey(e) else key
  }

  predicate KeysAgree(e: Event, key: Option<bytes>) {
    PartitionKey(e).Some? && key.Some? ==> key == PartitionKey(e)
  }

  /** When the adapter produces a record. */
  predicate Accepts<R(!new)>(env: Env, e: Event, mode: Mode, t: Transport<R>) {
    && ValidEvent(env, e) && KeysAgree(e, t.key) && AllTransport(t.headers)
    && match mode
       case BinaryMode => BinaryLossless(env, e)
       case StructuredMode => JsonLossless(env, e)
       case BatchMode => false
  }

  /** The record it produces. */
  ghost function Produced<R(!new)>(env: Env, e: Event, mode: Mode, t: Transport<R>): ProducerRecord<R> {
    var key := EffectiveKey(e, t.key);
    var record :=
      if mode == BinaryMode then BinaryRecord(env, e, key, t.headers)
      else StructuredRecord(env, e, map[], key, t.headers);
    ProducerRecord(t.routing, record.key, record.value, record.headers)
  }

  lemma StrictRecord<R(!new)>(env: Env, e: Event, mode: Mode, t: Transport<R>)
    requires KeysAgree(e, t.key) && AllTransport(t.headers)
    ensures var encoded := KafkaEncoding(env, e, mode, EffectiveKey(e, t.key));
      && (encoded.Some? && encoded.value.1 == [] <==> Accepts(env, e, mode, t))
      && (encoded.Some? ==>
            var record := encoded.value.0;
            ProducerRecord(t.routing, record.key, record.value, record.headers + t.headers)
            == Produced(env, e, mode, t))
  {
    hide ValidEvent, BinaryLossless, JsonLossless, BinaryReport, JsonReport, EncodedHeaders, JsonCodec.EncodedText;
    hide EffectiveKey, KeysAgree, AllTransport, BoundHeaders, Ascii;
    BinaryReportEmpty(env, e);
    JsonReportEmpty(env, e);
    NoMetadata();
  }

  /** `Encode`: the key is settled, the transport headers are checked, and then both header
      lists are appended to the record. */
  method Encode<R(!new)>(env: Env, e: Event, mode: Mode, t: Transport<R>) returns (r: Option<ProducerRecord<R>>)
    ensures r.Some? <==> Accepts(env, e, mode, t)
    ensures r.Some? ==> r.value == Produced(env, e, mode, t)
  {
    hide KafkaEncoding, Produced, ValidEvent, BinaryLossless, JsonLossless, PARTITIONKEY, CONTENT_TYPE, IsAttributeKey;
    var key := t.key;
    var partitionKey := PartitionKey(e);
    if partitionKey.Some? {
      if key.Some? && key != partitionKey {
        return None;
      }
      key := partitionKey;
    }
    for i := 0 to |t.headers|
      invariant forall k :: 0 <= k < i ==> IsTransportKey(t.headers[k].key)
    {
      if t.headers[i].key == CONTENT_TYPE || IsAttributeKey(t.headers[i].key) {
        return None;
      }
    }
    StrictRecord(env, e, mode, t);
    var binding := EncodeKafka(env, e, mode, key);
    if binding.None? {
      return None;
    }
    var headers: seq<KafkaHeader> := [];
    for i := 0 to |binding.value.headers|
      invariant headers == binding.value.headers[..i]
    {
      headers := headers + [binding.value.headers[i]];
    }
    for i := 0 to |t.headers|
      invariant headers == binding.value.headers + t.headers[..i]
    {
      headers := headers + [t.headers[i]];
    }
    assert t.headers[..|t.headers|] == t.headers;
    return Some(ProducerRecord(t.routing, binding.value.key, binding.value.value, headers));
  }

  /** When a record is produced: nothing is reported for the mode, the producer's key and the
      event's do not contradict each other, and no transport header has a name of the binding's. */
  lemma AcceptsExact<R(!new)>(env: Env, e: Event, mode: Mode, t: Transport<R>)
    ensures Accepts(env, e, mode, t) <==>
      var name, x := Ascii("partitionkey"), e.attributes.extensions;
      && ValidEvent(env, e) && (name in x && t.key.Some? ==> t.key.value == x[name].text)
      && (forall i :: 0 <= i < |t.headers| ==> !BinaryReading.Bound(t.headers[i].key))
      && ((mode == BinaryMode && BinaryReport(env, e) == []) || (mode == StructuredMode && JsonReport(env, e) == []))
  {
    hide BinaryLossless, JsonLossless, BinaryReport, JsonReport, IsTransportKey, BinaryReading.Bound;
    hide ValidTraceParentAttribute, ValidTraceStateAttribute, ValidExtension, ValidData, ValidCore, Ascii;
    forall i | 0 <= i < |t.headers|
      ensures BinaryReading.Bound(t.headers[i].key) <==> !IsTransportKey(t.headers[i].key)
    {
      BinaryReading.BoundKey(t.headers[i].key);
    }
    BinaryReportEmpty(env, e);
    JsonReportEmpty(env, e);
  }

  /** The key of what is produced: the text of a `partitionkey` String, which the producer's own
      key must equal if there is one, and without it the producer's key as it is. */
  lemma KeyExact<R(!new)>(env: Env, e: Event, mode: Mode, t: Transport<R>)
    requires Accepts(env, e, mode, t)
    ensures var name, x, key := Ascii("partitionkey"), e.attributes.extensions, Produced(env, e, mode, t).key;
      if name in x then key == Some(x[name].text) && (t.key == None || t.key == key) else key == t.key
  {
    hide BinaryLossless, JsonLossless, AllTransport, BinaryRecord, StructuredRecord, ValidData, ValidCore, Ascii;
    hide ValidTraceParentAttribute, ValidTraceStateAttribute, ValidExtension;
    RecordKeys(env, e, EffectiveKey(e, t.key), t.headers);
  }

  lemma RecordKeys(env: Env, e: Event, key: Option<bytes>, headers: seq<KafkaHeader>)
    ensures BinaryRecord(env, e, key, headers).key == key && StructuredRecord(env, e, map[], key, headers).key == key
  {
  }

  /** The result of `Decode`. */
  function Consumed<S>(env: Env, record: ConsumedRecord<S>, limits: Limits): Option<(KafkaMessage, S)> {
    var message :- DecodedKafka(env, KafkaRecord(record.key, record.value, record.headers), limits);
    Some((message, record.delivery))
  }

  /** `Decode`: too many headers are refused before they are copied, which the binding would
      have done as well. */
  method Decode<S>(env: Env, record: ConsumedRecord<S>, limits: Limits) returns (r: Option<(KafkaMessage, S)>)
    ensures r == Consumed(env, record, limits)
  {
    hide Detect, DecodedEvent, HeadersAdmitted, ContentTypeValues, TransportHeaders;
    if |record.headers| > limits.maxKafkaHeaders {
      return None;
    }
    var headers := new KafkaHeader[|record.headers|](_ => Entry([], None));
    for i := 0 to |record.headers|
      invariant forall k :: 0 <= k < i ==> headers[k] == record.headers[k]
    {
      headers[i] := record.headers[i];
    }
    assert headers[..] == record.headers;
    var message := DecodeKafka(env, KafkaRecord(record.key, record.value, headers[..]), limits);
    if message.None? {
      return None;
    }
    return Some((message.value, record.delivery));
  }

  /** What a record of either mode still needs to come back whole: the cases the reports do
      not look at, and the limits. */
  ghost predicate Survives<R(!new)>(env: Env, e: Event, mode: Mode, t: Transport<R>, limits: Limits)
    requires ValidEvent(env, e)
  {
    var key := EffectiveKey(e, t.key);
    if mode == BinaryMode then
      KafkaFaithful(env, e) && NamesUtf8(t.headers) && KafkaAdmits(env, e, key, t.headers, limits)
    else
      var record := StructuredRecord(env, e, map[], key, t.headers);
      && JsonRoundTrip.Faithful(env, e.attributes) && JsonRoundTrip.JsonAdmits(env, e, limits) && NamesUtf8(t.headers)
      && RecordAdmitted(record, limits) && SizesFit(record.headers, limits)
  }

  /** Transport conservation. Whatever the adapter produces, consuming it gives back the
      event, the effective key and exactly the transport headers in their order, nil and empty
      values apart, and the broker's own state, if and only if nothing the reports do not look
      at is in the way. */
  lemma TransportConserved<R(!new), S>(env: Env, e: Event, mode: Mode, t: Transport<R>, delivery: S, limits: Limits)
    requires Accepts(env, e, mode, t) && AsciiTime(env, e.attributes.time)
    requires env.mediaType(JSON_MEDIA_TYPE) == Some(JSON_MEDIA_TYPE)
    ensures var p := Produced(env, e, mode, t);
      Consumed(env, ConsumedRecord(delivery, p.key, p.value, p.headers), limits)
        == Some((KafkaMessage(mode, e, EffectiveKey(e, t.key), t.headers), delivery)) <==>
      Survives(env, e, mode, t, limits)
  {
    hide ValidEvent, BinaryLossless, JsonLossless, BinaryReport, JsonReport, EncodedHeaders, JsonCodec.EncodedText;
    hide EffectiveKey, KeysAgree, AllTransport, BoundHeaders, DecodedKafka, AsciiTime, KafkaFaithful, NamesUtf8;
    hide KafkaAdmits, RecordAdmitted, SizesFit, JsonRoundTrip.Faithful, JsonRoundTrip.JsonAdmits, ExpectedTexts, Ascii;
    var key := EffectiveKey(e, t.key);
    if mode == BinaryMode {
      BinaryReportEmpty(env, e);
      KafkaBinaryExact(env, e, key, t.headers, limits);
    } else {
      JsonReportEmpty(env, e);
      StructuredWrittenExact(env, e, map[], key, t.headers, limits);
    }
  }
}
