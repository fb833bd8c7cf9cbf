/** The Kafka protocol binding (`kafka.go`). Keys, record values and header values may be nil,
    which is not the same as empty. */
module KafkaBinding {
  import opened Bytes
  import opened Order
  import opened Event
  import opened Conversion
  import opened Admission
  import opened Binding
  import JsonCodec
  import JsonEncoder
  import JsonRoundTrip
  import Utf8

  type KafkaHeader = Entry<Option<bytes>>

  datatype KafkaRecord = KafkaRecord(key: Option<bytes>, value: Option<bytes>, headers: seq<KafkaHeader>)

  datatype KafkaMessage = KafkaMessage(mode: Mode, event: Event, key: Option<bytes>, transport: seq<KafkaHeader>)

  const CE: bytes := Ascii("ce_")
  const CONTENT_TYPE: bytes := Ascii("content-type")

  /** The bytes of a value; nil counts as empty. */
  function BytesOf(value: Option<bytes>): bytes {
    if value.None? then [] else value.value
  }

  predicate IsAttributeKey(key: bytes) { HasPrefix(key, CE) }

  predicate IsTransportKey(key: bytes) { key != CONTENT_TYPE && !IsAttributeKey(key) }

  function NameOf(key: bytes): bytes { if |key| >= 3 then key[3..] else [] }

  lemma Keys(name: bytes)
    ensures IsAttributeKey(CE + name) && NameOf(CE + name) == name && CE + name != CONTENT_TYPE
    ensures !IsAttributeKey(CONTENT_TYPE)
  {
    assert (CE + name)[..3] == CE && (CE + name)[1] == CE[1] == 0x65;
    assert CONTENT_TYPE[1] == 0x6F && CONTENT_TYPE[..3][1] == 0x6F;
  }

  lemma AttributeKeyName(key: bytes)
    requires IsAttributeKey(key)
    ensures key == CE + NameOf(key)
  {
    assert |CE| == 3;
    assert key == key[..3] + key[3..];
  }

  // ---------- encoding ----------

  function AttributeHeaders(m: map<bytes, bytes>): map<bytes, Option<bytes>> {
    var keys := set n | n in m :: CE + n;
    map k | k in keys && NameOf(k) in m :: Some(m[NameOf(k)])
  }

  function ContentTypeHeader(contentType: bytes): map<bytes, Option<bytes>> {
    if contentType == [] then map[] else map[CONTENT_TYPE := Some(contentType)]
  }

  /** One header per text and the content type, in ascending order of their names. */
  ghost function BoundHeaders(m: map<bytes, bytes>, contentType: bytes): seq<KafkaHeader> {
    SortedEntries(AttributeHeaders(m) + ContentTypeHeader(contentType))
  }

  ghost function EncodedHeaders(env: Env, e: Event): seq<KafkaHeader> {
    BoundHeaders(ContextTexts(env, e.attributes), SentContentType(e))
  }

  /** Absent data is a nil value, a tombstone; empty data is an empty value. */
  function EncodedValue(d: Data): Option<bytes> {
    if d.Present? then Some(d.bytes) else None
  }

  /** The result of `EncodeKafkaWithReport`. */
  ghost function KafkaEncoding(env: Env, e: Event, mode: Mode, key: Option<bytes>): Option<(KafkaRecord, seq<Note>)> {
    if mode == BatchMode || !ValidEvent(env, e) then None
    else if mode == BinaryMode then
      Some((KafkaRecord(key, EncodedValue(e.data), EncodedHeaders(env, e)), BinaryReport(env, e)))
    else
      Some((KafkaRecord(key, Some(JsonCodec.EncodedText(env, e)), [Entry(CONTENT_TYPE, Some(JSON_MEDIA_TYPE))]),
        JsonReport(env, e)))
  }

  lemma AttributeHeadersLookup(m: map<bytes, bytes>)
    ensures var h := AttributeHeaders(m);
      && (forall n :: n in m ==> CE + n in h && h[CE + n] == Some(m[n]))
      && (forall k :: k in h ==> IsAttributeKey(k) && NameOf(k) in m && k == CE + NameOf(k) && k != CONTENT_TYPE)
  {
    hide IsAttributeKey, NameOf, CONTENT_TYPE, CE;
    forall n | n in m ensures NameOf(CE + n) == n && IsAttributeKey(CE + n) && CE + n != CONTENT_TYPE {
      Keys(n);
    }
  }

  lemma AttributeHeadersAdd(m: map<bytes, bytes>, name: bytes, text: bytes)
    ensures AttributeHeaders(m[name := text]) == AttributeHeaders(m)[CE + name := Some(text)]
  {
    hide IsAttributeKey, NameOf, CONTENT_TYPE, CE, AttributeHeaders;
    AttributeHeadersLookup(m);
    AttributeHeadersLookup(m[name := text]);
    Keys(name);
  }

  lemma NewAttributeKey(m: map<bytes, bytes>, name: bytes)
    requires name !in m
    ensures CE + name !in AttributeHeaders(m)
  {
    hide IsAttributeKey, NameOf, CONTENT_TYPE, CE, AttributeHeaders;
    AttributeHeadersLookup(m);
    Keys(name);
  }

  /** The list so far holds one header per text. */
  ghost predicate Lists(headers: seq<KafkaHeader>, texts: map<bytes, bytes>) {
    Distinct(headers) && ToMap(headers) == AttributeHeaders(texts)
  }

  /** `appendAttribute`, with the texts that were appended so far. */
  method AppendAttribute(headers: seq<KafkaHeader>, ghost texts: map<bytes, bytes>, name: bytes, text: bytes)
    returns (r: seq<KafkaHeader>)
    requires Lists(headers, texts) && name !in texts
    ensures Lists(r, texts[name := text])
  {
    hide AttributeHeaders, CE, ToMap, Distinct;
    AttributeHeadersAdd(texts, name, text);
    NewAttributeKey(texts, name);
    JsonEncoder.DistinctAppend(headers, Entry(CE + name, Some(text)));
    r := headers + [Entry(CE + name, Some(text))];
  }

  method AppendOptional(headers: seq<KafkaHeader>, ghost texts: map<bytes, bytes>, name: bytes, text: bytes)
    returns (r: seq<KafkaHeader>)
    requires Lists(headers, texts) && name !in texts
    ensures Lists(r, texts + Optional(name, text))
  {
    hide Lists;
    r := headers;
    if text != [] {
      r := AppendAttribute(headers, texts, name, text);
      assert texts[name := text] == texts + Optional(name, text);
    } else {
      assert texts == texts + Optional(name, text);
    }
  }

  lemma NothingListed()
    ensures Lists([], map[])
  {
    EmptyMap<Option<bytes>>();
  }

  method AppendRequired(a: Attributes) returns (headers: seq<KafkaHeader>)
    ensures Lists(headers, RequiredTexts(a))
  {
    hide Lists, SPECVERSION, ID, SOURCE, TYPE, VERSION, DATASCHEMA, SUBJECT, TIME;
    RequiredApart();
    NothingListed();
    headers := [];
    headers := AppendAttribute(headers, map[], SPECVERSION, VERSION);
    headers := AppendAttribute(headers, map[][SPECVERSION := VERSION], ID, a.id);
    headers := AppendAttribute(headers, map[][SPECVERSION := VERSION][ID := a.id], SOURCE, a.source);
    headers := AppendAttribute(headers, map[][SPECVERSION := VERSION][ID := a.id][SOURCE := a.source], TYPE,
      a.eventType);
    assert map[][SPECVERSION := VERSION][ID := a.id][SOURCE := a.source][TYPE := a.eventType] == RequiredTexts(a);
  }

  /** The standard attributes in the order of the code. */
  method AppendStandard(env: Env, a: Attributes) returns (headers: seq<KafkaHeader>)
    ensures Lists(headers, StandardTexts(env, a))
  {
    hide Lists, RequiredTexts, Optional, SPECVERSION, ID, SOURCE, TYPE, VERSION, DATASCHEMA, SUBJECT, TIME;
    RequiredApart();
    RequiredLookup(a);
    OptionalKeys(DATASCHEMA, a.dataSchema);
    OptionalKeys(SUBJECT, a.subject);
    headers := AppendRequired(a);
    headers := AppendOptional(headers, RequiredTexts(a), DATASCHEMA, a.dataSchema);
    ghost var texts := RequiredTexts(a) + Optional(DATASCHEMA, a.dataSchema);
    headers := AppendOptional(headers, texts, SUBJECT, a.subject);
    texts := texts + Optional(SUBJECT, a.subject);
    if a.time.Some? {
      headers := AppendAttribute(headers, texts, TIME, env.formatTime(a.time.value));
      assert texts[TIME := env.formatTime(a.time.value)] == texts + TimeText(env, a.time);
    } else {
      assert texts == texts + TimeText(env, a.time);
    }
  }

  /** The extensions, taken from the map in any order. */
  method AppendExtensions(start: seq<KafkaHeader>, ghost standard: map<bytes, bytes>, x: map<bytes, Attribute>)
    returns (headers: seq<KafkaHeader>)
    requires Lists(start, standard) && standard.Keys !! x.Keys
    ensures Lists(headers, standard + ExtensionTexts(x))
  {
    hide Lists, ExtensionTexts;
    headers := start;
    NoExtensions(standard);
    var remaining := x.Keys;
    ghost var done: map<bytes, Attribute> := map[];
    while remaining != {}
      invariant remaining <= x.Keys && done.Keys == x.Keys - remaining && forall n :: n in done ==> done[n] == x[n]
      invariant Lists(headers, standard + ExtensionTexts(done))
      decreases remaining
    {
      var n :| n in remaining;
      AddExtension(standard, done, n, x[n]);
      headers := AppendAttribute(headers, standard + ExtensionTexts(done), n, x[n].text);
      remaining := remaining - {n};
      done := done[n := x[n]];
    }
    assert done == x;
  }

  /** The content type, if there is one, takes a place of its own. */
  lemma AppendContentType(headers: seq<KafkaHeader>, texts: map<bytes, bytes>, contentType: bytes)
    requires Lists(headers, texts)
    ensures var r := if contentType == [] then headers else headers + [Entry(CONTENT_TYPE, Some(contentType))];
      Distinct(r) && ToMap(r) == AttributeHeaders(texts) + ContentTypeHeader(contentType)
  {
    hide AttributeHeaders, CE, ToMap, Distinct, CONTENT_TYPE;
    AttributeHeadersLookup(texts);
    if contentType != [] {
      JsonEncoder.DistinctAppend(headers, Entry(CONTENT_TYPE, Some(contentType)));
    }
  }

  /** `encodeKafkaBinaryHeaders`: appended in any order of the extensions, then sorted. */
  method EncodeKafkaBinaryHeaders(env: Env, e: Event) returns (headers: seq<KafkaHeader>)
    requires ValidEvent(env, e)
    ensures headers == EncodedHeaders(env, e)
  {
    hide Lists, StandardTexts, ExtensionTexts, ValidAttributes, ValidData, CONTENT_TYPE, AttributeHeaders;
    hide ContentTypeHeader, SortedEntries, Distinct, ToMap;
    assert StandardTexts(env, e.attributes).Keys !! e.attributes.extensions.Keys by {
      JsonRoundTrip.ValidExtensionsFacts(env, e.attributes);
      JsonRoundTrip.MembersDisjoint(env, e);
    }
    headers := AppendStandard(env, e.attributes);
    headers := AppendExtensions(headers, StandardTexts(env, e.attributes), e.attributes.extensions);
    AppendContentType(headers, ContextTexts(env, e.attributes), SentContentType(e));
    if e.attributes.dataContentType != [] {
      headers := headers + [Entry(CONTENT_TYPE, Some(e.attributes.dataContentType))];
    } else if e.data.Present? {
      headers := headers + [Entry(CONTENT_TYPE, Some(ImplicitContentType(e.data.kind)))];
    }
    headers := SortEntries(headers);
  }

  /** `EncodeKafkaWithReport`. */
  method EncodeKafkaWithReport(env: Env, e: Event, mode: Mode, key: Option<bytes>)
    returns (r: Option<(KafkaRecord, seq<Note>)>)
    ensures r == KafkaEncoding(env, e, mode, key)
  {
    hide ValidEvent, EncodedHeaders, JsonCodec.EncodedText, BinaryReport, JsonReport, Ascii;
    match mode
    case BinaryMode =>
      if !ValidEvent(env, e) {
        return None;
      }
      var headers := EncodeKafkaBinaryHeaders(env, e);
      var report := BinaryConversionReport(env, e);
      return Some((KafkaRecord(key, if e.data.Present? then Some(e.data.bytes) else None, headers), report));
    case StructuredMode =>
      var one := JsonEncoder.EncodeJSONWithReport(env, e);
      if one.None? {
        return None;
      }
      return Some((KafkaRecord(key, Some(one.value.0), [Entry(CONTENT_TYPE, Some(JSON_MEDIA_TYPE))]), one.value.1));
    case BatchMode =>
      return None;
  }

  /** `EncodeKafka`: no record when anything would be lost. */
  method EncodeKafka(env: Env, e: Event, mode: Mode, key: Option<bytes>) returns (r: Option<KafkaRecord>)
    ensures r.Some? <==> KafkaEncoding(env, e, mode, key).Some? && KafkaEncoding(env, e, mode, key).value.1 == []
    ensures r.Some? ==> r.value == KafkaEncoding(env, e, mode, key).value.0
  {
    hide KafkaEncoding;
    var encoded := EncodeKafkaWithReport(env, e, mode, key);
    if encoded.None? || encoded.value.1 != [] {
      return None;
    }
    return Some(encoded.value.0);
  }

  // ---------- partitioning the headers ----------

  function ContentTypeValues(hs: seq<KafkaHeader>): seq<Option<bytes>> {
    if hs == [] then []
    else
      var n := |hs| - 1;
      ContentTypeValues(hs[..n]) + if hs[n].key == CONTENT_TYPE then [hs[n].value] else []
  }

  function ValuesFor(m: map<bytes, seq<Option<bytes>>>, name: bytes): seq<Option<bytes>> {
    if name in m then m[name] else []
  }

  function AttributeValues(hs: seq<KafkaHeader>): map<bytes, seq<Option<bytes>>> {
    if hs == [] then map[]
    else
      var n := |hs| - 1;
      var m := AttributeValues(hs[..n]);
      if IsAttributeKey(hs[n].key) then m[NameOf(hs[n].key) := ValuesFor(m, NameOf(hs[n].key)) + [hs[n].value]] else m
  }

  function TransportHeaders(hs: seq<KafkaHeader>): seq<KafkaHeader> {
    if hs == [] then []
    else
      var n := |hs| - 1;
      TransportHeaders(hs[..n]) + if IsTransportKey(hs[n].key) then [hs[n]] else []
  }

  predicate HeaderAdmitted(h: KafkaHeader, limits: Limits) {
    && |h.key| <= limits.maxKafkaHeaderNameBytes && |BytesOf(h.value)| <= limits.maxKafkaHeaderValueBytes
    && Utf8.Valid(h.key)
  }

  predicate HeadersAdmitted(hs: seq<KafkaHeader>, limits: Limits) {
    forall i :: 0 <= i < |hs| ==> HeaderAdmitted(hs[i], limits)
  }

  predicate RecordAdmitted(record: KafkaRecord, limits: Limits) {
    && 0 < limits.maxEventBytes && 0 < limits.maxDataBytes
    && 0 < limits.maxKafkaKeyBytes && |BytesOf(record.key)| <= limits.maxKafkaKeyBytes
    && 0 < limits.maxKafkaHeaders && |record.headers| <= limits.maxKafkaHeaders
    && 0 < limits.maxKafkaHeaderNameBytes && 0 < limits.maxKafkaHeaderValueBytes
  }

  lemma PartitionStep(hs: seq<KafkaHeader>, i: nat)
    requires i < |hs|
    ensures ContentTypeValues(hs[..i + 1]) ==
      ContentTypeValues(hs[..i]) + if hs[i].key == CONTENT_TYPE then [hs[i].value] else []
    ensures AttributeValues(hs[..i + 1]) ==
      var m, name := AttributeValues(hs[..i]), NameOf(hs[i].key);
      if IsAttributeKey(hs[i].key) then m[name := ValuesFor(m, name) + [hs[i].value]] else m
    ensures TransportHeaders(hs[..i + 1]) ==
      TransportHeaders(hs[..i]) + if IsTransportKey(hs[i].key) then [hs[i]] else []
  {
    hide IsAttributeKey, IsTransportKey, NameOf, CONTENT_TYPE, ValuesFor;
    assert hs[..i + 1][..i] == hs[..i] && hs[..i + 1][i] == hs[i];
  }

  lemma PartitionNothing()
    ensures ContentTypeValues([]) == [] && AttributeValues([]) == map[] && TransportHeaders([]) == []
  {
  }

  /** The loop of `DecodeKafka`: every header goes to the content types, to the list of its
      attribute, or to the transport headers, in the order received. */
  method Partition(hs: seq<KafkaHeader>, limits: Limits)
    returns (ok: bool, contentTypes: seq<Option<bytes>>, attributes: map<bytes, seq<Option<bytes>>>,
      transport: seq<KafkaHeader>)
    ensures ok == HeadersAdmitted(hs, limits)
    ensures ok ==> contentTypes == ContentTypeValues(hs) && attributes == AttributeValues(hs)
    ensures ok ==> transport == TransportHeaders(hs)
  {
    hide ContentTypeValues, AttributeValues, TransportHeaders, CONTENT_TYPE, NameOf, Utf8.Valid, ValuesFor;
    hide IsAttributeKey;
    contentTypes, attributes, transport := [], map[], [];
    assert hs[..0] == [];
    PartitionNothing();
    for i := 0 to |hs|
      invariant forall k :: 0 <= k < i ==> HeaderAdmitted(hs[k], limits)
      invariant contentTypes == ContentTypeValues(hs[..i])
      invariant attributes == AttributeValues(hs[..i])
      invariant transport == TransportHeaders(hs[..i])
    {
      var header := hs[i];
      if |header.key| > limits.maxKafkaHeaderNameBytes || |BytesOf(header.value)| > limits.maxKafkaHeaderValueBytes {
        return false, contentTypes, attributes, transport;
      }
      if !Utf8.Valid(header.key) {
        return false, contentTypes, attributes, transport;
      }
      PartitionStep(hs, i);
      Keys([]);
      if header.key == CONTENT_TYPE {
        contentTypes := contentTypes + [header.value];
      } else if IsAttributeKey(header.key) {
        var name := NameOf(header.key);
        attributes := attributes[name := ValuesFor(attributes, name) + [header.value]];
      } else {
        transport := transport + [header];
      }
    }
    assert hs[..|hs|] == hs;
    ok := true;
  }

  // ---------- decoding ----------

  /** One value within the limits that is UTF-8. */
  predicate ValueDecodes(name: bytes, values: seq<Option<bytes>>, limits: Limits) {
    && 0 < limits.maxAttributeNameBytes && |name| <= limits.maxAttributeNameBytes
    && |values| == 1
    && 0 < limits.maxAttributeValueBytes && |BytesOf(values[0])| <= limits.maxAttributeValueBytes
    && Utf8.Valid(BytesOf(values[0]))
  }

  predicate ValuesDecode(m: map<bytes, seq<Option<bytes>>>, limits: Limits) {
    forall n :: n in m ==> ValueDecodes(n, m[n], limits)
  }

  function SingleText(values: seq<Option<bytes>>): bytes {
    if |values| == 1 then BytesOf(values[0]) else []
  }

  function SingleTexts(m: map<bytes, seq<Option<bytes>>>): map<bytes, bytes> {
    map n | n in m :: SingleText(m[n])
  }

  function KafkaData(env: Env, contentType: bytes, value: Option<bytes>, limits: Limits): Option<Data> {
    if value.None? then Some(Absent)
    else if |value.value| > limits.maxDataBytes then None
    else DataByContentType(env, contentType, value.value)
  }

  /** `decodeKafkaBinary`. */
  function DecodedBinary(env: Env, value: Option<bytes>, contentType: bytes, m: map<bytes, seq<Option<bytes>>>,
      limits: Limits): Option<Event> {
    if DATACONTENTTYPE in m || |m| > limits.maxAttributes || !ValuesDecode(m, limits) then None
    else Assemble(env, SingleTexts(m), contentType, KafkaData(env, contentType, value, limits))
  }

  /** The header loop of `decodeKafkaBinary`, in any order. */
  method CollectTexts(m: map<bytes, seq<Option<bytes>>>, limits: Limits) returns (r: Option<map<bytes, bytes>>)
    ensures r == if ValuesDecode(m, limits) then Some(SingleTexts(m)) else None
  {
    hide Utf8.Valid;
    var texts: map<bytes, bytes> := map[];
    var remaining := m.Keys;
    while remaining != {}
      invariant remaining <= m.Keys && texts.Keys == m.Keys - remaining
      invariant forall n :: n in texts ==> ValueDecodes(n, m[n], limits) && texts[n] == SingleText(m[n])
      decreases remaining
    {
      var name :| name in remaining;
      remaining := remaining - {name};
      var values := m[name];
      if limits.maxAttributeNameBytes <= 0 || |name| > limits.maxAttributeNameBytes || |values| != 1
         || limits.maxAttributeValueBytes <= 0 || |BytesOf(values[0])| > limits.maxAttributeValueBytes
         || !Utf8.Valid(BytesOf(values[0])) {
        assert !ValueDecodes(name, m[name], limits);
        return None;
      }
      texts := texts[name := BytesOf(values[0])];
    }
    assert texts == SingleTexts(m);
    return Some(texts);
  }

  method DecodeKafkaBinary(env: Env, value: Option<bytes>, contentType: bytes, m: map<bytes, seq<Option<bytes>>>,
      limits: Limits)
    returns (r: Option<Event>)
    ensures r == DecodedBinary(env, value, contentType, m, limits)
  {
    hide ValuesDecode, SingleTexts, Assemble, KafkaData, DATACONTENTTYPE;
    if DATACONTENTTYPE in m || |m| > limits.maxAttributes {
      return None;
    }
    var texts := CollectTexts(m, limits);
    if texts.None? {
      return None;
    }
    r := AssembleEvent(env, texts.value, contentType, KafkaData(env, contentType, value, limits));
  }

  predicate MetadataValueOk(expected: map<bytes, bytes>, name: bytes, values: seq<Option<bytes>>, limits: Limits) {
    ValueDecodes(name, values, limits) && name in expected && SingleText(values) == expected[name]
  }

  predicate MetadataAgrees(expected: map<bytes, bytes>, m: map<bytes, seq<Option<bytes>>>, limits: Limits) {
    |m| <= limits.maxAttributes && forall n :: n in m ==> MetadataValueOk(expected, n, m[n], limits)
  }

  /** `validateStructuredKafkaMetadata`. */
  method ValidateStructuredKafkaMetadata(env: Env, m: map<bytes, seq<Option<bytes>>>, e: Event, limits: Limits)
    returns (ok: bool)
    ensures ok == MetadataAgrees(ExpectedTexts(env, e.attributes), m, limits)
  {
    hide Utf8.Valid, ExpectedTexts;
    var expected := ExpectedTexts(env, e.attributes);
    if |m| > limits.maxAttributes {
      return false;
    }
    var remaining := m.Keys;
    while remaining != {}
      invariant remaining <= m.Keys
      invariant forall n :: n in m && n !in remaining ==> MetadataValueOk(expected, n, m[n], limits)
      decreases remaining
    {
      var name :| name in remaining;
      remaining := remaining - {name};
      var values := m[name];
      if limits.maxAttributeNameBytes <= 0 || |name| > limits.maxAttributeNameBytes || |values| != 1
         || limits.maxAttributeValueBytes <= 0 || |BytesOf(values[0])| > limits.maxAttributeValueBytes
         || !Utf8.Valid(BytesOf(values[0]))
         || name !in expected || BytesOf(values[0]) != expected[name] {
        assert !MetadataValueOk(expected, name, m[name], limits);
        return false;
      }
    }
    return true;
  }

  /** The mode a content type selects; Kafka knows no batches. */
  function ModeOf(env: Env, contentType: bytes): Option<Mode> {
    var mediaType :- env.mediaType(contentType);
    if mediaType == JSON_MEDIA_TYPE then Some(StructuredMode)
    else if HasPrefix(mediaType, CLOUDEVENTS_MEDIA_TYPES) then None
    else Some(BinaryMode)
  }

  function Detect(env: Env, values: seq<Option<bytes>>): Option<(Mode, bytes)> {
    if |values| > 1 then None
    else if values == [] then Some((BinaryMode, []))
    else if !Utf8.Valid(BytesOf(values[0])) then None
    else
      var mode :- ModeOf(env, BytesOf(values[0]));
      Some((mode, BytesOf(values[0])))
  }

  function DecodedEvent(env: Env, record: KafkaRecord, mode: Mode, contentType: bytes, limits: Limits): Option<Event> {
    if mode == StructuredMode then
      if record.value.None? || |record.value.value| > limits.maxEventBytes then None
      else
        var e :- JsonCodec.DecodeText(env, record.value.value, limits);
        if MetadataAgrees(ExpectedTexts(env, e.attributes), AttributeValues(record.headers), limits) then Some(e)
        else None
    else DecodedBinary(env, record.value, contentType, AttributeValues(record.headers), limits)
  }

  /** The result of `DecodeKafka`. */
  function DecodedKafka(env: Env, record: KafkaRecord, limits: Limits): Option<KafkaMessage> {
    if !RecordAdmitted(record, limits) || !HeadersAdmitted(record.headers, limits) then None
    else
      var detected :- Detect(env, ContentTypeValues(record.headers));
      var e :- DecodedEvent(env, record, detected.0, detected.1, limits);
      Some(KafkaMessage(detected.0, e, record.key, TransportHeaders(record.headers)))
  }

  /** `DecodeKafka`. */
  method DecodeKafka(env: Env, record: KafkaRecord, limits: Limits) returns (r: Option<KafkaMessage>)
    ensures r == DecodedKafka(env, record, limits)
  {
    hide HeadersAdmitted, ContentTypeValues, AttributeValues, TransportHeaders, ModeOf, JsonCodec.DecodeText;
    hide MetadataAgrees, DecodedBinary, ExpectedTexts, Utf8.Valid;
    if limits.maxEventBytes <= 0 || limits.maxDataBytes <= 0
       || limits.maxKafkaKeyBytes <= 0 || |BytesOf(record.key)| > limits.maxKafkaKeyBytes
       || limits.maxKafkaHeaders <= 0 || |record.headers| > limits.maxKafkaHeaders
       || limits.maxKafkaHeaderNameBytes <= 0 || limits.maxKafkaHeaderValueBytes <= 0 {
      return None;
    }
    var ok, contentTypes, attributes, transport := Partition(record.headers, limits);
    if !ok || |contentTypes| > 1 {
      return None;
    }
    var contentType: bytes, mode := [], BinaryMode;
    if |contentTypes| == 1 {
      contentType := BytesOf(contentTypes[0]);
      if !Utf8.Valid(contentType) {
        return None;
      }
      var selected := ModeOf(env, contentType);
      if selected.None? {
        return None;
      }
      mode := selected.value;
    }
    var e: Option<Event> := None;
    if mode == StructuredMode {
      if record.value.None? || |record.value.value| > limits.maxEventBytes {
        return None;
      }
      e := JsonEncoder.DecodeJSON(env, record.value.value, limits);
      if e.None? {
        return None;
      }
      var agrees := ValidateStructuredKafkaMetadata(env, attributes, e.value, limits);
      if !agrees {
        return None;
      }
    } else {
      e := DecodeKafkaBinary(env, record.value, contentType, attributes, limits);
      if e.None? {
        return None;
      }
    }
    return Some(KafkaMessage(mode, e.value, record.key, transport));
  }
}
