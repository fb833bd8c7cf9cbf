/** What the HTTP and Kafka bindings share in binary mode: context attributes travel as text,
    the payload travels as it is, and its kind is inferred from the content type. */
module Binding {
  import opened Bytes
  import opened Event
  import opened Conversion
  import opened Admission
  import JsonRoundTrip
  import JsonText
  import Decimal
  import Utf8

  datatype Mode = BinaryMode | StructuredMode | BatchMode

  const JSON_MEDIA_TYPE: bytes := Ascii("application/cloudevents+json")
  const JSON_BATCH_MEDIA_TYPE: bytes := Ascii("application/cloudevents-batch+json")
  const CLOUDEVENTS_MEDIA_TYPES: bytes := Ascii("application/cloudevents")

  /** The content type that is sent: declared, or implied by the kind of the data. */
  function SentContentType(e: Event): bytes {
    if e.attributes.dataContentType != [] then e.attributes.dataContentType
    else if e.data.Present? then ImplicitContentType(e.data.kind)
    else []
  }

  /** The metadata a structured message may repeat (the `expected` map). */
  function ExpectedTexts(env: Env, a: Attributes): map<bytes, bytes> {
    ContextTexts(env, a) + Optional(DATACONTENTTYPE, a.dataContentType)
  }

  /** The name and text of something the event says. */
  ghost predicate EventSays(env: Env, a: Attributes, name: bytes, text: bytes) {
    || (name == Ascii("specversion") && text == Ascii("1.0"))
    || (name == Ascii("id") && text == a.id) || (name == Ascii("source") && text == a.source)
    || (name == Ascii("type") && text == a.eventType)
    || (name == Ascii("datacontenttype") && text == a.dataContentType != [])
    || (name == Ascii("dataschema") && text == a.dataSchema != [])
    || (name == Ascii("subject") && text == a.subject != [])
    || (name == Ascii("time") && a.time.Some? && text == env.formatTime(a.time.value))
    || (name in a.extensions && text == a.extensions[name].text)
  }

  /** The expected texts are exactly what the event says. */
  lemma ExpectedExact(env: Env, a: Attributes, name: bytes, text: bytes)
    requires ValidAttributes(env, a)
    ensures var expected := ExpectedTexts(env, a);
      (name in expected && expected[name] == text) <==> EventSays(env, a, name, text)
  {
    hide ExpectedTexts, ValidAttributes, Ascii;
    ReservedNames();
    if Reserved(name) {
      StandardSays(env, a, name);
    } else {
      ExtensionSays(env, a, name);
    }
  }

  lemma ExtensionSays(env: Env, a: Attributes, name: bytes)
    requires ValidAttributes(env, a) && !Reserved(name)
    ensures var expected := ExpectedTexts(env, a);
      (name in expected <==> name in a.extensions) && (name in expected ==> expected[name] == a.extensions[name].text)
  {
    hide ContextTexts, ValidAttributes, Ascii, NoReserved;
    JsonRoundTrip.ValidExtensionsFacts(env, a);
    ContextLookup(env, a);
  }

  /** The text of a standard name, if the event has one. */
  function StandardText(env: Env, a: Attributes, name: bytes): Option<bytes> {
    if name == SPECVERSION then Some(VERSION)
    else if name == ID then Some(a.id)
    else if name == SOURCE then Some(a.source)
    else if name == TYPE then Some(a.eventType)
    else if name == DATACONTENTTYPE then Given(a.dataContentType)
    else if name == DATASCHEMA then Given(a.dataSchema)
    else if name == SUBJECT then Given(a.subject)
    else if name == TIME && a.time.Some? then Some(env.formatTime(a.time.value))
    else None
  }

  function Given(text: bytes): Option<bytes> { if text == [] then None else Some(text) }

  lemma StandardSays(env: Env, a: Attributes, name: bytes)
    requires ValidAttributes(env, a) && Reserved(name)
    ensures var expected := ExpectedTexts(env, a);
      && name !in a.extensions
      && (if name in expected then Some(expected[name]) else None) == StandardText(env, a, name)
  {
    hide ContextTexts, ValidAttributes, Ascii, NoReserved;
    JsonRoundTrip.ValidExtensionsFacts(env, a);
    NotReserved(a.extensions);
    ContextLookup(env, a);
    ReservedNames();
    hide SPECVERSION, ID, SOURCE, TYPE, DATACONTENTTYPE, DATASCHEMA, SUBJECT, TIME, DATA, DATA_BASE64, VERSION;
  }

  // ---------- from texts to an event ----------

  function TextOf(m: map<bytes, bytes>, name: bytes): bytes {
    if name in m then m[name] else []
  }

  function BoundTime(env: Env, m: map<bytes, bytes>): Option<Option<Instant>> {
    if TIME !in m then Some(None)
    else if env.parseTime(m[TIME]).None? then None
    else Some(env.parseTime(m[TIME]))
  }

  predicate StringsOnly(m: map<bytes, bytes>) {
    forall n :: n in m && !Reserved(n) ==> ValidCloudString(m[n])
  }

  /** Every text that is not a standard attribute becomes a String extension. */
  function BoundExtensions(m: map<bytes, bytes>): Option<map<bytes, Attribute>> {
    if StringsOnly(m) then Some(map n | n in m && !Reserved(n) :: Attribute(KindString, m[n])) else None
  }

  /** A content type that is JSON is tried before one that is text. */
  function DataByContentType(env: Env, contentType: bytes, value: bytes): Option<Data> {
    if IsJsonMediaType(env, contentType) then NewJSONData(value)
    else if IsTextMediaType(env, contentType) then NewTextData(value)
    else Some(NewBinaryData(value))
  }

  /** The common end of `decodeHTTPBinary` and `decodeKafkaBinary`. */
  function Assemble(env: Env, m: map<bytes, bytes>, contentType: bytes, data: Option<Data>): Option<Event> {
    if TextOf(m, SPECVERSION) != VERSION then None
    else
      var time :- BoundTime(env, m);
      var extensions :- BoundExtensions(m);
      var d :- data;
      NewEvent(env, Attributes(TextOf(m, ID), TextOf(m, SOURCE), TextOf(m, TYPE), contentType, TextOf(m, DATASCHEMA),
                               TextOf(m, SUBJECT), time, extensions), d)
  }

  /** The extension loop, which walks the decoded texts in any order. */
  method CollectBoundExtensions(m: map<bytes, bytes>) returns (r: Option<map<bytes, Attribute>>)
    ensures r == BoundExtensions(m)
  {
    hide Reserved, ValidCloudString;
    var extensions: map<bytes, Attribute> := map[];
    var remaining := m.Keys;
    while remaining != {}
      invariant remaining <= m.Keys
      invariant forall n :: n in m && n !in remaining && !Reserved(n) ==> ValidCloudString(m[n])
      invariant extensions == map n | n in m && n !in remaining && !Reserved(n) :: Attribute(KindString, m[n])
      decreases remaining
    {
      var n :| n in remaining;
      remaining := remaining - {n};
      if !Reserved(n) {
        var attribute := NewStringAttribute(m[n]);
        if attribute.None? {
          return None;
        }
        extensions := extensions[n := attribute.value];
      }
    }
    assert StringsOnly(m);
    assert extensions == BoundExtensions(m).value;
    return Some(extensions);
  }

  /** The common end of the two binary decoders as it is written. */
  method AssembleEvent(env: Env, m: map<bytes, bytes>, contentType: bytes, data: Option<Data>)
    returns (r: Option<Event>)
    ensures r == Assemble(env, m, contentType, data)
  {
    hide BoundExtensions, SPECVERSION, VERSION, ID, SOURCE, TYPE, DATASCHEMA, SUBJECT, TIME, ValidAttributes;
    if TextOf(m, SPECVERSION) != VERSION {
      return None;
    }
    var occurredAt: Option<Instant> := None;
    if TIME in m {
      occurredAt := env.parseTime(m[TIME]);
      if occurredAt.None? {
        return None;
      }
    }
    var extensions := CollectBoundExtensions(m);
    if extensions.None? || data.None? {
      return None;
    }
    return NewEvent(env, Attributes(TextOf(m, ID), TextOf(m, SOURCE), TextOf(m, TYPE), contentType,
                                    TextOf(m, DATASCHEMA), TextOf(m, SUBJECT), occurredAt, extensions.value),
                    data.value);
  }

  lemma AddExtension(m: map<bytes, bytes>, done: map<bytes, Attribute>, n: bytes, x: Attribute)
    ensures (m + ExtensionTexts(done))[n := x.text] == m + ExtensionTexts(done[n := x])
    ensures n !in m && n !in done ==> n !in m + ExtensionTexts(done)
  {
  }

  lemma NoExtensions(m: map<bytes, bytes>)
    ensures m + ExtensionTexts(map[]) == m
  {
  }

  // ---------- exactness ----------

  predicate AllStrings(x: map<bytes, Attribute>) {
    forall n :: n in x ==> x[n].kind == KindString
  }

  predicate TimeSurvives(env: Env, t: Option<Instant>) {
    t.Some? ==> env.parseTime(env.formatTime(t.value)) == t
  }

  lemma ExtensionsExact(env: Env, a: Attributes)
    requires ValidAttributes(env, a)
    ensures BoundExtensions(ContextTexts(env, a)) == Some(a.extensions) <==> AllStrings(a.extensions)
  {
    hide ContextTexts, Reserved, ValidAttributes, ValidCloudString, NoReserved;
    JsonRoundTrip.ValidExtensionsFacts(env, a);
    ContextLookup(env, a);
    NotReserved(a.extensions);
    var m, x := ContextTexts(env, a), a.extensions;
    if AllStrings(x) {
      forall n | n in m && !Reserved(n) ensures ValidCloudString(m[n]) {
        assert ValidAttribute(env, x[n]);
      }
      var r := BoundExtensions(m).value;
      assert forall n :: n in x ==> x[n] == Attribute(KindString, x[n].text);
      assert r == x;
    }
  }

  lemma NotReserved(x: map<bytes, Attribute>)
    requires NoReserved(x)
    ensures forall n :: n in x ==> !Reserved(n)
  {
    hide Reserved;
  }

  /** The texts of a valid event make up the event again exactly when its extensions are
      Strings and its time survives, given its own content type and data. */
  lemma AssembleExact(env: Env, e: Event, contentType: bytes, data: Option<Data>)
    requires ValidEvent(env, e)
    ensures Assemble(env, ContextTexts(env, e.attributes), contentType, data) == Some(e) <==>
      && contentType == e.attributes.dataContentType && data == Some(e.data)
      && AllStrings(e.attributes.extensions) && TimeSurvives(env, e.attributes.time)
  {
    hide ContextTexts, ValidAttributes, ValidData, BoundExtensions, AllStrings, NoReserved, Reserved, SPECVERSION, ID;
    hide SOURCE, TYPE, DATACONTENTTYPE, DATASCHEMA, SUBJECT, TIME, DATA, DATA_BASE64, VERSION;
    var a := e.attributes;
    JsonRoundTrip.ValidExtensionsFacts(env, a);
    ContextLookup(env, a);
    ExtensionsExact(env, a);
  }

  /** The inferred kind is the event's own exactly when the report says so and the content
      type is not both text and JSON. */
  lemma DataKindExact(env: Env, contentType: bytes, kind: DataKind, b: bytes)
    requires ValidData(Present(kind, b))
    ensures DataByContentType(env, contentType, b) == Some(Present(kind, b)) <==>
      KindMatches(env, kind, contentType) && !(kind == TextData && IsJsonMediaType(env, contentType))
  {
    hide IsJsonMediaType, IsTextMediaType, JsonText.IsValid, Utf8.Valid;
  }

  /** Of the texts of a lossless event only the data schema may fail to be UTF-8. */
  lemma ContextUtf8(env: Env, a: Attributes)
    requires ValidAttributes(env, a) && AsciiTime(env, a.time)
    requires forall n :: n in a.extensions ==> KeptByJson(a.extensions[n].kind)
    ensures (forall k :: k in ContextTexts(env, a) ==> Utf8.Valid(ContextTexts(env, a)[k])) <==>
      Utf8.Valid(a.dataSchema)
  {
    hide ContextTexts, ValidAttributes, NoReserved, Reserved, Utf8.Valid, ValidAttribute, CloudScalars, SPECVERSION, ID;
    hide SOURCE, TYPE, DATACONTENTTYPE, DATASCHEMA, SUBJECT, TIME, DATA, DATA_BASE64, VERSION;
    JsonRoundTrip.ValidExtensionsFacts(env, a);
    JsonRoundTrip.EmptyUtf8();
    ContextLookup(env, a);
    var m := ContextTexts(env, a);
    if Utf8.Valid(a.dataSchema) {
      forall k | k in m ensures Utf8.Valid(m[k]) {
        if k in a.extensions {
          AttributeUtf8(env, a.extensions[k]);
        } else {
          StandardUtf8(env, a, k);
        }
      }
    }
  }

  lemma StandardUtf8(env: Env, a: Attributes, k: bytes)
    requires ValidAttributes(env, a) && AsciiTime(env, a.time) && Utf8.Valid(a.dataSchema)
    requires k in ContextTexts(env, a) && k !in a.extensions
    ensures Utf8.Valid(ContextTexts(env, a)[k])
  {
    hide ContextTexts, StandardTexts, NoReserved, Reserved, Utf8.Valid, ValidAttribute, ValidExtension, ValidSelected;
    hide CloudScalars, IsAscii, SPECVERSION, ID, SOURCE, TYPE, DATACONTENTTYPE, DATASCHEMA, SUBJECT, TIME, DATA;
    hide DATA_BASE64, VERSION;
    JsonRoundTrip.ValidExtensionsFacts(env, a);
    ContextLookup(env, a);
    StandardKeys(env, a);
    JsonRoundTrip.ContextKeys(env, a);
    JsonRoundTrip.VersionUtf8();
    if a.time.Some? {
      Utf8.ValidAscii(env.formatTime(a.time.value));
    }
  }

  lemma AttributeUtf8(env: Env, a: Attribute)
    requires ValidAttribute(env, a) && KeptByJson(a.kind)
    ensures Utf8.Valid(a.text)
  {
    hide Utf8.Valid, CloudScalars;
    if a.kind == KindBoolean {
      Utf8.ValidAscii(JsonText.TRUE);
      Utf8.ValidAscii(JsonText.FALSE);
    } else if a.kind == KindInteger {
      Decimal.FormatIsAscii(Decimal.ParseInt32(a.text).value);
      Utf8.ValidAscii(a.text);
    }
  }

  predicate EachAdmitted(m: map<bytes, bytes>, limits: Limits) {
    && 0 < limits.maxAttributeNameBytes && 0 < limits.maxAttributeValueBytes
    && forall n :: n in m ==> |n| <= limits.maxAttributeNameBytes && |m[n]| <= limits.maxAttributeValueBytes
  }

  /** The limits on context attributes, which here apply to every name. */
  predicate TextsAdmitted(m: map<bytes, bytes>, limits: Limits) {
    |m| <= limits.maxAttributes && EachAdmitted(m, limits)
  }

  predicate AllUtf8(m: map<bytes, bytes>) {
    forall n :: n in m ==> Utf8.Valid(m[n])
  }

  lemma ContextFacts(env: Env, a: Attributes)
    requires ValidAttributes(env, a)
    ensures var m := ContextTexts(env, a);
      DATACONTENTTYPE !in m && m != map[] && forall n :: n in m ==> ValidName(n)
  {
    hide ContextTexts, ValidAttributes, ValidName, DATACONTENTTYPE, NoReserved, ValidAttribute;
    JsonRoundTrip.ValidExtensionsFacts(env, a);
    ContextNamesValid(env, a);
    assert DATACONTENTTYPE !in ContextTexts(env, a) && ContextTexts(env, a) != map[] by { ContextLookup(env, a); }
  }

  lemma StringContextUtf8(env: Env, a: Attributes)
    requires ValidAttributes(env, a) && AsciiTime(env, a.time) && AllStrings(a.extensions)
    ensures AllUtf8(ContextTexts(env, a)) <==> Utf8.Valid(a.dataSchema)
  {
    hide ValidAttributes, AsciiTime, ContextTexts, Utf8.Valid;
    ContextUtf8(env, a);
  }

  // ---------- metadata beside a structured event ----------

  /** The metadata is part of what the event says. */
  predicate Repeats(m: map<bytes, bytes>, expected: map<bytes, bytes>) {
    forall n :: n in m ==> n in expected && m[n] == expected[n]
  }

  predicate NamesFit(m: map<bytes, bytes>, limits: Limits) {
    forall n :: n in m ==> |n| <= limits.maxAttributeNameBytes
  }

  /** What the expected texts of a faithful, admitted, lossless event satisfy. */
  lemma ExpectedFacts(env: Env, e: Event, limits: Limits)
    requires ValidEvent(env, e) && AsciiTime(env, e.attributes.time)
    requires JsonLossless(env, e) && JsonRoundTrip.Faithful(env, e.attributes)
    requires JsonRoundTrip.ContextFits(env, e.attributes, limits)
    ensures var expected := ExpectedTexts(env, e.attributes);
      && AllUtf8(expected) && (forall n :: n in expected ==> n != [] && |expected[n]| <= limits.maxAttributeValueBytes)
    ensures 0 < limits.maxAttributeValueBytes
  {
    hide ContextTexts, ValidAttributes, Utf8.Valid, DATACONTENTTYPE, ValidData, JsonDataKept, KeptByJson, AsciiTime;
    hide NoReserved, ValidAttribute;
    var a := e.attributes;
    ContextUtf8(env, a);
    JsonRoundTrip.ValidExtensionsFacts(env, a);
    ContextNamesValid(env, a);
    assert DATACONTENTTYPE != [] by { ReservedNames(); }
    assert 0 < limits.maxAttributeValueBytes by {
      hide SPECVERSION, ID, SOURCE, TYPE, DATASCHEMA, SUBJECT, TIME, DATA, DATA_BASE64;
      ContextLookup(env, a);
      assert |VERSION| == 3;
    }
  }

  /** Metadata that repeats the event is no larger than the event. */
  lemma RepeatsSize(env: Env, a: Attributes, m: map<bytes, bytes>)
    requires Repeats(m, ExpectedTexts(env, a))
    ensures |m| <= |ContextTexts(env, a)| + if a.dataContentType == [] then 0 else 1
  {
    hide ContextTexts, DATACONTENTTYPE;
    var c := ContextTexts(env, a);
    var extra := if a.dataContentType == [] then {} else {DATACONTENTTYPE};
    var all := c.Keys + extra;
    assert m.Keys <= all;
    assert all == m.Keys + (all - m.Keys);
    assert |all| <= |c.Keys| + |extra|;
  }
}
