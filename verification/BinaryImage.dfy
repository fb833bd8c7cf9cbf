/** What comes back from the two binary bindings for every valid event, lossy or not, and that
    the binary report names exactly what differs. */
module BinaryImage {
  import opened Bytes
  import opened Order
  import opened Event
  import opened Conversion
  import opened Admission
  import opened Binding
  import opened HttpHeader
  import opened HttpBinding
  import opened HttpRoundTrip
  import JsonImage
  import JsonRoundTrip
  import JsonText
  import KafkaBinding
  import KafkaRoundTrip
  import Utf8

  type KafkaHeader = KafkaBinding.KafkaHeader

  const APPLICATION_JSON: bytes := Ascii("application/json")
  const TEXT_PLAIN: bytes := Ascii("text/plain")
  const OCTET_STREAM: bytes := Ascii("application/octet-stream")

  /** The three content types that are filled in parse to themselves. */
  predicate MediaTypeLaws(env: Env) {
    && env.mediaType(APPLICATION_JSON) == Some(APPLICATION_JSON)
    && env.mediaType(TEXT_PLAIN) == Some(TEXT_PLAIN)
    && env.mediaType(OCTET_STREAM) == Some(OCTET_STREAM)
  }

  // ---------- the content type that is filled in ----------

  /** The declared content type, or the one that stands for the kind of the data. */
  function FilledContentType(e: Event): bytes {
    if e.attributes.dataContentType != [] then e.attributes.dataContentType
    else match e.data
      case Absent => []
      case Present(JsonData, _) => APPLICATION_JSON
      case Present(TextData, _) => TEXT_PLAIN
      case Present(BinaryData, _) => OCTET_STREAM
  }

  lemma SentIsFilled(e: Event)
    ensures SentContentType(e) == FilledContentType(e)
  {
  }

  lemma MediaKinds(env: Env)
    requires MediaTypeLaws(env)
    ensures IsJsonMediaType(env, APPLICATION_JSON)
    ensures IsTextMediaType(env, TEXT_PLAIN) && !IsJsonMediaType(env, TEXT_PLAIN)
    ensures !IsTextMediaType(env, OCTET_STREAM) && !IsJsonMediaType(env, OCTET_STREAM)
  {
    JsonKind(env);
    assert JsonImage.TEXT_PLAIN == TEXT_PLAIN;
    JsonImage.PlainIsText(env);
    OctetKind(env);
  }

  lemma JsonKind(env: Env)
    requires env.mediaType(APPLICATION_JSON) == Some(APPLICATION_JSON)
    ensures IsJsonMediaType(env, APPLICATION_JSON)
  {
    var m := APPLICATION_JSON;
    assert m[11] == SLASH && m[..11] == Ascii("application");
    assert SLASH !in Ascii("application");
    IndexOfUnique(m, SLASH, 11);
    assert m[12..] == Ascii("json");
  }

  lemma OctetKind(env: Env)
    requires env.mediaType(OCTET_STREAM) == Some(OCTET_STREAM)
    ensures !IsTextMediaType(env, OCTET_STREAM) && !IsJsonMediaType(env, OCTET_STREAM)
  {
    var m := OCTET_STREAM;
    assert |m| == 24 && m[0] == 0x61 && m[23] == 0x6D;
    assert m[..5][0] == m[0] && Ascii("text/")[0] == 0x74;
    LastByte(m);
  }

  /** A media type that does not end in `n` is not JSON. */
  lemma LastByte(m: bytes)
    requires m != [] && m[|m| - 1] != 0x6E
    ensures !JsonSubtype(m)
  {
    assert Ascii("json")[3] == 0x6E && Ascii("+json")[4] == 0x6E;
    var n := IndexOf(m, SLASH);
    if n + 1 < |m| {
      var rest := m[n + 1..];
      assert rest[|rest| - 1] == m[|m| - 1];
      assert |rest| >= 5 ==> rest[|rest| - 5..][4] == rest[|rest| - 1];
    }
  }

  /** The content type that is filled in preserves the data, as the report says. */
  lemma FilledPreserves(env: Env, e: Event)
    requires MediaTypeLaws(env) && ValidData(e.data) && e.data.Present? && e.attributes.dataContentType == []
    ensures DataByContentType(env, SentContentType(e), e.data.bytes) == Some(e.data)
  {
    hide IsJsonMediaType, IsTextMediaType, ImplicitContentType, JsonText.IsValid, Utf8.Valid, Ascii;
    SentIsFilled(e);
    MediaKinds(env);
  }

  lemma FilledModes(env: Env)
    requires MediaTypeLaws(env)
    ensures HttpBinding.ModeOf(env, APPLICATION_JSON) == Some(BinaryMode) && APPLICATION_JSON != []
    ensures HttpBinding.ModeOf(env, TEXT_PLAIN) == Some(BinaryMode) && TEXT_PLAIN != []
    ensures HttpBinding.ModeOf(env, OCTET_STREAM) == Some(BinaryMode) && OCTET_STREAM != []
    ensures KafkaBinding.ModeOf(env, APPLICATION_JSON) == Some(BinaryMode) && Utf8.Valid(APPLICATION_JSON)
    ensures KafkaBinding.ModeOf(env, TEXT_PLAIN) == Some(BinaryMode) && Utf8.Valid(TEXT_PLAIN)
    ensures KafkaBinding.ModeOf(env, OCTET_STREAM) == Some(BinaryMode) && Utf8.Valid(OCTET_STREAM)
  {
    PlainMode(env, APPLICATION_JSON);
    PlainMode(env, TEXT_PLAIN);
    PlainMode(env, OCTET_STREAM);
  }

  lemma PlainMode(env: Env, m: bytes)
    requires env.mediaType(m) == Some(m) && m in {APPLICATION_JSON, TEXT_PLAIN, OCTET_STREAM}
    ensures HttpBinding.ModeOf(env, m) == Some(BinaryMode) && m != []
    ensures KafkaBinding.ModeOf(env, m) == Some(BinaryMode) && Utf8.Valid(m)
  {
    hide Utf8.Valid;
    Utf8.ValidAscii(m);
    assert |APPLICATION_JSON| == 16 && |TEXT_PLAIN| == 10 && |OCTET_STREAM| == 24;
    assert |JSON_MEDIA_TYPE| == 28 && |JSON_BATCH_MEDIA_TYPE| == 34 && |CLOUDEVENTS_MEDIA_TYPES| == 23;
    assert OCTET_STREAM[12] == 0x6F && CLOUDEVENTS_MEDIA_TYPES[12] == 0x63;
    if |m| == 24 {
      assert m[..23][12] == m[12];
    }
  }

  // ---------- the image of an event ----------

  /** Every extension becomes a String of its text, if that is one. */
  function BoundAttribute(a: Attribute): Option<Attribute> {
    if ValidCloudString(a.text) then Some(Attribute(KindString, a.text)) else None
  }

  predicate AllBound(x: map<bytes, Attribute>) {
    forall n :: n in x ==> BoundAttribute(x[n]).Some?
  }

  function BoundImage(x: map<bytes, Attribute>): Option<map<bytes, Attribute>> {
    if AllBound(x) then Some(map n | n in x :: BoundAttribute(x[n]).value) else None
  }

  /** The data a receiver infers from the content type: over Kafka absent data stays absent,
      over HTTP it does so only without a content type. */
  function KafkaImageData(env: Env, e: Event): Option<Data> {
    if e.data.Absent? then Some(Absent) else DataByContentType(env, FilledContentType(e), e.data.bytes)
  }

  function HttpImageData(env: Env, e: Event): Option<Data> {
    if e.data.Absent? && FilledContentType(e) == [] then Some(Absent)
    else DataByContentType(env, FilledContentType(e), if e.data.Present? then e.data.bytes else [])
  }

  function ImageOf(e: Event, data: Option<Data>): Option<Event> {
    var x :- BoundImage(e.attributes.extensions);
    var d :- data;
    Some(Event(e.attributes.(dataContentType := FilledContentType(e), extensions := x), d))
  }

  // ---------- assembling ----------

  lemma BoundExtensionsAre(env: Env, a: Attributes)
    requires ValidAttributes(env, a)
    ensures BoundExtensions(ContextTexts(env, a)) == BoundImage(a.extensions)
  {
    hide ContextTexts, Reserved, ValidAttributes, ValidCloudString, NoReserved, ValidAttribute;
    JsonRoundTrip.ValidExtensionsFacts(env, a);
    ContextLookup(env, a);
    NotReserved(a.extensions);
    var m, x := ContextTexts(env, a), a.extensions;
    if AllBound(x) {
      forall n | n in m && !Reserved(n) ensures ValidCloudString(m[n]) {
        assert BoundAttribute(x[n]).Some?;
      }
      assert BoundExtensions(m).value == BoundImage(x).value;
    } else {
      var n :| n in x && BoundAttribute(x[n]).None?;
      assert n in m && !Reserved(n);
    }
  }

  lemma ImageValid(env: Env, e: Event, image: Event, data: Option<Data>)
    requires ValidEvent(env, e) && MediaTypeLaws(env) && ImageOf(e, data) == Some(image)
    ensures ValidAttributes(env, image.attributes)
  {
    hide ValidData, ValidName, Reserved, ValidCloudString, TRACEPARENT, TRACESTATE, PARTITIONKEY;
    hide ValidTraceParentAttribute, ValidTraceStateAttribute, ValidPartitionKeyAttribute, Ascii;
    var a, x := e.attributes, image.attributes.extensions;
    forall n | n in x
      ensures ValidExtension(env, n, x[n]) && (a.extensions[n].kind == KindString ==> x[n] == a.extensions[n])
    {
      assert ValidExtension(env, n, a.extensions[n]);
    }
    JsonImage.SelectedStrings(a.extensions);
    JsonImage.SelectedSame(a.extensions, x);
  }

  lemma AssembleImage(env: Env, e: Event, data: Option<Data>)
    requires ValidEvent(env, e) && MediaTypeLaws(env) && TimeSurvives(env, e.attributes.time)
    ensures Assemble(env, ContextTexts(env, e.attributes), FilledContentType(e), data) == ImageOf(e, data)
  {
    hide ContextTexts, ValidAttributes, ValidData, BoundExtensions, BoundImage, NoReserved, Reserved, FilledContentType;
    hide SPECVERSION, ID, SOURCE, TYPE, DATACONTENTTYPE, DATASCHEMA, SUBJECT, TIME, DATA, DATA_BASE64, VERSION;
    hide MediaTypeLaws;
    JsonRoundTrip.ValidExtensionsFacts(env, e.attributes);
    ContextLookup(env, e.attributes);
    BoundExtensionsAre(env, e.attributes);
    if ImageOf(e, data).Some? {
      ImageValid(env, e, ImageOf(e, data).value, data);
    }
  }

  /** Where every extension is a String text, only the data schema can fail to be UTF-8. */
  lemma BoundUtf8(env: Env, a: Attributes)
    requires ValidAttributes(env, a) && AsciiTime(env, a.time) && Utf8.Valid(a.dataSchema)
    requires BoundImage(a.extensions).Some?
    ensures AllUtf8(ContextTexts(env, a))
  {
    hide ContextTexts, ValidAttributes, NoReserved, Reserved, Utf8.Valid, ValidAttribute, CloudScalars, AsciiTime;
    JsonRoundTrip.ValidExtensionsFacts(env, a);
    ContextLookup(env, a);
    var m := ContextTexts(env, a);
    forall k | k in m ensures Utf8.Valid(m[k]) {
      if k in a.extensions {
        assert BoundAttribute(a.extensions[k]).Some?;
      } else {
        StandardUtf8(env, a, k);
      }
    }
  }

  // ---------- HTTP ----------

  /** The content type is none of the package's own, and time and schema are faithful. */
  predicate HttpCarries(env: Env, e: Event) {
    && (e.attributes.dataContentType != [] ==>
          HttpBinding.ModeOf(env, e.attributes.dataContentType) == Some(BinaryMode))
    && TimeSurvives(env, e.attributes.time) && Utf8.Valid(e.attributes.dataSchema)
  }

  predicate HttpImageAdmitted(env: Env, e: Event, limits: Limits) {
    && BodyAdmitted(EncodedBody(e), limits.maxDataBytes)
    && |FilledContentType(e)| <= limits.maxAttributeValueBytes
    && TextsAdmitted(ContextTexts(env, e.attributes), limits)
  }

  lemma FilledMode(env: Env, e: Event)
    requires MediaTypeLaws(env)
    ensures var w := FilledContentType(e);
      && (w != e.attributes.dataContentType ==>
            && HttpBinding.ModeOf(env, w) == Some(BinaryMode) && KafkaBinding.ModeOf(env, w) == Some(BinaryMode)
            && Utf8.Valid(w))
      && (w == [] ==> e.attributes.dataContentType == [])
  {
    hide HttpBinding.ModeOf, KafkaBinding.ModeOf, Utf8.Valid, Ascii;
    FilledModes(env);
  }

  lemma HttpDataIs(env: Env, e: Event)
    ensures HttpData(env, FilledContentType(e), EncodedBody(e)) == HttpImageData(env, e)
  {
    hide DataByContentType, Ascii;
    assert APPLICATION_JSON != [] && TEXT_PLAIN != [] && OCTET_STREAM != [] by { FilledNotEmpty(); }
  }

  lemma FilledNotEmpty()
    ensures APPLICATION_JSON != [] && TEXT_PLAIN != [] && OCTET_STREAM != []
  {
    assert |APPLICATION_JSON| == 16 && |TEXT_PLAIN| == 10 && |OCTET_STREAM| == 24;
  }

  /** What comes back over HTTP. For every valid event that HTTP carries, and for all limits,
      decoding the binary message gives the event's image, if it has one and the limits admit
      the message, and nothing otherwise. */
  lemma HttpImageExact(env: Env, e: Event, limits: Limits)
    requires ValidEvent(env, e) && AsciiTime(env, e.attributes.time) && MediaTypeLaws(env) && HttpCarries(env, e)
    ensures var image := ImageOf(e, HttpImageData(env, e));
      DecodedHttp(env, EncodedHeader(env, e), EncodedBody(e), limits) ==
        if image.Some? && HttpImageAdmitted(env, e, limits) then Some((BinaryMode, [image.value])) else None
  {
    hide DecodedHttp, EncodedBody, ContextTexts, ValidAttributes, ValidData, HttpBinding.ModeOf, Assemble, HttpData;
    hide HttpImageData, BodyAdmitted, TextsAdmitted, AllUtf8, TimeSurvives, AsciiTime, Utf8.Valid, FilledContentType;
    hide MediaTypeLaws, LowerNames, DATACONTENTTYPE, AttributeHeaders, ContentTypeHeader, SentContentType, BoundImage;
    var w, m, data := FilledContentType(e), ContextTexts(env, e.attributes), HttpImageData(env, e);
    SentIsFilled(e);
    FilledMode(env, e);
    ContextMessage(env, e.attributes);
    assert EncodedHeader(env, e) == Message(m, w);
    BinaryResult(env, Message(m, w), EncodedBody(e), limits);
    DetectMessage(env, m, w, limits);
    HeadersExact(m, w, limits);
    HttpDataIs(env, e);
    AssembleImage(env, e, data);
    AdmittedPositive(m, limits);
    if BoundImage(e.attributes.extensions).Some? {
      BoundUtf8(env, e.attributes);
    }
  }

  /** The whole answer for headers that select binary mode, or are refused. */
  lemma BinaryResult(env: Env, header: Header, body: bytes, limits: Limits)
    ensures var d, texts := HttpBinding.Detect(env, header, limits), HeaderTexts(header, limits);
      (d.None? || d.value.0 == BinaryMode) ==>
        DecodedHttp(env, header, body, limits) ==
          if d.None? || !BodyAdmitted(body, limits.maxDataBytes) || texts.None? then None
          else
            var e := Assemble(env, texts.value, d.value.1, HttpData(env, d.value.1, body));
            if e.None? then None else Some((BinaryMode, [e.value]))
  {
    hide HttpBinding.Detect, HeaderTexts, Assemble, HttpData, BodyAdmitted, HttpBinding.MetadataAgrees, ExpectedTexts;
    hide AttributeKeys, JsonRoundTrip.JsonCodec.DecodeText;
  }

  // ---------- Kafka ----------

  predicate KafkaCarries(env: Env, e: Event) {
    && (e.attributes.dataContentType != [] ==>
          KafkaBinding.ModeOf(env, e.attributes.dataContentType) == Some(BinaryMode))
    && JsonRoundTrip.Faithful(env, e.attributes)
  }

  ghost predicate KafkaImageAdmitted(env: Env, e: Event, key: Option<bytes>, transport: seq<KafkaHeader>,
      limits: Limits) {
    var record := KafkaRoundTrip.BinaryRecord(env, e, key, transport);
    && KafkaBinding.RecordAdmitted(record, limits) && KafkaRoundTrip.SizesFit(record.headers, limits)
    && KafkaRoundTrip.NamesUtf8(transport)
    && TextsAdmitted(ContextTexts(env, e.attributes), limits)
    && |KafkaBinding.BytesOf(record.value)| <= limits.maxDataBytes
  }

  lemma KafkaDataIs(env: Env, e: Event, limits: Limits)
    ensures KafkaBinding.KafkaData(env, FilledContentType(e), KafkaBinding.EncodedValue(e.data), limits) ==
      if e.data.Absent? || |e.data.bytes| <= limits.maxDataBytes then KafkaImageData(env, e) else None
  {
    hide DataByContentType, Ascii;
  }

  /** What comes back over Kafka, with the key and the transport headers. */
  lemma KafkaImageExact(env: Env, e: Event, key: Option<bytes>, transport: seq<KafkaHeader>, limits: Limits)
    requires ValidEvent(env, e) && AsciiTime(env, e.attributes.time) && MediaTypeLaws(env) && KafkaCarries(env, e)
    requires KafkaRoundTrip.AllTransport(transport)
    ensures var image := ImageOf(e, KafkaImageData(env, e));
      KafkaBinding.DecodedKafka(env, KafkaRoundTrip.BinaryRecord(env, e, key, transport), limits) ==
        if image.Some? && KafkaImageAdmitted(env, e, key, transport, limits)
        then Some(KafkaBinding.KafkaMessage(BinaryMode, image.value, key, transport)) else None
  {
    hide KafkaBinding.DecodedKafka, ContextTexts, ValidAttributes, ValidData, KafkaBinding.ModeOf, Assemble;
    hide KafkaBinding.KafkaData, KafkaImageData, TextsAdmitted, AllUtf8, AsciiTime, Utf8.Valid, FilledContentType;
    hide MediaTypeLaws, DATACONTENTTYPE, SentContentType, BoundImage, KafkaRoundTrip.AllTransport, TimeSurvives;
    hide KafkaRoundTrip.SizesFit, KafkaRoundTrip.NamesUtf8, KafkaBinding.BoundHeaders;
    var w, m := FilledContentType(e), ContextTexts(env, e.attributes);
    SentIsFilled(e);
    FilledMode(env, e);
    KafkaRecordResult(env, e, key, transport, limits);
    KafkaDataIs(env, e, limits);
    Survives(env, e.attributes.time);
    AssembleImage(env, e, KafkaBinding.KafkaData(env, w, KafkaBinding.EncodedValue(e.data), limits));
    if BoundImage(e.attributes.extensions).Some? {
      BoundUtf8(env, e.attributes);
    }
  }

  lemma Survives(env: Env, t: Option<Instant>)
    requires t.Some? ==> env.parseTime(env.formatTime(t.value)) == t
    ensures TimeSurvives(env, t)
  {
  }

  /** The whole answer for a record as the encoder writes it. */
  lemma KafkaRecordResult(env: Env, e: Event, key: Option<bytes>, transport: seq<KafkaHeader>, limits: Limits)
    requires ValidEvent(env, e) && KafkaRoundTrip.AllTransport(transport)
    requires var w := SentContentType(e); w != [] ==> Utf8.Valid(w) && KafkaBinding.ModeOf(env, w) == Some(BinaryMode)
    ensures var w, m := SentContentType(e), ContextTexts(env, e.attributes);
      var record := KafkaRoundTrip.BinaryRecord(env, e, key, transport);
      KafkaBinding.DecodedKafka(env, record, limits) ==
        if && KafkaBinding.RecordAdmitted(record, limits) && KafkaRoundTrip.SizesFit(record.headers, limits)
           && KafkaRoundTrip.NamesUtf8(transport) && AllUtf8(m) && TextsAdmitted(m, limits)
        then
          var r := Assemble(env, m, w, KafkaBinding.KafkaData(env, w, KafkaBinding.EncodedValue(e.data), limits));
          if r.None? then None else Some(KafkaBinding.KafkaMessage(BinaryMode, r.value, key, transport))
        else None
  {
    hide ContextTexts, ValidAttributes, ValidData, SentContentType, KafkaBinding.BoundHeaders;
    hide KafkaBinding.HeadersAdmitted, KafkaRoundTrip.SizesFit, KafkaRoundTrip.NamesUtf8, KafkaBinding.ModeOf, AllUtf8;
    hide Assemble, KafkaBinding.KafkaData, KafkaBinding.EncodedValue, KafkaBinding.ContentTypeValues;
    hide KafkaBinding.AttributeValues, EachAdmitted, KafkaBinding.TransportHeaders, KafkaRoundTrip.Wrapped;
    hide KafkaBinding.ValuesDecode, KafkaBinding.SingleTexts, KafkaRoundTrip.AllTransport, KafkaRoundTrip.NamesValid;
    hide DATACONTENTTYPE, Utf8.Valid, KafkaBinding.RecordAdmitted;
    var w, m := SentContentType(e), ContextTexts(env, e.attributes);
    KafkaRoundTrip.ContextNames(env, e.attributes);
    assert DATACONTENTTYPE !in m && m != map[] by { ContextFacts(env, e.attributes); }
    KafkaRoundTrip.BoundPartition(m, w, transport);
    KafkaRoundTrip.BoundAdmitted(m, w, transport, limits);
    KafkaRoundTrip.WrappedTexts(m, limits);
    assert DATACONTENTTYPE !in KafkaRoundTrip.Wrapped(m) by { KafkaRoundTrip.WrappedKeys(m); }
  }

  // ---------- the report names what differs ----------

  /** The reason that goes with a content type that was filled in. */
  function FilledReason(kind: DataKind): bytes {
    match kind
    case JsonData => APPLICATION_JSON + MATERIALIZED_LOSS
    case TextData => TEXT_PLAIN + MATERIALIZED_LOSS
    case BinaryData => OCTET_STREAM + MATERIALIZED_LOSS
  }

  lemma FilledReasons(kind: DataKind)
    ensures ImplicitContentType(kind) + MATERIALIZED_LOSS == FilledReason(kind)
  {
    hide Ascii;
  }

  lemma NoteInReport(env: Env, e: Event, note: Note)
    ensures note in BinaryReport(env, e) <==>
      note in BinaryDataLosses(env, e) || note in ExtensionNotes(LostByBinding(e), PROTOCOL_STRING_LOSS)
  {
    hide Canonical, ExtensionNotes, BinaryDataLosses, LostByBinding;
    JsonImage.InReport(BinaryDataLosses(env, e), LostByBinding(e), PROTOCOL_STRING_LOSS, note);
  }

  lemma DataLosses(env: Env, e: Event)
    requires MediaTypeLaws(env) && ValidData(e.data)
    ensures BinaryDataLosses(env, e) ==
      if FilledContentType(e) != e.attributes.dataContentType then [Note(DATACONTENTTYPE, FilledReason(e.data.kind))]
      else if e.data.Present? && !KindMatches(env, e.data.kind, e.attributes.dataContentType)
      then [Note(DATA, KIND_LOSS)]
      else []
    ensures FilledContentType(e) != e.attributes.dataContentType <==>
      e.data.Present? && e.attributes.dataContentType == []
  {
    hide KindMatches, ImplicitContentType, FilledReason, JsonText.IsValid, Utf8.Valid, Ascii;
    FilledNotEmpty();
    if e.data.Present? {
      FilledReasons(e.data.kind);
    }
  }

  /** Text under a content type that is JSON too is the one case the report misses (and, over
      HTTP, absent data with a content type). */
  predicate KindsSeen(env: Env, e: Event) {
    e.data.Present? && e.data.kind == TextData ==>
      !IsJsonMediaType(env, e.attributes.dataContentType) || e.attributes.dataContentType == []
  }

  lemma OtherData(env: Env, e: Event)
    requires MediaTypeLaws(env) && ValidData(e.data) && KindsSeen(env, e)
    ensures KafkaImageData(env, e) != Some(e.data) <==>
      && e.data.Present? && e.attributes.dataContentType != []
      && !KindMatches(env, e.data.kind, e.attributes.dataContentType)
    ensures (e.data.Absent? ==> e.attributes.dataContentType == []) ==> HttpImageData(env, e) == KafkaImageData(env, e)
  {
    hide KindMatches, IsJsonMediaType, DataByContentType, ValidData, Ascii;
    if e.data.Present? {
      if e.attributes.dataContentType == [] {
        SentIsFilled(e);
        FilledPreserves(env, e);
      } else {
        DataKindExact(env, e.attributes.dataContentType, e.data.kind, e.data.bytes);
      }
    }
  }

  lemma ReportDataNotes(env: Env, e: Event)
    requires ValidEvent(env, e) && MediaTypeLaws(env) && KindsSeen(env, e)
    ensures var r := BinaryReport(env, e);
      && (FilledContentType(e) != e.attributes.dataContentType ==>
            e.data.Present? && Note(DATACONTENTTYPE, FilledReason(e.data.kind)) in r)
      && (FilledContentType(e) == e.attributes.dataContentType ==> forall reason :: Note(DATACONTENTTYPE, reason) !in r)
      && (Note(DATA, KIND_LOSS) in r <==> KafkaImageData(env, e) != Some(e.data))
  {
    hide BinaryReport, FilledContentType, FilledReason, KafkaImageData, BinaryDataLosses, ExtensionNotes, LostByBinding;
    hide ValidAttributes, ValidData, MediaTypeLaws, KindMatches, IsJsonMediaType, HttpImageData, Ascii;
    DataLosses(env, e);
    OtherData(env, e);
    JsonImage.ReasonsApart();
    forall reason
      ensures Note(DATACONTENTTYPE, reason) in BinaryReport(env, e) <==>
        Note(DATACONTENTTYPE, reason) in BinaryDataLosses(env, e)
    {
      NoteInReport(env, e, Note(DATACONTENTTYPE, reason));
      JsonImage.NotExtensionNote(LostByBinding(e), PROTOCOL_STRING_LOSS, Note(DATACONTENTTYPE, reason));
    }
    NoteInReport(env, e, Note(DATA, KIND_LOSS));
    JsonImage.NotExtensionNote(LostByBinding(e), PROTOCOL_STRING_LOSS, Note(DATA, KIND_LOSS));
  }

  lemma ReportExtensionNote(env: Env, e: Event, n: bytes)
    requires ValidEvent(env, e) && MediaTypeLaws(env)
    ensures Note(EXTENSIONS + n, PROTOCOL_STRING_LOSS) in BinaryReport(env, e) <==>
      n in e.attributes.extensions && BoundAttribute(e.attributes.extensions[n]) != Some(e.attributes.extensions[n])
  {
    hide BinaryReport, FilledContentType, FilledReason, BinaryDataLosses, ExtensionNotes, LostByBinding, BoundAttribute;
    hide ValidAttributes, ValidData, MediaTypeLaws, KindMatches, Ascii;
    DataLosses(env, e);
    JsonImage.ReasonsApart();
    LostHasOtherImage(env, e);
    NoteInReport(env, e, Note(EXTENSIONS + n, PROTOCOL_STRING_LOSS));
    JsonImage.ExtensionNoteFor(LostByBinding(e), PROTOCOL_STRING_LOSS, n);
  }

  /** Every note of the binary report, with its reason, stands for one difference between the
      event and its image, every difference has its note, and there is no other note. */
  lemma BinaryReportNames(env: Env, e: Event)
    requires ValidEvent(env, e) && MediaTypeLaws(env) && KindsSeen(env, e)
    ensures var r, x := BinaryReport(env, e), e.attributes.extensions;
      && (FilledContentType(e) != e.attributes.dataContentType ==>
            e.data.Present? && Note(DATACONTENTTYPE, FilledReason(e.data.kind)) in r)
      && (FilledContentType(e) == e.attributes.dataContentType ==> forall reason :: Note(DATACONTENTTYPE, reason) !in r)
      && (Note(DATA, KIND_LOSS) in r <==> KafkaImageData(env, e) != Some(e.data))
      && (forall n :: Note(EXTENSIONS + n, PROTOCOL_STRING_LOSS) in r <==> n in x && BoundAttribute(x[n]) != Some(x[n]))
      && (forall note :: note in r ==>
            || (e.data.Present? && note == Note(DATACONTENTTYPE, FilledReason(e.data.kind)))
            || note == Note(DATA, KIND_LOSS)
            || exists n :: n in x && note == Note(EXTENSIONS + n, PROTOCOL_STRING_LOSS))
  {
    hide BinaryReport, FilledContentType, FilledReason, KafkaImageData, BinaryDataLosses, ExtensionNotes, LostByBinding;
    hide ValidAttributes, ValidData, MediaTypeLaws, KindMatches, BoundAttribute, KindsSeen, Ascii;
    ReportDataNotes(env, e);
    forall n ensures Note(EXTENSIONS + n, PROTOCOL_STRING_LOSS) in BinaryReport(env, e) <==>
      n in e.attributes.extensions && BoundAttribute(e.attributes.extensions[n]) != Some(e.attributes.extensions[n])
    {
      ReportExtensionNote(env, e, n);
    }
    DataLosses(env, e);
    LostHasOtherImage(env, e);
    forall note | note in BinaryReport(env, e)
      ensures
        || (e.data.Present? && note == Note(DATACONTENTTYPE, FilledReason(e.data.kind)))
        || note == Note(DATA, KIND_LOSS)
        || exists n :: n in e.attributes.extensions && note == Note(EXTENSIONS + n, PROTOCOL_STRING_LOSS)
    {
      NoteInReport(env, e, note);
      if note in ExtensionNotes(LostByBinding(e), PROTOCOL_STRING_LOSS) {
        JsonImage.ExtensionNoteFrom(e, LostByBinding(e), PROTOCOL_STRING_LOSS, note);
      }
    }
  }

  /** The binary report names exactly what changes. Where HTTP and Kafka carry the event, both
      decoders give an event that differs in a field if and only if the report names the field,
      or fail, and then data or an extension is reported. */
  lemma BinaryReportNamesChanges(env: Env, e: Event, key: Option<bytes>, transport: seq<KafkaHeader>, limits: Limits)
    requires ValidEvent(env, e) && AsciiTime(env, e.attributes.time) && MediaTypeLaws(env) && KindsSeen(env, e)
    requires HttpCarries(env, e) && KafkaCarries(env, e) && KafkaRoundTrip.AllTransport(transport)
    requires e.data.Absent? ==> e.attributes.dataContentType == []
    requires HttpImageAdmitted(env, e, limits) && KafkaImageAdmitted(env, e, key, transport, limits)
    ensures var http := DecodedHttp(env, EncodedHeader(env, e), EncodedBody(e), limits);
      var kafka := KafkaBinding.DecodedKafka(env, KafkaRoundTrip.BinaryRecord(env, e, key, transport), limits);
      var image, r := ImageOf(e, KafkaImageData(env, e)), BinaryReport(env, e);
      && http == (if image.None? then None else Some((BinaryMode, [image.value])))
      && kafka == (if image.None? then None
                   else Some(KafkaBinding.KafkaMessage(BinaryMode, image.value, key, transport)))
      && (image.None? ==>
            || Note(DATA, KIND_LOSS) in r
            || exists n :: n in e.attributes.extensions && Note(EXTENSIONS + n, PROTOCOL_STRING_LOSS) in r)
      && (image.Some? ==> Changes(e, image.value, r))
  {
    hide DecodedHttp, KafkaBinding.DecodedKafka, KafkaRoundTrip.BinaryRecord, EncodedHeader, EncodedBody;
    hide ValidAttributes, ValidData, AsciiTime, MediaTypeLaws, HttpImageAdmitted, KafkaImageAdmitted;
    hide KafkaRoundTrip.AllTransport, BinaryReport, HttpImageData, KafkaImageData, FilledContentType, FilledReason;
    hide BoundAttribute, HttpCarries, KafkaCarries, KindsSeen, Ascii;
    HttpImageExact(env, e, limits);
    KafkaImageExact(env, e, key, transport, limits);
    OtherData(env, e);
    BinaryReportNames(env, e);
    if BoundImage(e.attributes.extensions).None? {
      var n :| n in e.attributes.extensions && BoundAttribute(e.attributes.extensions[n]).None?;
    }
  }

  /** An event `d` differs from `e` exactly where the report has a note. */
  ghost predicate Changes(e: Event, d: Event, r: seq<Note>) {
    var x, y := e.attributes.extensions, d.attributes.extensions;
    && ((exists reason :: Note(DATACONTENTTYPE, reason) in r) <==>
          d.attributes.dataContentType != e.attributes.dataContentType)
    && (Note(DATA, KIND_LOSS) in r <==> d.data != e.data)
    && y.Keys == x.Keys && (forall n :: n in x ==> (Note(EXTENSIONS + n, PROTOCOL_STRING_LOSS) in r <==> y[n] != x[n]))
    && d.attributes.(dataContentType := e.attributes.dataContentType, extensions := x) == e.attributes
  }

  lemma LostHasOtherImage(env: Env, e: Event)
    requires ValidEvent(env, e)
    ensures LostByBinding(e) <= e.attributes.extensions.Keys
    ensures forall n :: n in LostByBinding(e) <==>
      n in e.attributes.extensions && BoundAttribute(e.attributes.extensions[n]) != Some(e.attributes.extensions[n])
  {
    hide ValidCloudString, ValidName, Reserved, ValidCore, ValidSelected, ValidData;
    forall n | n in e.attributes.extensions && e.attributes.extensions[n].kind == KindString
      ensures BoundAttribute(e.attributes.extensions[n]) == Some(e.attributes.extensions[n])
    {
      assert ValidExtension(env, n, e.attributes.extensions[n]);
    }
  }

  /** Data without a content type comes back as it was over both bindings, with the content
      type filled in that stands for its kind, when its extensions are Strings. */
  lemma UndeclaredDataReturns(env: Env, e: Event, key: Option<bytes>, transport: seq<KafkaHeader>, limits: Limits)
    requires ValidEvent(env, e) && AsciiTime(env, e.attributes.time) && MediaTypeLaws(env)
    requires AllStrings(e.attributes.extensions)
    requires e.data.Present? && e.attributes.dataContentType == []
    requires TimeSurvives(env, e.attributes.time) && Utf8.Valid(e.attributes.dataSchema)
    requires KafkaRoundTrip.AllTransport(transport)
    ensures var ct := match e.data.kind
        case JsonData => Ascii("application/json")
        case TextData => Ascii("text/plain")
        case BinaryData => Ascii("application/octet-stream");
      var filled := e.(attributes := e.attributes.(dataContentType := ct));
      && DecodedHttp(env, EncodedHeader(env, e), EncodedBody(e), limits) ==
           (if HttpImageAdmitted(env, e, limits) then Some((BinaryMode, [filled])) else None)
      && KafkaBinding.DecodedKafka(env, KafkaRoundTrip.BinaryRecord(env, e, key, transport), limits) ==
           (if KafkaImageAdmitted(env, e, key, transport, limits)
            then Some(KafkaBinding.KafkaMessage(BinaryMode, filled, key, transport)) else None)
  {
    hide DecodedHttp, KafkaBinding.DecodedKafka, KafkaRoundTrip.BinaryRecord, EncodedHeader, EncodedBody;
    hide ValidAttributes, ValidData, AsciiTime, MediaTypeLaws, HttpImageAdmitted, KafkaImageAdmitted;
    hide KafkaRoundTrip.AllTransport, Utf8.Valid, DataByContentType;
    JsonRoundTrip.EmptyUtf8();
    HttpImageExact(env, e, limits);
    KafkaImageExact(env, e, key, transport, limits);
    SentIsFilled(e);
    FilledPreserves(env, e);
    StringsBound(env, e);
  }

  lemma StringsBound(env: Env, e: Event)
    requires ValidEvent(env, e) && AllStrings(e.attributes.extensions)
    ensures BoundImage(e.attributes.extensions) == Some(e.attributes.extensions)
  {
    hide ValidCloudString, ValidEvent;
    LostHasOtherImage(env, e);
    var x := e.attributes.extensions;
    forall n | n in x ensures BoundAttribute(x[n]) == Some(x[n]) {
      assert n !in LostByBinding(e);
    }
    assert BoundImage(x).value == x;
  }
}
