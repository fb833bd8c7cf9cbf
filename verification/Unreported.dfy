/** What an empty loss report does not promise. Each lemma gives a valid event whose report is
    empty and which nevertheless does not come back, under any limits. The conditions of the
    exact theorems shut out precisely these families. */
module Unreported {
  import opened Bytes
  import opened Event
  import opened Conversion
  import opened Binding
  import opened HttpHeader
  import opened HttpBinding
  import opened HttpRoundTrip
  import BinaryImage
  import KafkaBinding
  import KafkaRoundTrip
  import JsonCodec
  import JsonRoundTrip
  import Utf8

  const LETTER: bytes := [0x61]

  function Sample(contentType: bytes, dataSchema: bytes, time: Option<Instant>, data: Data): Event {
    Event(Attributes(LETTER, LETTER, LETTER, contentType, dataSchema, [], time, map[]), data)
  }

  lemma LetterValid()
    ensures ValidCloudString(LETTER) && Utf8.Valid(LETTER)
  {
    Utf8.ValidAscii(LETTER);
    assert LETTER[1..] == [];
  }

  lemma SampleValid(env: Env, contentType: bytes, dataSchema: bytes, time: Option<Instant>, data: Data)
    requires env.uriReference(LETTER) && ValidData(data)
    requires contentType == [] || env.mediaType(contentType).Some?
    requires dataSchema == [] || env.absoluteURI(dataSchema)
    requires data.Absent? || (contentType != [] && KindMatches(env, data.kind, contentType))
    ensures ValidEvent(env, Sample(contentType, dataSchema, time, data))
    ensures BinaryReport(env, Sample(contentType, dataSchema, time, data)) == []
  {
    hide ValidCloudString, Utf8.Valid, LETTER, BinaryReport, KindMatches, ValidData, TRACEPARENT, TRACESTATE;
    hide PARTITIONKEY;
    LetterValid();
    LetterNotEmpty();
    BinaryReportEmpty(env, Sample(contentType, dataSchema, time, data));
  }

  lemma LetterNotEmpty()
    ensures LETTER != []
  {
  }

  ghost predicate LostByHttp(env: Env, e: Event) {
    && ValidEvent(env, e) && BinaryReport(env, e) == []
    && forall limits :: DecodedHttp(env, EncodedHeader(env, e), EncodedBody(e), limits) != Some((BinaryMode, [e]))
  }

  ghost predicate LostByKafka(env: Env, e: Event) {
    && ValidEvent(env, e) && BinaryReport(env, e) == []
    && forall limits, key :: KafkaBinding.DecodedKafka(env, KafkaRoundTrip.BinaryRecord(env, e, key, []), limits)
         != Some(KafkaBinding.KafkaMessage(BinaryMode, e, key, []))
  }

  ghost predicate LostByJson(env: Env, e: Event) {
    && ValidEvent(env, e) && JsonReport(env, e) == []
    && forall limits :: JsonCodec.DecodeText(env, JsonCodec.EncodedText(env, e), limits) != Some(e)
  }

  lemma NotHttpFaithful(env: Env, e: Event)
    requires ValidEvent(env, e) && AsciiTime(env, e.attributes.time) && BinaryReport(env, e) == []
    requires !HttpFaithful(env, e)
    ensures LostByHttp(env, e)
  {
    hide ValidEvent, AsciiTime, BinaryReport, HttpFaithful, DecodedHttp, EncodedHeader, EncodedBody, HttpAdmits;
    forall limits ensures DecodedHttp(env, EncodedHeader(env, e), EncodedBody(e), limits) != Some((BinaryMode, [e])) {
      HttpBinaryExact(env, e, limits);
    }
  }

  lemma NotKafkaFaithful(env: Env, e: Event)
    requires ValidEvent(env, e) && AsciiTime(env, e.attributes.time) && BinaryReport(env, e) == []
    requires !KafkaRoundTrip.KafkaFaithful(env, e)
    ensures LostByKafka(env, e)
  {
    hide ValidEvent, AsciiTime, BinaryReport, KafkaRoundTrip.KafkaFaithful, KafkaBinding.DecodedKafka;
    hide KafkaRoundTrip.BinaryRecord, KafkaRoundTrip.KafkaAdmits, KafkaRoundTrip.NamesUtf8;
    forall limits, key ensures KafkaBinding.DecodedKafka(env, KafkaRoundTrip.BinaryRecord(env, e, key, []), limits)
      != Some(KafkaBinding.KafkaMessage(BinaryMode, e, key, []))
    {
      KafkaRoundTrip.KafkaBinaryExact(env, e, key, [], limits);
    }
  }

  lemma NotFaithful(env: Env, e: Event)
    requires ValidEvent(env, e) && AsciiTime(env, e.attributes.time) && JsonReport(env, e) == []
    requires !JsonRoundTrip.Faithful(env, e.attributes)
    ensures LostByJson(env, e)
  {
    hide ValidEvent, AsciiTime, JsonReport, JsonRoundTrip.Faithful, JsonCodec.DecodeText, JsonCodec.EncodedText;
    hide JsonRoundTrip.JsonAdmits;
    forall limits ensures JsonCodec.DecodeText(env, JsonCodec.EncodedText(env, e), limits) != Some(e) {
      JsonRoundTrip.JsonReportExact(env, e, limits);
    }
  }

  const TEXT_PLAIN: bytes := Ascii("text/plain")
  const TEXT_JSON: bytes := Ascii("text/json")

  /** Absent data with a content type: HTTP infers empty data from the header. */
  lemma AbsentDataInferred(env: Env)
    requires env.uriReference(LETTER) && env.mediaType(TEXT_PLAIN) == Some(TEXT_PLAIN)
    ensures LostByHttp(env, Sample(TEXT_PLAIN, [], None, Absent))
  {
    assert TEXT_PLAIN != [] by { assert |TEXT_PLAIN| == 10; }
    hide LETTER, ValidEvent, BinaryReport, LostByHttp, ModeOf, Utf8.Valid, KindMatches, Ascii;
    SampleValid(env, TEXT_PLAIN, [], None, Absent);
    NotHttpFaithful(env, Sample(TEXT_PLAIN, [], None, Absent));
  }

  /** A content type of CloudEvents itself: the decoders take it for their own. */
  lemma ForeignContentType(env: Env, b: bytes)
    requires env.uriReference(LETTER) && env.mediaType(CLOUDEVENTS_MEDIA_TYPES) == Some(CLOUDEVENTS_MEDIA_TYPES)
    ensures LostByHttp(env, Sample(CLOUDEVENTS_MEDIA_TYPES, [], None, Present(BinaryData, b)))
    ensures LostByKafka(env, Sample(CLOUDEVENTS_MEDIA_TYPES, [], None, Present(BinaryData, b)))
  {
    var ct := CLOUDEVENTS_MEDIA_TYPES;
    CloudEventsIsBinary(env);
    CloudEventsMode(env);
    hide LETTER, ValidEvent, BinaryReport, LostByHttp, LostByKafka, ModeOf, KafkaBinding.ModeOf, Utf8.Valid;
    hide KindMatches, Ascii;
    var e := Sample(ct, [], None, Present(BinaryData, b));
    SampleValid(env, ct, [], None, Present(BinaryData, b));
    NotHttpFaithful(env, e);
    NotKafkaFaithful(env, e);
  }

  lemma CloudEventsIsBinary(env: Env)
    requires env.mediaType(CLOUDEVENTS_MEDIA_TYPES) == Some(CLOUDEVENTS_MEDIA_TYPES)
    ensures KindMatches(env, BinaryData, CLOUDEVENTS_MEDIA_TYPES)
  {
    var m := CLOUDEVENTS_MEDIA_TYPES;
    assert m[|m| - 1] == 0x73 && m[0] == 0x61 && Ascii("text/")[0] == 0x74;
    hide JsonSubtype;
    BinaryImage.LastByte(m);
    assert |m| == 23 && m[..5][0] == m[0];
  }

  lemma CloudEventsMode(env: Env)
    requires env.mediaType(CLOUDEVENTS_MEDIA_TYPES) == Some(CLOUDEVENTS_MEDIA_TYPES)
    ensures ModeOf(env, CLOUDEVENTS_MEDIA_TYPES) == None && KafkaBinding.ModeOf(env, CLOUDEVENTS_MEDIA_TYPES) == None
    ensures CLOUDEVENTS_MEDIA_TYPES != []
  {
    assert |CLOUDEVENTS_MEDIA_TYPES| == 23 && |JSON_MEDIA_TYPE| == 28 && |JSON_BATCH_MEDIA_TYPE| == 34;
    hide Ascii;
  }

  /** Text data under a content type that is both text and JSON: the report goes by text, the
      decoders by JSON. */
  lemma TextReadAsJson(env: Env)
    requires env.uriReference(LETTER) && env.mediaType(TEXT_JSON) == Some(TEXT_JSON)
    ensures LostByHttp(env, Sample(TEXT_JSON, [], None, Present(TextData, LETTER)))
    ensures LostByKafka(env, Sample(TEXT_JSON, [], None, Present(TextData, LETTER)))
  {
    TextAndJson(env);
    LetterValid();
    hide LETTER, ValidEvent, BinaryReport, LostByHttp, LostByKafka, ModeOf, KafkaBinding.ModeOf, Utf8.Valid;
    hide KindMatches, TEXT_JSON, IsJsonMediaType;
    var e := Sample(TEXT_JSON, [], None, Present(TextData, LETTER));
    SampleValid(env, TEXT_JSON, [], None, Present(TextData, LETTER));
    NotHttpFaithful(env, e);
    NotKafkaFaithful(env, e);
  }

  lemma TextAndJson(env: Env)
    requires env.mediaType(TEXT_JSON) == Some(TEXT_JSON)
    ensures IsJsonMediaType(env, TEXT_JSON) && KindMatches(env, TextData, TEXT_JSON) && TEXT_JSON != []
  {
    var m := TEXT_JSON;
    assert |m| == 9 && m[4] == SLASH;
    assert m[..5] == Ascii("text/");
    assert m[..4] == [0x74, 0x65, 0x78, 0x74];
    IndexOfUnique(m, SLASH, 4);
    assert m[5..] == Ascii("json");
  }

  /** A time that does not survive formatting, such as one beyond the year 9999. */
  lemma TimeLost(env: Env, t: Instant)
    requires env.uriReference(LETTER) && IsAscii(env.formatTime(t)) && env.parseTime(env.formatTime(t)) != Some(t)
    ensures LostByJson(env, Sample([], [], Some(t), Absent))
    ensures LostByHttp(env, Sample([], [], Some(t), Absent)) && LostByKafka(env, Sample([], [], Some(t), Absent))
  {
    hide LETTER, ValidEvent, BinaryReport, JsonReport, LostByHttp, LostByKafka, LostByJson, ModeOf, KafkaBinding.ModeOf;
    hide Utf8.Valid, KindMatches, IsAscii;
    var e := Sample([], [], Some(t), Absent);
    SampleValid(env, [], [], Some(t), Absent);
    JsonReportEmpty(env, e);
    NotFaithful(env, e);
    NotHttpFaithful(env, e);
    NotKafkaFaithful(env, e);
  }

  /** A data schema that passes as a URI but is not UTF-8. */
  lemma SchemaLost(env: Env, schema: bytes)
    requires env.uriReference(LETTER) && env.absoluteURI(schema) && !Utf8.Valid(schema)
    ensures LostByJson(env, Sample([], schema, None, Absent))
    ensures LostByHttp(env, Sample([], schema, None, Absent)) && LostByKafka(env, Sample([], schema, None, Absent))
  {
    hide LETTER, ValidEvent, BinaryReport, JsonReport, LostByHttp, LostByKafka, LostByJson, ModeOf, KafkaBinding.ModeOf;
    hide Utf8.Valid, KindMatches;
    var e := Sample([], schema, None, Absent);
    SampleValid(env, [], schema, None, Absent);
    JsonReportEmpty(env, e);
    NotFaithful(env, e);
    NotHttpFaithful(env, e);
    NotKafkaFaithful(env, e);
  }

  /** A content type that parses but is not UTF-8; HTTP does carry it. */
  lemma ContentTypeLost(env: Env, ct: bytes, b: bytes)
    requires env.uriReference(LETTER) && ct != [] && env.mediaType(ct).Some? && !Utf8.Valid(ct)
    requires KindMatches(env, BinaryData, ct)
    ensures LostByJson(env, Sample(ct, [], None, Present(BinaryData, b)))
    ensures LostByKafka(env, Sample(ct, [], None, Present(BinaryData, b)))
  {
    hide LETTER, ValidEvent, BinaryReport, JsonReport, LostByKafka, LostByJson, KafkaBinding.ModeOf, Utf8.Valid;
    hide KindMatches;
    var e := Sample(ct, [], None, Present(BinaryData, b));
    SampleValid(env, ct, [], None, Present(BinaryData, b));
    JsonReportEmpty(env, e);
    NotFaithful(env, e);
    NotKafkaFaithful(env, e);
  }
}
