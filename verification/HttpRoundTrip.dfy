/** When an HTTP message gives the event back: the binary report is exact up to four cases it
    does not look at, and metadata beside a structured event is accepted exactly when it
    repeats the event's own texts. */
module HttpRoundTrip {
  import opened Bytes
  import opened Event
  import opened Conversion
  import opened Admission
  import opened Binding
  import opened HttpAttribute
  import opened HttpHeader
  import opened HttpBinding
  import JsonCodec
  import JsonBatch
  import JsonRoundTrip
  import Utf8

  // ---------- reading back headers that were written ----------

  /** The headers of a message: attribute texts and a content type. */
  function Message(m: map<bytes, bytes>, contentType: bytes): Header {
    AttributeHeaders(m) + ContentTypeHeader(contentType)
  }

  lemma MessageLookup(m: map<bytes, bytes>, contentType: bytes)
    requires LowerNames(m)
    ensures var h := Message(m, contentType);
      && AttributeKeys(h) == (set n | n in m :: AttributeKey(n))
      && (forall n :: n in m ==>
            AttributeKey(n) in h && h[AttributeKey(n)] == [Encode(m[n])] && NameOf(AttributeKey(n)) == n)
      && ContentTypeOf(h) == if contentType == [] then Some(None) else Some(Some(contentType))
  {
    hide AttributeHeaders, AttributeKey, NameOf, IsAttributeKey, EqualFold, Encode, ContentTypeOf, CONTENT_TYPE, Lower;
    AttributeHeadersLookup(m);
    ContentTypeKey();
    assert EqualFold(CONTENT_TYPE, CONTENT_TYPE) by { FoldSelf(CONTENT_TYPE); }
    var h := Message(m, contentType);
    forall n | n in m
      ensures AttributeKey(n) in h && h[AttributeKey(n)] == [Encode(m[n])] && NameOf(AttributeKey(n)) == n
    {
      NameOfKey(n);
    }
    if contentType == [] {
      NoContentTypeValue(h);
    } else {
      assert SoleContentType(h, CONTENT_TYPE);
      SoleContentTypeValue(h, CONTENT_TYPE);
    }
  }

  lemma FoldSelf(a: bytes)
    ensures EqualFold(a, a)
  {
  }

  lemma {:induction false} KeyCount(names: set<bytes>)
    requires forall n :: n in names ==> Lower(n)
    ensures |set n | n in names :: AttributeKey(n)| == |names|
  {
    hide AttributeKey, Lower, NameOf;
    if names != {} {
      var n :| n in names;
      var rest := names - {n};
      KeyCount(rest);
      var keys := set x | x in rest :: AttributeKey(x);
      if AttributeKey(n) in keys {
        var x :| x in rest && AttributeKey(x) == AttributeKey(n);
        NameOfKey(n);
        NameOfKey(x);
      }
      assert (set x | x in names :: AttributeKey(x)) == keys + {AttributeKey(n)};
    }
  }

  lemma MessageDistinct(m: map<bytes, bytes>, contentType: bytes)
    requires LowerNames(m)
    ensures DistinctNames(Message(m, contentType)) && |AttributeKeys(Message(m, contentType))| == |m|
    ensures AttributeNames(Message(m, contentType)) == m.Keys
  {
    hide Message, AttributeKey, NameOf, AttributeKeys, Lower;
    MessageLookup(m, contentType);
    KeyCount(m.Keys);
    var h := Message(m, contentType);
    assert (set n | n in m.Keys :: AttributeKey(n)) == (set n | n in m :: AttributeKey(n));
    forall n | n in m ensures n in AttributeNames(h) {
      assert AttributeKey(n) in AttributeKeys(h);
    }
  }

  lemma EncodedStart(value: bytes)
    ensures Encode(value) == [] || Encode(value)[0] != QUOTE
  {
    hide Encode;
    EncodeOutput(value);
  }

  /** A written header decodes exactly when its text is UTF-8, and passes the size checks
      exactly when the text is within the limit. */
  lemma WrittenHeader(name: bytes, text: bytes, limits: Limits)
    requires Lower(name)
    ensures HeaderText([Encode(text)]) == (if Utf8.Valid(text) then text else [])
    ensures Utf8.Valid(text) && 0 < limits.maxAttributeValueBytes && |text| <= limits.maxAttributeValueBytes ==>
      (HeaderDecodes(AttributeKey(name), [Encode(text)], limits) <==>
        0 < limits.maxAttributeNameBytes && |name| <= limits.maxAttributeNameBytes)
    ensures BinaryHeaderOk(AttributeKey(name), [Encode(text)], limits) <==>
      && 0 < limits.maxAttributeNameBytes && |name| <= limits.maxAttributeNameBytes && name != DATACONTENTTYPE
      && Utf8.Valid(text) && 0 < limits.maxAttributeValueBytes && |text| <= limits.maxAttributeValueBytes
  {
    hide Encode, HttpAttribute.Decode, AttributeKey, NameOf, ExceedsEncodedLimit, Utf8.Valid, DATACONTENTTYPE, Lower;
    NameOfKey(name);
    DecodeEncode(text);
    EncodedStart(text);
    if Utf8.Valid(text) {
      UnquotedAdmission(Encode(text), limits.maxAttributeValueBytes);
    }
  }

  lemma WrittenHeadersOk(m: map<bytes, bytes>, contentType: bytes, limits: Limits)
    requires LowerNames(m) && DATACONTENTTYPE !in m && m != map[]
    ensures BinaryHeadersOk(Message(m, contentType), limits) <==> AllUtf8(m) && EachAdmitted(m, limits)
  {
    hide Message, AttributeKeys, AttributeKey, NameOf, Encode, BinaryHeaderOk, Lower, Utf8.Valid, DATACONTENTTYPE;
    var h := Message(m, contentType);
    MessageLookup(m, contentType);
    forall n | n in m
      ensures BinaryHeaderOk(AttributeKey(n), h[AttributeKey(n)], limits) <==>
        && 0 < limits.maxAttributeNameBytes && |n| <= limits.maxAttributeNameBytes
        && Utf8.Valid(m[n]) && 0 < limits.maxAttributeValueBytes && |m[n]| <= limits.maxAttributeValueBytes
    {
      WrittenHeader(n, m[n], limits);
    }
    if BinaryHeadersOk(h, limits) {
      forall n | n in m ensures BinaryHeaderOk(AttributeKey(n), h[AttributeKey(n)], limits) {
        assert AttributeKey(n) in AttributeKeys(h);
      }
    }
  }

  lemma WrittenTexts(m: map<bytes, bytes>, contentType: bytes)
    requires LowerNames(m) && AllUtf8(m)
    ensures TextsByName(Message(m, contentType)) == m
  {
    hide Message, AttributeKeys, AttributeKey, NameOf, Encode, Lower, Utf8.Valid, HeaderText;
    var h := Message(m, contentType);
    MessageLookup(m, contentType);
    MessageDistinct(m, contentType);
    forall n | n in m ensures HeaderText(h[KeyFor(h, n)]) == m[n] {
      var k := KeyFor(h, n);
      var x :| x in m && k == AttributeKey(x);
      assert x == n;
      WrittenHeader(n, m[n], Limits(0, 0, 0, 0, 0, 0, 0, 0, 0, 0, 0));
    }
  }

  /** Written headers are read back as the texts they carry, if the limits admit them and they
      are UTF-8, and are rejected otherwise. */
  lemma HeadersExact(m: map<bytes, bytes>, contentType: bytes, limits: Limits)
    requires LowerNames(m) && DATACONTENTTYPE !in m && m != map[]
    ensures HeaderTexts(Message(m, contentType), limits) ==
      if AllUtf8(m) && TextsAdmitted(m, limits) then Some(m) else None
  {
    hide Message, AttributeKeys, LowerNames, AllUtf8, BinaryHeadersOk, DistinctNames, TextsByName, DATACONTENTTYPE;
    hide EachAdmitted;
    MessageDistinct(m, contentType);
    WrittenHeadersOk(m, contentType, limits);
    assert |m| > 0;
    if AllUtf8(m) {
      WrittenTexts(m, contentType);
    }
  }

  // ---------- binary mode ----------

  /** What the report does not look at: the other content type cases, the time, and the text
      of the data schema. */
  predicate HttpFaithful(env: Env, e: Event) {
    && (e.data.Absent? ==> e.attributes.dataContentType == [])
    && (e.attributes.dataContentType != [] ==> ModeOf(env, e.attributes.dataContentType) == Some(BinaryMode))
    && (e.data.Present? && e.data.kind == TextData ==> !IsJsonMediaType(env, e.attributes.dataContentType))
    && TimeSurvives(env, e.attributes.time)
    && Utf8.Valid(e.attributes.dataSchema)
  }

  predicate HttpAdmits(env: Env, e: Event, limits: Limits) {
    && BodyAdmitted(EncodedBody(e), limits.maxDataBytes)
    && |e.attributes.dataContentType| <= limits.maxAttributeValueBytes
    && TextsAdmitted(ContextTexts(env, e.attributes), limits)
  }

  lemma HttpDataExact(env: Env, e: Event)
    requires ValidData(e.data) && SentContentType(e) == e.attributes.dataContentType
    ensures HttpData(env, e.attributes.dataContentType, EncodedBody(e)) == Some(e.data) <==>
      && (e.data.Absent? ==> e.attributes.dataContentType == [])
      && (e.data.Present? ==> KindMatches(env, e.data.kind, e.attributes.dataContentType))
      && (e.data.Present? && e.data.kind == TextData ==> !IsJsonMediaType(env, e.attributes.dataContentType))
  {
    hide DataByContentType, IsJsonMediaType, IsTextMediaType, KindMatches;
    if e.data.Present? {
      DataKindExact(env, e.attributes.dataContentType, e.data.kind, e.data.bytes);
    } else if e.attributes.dataContentType != [] {
      NeverAbsent(env, e.attributes.dataContentType, []);
    }
  }

  lemma NeverAbsent(env: Env, contentType: bytes, b: bytes)
    ensures DataByContentType(env, contentType, b) != Some(Absent)
  {
  }

  lemma ContextMessage(env: Env, a: Attributes)
    requires ValidAttributes(env, a)
    ensures LowerNames(ContextTexts(env, a)) && DATACONTENTTYPE !in ContextTexts(env, a)
    ensures ContextTexts(env, a) != map[]
  {
    hide ContextTexts, ValidAttributes, ValidName, LowerNames, DATACONTENTTYPE;
    ContextFacts(env, a);
    ValidNamesLower(ContextTexts(env, a));
  }

  /** Decoding a binary message, in terms of what was encoded. */
  lemma BinaryMessage(env: Env, e: Event, limits: Limits)
    requires ValidEvent(env, e)
    ensures DecodedHttp(env, EncodedHeader(env, e), EncodedBody(e), limits) == Some((BinaryMode, [e])) <==>
      var w, m := SentContentType(e), ContextTexts(env, e.attributes);
      && (w != [] ==> |w| <= limits.maxAttributeValueBytes && ModeOf(env, w) == Some(BinaryMode))
      && BodyAdmitted(EncodedBody(e), limits.maxDataBytes)
      && AllUtf8(m) && TextsAdmitted(m, limits)
      && Assemble(env, m, w, HttpData(env, w, EncodedBody(e))) == Some(e)
  {
    hide ContextTexts, ValidAttributes, ValidData, SentContentType, HeaderTexts, Detect, ModeOf, Assemble, HttpData;
    hide EncodedBody, AllUtf8, TextsAdmitted, BodyAdmitted, LowerNames, DecodedHttp, DATACONTENTTYPE, AttributeHeaders;
    hide ContentTypeHeader;
    var w, m := SentContentType(e), ContextTexts(env, e.attributes);
    ContextMessage(env, e.attributes);
    assert EncodedHeader(env, e) == Message(m, w);
    BinaryParts(env, Message(m, w), EncodedBody(e), limits, e);
    DetectMessage(env, m, w, limits);
    HeadersExact(m, w, limits);
  }

  lemma BinaryParts(env: Env, header: Header, body: bytes, limits: Limits, e: Event)
    ensures DecodedHttp(env, header, body, limits) == Some((BinaryMode, [e])) <==>
      var d, texts := Detect(env, header, limits), HeaderTexts(header, limits);
      && d.Some? && d.value.0 == BinaryMode && BodyAdmitted(body, limits.maxDataBytes)
      && texts.Some? && Assemble(env, texts.value, d.value.1, HttpData(env, d.value.1, body)) == Some(e)
  {
    hide Detect, HeaderTexts, Assemble, HttpData, BodyAdmitted, JsonCodec.DecodeText, JsonBatch.DecodeBatch;
    hide MetadataAgrees, ExpectedTexts, AttributeKeys;
  }

  lemma DetectMessage(env: Env, m: map<bytes, bytes>, w: bytes, limits: Limits)
    requires LowerNames(m)
    ensures Detect(env, Message(m, w), limits) ==
      if w == [] then Some((BinaryMode, []))
      else if |w| > limits.maxAttributeValueBytes || ModeOf(env, w).None? then None
      else Some((ModeOf(env, w).value, w))
  {
    hide Message, LowerNames, ModeOf, ContentTypeOf, AttributeKeys, AttributeKey, NameOf;
    MessageLookup(m, w);
  }

  /** The binary report is exact. For every valid event and all limits, encoding to HTTP
      binary mode and decoding gives the event back if and only if the report is empty, none
      of the cases it does not look at applies, and the limits admit the message. */
  lemma HttpBinaryExact(env: Env, e: Event, limits: Limits)
    requires ValidEvent(env, e) && AsciiTime(env, e.attributes.time)
    ensures DecodedHttp(env, EncodedHeader(env, e), EncodedBody(e), limits) == Some((BinaryMode, [e])) <==>
      BinaryReport(env, e) == [] && HttpFaithful(env, e) && HttpAdmits(env, e, limits)
  {
    hide DecodedHttp, EncodedHeader, BinaryReport, ContextTexts, ValidAttributes, ModeOf, Assemble, HttpData;
    hide EncodedBody, KindMatches, AllUtf8, TextsAdmitted, BodyAdmitted, TimeSurvives, IsJsonMediaType, Utf8.Valid;
    hide AsciiTime, ValidData;
    var w, m, ct := SentContentType(e), ContextTexts(env, e.attributes), e.attributes.dataContentType;
    BinaryMessage(env, e, limits);
    AssembleExact(env, e, w, HttpData(env, w, EncodedBody(e)));
    BinaryReportEmpty(env, e);
    assert TextsAdmitted(m, limits) ==> 0 < limits.maxAttributeValueBytes by { AdmittedPositive(m, limits); }
    if AllStrings(e.attributes.extensions) {
      StringContextUtf8(env, e.attributes);
    }
    if w == ct {
      HttpDataExact(env, e);
    }
  }

  lemma AdmittedPositive(m: map<bytes, bytes>, limits: Limits)
    ensures TextsAdmitted(m, limits) ==> 0 < limits.maxAttributeValueBytes
  {
  }

  // ---------- structured mode ----------

  lemma StructuredParts(env: Env, header: Header, body: bytes, limits: Limits, e: Event)
    ensures DecodedHttp(env, header, body, limits) == Some((StructuredMode, [e])) <==>
      var d := Detect(env, header, limits);
      && d.Some? && d.value.0 == StructuredMode && BodyAdmitted(body, limits.maxEventBytes)
      && JsonCodec.DecodeText(env, body, limits) == Some(e)
      && MetadataAgrees(ExpectedTexts(env, e.attributes), header, limits)
  {
    hide Detect, HeaderTexts, Assemble, HttpData, BodyAdmitted, JsonCodec.DecodeText, JsonBatch.DecodeBatch;
    hide MetadataAgrees, ExpectedTexts, AttributeKeys;
  }

  /** An accepted structured message carries, besides its event, only metadata headers that
      decode to that event's own texts, each with one value and no name twice. */
  lemma StructuredMetadataSound(env: Env, header: Header, body: bytes, limits: Limits, es: seq<Event>)
    requires DecodedHttp(env, header, body, limits) == Some((StructuredMode, es))
    ensures |es| == 1 && JsonCodec.DecodeText(env, body, limits) == Some(es[0])
    ensures forall k :: k in AttributeKeys(header) ==>
      var expected := ExpectedTexts(env, es[0].attributes);
      |header[k]| == 1 && NameOf(k) in expected && HttpAttribute.Decode(header[k][0]) == Some(expected[NameOf(k)])
    ensures forall j, k :: j in AttributeKeys(header) && k in AttributeKeys(header) && NameOf(j) == NameOf(k) ==> j == k
  {
    hide Detect, HeaderTexts, Assemble, HttpData, BodyAdmitted, JsonCodec.DecodeText, JsonBatch.DecodeBatch;
    hide ExpectedTexts, HttpAttribute.Decode, NameOf, IsAttributeKey, ExceedsEncodedLimit;
    assert |es| == 1;
    StructuredParts(env, header, body, limits, es[0]);
    var expected := ExpectedTexts(env, es[0].attributes);
    forall k | k in AttributeKeys(header)
      ensures |header[k]| == 1 && NameOf(k) in expected
      ensures HttpAttribute.Decode(header[k][0]) == Some(expected[NameOf(k)])
    {
      assert MetadataHeaderOk(expected, k, header[k], limits);
    }
  }

  lemma MetadataExact(expected: map<bytes, bytes>, m: map<bytes, bytes>, w: bytes, limits: Limits)
    requires LowerNames(m) && AllUtf8(expected) && (forall n :: n in expected ==> n != [])
    requires 0 < limits.maxAttributeValueBytes
    requires forall n :: n in expected ==> |expected[n]| <= limits.maxAttributeValueBytes
    ensures MetadataAgrees(expected, Message(m, w), limits) <==> Repeats(m, expected) && NamesFit(m, limits)
  {
    hide Message, AttributeKeys, AttributeKey, NameOf, Encode, Lower, Utf8.Valid, HeaderText, HeaderDecodes;
    hide DistinctNames;
    var h := Message(m, w);
    MessageLookup(m, w);
    MessageDistinct(m, w);
    forall n | n in m
      ensures MetadataHeaderOk(expected, AttributeKey(n), h[AttributeKey(n)], limits) <==>
        n in expected && m[n] == expected[n] && |n| <= limits.maxAttributeNameBytes
    {
      MetadataHeaderExact(expected, n, m[n], limits);
    }
    if MetadataAgrees(expected, h, limits) {
      forall n | n in m ensures MetadataHeaderOk(expected, AttributeKey(n), h[AttributeKey(n)], limits) {
        assert AttributeKey(n) in AttributeKeys(h);
      }
    }
  }

  lemma MetadataHeaderExact(expected: map<bytes, bytes>, n: bytes, text: bytes, limits: Limits)
    requires Lower(n) && AllUtf8(expected) && (forall n :: n in expected ==> n != [])
    requires 0 < limits.maxAttributeValueBytes
    requires forall n :: n in expected ==> |expected[n]| <= limits.maxAttributeValueBytes
    ensures MetadataHeaderOk(expected, AttributeKey(n), [Encode(text)], limits) <==>
      n in expected && text == expected[n] && |n| <= limits.maxAttributeNameBytes
  {
    hide AttributeKey, NameOf, Encode, Lower, Utf8.Valid, HttpAttribute.Decode, ExceedsEncodedLimit;
    NameOfKey(n);
    WrittenHeader(n, text, limits);
    DecodeEncode(text);
  }

  /** The content type, in whatever spelling its header has, selects the mode. */
  ghost predicate Selects(env: Env, header: Header, limits: Limits, mode: Mode) {
    var found := ContentTypeOf(header);
    && found.Some? && found.value.Some? && found.value.value != []
    && |found.value.value| <= limits.maxAttributeValueBytes
    && ModeOf(env, found.value.value) == Some(mode)
  }

  /** One metadata header, in any spelling and quoting, repeats the event's own text. */
  predicate HeaderRepeats(expected: map<bytes, bytes>, key: bytes, values: seq<bytes>, limits: Limits) {
    && |values| == 1 && NameOf(key) in expected && HttpAttribute.Decode(values[0]) == Some(expected[NameOf(key)])
    && |NameOf(key)| <= limits.maxAttributeNameBytes
    && !ExceedsEncodedLimit(|values[0]|, limits.maxAttributeValueBytes)
  }

  predicate HeadersRepeat(expected: map<bytes, bytes>, header: Header, limits: Limits) {
    DistinctNames(header) && forall k :: k in AttributeKeys(header) ==> HeaderRepeats(expected, k, header[k], limits)
  }

  lemma HeadersRepeatMeaning(expected: map<bytes, bytes>, header: Header, limits: Limits)
    requires forall n :: n in expected ==> n != []
    ensures MetadataAgrees(expected, header, limits) <==> HeadersRepeat(expected, header, limits)
  {
    hide HttpAttribute.Decode, ExceedsEncodedLimit, DistinctNames, ToLower, EqualFold;
    forall k | k in AttributeKeys(header)
      ensures MetadataHeaderOk(expected, k, header[k], limits) <==> HeaderRepeats(expected, k, header[k], limits)
    {
      assert |NameOf(k)| == |k| - 3;
    }
  }

  /** Structured messages, exactly: for any headers at all, however their names are spelled and
      their values quoted, the message is accepted and yields the event if and only if the
      event survives the JSON format, the content type selects structured mode, the metadata
      repeats the event's own texts, and the limits admit all of it. */
  lemma StructuredHttpExact(env: Env, e: Event, header: Header, limits: Limits)
    requires ValidEvent(env, e) && AsciiTime(env, e.attributes.time)
    ensures DecodedHttp(env, header, JsonCodec.EncodedText(env, e), limits) == Some((StructuredMode, [e])) <==>
      && JsonReport(env, e) == [] && JsonRoundTrip.Faithful(env, e.attributes)
      && JsonRoundTrip.JsonAdmits(env, e, limits)
      && limits.maxEventBytes != MAX_INT && Selects(env, header, limits, StructuredMode)
      && HeadersRepeat(ExpectedTexts(env, e.attributes), header, limits)
  {
    hide DecodedHttp, JsonCodec.EncodedText, JsonCodec.DecodeText, MetadataAgrees, ExpectedTexts, ValidEvent;
    hide ContentTypeOf, ModeOf, JsonReport, JsonLossless, AsciiTime, JsonRoundTrip.Faithful, JsonRoundTrip.ContextFits;
    hide JsonRoundTrip.DataFits, AllUtf8, MAX_INT, HeadersRepeat;
    StructuredParts(env, header, JsonCodec.EncodedText(env, e), limits, e);
    JsonRoundTrip.JsonReportExact(env, e, limits);
    JsonReportEmpty(env, e);
    TextNotEmpty(env, e);
    if JsonReport(env, e) == [] && JsonRoundTrip.Faithful(env, e.attributes)
       && JsonRoundTrip.JsonAdmits(env, e, limits) {
      ExpectedFacts(env, e, limits);
      HeadersRepeatMeaning(ExpectedTexts(env, e.attributes), header, limits);
    }
  }

  /** The same for headers as the encoder writes them, in terms of the texts they carry. */
  lemma StructuredWrittenExact(env: Env, e: Event, m: map<bytes, bytes>, limits: Limits)
    requires ValidEvent(env, e) && AsciiTime(env, e.attributes.time) && LowerNames(m)
    requires env.mediaType(JSON_MEDIA_TYPE) == Some(JSON_MEDIA_TYPE)
    ensures var decoded := DecodedHttp(env, Message(m, JSON_MEDIA_TYPE), JsonCodec.EncodedText(env, e), limits);
      decoded == Some((StructuredMode, [e])) <==>
      && JsonReport(env, e) == [] && JsonRoundTrip.Faithful(env, e.attributes)
      && JsonRoundTrip.JsonAdmits(env, e, limits)
      && limits.maxEventBytes != MAX_INT && |JSON_MEDIA_TYPE| <= limits.maxAttributeValueBytes
      && Repeats(m, ExpectedTexts(env, e.attributes)) && NamesFit(m, limits)
  {
    hide DecodedHttp, Message, JsonCodec.EncodedText, JsonCodec.DecodeText, Detect, MetadataAgrees, ExpectedTexts;
    hide LowerNames, ValidEvent, JsonReport, JsonLossless, AsciiTime, JsonRoundTrip.Faithful, JsonRoundTrip.ContextFits;
    hide JsonRoundTrip.DataFits, Repeats, NamesFit, AllUtf8, MAX_INT;
    var text := JsonCodec.EncodedText(env, e);
    StructuredParts(env, Message(m, JSON_MEDIA_TYPE), text, limits, e);
    StructuredSelected(env);
    hide ModeOf, Ascii;
    DetectMessage(env, m, JSON_MEDIA_TYPE, limits);
    JsonRoundTrip.JsonReportExact(env, e, limits);
    JsonReportEmpty(env, e);
    TextNotEmpty(env, e);
    if JsonReport(env, e) == [] && JsonRoundTrip.Faithful(env, e.attributes)
       && JsonRoundTrip.JsonAdmits(env, e, limits) {
      ExpectedFacts(env, e, limits);
      MetadataExact(ExpectedTexts(env, e.attributes), m, JSON_MEDIA_TYPE, limits);
    }
  }

  lemma StructuredSelected(env: Env)
    requires env.mediaType(JSON_MEDIA_TYPE) == Some(JSON_MEDIA_TYPE)
    ensures ModeOf(env, JSON_MEDIA_TYPE) == Some(StructuredMode) && JSON_MEDIA_TYPE != []
  {
    assert |JSON_MEDIA_TYPE| == 28;
  }

  lemma TextNotEmpty(env: Env, e: Event)
    ensures |JsonCodec.EncodedText(env, e)| > 0
  {
    hide JsonCodec.JsonMembers;
  }

  /** In particular every metadata header of the binary encoding may be attached. */
  lemma BinaryMetadataAttached(env: Env, e: Event, limits: Limits)
    requires ValidEvent(env, e) && AsciiTime(env, e.attributes.time)
    requires env.mediaType(JSON_MEDIA_TYPE) == Some(JSON_MEDIA_TYPE)
    requires JsonReport(env, e) == [] && JsonRoundTrip.Faithful(env, e.attributes)
    requires JsonRoundTrip.JsonAdmits(env, e, limits)
    requires limits.maxEventBytes != MAX_INT && |JSON_MEDIA_TYPE| <= limits.maxAttributeValueBytes
    requires NamesFit(ContextTexts(env, e.attributes), limits)
    ensures
      DecodedHttp(env, EncodedHeader(env, e)[CONTENT_TYPE := [JSON_MEDIA_TYPE]], JsonCodec.EncodedText(env, e), limits)
      == Some((StructuredMode, [e]))
  {
    hide DecodedHttp, JsonCodec.EncodedText, ContextTexts, LowerNames, ValidAttributes, ValidData, AttributeHeaders;
    hide SentContentType, JsonReport, AsciiTime, JsonRoundTrip.Faithful, JsonRoundTrip.JsonAdmits, NamesFit, MAX_INT;
    hide CONTENT_TYPE;
    var m := ContextTexts(env, e.attributes);
    ContextMessage(env, e.attributes);
    hide DATACONTENTTYPE;
    assert Repeats(m, ExpectedTexts(env, e.attributes));
    StructuredWrittenExact(env, e, m, limits);
    assert JSON_MEDIA_TYPE != [] by { StructuredSelected(env); }
    hide Ascii;
    assert EncodedHeader(env, e)[CONTENT_TYPE := [JSON_MEDIA_TYPE]] == Message(m, JSON_MEDIA_TYPE);
  }

  // ---------- batch mode ----------

  /** For any headers at all, a batch comes back event for event exactly when its report is
      empty, every event is faithful, the limits admit it, the content type selects batch mode
      and there is no metadata header. */
  lemma BatchHttpExact(env: Env, es: seq<Event>, header: Header, limits: Limits)
    requires forall i :: 0 <= i < |es| ==> ValidEvent(env, es[i]) && AsciiTime(env, es[i].attributes.time)
    ensures DecodedHttp(env, header, JsonBatch.BatchText(env, es), limits) == Some((BatchMode, es)) <==>
      && |JsonBatch.BatchText(env, es)| <= limits.maxEventBytes && 0 < limits.maxDepth && limits.maxDepth != MAX_INT
      && 0 < limits.maxBatchEvents && |es| <= limits.maxBatchEvents
      && BatchReport(env, es) == []
      && (forall i :: 0 <= i < |es| ==>
            JsonRoundTrip.Faithful(env, es[i].attributes) && JsonRoundTrip.JsonAdmits(env, es[i], limits))
      && limits.maxEventBytes != MAX_INT && Selects(env, header, limits, BatchMode) && AttributeKeys(header) == {}
  {
    hide DecodedHttp, JsonBatch.BatchText, JsonBatch.DecodeBatch, ContentTypeOf, ModeOf, ValidEvent, BatchReport;
    hide AsciiTime, JsonRoundTrip.Faithful, JsonRoundTrip.JsonAdmits, MAX_INT, AttributeKeys;
    BatchParts(env, header, JsonBatch.BatchText(env, es), limits, es);
    JsonBatch.BatchReportExact(env, es, limits);
    BatchNotEmpty(env, es);
  }

  lemma BatchParts(env: Env, header: Header, body: bytes, limits: Limits, es: seq<Event>)
    ensures DecodedHttp(env, header, body, limits) == Some((BatchMode, es)) <==>
      var d := Detect(env, header, limits);
      && d.Some? && d.value.0 == BatchMode && BodyAdmitted(body, limits.maxEventBytes)
      && AttributeKeys(header) == {} && JsonBatch.DecodeBatch(env, body, limits) == Some(es)
  {
    hide Detect, HeaderTexts, Assemble, HttpData, BodyAdmitted, JsonCodec.DecodeText, JsonBatch.DecodeBatch;
    hide MetadataAgrees, ExpectedTexts, AttributeKeys;
  }

  lemma BatchNotEmpty(env: Env, es: seq<Event>)
    ensures |JsonBatch.BatchText(env, es)| > 0
  {
    hide JsonCodec.EncodedText;
  }

  // ---------- from the encoder to the decoder ----------

  /** What a content type selects, without the order in which it is asked. */
  lemma ModeExact(env: Env, contentType: bytes)
    ensures var mediaType, mode := env.mediaType(contentType), ModeOf(env, contentType);
      && (mode == Some(StructuredMode) <==> mediaType == Some(Ascii("application/cloudevents+json")))
      && (mode == Some(BatchMode) <==> mediaType == Some(Ascii("application/cloudevents-batch+json")))
      && (mode == Some(BinaryMode) <==>
            mediaType.Some? && !exists rest :: mediaType.value == Ascii("application/cloudevents") + rest)
  {
    var prefix := CLOUDEVENTS_MEDIA_TYPES;
    assert JSON_MEDIA_TYPE == prefix + Ascii("+json") && JSON_BATCH_MEDIA_TYPE == prefix + Ascii("-batch+json");
    assert JSON_MEDIA_TYPE != JSON_BATCH_MEDIA_TYPE by {
      assert |JSON_MEDIA_TYPE| == 28 && |JSON_BATCH_MEDIA_TYPE| == 34;
    }
    if env.mediaType(contentType).Some? {
      PrefixMeaning(env.mediaType(contentType).value, prefix);
    }
  }

  /** A batch from the encoder to the decoder: event for event, in order, if and only if the
      report is empty, every event is faithful and the limits admit it. */
  lemma BatchRoundTrip(env: Env, es: seq<Event>, limits: Limits)
    requires HttpEncoding(env, es, BatchMode).Some?
    requires forall i :: 0 <= i < |es| ==> AsciiTime(env, es[i].attributes.time)
    requires env.mediaType(JSON_BATCH_MEDIA_TYPE) == Some(JSON_BATCH_MEDIA_TYPE)
    ensures forall i :: 0 <= i < |es| ==> ValidEvent(env, es[i])
    ensures var (header, body, report) := HttpEncoding(env, es, BatchMode).value;
      DecodedHttp(env, header, body, limits) == Some((BatchMode, es)) <==>
        && report == []
        && (forall i :: 0 <= i < |es| ==>
              JsonRoundTrip.Faithful(env, es[i].attributes) && JsonRoundTrip.JsonAdmits(env, es[i], limits))
        && |body| <= limits.maxEventBytes && limits.maxEventBytes != MAX_INT
        && 0 < limits.maxDepth && limits.maxDepth != MAX_INT
        && 0 < limits.maxBatchEvents && |es| <= limits.maxBatchEvents
        && |JSON_BATCH_MEDIA_TYPE| <= limits.maxAttributeValueBytes
  {
    hide DecodedHttp, JsonBatch.BatchText, ContentTypeOf, ModeOf, ValidEvent, BatchReport, AsciiTime, AttributeKeys;
    hide JsonRoundTrip.Faithful, JsonRoundTrip.JsonAdmits, MAX_INT, ContentTypeHeader;
    var header := ContentTypeHeader(JSON_BATCH_MEDIA_TYPE);
    BatchSelected(env);
    hide Ascii;
    BatchHttpExact(env, es, header, limits);
    WrittenContentType(JSON_BATCH_MEDIA_TYPE);
  }

  lemma BatchSelected(env: Env)
    requires env.mediaType(JSON_BATCH_MEDIA_TYPE) == Some(JSON_BATCH_MEDIA_TYPE)
    ensures ModeOf(env, JSON_BATCH_MEDIA_TYPE) == Some(BatchMode) && JSON_BATCH_MEDIA_TYPE != []
  {
    assert |JSON_BATCH_MEDIA_TYPE| == 34 && |JSON_MEDIA_TYPE| == 28;
  }

  /** A header with nothing but a content type. */
  lemma WrittenContentType(contentType: bytes)
    requires contentType != []
    ensures ContentTypeOf(ContentTypeHeader(contentType)) == Some(Some(contentType))
    ensures AttributeKeys(ContentTypeHeader(contentType)) == {}
  {
    hide AttributeHeaders, ContentTypeOf, IsAttributeKey, EqualFold, CONTENT_TYPE, AttributeKey, NameOf;
    MessageLookup(map[], contentType);
    NoAttributeHeaders();
    assert Message(map[], contentType) == ContentTypeHeader(contentType);
  }

  /** A single event in structured mode from the encoder to the decoder. */
  lemma StructuredRoundTrip(env: Env, e: Event, limits: Limits)
    requires HttpEncoding(env, [e], StructuredMode).Some? && AsciiTime(env, e.attributes.time)
    requires env.mediaType(JSON_MEDIA_TYPE) == Some(JSON_MEDIA_TYPE)
    ensures ValidEvent(env, e)
    ensures var (header, body, report) := HttpEncoding(env, [e], StructuredMode).value;
      DecodedHttp(env, header, body, limits) == Some((StructuredMode, [e])) <==>
        && report == [] && JsonRoundTrip.Faithful(env, e.attributes) && JsonRoundTrip.JsonAdmits(env, e, limits)
        && limits.maxEventBytes != MAX_INT && |JSON_MEDIA_TYPE| <= limits.maxAttributeValueBytes
  {
    hide DecodedHttp, JsonCodec.EncodedText, ModeOf, ValidEvent, JsonReport, AsciiTime, ContentTypeHeader;
    hide JsonRoundTrip.Faithful, JsonRoundTrip.JsonAdmits, MAX_INT, AttributeHeaders, Lower, Ascii;
    NoAttributeHeaders();
    assert Message(map[], JSON_MEDIA_TYPE) == ContentTypeHeader(JSON_MEDIA_TYPE);
    StructuredWrittenExact(env, e, map[], limits);
  }
}
