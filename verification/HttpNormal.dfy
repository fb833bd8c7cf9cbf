/** Decoding an HTTP binary message normalises it once. */
module HttpNormal {
  import opened Bytes
  import opened Event
  import opened Conversion
  import opened Admission
  import opened Binding
  import opened BinaryNormal
  import opened HttpAttribute
  import opened HttpHeader
  import opened HttpBinding
  import opened HttpRoundTrip
  import JsonNormal
  import Utf8

  lemma {:induction false} NameCount(keys: set<bytes>)
    ensures |set k | k in keys :: NameOf(k)| <= |keys|
  {
    hide NameOf;
    if keys != {} {
      var k :| k in keys;
      NameCount(keys - {k});
      NamesWith(keys - {k}, k);
      assert keys - {k} + {k} == keys;
    }
  }

  /** Texts that were read from headers are UTF-8 and within the limits. */
  lemma ReadTexts(header: Header, limits: Limits, m: map<bytes, bytes>)
    requires HeaderTexts(header, limits) == Some(m) && m != map[]
    ensures AllUtf8(m) && TextsAdmitted(m, limits)
  {
    hide NameOf, IsAttributeKey, HttpAttribute.Decode, ExceedsEncodedLimit, DATACONTENTTYPE, Utf8.Valid, DistinctNames;
    NameCount(AttributeKeys(header));
    assert |m| == |m.Keys| && m.Keys == AttributeNames(header);
    forall n | n in m
      ensures Utf8.Valid(m[n]) && |n| <= limits.maxAttributeNameBytes && |m[n]| <= limits.maxAttributeValueBytes
      ensures 0 < limits.maxAttributeNameBytes && 0 < limits.maxAttributeValueBytes
    {
      var k := KeyFor(header, n);
      assert BinaryHeaderOk(k, header[k], limits);
      ReadText(k, header[k], limits);
    }
  }

  lemma ReadText(key: bytes, values: seq<bytes>, limits: Limits)
    requires IsAttributeKey(key) && BinaryHeaderOk(key, values, limits)
    ensures Utf8.Valid(HeaderText(values)) && |HeaderText(values)| <= limits.maxAttributeValueBytes
    ensures |NameOf(key)| <= limits.maxAttributeNameBytes
    ensures 0 < limits.maxAttributeNameBytes && 0 < limits.maxAttributeValueBytes
  {
    hide Utf8.Valid, Unquote, PathUnescape, EqualFold, ToLower, DATACONTENTTYPE;
  }

  /** The data of an accepted message is its body, of the kind the content type stands for. */
  lemma ReadData(env: Env, contentType: bytes, body: bytes, e: Event)
    requires HttpData(env, contentType, body) == Some(e.data)
    ensures ValidData(e.data) && EncodedBody(e) == body
    ensures e.data.Absent? ==> contentType == []
    ensures e.data.Present? ==>
      KindMatches(env, e.data.kind, contentType) && (e.data.kind == TextData ==> !IsJsonMediaType(env, contentType))
  {
    hide DataByContentType, KindMatches, IsJsonMediaType;
    if body != [] || contentType != [] {
      InferredData(env, contentType, body, e.data);
    }
  }

  /** The mode and content type a binary message was accepted under. */
  lemma DetectedBinary(env: Env, header: Header, limits: Limits, contentType: bytes)
    requires Detect(env, header, limits) == Some((BinaryMode, contentType))
    ensures contentType != [] ==>
      |contentType| <= limits.maxAttributeValueBytes && ModeOf(env, contentType) == Some(BinaryMode)
  {
    hide ContentTypeOf, ModeOf;
  }

  /** Decoding normalises once. Every event accepted from a binary message is valid; its binary
      report is empty exactly when it has no data or a content type (a body without one was
      read as JSON); and encoding it and decoding under the same limits gives the same event if
      and only if that is so and its time survives formatting within the value limit. */
  lemma HttpBinaryNormalises(env: Env, header: Header, body: bytes, limits: Limits, e: Event)
    requires DecodedHttp(env, header, body, limits) == Some((BinaryMode, [e])) && AsciiTime(env, e.attributes.time)
    ensures ValidEvent(env, e)
    ensures BinaryReport(env, e) == [] <==> e.data.Absent? || e.attributes.dataContentType != []
    ensures DecodedHttp(env, EncodedHeader(env, e), EncodedBody(e), limits) == Some((BinaryMode, [e])) <==>
      && (e.data.Absent? || e.attributes.dataContentType != [])
      && TimeSurvives(env, e.attributes.time) && JsonNormal.TimeFits(env, e.attributes.time, limits)
  {
    hide DecodedHttp, Detect, HeaderTexts, Assemble, HttpData, BodyAdmitted, BinaryReport, EncodedHeader, EncodedBody;
    hide ContextTexts, ValidAttributes, ValidData, KindMatches, IsJsonMediaType, TextsAdmitted, AllUtf8, AsciiTime;
    hide TimeSurvives, JsonNormal.TimeFits, ModeOf, Utf8.Valid;
    BinaryParts(env, header, body, limits, e);
    var ct, m := Detect(env, header, limits).value.1, HeaderTexts(header, limits).value;
    var data := HttpData(env, ct, body);
    Assembled(env, m, ct, data, e);
    ReadTexts(header, limits, m);
    ReadData(env, ct, body, e);
    DetectedBinary(env, header, limits, ct);
    AssembledReport(env, m, ct, data, e);
    AssembledSchema(env, m, ct, data, e);
    AssembledAdmitted(env, m, ct, data, e, limits);
    AdmittedPositive(m, limits);
    HttpBinaryExact(env, e, limits);
  }
}
