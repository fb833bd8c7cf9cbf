/** Decoding normalises once: whatever the decoder accepts is an event that the strict encoder
    takes without loss and that survives another round trip. */
module JsonNormal {
  import opened Bytes
  import opened Order
  import opened Event
  import opened Conversion
  import opened Admission
  import opened JsonString
  import opened JsonText
  import opened JsonDocument
  import opened JsonCodec
  import opened JsonRoundTrip
  import JsonWalk
  import Decimal
  import Base64
  import Utf8

  // ---------- raw messages ----------

  /** A child's raw text is a complete, trimmed text of its value. */
  predicate RawChild(c: Child) {
    ParseDocument(c.raw) == Some(Document(c.value, c.raw))
  }

  lemma ChildRaw(s: bytes, i: nat, named: bool)
    requires i <= |s| && ParseChild(s, i, named).Some?
    ensures RawChild(ParseChild(s, i, named).value.value)
  {
    hide ParseValue, ParseName, ParseDocument;
    var v := if named then ParseName(s, i).value.end else i;
    CutOut(s, v);
  }

  lemma {:induction false} ChildrenRaw(s: bytes, i: nat, named: bool)
    requires i <= |s| && ParseChildren(s, i, named).Some?
    ensures forall c :: c in ParseChildren(s, i, named).value.value ==> RawChild(c)
    decreases |s| - i
  {
    hide ParseChildren, ParseChild, RawChild, SpaceEnd;
    var c := ChildrenBegin(s, i, named);
    ChildRaw(s, i, named);
    ChildrenStep(s, i, named, c);
    if s[c.end] == COMMA {
      ChildrenRaw(s, SpaceEnd(s, c.end + 1), named);
    }
  }

  /** Raw messages carry no white space around them: trimming one changes nothing. */
  lemma RawMessages(value: bytes)
    requires ParseDocument(value).Some? && ParseDocument(value).value.value.Container?
    ensures forall c :: c in ParseDocument(value).value.value.children ==> RawChild(c) && TrimSpace(c.raw) == c.raw
  {
    hide ParseChildren, ParseContainer, TrimSpace, RawChild;
    var w := SpaceEnd(value, 0);
    var cs := ParseDocument(value).value.value.children;
    ScalarShape(value, w);
    ContainerStep(value, w);
    if cs != [] {
      ChildrenRaw(value, SpaceEnd(value, w + 1), value[w] == LBRACE);
    }
    forall c | c in cs ensures TrimSpace(c.raw) == c.raw {
      TrimmedChild(c);
    }
  }

  lemma ScalarShape(s: bytes, i: nat)
    requires i <= |s| && ParseValue(s, i).Some? && ParseValue(s, i).value.value.Container?
    ensures i < |s| && (s[i] == LBRACE || s[i] == LBRACKET)
  {
    hide Unescape, NumberEnd, LiteralEnd, ParseContainer;
  }

  lemma TrimmedChild(c: Child)
    requires RawChild(c)
    ensures TrimSpace(c.raw) == c.raw
  {
    hide ParseDocument, TrimSpace;
    CutOutTrimmed(c.raw);
  }

  /** The members of a document are trimmed texts that nest less deeply than it does. */
  predicate RawMap(m: map<bytes, bytes>, depth: int) {
    forall k :: k in m ==> IsValid(m[k]) && ParseDocument(m[k]).value.core == m[k] && MemberDepth(m[k]) <= depth
  }

  lemma RawMembersOf(cs: seq<Child>, depth: int)
    requires JsonWalk.DistinctNames(cs) && ChildDepth(cs) <= depth
    requires forall c :: c in cs ==> RawChild(c)
    ensures RawMap(RawMembers(cs), depth)
  {
    hide ParseDocument, ToMap, Depth;
    var es := RawEntries(cs);
    JsonWalk.ChildDepthBound(cs, depth);
    assert Distinct(es);
    forall k | k in RawMembers(cs)
      ensures IsValid(RawMembers(cs)[k]) && ParseDocument(RawMembers(cs)[k]).value.core == RawMembers(cs)[k]
              && MemberDepth(RawMembers(cs)[k]) <= depth
    {
      var i := KeyAt(es, k);
      ValueStored(es, i);
      assert RawChild(cs[i]) && Depth(cs[i].value) <= depth;
    }
  }

  lemma AcceptedMembers(env: Env, value: bytes, limits: Limits, e: Event) returns (m: map<bytes, bytes>)
    requires DecodeText(env, value, limits) == Some(e)
    ensures RawMap(m, limits.maxDepth - 1) && limits.maxDepth >= 1
    ensures DecodeMembers(env, m, limits) == Some(e)
  {
    hide ParseDocument, DecodeMembers, RawMap, RawMembers, JsonWalk.Inspect, JsonWalk.Tokens, RawChild, TrimSpace;
    var d := ParseDocument(value).value;
    JsonWalk.InspectDocument(d.value, limits.maxDepth);
    RawMessages(value);
    m := RawMembers(d.value.children);
    RawMembersOf(d.value.children, limits.maxDepth - 1);
  }

  // ---------- what accepted members look like ----------

  lemma StringTextUtf8(s: bytes)
    requires ParseDocument(s).Some? && ParseDocument(s).value.value.String?
    ensures Utf8.Valid(ParseDocument(s).value.value.text)
  {
    hide Unescape, Utf8.Valid, NumberEnd, LiteralEnd, ParseChildren;
    var w := SpaceEnd(s, 0);
    var e := LiteralEnd(s, w).value;
    UnescapeValid(s[w + 1..e - 1]);
  }

  lemma UnmarshalUtf8(raw: bytes)
    ensures UnmarshalString(raw).Some? ==> Utf8.Valid(UnmarshalString(raw).value)
  {
    hide ParseDocument;
    if UnmarshalString(raw).Some? && ParseDocument(raw).value.value.String? {
      StringTextUtf8(raw);
    }
  }

  lemma FieldFacts(m: map<bytes, bytes>, name: bytes, limits: Limits)
    ensures var f := StringMember(m, name, limits);
      f.Found? ==> name in m && Utf8.Valid(f.text) && Fits(f.text, limits)
  {
    hide UnmarshalString, Utf8.Valid;
    if name in m {
      UnmarshalUtf8(m[name]);
      EncodedLimitMeaning(|m[name]|, limits.maxAttributeValueBytes);
    }
  }

  lemma AttributeKept(raw: bytes)
    ensures DecodeAttribute(raw).Some? ==> KeptByJson(DecodeAttribute(raw).value.kind)
  {
    hide ParseDocument, Decimal.ParseInt32, Decimal.FormatInt, ValidCloudString;
  }

  lemma ExtensionFacts(raw: bytes, limits: Limits)
    ensures DecodeExtension(raw, limits).Some? ==>
      KeptByJson(DecodeExtension(raw, limits).value.kind) && Fits(DecodeExtension(raw, limits).value.text, limits)
  {
    hide DecodeAttribute, KeptByJson;
    AttributeKept(raw);
    EncodedLimitMeaning(|raw|, limits.maxAttributeValueBytes);
  }

  lemma ExtensionsFacts(m: map<bytes, bytes>, limits: Limits, x: map<bytes, Attribute>)
    requires DecodeExtensions(m, limits) == Some(x)
    ensures forall n :: n in x ==> n in m && !Reserved(n) && KeptByJson(x[n].kind)
    ensures ExtensionsFit(x, limits)
  {
    hide DecodeExtension, Reserved, KeptByJson, Fits;
    forall n | n in x
      ensures n in m && !Reserved(n) && KeptByJson(x[n].kind) && |n| <= limits.maxAttributeNameBytes
      ensures Fits(x[n].text, limits)
    {
      assert ExtensionAdmitted(n, m[n], limits);
      ExtensionFacts(m[n], limits);
    }
  }

  lemma Base64DataFacts(raw: bytes, limits: Limits)
    ensures var d := DecodeBase64Data(raw, limits);
      d.Some? ==> d.value.Present? && d.value.kind == BinaryData && DataFits(d.value, limits)
  {
    hide UnmarshalString, Base64.Decode, Base64.DecodedLength, Base64.Encode;
    if DecodeBase64Data(raw, limits).Some? {
      Base64.EncodeDecode(UnmarshalString(raw).value);
    }
  }

  lemma PlainDataFacts(env: Env, raw: bytes, contentType: bytes, limits: Limits)
    requires IsValid(raw) && ParseDocument(raw).value.core == raw
    ensures var d := DecodePlainData(env, raw, contentType, limits);
      d.Some? ==>
        && d.value.Present? && ValidData(d.value) && DataFits(d.value, limits)
        && (if IsJsonMediaType(env, contentType) then d.value == Present(JsonData, raw) && TrimSpace(raw) == raw
            else d.value.kind == TextData)
  {
    hide UnmarshalString, ParseDocument, IsJsonMediaType, TrimSpace, Utf8.Valid;
    CutOutTrimmed(raw);
    EncodedLimitMeaning(|raw|, limits.maxDataBytes);
  }

  lemma DataFacts(env: Env, m: map<bytes, bytes>, e: Event, limits: Limits, depth: nat)
    requires RawMap(m, depth) && DecodeData(env, m, e.attributes.dataContentType, limits) == Some(e.data)
    ensures ValidData(e.data) && JsonDataKept(env, e) && DataFits(e.data, limits) && DataDepth(e.data) <= depth
  {
    hide ParseDocument, TrimSpace, DecodePlainData, DecodeBase64Data, IsJsonMediaType, Utf8.Valid, DATA, DATA_BASE64;
    if DATA_BASE64 in m {
      Base64DataFacts(m[DATA_BASE64], limits);
    } else if DATA in m {
      PlainDataFacts(env, m[DATA], e.attributes.dataContentType, limits);
      EmptyIsJson(env);
    }
  }

  lemma NamesPresent(env: Env, m: map<bytes, bytes>, e: Event, limits: Limits)
    requires DecodeMembers(env, m, limits) == Some(e)
    ensures NoReserved(e.attributes.extensions)
    ensures ContextTexts(env, e.attributes).Keys <= m.Keys - {DATA, DATA_BASE64}
    ensures e.attributes.dataContentType != [] ==> DATACONTENTTYPE in m
  {
    hide DecodeMembers, StringMember, DecodeExtensions, DecodeData, ContextTexts, ValidAttributes, StandardTexts;
    hide CountAttributes, SPECVERSION, ID, SOURCE, TYPE, DATACONTENTTYPE, DATASCHEMA, SUBJECT, TIME, DATA, DATA_BASE64;
    hide VERSION, ExtensionsFit;
    var a := e.attributes;
    DecodeMembersParts(env, m, limits, e);
    FieldFacts(m, SPECVERSION, limits); FieldFacts(m, ID, limits);
    FieldFacts(m, SOURCE, limits); FieldFacts(m, TYPE, limits);
    FieldFacts(m, DATACONTENTTYPE, limits); FieldFacts(m, DATASCHEMA, limits); FieldFacts(m, SUBJECT, limits);
    FieldFacts(m, TIME, limits);
    ExtensionsFacts(m, limits, a.extensions);
    hide Fits, Utf8.Valid;
    forall k | k in ContextTexts(env, a) ensures k in m && k != DATA && k != DATA_BASE64 {
      ContextLookup(env, a);
      ContextKeys(env, a);
      StandardKeys(env, a);
    }
  }

  lemma CountPresent(env: Env, m: map<bytes, bytes>, e: Event, limits: Limits)
    requires DecodeMembers(env, m, limits) == Some(e)
    ensures |ContextTexts(env, e.attributes)| + (if e.attributes.dataContentType == [] then 0 else 1)
      <= limits.maxAttributes
  {
    hide DecodeMembers, ContextTexts, DATACONTENTTYPE, DATA, DATA_BASE64, NoReserved, StringMember, DecodeExtensions;
    hide DecodeData;
    NamesPresent(env, m, e, limits);
    assert CountAttributes(m) <= limits.maxAttributes by { DecodeMembersParts(env, m, limits, e); }
    ContextLookup(env, e.attributes);
    ReservedNames();
    var c := ContextTexts(env, e.attributes).Keys;
    var extra := if e.attributes.dataContentType == [] then {} else {DATACONTENTTYPE};
    assert c + extra <= m.Keys - {DATA, DATA_BASE64};
    SubsetSize(c + extra, m.Keys - {DATA, DATA_BASE64});
    assert c !! extra;
  }

  /** The time as it is written, which need not be as it was read, is within the limit. */
  predicate TimeFits(env: Env, t: Option<Instant>, limits: Limits) {
    t.Some? ==> Fits(env.formatTime(t.value), limits)
  }

  /** What the decoder accepted satisfies everything the exact round trip asks for. */
  lemma AcceptedFacts(env: Env, m: map<bytes, bytes>, e: Event, limits: Limits)
    requires DecodeMembers(env, m, limits) == Some(e) && RawMap(m, limits.maxDepth - 1) && limits.maxDepth >= 1
    ensures ValidEvent(env, e) && JsonLossless(env, e)
    ensures Utf8.Valid(e.attributes.dataContentType) && Utf8.Valid(e.attributes.dataSchema)
    ensures ContextFits(env, e.attributes, limits) <==> TimeFits(env, e.attributes.time, limits)
    ensures DataFits(e.data, limits) && DataDepth(e.data) <= limits.maxDepth - 1
  {
    hide DecodeMembers, StringMember, DecodeExtensions, DecodeData, ContextTexts, ValidAttributes, CountAttributes;
    hide RawMap, SPECVERSION, ID, SOURCE, TYPE, DATACONTENTTYPE, DATASCHEMA, SUBJECT, TIME, DATA, DATA_BASE64, VERSION;
    hide ValidData, JsonDataKept, DataFits, DataDepth, Utf8.Valid, KeptByJson;
    var a := e.attributes;
    DecodeMembersParts(env, m, limits, e);
    FieldFacts(m, SPECVERSION, limits); FieldFacts(m, ID, limits);
    FieldFacts(m, SOURCE, limits); FieldFacts(m, TYPE, limits);
    FieldFacts(m, DATACONTENTTYPE, limits); FieldFacts(m, DATASCHEMA, limits); FieldFacts(m, SUBJECT, limits);
    ExtensionsFacts(m, limits, a.extensions);
    DataFacts(env, m, e, limits, limits.maxDepth - 1);
    NamesPresent(env, m, e, limits);
    CountPresent(env, m, e, limits);
    ContextTextsFit(env, a, limits);
    EmptyUtf8();
  }

  /** Decoding normalises once. For every input the decoder accepts, the strict encoder
      succeeds with an empty report; and decoding its output under the same limits with only
      the size of the event changed gives the same event if and only if there is room for the
      bytes and the time, where there is one, survives formatting within the value limit. */
  lemma DecodingNormalises(env: Env, value: bytes, limits: Limits, e: Event, room: int)
    requires DecodeText(env, value, limits) == Some(e)
    requires AsciiTime(env, e.attributes.time)
    ensures ValidEvent(env, e) && JsonReport(env, e) == []
    ensures DecodeText(env, EncodedText(env, e), limits.(maxEventBytes := room)) == Some(e) <==>
      && room >= |EncodedText(env, e)| && TimeFits(env, e.attributes.time, limits)
      && (e.attributes.time.Some? ==> env.parseTime(env.formatTime(e.attributes.time.value)) == e.attributes.time)
  {
    hide DecodeText, DecodeMembers, RawMap, JsonReport, JsonLossless, EncodedText, ValidEvent, DataFits, DataDepth;
    hide Utf8.Valid;
    var m := AcceptedMembers(env, value, limits, e);
    AcceptedFacts(env, m, e, limits);
    JsonReportEmpty(env, e);
    SameFits(env, e, limits, room);
    JsonReportExact(env, e, limits.(maxEventBytes := room));
  }

  lemma SameFits(env: Env, e: Event, limits: Limits, room: int)
    ensures ContextFits(env, e.attributes, limits.(maxEventBytes := room)) == ContextFits(env, e.attributes, limits)
    ensures DataFits(e.data, limits.(maxEventBytes := room)) == DataFits(e.data, limits)
  {
    hide ContextTexts;
  }
}
