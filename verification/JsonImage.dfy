/** What comes back from the JSON event format for every valid event, lossy or not, and that
    the loss report names exactly what differs. The image of an event is put together field by
    field without the encoder. */
module JsonImage {
  import opened Bytes
  import opened Order
  import opened Event
  import opened Conversion
  import opened Admission
  import opened JsonString
  import opened JsonText
  import opened JsonDocument
  import opened JsonCodec
  import opened JsonRoundTrip
  import Decimal
  import Base64
  import Utf8

  const TEXT_PLAIN: bytes := Ascii("text/plain")

  /** Formatted times are ASCII, and `text/plain` parses to itself. */
  ghost predicate Laws(env: Env) {
    TimesAscii(env) && env.mediaType(TEXT_PLAIN) == Some(TEXT_PLAIN)
  }

  ghost predicate TimesAscii(env: Env) {
    forall t: Instant :: AsciiTime(env, Some(t))
  }

  lemma TimeIsAscii(env: Env, t: Option<Instant>)
    requires TimesAscii(env)
    ensures AsciiTime(env, t)
  {
    if t.Some? {
      var at: Instant := t.value;
      assert AsciiTime(env, Some(at));
    }
  }

  // ---------- the image of an event ----------

  /** Undeclared text becomes plain text. */
  function ImageContentType(e: Event): bytes {
    if e.attributes.dataContentType == [] && e.data.Present? && e.data.kind == TextData then TEXT_PLAIN
    else e.attributes.dataContentType
  }

  /** Strings, Booleans and Integers stay what they are; anything else becomes a String of the
      same text, or nothing if its text is no String. */
  function ImageAttribute(a: Attribute): Option<Attribute> {
    if a.kind in {KindString, KindBoolean, KindInteger} then Some(a)
    else if ValidCloudString(a.text) then Some(Attribute(KindString, a.text))
    else None
  }

  predicate AllHaveImage(x: map<bytes, Attribute>) {
    forall n :: n in x ==> ImageAttribute(x[n]).Some?
  }

  function ImageExtensions(x: map<bytes, Attribute>): Option<map<bytes, Attribute>> {
    if AllHaveImage(x) then Some(map n | n in x :: ImageAttribute(x[n]).value) else None
  }

  /** Under a JSON content type data is JSON: text turns into its literal, and JSON loses the
      white space around it. Under any other, JSON turns into the text of a string, `null`
      into none, and nothing else can be read. Binary data stays what it is. */
  function ImageData(env: Env, e: Event): Option<Data>
    requires ValidData(e.data)
  {
    var json := IsJsonMediaType(env, ImageContentType(e));
    match e.data
    case Absent => Some(Absent)
    case Present(BinaryData, _) => Some(e.data)
    case Present(TextData, b) => Some(if json then Present(JsonData, Quote(b)) else e.data)
    case Present(JsonData, b) =>
      if json then Some(Present(JsonData, TrimSpace(b)))
      else match ParseDocument(b).value.value
        case String(text) => Some(Present(TextData, text))
        case Null => Some(Present(TextData, []))
        case _ => None
  }

  function Image(env: Env, e: Event): Option<Event>
    requires ValidEvent(env, e)
  {
    var x :- ImageExtensions(e.attributes.extensions);
    var d :- ImageData(env, e);
    Some(Event(e.attributes.(dataContentType := ImageContentType(e), extensions := x), d))
  }

  ghost predicate ImageAdmitted(env: Env, e: Event, image: Event, limits: Limits)
    requires ValidEvent(env, e)
  {
    && |EncodedText(env, e)| <= limits.maxEventBytes && 1 + DataDepth(e.data) <= limits.maxDepth
    && ContextFits(env, image.attributes, limits) && DataFits(image.data, limits)
  }

  // ---------- fields ----------

  lemma WrittenIsImage(e: Event)
    ensures WrittenContentType(e) == ImageContentType(e)
  {
  }

  lemma RequiredIs(m: map<bytes, bytes>, name: bytes, x: bytes, limits: Limits)
    requires name in m && m[name] == Quote(x) && Utf8.Valid(x)
    ensures Required(StringMember(m, name, limits)) == if Fits(x, limits) then Some(x) else None
  {
    hide StringMember, Reread, Quote, Utf8.Valid;
    QuotedField(m, name, x, limits);
    RereadSame(x);
  }

  lemma OptionalIs(m: map<bytes, bytes>, name: bytes, x: bytes, limits: Limits)
    requires if x == [] then name !in m else name in m && m[name] == Quote(x)
    requires Utf8.Valid(x)
    ensures OptionalText(StringMember(m, name, limits)) == if x == [] || Fits(x, limits) then Some(x) else None
  {
    if x != [] {
      hide StringMember, Reread, Quote, Utf8.Valid;
      QuotedField(m, name, x, limits);
      RereadSame(x);
    }
  }

  lemma TimeIs(env: Env, m: map<bytes, bytes>, t: Option<Instant>, limits: Limits)
    requires t.Some? ==> IsAscii(env.formatTime(t.value)) && env.parseTime(env.formatTime(t.value)) == t
    requires if t.None? then TIME !in m else TIME in m && m[TIME] == Quote(env.formatTime(t.value))
    ensures TimeOf(env, StringMember(m, TIME, limits)) ==
      if t.None? || Fits(env.formatTime(t.value), limits) then Some(t) else None
  {
    if t.Some? {
      hide StringMember, Reread, Quote, Utf8.Valid, IsAscii;
      var x := env.formatTime(t.value);
      Utf8.ValidAscii(x);
      QuotedField(m, TIME, x, limits);
      RereadSame(x);
    }
  }

  lemma AttributeTextUtf8(env: Env, a: Attribute)
    requires ValidAttribute(env, a) && TimesAscii(env)
    ensures Utf8.Valid(a.text)
  {
    hide Utf8.Valid, CloudScalars, IsAscii, Base64.Decode, Decimal.ParseInt32, Decimal.FormatInt;
    match a.kind
    case KindString => case KindURI => case KindURIReference => case KindUnassigned =>
    case KindBoolean => WordsAscii(); Utf8.ValidAscii(TRUE); Utf8.ValidAscii(FALSE);
    case KindInteger =>
      Decimal.FormatIsAscii(Decimal.ParseInt32(a.text).value);
      Utf8.ValidAscii(a.text);
    case KindBinary =>
      Base64.AcceptedIsAscii(a.text);
      Utf8.ValidAscii(a.text);
    case KindTimestamp =>
      TimeIsAscii(env, env.parseTime(a.text));
      Utf8.ValidAscii(a.text);
  }

  lemma WordsAscii()
    ensures IsAscii(TRUE) && IsAscii(FALSE)
  {
  }

  /** An extension member reads as the attribute's image. */
  lemma ExtensionIs(env: Env, a: Attribute, limits: Limits)
    requires ValidAttribute(env, a) && Utf8.Valid(a.text)
    ensures ExtensionMember(a) != NULL
    ensures DecodeExtension(ExtensionMember(a), limits) == if Fits(a.text, limits) then ImageAttribute(a) else None
  {
    hide ParseDocument, Escape, Unescape, ExceedsEncodedLimit, Decimal.ParseInt32, Decimal.FormatInt, Utf8.Valid;
    hide CloudScalars;
    var x, limit := ExtensionMember(a), limits.maxAttributeValueBytes;
    ExtensionIsDocument(env, a);
    WordsDiffer();
    if a.kind == KindInteger {
      assert ParseDocument(NULL) == Some(Document(Null, NULL)) by { NullIsDocument(); }
      Decimal.ParseRange(a.text);
    } else if a.kind != KindBoolean {
      assert NULL[0] != QUOTE;
      assert |x| == |Escape(a.text)| + 2;
      EscapeIsBody(a.text);
      TwoStageAdmission(Escape(a.text), limit);
      RereadSame(a.text);
    }
  }

  lemma ExtensionsAre(env: Env, m: map<bytes, bytes>, x: map<bytes, Attribute>, limits: Limits)
    requires forall n :: n in x ==> ValidName(n) && !Reserved(n) && ValidAttribute(env, x[n]) && Utf8.Valid(x[n].text)
    requires forall n :: n in x ==> n in m && m[n] == ExtensionMember(x[n])
    requires forall n :: n in m && !Reserved(n) ==> n in x
    ensures DecodeExtensions(m, limits) == if ExtensionsFit(x, limits) then ImageExtensions(x) else None
  {
    hide DecodeExtension, ExtensionMember, Reserved, Fits, ImageAttribute, Utf8.Valid, ValidAttribute;
    forall n | n in x
      ensures m[n] != NULL && n != []
      ensures DecodeExtension(m[n], limits) == if Fits(x[n].text, limits) then ImageAttribute(x[n]) else None
    {
      ExtensionIs(env, x[n], limits);
    }
    if ExtensionsAdmitted(m, limits) {
      forall n | n in x
        ensures |n| <= limits.maxAttributeNameBytes && Fits(x[n].text, limits) && ImageAttribute(x[n]).Some?
      {
        assert ExtensionAdmitted(n, m[n], limits);
      }
      assert DecodeExtensions(m, limits).value == ImageExtensions(x).value;
    } else {
      var n :| n in m && !Reserved(n) && !ExtensionAdmitted(n, m[n], limits);
      assert |n| > 0;
    }
  }

  // ---------- data ----------

  lemma JsonDataIs(env: Env, b: bytes, contentType: bytes, limits: Limits)
    requires IsValid(b)
    ensures DecodePlainData(env, TrimSpace(b), contentType, limits) ==
      if IsJsonMediaType(env, contentType) then
        if DataFits(Present(JsonData, TrimSpace(b)), limits) then Some(Present(JsonData, TrimSpace(b))) else None
      else match ParseDocument(b).value.value
        case String(text) => if DataFits(Present(TextData, text), limits) then Some(Present(TextData, text)) else None
        case Null => if DataFits(Present(TextData, []), limits) then Some(Present(TextData, [])) else None
        case _ => None
  {
    hide ParseDocument, TrimSpace, IsJsonMediaType, ExceedsEncodedLimit, Utf8.Valid, Unescape, IsBody;
    TrimDocument(b);
    CoreParses(b);
    JsonRoundTrip.EmptyUtf8();
    var d := ParseDocument(b).value;
    if !IsJsonMediaType(env, contentType) {
      if d.value.String? {
        StringCore(b, limits.maxDataBytes);
      } else if d.value.Null? {
        NullCore(b);
        EncodedLimitMeaning(4, limits.maxDataBytes);
      }
    }
  }

  /** The value of a text is a text of its own. */
  lemma CoreParses(b: bytes)
    requires IsValid(b)
    ensures var d := ParseDocument(b).value; ParseDocument(d.core) == Some(d)
  {
    hide ParseValue;
    CutOut(b, SpaceEnd(b, 0));
  }

  /** A value that is a string is a literal, and its text what the literal means. */
  lemma StringValue(s: bytes, i: nat)
    requires i <= |s| && ParseValue(s, i).Some? && ParseValue(s, i).value.value.String?
    ensures var p := ParseValue(s, i).value;
      i < |s| && LiteralEnd(s, i) == Some(p.end) && p.value.text == Unescape(s[i + 1..p.end - 1])
  {
    hide LiteralEnd, Unescape, NumberEnd, WordAt, ParseContainer;
  }

  lemma LiteralBody(s: bytes, i: nat)
    requires i <= |s| && LiteralEnd(s, i).Some?
    ensures IsBody(s[i + 1..LiteralEnd(s, i).value - 1])
  {
    hide IsBody, ScanBody;
    ScanSound(s[i + 1..]);
    var e := LiteralEnd(s, i).value;
    assert s[i + 1..][..e - i - 2] == s[i + 1..e - 1];
  }

  lemma StringCore(b: bytes, limit: int)
    requires IsValid(b) && ParseDocument(b).value.value.String?
    ensures var d := ParseDocument(b).value;
      && Utf8.Valid(d.value.text)
      && ((!ExceedsEncodedLimit(|d.core|, limit) && |d.value.text| <= limit) <==>
            (0 < limit && |d.value.text| <= limit))
  {
    hide ParseValue, LiteralEnd, Unescape, IsBody, ExceedsEncodedLimit, Utf8.Valid, SpaceEnd;
    var w := SpaceEnd(b, 0);
    var p := ParseValue(b, w).value;
    StringValue(b, w);
    LiteralBody(b, w);
    var body := b[w + 1..p.end - 1];
    UnescapeValid(body);
    TwoStageAdmission(body, limit);
  }

  lemma NullCore(b: bytes)
    requires IsValid(b) && ParseDocument(b).value.value.Null?
    ensures |ParseDocument(b).value.core| == 4
  {
    hide Unescape, IsBody, ScanBody;
    assert |NULL| == 4;
  }

  lemma TextDataIs(env: Env, b: bytes, contentType: bytes, limits: Limits)
    requires Utf8.Valid(b)
    ensures DecodePlainData(env, Quote(b), contentType, limits) ==
      var d := if IsJsonMediaType(env, contentType) then Present(JsonData, Quote(b)) else Present(TextData, b);
      if DataFits(d, limits) then Some(d) else None
  {
    hide ParseDocument, Escape, Unescape, ExceedsEncodedLimit, IsJsonMediaType, Quote, IsBody, Utf8.Valid;
    QuoteIsDocument(b);
    RereadSame(b);
    EscapeIsBody(b);
    TwoStageAdmission(Escape(b), limits.maxDataBytes);
    QuoteLength(b);
  }

  lemma DataIs(env: Env, m: map<bytes, bytes>, e: Event, limits: Limits)
    requires ValidData(e.data)
    requires forall k :: k in m && (k == DATA || k == DATA_BASE64) ==> k in DataName(e.data)
    requires forall k :: k in DataName(e.data) ==>
      (k in m && k in DataMembers(e.data) &&
       m[k] == if e.data.kind == JsonData then TrimSpace(e.data.bytes) else DataMembers(e.data)[k])
    ensures var d := ImageData(env, e);
      DecodeData(env, m, ImageContentType(e), limits) == if d.Some? && DataFits(d.value, limits) then d else None
  {
    hide TrimSpace, IsJsonMediaType, Quote, ParseDocument, Utf8.Valid, DecodePlainData, DecodeBase64Data, Base64.Encode;
    hide DATA, DATA_BASE64, ImageContentType;
    ReservedNames();
    var ct := ImageContentType(e);
    if e.data.Present? {
      var b := e.data.bytes;
      if e.data.kind == BinaryData {
        assert DATA_BASE64 in m && DATA !in m;
        DataMemberText(e.data, DATA_BASE64);
        ReadBinaryData(b, limits);
      } else {
        assert DATA in m && DATA_BASE64 !in m;
        DataMemberText(e.data, DATA);
        if e.data.kind == TextData {
          TextDataIs(env, b, ct, limits);
        } else {
          JsonDataIs(env, b, ct, limits);
        }
      }
    }
  }

  // ---------- the image is what comes back ----------

  lemma ContextIs(env: Env, e: Event, limits: Limits)
    requires ValidEvent(env, e) && Laws(env) && Faithful(env, e.attributes)
    ensures var m, a, ct := ReadMembers(env, e), e.attributes, ImageContentType(e);
      && Required(StringMember(m, SPECVERSION, limits)) == (if Fits(VERSION, limits) then Some(VERSION) else None)
      && Required(StringMember(m, ID, limits)) == (if Fits(a.id, limits) then Some(a.id) else None)
      && Required(StringMember(m, SOURCE, limits)) == (if Fits(a.source, limits) then Some(a.source) else None)
      && Required(StringMember(m, TYPE, limits)) == (if Fits(a.eventType, limits) then Some(a.eventType) else None)
      && OptionalText(StringMember(m, DATACONTENTTYPE, limits)) ==
           (if ct == [] || Fits(ct, limits) then Some(ct) else None)
      && OptionalText(StringMember(m, DATASCHEMA, limits)) ==
           (if a.dataSchema == [] || Fits(a.dataSchema, limits) then Some(a.dataSchema) else None)
      && OptionalText(StringMember(m, SUBJECT, limits)) ==
           (if a.subject == [] || Fits(a.subject, limits) then Some(a.subject) else None)
      && TimeOf(env, StringMember(m, TIME, limits)) ==
           (if a.time.None? || Fits(env.formatTime(a.time.value), limits) then Some(a.time) else None)
  {
    hide StringMember, Required, OptionalText, TimeOf, Fits, ReadMembers, Quote, Utf8.Valid, CloudScalars, IsAscii;
    hide WrittenContentType, ValidExtension, ValidSelected, ValidData, Ascii;
    var m, a := ReadMembers(env, e), e.attributes;
    ReadContextMembers(env, e);
    WrittenIsImage(e);
    VersionUtf8();
    JsonRoundTrip.EmptyUtf8();
    assert Utf8.Valid(ImageContentType(e)) by { PlainUtf8(); }
    RequiredIs(m, SPECVERSION, VERSION, limits);
    RequiredIs(m, ID, a.id, limits);
    RequiredIs(m, SOURCE, a.source, limits);
    RequiredIs(m, TYPE, a.eventType, limits);
    OptionalIs(m, DATACONTENTTYPE, ImageContentType(e), limits);
    OptionalIs(m, DATASCHEMA, a.dataSchema, limits);
    OptionalIs(m, SUBJECT, a.subject, limits);
    TimeIsAscii(env, a.time);
    TimeIs(env, m, a.time, limits);
  }

  lemma PlainUtf8()
    ensures Utf8.Valid(TEXT_PLAIN) && TEXT_PLAIN != []
  {
    assert |TEXT_PLAIN| == 10;
    Utf8.ValidAscii(TEXT_PLAIN);
  }

  lemma EventExtensionsAre(env: Env, e: Event, limits: Limits)
    requires ValidEvent(env, e) && Laws(env)
    ensures DecodeExtensions(ReadMembers(env, e), limits) ==
      if ExtensionsFit(e.attributes.extensions, limits) then ImageExtensions(e.attributes.extensions) else None
  {
    hide ReadMembers, ValidAttributes, ValidData, ExtensionMember, DecodeExtensions, ValidAttribute, ValidName;
    hide ImageExtensions, ExtensionsFit, Reserved, Utf8.Valid, Ascii;
    ValidExtensionsFacts(env, e.attributes);
    ReadExtensionMembers(env, e);
    forall n | n in e.attributes.extensions ensures Utf8.Valid(e.attributes.extensions[n].text) {
      AttributeTextUtf8(env, e.attributes.extensions[n]);
    }
    ExtensionsAre(env, ReadMembers(env, e), e.attributes.extensions, limits);
  }

  lemma EventDataIs(env: Env, e: Event, limits: Limits)
    requires ValidEvent(env, e)
    ensures var d := ImageData(env, e);
      DecodeData(env, ReadMembers(env, e), ImageContentType(e), limits) ==
        if d.Some? && DataFits(d.value, limits) then d else None
  {
    hide JsonMembers, StandardTexts, ValidAttributes, ReadMembers, DataMembers, ExtensionMember, WrittenContentType;
    hide DecodeData, ImageData, DataFits, TrimSpace, DATA, DATA_BASE64, IsValid, ImageContentType;
    ValidExtensionsFacts(env, e.attributes);
    MembersLookup(env, e);
    ReadKeys(env, e);
    DataApart(env, e);
    ReadLookup(env, e);
    ReservedNames();
    DataIs(env, ReadMembers(env, e), e, limits);
  }

  /** The image is a valid event wherever there is one. */
  lemma ImageValid(env: Env, e: Event)
    requires ValidEvent(env, e) && Laws(env) && Image(env, e).Some?
    ensures ValidAttributes(env, Image(env, e).value.attributes)
  {
    hide ImageData, ValidData, ValidName, Reserved, ValidCloudString, TRACEPARENT, TRACESTATE, PARTITIONKEY, TimesAscii;
    hide ValidTraceParentAttribute, ValidTraceStateAttribute, ValidPartitionKeyAttribute, Ascii;
    var a, x := e.attributes, Image(env, e).value.attributes.extensions;
    forall n | n in x
      ensures ValidExtension(env, n, x[n]) && (a.extensions[n].kind == KindString ==> x[n] == a.extensions[n])
    {
      assert ValidExtension(env, n, a.extensions[n]);
    }
    SelectedStrings(a.extensions);
    SelectedSame(a.extensions, x);
  }

  lemma SelectedStrings(x: map<bytes, Attribute>)
    requires ValidSelected(x)
    ensures forall n :: n in x && n in {TRACEPARENT, TRACESTATE, PARTITIONKEY} ==> x[n].kind == KindString
  {
    hide TRACEPARENT, TRACESTATE, PARTITIONKEY;
  }

  lemma SelectedSame(x: map<bytes, Attribute>, y: map<bytes, Attribute>)
    requires ValidSelected(x) && x.Keys == y.Keys
    requires forall n :: n in x && n in {TRACEPARENT, TRACESTATE, PARTITIONKEY} ==> y[n] == x[n]
    ensures ValidSelected(y)
  {
    hide TRACEPARENT, TRACESTATE, PARTITIONKEY, ValidTraceParentAttribute, ValidTraceStateAttribute;
    hide ValidPartitionKeyAttribute;
  }

  /** The context of the image takes the room of the context of the event. */
  lemma ImageFits(env: Env, e: Event, image: Event, limits: Limits)
    requires ValidEvent(env, e) && Image(env, e) == Some(image)
    ensures ContextFits(env, image.attributes, limits) <==>
      && |ContextTexts(env, e.attributes)| + ContentTypeCount(e) <= limits.maxAttributes
      && TextsFit(env, e.attributes, limits) && ExtensionsFit(e.attributes.extensions, limits)
      && (ImageContentType(e) == [] || Fits(ImageContentType(e), limits))
  {
    hide ContextTexts, ImageData, ValidAttributes, ValidData, ImageContentType, WrittenContentType, Image;
    ImageContext(env, e, image);
    ValidExtensionsFacts(env, e.attributes);
    ContextTextsFit(env, e.attributes, limits);
    WrittenIsImage(e);
  }

  lemma ImageContext(env: Env, e: Event, image: Event)
    requires ValidEvent(env, e) && Image(env, e) == Some(image)
    ensures ContextTexts(env, image.attributes) == ContextTexts(env, e.attributes)
    ensures image.attributes.extensions.Keys == e.attributes.extensions.Keys
    ensures image.attributes.dataContentType == ImageContentType(e)
  {
    hide ImageData, ValidAttributes, ValidData, ImageContentType, ValidCloudString, SPECVERSION, ID, SOURCE, TYPE;
    hide DATASCHEMA, SUBJECT, TIME, VERSION, Optional, TimeText, RequiredTexts;
    var x, y := e.attributes.extensions, image.attributes.extensions;
    assert ExtensionTexts(y) == ExtensionTexts(x);
    SameStandard(env, e.attributes, image.attributes);
  }

  lemma SameStandard(env: Env, a: Attributes, b: Attributes)
    requires b == a.(dataContentType := b.dataContentType, extensions := b.extensions)
    ensures StandardTexts(env, a) == StandardTexts(env, b)
  {
  }

  lemma MembersImage(env: Env, e: Event, limits: Limits)
    requires ValidEvent(env, e) && Laws(env) && Faithful(env, e.attributes)
    ensures var image := Image(env, e);
      DecodeMembers(env, ReadMembers(env, e), limits) ==
        if image.Some? && ContextFits(env, image.value.attributes, limits) && DataFits(image.value.data, limits)
        then image else None
  {
    hide ReadMembers, StringMember, DecodeExtensions, DecodeData, ContextTexts, ValidAttributes, ValidData, Required;
    hide OptionalText, TimeOf, CountAttributes, DataFits, Utf8.Valid, ImageData, ImageExtensions, ImageContentType;
    hide ContextFits, ExtensionsFit, ContentTypeCount, Laws, Faithful, Fits, SPECVERSION, ID, SOURCE, TYPE;
    hide DATACONTENTTYPE, DATASCHEMA, SUBJECT, TIME, DATA, DATA_BASE64, VERSION;
    ContextIs(env, e, limits);
    EventExtensionsAre(env, e, limits);
    EventDataIs(env, e, limits);
    CountMembers(env, e);
    ContextNonEmpty(env, e.attributes);
    TextsFitParts(env, e.attributes, limits);
    if Image(env, e).Some? {
      ImageFits(env, e, Image(env, e).value, limits);
      ImageValid(env, e);
    }
  }

  /** Either all texts fit, or one of the fields does not. */
  lemma TextsFitParts(env: Env, a: Attributes, limits: Limits)
    ensures TextsFit(env, a, limits) && ExtensionsFit(a.extensions, limits) <==>
      && Fits(VERSION, limits) && Fits(a.id, limits) && Fits(a.source, limits) && Fits(a.eventType, limits)
      && (a.dataSchema == [] || Fits(a.dataSchema, limits)) && (a.subject == [] || Fits(a.subject, limits))
      && (a.time.None? || Fits(env.formatTime(a.time.value), limits)) && ExtensionsFit(a.extensions, limits)
  {
    hide Fits, VERSION;
  }

  /** What comes back. For every valid event whose unchecked texts and time are faithful, and
      for all limits, decoding the encoded event gives its image, if it has one and the limits
      admit it, and nothing otherwise. */
  lemma ImageExact(env: Env, e: Event, limits: Limits)
    requires ValidEvent(env, e) && Laws(env) && Faithful(env, e.attributes)
    ensures var image := Image(env, e);
      DecodeText(env, EncodedText(env, e), limits) ==
        if image.Some? && ImageAdmitted(env, e, image.value, limits) then image else None
  {
    hide DecodeText, DecodeMembers, JsonMembers, Faithful, ContextFits, DataFits, Documents, Image, Laws, ValidEvent;
    hide SortedEntries, PrintContainer;
    EventDocuments(env, e);
    DecodePrinted(env, JsonMembers(env, e), limits);
    MembersImage(env, e, limits);
    if limits.maxDepth >= 1 {
      MembersDepth(env, e, limits.maxDepth - 1);
    }
  }

  // ---------- the report names what differs ----------

  lemma InReport(base: seq<Note>, names: set<bytes>, reason: bytes, note: Note)
    ensures note in Canonical(multiset(base) + multiset(ExtensionNotes(names, reason))) <==>
      note in base || note in ExtensionNotes(names, reason)
  {
    hide Canonical, ExtensionNotes;
    var m := multiset(base) + multiset(ExtensionNotes(names, reason));
    var r := Canonical(m);
    assert note in r <==> note in multiset(r);
    assert note in base <==> note in multiset(base);
  }

  lemma ExtensionNoteFor(names: set<bytes>, reason: bytes, n: bytes)
    ensures Note(EXTENSIONS + n, reason) in ExtensionNotes(names, reason) <==> n in names
  {
    hide Ascii;
    assert forall m :: (EXTENSIONS + m)[|EXTENSIONS|..] == m;
  }

  lemma ReasonsApart()
    ensures WHITESPACE_LOSS != TEXT_AS_JSON_LOSS && WHITESPACE_LOSS != NOT_JSON_LOSS
    ensures TEXT_AS_JSON_LOSS != NOT_JSON_LOSS
    ensures DATA != DATACONTENTTYPE && forall n :: EXTENSIONS + n != DATA && EXTENSIONS + n != DATACONTENTTYPE
  {
    assert |WHITESPACE_LOSS| == 82 && |TEXT_AS_JSON_LOSS| == 43 && |NOT_JSON_LOSS| == 57;
    assert EXTENSIONS[0] == 0x65 && DATA[0] == 0x64 && DATACONTENTTYPE[0] == 0x64;
    assert forall n :: (EXTENSIONS + n)[0] == 0x65;
    assert |DATA| == 4 && |DATACONTENTTYPE| == 15;
  }

  lemma PlainIsText(env: Env)
    requires env.mediaType(TEXT_PLAIN) == Some(TEXT_PLAIN)
    ensures !IsJsonMediaType(env, TEXT_PLAIN) && IsTextMediaType(env, TEXT_PLAIN)
  {
    var m := TEXT_PLAIN;
    assert |m| == 10 && m[4] == SLASH && m[..5] == Ascii("text/");
    assert m[..4] == [0x74, 0x65, 0x78, 0x74];
    IndexOfUnique(m, SLASH, 4);
    assert m[5] == 0x70 && Ascii("json")[0] == 0x6A;
    var rest := m[5..];
    assert rest[0] == m[5] && |rest| == 5 && rest[5 - 5..] == rest;
    assert Ascii("+json")[0] == 0x2B;
  }

  ghost predicate BecomesJson(env: Env, e: Event)
    requires ValidData(e.data)
  {
    var d := ImageData(env, e); d.Some? && d.value.Present? && d.value.kind == JsonData
  }

  /** What the notes about data and content type say. */
  ghost predicate DataNotesExact(env: Env, e: Event, notes: seq<Note>)
    requires ValidData(e.data)
  {
    && (Note(DATACONTENTTYPE, MATERIALIZED_TEXT_LOSS) in notes <==> ImageContentType(e) != e.attributes.dataContentType)
    && (Note(DATA, WHITESPACE_LOSS) in notes <==>
          e.data.Present? && e.data.kind == JsonData && TrimSpace(e.data.bytes) != e.data.bytes)
    && (Note(DATA, TEXT_AS_JSON_LOSS) in notes <==> e.data.Present? && e.data.kind == TextData && BecomesJson(env, e))
    && (Note(DATA, NOT_JSON_LOSS) in notes <==> e.data.Present? && e.data.kind == JsonData && !BecomesJson(env, e))
  }

  ghost predicate IsDataNote(note: Note) {
    || note == Note(DATACONTENTTYPE, MATERIALIZED_TEXT_LOSS)
    || (note.field == DATA && note.text in {WHITESPACE_LOSS, TEXT_AS_JSON_LOSS, NOT_JSON_LOSS})
  }

  lemma NoteInReport(env: Env, e: Event, note: Note)
    ensures note in JsonReport(env, e) <==>
      note in JsonDataLosses(env, e) || note in ExtensionNotes(LostByJson(e), JSON_STRING_LOSS)
  {
    hide Canonical, ExtensionNotes, JsonDataLosses, LostByJson;
    InReport(JsonDataLosses(env, e), LostByJson(e), JSON_STRING_LOSS, note);
  }

  lemma NotExtensionNote(names: set<bytes>, reason: bytes, note: Note)
    requires note.field == DATA || note.field == DATACONTENTTYPE
    ensures note !in ExtensionNotes(names, reason)
  {
    ReasonsApart();
    hide Ascii;
  }

  lemma ReportDataNotes(env: Env, e: Event)
    requires ValidEvent(env, e) && Laws(env)
    ensures DataNotesExact(env, e, JsonReport(env, e))
  {
    hide JsonReport, ImageContentType, TrimSpace, BecomesJson, JsonDataLosses, ExtensionNotes, LostByJson;
    hide ValidAttributes, ValidData, Laws, Ascii;
    DataNotes(env, e);
    var lost := LostByJson(e);
    NoteInReport(env, e, Note(DATACONTENTTYPE, MATERIALIZED_TEXT_LOSS));
    NotExtensionNote(lost, JSON_STRING_LOSS, Note(DATACONTENTTYPE, MATERIALIZED_TEXT_LOSS));
    NoteInReport(env, e, Note(DATA, WHITESPACE_LOSS));
    NotExtensionNote(lost, JSON_STRING_LOSS, Note(DATA, WHITESPACE_LOSS));
    NoteInReport(env, e, Note(DATA, TEXT_AS_JSON_LOSS));
    NotExtensionNote(lost, JSON_STRING_LOSS, Note(DATA, TEXT_AS_JSON_LOSS));
    NoteInReport(env, e, Note(DATA, NOT_JSON_LOSS));
    NotExtensionNote(lost, JSON_STRING_LOSS, Note(DATA, NOT_JSON_LOSS));
  }

  lemma ReportExtensionNote(env: Env, e: Event, n: bytes)
    requires ValidEvent(env, e) && Laws(env)
    ensures Note(EXTENSIONS + n, JSON_STRING_LOSS) in JsonReport(env, e) <==>
      n in e.attributes.extensions && ImageAttribute(e.attributes.extensions[n]) != Some(e.attributes.extensions[n])
  {
    hide JsonReport, ImageAttribute, JsonDataLosses, ExtensionNotes, LostByJson, ValidEvent, IsDataNote, Laws, Ascii;
    NoteInReport(env, e, Note(EXTENSIONS + n, JSON_STRING_LOSS));
    ExtensionNoteFor(LostByJson(e), JSON_STRING_LOSS, n);
    LostHasOtherImage(env, e);
    DataNotes(env, e);
    assert !IsDataNote(Note(EXTENSIONS + n, JSON_STRING_LOSS)) by { NotDataNote(n); }
  }

  lemma NotDataNote(n: bytes)
    ensures !IsDataNote(Note(EXTENSIONS + n, JSON_STRING_LOSS))
  {
    ReasonsApart();
    hide Ascii;
  }

  /** Every note of the report, with its reason, stands for one difference between the event and
      its image, every difference has its note, and there is no other note. */
  lemma JsonReportNames(env: Env, e: Event)
    requires ValidEvent(env, e) && Laws(env)
    ensures DataNotesExact(env, e, JsonReport(env, e))
    ensures var x := e.attributes.extensions;
      && (forall n :: Note(EXTENSIONS + n, JSON_STRING_LOSS) in JsonReport(env, e) <==>
            n in x && ImageAttribute(x[n]) != Some(x[n]))
      && (forall note :: note in JsonReport(env, e) ==>
            IsDataNote(note) || exists n :: n in x && note == Note(EXTENSIONS + n, JSON_STRING_LOSS))
  {
    hide JsonReport, ImageAttribute, JsonDataLosses, ExtensionNotes, LostByJson, ValidEvent, IsDataNote, Laws;
    hide DataNotesExact, Ascii;
    ReportDataNotes(env, e);
    forall n ensures Note(EXTENSIONS + n, JSON_STRING_LOSS) in JsonReport(env, e) <==>
      n in e.attributes.extensions && ImageAttribute(e.attributes.extensions[n]) != Some(e.attributes.extensions[n])
    {
      ReportExtensionNote(env, e, n);
    }
    LostHasOtherImage(env, e);
    DataNotes(env, e);
    forall note | note in JsonReport(env, e)
      ensures IsDataNote(note)
        || exists n :: n in e.attributes.extensions && note == Note(EXTENSIONS + n, JSON_STRING_LOSS)
    {
      NoteInReport(env, e, note);
      if note in ExtensionNotes(LostByJson(e), JSON_STRING_LOSS) {
        ExtensionNoteFrom(e, LostByJson(e), JSON_STRING_LOSS, note);
      }
    }
  }

  lemma ExtensionNoteFrom(e: Event, lost: set<bytes>, reason: bytes, note: Note)
    requires note in ExtensionNotes(lost, reason) && lost <= e.attributes.extensions.Keys
    ensures exists n :: n in e.attributes.extensions && note == Note(EXTENSIONS + n, reason)
  {
    hide Ascii;
  }

  lemma LostHasOtherImage(env: Env, e: Event)
    requires ValidEvent(env, e)
    ensures LostByJson(e) <= e.attributes.extensions.Keys
    ensures forall n :: n in LostByJson(e) <==>
      n in e.attributes.extensions && ImageAttribute(e.attributes.extensions[n]) != Some(e.attributes.extensions[n])
  {
    hide ValidEvent, ValidCloudString;
  }

  /** The notes about data and content type. */
  lemma DataNotes(env: Env, e: Event)
    requires ValidEvent(env, e) && Laws(env)
    ensures DataNotesExact(env, e, JsonDataLosses(env, e))
    ensures forall note :: note in JsonDataLosses(env, e) ==> IsDataNote(note)
  {
    hide TrimSpace, ValidAttributes, ValidData, DataNotesExact, IsDataNote, JsonDataLosses, IsJsonMediaType, TimesAscii;
    hide Ascii;
    if e.data.Absent? || e.data.kind == BinaryData {
      NoDataNotes(env, e);
    } else if e.data.kind == TextData {
      TextNotes(env, e);
    } else {
      JsonNotes(env, e);
    }
  }

  /** The four questions about a list of notes, asked one by one. */
  lemma AnswersExact(env: Env, e: Event, notes: seq<Note>, materialized: bool, trimmed: bool, asJson: bool,
      notJson: bool)
    requires ValidData(e.data)
    requires Note(DATACONTENTTYPE, MATERIALIZED_TEXT_LOSS) in notes <==> materialized
    requires Note(DATA, WHITESPACE_LOSS) in notes <==> trimmed
    requires Note(DATA, TEXT_AS_JSON_LOSS) in notes <==> asJson
    requires Note(DATA, NOT_JSON_LOSS) in notes <==> notJson
    requires materialized <==> ImageContentType(e) != e.attributes.dataContentType
    requires trimmed <==> e.data.Present? && e.data.kind == JsonData && TrimSpace(e.data.bytes) != e.data.bytes
    requires asJson <==> e.data.Present? && e.data.kind == TextData && BecomesJson(env, e)
    requires notJson <==> e.data.Present? && e.data.kind == JsonData && !BecomesJson(env, e)
    ensures DataNotesExact(env, e, notes)
  {
    hide TrimSpace, ImageContentType, ValidData, BecomesJson, Ascii;
  }

  lemma NoDataLosses(env: Env, e: Event)
    requires e.data.Absent? || e.data.kind == BinaryData
    ensures JsonDataLosses(env, e) == [] && ImageContentType(e) == e.attributes.dataContentType
  {
    hide TrimSpace, IsJsonMediaType, Ascii;
  }

  lemma NoDataNotes(env: Env, e: Event)
    requires ValidData(e.data) && (e.data.Absent? || e.data.kind == BinaryData)
    ensures DataNotesExact(env, e, JsonDataLosses(env, e)) && JsonDataLosses(env, e) == []
  {
    hide TrimSpace, ImageContentType, ValidData, BecomesJson, DataNotesExact, JsonDataLosses, Ascii;
    NoDataLosses(env, e);
    AnswersExact(env, e, [], false, false, false, false);
  }

  lemma TextBecomes(env: Env, e: Event)
    requires ValidData(e.data) && e.data.Present? && e.data.kind == TextData
    requires env.mediaType(TEXT_PLAIN) == Some(TEXT_PLAIN)
    ensures BecomesJson(env, e) <==>
      e.attributes.dataContentType != [] && IsJsonMediaType(env, e.attributes.dataContentType)
    ensures ImageContentType(e) != e.attributes.dataContentType <==> e.attributes.dataContentType == []
  {
    hide IsJsonMediaType, Quote, Utf8.Valid, IsTextMediaType, Ascii;
    PlainIsText(env);
    PlainUtf8();
  }

  lemma JsonBecomes(env: Env, e: Event)
    requires ValidData(e.data) && e.data.Present? && e.data.kind == JsonData
    ensures BecomesJson(env, e) <==> IsJsonMediaType(env, e.attributes.dataContentType)
    ensures ImageContentType(e) == e.attributes.dataContentType
  {
    hide IsJsonMediaType, ParseDocument, TrimSpace, Ascii;
  }

  lemma TextLosses(env: Env, e: Event)
    requires e.data.Present? && e.data.kind == TextData
    ensures var ct := e.attributes.dataContentType;
      JsonDataLosses(env, e) ==
        if ct == [] then [Note(DATACONTENTTYPE, MATERIALIZED_TEXT_LOSS)]
        else if IsJsonMediaType(env, ct) then [Note(DATA, TEXT_AS_JSON_LOSS)] else []
  {
    hide TrimSpace, IsJsonMediaType, Ascii;
  }

  lemma TextNotes(env: Env, e: Event)
    requires ValidData(e.data) && e.data.Present? && e.data.kind == TextData
    requires env.mediaType(TEXT_PLAIN) == Some(TEXT_PLAIN)
    ensures DataNotesExact(env, e, JsonDataLosses(env, e))
    ensures forall note :: note in JsonDataLosses(env, e) ==> IsDataNote(note)
  {
    hide TrimSpace, ImageContentType, ValidData, BecomesJson, DataNotesExact, JsonDataLosses, IsJsonMediaType, Ascii;
    ReasonsApart();
    TextLosses(env, e);
    TextBecomes(env, e);
    var ct := e.attributes.dataContentType;
    AnswersExact(env, e, JsonDataLosses(env, e), ct == [], false, ct != [] && IsJsonMediaType(env, ct), false);
  }

  lemma JsonLosses(env: Env, e: Event)
    requires e.data.Present? && e.data.kind == JsonData
    ensures JsonDataLosses(env, e) ==
      (if TrimSpace(e.data.bytes) != e.data.bytes then [Note(DATA, WHITESPACE_LOSS)] else [])
      + if IsJsonMediaType(env, e.attributes.dataContentType) then [] else [Note(DATA, NOT_JSON_LOSS)]
  {
    hide TrimSpace, IsJsonMediaType, Ascii;
  }

  lemma JsonNotes(env: Env, e: Event)
    requires ValidData(e.data) && e.data.Present? && e.data.kind == JsonData
    ensures DataNotesExact(env, e, JsonDataLosses(env, e))
    ensures forall note :: note in JsonDataLosses(env, e) ==> IsDataNote(note)
  {
    hide TrimSpace, ImageContentType, ValidData, BecomesJson, DataNotesExact, JsonDataLosses, IsJsonMediaType, Ascii;
    ReasonsApart();
    JsonLosses(env, e);
    JsonBecomes(env, e);
    AnswersExact(env, e, JsonDataLosses(env, e), false, TrimSpace(e.data.bytes) != e.data.bytes, false,
                 !IsJsonMediaType(env, e.attributes.dataContentType));
  }

  /** The three ways in which data can differ from its image. */
  lemma OtherData(env: Env, e: Event)
    requires ValidData(e.data)
    ensures ImageData(env, e) != Some(e.data) <==>
      && e.data.Present?
      && ((e.data.kind == JsonData && (TrimSpace(e.data.bytes) != e.data.bytes || !BecomesJson(env, e)))
          || (e.data.kind == TextData && BecomesJson(env, e)))
  {
    hide ParseDocument, Quote, Utf8.Valid, TrimSpace, IsJsonMediaType, ImageContentType;
  }

  /** The note about data, whatever its reason, stands for different data. */
  lemma DataNoteMeaning(env: Env, e: Event)
    requires ValidEvent(env, e) && Laws(env)
    ensures (exists reason :: Note(DATA, reason) in JsonReport(env, e)) <==> ImageData(env, e) != Some(e.data)
  {
    hide ValidAttributes, ValidData, JsonReport, TrimSpace, BecomesJson, ImageData, ImageContentType, ImageAttribute;
    hide TimesAscii, Ascii;
    JsonReportNames(env, e);
    ReasonsApart();
    OtherData(env, e);
    var r := JsonReport(env, e);
    if reason :| Note(DATA, reason) in r {
      assert IsDataNote(Note(DATA, reason));
    }
  }

  /** The report names exactly what changes. For a valid, faithful event that the limits admit,
      decoding what was encoded either fails, and then data or an extension is reported, or
      gives an event that differs in a field if and only if the report names the field. */
  lemma JsonReportNamesChanges(env: Env, e: Event, limits: Limits)
    requires ValidEvent(env, e) && Laws(env) && Faithful(env, e.attributes)
    requires Image(env, e).Some? ==> ImageAdmitted(env, e, Image(env, e).value, limits)
    ensures var d, r, x := DecodeText(env, EncodedText(env, e), limits), JsonReport(env, e), e.attributes.extensions;
      && (d.None? ==>
            || (exists reason :: Note(DATA, reason) in r)
            || (exists n :: n in x && Note(EXTENSIONS + n, JSON_STRING_LOSS) in r))
      && (d.Some? ==>
            && (Note(DATACONTENTTYPE, MATERIALIZED_TEXT_LOSS) in r <==>
                  d.value.attributes.dataContentType != e.attributes.dataContentType)
            && ((exists reason :: Note(DATA, reason) in r) <==> d.value.data != e.data)
            && (forall n :: n in x ==>
                  n in d.value.attributes.extensions &&
                  (Note(EXTENSIONS + n, JSON_STRING_LOSS) in r <==> d.value.attributes.extensions[n] != x[n]))
            && d.value.attributes.extensions.Keys == x.Keys
            && d.value.attributes.(dataContentType := e.attributes.dataContentType, extensions := x) == e.attributes)
  {
    hide DecodeText, EncodedText, JsonReport, ValidAttributes, ValidData, ImageData, ImageContentType, ImageAttribute;
    hide Laws, Faithful, BecomesJson, ImageAdmitted, TrimSpace, Ascii;
    ImageExact(env, e, limits);
    JsonReportNames(env, e);
    DataNoteMeaning(env, e);
    if Image(env, e).None? && ImageData(env, e).Some? {
      var n :| n in e.attributes.extensions && ImageAttribute(e.attributes.extensions[n]).None?;
    }
  }

  /** Undeclared text comes back as it was, with its content type filled in as plain text. */
  lemma UndeclaredTextReturns(env: Env, e: Event, limits: Limits)
    requires ValidEvent(env, e) && Laws(env) && Faithful(env, e.attributes)
    requires e.data.Present? && e.data.kind == TextData && e.attributes.dataContentType == []
    requires forall n :: n in e.attributes.extensions ==> KeptByJson(e.attributes.extensions[n].kind)
    ensures var filled := e.(attributes := e.attributes.(dataContentType := Ascii("text/plain")));
      DecodeText(env, EncodedText(env, e), limits) ==
        if ImageAdmitted(env, e, filled, limits) then Some(filled) else None
  {
    hide DecodeText, EncodedText, ValidAttributes, Utf8.Valid, Faithful, ImageAdmitted, IsJsonMediaType, Quote;
    ImageExact(env, e, limits);
    PlainIsText(env);
    hide Ascii;
    var x := e.attributes.extensions;
    assert ImageExtensions(x).value == x;
  }
}
