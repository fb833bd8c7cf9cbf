/** What the two binary decoders read, for every message: an event is read from headers and a
    body if and only if they say it, attribute by attribute. What a message says is put without
    the loops, the maps and the order of checks of the decoders. */
module BinaryReading {
  import opened Bytes
  import opened Event
  import opened Admission
  import opened Binding
  import HttpAttribute
  import HttpHeader
  import HttpNormal
  import HttpBinding
  import HttpRoundTrip
  import HttpSpelling
  import KafkaBinding
  import JsonCodec
  import JsonText
  import Utf8

  type Header = HttpHeader.Header
  type KafkaHeader = KafkaBinding.KafkaHeader

  // ---------- media types ----------

  /** The part after the first slash is `json` or ends in `+json`. */
  ghost predicate JsonMedia(mediaType: bytes) {
    exists kind, subtype ::
      && SLASH !in kind && mediaType == kind + Ascii("/") + subtype
      && (subtype == Ascii("json") || exists vendor :: subtype == vendor + Ascii("+json"))
  }

  ghost predicate TextMedia(mediaType: bytes) {
    exists subtype :: mediaType == Ascii("text/") + subtype
  }

  lemma JsonMediaExact(mediaType: bytes)
    ensures JsonSubtype(mediaType) <==> JsonMedia(mediaType)
  {
    hide HasSuffix, IndexOf;
    var n := IndexOf(mediaType, SLASH);
    assert Ascii("/") == [SLASH];
    if n < |mediaType| {
      var subtype := mediaType[n + 1..];
      assert mediaType == mediaType[..n] + Ascii("/") + subtype;
      SuffixMeaning(subtype, Ascii("+json"));
      assert JsonSubtype(mediaType) <==>
        subtype == Ascii("json") || exists vendor :: subtype == vendor + Ascii("+json");
    }
    if kind, subtype :| SLASH !in kind && mediaType == kind + Ascii("/") + subtype
                        && (subtype == Ascii("json") || exists vendor :: subtype == vendor + Ascii("+json")) {
      assert mediaType[..|kind|] == kind;
      IndexOfUnique(mediaType, SLASH, |kind|);
      assert mediaType[|kind| + 1..] == subtype;
    }
  }

  lemma TextMediaExact(mediaType: bytes)
    ensures HasPrefix(mediaType, Ascii("text/")) <==> TextMedia(mediaType)
  {
    PrefixMeaning(mediaType, Ascii("text/"));
  }

  // ---------- the payload ----------

  /** A payload is the data it is, JSON, text or bytes as the content type has it; none is
      JSON. */
  ghost predicate SaysData(env: Env, contentType: bytes, value: bytes, d: Data) {
    var mediaType := env.mediaType(contentType);
    var json := contentType == [] || (mediaType.Some? && JsonMedia(mediaType.value));
    var text := mediaType.Some? && TextMedia(mediaType.value);
    && d.Present? && d.bytes == value
    && match d.kind
       case JsonData => json && JsonText.IsValid(value)
       case TextData => !json && text && Utf8.Valid(value)
       case BinaryData => !json && !text
  }

  lemma DataExact(env: Env, contentType: bytes, value: bytes, d: Data)
    ensures DataByContentType(env, contentType, value) == Some(d) <==> SaysData(env, contentType, value, d)
  {
    hide JsonSubtype, JsonMedia, TextMedia, JsonText.IsValid, Utf8.Valid, HasPrefix;
    var mediaType := env.mediaType(contentType);
    if mediaType.Some? {
      JsonMediaExact(mediaType.value);
      TextMediaExact(mediaType.value);
    }
  }

  // ---------- the attributes ----------

  predicate Holds(m: map<bytes, bytes>, name: bytes, text: bytes) {
    name in m && m[name] == text
  }

  /** An optional text; an empty one is as good as none. */
  predicate MayHold(m: map<bytes, bytes>, name: bytes, text: bytes) {
    Holds(m, name, text) || (name !in m && text == [])
  }

  predicate HoldsTime(env: Env, m: map<bytes, bytes>, t: Option<Instant>) {
    if t.None? then Ascii("time") !in m else Ascii("time") in m && env.parseTime(m[Ascii("time")]) == t
  }

  const STANDARD: seq<bytes> :=
    [Ascii("specversion"), Ascii("id"), Ascii("source"), Ascii("type"), Ascii("datacontenttype"),
     Ascii("dataschema"), Ascii("subject"), Ascii("time"), Ascii("data"), Ascii("data_base64")]

  /** Every other text is a String extension, and there are no more. */
  ghost predicate HoldsExtensions(m: map<bytes, bytes>, x: map<bytes, Attribute>) {
    && (forall n :: n in x <==> n in m && n !in STANDARD)
    && (forall n :: n in x ==> x[n] == Attribute(KindString, m[n]) && ValidCloudString(m[n]))
  }

  /** The texts under their names, a content type and data are what the event says. */
  ghost predicate TextsSay(env: Env, m: map<bytes, bytes>, contentType: bytes, e: Event) {
    var a := e.attributes;
    && Holds(m, Ascii("specversion"), Ascii("1.0"))
    && Holds(m, Ascii("id"), a.id) && Holds(m, Ascii("source"), a.source) && Holds(m, Ascii("type"), a.eventType)
    && MayHold(m, Ascii("dataschema"), a.dataSchema) && MayHold(m, Ascii("subject"), a.subject)
    && HoldsTime(env, m, a.time) && HoldsExtensions(m, a.extensions)
    && a.dataContentType == contentType && ValidAttributes(env, a)
  }

  lemma StandardNames(n: bytes)
    ensures n in STANDARD <==> Reserved(n)
  {
    hide Ascii;
  }

  lemma RequiredTextsNotEmpty(env: Env, a: Attributes)
    requires ValidAttributes(env, a)
    ensures a.id != [] && a.source != [] && a.eventType != []
  {
    hide ValidCloudString, ValidExtension, ValidSelected;
  }

  lemma BoundExact(m: map<bytes, bytes>, x: map<bytes, Attribute>)
    ensures BoundExtensions(m) == Some(x) <==> HoldsExtensions(m, x)
  {
    hide Reserved, ValidCloudString, STANDARD;
    forall n ensures n in STANDARD <==> Reserved(n) {
      StandardNames(n);
    }
    if HoldsExtensions(m, x) {
      assert StringsOnly(m);
      var r := BoundExtensions(m).value;
      assert r == x;
    }
  }

  lemma AssembleReads(env: Env, m: map<bytes, bytes>, contentType: bytes, data: Option<Data>, e: Event)
    ensures Assemble(env, m, contentType, data) == Some(e) <==> TextsSay(env, m, contentType, e) && data == Some(e.data)
  {
    hide ValidAttributes, BoundExtensions, HoldsExtensions, Ascii;
    BoundExact(m, e.attributes.extensions);
    assert VERSION != [] by { NotEmptyVersion(); }
    if ValidAttributes(env, e.attributes) {
      RequiredTextsNotEmpty(env, e.attributes);
    }
  }

  lemma NotEmptyVersion()
    ensures VERSION != []
  {
    assert |VERSION| == 3;
  }

  // ---------- the mode ----------

  /** A media type outside the family of CloudEvents formats. */
  ghost predicate BinaryMedia(env: Env, contentType: bytes) {
    var mediaType := env.mediaType(contentType);
    mediaType.Some? && !exists rest :: mediaType.value == Ascii("application/cloudevents") + rest
  }

  /** What a content type selects on Kafka, which has no batches. */
  lemma KafkaModeExact(env: Env, contentType: bytes)
    ensures var mode := KafkaBinding.ModeOf(env, contentType);
      && (mode == Some(StructuredMode) <==> env.mediaType(contentType) == Some(Ascii("application/cloudevents+json")))
      && (mode == Some(BinaryMode) <==> BinaryMedia(env, contentType))
      && mode != Some(BatchMode)
  {
    assert JSON_MEDIA_TYPE == CLOUDEVENTS_MEDIA_TYPES + Ascii("+json");
    if env.mediaType(contentType).Some? {
      PrefixMeaning(env.mediaType(contentType).value, CLOUDEVENTS_MEDIA_TYPES);
    }
  }

  // ---------- HTTP ----------

  /** The header names the attribute: `ce-` in any case, and the name in any case. */
  ghost predicate Names(key: bytes, name: bytes) {
    HttpSpelling.LowersAll(key, Ascii("ce-") + name)
  }

  /** A percent-encoding of the UTF-8 text, quoted or not. */
  ghost predicate HttpSpells(value: bytes, text: bytes) {
    Utf8.Valid(text) && exists s :: HttpSpelling.Quotes(value, s) && HttpSpelling.Encodes(s, text)
  }

  /** One value within the limits that is a spelling of the text. */
  ghost predicate HeaderSays(values: seq<bytes>, name: bytes, text: bytes, limits: Limits) {
    && |values| == 1 && HttpSpells(values[0], text)
    && 0 < limits.maxAttributeNameBytes && |name| <= limits.maxAttributeNameBytes
    && !HttpAttribute.ExceedsEncodedLimit(|values[0]|, limits.maxAttributeValueBytes)
    && |text| <= limits.maxAttributeValueBytes
  }

  /** Each text has a header, each attribute header a text, and no two the same. */
  ghost predicate HeadersSay(header: Header, m: map<bytes, bytes>, limits: Limits) {
    && (m == map[] || |m| <= limits.maxAttributes) && Ascii("datacontenttype") !in m
    && (forall n :: n in m ==> exists k :: k in header && Names(k, n))
    && (forall k, n :: k in header && Names(k, n) ==> n in m && HeaderSays(header[k], n, m[n], limits))
    && (forall j, k, n :: j in header && k in header && Names(j, n) && Names(k, n) ==> j == k)
  }

  lemma NamesExact()
    ensures forall k, n :: Names(k, n) <==> HttpHeader.IsAttributeKey(k) && HttpHeader.NameOf(k) == n
  {
    hide HttpHeader.IsAttributeKey, HttpHeader.NameOf;
    forall k, n ensures Names(k, n) <==> HttpHeader.IsAttributeKey(k) && HttpHeader.NameOf(k) == n {
      HttpSpelling.NameExact(k, n);
    }
  }

  lemma SpellsExact(value: bytes, text: bytes)
    ensures HttpAttribute.Decode(value) == Some(text) <==> HttpSpells(value, text)
  {
    hide HttpAttribute.Decode, HttpSpelling.Quotes, HttpSpelling.Encodes, Utf8.Valid;
    HttpSpelling.ValueExact(value, text);
  }

  lemma HeaderExact(key: bytes, values: seq<bytes>, text: bytes, limits: Limits)
    requires HttpHeader.IsAttributeKey(key) && HttpHeader.NameOf(key) != DATACONTENTTYPE
    ensures HttpBinding.BinaryHeaderOk(key, values, limits) && HttpBinding.HeaderText(values) == text <==>
      HeaderSays(values, HttpHeader.NameOf(key), text, limits)
  {
    hide HttpAttribute.Decode, HttpSpells, HttpAttribute.ExceedsEncodedLimit, DATACONTENTTYPE, ToLower, EqualFold;
    HttpBinding.HeaderChecks(key, values, limits);
    if |values| == 1 {
      SpellsExact(values[0], text);
    }
  }

  lemma HeadersRead(header: Header, m: map<bytes, bytes>, limits: Limits)
    requires HttpBinding.HeaderTexts(header, limits) == Some(m)
    ensures HeadersSay(header, m, limits)
  {
    hide HttpHeader.IsAttributeKey, HttpHeader.NameOf, HttpBinding.BinaryHeaderOk, HttpBinding.HeaderText, HeaderSays;
    hide Names, Ascii;
    NamesExact();
    HttpNormal.NameCount(HttpHeader.AttributeKeys(header));
    assert m.Keys == HttpBinding.AttributeNames(header) && |m| == |m.Keys|;
    assert HttpHeader.AttributeKeys(header) == {} ==> m == map[];
    forall k, n | k in header && Names(k, n)
      ensures n in m && n != DATACONTENTTYPE && HeaderSays(header[k], n, m[n], limits)
    {
      assert k in HttpHeader.AttributeKeys(header) && k == HttpBinding.KeyFor(header, n);
      assert n != DATACONTENTTYPE by { HttpBinding.HeaderChecks(k, header[k], limits); }
      HeaderExact(k, header[k], m[n], limits);
    }
    forall n | n in m ensures exists k :: k in header && Names(k, n) {
      assert Names(HttpBinding.KeyFor(header, n), n);
    }
  }

  lemma KeyCount(header: Header, m: map<bytes, bytes>, keys: set<bytes>)
    requires forall k :: k in keys ==> HttpHeader.NameOf(k) in m
    requires forall j, k :: j in keys && k in keys && HttpHeader.NameOf(j) == HttpHeader.NameOf(k) ==> j == k
    ensures |keys| <= |m|
  {
    hide HttpHeader.NameOf;
    if keys != {} {
      var k :| k in keys;
      var n := HttpHeader.NameOf(k);
      KeyCount(header, m - {n}, keys - {k});
      assert |m| == |m - {n}| + 1 by { OneFewer(m, n); }
    }
  }

  lemma OneFewer(m: map<bytes, bytes>, n: bytes)
    requires n in m
    ensures |m| == |m - {n}| + 1
  {
    assert (m - {n})[n := m[n]] == m;
  }

  lemma HeadersSaid(header: Header, m: map<bytes, bytes>, limits: Limits)
    requires HeadersSay(header, m, limits)
    ensures HttpBinding.HeaderTexts(header, limits) == Some(m)
  {
    hide HttpHeader.IsAttributeKey, HttpHeader.NameOf, HttpBinding.BinaryHeaderOk, HttpBinding.HeaderText, HeaderSays;
    hide Names, Ascii;
    NamesExact();
    var keys := HttpHeader.AttributeKeys(header);
    forall k | k in keys
      ensures HttpHeader.NameOf(k) in m && HttpBinding.BinaryHeaderOk(k, header[k], limits)
      ensures HttpBinding.HeaderText(header[k]) == m[HttpHeader.NameOf(k)]
    {
      assert Names(k, HttpHeader.NameOf(k));
      HeaderExact(k, header[k], m[HttpHeader.NameOf(k)], limits);
    }
    assert HttpHeader.DistinctNames(header) by {
      forall j, k | j in keys && k in keys && HttpHeader.NameOf(j) == HttpHeader.NameOf(k) ensures j == k {
        assert Names(j, HttpHeader.NameOf(j)) && Names(k, HttpHeader.NameOf(j));
      }
    }
    KeyCount(header, m, keys);
    assert m == map[] ==> keys == {};
    forall n | n in m ensures n in HttpBinding.AttributeNames(header) {
      var k :| k in header && Names(k, n);
      assert k in keys;
    }
    assert HttpBinding.TextsByName(header) == m;
  }

  /** The texts read from HTTP headers are exactly those the headers say. */
  lemma HeaderTextsExact(header: Header, m: map<bytes, bytes>, limits: Limits)
    ensures HttpBinding.HeaderTexts(header, limits) == Some(m) <==> HeadersSay(header, m, limits)
  {
    hide HttpBinding.HeaderTexts, HeadersSay;
    if HttpBinding.HeaderTexts(header, limits) == Some(m) {
      HeadersRead(header, m, limits);
    }
    if HeadersSay(header, m, limits) {
      HeadersSaid(header, m, limits);
    }
  }

  /** The one value under any spelling of the name, or empty when there is none. */
  ghost predicate HttpContentType(header: Header, contentType: bytes) {
    || (contentType == [] && forall k :: k in header && NamesContentType(k) ==> header[k] == [])
    || exists k :: && k in header && NamesContentType(k) && header[k] == [contentType]
                   && forall j :: j in header && NamesContentType(j) && j != k ==> header[j] == []
  }

  ghost predicate NamesContentType(key: bytes) {
    HttpSpelling.LowersAll(key, Ascii("content-type"))
  }

  lemma ContentTypeNames()
    ensures forall k :: NamesContentType(k) <==> EqualFold(k, HttpHeader.CONTENT_TYPE)
  {
    hide EqualFold, HttpSpelling.LowersAll;
    forall k ensures NamesContentType(k) <==> EqualFold(k, HttpHeader.CONTENT_TYPE) {
      HttpSpelling.ContentTypeNameExact(k);
    }
  }

  lemma ContentTypeExact(header: Header, contentType: bytes)
    ensures HttpContentType(header, contentType) <==>
      var found := HttpHeader.ContentTypeOf(header);
      found == Some(Some(contentType)) || (found == Some(None) && contentType == [])
  {
    hide EqualFold, NamesContentType, HttpHeader.CONTENT_TYPE;
    ContentTypeNames();
    if k :| && k in header && NamesContentType(k) && header[k] == [contentType]
            && forall j :: j in header && NamesContentType(j) && j != k ==> header[j] == [] {
      HttpHeader.SoleContentTypeValue(header, k);
    }
  }

  ghost predicate HttpSaysData(env: Env, contentType: bytes, body: bytes, d: Data) {
    if body == [] && contentType == [] then d == Absent else SaysData(env, contentType, body, d)
  }

  /** What an HTTP message in binary mode says. */
  ghost predicate HttpSays(env: Env, header: Header, body: bytes, limits: Limits, contentType: bytes,
      m: map<bytes, bytes>, e: Event) {
    && HttpContentType(header, contentType)
    && (contentType != [] ==> |contentType| <= limits.maxAttributeValueBytes && BinaryMedia(env, contentType))
    && 0 < limits.maxDataBytes && limits.maxDataBytes != MAX_INT && |body| <= limits.maxDataBytes
    && HeadersSay(header, m, limits) && TextsSay(env, m, contentType, e) && HttpSaysData(env, contentType, body, e.data)
  }

  lemma HttpDataExact(env: Env, contentType: bytes, body: bytes, d: Data)
    ensures HttpBinding.HttpData(env, contentType, body) == Some(d) <==> HttpSaysData(env, contentType, body, d)
  {
    hide DataByContentType, SaysData;
    DataExact(env, contentType, body, d);
  }

  lemma DetectExact(env: Env, header: Header, limits: Limits, contentType: bytes)
    ensures HttpBinding.Detect(env, header, limits) == Some((BinaryMode, contentType)) <==>
      && HttpContentType(header, contentType)
      && (contentType != [] ==> |contentType| <= limits.maxAttributeValueBytes && BinaryMedia(env, contentType))
  {
    hide HttpHeader.ContentTypeOf, HttpContentType, HttpBinding.ModeOf;
    ContentTypeExact(header, contentType);
    HttpRoundTrip.ModeExact(env, contentType);
    assert BinaryMedia(env, contentType) <==> HttpBinding.ModeOf(env, contentType) == Some(BinaryMode);
    var found, detected := HttpHeader.ContentTypeOf(header), HttpBinding.Detect(env, header, limits);
    if found == Some(None) {
      assert detected == Some((BinaryMode, []));
      assert detected == Some((BinaryMode, contentType)) <==> contentType == [];
    } else if found.Some? {
      var value: bytes := found.value.value;
      if value != contentType {
        assert detected.Some? ==> detected.value.1 == value;
      }
    }
  }

  /** Reading HTTP: for every header, body, limits and event. */
  lemma HttpReads(env: Env, header: Header, body: bytes, limits: Limits, e: Event)
    ensures HttpBinding.DecodedHttp(env, header, body, limits) == Some((BinaryMode, [e])) <==>
      exists contentType, m :: HttpSays(env, header, body, limits, contentType, m, e)
  {
    hide HttpBinding.DecodedHttp, HttpBinding.Detect, HttpBinding.HeaderTexts, Assemble, HttpBinding.HttpData, MAX_INT;
    hide HttpContentType, BinaryMedia, HeadersSay, TextsSay, HttpSaysData;
    HttpRoundTrip.BinaryParts(env, header, body, limits, e);
    forall contentType, m
      ensures HttpSays(env, header, body, limits, contentType, m, e) <==>
        && HttpBinding.Detect(env, header, limits) == Some((BinaryMode, contentType))
        && HttpBinding.BodyAdmitted(body, limits.maxDataBytes) && HttpBinding.HeaderTexts(header, limits) == Some(m)
        && Assemble(env, m, contentType, HttpBinding.HttpData(env, contentType, body)) == Some(e)
    {
      DetectExact(env, header, limits, contentType);
      HeaderTextsExact(header, m, limits);
      AssembleReads(env, m, contentType, HttpBinding.HttpData(env, contentType, body), e);
      HttpDataExact(env, contentType, body, e.data);
    }
    var d, texts := HttpBinding.Detect(env, header, limits), HttpBinding.HeaderTexts(header, limits);
    if d.Some? && texts.Some? {
      var contentType, m := d.value.1, texts.value;
      assert d.value == (d.value.0, contentType);
      assert HttpBinding.DecodedHttp(env, header, body, limits) == Some((BinaryMode, [e])) <==>
        HttpSays(env, header, body, limits, contentType, m, e);
    }
  }

  // ---------- Kafka ----------

  /** The value is the text; nil is the empty text. */
  predicate IsText(value: Option<bytes>, text: bytes) {
    value == Some(text) || (value == None && text == [])
  }

  ghost predicate ValueSays(value: Option<bytes>, name: bytes, text: bytes, limits: Limits) {
    && IsText(value, text) && Utf8.Valid(text)
    && 0 < limits.maxAttributeNameBytes && |name| <= limits.maxAttributeNameBytes
    && 0 < limits.maxAttributeValueBytes && |text| <= limits.maxAttributeValueBytes
  }

  /** Some header has the key. */
  predicate Occurs(hs: seq<KafkaHeader>, key: bytes) {
    exists i :: 0 <= i < |hs| && hs[i].key == key
  }

  /** At most one header has the key. */
  predicate Once(hs: seq<KafkaHeader>, key: bytes) {
    forall i, j :: 0 <= i < j < |hs| && hs[i].key == key ==> hs[j].key != key
  }

  /** Every header of the key has the value. */
  predicate Only(hs: seq<KafkaHeader>, key: bytes, value: Option<bytes>) {
    forall i :: 0 <= i < |hs| && hs[i].key == key ==> hs[i].value == value
  }

  /** Each text has a header `ce_` with its name, each such header a text, and no two the
      same. */
  ghost predicate RecordSays(hs: seq<KafkaHeader>, m: map<bytes, bytes>, limits: Limits) {
    && |m| <= limits.maxAttributes && Ascii("datacontenttype") !in m
    && (forall n :: n in m <==> Occurs(hs, Ascii("ce_") + n))
    && (forall n :: n in m ==> Once(hs, Ascii("ce_") + n))
    && (forall n, i :: n in m && 0 <= i < |hs| && hs[i].key == Ascii("ce_") + n ==>
          ValueSays(hs[i].value, n, m[n], limits))
  }

  lemma OccursStep(hs: seq<KafkaHeader>, h: KafkaHeader, key: bytes)
    ensures Occurs(hs + [h], key) <==> Occurs(hs, key) || h.key == key
    ensures Once(hs + [h], key) <==> Once(hs, key) && !(Occurs(hs, key) && h.key == key)
    ensures forall v :: Only(hs + [h], key, v) <==> Only(hs, key, v) && (h.key == key ==> h.value == v)
  {
    var all := hs + [h];
    assert all[|hs|] == h && forall i :: 0 <= i < |hs| ==> all[i] == hs[i];
    if i :| 0 <= i < |all| && all[i].key == key {
      assert i < |hs| ==> hs[i].key == key;
    }
  }

  /** The list of a name is there when a header is, is one value when the header is alone, and
      then that of the header. */
  lemma {:induction false} ListOf(hs: seq<KafkaHeader>, name: bytes)
    ensures var m, key := KafkaBinding.AttributeValues(hs), Ascii("ce_") + name;
      && (name in m <==> Occurs(hs, key))
      && (name in m ==> |m[name]| >= 1 && (|m[name]| == 1 <==> Once(hs, key)))
      && (name in m && |m[name]| == 1 ==> Only(hs, key, m[name][0]))
  {
    hide KafkaBinding.AttributeValues, KafkaBinding.IsAttributeKey, KafkaBinding.NameOf, Occurs, Once, Only, Ascii;
    hide KafkaBinding.ContentTypeValues, KafkaBinding.TransportHeaders, KafkaBinding.IsTransportKey;
    var key := Ascii("ce_") + name;
    if hs == [] {
      KafkaBinding.PartitionNothing();
      NoHeaders(key);
    } else {
      var i := |hs| - 1;
      ListOf(hs[..i], name);
      assert hs == hs[..i] + [hs[i]] && hs[..i + 1] == hs;
      OccursStep(hs[..i], hs[i], key);
      KafkaBinding.PartitionStep(hs, i);
      KafkaBinding.Keys(name);
      if KafkaBinding.IsAttributeKey(hs[i].key) {
        KafkaBinding.AttributeKeyName(hs[i].key);
      }
      FirstHolds(hs[..i], key);
    }
  }

  lemma NoHeaders(key: bytes)
    ensures !Occurs([], key) && Once([], key) && forall v :: Only([], key, v)
  {
  }

  /** What does not occur occurs at most once, with any value. */
  lemma FirstHolds(hs: seq<KafkaHeader>, key: bytes)
    ensures !Occurs(hs, key) ==> Once(hs, key) && forall v :: Only(hs, key, v)
  {
  }

  lemma ValueExact(hs: seq<KafkaHeader>, name: bytes, text: bytes, limits: Limits)
    requires name in KafkaBinding.AttributeValues(hs)
    ensures var values, key := KafkaBinding.AttributeValues(hs)[name], Ascii("ce_") + name;
      (KafkaBinding.ValueDecodes(name, values, limits) && KafkaBinding.SingleText(values) == text) <==>
        && Once(hs, key)
        && forall i :: 0 <= i < |hs| && hs[i].key == key ==> ValueSays(hs[i].value, name, text, limits)
  {
    hide KafkaBinding.AttributeValues, Utf8.Valid, Once, Ascii;
    ListOf(hs, name);
  }

  /** The texts of a record are exactly those its headers say. */
  lemma RecordExact(hs: seq<KafkaHeader>, m: map<bytes, bytes>, limits: Limits)
    ensures var values := KafkaBinding.AttributeValues(hs);
      (&& DATACONTENTTYPE !in values && |values| <= limits.maxAttributes
       && KafkaBinding.ValuesDecode(values, limits) && KafkaBinding.SingleTexts(values) == m) <==>
      RecordSays(hs, m, limits)
  {
    hide KafkaBinding.AttributeValues, Occurs, Once, Ascii, KafkaBinding.ValueDecodes, KafkaBinding.SingleText;
    hide ValueSays;
    var values := KafkaBinding.AttributeValues(hs);
    forall n ensures n in values <==> Occurs(hs, Ascii("ce_") + n) {
      ListOf(hs, n);
    }
    forall n | n in values && n in m
      ensures (KafkaBinding.ValueDecodes(n, values[n], limits) && KafkaBinding.SingleText(values[n]) == m[n]) <==>
        && Once(hs, Ascii("ce_") + n)
        && forall i :: 0 <= i < |hs| && hs[i].key == Ascii("ce_") + n ==> ValueSays(hs[i].value, n, m[n], limits)
    {
      ValueExact(hs, n, m[n], limits);
    }
    if values.Keys == m.Keys {
      assert |values| == |values.Keys| == |m.Keys| == |m|;
      assert KafkaBinding.SingleTexts(values) == m <==>
        forall n :: n in m ==> KafkaBinding.SingleText(values[n]) == m[n];
    }
  }

  /** The one content type, which selects binary mode; or none, which is empty. */
  ghost predicate RecordContentType(env: Env, hs: seq<KafkaHeader>, contentType: bytes) {
    var key := Ascii("content-type");
    if Occurs(hs, key) then
      && Once(hs, key) && (forall i :: 0 <= i < |hs| && hs[i].key == key ==> IsText(hs[i].value, contentType))
      && Utf8.Valid(contentType) && BinaryMedia(env, contentType)
    else contentType == []
  }

  lemma {:induction false} ContentTypeList(hs: seq<KafkaHeader>)
    ensures var values, key := KafkaBinding.ContentTypeValues(hs), Ascii("content-type");
      && (|values| >= 1 <==> Occurs(hs, key)) && (|values| <= 1 <==> Once(hs, key))
      && (|values| == 1 ==> Only(hs, key, values[0]))
  {
    hide KafkaBinding.AttributeValues, KafkaBinding.IsAttributeKey, KafkaBinding.NameOf, Occurs, Once, Only, Ascii;
    hide KafkaBinding.ContentTypeValues, KafkaBinding.TransportHeaders, KafkaBinding.IsTransportKey;
    var key := Ascii("content-type");
    if hs == [] {
      KafkaBinding.PartitionNothing();
      NoHeaders(key);
    } else {
      var i := |hs| - 1;
      ContentTypeList(hs[..i]);
      assert hs == hs[..i] + [hs[i]] && hs[..i + 1] == hs;
      OccursStep(hs[..i], hs[i], key);
      KafkaBinding.PartitionStep(hs, i);
      FirstHolds(hs[..i], key);
    }
  }

  lemma RecordDetects(env: Env, hs: seq<KafkaHeader>, contentType: bytes)
    ensures KafkaBinding.Detect(env, KafkaBinding.ContentTypeValues(hs)) == Some((BinaryMode, contentType)) <==>
      RecordContentType(env, hs, contentType)
  {
    hide KafkaBinding.ContentTypeValues, Once, Ascii, KafkaBinding.ModeOf, BinaryMedia, Utf8.Valid;
    ContentTypeList(hs);
    KafkaModeExact(env, contentType);
    var values := KafkaBinding.ContentTypeValues(hs);
    if |values| == 1 {
      var value := KafkaBinding.BytesOf(values[0]);
      assert forall i :: 0 <= i < |hs| && hs[i].key == Ascii("content-type") ==> hs[i].value == values[0];
      assert KafkaBinding.Detect(env, values).Some? ==> KafkaBinding.Detect(env, values).value.1 == value;
      assert IsText(values[0], contentType) <==> contentType == value;
    }
  }

  /** A nil value is no data, and an empty one is data. */
  ghost predicate RecordSaysData(env: Env, contentType: bytes, value: Option<bytes>, d: Data, limits: Limits) {
    if value == None then d == Absent
    else |value.value| <= limits.maxDataBytes && SaysData(env, contentType, value.value, d)
  }

  lemma RecordDataExact(env: Env, contentType: bytes, value: Option<bytes>, d: Data, limits: Limits)
    ensures KafkaBinding.KafkaData(env, contentType, value, limits) == Some(d) <==>
      RecordSaysData(env, contentType, value, d, limits)
  {
    hide DataByContentType, SaysData;
    if value.Some? {
      DataExact(env, contentType, value.value, d);
    }
  }

  /** The sizes of a record, and keys that are UTF-8. */
  predicate RecordFits(record: KafkaBinding.KafkaRecord, limits: Limits) {
    && 0 < limits.maxEventBytes && 0 < limits.maxDataBytes && 0 < limits.maxKafkaKeyBytes
    && 0 < limits.maxKafkaHeaders && 0 < limits.maxKafkaHeaderNameBytes && 0 < limits.maxKafkaHeaderValueBytes
    && (record.key.Some? ==> |record.key.value| <= limits.maxKafkaKeyBytes)
    && |record.headers| <= limits.maxKafkaHeaders
    && forall i :: 0 <= i < |record.headers| ==>
         var h := record.headers[i];
         && |h.key| <= limits.maxKafkaHeaderNameBytes && Utf8.Valid(h.key)
         && (h.value.Some? ==> |h.value.value| <= limits.maxKafkaHeaderValueBytes)
  }

  lemma RecordFitsExact(record: KafkaBinding.KafkaRecord, limits: Limits)
    ensures RecordFits(record, limits) <==>
      KafkaBinding.RecordAdmitted(record, limits) && KafkaBinding.HeadersAdmitted(record.headers, limits)
  {
    hide Utf8.Valid;
  }

  /** What a record in binary mode says. */
  ghost predicate KafkaSays(env: Env, record: KafkaBinding.KafkaRecord, limits: Limits, contentType: bytes,
      m: map<bytes, bytes>, e: Event) {
    && RecordFits(record, limits) && RecordContentType(env, record.headers, contentType)
    && RecordSays(record.headers, m, limits) && TextsSay(env, m, contentType, e)
    && RecordSaysData(env, contentType, record.value, e.data, limits)
  }

  lemma KafkaParts(env: Env, record: KafkaBinding.KafkaRecord, limits: Limits, e: Event)
    ensures var message := KafkaBinding.DecodedKafka(env, record, limits);
      (message.Some? && message.value.mode == BinaryMode && message.value.event == e) <==>
      var d, values := KafkaBinding.Detect(env, KafkaBinding.ContentTypeValues(record.headers)),
        KafkaBinding.AttributeValues(record.headers);
      && KafkaBinding.RecordAdmitted(record, limits) && KafkaBinding.HeadersAdmitted(record.headers, limits)
      && d.Some? && d.value.0 == BinaryMode
      && KafkaBinding.DecodedBinary(env, record.value, d.value.1, values, limits) == Some(e)
  {
    hide KafkaBinding.Detect, KafkaBinding.RecordAdmitted, KafkaBinding.HeadersAdmitted, KafkaBinding.DecodedBinary;
    hide JsonCodec.DecodeText, KafkaBinding.MetadataAgrees;
  }

  /** Reading Kafka: for every record, limits and event. The key of a message is that of its
      record. */
  lemma KafkaReads(env: Env, record: KafkaBinding.KafkaRecord, limits: Limits, e: Event)
    ensures var message := KafkaBinding.DecodedKafka(env, record, limits);
      && (message.Some? ==> message.value.key == record.key)
      && ((message.Some? && message.value.mode == BinaryMode && message.value.event == e) <==>
            exists contentType, m :: KafkaSays(env, record, limits, contentType, m, e))
  {
    hide KafkaBinding.Detect, KafkaBinding.DecodedEvent, KafkaBinding.RecordAdmitted, KafkaBinding.HeadersAdmitted;
    hide KafkaBinding.AttributeValues, KafkaBinding.ContentTypeValues, KafkaBinding.ValuesDecode;
    hide KafkaBinding.SingleTexts, RecordFits, RecordContentType, RecordSays, TextsSay, RecordSaysData, Assemble;
    hide KafkaBinding.KafkaData, DATACONTENTTYPE;
    KafkaParts(env, record, limits, e);
    RecordFitsExact(record, limits);
    var values := KafkaBinding.AttributeValues(record.headers);
    forall contentType, m
      ensures KafkaSays(env, record, limits, contentType, m, e) <==>
        && RecordFits(record, limits)
        && KafkaBinding.Detect(env, KafkaBinding.ContentTypeValues(record.headers)) == Some((BinaryMode, contentType))
        && KafkaBinding.DecodedBinary(env, record.value, contentType, values, limits) == Some(e)
        && KafkaBinding.SingleTexts(values) == m
    {
      RecordDetects(env, record.headers, contentType);
      RecordExact(record.headers, m, limits);
      AssembleReads(env, m, contentType, KafkaBinding.KafkaData(env, contentType, record.value, limits), e);
      RecordDataExact(env, contentType, record.value, e.data, limits);
    }
    var d := KafkaBinding.Detect(env, KafkaBinding.ContentTypeValues(record.headers));
    if d.Some? {
      assert d.value == (d.value.0, d.value.1);
      assert d.value.0 == BinaryMode ==>
        (KafkaSays(env, record, limits, d.value.1, KafkaBinding.SingleTexts(values), e) <==>
          && RecordFits(record, limits)
          && KafkaBinding.DecodedBinary(env, record.value, d.value.1, values, limits) == Some(e));
    }
  }

  /** The positions, in order, of the headers that are neither the content type nor an
      attribute. */
  ghost predicate TransportAt(hs: seq<KafkaHeader>, at: seq<nat>) {
    && (forall j, k :: 0 <= j < k < |at| ==> at[j] < at[k])
    && (forall j :: 0 <= j < |at| ==> at[j] < |hs|)
    && (forall i :: 0 <= i < |hs| ==> (i in at <==> !Bound(hs[i].key)))
  }

  ghost predicate Bound(key: bytes) {
    key == Ascii("content-type") || exists name :: key == Ascii("ce_") + name
  }

  lemma BoundKey(key: bytes)
    ensures Bound(key) <==> !KafkaBinding.IsTransportKey(key)
  {
    hide Ascii;
    PrefixMeaning(key, Ascii("ce_"));
  }

  lemma TransportStep(hs: seq<KafkaHeader>, h: KafkaHeader, at: seq<nat>)
    requires TransportAt(hs, at)
    ensures Bound(h.key) ==> TransportAt(hs + [h], at)
    ensures !Bound(h.key) ==> TransportAt(hs + [h], at + [|hs|])
  {
    hide Bound;
    var all, more := hs + [h], at + [|hs|];
    assert forall i :: 0 <= i < |hs| ==> all[i] == hs[i];
    assert forall i :: i in more <==> i in at || i == |hs|;
  }

  /** The transport headers of any record are the headers at those positions. */
  lemma {:induction false} TransportExact(hs: seq<KafkaHeader>) returns (at: seq<nat>)
    ensures TransportAt(hs, at) && |KafkaBinding.TransportHeaders(hs)| == |at|
    ensures forall j :: 0 <= j < |at| ==> KafkaBinding.TransportHeaders(hs)[j] == hs[at[j]]
  {
    hide Bound, KafkaBinding.IsTransportKey, KafkaBinding.TransportHeaders, TransportAt, KafkaBinding.AttributeValues;
    hide KafkaBinding.ContentTypeValues;
    if hs == [] {
      KafkaBinding.PartitionNothing();
      assert TransportAt([], []) by { NoTransport(); }
      return [];
    }
    var n := |hs| - 1;
    at := TransportExact(hs[..n]);
    BoundKey(hs[n].key);
    TransportStep(hs[..n], hs[n], at);
    assert forall j :: 0 <= j < |at| ==> at[j] < n && hs[..n][at[j]] == hs[at[j]] by { TransportInside(hs[..n], at); }
    KafkaBinding.PartitionStep(hs, n);
    assert hs[..n] + [hs[n]] == hs == hs[..n + 1];
    assert forall i :: 0 <= i < n ==> hs[..n][i] == hs[i];
    if KafkaBinding.IsTransportKey(hs[n].key) {
      at := at + [n];
    }
  }

  lemma TransportInside(hs: seq<KafkaHeader>, at: seq<nat>)
    requires TransportAt(hs, at)
    ensures forall j :: 0 <= j < |at| ==> at[j] < |hs|
  {
    hide Bound;
  }

  lemma NoTransport()
    ensures TransportAt([], [])
  {
  }
}
