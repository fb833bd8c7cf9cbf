/** The HTTP protocol binding (`http.go`). Header names come out of a Go map in any order, so
    every loop over them takes the next name freely; each method is proved equal to a function
    that knows no order. */
module HttpBinding {
  import opened Bytes
  import opened Order
  import opened Event
  import opened Conversion
  import opened Admission
  import opened Binding
  import opened HttpAttribute
  import opened HttpHeader
  import JsonCodec
  import JsonBatch
  import JsonEncoder
  import JsonRoundTrip

  // ---------- encoding ----------

  /** The result of `EncodeHTTPWithReport`. */
  ghost function HttpEncoding(env: Env, events: seq<Event>, mode: Mode): Option<(Header, bytes, seq<Note>)> {
    match mode
    case BinaryMode =>
      if |events| == 1 && ValidEvent(env, events[0])
      then Some((EncodedHeader(env, events[0]), EncodedBody(events[0]), BinaryReport(env, events[0]))) else None
    case StructuredMode =>
      if |events| == 1 && ValidEvent(env, events[0])
      then Some((ContentTypeHeader(JSON_MEDIA_TYPE), JsonCodec.EncodedText(env, events[0]),
        JsonReport(env, events[0]))) else None
    case BatchMode =>
      if forall i :: 0 <= i < |events| ==> ValidEvent(env, events[i])
      then Some((ContentTypeHeader(JSON_BATCH_MEDIA_TYPE), JsonBatch.BatchText(env, events),
        BatchReport(env, events))) else None
  }

  /** `setAttribute`, with the texts that were set so far. */
  method SetAttribute(header: Header, ghost texts: map<bytes, bytes>, name: bytes, text: bytes) returns (r: Header)
    requires header == AttributeHeaders(texts) && LowerNames(texts) && Lower(name)
    ensures r == AttributeHeaders(texts[name := text]) && LowerNames(texts[name := text])
  {
    hide AttributeHeaders, AttributeKey, Lower, Encode;
    AttributeHeadersAdd(texts, name, text);
    var encoded := EncodeHTTPAttribute(text);
    r := header[AttributeKey(name) := [encoded]];
  }

  lemma StandardLower()
    ensures Lower(SPECVERSION) && Lower(ID) && Lower(SOURCE) && Lower(TYPE) && Lower(DATASCHEMA) && Lower(SUBJECT)
    ensures Lower(TIME)
  {
    hide ValidName, Lower, SPECVERSION, ID, SOURCE, TYPE, DATASCHEMA, SUBJECT, TIME;
    StandardNamesValid();
    var names := map[SPECVERSION := [], ID := [], SOURCE := [], TYPE := [], DATASCHEMA := [], SUBJECT := [],
      TIME := []];
    ValidNamesLower(names);
  }

  lemma RequiredChain(a: Attributes)
    ensures map[][SPECVERSION := VERSION][ID := a.id][SOURCE := a.source][TYPE := a.eventType] == RequiredTexts(a)
  {
    RequiredLookup(a);
    ReservedNames();
    hide SPECVERSION, ID, SOURCE, TYPE, VERSION, RequiredTexts, DATA, DATA_BASE64, DATACONTENTTYPE, DATASCHEMA, SUBJECT;
    hide TIME;
  }

  lemma AddText(m: map<bytes, bytes>, name: bytes, text: bytes)
    ensures m + Optional(name, text) == if text == [] then m else m[name := text]
  {
  }

  lemma AddTime(m: map<bytes, bytes>, env: Env, t: Option<Instant>)
    ensures m + TimeText(env, t) == if t.None? then m else m[TIME := env.formatTime(t.value)]
  {
    hide TIME;
  }

  method SetRequired(a: Attributes) returns (header: Header)
    ensures header == AttributeHeaders(RequiredTexts(a)) && LowerNames(RequiredTexts(a))
  {
    hide AttributeHeaders, Lower, RequiredTexts, SPECVERSION, ID, SOURCE, TYPE, VERSION, LowerNames, DATASCHEMA;
    hide SUBJECT, TIME;
    StandardLower();
    RequiredChain(a);
    NoAttributeHeaders();
    assert LowerNames(map[]) by { NoLowerNames(); }
    header := map[];
    header := SetAttribute(header, map[], SPECVERSION, VERSION);
    header := SetAttribute(header, map[][SPECVERSION := VERSION], ID, a.id);
    header := SetAttribute(header, map[][SPECVERSION := VERSION][ID := a.id], SOURCE, a.source);
    header := SetAttribute(header, map[][SPECVERSION := VERSION][ID := a.id][SOURCE := a.source], TYPE, a.eventType);
  }

  lemma NoLowerNames()
    ensures LowerNames(map[])
  {
  }

  /** The standard attributes in the order of the code. */
  method SetStandard(env: Env, a: Attributes) returns (header: Header)
    ensures header == AttributeHeaders(StandardTexts(env, a)) && LowerNames(StandardTexts(env, a))
  {
    hide AttributeHeaders, Lower, RequiredTexts, SPECVERSION, ID, SOURCE, TYPE, VERSION, LowerNames, DATASCHEMA;
    hide SUBJECT, TIME, Optional, TimeText;
    StandardLower();
    ghost var m0 := RequiredTexts(a);
    ghost var m1 := m0 + Optional(DATASCHEMA, a.dataSchema);
    ghost var m2 := m1 + Optional(SUBJECT, a.subject);
    AddText(m0, DATASCHEMA, a.dataSchema);
    AddText(m1, SUBJECT, a.subject);
    AddTime(m2, env, a.time);
    header := SetRequired(a);
    if a.dataSchema != [] {
      header := SetAttribute(header, m0, DATASCHEMA, a.dataSchema);
    }
    if a.subject != [] {
      header := SetAttribute(header, m1, SUBJECT, a.subject);
    }
    if a.time.Some? {
      header := SetAttribute(header, m2, TIME, env.formatTime(a.time.value));
    }
  }

  /** The extensions, taken from the map in any order. */
  method SetExtensions(start: Header, ghost standard: map<bytes, bytes>, x: map<bytes, Attribute>)
    returns (header: Header)
    requires start == AttributeHeaders(standard) && LowerNames(standard) && forall n :: n in x ==> ValidName(n)
    ensures header == AttributeHeaders(standard + ExtensionTexts(x))
  {
    hide AttributeHeaders, Lower, ExtensionTexts, LowerNames, ValidName;
    header := start;
    NoExtensions(standard);
    var remaining := x.Keys;
    ghost var done: map<bytes, Attribute> := map[];
    while remaining != {}
      invariant remaining <= x.Keys && done.Keys == x.Keys - remaining && forall n :: n in done ==> done[n] == x[n]
      invariant header == AttributeHeaders(standard + ExtensionTexts(done))
      invariant LowerNames(standard + ExtensionTexts(done))
      decreases remaining
    {
      var n :| n in remaining;
      LowerName(n);
      AddExtension(standard, done, n, x[n]);
      header := SetAttribute(header, standard + ExtensionTexts(done), n, x[n].text);
      remaining := remaining - {n};
      done := done[n := x[n]];
    }
    assert done == x;
  }

  /** `encodeHTTPBinary`: the headers are the same for every order of the extensions. */
  method EncodeHTTPBinary(env: Env, e: Event) returns (header: Header, body: Option<bytes>)
    requires ValidEvent(env, e)
    ensures header == EncodedHeader(env, e)
    ensures body == if e.data.Present? then Some(e.data.bytes) else None
  {
    hide AttributeHeaders, StandardTexts, ExtensionTexts, LowerNames, ValidEvent, CONTENT_TYPE, ValidName;
    hide ContentTypeHeader;
    ExtensionNamesValid(env, e);
    header := SetStandard(env, e.attributes);
    header := SetExtensions(header, StandardTexts(env, e.attributes), e.attributes.extensions);
    SetContentType(header, SentContentType(e));
    if e.attributes.dataContentType != [] {
      header := header[CONTENT_TYPE := [e.attributes.dataContentType]];
    } else if e.data.Present? {
      header := header[CONTENT_TYPE := [ImplicitContentType(e.data.kind)]];
    }
    return header, if e.data.Present? then Some(e.data.bytes) else None;
  }

  lemma SetContentType(header: Header, w: bytes)
    ensures header + ContentTypeHeader(w) == if w == [] then header else header[CONTENT_TYPE := [w]]
  {
    hide CONTENT_TYPE;
  }

  lemma ExtensionNamesValid(env: Env, e: Event)
    requires ValidEvent(env, e)
    ensures forall n :: n in e.attributes.extensions ==> ValidName(n)
  {
    hide ValidAttributes, ValidData, ValidName;
    JsonRoundTrip.ValidExtensionsFacts(env, e.attributes);
  }

  lemma LowerName(n: bytes)
    requires ValidName(n)
    ensures Lower(n)
  {
    ValidNamesLower(map[n := []]);
  }

  /** `EncodeHTTPWithReport`. */
  method EncodeHTTPWithReport(env: Env, events: seq<Event>, mode: Mode) returns (r: Option<(Header, bytes, seq<Note>)>)
    ensures r == HttpEncoding(env, events, mode)
  {
    hide EncodedHeader, JsonCodec.EncodedText, JsonReport, BinaryReport, JsonBatch.BatchText, BatchReport, ValidEvent;
    hide Ascii;
    if mode == BatchMode {
      var batch := JsonEncoder.EncodeJSONBatchWithReport(env, events);
      return if batch.None? then None else Some((ContentTypeHeader(JSON_BATCH_MEDIA_TYPE), batch.value.0,
        batch.value.1));
    }
    if |events| != 1 {
      return None;
    }
    if mode == StructuredMode {
      var one := JsonEncoder.EncodeJSONWithReport(env, events[0]);
      return if one.None? then None else Some((ContentTypeHeader(JSON_MEDIA_TYPE), one.value.0, one.value.1));
    }
    if !ValidEvent(env, events[0]) {
      return None;
    }
    var header, body := EncodeHTTPBinary(env, events[0]);
    var report := BinaryConversionReport(env, events[0]);
    return Some((header, if body.Some? then body.value else [], report));
  }

  /** `EncodeHTTP`: nothing when anything would be lost. */
  method EncodeHTTP(env: Env, events: seq<Event>, mode: Mode) returns (r: Option<(Header, bytes)>)
    ensures r.Some? <==> HttpEncoding(env, events, mode).Some? && HttpEncoding(env, events, mode).value.2 == []
    ensures r.Some? ==>
      r.value.0 == HttpEncoding(env, events, mode).value.0 && r.value.1 == HttpEncoding(env, events, mode).value.1
  {
    hide HttpEncoding;
    var encoded := EncodeHTTPWithReport(env, events, mode);
    if encoded.None? || encoded.value.2 != [] {
      return None;
    }
    return Some((encoded.value.0, encoded.value.1));
  }

  // ---------- mode detection ----------

  /** The mode a content type selects. */
  function ModeOf(env: Env, contentType: bytes): Option<Mode> {
    var mediaType :- env.mediaType(contentType);
    if mediaType == JSON_MEDIA_TYPE then Some(StructuredMode)
    else if mediaType == JSON_BATCH_MEDIA_TYPE then Some(BatchMode)
    else if HasPrefix(mediaType, CLOUDEVENTS_MEDIA_TYPES) then None
    else Some(BinaryMode)
  }

  ghost function Detect(env: Env, header: Header, limits: Limits): Option<(Mode, bytes)> {
    var found :- ContentTypeOf(header);
    if found.None? || found.value == [] then Some((BinaryMode, []))
    else if |found.value| > limits.maxAttributeValueBytes then None
    else
      var mode :- ModeOf(env, found.value);
      Some((mode, found.value))
  }

  /** `detectHTTPMode`. */
  method DetectHTTPMode(env: Env, header: Header, limits: Limits) returns (r: Option<(Mode, bytes)>)
    ensures r == Detect(env, header, limits)
  {
    hide ContentTypeOf, ModeOf;
    var contentType, count := SingleContentType(header);
    if count > 1 {
      return None;
    }
    if count == 0 || contentType == [] {
      return Some((BinaryMode, []));
    }
    if |contentType| > limits.maxAttributeValueBytes {
      return None;
    }
    var mode := ModeOf(env, contentType);
    return if mode.None? then None else Some((mode.value, contentType));
  }

  // ---------- attribute headers ----------

  /** One value, within the limits, that decodes. */
  predicate HeaderDecodes(key: bytes, values: seq<bytes>, limits: Limits) {
    && 0 < limits.maxAttributeNameBytes && |key| - 3 <= limits.maxAttributeNameBytes
    && |values| == 1
    && !ExceedsEncodedLimit(|values[0]|, limits.maxAttributeValueBytes)
    && Decode(values[0]).Some?
  }

  function HeaderText(values: seq<bytes>): bytes {
    if |values| == 1 && Decode(values[0]).Some? then Decode(values[0]).value else []
  }

  predicate BinaryHeaderOk(key: bytes, values: seq<bytes>, limits: Limits) {
    && HeaderDecodes(key, values, limits)
    && NameOf(key) != DATACONTENTTYPE && |HeaderText(values)| <= limits.maxAttributeValueBytes
  }

  predicate BinaryHeadersOk(header: Header, limits: Limits) {
    forall k :: k in AttributeKeys(header) ==> BinaryHeaderOk(k, header[k], limits)
  }

  ghost function KeyFor(header: Header, name: bytes): (k: bytes)
    requires exists k :: k in AttributeKeys(header) && NameOf(k) == name
    ensures k in AttributeKeys(header) && NameOf(k) == name
  {
    var k :| k in AttributeKeys(header) && NameOf(k) == name;
    k
  }

  function AttributeNames(header: Header): set<bytes> {
    set k | k in AttributeKeys(header) :: NameOf(k)
  }

  ghost function TextsByName(header: Header): map<bytes, bytes> {
    map n | n in AttributeNames(header) :: HeaderText(header[KeyFor(header, n)])
  }

  /** The decoded attributes of a binary message. */
  ghost function HeaderTexts(header: Header, limits: Limits): Option<map<bytes, bytes>> {
    if && BinaryHeadersOk(header, limits) && DistinctNames(header)
       && (AttributeKeys(header) == {} || |AttributeKeys(header)| <= limits.maxAttributes)
    then Some(TextsByName(header)) else None
  }

  /** The names seen so far, each with the text of its one header. */
  ghost predicate Collected(header: Header, seen: set<bytes>, texts: map<bytes, bytes>) {
    && (forall j, k :: j in seen && k in seen && NameOf(j) == NameOf(k) ==> j == k)
    && texts.Keys == (set k | k in seen :: NameOf(k))
    && (forall k :: k in seen && k in header ==> texts[NameOf(k)] == HeaderText(header[k]))
  }

  lemma CollectMore(header: Header, seen: set<bytes>, texts: map<bytes, bytes>, k: bytes)
    requires k in header && Collected(header, seen, texts) && k !in seen && NameOf(k) !in texts
    ensures Collected(header, seen + {k}, texts[NameOf(k) := HeaderText(header[k])])
  {
    hide NameOf, HeaderText;
    NamesWith(seen, k);
    assert texts[NameOf(k) := HeaderText(header[k])].Keys == texts.Keys + {NameOf(k)};
  }

  lemma NameTaken(header: Header, seen: set<bytes>, texts: map<bytes, bytes>, k: bytes)
    requires seen <= AttributeKeys(header) && k in AttributeKeys(header) && k !in seen
    requires Collected(header, seen, texts) && NameOf(k) in texts
    ensures !DistinctNames(header)
  {
    hide NameOf, HeaderText, AttributeKeys;
    SharedName(header, seen, k);
  }

  lemma OneMore(seen: set<bytes>, k: bytes, texts: map<bytes, bytes>, n: bytes, t: bytes)
    requires |texts| == |seen| && k !in seen && n !in texts
    ensures |texts[n := t]| == |seen + {k}| == |seen| + 1
  {
  }

  lemma TakeKey(keys: set<bytes>, remaining: set<bytes>, key: bytes)
    requires key in remaining
    ensures keys - (remaining - {key}) == if key in keys then (keys - remaining) + {key} else keys - remaining
  {
  }

  lemma NamesWith(seen: set<bytes>, k: bytes)
    ensures (set j | j in seen + {k} :: NameOf(j)) == (set j | j in seen :: NameOf(j)) + {NameOf(k)}
  {
    hide NameOf;
  }

  lemma CollectedAll(header: Header, texts: map<bytes, bytes>)
    requires Collected(header, AttributeKeys(header), texts)
    ensures DistinctNames(header) && texts == TextsByName(header)
  {
    hide NameOf, HeaderText, IsAttributeKey;
    assert texts.Keys == AttributeNames(header);
    forall n | n in texts ensures texts[n] == TextsByName(header)[n] {
      var k := KeyFor(header, n);
    }
  }

  lemma TooMany(header: Header, seen: set<bytes>, key: bytes, limits: Limits)
    requires seen <= AttributeKeys(header) && key in AttributeKeys(header) && key !in seen
    requires |seen| >= limits.maxAttributes
    ensures HeaderTexts(header, limits) == None
  {
    hide AttributeKeys;
    SubsetSize(seen + {key}, AttributeKeys(header));
  }

  lemma BadHeader(header: Header, key: bytes, limits: Limits)
    requires key in AttributeKeys(header) && !BinaryHeaderOk(key, header[key], limits)
    ensures HeaderTexts(header, limits) == None
  {
    hide IsAttributeKey, BinaryHeaderOk;
    assert !BinaryHeadersOk(header, limits);
  }

  lemma AllGood(header: Header, texts: map<bytes, bytes>, limits: Limits)
    requires Collected(header, AttributeKeys(header), texts) && BinaryHeadersOk(header, limits)
    requires AttributeKeys(header) == {} || |AttributeKeys(header)| <= limits.maxAttributes
    ensures HeaderTexts(header, limits) == Some(texts)
  {
    hide AttributeKeys, Collected, BinaryHeadersOk, TextsByName, DistinctNames;
    CollectedAll(header, texts);
  }

  predicate GoodSoFar(header: Header, seen: set<bytes>, limits: Limits) {
    forall k :: k in seen && k in header ==> BinaryHeaderOk(k, header[k], limits)
  }

  lemma AttributeKeysMeaning(header: Header)
    ensures AttributeKeys(header) <= header.Keys
    ensures forall k :: k in header ==> (k in AttributeKeys(header) <==> IsAttributeKey(k))
  {
    hide IsAttributeKey;
  }

  lemma NothingGood(header: Header, limits: Limits)
    ensures GoodSoFar(header, {}, limits)
  {
  }

  lemma GoodMore(header: Header, seen: set<bytes>, k: bytes, limits: Limits)
    requires GoodSoFar(header, seen, limits) && k in header && BinaryHeaderOk(k, header[k], limits)
    ensures GoodSoFar(header, seen + {k}, limits)
  {
    hide BinaryHeaderOk;
  }

  lemma GoodAll(header: Header, limits: Limits)
    requires GoodSoFar(header, AttributeKeys(header), limits)
    ensures BinaryHeadersOk(header, limits)
  {
    hide BinaryHeaderOk, IsAttributeKey;
  }

  /** The header loop of `decodeHTTPBinary`: names in any order, leaving at the first fault,
      with the count checked while the map grows. */
  method CollectHeaders(header: Header, limits: Limits) returns (r: Option<map<bytes, bytes>>)
    ensures r == HeaderTexts(header, limits)
  {
    hide NameOf, IsAttributeKey, HeaderText, Collected, DistinctNames, TextsByName, BinaryHeaderOk, HeaderTexts;
    hide AttributeKeys, GoodSoFar, BinaryHeadersOk;
    AttributeKeysMeaning(header);
    var texts: map<bytes, bytes> := map[];
    var remaining := header.Keys;
    ghost var keys, seen: set<bytes> := AttributeKeys(header), {};
    NothingCollected(header);
    NothingGood(header, limits);
    while remaining != {}
      invariant remaining <= header.Keys && seen == keys - remaining
      invariant Collected(header, seen, texts) && |texts| == |seen|
      invariant GoodSoFar(header, seen, limits)
      invariant seen == {} || |seen| <= limits.maxAttributes
      decreases remaining
    {
      var key :| key in remaining;
      TakeKey(keys, remaining, key);
      remaining := remaining - {key};
      if IsAttributeKey(key) {
        var values := header[key];
        var name := NameOf(key);
        if limits.maxAttributeNameBytes <= 0 || |key| - 3 > limits.maxAttributeNameBytes || |values| != 1 {
          HeaderChecks(key, values, limits);
          BadHeader(header, key, limits);
          return None;
        }
        if name in texts {
          NameTaken(header, seen, texts, key);
          NotDistinct(header, limits);
          return None;
        }
        if |texts| >= limits.maxAttributes {
          TooMany(header, seen, key, limits);
          return None;
        }
        var decoded := DecodeBinaryHeader(key, values, limits);
        if decoded.None? {
          BadHeader(header, key, limits);
          return None;
        }
        CollectMore(header, seen, texts, key);
        OneMore(seen, key, texts, name, decoded.value);
        GoodMore(header, seen, key, limits);
        texts := texts[name := decoded.value];
        seen := seen + {key};
      }
    }
    assert seen == keys;
    GoodAll(header, limits);
    AllGood(header, texts, limits);
    return Some(texts);
  }

  lemma NotDistinct(header: Header, limits: Limits)
    requires !DistinctNames(header)
    ensures HeaderTexts(header, limits) == None
  {
    hide DistinctNames;
  }

  /** One header, once its name is known to be new and its value single. */
  method DecodeBinaryHeader(key: bytes, values: seq<bytes>, limits: Limits) returns (r: Option<bytes>)
    requires 0 < limits.maxAttributeNameBytes && |key| - 3 <= limits.maxAttributeNameBytes && |values| == 1
    ensures r == if BinaryHeaderOk(key, values, limits) then Some(HeaderText(values)) else None
  {
    hide NameOf, HttpAttribute.Decode, ExceedsEncodedLimit, DATACONTENTTYPE, BinaryHeaderOk, HeaderText;
    HeaderChecks(key, values, limits);
    if NameOf(key) == DATACONTENTTYPE || ExceedsEncodedLimit(|values[0]|, limits.maxAttributeValueBytes) {
      return None;
    }
    var decoded := DecodeHTTPAttribute(values[0]);
    if decoded.None? || |decoded.value| > limits.maxAttributeValueBytes {
      return None;
    }
    return decoded;
  }

  lemma NothingCollected(header: Header)
    ensures Collected(header, {}, map[])
  {
  }

  lemma HeaderChecks(key: bytes, values: seq<bytes>, limits: Limits)
    ensures BinaryHeaderOk(key, values, limits) <==>
      && 0 < limits.maxAttributeNameBytes && |key| - 3 <= limits.maxAttributeNameBytes && |values| == 1
      && NameOf(key) != DATACONTENTTYPE && !ExceedsEncodedLimit(|values[0]|, limits.maxAttributeValueBytes)
      && HttpAttribute.Decode(values[0]).Some?
      && |HttpAttribute.Decode(values[0]).value| <= limits.maxAttributeValueBytes
    ensures |values| == 1 && HttpAttribute.Decode(values[0]).Some? ==>
      HeaderText(values) == HttpAttribute.Decode(values[0]).value
  {
    hide NameOf, HttpAttribute.Decode, ExceedsEncodedLimit, DATACONTENTTYPE;
  }

  // ---------- metadata beside a structured event ----------

  predicate MetadataHeaderOk(expected: map<bytes, bytes>, key: bytes, values: seq<bytes>, limits: Limits) {
    && HeaderDecodes(key, values, limits)
    && NameOf(key) in expected && HeaderText(values) == expected[NameOf(key)]
  }

  /** Every metadata header decodes to the event's own text, and none occurs twice. */
  predicate MetadataAgrees(expected: map<bytes, bytes>, header: Header, limits: Limits) {
    && DistinctNames(header)
    && forall k :: k in AttributeKeys(header) ==> MetadataHeaderOk(expected, k, header[k], limits)
  }

  /** `validateStructuredHTTPMetadata`. */
  method ValidateStructuredHTTPMetadata(env: Env, header: Header, e: Event, limits: Limits) returns (ok: bool)
    ensures ok == MetadataAgrees(ExpectedTexts(env, e.attributes), header, limits)
  {
    hide NameOf, IsAttributeKey, HttpAttribute.Decode, ExceedsEncodedLimit, ExpectedTexts, DistinctNames;
    var expected := ExpectedTexts(env, e.attributes);
    var names: set<bytes> := {};
    var remaining := header.Keys;
    ghost var seen: set<bytes> := {};
    while remaining != {}
      invariant remaining <= header.Keys && seen == AttributeKeys(header) - remaining
      invariant forall j, k :: j in seen && k in seen && NameOf(j) == NameOf(k) ==> j == k
      invariant names == set k | k in seen :: NameOf(k)
      invariant forall k :: k in seen ==> MetadataHeaderOk(expected, k, header[k], limits)
      decreases remaining
    {
      var key :| key in remaining;
      remaining := remaining - {key};
      if IsAttributeKey(key) {
        var values := header[key];
        if limits.maxAttributeNameBytes <= 0 || |key| - 3 > limits.maxAttributeNameBytes {
          assert !MetadataHeaderOk(expected, key, values, limits);
          return false;
        }
        if NameOf(key) in names {
          SharedName(header, seen, key);
          return false;
        }
        ok := ValidateStructuredHTTPHeader(expected, key, values, limits);
        if !ok {
          return false;
        }
        names := names + {NameOf(key)};
        assert seen + {key} == AttributeKeys(header) - remaining;
        seen := seen + {key};
      } else {
        assert seen == AttributeKeys(header) - remaining;
      }
    }
    assert seen == AttributeKeys(header);
    assert DistinctNames(header) by { NamesApart(header); }
    return true;
  }

  lemma SharedName(header: Header, seen: set<bytes>, key: bytes)
    requires seen <= AttributeKeys(header) && key in AttributeKeys(header) && key !in seen
    requires NameOf(key) in set k | k in seen :: NameOf(k)
    ensures !DistinctNames(header)
  {
    hide NameOf, IsAttributeKey;
    var j :| j in seen && NameOf(j) == NameOf(key);
  }

  lemma NamesApart(header: Header)
    requires forall j, k ::
      j in AttributeKeys(header) && k in AttributeKeys(header) && NameOf(j) == NameOf(k) ==> j == k
    ensures DistinctNames(header)
  {
    hide NameOf, IsAttributeKey;
  }

  /** The rest of `validateStructuredHTTPHeader` once the name is new. */
  method ValidateStructuredHTTPHeader(expected: map<bytes, bytes>, key: bytes, values: seq<bytes>,
      limits: Limits)
    returns (ok: bool)
    requires 0 < limits.maxAttributeNameBytes && |key| - 3 <= limits.maxAttributeNameBytes
    ensures ok == MetadataHeaderOk(expected, key, values, limits)
  {
    hide NameOf, HttpAttribute.Decode, ExceedsEncodedLimit;
    if |values| != 1 || ExceedsEncodedLimit(|values[0]|, limits.maxAttributeValueBytes) {
      return false;
    }
    var decoded := DecodeHTTPAttribute(values[0]);
    if decoded.None? {
      return false;
    }
    return NameOf(key) in expected && decoded.value == expected[NameOf(key)];
  }

  // ---------- decoding ----------

  function HttpData(env: Env, contentType: bytes, body: bytes): Option<Data> {
    if body != [] || contentType != [] then DataByContentType(env, contentType, body) else Some(Absent)
  }

  predicate BodyAdmitted(body: bytes, limit: int) {
    0 < limit && limit != MAX_INT && |body| <= limit
  }

  /** The result of `DecodeHTTP` on a body that was read. */
  ghost function DecodedHttp(env: Env, header: Header, body: bytes, limits: Limits): Option<(Mode, seq<Event>)> {
    var detected :- Detect(env, header, limits);
    var (mode, contentType) := detected;
    if !BodyAdmitted(body, if mode == BinaryMode then limits.maxDataBytes else limits.maxEventBytes) then None
    else match mode
    case StructuredMode =>
      var e :- JsonCodec.DecodeText(env, body, limits);
      if MetadataAgrees(ExpectedTexts(env, e.attributes), header, limits) then Some((mode, [e])) else None
    case BatchMode =>
      if AttributeKeys(header) != {} then None
      else
        var es :- JsonBatch.DecodeBatch(env, body, limits);
        Some((mode, es))
    case BinaryMode =>
      var texts :- HeaderTexts(header, limits);
      var e :- Assemble(env, texts, contentType, HttpData(env, contentType, body));
      Some((mode, [e]))
  }

  /** `hasCloudEventsHTTPHeader`. */
  method HasAttributeHeader(header: Header) returns (present: bool)
    ensures present <==> AttributeKeys(header) != {}
  {
    hide IsAttributeKey;
    var remaining := header.Keys;
    while remaining != {}
      invariant remaining <= header.Keys && AttributeKeys(header) <= remaining
      decreases remaining
    {
      var k :| k in remaining;
      if IsAttributeKey(k) {
        assert k in AttributeKeys(header);
        return true;
      }
      remaining := remaining - {k};
    }
    return false;
  }

  /** `DecodeHTTP` after the body was read: for every order of the header names the same
      mode and events, or the same rejection. */
  method DecodeHTTP(env: Env, header: Header, body: bytes, limits: Limits) returns (r: Option<(Mode, seq<Event>)>)
    ensures r == DecodedHttp(env, header, body, limits)
  {
    hide Detect, JsonCodec.DecodeText, JsonBatch.DecodeBatch, MetadataAgrees, ExpectedTexts, HeaderTexts, Assemble;
    hide HttpData, MAX_INT, AttributeKeys;
    var detected := DetectHTTPMode(env, header, limits);
    if detected.None? {
      return None;
    }
    var (mode, contentType) := detected.value;
    var limit := if mode == BinaryMode then limits.maxDataBytes else limits.maxEventBytes;
    if limit <= 0 || limit == MAX_INT || |body| > limit {
      return None;
    }
    if mode == StructuredMode {
      var e := JsonEncoder.DecodeJSON(env, body, limits);
      if e.None? {
        return None;
      }
      var agrees := ValidateStructuredHTTPMetadata(env, header, e.value, limits);
      return if agrees then Some((mode, [e.value])) else None;
    }
    if mode == BatchMode {
      var present := HasAttributeHeader(header);
      if present {
        return None;
      }
      var es := JsonBatch.DecodeJSONBatch(env, body, limits);
      return if es.None? then None else Some((mode, es.value));
    }
    var texts := CollectHeaders(header, limits);
    if texts.None? {
      return None;
    }
    var e := AssembleEvent(env, texts.value, contentType, HttpData(env, contentType, body));
    return if e.None? then None else Some((mode, [e.value]));
  }
}
