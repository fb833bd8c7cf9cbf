/** The immutable event, its attributes and data, and their validation
    (`event.go`, `attribute.go`, `validation.go`). */
module Event {
  import opened Bytes
  import opened Alphabet
  import Utf8
  import Base64
  import Decimal
  import TraceContext
  import JsonText

  /** Nanoseconds on an absolute scale; `time.Time` in UTC. */
  type Instant = int

  /** The library calls that are taken as given. `mediaType` is the lower-cased media type of
      `mime.ParseMediaType`, `None` when that fails; `uriReference` and `absoluteURI` are the
      two `url.Parse` checks; `formatTime` and `parseTime` are RFC3339Nano in UTC. */
  datatype Env = Env(
    mediaType: bytes -> Option<bytes>,
    uriReference: bytes -> bool,
    absoluteURI: bytes -> bool,
    formatTime: Instant -> bytes,
    parseTime: bytes -> Option<Instant>)

  /** A formatted time is ASCII. */
  predicate AsciiTime(env: Env, t: Option<Instant>) {
    t.Some? ==> IsAscii(env.formatTime(t.value))
  }

  // ---------- names ----------

  const SPECVERSION: bytes := Ascii("specversion")
  const ID: bytes := Ascii("id")
  const SOURCE: bytes := Ascii("source")
  const TYPE: bytes := Ascii("type")
  const DATACONTENTTYPE: bytes := Ascii("datacontenttype")
  const DATASCHEMA: bytes := Ascii("dataschema")
  const SUBJECT: bytes := Ascii("subject")
  const TIME: bytes := Ascii("time")
  const DATA: bytes := Ascii("data")
  const DATA_BASE64: bytes := Ascii("data_base64")

  const VERSION: bytes := Ascii("1.0")

  const TRACEPARENT: bytes := Ascii("traceparent")
  const TRACESTATE: bytes := Ascii("tracestate")
  const PARTITIONKEY: bytes := Ascii("partitionkey")

  /** The names no extension may take. */
  predicate Reserved(name: bytes) {
    || name == DATA || name == DATA_BASE64 || name == DATACONTENTTYPE || name == DATASCHEMA
    || name == ID || name == SOURCE || name == SPECVERSION || name == SUBJECT || name == TIME || name == TYPE
  }

  /** Enough to tell the reserved names apart. */
  lemma ReservedNames()
    ensures |ID| == 2 && |SOURCE| == 6 && |SUBJECT| == 7 && |DATASCHEMA| == 10 && |DATACONTENTTYPE| == 15
    ensures |DATA| == 4 && |TYPE| == 4 && |TIME| == 4 && |SPECVERSION| == 11 && |DATA_BASE64| == 11
    ensures TYPE != TIME && TYPE != DATA && TIME != DATA && SPECVERSION != DATA_BASE64
  {
    assert TYPE[1] != TIME[1] && DATA[0] != TYPE[0] && DATA[0] != TIME[0] && SPECVERSION[0] != DATA_BASE64[0];
  }

  // ---------- attributes ----------

  datatype AttributeKind =
    | KindUnassigned | KindString | KindBoolean | KindInteger | KindBinary | KindURI | KindURIReference | KindTimestamp

  /** A Binary attribute's retained bytes are the ones its canonical text encodes. */
  datatype Attribute = Attribute(kind: AttributeKind, text: bytes)

  function NewStringAttribute(value: bytes): Option<Attribute> {
    if ValidCloudString(value) then Some(Attribute(KindString, value)) else None
  }

  function NewBooleanAttribute(value: bool): Attribute {
    Attribute(KindBoolean, if value then JsonText.TRUE else JsonText.FALSE)
  }

  function NewIntegerAttribute(value: int): Option<Attribute> {
    if -2147483648 <= value <= 2147483647 then Some(Attribute(KindInteger, Decimal.FormatInt(value))) else None
  }

  function NewBinaryAttribute(value: bytes): Attribute {
    Attribute(KindBinary, Base64.Encode(value))
  }

  function NewURIAttribute(env: Env, value: bytes): Option<Attribute> {
    if ValidCloudString(value) && env.absoluteURI(value) then Some(Attribute(KindURI, value)) else None
  }

  function NewURIReferenceAttribute(env: Env, value: bytes): Option<Attribute> {
    if ValidCloudString(value) && env.uriReference(value) then Some(Attribute(KindURIReference, value)) else None
  }

  function NewTimestampAttribute(env: Env, value: Instant): Attribute {
    Attribute(KindTimestamp, env.formatTime(value))
  }

  function AttributeBytes(a: Attribute): Option<bytes> {
    if a.kind == KindBinary then Base64.Decode(a.text) else None
  }

  /** Binary attributes and byte strings correspond one to one. */
  lemma BinaryAttributeOneToOne(env: Env, a: bytes, b: bytes)
    ensures ValidAttribute(env, NewBinaryAttribute(a))
    ensures AttributeBytes(NewBinaryAttribute(a)) == Some(a)
    ensures NewBinaryAttribute(a) == NewBinaryAttribute(b) ==> a == b
  {
    Base64.DecodeEncode(a);
    Base64.DecodeEncode(b);
  }

  predicate IsLowerAlphanumeric(c: byte) { 0x61 <= c <= 0x7A || 0x30 <= c <= 0x39 }

  /** `validAttributeName`. */
  predicate ValidName(name: bytes) {
    name != [] && forall i :: 0 <= i < |name| ==> IsLowerAlphanumeric(name[i])
  }

  predicate CloudScalar(r: int) {
    && !(r <= 0x1F) && !(0x7F <= r <= 0x9F) && !(0xFDD0 <= r <= 0xFDEF)
    && r % 0x10000 != 0xFFFE && r % 0x10000 != 0xFFFF
  }

  predicate CloudScalars(s: bytes)
    requires Utf8.Valid(s)
    decreases |s|
  {
    s == [] || (CloudScalar(Utf8.Value(s)) && CloudScalars(s[Utf8.Width(s)..]))
  }

  /** `validCloudString`. */
  predicate ValidCloudString(s: bytes) {
    Utf8.Valid(s) && CloudScalars(s)
  }

  /** A name is small letters and digits. */
  lemma NameExact(name: bytes)
    ensures ValidName(name) <==> name != [] && forall c :: c in name ==> c in SMALL || c in DIGITS
  {
    hide SMALL, DIGITS, CAPITALS;
    forall c ensures IsLowerAlphanumeric(c) <==> c in SMALL || c in DIGITS {
      Letters(c);
      Decimals(c);
    }
    hide IsLowerAlphanumeric;
    if forall c :: c in name ==> c in SMALL || c in DIGITS {
      assert forall i :: 0 <= i < |name| ==> name[i] in name;
    }
  }

  /** The characters a String may hold: no control character and no noncharacter. */
  predicate Permitted(r: Utf8.Scalar) {
    && !(r < 0x20) && !(0x7F <= r < 0xA0) && !(0xFDD0 <= r < 0xFDF0)
    && (forall plane :: 0 <= plane < 17 ==> r != 0x10000 * plane + 0xFFFE && r != 0x10000 * plane + 0xFFFF)
  }

  lemma PermittedExact(r: Utf8.Scalar)
    ensures CloudScalar(r) <==> Permitted(r)
  {
    var plane := r / 0x10000;
    assert r == 0x10000 * plane + r % 0x10000 && 0 <= plane < 17;
  }

  lemma {:induction false} CloudScalarsOf(rs: seq<Utf8.Scalar>)
    ensures Utf8.Valid(Utf8.EncodeAll(rs))
    ensures CloudScalars(Utf8.EncodeAll(rs)) <==> forall i :: 0 <= i < |rs| ==> Permitted(rs[i])
  {
    hide Utf8.Encode, Permitted, CloudScalar;
    Utf8.EncodeAllValid(rs);
    if rs != [] {
      CloudScalarsOf(rs[1..]);
      PermittedExact(rs[0]);
      Utf8.FirstScalar(rs[0], Utf8.EncodeAll(rs[1..]));
      assert rs == [rs[0]] + rs[1..];
    }
  }

  /** A String is the UTF-8 text of permitted characters. */
  lemma CloudStringExact(s: bytes)
    ensures ValidCloudString(s) <==>
      exists rs :: Utf8.EncodeAll(rs) == s && forall i :: 0 <= i < |rs| ==> Permitted(rs[i])
  {
    hide Utf8.Valid, Permitted, CloudScalars;
    Utf8.ValidExact(s);
    forall rs | Utf8.EncodeAll(rs) == s
      ensures ValidCloudString(s) <==> forall i :: 0 <= i < |rs| ==> Permitted(rs[i])
    {
      CloudScalarsOf(rs);
    }
  }

  /** `validAttribute`. */
  predicate ValidAttribute(env: Env, a: Attribute) {
    match a.kind
    case KindString => ValidCloudString(a.text)
    case KindBoolean => a.text == JsonText.TRUE || a.text == JsonText.FALSE
    case KindInteger =>
      var v := Decimal.ParseInt32(a.text);
      v.Some? && Decimal.FormatInt(v.value) == a.text
    case KindBinary => Base64.Decode(a.text).Some?
    case KindURI => ValidCloudString(a.text) && env.absoluteURI(a.text)
    case KindURIReference => ValidCloudString(a.text) && env.uriReference(a.text)
    case KindTimestamp =>
      var t := env.parseTime(a.text);
      t.Some? && env.formatTime(t.value) == a.text
    case KindUnassigned => false
  }

  /** The integer constructor builds valid attributes for every 32-bit value, and only those. */
  lemma IntegerAttributes(env: Env, v: int)
    ensures NewIntegerAttribute(v).Some? <==> -2147483648 <= v <= 2147483647
    ensures NewIntegerAttribute(v).Some? ==>
      ValidAttribute(env, NewIntegerAttribute(v).value)
        && Decimal.ParseInt32(NewIntegerAttribute(v).value.text) == Some(v)
  {
    if -2147483648 <= v <= 2147483647 {
      Decimal.ParseFormat(v);
    }
  }

  /** What an attribute can be made of. */
  datatype Material =
    | OfString(text: bytes) | OfBoolean(flag: bool) | OfInteger(number: int) | OfBytes(bytes: bytes)
    | OfURI(uri: bytes) | OfURIReference(reference: bytes) | OfTime(time: Instant)

  /** The constructors. */
  function Made(env: Env, v: Material): Option<Attribute> {
    match v
    case OfString(s) => NewStringAttribute(s)
    case OfBoolean(b) => Some(NewBooleanAttribute(b))
    case OfInteger(n) => NewIntegerAttribute(n)
    case OfBytes(b) => Some(NewBinaryAttribute(b))
    case OfURI(s) => NewURIAttribute(env, s)
    case OfURIReference(s) => NewURIReferenceAttribute(env, s)
    case OfTime(t) => Some(NewTimestampAttribute(env, t))
  }

  /** A formatted time that parses to one with the same text, which only times outside the range
      of years fail. */
  predicate TimeTextKept(env: Env, t: Instant) {
    var u := env.parseTime(env.formatTime(t));
    u.Some? && env.formatTime(u.value) == env.formatTime(t)
  }

  /** Whatever a constructor makes is valid, but for a time whose text does not parse back. */
  lemma MadeIsValid(env: Env, v: Material)
    requires Made(env, v).Some?
    ensures ValidAttribute(env, Made(env, v).value) <==> (v.OfTime? ==> TimeTextKept(env, v.time))
  {
    hide Decimal.ParseInt32, Decimal.FormatInt, ValidCloudString, Base64.Encode, Base64.Decode;
    match v
    case OfInteger(n) => IntegerAttributes(env, n);
    case OfBytes(b) => BinaryAttributeOneToOne(env, b, b);
    case _ =>
  }

  /** What the validation accepts is what the constructors make: an attribute is valid if and
      only if it was made of something, of a time only if its text parses back. A Binary
      attribute's text is canonical, as constructors write it. */
  lemma ValidIsMade(env: Env, a: Attribute)
    requires a.kind == KindBinary ==> Base64.NoLineBreaks(a.text)
    ensures ValidAttribute(env, a) <==>
      exists v :: Made(env, v) == Some(a) && (v.OfTime? ==> TimeTextKept(env, v.time))
  {
    hide Decimal.ParseInt32, Decimal.FormatInt, ValidCloudString, Base64.Encode, Base64.Decode;
    if v :| Made(env, v) == Some(a) && (v.OfTime? ==> TimeTextKept(env, v.time)) {
      MadeIsValid(env, v);
    }
    if ValidAttribute(env, a) {
      var v := Origin(env, a);
    }
  }

  lemma Origin(env: Env, a: Attribute) returns (v: Material)
    requires ValidAttribute(env, a) && (a.kind == KindBinary ==> Base64.NoLineBreaks(a.text))
    ensures Made(env, v) == Some(a) && (v.OfTime? ==> TimeTextKept(env, v.time))
  {
    hide Decimal.ParseInt32, Decimal.FormatInt, ValidCloudString, Base64.Encode, Base64.Decode;
    match a.kind
    case KindString => return OfString(a.text);
    case KindBoolean => return OfBoolean(a.text == JsonText.TRUE);
    case KindInteger =>
      Decimal.ParseRange(a.text);
      return OfInteger(Decimal.ParseInt32(a.text).value);
    case KindBinary =>
      Base64.EncodeDecode(a.text);
      return OfBytes(Base64.Decode(a.text).value);
    case KindURI => return OfURI(a.text);
    case KindURIReference => return OfURIReference(a.text);
    case KindTimestamp => return OfTime(env.parseTime(a.text).value);
  }

  // ---------- data ----------

  datatype DataKind = JsonData | TextData | BinaryData

  datatype Data = Absent | Present(kind: DataKind, bytes: bytes)

  function NewJSONData(value: bytes): Option<Data> {
    if JsonText.IsValid(value) then Some(Present(JsonData, value)) else None
  }

  function NewTextData(value: bytes): Option<Data> {
    if Utf8.Valid(value) then Some(Present(TextData, value)) else None
  }

  function NewBinaryData(value: bytes): Data {
    Present(BinaryData, value)
  }

  predicate ValidData(d: Data) {
    match d
    case Absent => true
    case Present(JsonData, b) => JsonText.IsValid(b)
    case Present(TextData, b) => Utf8.Valid(b)
    case Present(BinaryData, _) => true
  }

  // ---------- the event ----------

  /** An empty optional text means the attribute is absent. */
  datatype Attributes = Attributes(
    id: bytes, source: bytes, eventType: bytes,
    dataContentType: bytes, dataSchema: bytes, subject: bytes,
    time: Option<Instant>, extensions: map<bytes, Attribute>)

  datatype Event = Event(attributes: Attributes, data: Data)

  predicate ValidExtension(env: Env, name: bytes, a: Attribute) {
    ValidName(name) && !Reserved(name) && ValidAttribute(env, a)
  }

  predicate ValidTraceParentAttribute(a: Attribute) {
    a.kind == KindString && TraceContext.ValidTraceParent(a.text)
  }

  predicate ValidTraceStateAttribute(a: Attribute) {
    a.kind == KindString && TraceContext.Accepts(a.text)
  }

  predicate ValidPartitionKeyAttribute(a: Attribute) {
    a.kind == KindString && a.text != []
  }

  /** The extensions the package knows, besides being valid attributes. */
  predicate ValidSelected(x: map<bytes, Attribute>) {
    && (TRACEPARENT in x ==> ValidTraceParentAttribute(x[TRACEPARENT]))
    && (TRACESTATE in x ==> ValidTraceStateAttribute(x[TRACESTATE]) && TRACEPARENT in x)
    && (PARTITIONKEY in x ==> ValidPartitionKeyAttribute(x[PARTITIONKEY]))
  }

  predicate ValidCore(env: Env, a: Attributes) {
    && a.id != [] && ValidCloudString(a.id)
    && a.source != [] && ValidCloudString(a.source) && env.uriReference(a.source)
    && a.eventType != [] && ValidCloudString(a.eventType)
    && (a.dataContentType != [] ==> env.mediaType(a.dataContentType).Some?)
    && (a.dataSchema != [] ==> env.absoluteURI(a.dataSchema))
    && (a.subject != [] ==> ValidCloudString(a.subject))
  }

  predicate ValidAttributes(env: Env, a: Attributes) {
    && ValidCore(env, a)
    && (forall n :: n in a.extensions ==> ValidExtension(env, n, a.extensions[n]))
    && ValidSelected(a.extensions)
  }

  /** `NewEvent`. */
  function NewEvent(env: Env, a: Attributes, d: Data): Option<Event> {
    if ValidAttributes(env, a) then Some(Event(a, d)) else None
  }

  /** `Event.Validate`. */
  predicate ValidEvent(env: Env, e: Event) {
    ValidAttributes(env, e.attributes) && ValidData(e.data)
  }

  // ---------- media types ----------

  const SLASH: byte := 0x2F

  predicate JsonSubtype(mediaType: bytes) {
    var n := IndexOf(mediaType, SLASH);
    n < |mediaType| && (mediaType[n + 1..] == Ascii("json") || HasSuffix(mediaType[n + 1..], Ascii("+json")))
  }

  /** `isJSONMediaType`: no content type means JSON. */
  predicate IsJsonMediaType(env: Env, value: bytes) {
    value == [] || (env.mediaType(value).Some? && JsonSubtype(env.mediaType(value).value))
  }

  /** `isTextMediaType`. */
  predicate IsTextMediaType(env: Env, value: bytes) {
    env.mediaType(value).Some? && HasPrefix(env.mediaType(value).value, Ascii("text/"))
  }

  // ---------- context attributes as text ----------

  function Optional(name: bytes, text: bytes): map<bytes, bytes> {
    if text == [] then map[] else map[name := text]
  }

  function TimeText(env: Env, t: Option<Instant>): map<bytes, bytes> {
    if t.None? then map[] else map[TIME := env.formatTime(t.value)]
  }

  function ExtensionTexts(x: map<bytes, Attribute>): map<bytes, bytes> {
    map n | n in x :: x[n].text
  }

  function RequiredTexts(a: Attributes): map<bytes, bytes> {
    map[SPECVERSION := VERSION, ID := a.id, SOURCE := a.source, TYPE := a.eventType]
  }

  /** The name and text of every context attribute but the content type. */
  function ContextTexts(env: Env, a: Attributes): map<bytes, bytes> {
    StandardTexts(env, a) + ExtensionTexts(a.extensions)
  }

  predicate NoReserved(x: map<bytes, Attribute>) {
    forall n :: n in x ==> !Reserved(n)
  }

  lemma RequiredLookup(a: Attributes)
    ensures var m := RequiredTexts(a);
      && m.Keys == {SPECVERSION, ID, SOURCE, TYPE}
      && m[SPECVERSION] == VERSION && m[ID] == a.id && m[SOURCE] == a.source && m[TYPE] == a.eventType
  {
    ReservedNames();
    hide SPECVERSION, ID, SOURCE, TYPE, DATACONTENTTYPE, DATASCHEMA, SUBJECT, TIME, DATA, DATA_BASE64, VERSION;
  }

  /** The context texts without the extensions. */
  function StandardTexts(env: Env, a: Attributes): map<bytes, bytes> {
    RequiredTexts(a) + Optional(DATASCHEMA, a.dataSchema) + Optional(SUBJECT, a.subject) + TimeText(env, a.time)
  }

  lemma RequiredApart()
    ensures SPECVERSION != ID && SOURCE !in {SPECVERSION, ID} && TYPE !in {SPECVERSION, ID, SOURCE}
    ensures {DATASCHEMA, SUBJECT, TIME} !! {SPECVERSION, ID, SOURCE, TYPE} && DATASCHEMA != SUBJECT
    ensures TIME !in {DATASCHEMA, SUBJECT}
  {
    ReservedNames();
    hide SPECVERSION, ID, SOURCE, TYPE, DATACONTENTTYPE, DATASCHEMA, SUBJECT, TIME, DATA, DATA_BASE64;
  }

  /** Three optional entries beside a map, under names of their own. */
  lemma UnionLookup(r: map<bytes, bytes>, a: map<bytes, bytes>, b: map<bytes, bytes>, c: map<bytes, bytes>,
      x: bytes, y: bytes, z: bytes)
    requires a.Keys <= {x} && b.Keys <= {y} && c.Keys <= {z} && x != y && x != z && y != z
    requires x !in r && y !in r && z !in r
    ensures var u := r + a + b + c;
      && (forall k :: k in r ==> k in u && u[k] == r[k])
      && (x in u <==> x in a) && (x in a ==> u[x] == a[x])
      && (y in u <==> y in b) && (y in b ==> u[y] == b[y])
      && (z in u <==> z in c) && (z in c ==> u[z] == c[z])
  {
  }

  lemma UnionKeys(a: map<bytes, bytes>, b: map<bytes, bytes>, c: map<bytes, bytes>, d: map<bytes, bytes>)
    ensures (a + b + c + d).Keys == a.Keys + b.Keys + c.Keys + d.Keys
  {
  }

  lemma OptionalKeys(name: bytes, text: bytes)
    ensures Optional(name, text).Keys == if text == [] then {} else {name}
    ensures text != [] ==> Optional(name, text)[name] == text
  {
  }

  lemma TimeTextKeys(env: Env, t: Option<Instant>)
    ensures TimeText(env, t).Keys == if t.None? then {} else {TIME}
    ensures t.Some? ==> TimeText(env, t)[TIME] == env.formatTime(t.value)
  {
    hide TIME;
  }

  lemma StandardLookup(env: Env, a: Attributes)
    ensures var m := StandardTexts(env, a);
      && SPECVERSION in m && m[SPECVERSION] == VERSION && ID in m && m[ID] == a.id
      && SOURCE in m && m[SOURCE] == a.source && TYPE in m && m[TYPE] == a.eventType
      && (if a.dataSchema == [] then DATASCHEMA !in m else DATASCHEMA in m && m[DATASCHEMA] == a.dataSchema)
      && (if a.subject == [] then SUBJECT !in m else SUBJECT in m && m[SUBJECT] == a.subject)
      && (if a.time.None? then TIME !in m else TIME in m && m[TIME] == env.formatTime(a.time.value))
  {
    hide SPECVERSION, ID, SOURCE, TYPE, DATASCHEMA, SUBJECT, TIME, VERSION, RequiredTexts, Optional, TimeText;
    RequiredApart();
    RequiredLookup(a);
    OptionalKeys(DATASCHEMA, a.dataSchema);
    OptionalKeys(SUBJECT, a.subject);
    TimeTextKeys(env, a.time);
    UnionLookup(RequiredTexts(a), Optional(DATASCHEMA, a.dataSchema), Optional(SUBJECT, a.subject),
                TimeText(env, a.time), DATASCHEMA, SUBJECT, TIME);
  }

  lemma StandardNames(env: Env, a: Attributes)
    ensures StandardTexts(env, a).Keys <= {SPECVERSION, ID, SOURCE, TYPE, DATASCHEMA, SUBJECT, TIME}
  {
    hide RequiredTexts, Optional, TimeText, SPECVERSION, ID, SOURCE, TYPE, DATASCHEMA, SUBJECT, TIME, VERSION;
    RequiredLookup(a);
    OptionalKeys(DATASCHEMA, a.dataSchema);
    OptionalKeys(SUBJECT, a.subject);
    TimeTextKeys(env, a.time);
    UnionKeys(RequiredTexts(a), Optional(DATASCHEMA, a.dataSchema), Optional(SUBJECT, a.subject),
              TimeText(env, a.time));
  }

  lemma StandardKeys(env: Env, a: Attributes)
    ensures var m := StandardTexts(env, a);
      && m.Keys <= {SPECVERSION, ID, SOURCE, TYPE, DATASCHEMA, SUBJECT, TIME}
      && DATACONTENTTYPE !in m && DATA !in m && DATA_BASE64 !in m
  {
    hide StandardTexts;
    ReservedNames();
    hide SPECVERSION, ID, SOURCE, TYPE, DATACONTENTTYPE, DATASCHEMA, SUBJECT, TIME, DATA, DATA_BASE64;
    StandardNames(env, a);
  }

  /** Looking a name up in the context texts. */
  lemma ContextLookup(env: Env, a: Attributes)
    requires NoReserved(a.extensions)
    ensures var m := ContextTexts(env, a);
      && SPECVERSION in m && m[SPECVERSION] == VERSION && ID in m && m[ID] == a.id
      && SOURCE in m && m[SOURCE] == a.source && TYPE in m && m[TYPE] == a.eventType
      && (if a.dataSchema == [] then DATASCHEMA !in m else DATASCHEMA in m && m[DATASCHEMA] == a.dataSchema)
      && (if a.subject == [] then SUBJECT !in m else SUBJECT in m && m[SUBJECT] == a.subject)
      && (if a.time.None? then TIME !in m else TIME in m && m[TIME] == env.formatTime(a.time.value))
      && DATACONTENTTYPE !in m && DATA !in m && DATA_BASE64 !in m
      && (forall n :: n in a.extensions ==> n in m && m[n] == a.extensions[n].text)
      && (forall n :: n in m && !Reserved(n) ==> n in a.extensions)
  {
    hide StandardTexts, SPECVERSION, ID, SOURCE, TYPE, DATACONTENTTYPE, DATASCHEMA, SUBJECT, TIME, DATA, DATA_BASE64;
    hide VERSION;
    StandardLookup(env, a);
    StandardKeys(env, a);
  }

  lemma StandardNamesValid()
    ensures ValidName(SPECVERSION) && ValidName(ID) && ValidName(SOURCE) && ValidName(TYPE)
    ensures ValidName(DATASCHEMA) && ValidName(SUBJECT) && ValidName(TIME)
  {
  }

  /** Every name in the context is lower-case alphanumeric. */
  lemma ContextNamesValid(env: Env, a: Attributes)
    requires forall n :: n in a.extensions ==> ValidName(n)
    ensures forall n :: n in ContextTexts(env, a) ==> ValidName(n)
  {
    hide ValidName, StandardTexts, SPECVERSION, ID, SOURCE, TYPE, DATASCHEMA, SUBJECT, TIME;
    StandardNamesValid();
    StandardKeys(env, a);
  }

  lemma ValidNameAscii(n: bytes)
    requires ValidName(n)
    ensures IsAscii(n) && Utf8.Valid(n)
  {
    Utf8.ValidAscii(n);
  }
}
