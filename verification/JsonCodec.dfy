/** The JSON event format (`json.go`): sorted-member encoder and limited decoder. */
module JsonCodec {
  import opened Bytes
  import opened Order
  import opened Event
  import opened Conversion
  import opened Admission
  import opened JsonString
  import opened JsonText
  import opened JsonDocument
  import JsonWalk
  import Decimal
  import Base64

  // ---------- encoding ----------

  /** The content type that is written: declared, or materialized for undeclared text. */
  function WrittenContentType(e: Event): bytes {
    if e.attributes.dataContentType != [] then e.attributes.dataContentType
    else if e.data.Present? && e.data.kind == TextData then ImplicitContentType(TextData)
    else []
  }

  function QuoteAll(m: map<bytes, bytes>): map<bytes, bytes> {
    map k | k in m :: Quote(m[k])
  }

  function ExtensionMember(a: Attribute): bytes {
    if a.kind == KindBoolean || a.kind == KindInteger then a.text else Quote(a.text)
  }

  function ExtensionMembers(x: map<bytes, Attribute>): map<bytes, bytes> {
    map n | n in x && x[n].kind != KindUnassigned :: ExtensionMember(x[n])
  }

  function DataMembers(d: Data): map<bytes, bytes> {
    match d
    case Absent => map[]
    case Present(JsonData, b) => map[DATA := b]
    case Present(TextData, b) => map[DATA := Quote(b)]
    case Present(BinaryData, b) => map[DATA_BASE64 := Quote(Base64.Encode(b))]
  }

  /** The members of the encoded object, by name. */
  function JsonMembers(env: Env, e: Event): map<bytes, bytes> {
    QuoteAll(StandardTexts(env, e.attributes)) + QuoteAll(Optional(DATACONTENTTYPE, WrittenContentType(e)))
    + ExtensionMembers(e.attributes.extensions) + DataMembers(e.data)
  }

  /** The encoded event: its members in ascending order of their names. */
  ghost function EncodedText(env: Env, e: Event): bytes {
    PrintContainer(SortedEntries(JsonMembers(env, e)), true)
  }

  // ---------- decoding ----------

  function RawEntries(cs: seq<Child>): (es: seq<Entry<bytes>>)
    ensures |es| == |cs| && forall i :: 0 <= i < |cs| ==> es[i] == Entry(cs[i].name, cs[i].raw)
  {
    seq(|cs|, i requires 0 <= i < |cs| => Entry(cs[i].name, cs[i].raw))
  }

  /** `json.Unmarshal` into a map of raw messages. A raw message carries no white space
      around it (`RawMessages`), so trimming it again changes nothing. */
  function RawMembers(cs: seq<Child>): map<bytes, bytes> {
    ToMap(RawEntries(cs))
  }

  /** `json.Unmarshal` into a string; `null` leaves the string empty. */
  function UnmarshalString(raw: bytes): Option<bytes> {
    var d :- ParseDocument(raw);
    match d.value
    case String(text) => Some(text)
    case Null => Some([])
    case _ => None
  }

  datatype Field = Rejected | Missing | Found(text: bytes)

  /** The `stringMember` closure: an absent or null member is missing. */
  function StringMember(m: map<bytes, bytes>, name: bytes, limits: Limits): Field {
    if name !in m || m[name] == NULL then Missing
    else if ExceedsEncodedLimit(|m[name]|, limits.maxAttributeValueBytes) then Rejected
    else
      var text := UnmarshalString(m[name]);
      if text.None? || |text.value| > limits.maxAttributeValueBytes then Rejected else Found(text.value)
  }

  function Required(f: Field): Option<bytes> {
    if f.Found? then Some(f.text) else None
  }

  function OptionalText(f: Field): Option<bytes> {
    match f
    case Rejected => None
    case Missing => Some([])
    case Found(text) => Some(text)
  }

  function TimeOf(env: Env, f: Field): Option<Option<Instant>> {
    match f
    case Rejected => None
    case Missing => Some(None)
    case Found(text) => if env.parseTime(text).None? then None else Some(env.parseTime(text))
  }

  /** `decodeJSONAttribute`. */
  function DecodeAttribute(raw: bytes): Option<Attribute> {
    var d :- ParseDocument(raw);
    match d.value
    case String(text) => NewStringAttribute(text)
    case Bool(b) => Some(NewBooleanAttribute(b))
    case Number(text) =>
      var v :- Decimal.ParseInt32(text);
      NewIntegerAttribute(v)
    case _ => None
  }

  /** An extension with its size checks before and after decoding. */
  function DecodeExtension(raw: bytes, limits: Limits): Option<Attribute> {
    var limit := limits.maxAttributeValueBytes;
    if raw == [] || (if raw[0] == QUOTE then ExceedsEncodedLimit(|raw|, limit) else |raw| > limit) then None
    else
      var a :- DecodeAttribute(raw);
      if |a.text| > limit then None else Some(a)
  }

  predicate ExtensionAdmitted(name: bytes, raw: bytes, limits: Limits) {
    && limits.maxAttributeNameBytes > 0 && |name| <= limits.maxAttributeNameBytes
    && (raw == NULL || DecodeExtension(raw, limits).Some?)
  }

  predicate ExtensionsAdmitted(m: map<bytes, bytes>, limits: Limits) {
    forall n :: n in m && !Reserved(n) ==> ExtensionAdmitted(n, m[n], limits)
  }

  function DecodeExtensions(m: map<bytes, bytes>, limits: Limits): Option<map<bytes, Attribute>> {
    if ExtensionsAdmitted(m, limits) then
      Some(map n | n in m && !Reserved(n) && m[n] != NULL :: DecodeExtension(m[n], limits).value)
    else None
  }

  function DecodeBase64Data(raw: bytes, limits: Limits): Option<Data> {
    if raw == NULL then None
    else
      var text :- UnmarshalString(raw);
      if limits.maxDataBytes <= 0 || Base64.DecodedLength(text) > limits.maxDataBytes then None
      else if !Base64.NoLineBreaks(text) then None
      else
        var b :- Base64.Decode(text);
        Some(NewBinaryData(b))
  }

  function DecodePlainData(env: Env, raw: bytes, contentType: bytes, limits: Limits): Option<Data> {
    if IsJsonMediaType(env, contentType) then
      if limits.maxDataBytes <= 0 || |raw| > limits.maxDataBytes then None else NewJSONData(raw)
    else if ExceedsEncodedLimit(|raw|, limits.maxDataBytes) then None
    else
      var text :- UnmarshalString(raw);
      if |text| > limits.maxDataBytes then None else NewTextData(text)
  }

  /** `decodeJSONData`. */
  function DecodeData(env: Env, m: map<bytes, bytes>, contentType: bytes, limits: Limits): Option<Data> {
    if DATA in m && DATA_BASE64 in m then None
    else if DATA_BASE64 in m then DecodeBase64Data(m[DATA_BASE64], limits)
    else if DATA !in m then Some(Absent)
    else DecodePlainData(env, m[DATA], contentType, limits)
  }

  /** `countJSONAttributes`. */
  function CountAttributes(m: map<bytes, bytes>): nat {
    |m.Keys - {DATA, DATA_BASE64}|
  }

  function DecodeMembers(env: Env, m: map<bytes, bytes>, limits: Limits): Option<Event> {
    if limits.maxAttributes <= 0 || CountAttributes(m) > limits.maxAttributes then None
    else
      var version :- Required(StringMember(m, SPECVERSION, limits));
      if version != VERSION then None
      else
        var id :- Required(StringMember(m, ID, limits));
        var source :- Required(StringMember(m, SOURCE, limits));
        var eventType :- Required(StringMember(m, TYPE, limits));
        var contentType :- OptionalText(StringMember(m, DATACONTENTTYPE, limits));
        var dataSchema :- OptionalText(StringMember(m, DATASCHEMA, limits));
        var subject :- OptionalText(StringMember(m, SUBJECT, limits));
        var time :- TimeOf(env, StringMember(m, TIME, limits));
        var extensions :- DecodeExtensions(m, limits);
        var data :- DecodeData(env, m, contentType, limits);
        NewEvent(env, Attributes(id, source, eventType, contentType, dataSchema, subject, time, extensions), data)
  }

  /** `DecodeJSON`. Only an object can have the required members. */
  function DecodeText(env: Env, value: bytes, limits: Limits): Option<Event> {
    if limits.maxEventBytes <= 0 || |value| > limits.maxEventBytes then None
    else
      var d :- ParseDocument(value);
      if !JsonWalk.Inspect(JsonWalk.Tokens(d.value), limits.maxDepth) then None
      else if !d.value.Container? || !d.value.named then None
      else DecodeMembers(env, RawMembers(d.value.children), limits)
  }

  /** What it takes for the members to decode to a given event. */
  lemma DecodeMembersParts(env: Env, m: map<bytes, bytes>, limits: Limits, e: Event)
    ensures DecodeMembers(env, m, limits) == Some(e) <==>
      var a := e.attributes;
      && limits.maxAttributes > 0 && CountAttributes(m) <= limits.maxAttributes
      && Required(StringMember(m, SPECVERSION, limits)) == Some(VERSION)
      && Required(StringMember(m, ID, limits)) == Some(a.id)
      && Required(StringMember(m, SOURCE, limits)) == Some(a.source)
      && Required(StringMember(m, TYPE, limits)) == Some(a.eventType)
      && OptionalText(StringMember(m, DATACONTENTTYPE, limits)) == Some(a.dataContentType)
      && OptionalText(StringMember(m, DATASCHEMA, limits)) == Some(a.dataSchema)
      && OptionalText(StringMember(m, SUBJECT, limits)) == Some(a.subject)
      && TimeOf(env, StringMember(m, TIME, limits)) == Some(a.time)
      && DecodeExtensions(m, limits) == Some(a.extensions)
      && DecodeData(env, m, a.dataContentType, limits) == Some(e.data)
      && ValidAttributes(env, a)
  {
    hide StringMember, Required, OptionalText, TimeOf, DecodeExtensions, DecodeData, ValidAttributes, CountAttributes;
    hide SPECVERSION, ID, SOURCE, TYPE, DATACONTENTTYPE, DATASCHEMA, SUBJECT, TIME, VERSION;
  }
}
