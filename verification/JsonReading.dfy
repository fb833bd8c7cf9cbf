/** What the decoder reads, for every input. `ReadsAs` says what an object means as an event in
    terms of its parsed members alone (section 3 of the CloudEvents JSON Event Format 1.0.2 and
    the package's limits); the decoder, which works on raw texts, checks sizes twice and walks
    maps, is proved to accept exactly that. */
module JsonReading {
  import opened Bytes
  import opened Order
  import opened Event
  import opened Conversion
  import opened Admission
  import opened JsonString
  import opened JsonText
  import opened JsonDocument
  import opened JsonCodec
  import opened JsonRoundTrip
  import opened JsonNormal
  import BatchNormal
  import JsonBatch
  import JsonImage
  import JsonWalk
  import Decimal
  import Base64
  import Utf8

  // ---------- what members say ----------

  /** Some member of that name has that value. */
  ghost predicate Says(cs: seq<Child>, name: bytes, v: Json) {
    exists i :: 0 <= i < |cs| && cs[i].name == name && cs[i].value == v
  }

  ghost predicate Lacks(cs: seq<Child>, name: bytes) {
    forall i :: 0 <= i < |cs| ==> cs[i].name != name
  }

  /** There is no such member, or it is null. */
  ghost predicate Silent(cs: seq<Child>, name: bytes) {
    Lacks(cs, name) || Says(cs, name, Null)
  }

  ghost predicate SaysText(cs: seq<Child>, name: bytes, text: bytes, limits: Limits) {
    Says(cs, name, String(text)) && Fits(text, limits)
  }

  /** An optional text: silence means empty. */
  ghost predicate MaySay(cs: seq<Child>, name: bytes, text: bytes, limits: Limits) {
    (Silent(cs, name) && text == []) || SaysText(cs, name, text, limits)
  }

  ghost predicate MaySayTime(env: Env, cs: seq<Child>, t: Option<Instant>, limits: Limits) {
    || (Silent(cs, TIME) && t.None?)
    || (t.Some? && exists text :: SaysText(cs, TIME, text, limits) && env.parseTime(text) == t)
  }

  /** The attribute an extension value stands for: a String, a Boolean, or a 32-bit Integer in
      any JSON spelling that is a plain integer. */
  function ExtensionOf(v: Json, limits: Limits): Option<Attribute> {
    match v
    case String(text) =>
      if Fits(text, limits) && ValidCloudString(text) then Some(Attribute(KindString, text)) else None
    case Bool(b) =>
      var text := if b then Ascii("true") else Ascii("false");
      if Fits(text, limits) then Some(Attribute(KindBoolean, text)) else None
    case Number(text) =>
      var n := Decimal.ParseInt32(text);
      if n.Some? && Fits(text, limits) && Fits(Decimal.FormatInt(n.value), limits)
      then Some(Attribute(KindInteger, Decimal.FormatInt(n.value))) else None
    case _ => None
  }

  /** A member that is not a standard name is an extension or null, its name within the limit
      even where it is null. */
  predicate SaysExtension(c: Child, x: map<bytes, Attribute>, limits: Limits) {
    !Reserved(c.name) ==>
      && 0 < limits.maxAttributeNameBytes && |c.name| <= limits.maxAttributeNameBytes
      && (if c.value == Null then c.name !in x else c.name in x && ExtensionOf(c.value, limits) == Some(x[c.name]))
  }

  /** Every member says its extension, and there is no other. */
  ghost predicate SayExtensions(cs: seq<Child>, x: map<bytes, Attribute>, limits: Limits) {
    && (forall i :: 0 <= i < |cs| ==> SaysExtension(cs[i], x, limits))
    && (forall n :: n in x ==> !Reserved(n) && !Lacks(cs, n))
  }

  ghost predicate SaysRaw(cs: seq<Child>, name: bytes, raw: bytes) {
    exists i :: 0 <= i < |cs| && cs[i].name == name && cs[i].raw == raw
  }

  /** The data: none, canonical base64 under one name, or under the other the raw text of any
      value for JSON, and for anything else a string, where null stands for the empty one. */
  ghost predicate SayData(env: Env, cs: seq<Child>, contentType: bytes, d: Data, limits: Limits) {
    if Lacks(cs, DATA) && Lacks(cs, DATA_BASE64) then d == Absent
    else
      && d.Present? && DataFits(d, limits)
      && match d.kind
         case BinaryData => Lacks(cs, DATA) && Says(cs, DATA_BASE64, String(Base64.Encode(d.bytes)))
         case JsonData => Lacks(cs, DATA_BASE64) && IsJsonMediaType(env, contentType) && SaysRaw(cs, DATA, d.bytes)
         case TextData =>
           && Lacks(cs, DATA_BASE64) && !IsJsonMediaType(env, contentType)
           && (Says(cs, DATA, String(d.bytes)) || (Says(cs, DATA, Null) && d.bytes == []))
  }

  /** The names that count as attributes. */
  ghost function AttributeNames(cs: seq<Child>): set<bytes> {
    set i | 0 <= i < |cs| && cs[i].name != DATA && cs[i].name != DATA_BASE64 :: cs[i].name
  }

  ghost predicate ReadsAs(env: Env, cs: seq<Child>, limits: Limits, e: Event) {
    var a := e.attributes;
    && 0 < limits.maxAttributes && |AttributeNames(cs)| <= limits.maxAttributes
    && SaysText(cs, SPECVERSION, Ascii("1.0"), limits)
    && SaysText(cs, ID, a.id, limits) && SaysText(cs, SOURCE, a.source, limits)
    && SaysText(cs, TYPE, a.eventType, limits)
    && MaySay(cs, DATACONTENTTYPE, a.dataContentType, limits) && MaySay(cs, DATASCHEMA, a.dataSchema, limits)
    && MaySay(cs, SUBJECT, a.subject, limits) && MaySayTime(env, cs, a.time, limits)
    && SayExtensions(cs, a.extensions, limits)
    && SayData(env, cs, a.dataContentType, e.data, limits)
    && ValidAttributes(env, a)
  }

  // ---------- raw texts ----------

  /** What the raw text of a value looks like. */
  lemma RawShape(c: Child)
    requires RawChild(c)
    ensures c.raw != []
    ensures c.value == Null <==> c.raw == NULL
    ensures c.value.String? <==> c.raw[0] == QUOTE
    ensures c.value.Bool? ==> c.raw == if c.value.value then TRUE else FALSE
    ensures c.value.Number? ==> c.raw == c.value.text
  {
    hide ParseValue;
    var w := SpaceEnd(c.raw, 0);
    var p := ParseValue(c.raw, w).value;
    assert w == 0 by { CoreWhole(c.raw, w, p.end); }
    assert c.raw[0..p.end] == c.raw;
    ValueShape(c.raw);
    NullIsDocument();
  }

  lemma CoreWhole(s: bytes, w: nat, end: nat)
    requires w <= end <= |s| && s[w..end] == s
    ensures w == 0 && end == |s|
  {
    assert |s[w..end]| == end - w;
  }

  lemma ValueShape(s: bytes)
    requires ParseValue(s, 0).Some? && ParseValue(s, 0).value.end == |s|
    ensures var v := ParseValue(s, 0).value.value;
      && s != [] && (v.Null? ==> s == NULL) && (v.String? <==> s[0] == QUOTE)
      && (v.Bool? ==> s == if v.value then TRUE else FALSE) && (v.Number? ==> s == v.text)
  {
    hide LiteralEnd, Unescape, NumberEnd, ParseContainer;
    assert s[0..|s|] == s;
    if s[0] == LBRACE || s[0] == LBRACKET {
      ContainerValue(s);
    }
  }

  lemma ContainerValue(s: bytes)
    requires s != [] && (s[0] == LBRACE || s[0] == LBRACKET) && ParseValue(s, 0).Some?
    ensures ParseValue(s, 0).value.value.Container?
  {
    hide ParseChildren, SpaceEnd;
  }

  lemma FieldOf(m: map<bytes, bytes>, c: Child, limits: Limits)
    requires RawChild(c) && c.name in m && m[c.name] == c.raw
    ensures StringMember(m, c.name, limits) ==
      match c.value
      case Null => Missing
      case String(text) => if Fits(text, limits) then Found(text) else Rejected
      case _ => Rejected
  {
    hide ParseDocument, ExceedsEncodedLimit, Utf8.Valid;
    RawShape(c);
    if c.value.String? {
      JsonImage.StringCore(c.raw, limits.maxAttributeValueBytes);
    }
  }

  lemma ExtensionField(c: Child, limits: Limits)
    requires RawChild(c) && c.value != Null
    ensures DecodeExtension(c.raw, limits) == ExtensionOf(c.value, limits)
  {
    hide ParseDocument, ExceedsEncodedLimit, Utf8.Valid, CloudScalars, Decimal.ParseInt32, Decimal.FormatInt;
    RawShape(c);
    assert TRUE == Ascii("true") && FALSE == Ascii("false") && |TRUE| == 4 && |FALSE| == 5;
    match c.value
    case String(text) => JsonImage.StringCore(c.raw, limits.maxAttributeValueBytes);
    case Number(text) =>
      Decimal.ParseRange(text);
      if Decimal.ParseInt32(text).Some? {
        FormatNotEmpty(Decimal.ParseInt32(text).value);
      }
    case _ =>
  }

  lemma FormatNotEmpty(n: int)
    ensures Decimal.FormatInt(n) != []
  {
  }

  // ---------- members by name ----------

  /** The children are complete texts under distinct names, and fill the map. */
  ghost predicate Members(cs: seq<Child>, m: map<bytes, bytes>) {
    && JsonWalk.DistinctNames(cs) && (forall i :: 0 <= i < |cs| ==> RawChild(cs[i]))
    && (forall i :: 0 <= i < |cs| ==> cs[i].name in m && m[cs[i].name] == cs[i].raw)
    && (forall k :: k in m ==> exists i :: 0 <= i < |cs| && cs[i].name == k)
  }

  lemma MembersOfChildren(cs: seq<Child>)
    requires JsonWalk.DistinctNames(cs) && forall c :: c in cs ==> RawChild(c)
    ensures Members(cs, RawMembers(cs))
  {
    hide ParseDocument, ToMap, RawChild;
    var es := RawEntries(cs);
    assert Distinct(es);
    forall i | 0 <= i < |cs|
      ensures RawChild(cs[i]) && cs[i].name in RawMembers(cs) && RawMembers(cs)[cs[i].name] == cs[i].raw
    {
      assert cs[i] in cs;
      ValueStored(es, i);
    }
    forall k | k in RawMembers(cs) ensures exists i :: 0 <= i < |cs| && cs[i].name == k {
      var i := KeyAt(es, k);
      assert cs[i].name == k;
    }
  }

  /** What a text member reads as, in terms of what the members say. */
  lemma TextRead(cs: seq<Child>, m: map<bytes, bytes>, name: bytes, limits: Limits, text: bytes)
    requires Members(cs, m)
    ensures Required(StringMember(m, name, limits)) == Some(text) <==> SaysText(cs, name, text, limits)
    ensures OptionalText(StringMember(m, name, limits)) == Some(text) <==> MaySay(cs, name, text, limits)
    ensures StringMember(m, name, limits) == Missing <==> Silent(cs, name)
    ensures StringMember(m, name, limits) == Found(text) <==> SaysText(cs, name, text, limits)
  {
    hide RawChild, Fits;
    if name in m {
      var i :| 0 <= i < |cs| && cs[i].name == name;
      hide StringMember;
      FieldOf(m, cs[i], limits);
      OnlyOne(cs, i, name);
    } else {
      assert Lacks(cs, name);
    }
  }

  /** One member of a name says all there is to say under it. */
  lemma OnlyOne(cs: seq<Child>, i: nat, name: bytes)
    requires i < |cs| && cs[i].name == name && JsonWalk.DistinctNames(cs)
    ensures !Lacks(cs, name) && (forall v :: Says(cs, name, v) <==> v == cs[i].value)
    ensures forall raw :: SaysRaw(cs, name, raw) <==> raw == cs[i].raw
  {
    forall j | 0 <= j < |cs| && cs[j].name == name ensures j == i {
    }
  }

  lemma TimeRead(env: Env, cs: seq<Child>, m: map<bytes, bytes>, limits: Limits, t: Option<Instant>)
    requires Members(cs, m)
    ensures TimeOf(env, StringMember(m, TIME, limits)) == Some(t) <==> MaySayTime(env, cs, t, limits)
  {
    hide Members, StringMember, SaysText, Silent, TIME, MaySay, Required, OptionalText;
    forall text ensures StringMember(m, TIME, limits) == Found(text) <==> SaysText(cs, TIME, text, limits) {
      TextRead(cs, m, TIME, limits, text);
    }
    TextRead(cs, m, TIME, limits, []);
  }

  lemma ExtensionsRead(cs: seq<Child>, m: map<bytes, bytes>, limits: Limits, x: map<bytes, Attribute>)
    requires Members(cs, m)
    ensures DecodeExtensions(m, limits) == Some(x) <==> SayExtensions(cs, x, limits)
  {
    hide DecodeExtension, ExtensionOf, Reserved, NULL, RawChild, JsonWalk.DistinctNames;
    forall i | 0 <= i < |cs|
      ensures cs[i].value == Null <==> m[cs[i].name] == NULL
      ensures cs[i].value != Null ==> DecodeExtension(m[cs[i].name], limits) == ExtensionOf(cs[i].value, limits)
    {
      RawShape(cs[i]);
      if cs[i].value != Null {
        ExtensionField(cs[i], limits);
      }
    }
    if DecodeExtensions(m, limits) == Some(x) {
      forall i | 0 <= i < |cs| ensures SaysExtension(cs[i], x, limits) {
        assert !Reserved(cs[i].name) ==> ExtensionAdmitted(cs[i].name, m[cs[i].name], limits);
      }
      forall n | n in x ensures !Reserved(n) && !Lacks(cs, n) {
        assert n in m;
      }
    }
    if SayExtensions(cs, x, limits) {
      forall n | n in m && !Reserved(n)
        ensures ExtensionAdmitted(n, m[n], limits) && (n in x <==> m[n] != NULL)
        ensures m[n] != NULL ==> DecodeExtension(m[n], limits) == Some(x[n])
      {
        var i :| 0 <= i < |cs| && cs[i].name == n;
        assert SaysExtension(cs[i], x, limits);
      }
      forall n | n in x ensures n in m {
        var i :| 0 <= i < |cs| && cs[i].name == n;
      }
      assert DecodeExtensions(m, limits).value == x;
    }
  }

  // ---------- data ----------

  lemma Base64Read(c: Child, limits: Limits, d: Data)
    requires RawChild(c)
    ensures DecodeBase64Data(c.raw, limits) == Some(d) <==>
      d.Present? && d.kind == BinaryData && DataFits(d, limits) && c.value == String(Base64.Encode(d.bytes))
  {
    hide ParseDocument, Base64.Encode, Base64.Decode, Base64.DecodedLength;
    RawShape(c);
    if c.value.String? {
      var text := c.value.text;
      if DecodeBase64Data(c.raw, limits).Some? {
        Base64.EncodeDecode(text);
        Base64.DecodeEncode(Base64.Decode(text).value);
      }
      if d.Present? && d.kind == BinaryData && text == Base64.Encode(d.bytes) {
        Base64.DecodeEncode(d.bytes);
        Base64.EncodeUnbroken(d.bytes);
        Base64.EncodeDecode(text);
      }
    }
  }

  lemma PlainRead(env: Env, c: Child, contentType: bytes, limits: Limits, d: Data)
    requires RawChild(c)
    ensures DecodePlainData(env, c.raw, contentType, limits) == Some(d) <==>
      && d.Present? && DataFits(d, limits)
      && if IsJsonMediaType(env, contentType) then d == Present(JsonData, c.raw)
         else d.kind == TextData && (c.value == String(d.bytes) || (c.value == Null && d.bytes == []))
  {
    hide ParseDocument, IsJsonMediaType, ExceedsEncodedLimit, Utf8.Valid;
    RawShape(c);
    JsonRoundTrip.EmptyUtf8();
    if !IsJsonMediaType(env, contentType) {
      if c.value.String? {
        JsonImage.StringCore(c.raw, limits.maxDataBytes);
      } else if c.value == Null {
        assert |NULL| == 4;
        EncodedLimitMeaning(4, limits.maxDataBytes);
      }
    }
  }

  lemma DataRead(env: Env, cs: seq<Child>, m: map<bytes, bytes>, contentType: bytes, limits: Limits, d: Data)
    requires Members(cs, m)
    ensures DecodeData(env, m, contentType, limits) == Some(d) <==> SayData(env, cs, contentType, d, limits)
  {
    hide DecodeBase64Data, DecodePlainData, IsJsonMediaType, Base64.Encode, RawChild, DATA, DATA_BASE64, DataFits;
    NameRead(cs, m, DATA);
    NameRead(cs, m, DATA_BASE64);
    if DATA_BASE64 in m && DATA !in m {
      var i :| 0 <= i < |cs| && cs[i].name == DATA_BASE64;
      OnlyOne(cs, i, DATA_BASE64);
      Base64Read(cs[i], limits, d);
    } else if DATA in m && DATA_BASE64 !in m {
      var i :| 0 <= i < |cs| && cs[i].name == DATA;
      OnlyOne(cs, i, DATA);
      PlainRead(env, cs[i], contentType, limits, d);
    }
  }

  lemma NameRead(cs: seq<Child>, m: map<bytes, bytes>, name: bytes)
    requires Members(cs, m)
    ensures Lacks(cs, name) <==> name !in m
  {
    hide RawChild;
  }

  lemma NamesRead(cs: seq<Child>, m: map<bytes, bytes>)
    requires Members(cs, m)
    ensures CountAttributes(m) == |AttributeNames(cs)|
  {
    hide RawChild, DATA, DATA_BASE64;
    assert AttributeNames(cs) == m.Keys - {DATA, DATA_BASE64};
  }

  // ---------- the theorem ----------

  lemma MembersRead(env: Env, cs: seq<Child>, m: map<bytes, bytes>, limits: Limits, e: Event)
    requires Members(cs, m)
    ensures DecodeMembers(env, m, limits) == Some(e) <==> ReadsAs(env, cs, limits, e)
  {
    hide DecodeMembers, Members, StringMember, DecodeExtensions, DecodeData, CountAttributes, ValidAttributes, SayData;
    hide SaysText, MaySay, MaySayTime, SayExtensions, AttributeNames, Required, OptionalText, TimeOf, SPECVERSION, ID;
    hide SOURCE, TYPE, DATACONTENTTYPE, DATASCHEMA, SUBJECT, TIME;
    var a := e.attributes;
    DecodeMembersParts(env, m, limits, e);
    NamesRead(cs, m);
    TextRead(cs, m, SPECVERSION, limits, VERSION);
    TextRead(cs, m, ID, limits, a.id);
    TextRead(cs, m, SOURCE, limits, a.source);
    TextRead(cs, m, TYPE, limits, a.eventType);
    TextRead(cs, m, DATACONTENTTYPE, limits, a.dataContentType);
    TextRead(cs, m, DATASCHEMA, limits, a.dataSchema);
    TextRead(cs, m, SUBJECT, limits, a.subject);
    TimeRead(env, cs, m, limits, a.time);
    ExtensionsRead(cs, m, limits, a.extensions);
    DataRead(env, cs, m, a.dataContentType, limits, e.data);
  }

  /** The decoder reads exactly this. For every input, all limits and every event: the input
      decodes to the event if and only if it is within the size limit, is one JSON object with
      distinct names that nests within the depth limit, and its members read as the event. */
  lemma DecodeExact(env: Env, value: bytes, limits: Limits, e: Event)
    ensures DecodeText(env, value, limits) == Some(e) <==>
      && |value| <= limits.maxEventBytes
      && var d := ParseDocument(value);
      && d.Some? && d.value.value.Container? && d.value.value.named
      && JsonWalk.DistinctNames(d.value.value.children) && Depth(d.value.value) <= limits.maxDepth
      && ReadsAs(env, d.value.value.children, limits, e)
  {
    hide ParseDocument, DecodeMembers, RawMembers, ReadsAs, JsonWalk.Inspect, JsonWalk.Tokens, RawChild, TrimSpace;
    hide Members, JsonWalk.DistinctNames;
    var d := ParseDocument(value);
    if d.Some? {
      assert value != [] by { NotEmpty(value); }
      JsonWalk.InspectDocument(d.value.value, limits.maxDepth);
      if d.value.value.Container? && JsonWalk.DistinctNames(d.value.value.children) {
        var cs := d.value.value.children;
        RawMessages(value);
        MembersOfChildren(cs);
        MembersRead(env, cs, RawMembers(cs), limits, e);
        assert Depth(d.value.value) > 0;
      }
    }
  }

  /** An element of a batch reads as an event. */
  ghost predicate ElementReads(env: Env, c: Child, limits: Limits, e: Event) {
    && |c.raw| <= limits.maxEventBytes && c.value.Container? && c.value.named
    && JsonWalk.DistinctNames(c.value.children) && Depth(c.value) <= limits.maxDepth
    && ReadsAs(env, c.value.children, limits, e)
  }

  lemma ElementExact(env: Env, c: Child, limits: Limits, e: Event)
    requires RawChild(c)
    ensures DecodeText(env, c.raw, limits) == Some(e) <==> ElementReads(env, c, limits, e)
  {
    hide ParseDocument, DecodeText, ReadsAs, JsonWalk.DistinctNames;
    DecodeExact(env, c.raw, limits, e);
  }

  /** The same for batches: the input decodes to the events if and only if it is within the
      size limit, is one JSON array of that many elements, within the batch limit, and each
      element reads as its event. */
  lemma DecodeBatchExact(env: Env, value: bytes, limits: Limits, es: seq<Event>)
    ensures JsonBatch.DecodeBatch(env, value, limits) == Some(es) <==>
      && |value| <= limits.maxEventBytes && 0 < limits.maxDepth && limits.maxDepth != MAX_INT
      && 0 < limits.maxBatchEvents && |es| <= limits.maxBatchEvents
      && var d := ParseDocument(value);
      && d.Some? && d.value.value.Container? && !d.value.value.named && |d.value.value.children| == |es|
      && forall i :: 0 <= i < |es| ==> ElementReads(env, d.value.value.children[i], limits, es[i])
  {
    hide ParseDocument, DecodeText, ElementReads, JsonWalk.Inspect, JsonWalk.Tokens, RawChild, JsonBatch.DecodeElements;
    hide MAX_INT, TrimSpace;
    var d := ParseDocument(value);
    if d.Some? && d.value.value.Container? && !d.value.value.named && 0 < limits.maxDepth {
      var cs := d.value.value.children;
      assert value != [] by { NotEmpty(value); }
      RawMessages(value);
      JsonWalk.InspectBatch(cs, limits.maxDepth);
      if JsonBatch.DecodeElements(env, cs, limits).Some? {
        BatchNormal.ElementCount(env, cs, limits);
      }
      if |cs| == |es| {
        JsonBatch.ElementsExact(env, cs, es, limits);
        forall i | 0 <= i < |es|
          ensures DecodeText(env, cs[i].raw, limits) == Some(es[i]) <==> ElementReads(env, cs[i], limits, es[i])
          ensures ElementReads(env, cs[i], limits, es[i]) ==> Depth(cs[i].value) <= limits.maxDepth
        {
          ElementExact(env, cs[i], limits, es[i]);
          ElementDepth(env, cs[i], limits, es[i]);
        }
      }
    }
  }

  lemma ElementDepth(env: Env, c: Child, limits: Limits, e: Event)
    ensures ElementReads(env, c, limits, e) ==> Depth(c.value) <= limits.maxDepth
  {
    hide ReadsAs, JsonWalk.DistinctNames;
  }

  lemma NotEmpty(value: bytes)
    requires ParseDocument(value).Some?
    ensures value != []
  {
    hide ParseContainer, ParseScalar;
  }

  // ---------- null ----------

  function Without(cs: seq<Child>, i: nat): seq<Child>
    requires i < |cs|
  {
    cs[..i] + cs[i + 1..]
  }

  lemma WithoutSays(cs: seq<Child>, i: nat, name: bytes)
    requires i < |cs| && cs[i].name != name
    ensures forall v :: Says(Without(cs, i), name, v) <==> Says(cs, name, v)
    ensures forall raw :: SaysRaw(Without(cs, i), name, raw) <==> SaysRaw(cs, name, raw)
    ensures Lacks(Without(cs, i), name) <==> Lacks(cs, name)
  {
    var rest := Without(cs, i);
    assert forall j :: 0 <= j < i ==> rest[j] == cs[j];
    assert forall j :: i < j < |cs| ==> rest[j - 1] == cs[j];
    forall j | 0 <= j < |cs| && j != i ensures rest[if j < i then j else j - 1] == cs[j] {
    }
  }

  lemma WithoutSilent(cs: seq<Child>, i: nat)
    requires i < |cs| && cs[i].value == Null && JsonWalk.DistinctNames(cs)
    ensures Lacks(Without(cs, i), cs[i].name) && Silent(cs, cs[i].name)
    ensures forall v :: Says(cs, cs[i].name, v) ==> v == Null
  {
    OnlyOne(cs, i, cs[i].name);
    assert Says(cs, cs[i].name, Null);
    var rest := Without(cs, i);
    forall j | 0 <= j < |rest| ensures rest[j].name != cs[i].name {
      assert rest[j] == if j < i then cs[j] else cs[j + 1];
    }
  }

  lemma SameMaySay(cs: seq<Child>, i: nat, name: bytes, text: bytes, limits: Limits)
    requires i < |cs| && cs[i].value == Null && JsonWalk.DistinctNames(cs)
    ensures MaySay(Without(cs, i), name, text, limits) <==> MaySay(cs, name, text, limits)
    ensures cs[i].name != name ==> (SaysText(Without(cs, i), name, text, limits) <==> SaysText(cs, name, text, limits))
    ensures SaysText(Without(cs, i), name, text, limits) <==> SaysText(cs, name, text, limits)
    ensures Silent(Without(cs, i), name) <==> Silent(cs, name)
  {
    hide Fits, Without;
    if cs[i].name == name {
      WithoutSilent(cs, i);
    } else {
      WithoutSays(cs, i, name);
    }
  }

  lemma SameExtensions(cs: seq<Child>, i: nat, x: map<bytes, Attribute>, limits: Limits)
    requires i < |cs| && cs[i].value == Null && JsonWalk.DistinctNames(cs)
    requires Reserved(cs[i].name) || NameFits(cs[i].name, limits)
    ensures SayExtensions(Without(cs, i), x, limits) <==> SayExtensions(cs, x, limits)
  {
    hide SaysExtension, Reserved, Lacks;
    var rest := Without(cs, i);
    WithoutSilent(cs, i);
    NullSays(cs[i], x, limits);
    if SayExtensions(rest, x, limits) {
      assert cs[i].name !in x;
      forall j | 0 <= j < |cs| ensures SaysExtension(cs[j], x, limits) {
        assert j != i ==> rest[if j < i then j else j - 1] == cs[j];
      }
    }
    if SayExtensions(cs, x, limits) {
      forall j | 0 <= j < |rest| ensures SaysExtension(rest[j], x, limits) {
        assert rest[j] == cs[if j < i then j else j + 1];
      }
      assert cs[i].name !in x;
    }
    forall n | n != cs[i].name ensures Lacks(rest, n) <==> Lacks(cs, n) {
      WithoutSays(cs, i, n);
    }
  }

  predicate NameFits(name: bytes, limits: Limits) {
    0 < limits.maxAttributeNameBytes && |name| <= limits.maxAttributeNameBytes
  }

  /** A null member says that there is no such extension. */
  lemma NullSays(c: Child, x: map<bytes, Attribute>, limits: Limits)
    requires c.value == Null && (Reserved(c.name) || NameFits(c.name, limits))
    ensures SaysExtension(c, x, limits) <==> Reserved(c.name) || c.name !in x
  {
    hide Reserved;
  }

  lemma SameTime(env: Env, cs: seq<Child>, i: nat, t: Option<Instant>, limits: Limits)
    requires i < |cs| && cs[i].value == Null && JsonWalk.DistinctNames(cs)
    ensures MaySayTime(env, Without(cs, i), t, limits) <==> MaySayTime(env, cs, t, limits)
  {
    hide SaysText, Silent, Without, JsonWalk.DistinctNames, TIME, MaySay;
    forall text ensures SaysText(Without(cs, i), TIME, text, limits) <==> SaysText(cs, TIME, text, limits) {
      SameMaySay(cs, i, TIME, text, limits);
    }
    SameMaySay(cs, i, TIME, [], limits);
  }

  lemma SameData(env: Env, cs: seq<Child>, i: nat, contentType: bytes, d: Data, limits: Limits)
    requires i < |cs| && cs[i].name != DATA && cs[i].name != DATA_BASE64
    ensures SayData(env, Without(cs, i), contentType, d, limits) <==> SayData(env, cs, contentType, d, limits)
  {
    hide Says, Lacks, SaysRaw, IsJsonMediaType, Base64.Encode, DataFits, Without, DATA, DATA_BASE64;
    WithoutSays(cs, i, DATA);
    WithoutSays(cs, i, DATA_BASE64);
  }

  /** A member that an event need not have: an optional attribute, or an extension with a name
      within the limit. */
  predicate MayBeNull(name: bytes, limits: Limits) {
    name in {DATACONTENTTYPE, DATASCHEMA, SUBJECT, TIME} || (!Reserved(name) && NameFits(name, limits))
  }

  lemma OptionalNames(name: bytes, limits: Limits)
    requires MayBeNull(name, limits)
    ensures (Reserved(name) || NameFits(name, limits)) && name != DATA && name != DATA_BASE64
  {
    hide DATACONTENTTYPE, DATASCHEMA, SUBJECT, TIME, DATA, DATA_BASE64, ID, SOURCE, TYPE, SPECVERSION;
    ReservedNames();
  }

  lemma FewerNames(cs: seq<Child>, i: nat)
    requires i < |cs|
    ensures |AttributeNames(Without(cs, i))| <= |AttributeNames(cs)|
  {
    hide DATA, DATA_BASE64;
    var rest := Without(cs, i);
    forall j | 0 <= j < |rest| ensures rest[j] in cs {
      assert rest[j] == if j < i then cs[j] else cs[j + 1];
    }
    assert AttributeNames(rest) <= AttributeNames(cs);
    SubsetSize(AttributeNames(rest), AttributeNames(cs));
  }

  /** A null optional member or extension reads like an absent one, as long as the attributes are not too
      many for the limit with it. */
  lemma NullReadsAbsent(env: Env, cs: seq<Child>, i: nat, limits: Limits, e: Event)
    requires i < |cs| && cs[i].value == Null && JsonWalk.DistinctNames(cs)
    requires MayBeNull(cs[i].name, limits) && |AttributeNames(cs)| <= limits.maxAttributes
    ensures ReadsAs(env, cs, limits, e) <==> ReadsAs(env, Without(cs, i), limits, e)
  {
    hide SPECVERSION, ID, SOURCE, TYPE, DATACONTENTTYPE, DATASCHEMA, SUBJECT, TIME, DATA, DATA_BASE64, Reserved;
    hide SaysText, MaySay, MaySayTime, SayExtensions, SayData, AttributeNames, ValidAttributes, Without;
    hide JsonWalk.DistinctNames, Silent, MayBeNull, NameFits;
    var a := e.attributes;
    OptionalNames(cs[i].name, limits);
    FewerNames(cs, i);
    SameMaySay(cs, i, SPECVERSION, Ascii("1.0"), limits);
    SameMaySay(cs, i, ID, a.id, limits);
    SameMaySay(cs, i, SOURCE, a.source, limits);
    SameMaySay(cs, i, TYPE, a.eventType, limits);
    SameMaySay(cs, i, DATACONTENTTYPE, a.dataContentType, limits);
    SameMaySay(cs, i, DATASCHEMA, a.dataSchema, limits);
    SameMaySay(cs, i, SUBJECT, a.subject, limits);
    SameTime(env, cs, i, a.time, limits);
    SameExtensions(cs, i, a.extensions, limits);
    SameData(env, cs, i, a.dataContentType, e.data, limits);
  }
}
