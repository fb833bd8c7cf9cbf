/** The JSON encoder and decoder as they are written: members are appended to a list while
    the extension map is walked in any order, sorted by name and written to a buffer. Every
    order yields the same bytes and the same report. */
module JsonEncoder {
  import opened Bytes
  import opened Order
  import opened Event
  import opened Conversion
  import opened Admission
  import opened JsonString
  import opened JsonText
  import opened JsonDocument
  import opened JsonCodec
  import opened JsonRoundTrip
  import opened JsonBatch
  import JsonWalk
  import Base64

  // ---------- building the member list ----------

  lemma DistinctAppend<V(!new)>(s: seq<Entry<V>>, e: Entry<V>)
    requires Distinct(s) && e.key !in ToMap(s)
    ensures Distinct(s + [e]) && ToMap(s + [e]) == ToMap(s)[e.key := e.value]
  {
    hide ToMap;
    ToMapAppend(s, e);
    forall i | 0 <= i < |s| ensures s[i].key != e.key {
      KeyStored(s, i);
    }
  }

  /** `appendString` and the plain appends: the list keeps filling a map. */
  method AppendMember(members: seq<Entry<bytes>>, name: bytes, value: bytes) returns (r: seq<Entry<bytes>>)
    requires Distinct(members) && name !in ToMap(members)
    ensures Distinct(r) && ToMap(r) == ToMap(members)[name := value]
  {
    DistinctAppend(members, Entry(name, value));
    r := members + [Entry(name, value)];
  }

  /** The same, unless the optional text is absent. */
  method AppendOptional(members: seq<Entry<bytes>>, name: bytes, text: bytes) returns (r: seq<Entry<bytes>>)
    requires Distinct(members) && name !in ToMap(members)
    ensures Distinct(r) && ToMap(r) == ToMap(members) + QuoteAll(Optional(name, text))
  {
    r := members;
    if text != [] {
      r := AppendMember(members, name, Quote(text));
    }
  }

  lemma RequiredQuoted(a: Attributes)
    ensures
      map[][SPECVERSION := Quote(VERSION)][ID := Quote(a.id)][SOURCE := Quote(a.source)][TYPE := Quote(a.eventType)]
      == QuoteAll(RequiredTexts(a))
    ensures SPECVERSION != ID && SOURCE !in {SPECVERSION, ID} && TYPE !in {SPECVERSION, ID, SOURCE}
  {
    ReservedNames();
    RequiredLookup(a);
    hide SPECVERSION, ID, SOURCE, TYPE, VERSION, RequiredTexts, Quote;
  }

  /** The standard members up to the time, in the order they are appended. */
  lemma StandardQuoted(env: Env, e: Event)
    ensures var a := e.attributes;
      QuoteAll(RequiredTexts(a)) + QuoteAll(Optional(DATACONTENTTYPE, WrittenContentType(e)))
      + QuoteAll(Optional(DATASCHEMA, a.dataSchema)) + QuoteAll(Optional(SUBJECT, a.subject))
        + QuoteAll(TimeText(env, a.time))
      == QuoteAll(StandardTexts(env, a)) + QuoteAll(Optional(DATACONTENTTYPE, WrittenContentType(e)))
  {
    var a := e.attributes;
    var ct := Optional(DATACONTENTTYPE, WrittenContentType(e));
    StandardKeys(env, a);
    QuoteUnion(RequiredTexts(a), Optional(DATASCHEMA, a.dataSchema));
    QuoteUnion(RequiredTexts(a) + Optional(DATASCHEMA, a.dataSchema), Optional(SUBJECT, a.subject));
    QuoteUnion(RequiredTexts(a) + Optional(DATASCHEMA, a.dataSchema) + Optional(SUBJECT, a.subject),
      TimeText(env, a.time));
    MoveLast(QuoteAll(RequiredTexts(a)), QuoteAll(ct), QuoteAll(Optional(DATASCHEMA, a.dataSchema)),
             QuoteAll(Optional(SUBJECT, a.subject)), QuoteAll(TimeText(env, a.time)), DATACONTENTTYPE);
  }

  lemma QuoteUnion(a: map<bytes, bytes>, b: map<bytes, bytes>)
    ensures QuoteAll(a + b) == QuoteAll(a) + QuoteAll(b)
  {
    hide Quote;
  }

  lemma MoveLast(a: map<bytes, bytes>, x: map<bytes, bytes>, b: map<bytes, bytes>, c: map<bytes, bytes>,
      d: map<bytes, bytes>, k: bytes)
    requires x.Keys <= {k} && k !in a + b + c + d
    ensures a + x + b + c + d == a + b + c + d + x
  {
  }

  lemma ExtensionStep(done: map<bytes, Attribute>, n: bytes, a: Attribute)
    requires n !in done
    ensures ExtensionMembers(done[n := a]) ==
      if a.kind == KindUnassigned then ExtensionMembers(done) else ExtensionMembers(done)[n := ExtensionMember(a)]
    ensures ExtensionMembers(done).Keys <= done.Keys
  {
    hide ExtensionMember;
  }

  /** The extensions, taken from the map one by one in any order. */
  method AppendExtensions(members: seq<Entry<bytes>>, x: map<bytes, Attribute>) returns (r: seq<Entry<bytes>>)
    requires Distinct(members) && ToMap(members).Keys !! x.Keys
    ensures Distinct(r) && ToMap(r) == ToMap(members) + ExtensionMembers(x)
  {
    hide ExtensionMember, ToMap, ExtensionMembers;
    r := members;
    var remaining := x.Keys;
    ghost var done: map<bytes, Attribute> := map[];
    NoExtensions();
    while remaining != {}
      invariant remaining <= x.Keys && done.Keys == x.Keys - remaining && forall n :: n in done ==> done[n] == x[n]
      invariant Distinct(r) && ToMap(r) == ToMap(members) + ExtensionMembers(done)
      decreases remaining
    {
      var n :| n in remaining;
      ExtensionStep(done, n, x[n]);
      if x[n].kind != KindUnassigned {
        assert n !in ToMap(r);
        r := AppendMember(r, n, ExtensionMember(x[n]));
      }
      remaining := remaining - {n};
      done := done[n := x[n]];
    }
    assert done == x;
  }

  lemma NoExtensions()
    ensures ExtensionMembers(map[]) == map[]
  {
  }

  method CollectRequired(a: Attributes) returns (members: seq<Entry<bytes>>)
    ensures Distinct(members) && ToMap(members) == QuoteAll(RequiredTexts(a))
  {
    hide Quote, QuoteAll, RequiredTexts, Distinct, ToMap, SPECVERSION, ID, SOURCE, TYPE, VERSION;
    RequiredQuoted(a);
    members := [];
    EmptyMap<bytes>();
    assert Distinct(members) by { NoMembers(); }
    members := AppendMember(members, SPECVERSION, Quote(VERSION));
    members := AppendMember(members, ID, Quote(a.id));
    members := AppendMember(members, SOURCE, Quote(a.source));
    members := AppendMember(members, TYPE, Quote(a.eventType));
  }

  lemma NoMembers()
    ensures Distinct<bytes>([])
  {
  }

  lemma PutTime(m: map<bytes, bytes>, env: Env, t: Option<Instant>)
    ensures m + QuoteAll(TimeText(env, t)) == if t.None? then m else m[TIME := Quote(env.formatTime(t.value))]
  {
    hide Quote, TIME;
  }

  lemma RequiredKeys(a: Attributes)
    ensures QuoteAll(RequiredTexts(a)).Keys == {SPECVERSION, ID, SOURCE, TYPE}
  {
    hide Quote, SPECVERSION, ID, SOURCE, TYPE, RequiredTexts;
    RequiredLookup(a);
  }

  /** No name is appended twice. */
  lemma StandardApart(e: Event)
    ensures var a := e.attributes;
      var r, c := QuoteAll(RequiredTexts(a)), QuoteAll(Optional(DATACONTENTTYPE, WrittenContentType(e)));
      var s, u := QuoteAll(Optional(DATASCHEMA, a.dataSchema)), QuoteAll(Optional(SUBJECT, a.subject));
      && DATACONTENTTYPE !in r && DATASCHEMA !in r + c && SUBJECT !in r + c + s && TIME !in r + c + s + u
  {
    hide Quote, QuoteAll, RequiredTexts, Optional, WrittenContentType;
    RequiredKeys(e.attributes);
    QuotedOptional(DATACONTENTTYPE, WrittenContentType(e));
    QuotedOptional(DATASCHEMA, e.attributes.dataSchema);
    QuotedOptional(SUBJECT, e.attributes.subject);
    ReservedNames();
    hide SPECVERSION, ID, SOURCE, TYPE, DATACONTENTTYPE, DATASCHEMA, SUBJECT, TIME, DATA, DATA_BASE64;
  }

  /** The standard attributes in the order of the code. */
  method CollectStandard(env: Env, e: Event) returns (members: seq<Entry<bytes>>)
    ensures Distinct(members)
    ensures ToMap(members) ==
      QuoteAll(StandardTexts(env, e.attributes)) + QuoteAll(Optional(DATACONTENTTYPE, WrittenContentType(e)))
  {
    hide Quote, QuoteAll, RequiredTexts, Distinct, ToMap, StandardTexts, TimeText, Optional, WrittenContentType;
    hide SPECVERSION, ID, SOURCE, TYPE, DATACONTENTTYPE, DATASCHEMA, SUBJECT, TIME, DATA, DATA_BASE64, VERSION;
    var a := e.attributes;
    StandardApart(e);
    members := CollectRequired(a);
    members := AppendOptional(members, DATACONTENTTYPE, WrittenContentType(e));
    members := AppendOptional(members, DATASCHEMA, a.dataSchema);
    members := AppendOptional(members, SUBJECT, a.subject);
    PutTime(ToMap(members), env, a.time);
    if a.time.Some? {
      members := AppendMember(members, TIME, Quote(env.formatTime(a.time.value)));
    }
    StandardQuoted(env, e);
  }

  /** The member list of `encodeJSON`, unsorted. */
  method CollectMembers(env: Env, e: Event) returns (members: seq<Entry<bytes>>)
    requires ValidEvent(env, e)
    ensures Distinct(members) && ToMap(members) == JsonMembers(env, e)
  {
    hide Quote, ToMap, ExtensionMembers, ValidEvent, StandardTexts, Distinct, WrittenContentType, QuoteAll, Optional;
    hide DATACONTENTTYPE, DATA, DATA_BASE64, DataMembers;
    MembersApart(env, e);
    members := CollectStandard(env, e);
    members := AppendExtensions(members, e.attributes.extensions);
    members := AppendData(members, e.data);
  }

  /** The data member, if there is data. */
  method AppendData(members: seq<Entry<bytes>>, d: Data) returns (r: seq<Entry<bytes>>)
    requires Distinct(members) && DATA !in ToMap(members) && DATA_BASE64 !in ToMap(members)
    ensures Distinct(r) && ToMap(r) == ToMap(members) + DataMembers(d)
  {
    hide Quote, ToMap, Distinct, DATA, DATA_BASE64, Base64.Encode;
    r := members;
    if d.Present? {
      match d.kind
      case JsonData => r := AppendMember(members, DATA, d.bytes);
      case TextData => r := AppendMember(members, DATA, Quote(d.bytes));
      case BinaryData => r := AppendMember(members, DATA_BASE64, Quote(Base64.Encode(d.bytes)));
    }
  }

  lemma MembersApart(env: Env, e: Event)
    requires ValidEvent(env, e)
    ensures var st := QuoteAll(StandardTexts(env, e.attributes))
      + QuoteAll(Optional(DATACONTENTTYPE, WrittenContentType(e)));
      && st.Keys !! e.attributes.extensions.Keys
      && DATA !in st + ExtensionMembers(e.attributes.extensions)
      && DATA_BASE64 !in st + ExtensionMembers(e.attributes.extensions)
  {
    hide Quote, ExtensionMembers, ValidAttributes, ValidData, StandardTexts, WrittenContentType, QuoteAll, Optional;
    hide DATACONTENTTYPE, DATA, DATA_BASE64, NoReserved, Assigned;
    ValidExtensionsFacts(env, e.attributes);
    MembersDisjoint(env, e);
    DataApart(env, e);
    QuoteAllFacts(StandardTexts(env, e.attributes));
    QuotedOptional(DATACONTENTTYPE, WrittenContentType(e));
    ExtensionMembersFacts(e.attributes.extensions);
  }

  // ---------- writing the buffer ----------

  /** What is still to be written before member `i`. */
  function Pending(es: seq<Entry<bytes>>, named: bool, i: nat): bytes
    requires i <= |es|
    decreases |es| - i
  {
    if i == |es| then [Close(named)]
    else (if i > 0 then [COMMA] else []) + Head(es[i], named) + es[i].value + Pending(es, named, i + 1)
  }

  lemma {:induction false} PendingTail(es: seq<Entry<bytes>>, named: bool, i: nat)
    requires 0 < i < |es|
    ensures Pending(es, named, i) == [COMMA] + PrintChildren(es[i..], named)
    decreases |es| - i
  {
    hide Head;
    var h, x := Head(es[i], named), es[i].value;
    assert es[i..][0] == es[i];
    if i + 1 < |es| {
      PendingTail(es, named, i + 1);
      assert es[i..][1..] == es[i + 1..];
    }
    var rest := Pending(es, named, i + 1);
    assert [COMMA] + h + x + rest == [COMMA] + (h + x + rest);
  }

  lemma PendingAll(es: seq<Entry<bytes>>, named: bool)
    ensures [Open(named)] + Pending(es, named, 0) == PrintContainer(es, named)
  {
    hide Head;
    if es != [] {
      var h, x, rest := Head(es[0], named), es[0].value, Pending(es, named, 1);
      assert [] + h + x + rest == h + x + rest;
      if |es| > 1 {
        PendingTail(es, named, 1);
      }
    }
  }

  /** The writing loop of both encoders: opening bracket, separated children, closing bracket. */
  method WriteContainer(es: seq<Entry<bytes>>, named: bool) returns (encoded: bytes)
    ensures encoded == PrintContainer(es, named)
  {
    hide Quote, Pending, PrintContainer, Head;
    PendingAll(es, named);
    encoded := [Open(named)];
    for i := 0 to |es|
      invariant encoded + Pending(es, named, i) == PrintContainer(es, named)
    {
      ghost var before := encoded;
      if i > 0 {
        encoded := encoded + [COMMA];
      }
      ghost var separated := encoded;
      if named {
        encoded := encoded + Quote(es[i].key);
        encoded := encoded + [COLON];
      }
      WriteHead(separated, es[i], named);
      encoded := encoded + es[i].value;
      WriteStep(before, es, named, i);
    }
    PendingEnd(es, named);
    encoded := encoded + [Close(named)];
  }

  lemma WriteHead(a: bytes, e: Entry<bytes>, named: bool)
    ensures (if named then a + Quote(e.key) + [COLON] else a) == a + Head(e, named)
  {
    hide Quote;
    if named {
      assert a + Quote(e.key) + [COLON] == a + (Quote(e.key) + [COLON]);
    } else {
      assert a + [] == a;
    }
  }

  lemma WriteStep(a: bytes, es: seq<Entry<bytes>>, named: bool, i: nat)
    requires i < |es|
    ensures (if i > 0 then a + [COMMA] else a) + Head(es[i], named) + es[i].value + Pending(es, named, i + 1) ==
      a + Pending(es, named, i)
  {
    hide Head;
    var h, x, rest := Head(es[i], named), es[i].value, Pending(es, named, i + 1);
    if i > 0 {
      assert a + ([COMMA] + h + x + rest) == a + [COMMA] + h + x + rest;
    } else {
      assert a + ([] + h + x + rest) == a + h + x + rest;
    }
  }

  lemma PendingEnd(es: seq<Entry<bytes>>, named: bool)
    ensures Pending(es, named, |es|) == [Close(named)]
  {
  }

  // ---------- the encoder and the decoder ----------

  /** `EncodeJSONWithReport`. */
  method EncodeJSONWithReport(env: Env, e: Event) returns (r: Option<(bytes, seq<Note>)>)
    ensures r == if ValidEvent(env, e) then Some((EncodedText(env, e), JsonReport(env, e))) else None
  {
    hide PrintContainer, JsonMembers, JsonReport, SortedEntries, ValidEvent, ToMap;
    if !ValidEvent(env, e) {
      return None;
    }
    var report := JsonConversionReport(env, e);
    var members := CollectMembers(env, e);
    members := SortEntries(members);
    var encoded := WriteContainer(members, true);
    return Some((encoded, report));
  }

  /** `EncodeJSON`: a valid event without losses, or nothing. */
  method EncodeJSON(env: Env, e: Event) returns (r: Option<bytes>)
    ensures r == if ValidEvent(env, e) && JsonLossless(env, e) then Some(EncodedText(env, e)) else None
  {
    hide EncodedText, JsonReport, ValidEvent, JsonLossless;
    JsonReportEmpty(env, e);
    var encoded := EncodeJSONWithReport(env, e);
    if encoded.None? || encoded.value.1 != [] {
      return None;
    }
    return Some(encoded.value.0);
  }

  /** `EncodeJSONBatchWithReport`: the first invalid event stops the batch. */
  method EncodeJSONBatchWithReport(env: Env, es: seq<Event>) returns (r: Option<(bytes, seq<Note>)>)
    ensures r == if forall i :: 0 <= i < |es| ==> ValidEvent(env, es[i])
      then Some((BatchText(env, es), BatchReport(env, es))) else None
  {
    hide EncodedText, JsonReport, ValidEvent, SortNotes, PrintContainer, EventPrefix, BatchLosses;
    var entries: seq<Entry<bytes>> := [];
    var losses: seq<Note> := [];
    NoLosses(env);
    assert es[..0] == [];
    for i := 0 to |es|
      invariant forall k :: 0 <= k < i ==> ValidEvent(env, es[k])
      invariant |entries| == i && forall k :: 0 <= k < i ==> entries[k] == Entry([], EncodedText(env, es[k]))
      invariant multiset(losses) == multiset(BatchLosses(env, es[..i]))
    {
      var one := EncodeJSONWithReport(env, es[i]);
      if one.None? {
        return None;
      }
      var report := new Note[|one.value.1|](k requires 0 <= k < |one.value.1| => one.value.1[k]);
      assert report[..] == one.value.1;
      PrefixConversionReport(report, EventPrefix(i));
      losses := losses + report[..];
      BatchStep(env, es, i);
      entries := entries + [Entry([], one.value.0)];
    }
    assert es[..|es|] == es;
    assert entries == BatchEntries(env, es);
    var encoded := WriteContainer(entries, false);
    SortNotesForgetsOrder(losses, BatchLosses(env, es));
    return Some((encoded, SortNotes(losses)));
  }

  /** `EncodeJSONBatch`: valid events without losses, or nothing. */
  method EncodeJSONBatch(env: Env, es: seq<Event>) returns (r: Option<bytes>)
    ensures r == if forall i :: 0 <= i < |es| ==> ValidEvent(env, es[i]) && JsonLossless(env, es[i])
      then Some(BatchText(env, es)) else None
  {
    hide BatchText, BatchReport, ValidEvent, JsonLossless;
    BatchReportEmpty(env, es);
    var encoded := EncodeJSONBatchWithReport(env, es);
    if encoded.None? || encoded.value.1 != [] {
      return None;
    }
    return Some(encoded.value.0);
  }

  lemma NoLosses(env: Env)
    ensures BatchLosses(env, []) == []
  {
  }

  lemma BatchStep(env: Env, es: seq<Event>, i: nat)
    requires i < |es|
    ensures BatchLosses(env, es[..i + 1]) ==
      BatchLosses(env, es[..i]) + Prefixed(JsonReport(env, es[i]), EventPrefix(i))
  {
    hide JsonReport, EventPrefix;
    assert es[..i + 1][..i] == es[..i];
  }

  /** The extension loop of `DecodeJSON`: members in any order, until one is rejected. */
  method CollectExtensions(m: map<bytes, bytes>, limits: Limits) returns (r: Option<map<bytes, Attribute>>)
    ensures r == DecodeExtensions(m, limits)
  {
    hide DecodeExtension, Reserved, NULL;
    var extensions: map<bytes, Attribute> := map[];
    var remaining := m.Keys;
    while remaining != {}
      invariant remaining <= m.Keys
      invariant forall n :: n in m && n !in remaining && !Reserved(n) ==> ExtensionAdmitted(n, m[n], limits)
      invariant extensions.Keys == set n | n in m && n !in remaining && !Reserved(n) && m[n] != NULL
      invariant forall n :: n in extensions ==> DecodeExtension(m[n], limits) == Some(extensions[n])
      decreases remaining
    {
      var n :| n in remaining;
      remaining := remaining - {n};
      if !Reserved(n) {
        if limits.maxAttributeNameBytes <= 0 || |n| > limits.maxAttributeNameBytes {
          assert !ExtensionAdmitted(n, m[n], limits);
          return None;
        }
        if m[n] != NULL {
          var a := DecodeExtension(m[n], limits);
          if a.None? {
            assert !ExtensionAdmitted(n, m[n], limits);
            return None;
          }
          extensions := extensions[n := a.value];
        }
      }
    }
    assert ExtensionsAdmitted(m, limits);
    assert extensions == DecodeExtensions(m, limits).value;
    return Some(extensions);
  }

  /** `DecodeJSON`. */
  method DecodeJSON(env: Env, value: bytes, limits: Limits) returns (r: Option<Event>)
    ensures r == DecodeText(env, value, limits)
  {
    hide ParseDocument, JsonWalk.Tokens, RawMembers, StringMember, DecodeExtensions, DecodeData, NewEvent;
    hide CountAttributes, SPECVERSION, ID, SOURCE, TYPE, DATACONTENTTYPE, DATASCHEMA, SUBJECT, TIME, VERSION, TimeOf;
    hide JsonWalk.Inspect;
    if limits.maxEventBytes <= 0 || |value| > limits.maxEventBytes {
      return None;
    }
    var d := ParseDocument(value);
    if d.None? {
      return None;
    }
    var ok := JsonWalk.InspectJSON(JsonWalk.Tokens(d.value.value), limits.maxDepth);
    if !ok || !d.value.value.Container? || !d.value.value.named {
      return None;
    }
    var m := RawMembers(d.value.value.children);
    if limits.maxAttributes <= 0 || CountAttributes(m) > limits.maxAttributes {
      return None;
    }
    var version := StringMember(m, SPECVERSION, limits);
    if !version.Found? || version.text != VERSION {
      return None;
    }
    var id := StringMember(m, ID, limits);
    var source := StringMember(m, SOURCE, limits);
    var eventType := StringMember(m, TYPE, limits);
    if !id.Found? || !source.Found? || !eventType.Found? {
      return None;
    }
    var contentType := OptionalText(StringMember(m, DATACONTENTTYPE, limits));
    var dataSchema := OptionalText(StringMember(m, DATASCHEMA, limits));
    var subject := OptionalText(StringMember(m, SUBJECT, limits));
    var time := TimeOf(env, StringMember(m, TIME, limits));
    if contentType.None? || dataSchema.None? || subject.None? || time.None? {
      return None;
    }
    var extensions := CollectExtensions(m, limits);
    if extensions.None? {
      return None;
    }
    var data := DecodeData(env, m, contentType.value, limits);
    if data.None? {
      return None;
    }
    return NewEvent(env, Attributes(id.text, source.text, eventType.text, contentType.value, dataSchema.value,
                                    subject.value, time.value, extensions.value), data.value);
  }
}
