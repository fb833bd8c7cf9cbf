/** The JSON loss report is exact: decoding an encoded event gives the event back if and only
    if the report is empty, the two texts that are not checked on construction are valid
    UTF-8, the time survives formatting, and the limits admit the event. */
module JsonRoundTrip {
  import opened Bytes
  import opened Order
  import opened Event
  import opened Conversion
  import opened Admission
  import opened JsonString
  import opened JsonText
  import opened JsonDocument
  import opened JsonCodec
  import JsonWalk
  import Decimal
  import Base64
  import Utf8

  // ---------- the members that are written are JSON texts ----------

  /** A text after it went through a literal. */
  function Reread(x: bytes): bytes { Unescape(Escape(x)) }

  lemma RereadSame(x: bytes)
    ensures Reread(x) == x <==> Utf8.Valid(x)
  {
    UnescapeValid(Escape(x));
    if Utf8.Valid(x) {
      UnescapeEscape(x);
    }
  }

  lemma QuoteIsDocument(x: bytes)
    ensures ParseDocument(Quote(x)) == Some(Document(String(Reread(x)), Quote(x)))
  {
    hide Escape, Unescape, LiteralEnd;
    var s := Quote(x);
    assert StandsAt(s, s, 0);
    LiteralAt(x, s, 0);
    assert SpaceEnd(s, 0) == 0 && SpaceEnd(s, |s|) == |s|;
    assert s[0..|s|] == s;
  }

  lemma WordIsDocument(b: bool)
    ensures var s := if b then TRUE else FALSE;
      ParseDocument(s) == Some(Document(Bool(b), s))
  {
    var s := if b then TRUE else FALSE;
    assert s[0..|s|] == s;
    FirstByte(s, 0);
    assert SpaceEnd(s, 0) == 0 && SpaceEnd(s, |s|) == |s|;
    assert TRUE[0] == 0x74 && FALSE[0] == 0x66;
  }

  /** What a valid extension is written as, and what reading that yields. */
  lemma ExtensionIsDocument(env: Env, a: Attribute)
    requires ValidAttribute(env, a)
    ensures var x := ExtensionMember(a);
      && x != [] && (x[0] == QUOTE <==> a.kind != KindBoolean && a.kind != KindInteger)
      && ParseDocument(x) == Some(Document(
           if a.kind == KindBoolean then Bool(a.text == TRUE)
           else if a.kind == KindInteger then Number(a.text)
           else String(Reread(a.text)), x))
  {
    hide ParseDocument, Reread;
    if a.kind == KindBoolean {
      WordIsDocument(a.text == TRUE);
      assert TRUE[0] == 0x74 && FALSE[0] == 0x66;
    } else if a.kind == KindInteger {
      var v := Decimal.ParseInt32(a.text).value;
      Decimal.FormatIsDocument(v);
      assert a.text[0] == MINUS || IsDigit(a.text[0]);
    } else {
      QuoteIsDocument(a.text);
    }
  }

  // ---------- looking members up ----------

  predicate Assigned(x: map<bytes, Attribute>) {
    forall n :: n in x ==> x[n].kind != KindUnassigned
  }

  lemma ValidExtensionsFacts(env: Env, a: Attributes)
    requires ValidAttributes(env, a)
    ensures NoReserved(a.extensions) && Assigned(a.extensions)
    ensures forall n :: n in a.extensions ==> ValidName(n) && ValidAttribute(env, a.extensions[n])
  {
    hide ValidName, Reserved, ValidCore, ValidSelected;
    forall n | n in a.extensions
      ensures ValidName(n) && !Reserved(n) && ValidAttribute(env, a.extensions[n])
      ensures a.extensions[n].kind != KindUnassigned
    {
      assert ValidExtension(env, n, a.extensions[n]);
    }
  }

  /** The names of the data member, if any. */
  function DataName(d: Data): set<bytes> {
    match d
    case Absent => {}
    case Present(BinaryData, _) => {DATA_BASE64}
    case _ => {DATA}
  }

  lemma MembersLookup(env: Env, e: Event)
    requires NoReserved(e.attributes.extensions) && Assigned(e.attributes.extensions)
    ensures var m, st := JsonMembers(env, e), StandardTexts(env, e.attributes);
      var w, x := WrittenContentType(e), e.attributes.extensions;
      && m.Keys == st.Keys + (if w == [] then {} else {DATACONTENTTYPE}) + x.Keys + DataName(e.data)
      && (forall k :: k in st ==> m[k] == Quote(st[k]))
      && (w != [] ==> m[DATACONTENTTYPE] == Quote(w))
      && (forall n :: n in x ==> m[n] == ExtensionMember(x[n]))
      && (forall k :: k in DataName(e.data) ==> k in DataMembers(e.data) && m[k] == DataMembers(e.data)[k])
  {
    hide StandardTexts, WrittenContentType, Quote, ExtensionMember, DataName, DataMembers, QuoteAll, ExtensionMembers;
    hide Optional, NoReserved, Assigned, Reserved, SPECVERSION, ID, SOURCE, TYPE, DATACONTENTTYPE, DATASCHEMA, SUBJECT;
    hide TIME, DATA, DATA_BASE64, VERSION;
    var a := QuoteAll(StandardTexts(env, e.attributes));
    var b := QuoteAll(Optional(DATACONTENTTYPE, WrittenContentType(e)));
    var c := ExtensionMembers(e.attributes.extensions);
    var d := DataMembers(e.data);
    DataKeys(e.data);
    MembersDisjoint(env, e);
    QuoteAllFacts(StandardTexts(env, e.attributes));
    QuotedOptional(DATACONTENTTYPE, WrittenContentType(e));
    ExtensionMembersFacts(e.attributes.extensions);
    DisjointUnion(a, b, c, d);
  }

  lemma QuotedOptional(name: bytes, text: bytes)
    ensures var m := QuoteAll(Optional(name, text));
      && m.Keys == (if text == [] then {} else {name})
      && (text != [] ==> m[name] == Quote(text))
  {
    hide Quote;
  }

  lemma QuoteAllFacts(m: map<bytes, bytes>)
    ensures QuoteAll(m).Keys == m.Keys && forall k :: k in m ==> QuoteAll(m)[k] == Quote(m[k])
  {
  }

  lemma ExtensionMembersFacts(x: map<bytes, Attribute>)
    requires Assigned(x)
    ensures ExtensionMembers(x).Keys == x.Keys && forall n :: n in x ==> ExtensionMembers(x)[n] == ExtensionMember(x[n])
  {
  }

  lemma MembersDisjoint(env: Env, e: Event)
    requires NoReserved(e.attributes.extensions)
    ensures var st, x := StandardTexts(env, e.attributes), e.attributes.extensions;
      && DATACONTENTTYPE !in st && DATACONTENTTYPE !in x && DATACONTENTTYPE !in DataName(e.data)
      && st.Keys !! x.Keys && st.Keys !! DataName(e.data) && x.Keys !! DataName(e.data)
  {
    hide StandardTexts, SPECVERSION, ID, SOURCE, TYPE, DATACONTENTTYPE, DATASCHEMA, SUBJECT, TIME, DATA, DATA_BASE64;
    StandardKeys(env, e.attributes);
    ReservedNames();
  }

  lemma DisjointUnion(a: map<bytes, bytes>, b: map<bytes, bytes>, c: map<bytes, bytes>, d: map<bytes, bytes>)
    requires a.Keys !! b.Keys && a.Keys !! c.Keys && a.Keys !! d.Keys
    requires b.Keys !! c.Keys && b.Keys !! d.Keys && c.Keys !! d.Keys
    ensures var m := a + b + c + d;
      && m.Keys == a.Keys + b.Keys + c.Keys + d.Keys
      && (forall k :: k in a ==> m[k] == a[k]) && (forall k :: k in b ==> m[k] == b[k])
      && (forall k :: k in c ==> m[k] == c[k]) && (forall k :: k in d ==> m[k] == d[k])
  {
  }

  lemma DataKeys(d: Data)
    ensures DataMembers(d).Keys == DataName(d)
  {
    hide Quote, Base64.Encode;
  }

  // ---------- reading the printed object ----------

  predicate Documents(m: map<bytes, bytes>) {
    forall k :: k in m ==> IsValid(m[k]) && Utf8.Valid(k)
  }

  /** Each member without the white space around it. */
  function Cores(m: map<bytes, bytes>): map<bytes, bytes>
    requires Documents(m)
  {
    map k | k in m :: ParseDocument(m[k]).value.core
  }

  lemma SortedPrintable(m: map<bytes, bytes>)
    requires Documents(m)
    ensures AllPrintable(SortedEntries(m), true)
    ensures var es := SortedEntries(m); forall i :: 0 <= i < |es| ==> es[i].key in m && m[es[i].key] == es[i].value
  {
    hide ToMap, SortedEntries, ParseDocument, Utf8.Valid;
    var es := SortedEntries(m);
    AscendingDistinct(es);
    forall i | 0 <= i < |es| ensures es[i].key in m && m[es[i].key] == es[i].value && Printable(es[i], true) {
      ValueStored(es, i);
    }
  }

  /** The children of the printed object. */
  ghost function SortedChildren(m: map<bytes, bytes>): seq<Child>
    requires Documents(m)
  {
    SortedPrintable(m);
    ChildrenOf(SortedEntries(m), true)
  }

  lemma RawOfSorted(m: map<bytes, bytes>)
    requires Documents(m)
    ensures RawMembers(SortedChildren(m)) == Cores(m)
  {
    hide ToMap, SortedEntries, ParseDocument, Printable, IsValid, Documents, Utf8.Valid;
    SortedPrintable(m);
    var es := SortedEntries(m);
    var fs := RawEntries(ChildrenOf(es, true));
    AscendingDistinct(es);
    assert Distinct(fs);
    var r := ToMap(fs);
    forall k | k in m ensures k in r && r[k] == Cores(m)[k] {
      var i := KeyAt(es, k);
      ValueStored(fs, i);
    }
    forall k | k in r ensures k in m {
      var i := KeyAt(fs, k);
      KeyStored(es, i);
    }
  }

  lemma NamesOfSorted(m: map<bytes, bytes>)
    requires Documents(m)
    ensures JsonWalk.DistinctNames(SortedChildren(m))
  {
    hide ToMap, SortedEntries, ParseDocument, Documents, Printable;
    SortedPrintable(m);
    AscendingDistinct(SortedEntries(m));
  }

  function MemberDepth(x: bytes): nat
    requires IsValid(x)
  {
    Depth(ParseDocument(x).value.value)
  }

  lemma DepthOfSorted(m: map<bytes, bytes>, n: int)
    requires Documents(m)
    ensures ChildDepth(SortedChildren(m)) <= n <==>
      0 <= n && forall k :: k in m ==> MemberDepth(m[k]) <= n
  {
    hide ToMap, SortedEntries, ParseDocument, Printable, Utf8.Valid, Depth;
    SortedPrintable(m);
    var es := SortedEntries(m);
    var cs := ChildrenOf(es, true);
    JsonWalk.ChildDepthBound(cs, n);
    if ChildDepth(cs) <= n {
      forall k | k in m ensures MemberDepth(m[k]) <= n {
        var i := KeyAt(es, k);
        assert Depth(cs[i].value) <= n;
      }
    }
    if 0 <= n && forall k :: k in m ==> MemberDepth(m[k]) <= n {
      forall i | 0 <= i < |cs| ensures Depth(cs[i].value) <= n {
        assert MemberDepth(m[es[i].key]) <= n;
      }
    }
  }

  /** Decoding a printed object is decoding its members, within the size and depth limits. */
  lemma DecodePrinted(env: Env, m: map<bytes, bytes>, limits: Limits)
    requires Documents(m)
    ensures var s := PrintContainer(SortedEntries(m), true);
      DecodeText(env, s, limits) ==
        if |s| <= limits.maxEventBytes && 1 <= limits.maxDepth
          && (forall k :: k in m ==> MemberDepth(m[k]) <= limits.maxDepth - 1)
        then DecodeMembers(env, Cores(m), limits) else None
  {
    hide SortedEntries, ParseDocument, Printable, Documents, DecodeMembers, Cores, PrintChildren, ChildrenOf;
    hide JsonWalk.Inspect, JsonWalk.Tokens, MemberDepth, RawMembers, ChildDepth, IsValid;
    SortedPrintable(m);
    var es := SortedEntries(m);
    var cs := ChildrenOf(es, true);
    PrintedContainer(es, true);
    RawOfSorted(m);
    NamesOfSorted(m);
    DepthOfSorted(m, limits.maxDepth - 1);
    JsonWalk.InspectDocument(Container(true, cs), limits.maxDepth);
    assert Depth(Container(true, cs)) == 1 + ChildDepth(cs);
  }

  // ---------- the members of a valid event ----------

  lemma ReservedUtf8()
    ensures Utf8.Valid(SPECVERSION) && Utf8.Valid(ID) && Utf8.Valid(SOURCE) && Utf8.Valid(TYPE)
    ensures Utf8.Valid(DATASCHEMA)
    ensures Utf8.Valid(SUBJECT) && Utf8.Valid(TIME) && Utf8.Valid(DATACONTENTTYPE) && Utf8.Valid(DATA)
    ensures Utf8.Valid(DATA_BASE64)
  {
    hide Utf8.Valid;
    Utf8.ValidAscii(SPECVERSION); Utf8.ValidAscii(ID); Utf8.ValidAscii(SOURCE); Utf8.ValidAscii(TYPE);
    Utf8.ValidAscii(DATASCHEMA); Utf8.ValidAscii(SUBJECT); Utf8.ValidAscii(TIME); Utf8.ValidAscii(DATACONTENTTYPE);
    Utf8.ValidAscii(DATA); Utf8.ValidAscii(DATA_BASE64);
  }

  lemma MemberKeys(env: Env, e: Event, k: bytes)
    requires NoReserved(e.attributes.extensions) && Assigned(e.attributes.extensions) && k in JsonMembers(env, e)
    ensures
      || k in StandardTexts(env, e.attributes) || k in e.attributes.extensions
      || k == DATACONTENTTYPE || k == DATA || k == DATA_BASE64
  {
    hide JsonMembers, StandardTexts, WrittenContentType, DataMembers, ExtensionMember, Quote;
    MembersLookup(env, e);
  }

  lemma NamesUtf8(env: Env, e: Event)
    requires ValidEvent(env, e)
    ensures forall k :: k in JsonMembers(env, e) ==> Utf8.Valid(k)
  {
    hide JsonMembers, StandardTexts, Utf8.Valid, ValidName, ValidAttributes, ValidData, SPECVERSION, ID, SOURCE, TYPE;
    hide DATACONTENTTYPE, DATASCHEMA, SUBJECT, TIME, VERSION, DATA, DATA_BASE64;
    ValidExtensionsFacts(env, e.attributes);
    forall k | k in JsonMembers(env, e) ensures Utf8.Valid(k) {
      MemberKeys(env, e, k);
      if k in e.attributes.extensions {
        ValidNameAscii(k);
      } else {
        StandardKeys(env, e.attributes);
        ReservedUtf8();
      }
    }
  }

  lemma DataIsDocument(d: Data, k: bytes)
    requires ValidData(d) && k in DataMembers(d)
    ensures var x := DataMembers(d)[k];
      && IsValid(x)
      && (d.kind == JsonData ==> x == d.bytes)
      && (d.kind == TextData ==> ParseDocument(x) == Some(Document(String(Reread(d.bytes)), Quote(d.bytes))))
      && (d.kind == BinaryData ==>
            ParseDocument(x) == Some(Document(String(Reread(Base64.Encode(d.bytes))), Quote(Base64.Encode(d.bytes)))))
  {
    hide ParseDocument, Quote, Reread, Base64.Encode;
    match d.kind
    case JsonData =>
    case TextData => QuoteIsDocument(d.bytes);
    case BinaryData => QuoteIsDocument(Base64.Encode(d.bytes));
  }

  /** Every member is a JSON text; only a JSON payload can have white space around it or nest. */
  lemma MemberDocuments(env: Env, e: Event)
    requires ValidEvent(env, e)
    ensures var m := JsonMembers(env, e);
      forall k :: k in m ==>
        && IsValid(m[k])
        && (!(e.data.Present? && e.data.kind == JsonData && k == DATA) ==>
              ParseDocument(m[k]).value.core == m[k] && !ParseDocument(m[k]).value.value.Container?)
  {
    hide JsonMembers, StandardTexts, ParseDocument, ValidAttributes, WrittenContentType, Quote, ExtensionMember;
    hide DataMembers, Reread;
    ValidExtensionsFacts(env, e.attributes);
    MembersLookup(env, e);
    var m, st, x := JsonMembers(env, e), StandardTexts(env, e.attributes), e.attributes.extensions;
    forall k | k in m ensures
      && IsValid(m[k])
      && (!(e.data.Present? && e.data.kind == JsonData && k == DATA) ==>
            ParseDocument(m[k]).value.core == m[k] && !ParseDocument(m[k]).value.value.Container?)
    {
      if k in st {
        QuoteIsDocument(st[k]);
      } else if k in x {
        ExtensionIsDocument(env, x[k]);
      } else if k in DataName(e.data) {
        DataIsDocument(e.data, k);
        DataMemberText(e.data, k);
      } else {
        QuoteIsDocument(WrittenContentType(e));
      }
    }
  }

  lemma DataMemberText(d: Data, k: bytes)
    requires k in DataMembers(d)
    ensures d.kind == TextData ==> DataMembers(d)[k] == Quote(d.bytes)
    ensures d.kind == BinaryData ==> DataMembers(d)[k] == Quote(Base64.Encode(d.bytes))
    ensures d.kind != BinaryData ==> k == DATA
    ensures d.kind == BinaryData ==> k == DATA_BASE64
  {
    hide Quote, Base64.Encode;
  }

  lemma EventDocuments(env: Env, e: Event)
    requires ValidEvent(env, e)
    ensures Documents(JsonMembers(env, e))
  {
    hide JsonMembers, ParseDocument, Utf8.Valid, ValidEvent;
    NamesUtf8(env, e);
    MemberDocuments(env, e);
  }

  /** The members as the decoder finds them. */
  ghost function ReadMembers(env: Env, e: Event): map<bytes, bytes>
    requires ValidEvent(env, e)
  {
    EventDocuments(env, e);
    Cores(JsonMembers(env, e))
  }

  lemma ReadLookup(env: Env, e: Event)
    requires ValidEvent(env, e)
    ensures var m, r := JsonMembers(env, e), ReadMembers(env, e);
      && r.Keys == m.Keys
      && (forall k :: k in m && !(e.data.Present? && e.data.kind == JsonData && k == DATA) ==> r[k] == m[k])
      && (e.data.Present? && e.data.kind == JsonData ==> DATA in r && r[DATA] == TrimSpace(e.data.bytes))
  {
    hide JsonMembers, ParseDocument, Utf8.Valid, TrimSpace, ValidAttributes;
    EventDocuments(env, e);
    MemberDocuments(env, e);
    if e.data.Present? && e.data.kind == JsonData {
      ValidExtensionsFacts(env, e.attributes);
      MembersLookup(env, e);
      TrimDocument(e.data.bytes);
    }
  }

  // ---------- reading fields back ----------

  predicate Fits(text: bytes, limits: Limits) {
    0 < limits.maxAttributeValueBytes && |text| <= limits.maxAttributeValueBytes
  }

  lemma QuotedField(m: map<bytes, bytes>, name: bytes, x: bytes, limits: Limits)
    requires name in m && m[name] == Quote(x)
    ensures StringMember(m, name, limits) == if Fits(Reread(x), limits) then Found(Reread(x)) else Rejected
  {
    hide ParseDocument, Escape, Unescape, ExceedsEncodedLimit;
    QuoteIsDocument(x);
    assert NULL[0] != QUOTE;
    EscapeIsBody(x);
    TwoStageAdmission(Escape(x), limits.maxAttributeValueBytes);
    assert |Quote(x)| == |Escape(x)| + 2;
  }

  lemma RequiredField(m: map<bytes, bytes>, name: bytes, x: bytes, limits: Limits)
    requires name in m && m[name] == Quote(x) && Utf8.Valid(x)
    ensures Required(StringMember(m, name, limits)) == Some(x) <==> Fits(x, limits)
  {
    hide StringMember, Reread, Quote;
    QuotedField(m, name, x, limits);
    RereadSame(x);
  }

  lemma OptionalField(m: map<bytes, bytes>, name: bytes, x: bytes, limits: Limits)
    requires if x == [] then name !in m else name in m && m[name] == Quote(x)
    ensures OptionalText(StringMember(m, name, limits)) == Some(x) <==> x == [] || (Utf8.Valid(x) && Fits(x, limits))
  {
    if x != [] {
      hide StringMember, Reread, Quote;
      QuotedField(m, name, x, limits);
      RereadSame(x);
    }
  }

  /** Undeclared text data is written with a content type, so it cannot come back undeclared. */
  lemma ContentTypeField(m: map<bytes, bytes>, e: Event, limits: Limits)
    requires var w := WrittenContentType(e);
      if w == [] then DATACONTENTTYPE !in m else DATACONTENTTYPE in m && m[DATACONTENTTYPE] == Quote(w)
    ensures var ct := e.attributes.dataContentType;
      OptionalText(StringMember(m, DATACONTENTTYPE, limits)) == Some(ct) <==>
        ct == WrittenContentType(e) && (ct == [] || (Utf8.Valid(ct) && Fits(ct, limits)))
  {
    hide StringMember, Reread, Quote, Utf8.Valid;
    var ct, w := e.attributes.dataContentType, WrittenContentType(e);
    OptionalField(m, DATACONTENTTYPE, w, limits);
    if ct != w {
      QuotedField(m, DATACONTENTTYPE, w, limits);
      assert IsAscii(ImplicitContentType(TextData));
      Utf8.ValidAscii(w);
      RereadSame(w);
    }
  }

  lemma TimeField(env: Env, m: map<bytes, bytes>, t: Option<Instant>, limits: Limits)
    requires AsciiTime(env, t)
    requires if t.None? then TIME !in m else TIME in m && m[TIME] == Quote(env.formatTime(t.value))
    ensures TimeOf(env, StringMember(m, TIME, limits)) == Some(t) <==>
      t.None? || (Fits(env.formatTime(t.value), limits) && env.parseTime(env.formatTime(t.value)) == t)
  {
    if t.Some? {
      var x := env.formatTime(t.value);
      hide StringMember, Reread, Quote;
      Utf8.ValidAscii(x);
      QuotedField(m, TIME, x, limits);
      RereadSame(x);
    }
  }

  lemma ReadExtension(env: Env, a: Attribute, limits: Limits)
    requires ValidAttribute(env, a)
    ensures ExtensionMember(a) != NULL
    ensures DecodeExtension(ExtensionMember(a), limits) == Some(a) <==> KeptByJson(a.kind) && Fits(a.text, limits)
  {
    hide ParseDocument, Escape, Unescape, ExceedsEncodedLimit, Decimal.ParseInt32, Decimal.FormatInt, Utf8.Valid;
    hide CloudScalars;
    var x, limit := ExtensionMember(a), limits.maxAttributeValueBytes;
    ExtensionIsDocument(env, a);
    WordsDiffer();
    if a.kind == KindInteger {
      assert ParseDocument(NULL) == Some(Document(Null, NULL)) by { NullIsDocument(); }
      Decimal.ParseRange(a.text);
    } else if a.kind != KindBoolean {
      assert NULL[0] != QUOTE;
      assert |x| == |Escape(a.text)| + 2;
      EscapeIsBody(a.text);
      TwoStageAdmission(Escape(a.text), limit);
      RereadSame(a.text);
    }
  }

  lemma WordsDiffer()
    ensures NULL != TRUE && NULL != FALSE && TRUE != FALSE && NULL != [] && TRUE != [] && FALSE != []
  {
    assert NULL[0] != TRUE[0] && NULL[0] != FALSE[0];
  }

  lemma NullIsDocument()
    ensures ParseDocument(NULL) == Some(Document(Null, NULL))
  {
    var s := NULL;
    assert s[0..|s|] == s;
    assert s[0] == 0x6E;
    assert SpaceEnd(s, 0) == 0 && SpaceEnd(s, |s|) == |s|;
  }

  predicate ExtensionsFit(x: map<bytes, Attribute>, limits: Limits) {
    forall n :: n in x ==> |n| <= limits.maxAttributeNameBytes && Fits(x[n].text, limits)
  }

  lemma ReadExtensions(env: Env, m: map<bytes, bytes>, x: map<bytes, Attribute>, limits: Limits)
    requires forall n :: n in x ==> ValidName(n) && !Reserved(n) && ValidAttribute(env, x[n])
    requires forall n :: n in x ==> n in m && m[n] == ExtensionMember(x[n])
    requires forall n :: n in m && !Reserved(n) ==> n in x
    ensures DecodeExtensions(m, limits) == Some(x) <==>
      (forall n :: n in x ==> KeptByJson(x[n].kind)) && ExtensionsFit(x, limits)
  {
    hide DecodeExtension, ExtensionMember, Reserved, KeptByJson, Fits;
    forall n | n in x
      ensures m[n] != NULL
      ensures DecodeExtension(m[n], limits) == Some(x[n]) <==> KeptByJson(x[n].kind) && Fits(x[n].text, limits)
    {
      ReadExtension(env, x[n], limits);
    }
    if DecodeExtensions(m, limits) == Some(x) {
      forall n | n in x
        ensures KeptByJson(x[n].kind) && |n| <= limits.maxAttributeNameBytes && Fits(x[n].text, limits)
      {
        assert ExtensionAdmitted(n, m[n], limits);
        assert x[n] == DecodeExtension(m[n], limits).value;
      }
    }
    if (forall n :: n in x ==> KeptByJson(x[n].kind)) && ExtensionsFit(x, limits) {
      forall n | n in m && !Reserved(n) ensures ExtensionAdmitted(n, m[n], limits) {
        assert KeptByJson(x[n].kind);
        assert |n| > 0;
      }
      var r := DecodeExtensions(m, limits).value;
      assert r.Keys == x.Keys;
      forall n | n in x ensures r[n] == x[n] {
        assert KeptByJson(x[n].kind);
      }
      assert r == x;
    }
  }

  predicate DataFits(d: Data, limits: Limits) {
    d.Present? ==> 0 < limits.maxDataBytes && |d.bytes| <= limits.maxDataBytes
  }

  lemma ReadBinaryData(b: bytes, limits: Limits)
    ensures DecodeBase64Data(Quote(Base64.Encode(b)), limits) ==
      if 0 < limits.maxDataBytes && |b| <= limits.maxDataBytes then Some(Present(BinaryData, b)) else None
  {
    hide ParseDocument, Quote, Base64.Encode, Base64.Decode, Escape, Unescape;
    var text := Base64.Encode(b);
    QuoteIsDocument(text);
    Base64.AsciiText(b);
    Utf8.ValidAscii(text);
    RereadSame(text);
    Base64.EncodeUnbroken(b);
    Base64.DecodeEncode(b);
    Base64.EncodeDecode(text);
    QuoteNotNull(text);
  }

  lemma QuoteNotNull(x: bytes)
    ensures Quote(x) != NULL
  {
    assert NULL[0] != QUOTE;
  }

  lemma ReadTextData(env: Env, b: bytes, contentType: bytes, limits: Limits)
    requires Utf8.Valid(b)
    ensures DecodePlainData(env, Quote(b), contentType, limits) == Some(Present(TextData, b)) <==>
      !IsJsonMediaType(env, contentType) && 0 < limits.maxDataBytes && |b| <= limits.maxDataBytes
  {
    hide ParseDocument, Escape, Unescape, ExceedsEncodedLimit, IsJsonMediaType, Quote, IsBody, Utf8.Valid;
    QuoteIsDocument(b);
    RereadSame(b);
    EscapeIsBody(b);
    TwoStageAdmission(Escape(b), limits.maxDataBytes);
    QuoteLength(b);
  }

  lemma QuoteLength(b: bytes)
    ensures |Quote(b)| == |Escape(b)| + 2
  {
    hide Escape;
  }

  lemma ReadJsonData(env: Env, b: bytes, contentType: bytes, limits: Limits)
    requires IsValid(b)
    ensures DecodePlainData(env, TrimSpace(b), contentType, limits) == Some(Present(JsonData, b)) <==>
      b == TrimSpace(b) && IsJsonMediaType(env, contentType) && 0 < limits.maxDataBytes && |b| <= limits.maxDataBytes
  {
    hide ParseDocument, TrimSpace, ExceedsEncodedLimit, IsJsonMediaType;
  }

  /** The data comes back exactly when its kind fits the content type and it needs no trimming. */
  lemma ReadData(env: Env, m: map<bytes, bytes>, e: Event, limits: Limits)
    requires ValidData(e.data)
    requires forall k :: k in m && (k == DATA || k == DATA_BASE64) ==> k in DataName(e.data)
    requires forall k :: k in DataName(e.data) ==>
      (k in m && k in DataMembers(e.data) &&
       m[k] == if e.data.kind == JsonData then TrimSpace(e.data.bytes) else DataMembers(e.data)[k])
    ensures DecodeData(env, m, e.attributes.dataContentType, limits) == Some(e.data) <==>
      JsonDataKept(env, e) && DataFits(e.data, limits)
  {
    hide TrimSpace, IsJsonMediaType, Quote, IsValid, Utf8.Valid, DecodePlainData, DecodeBase64Data, Base64.Encode, DATA;
    hide DATA_BASE64;
    ReservedNames();
    var ct := e.attributes.dataContentType;
    if e.data.Present? {
      var b := e.data.bytes;
      if e.data.kind == BinaryData {
        assert DATA_BASE64 in m && DATA !in m;
        DataMemberText(e.data, DATA_BASE64);
        ReadBinaryData(b, limits);
      } else {
        assert DATA in m && DATA_BASE64 !in m;
        DataMemberText(e.data, DATA);
        if e.data.kind == TextData {
          ReadTextData(env, b, ct, limits);
          EmptyIsJson(env);
        } else {
          ReadJsonData(env, b, ct, limits);
        }
      }
    }
  }

  lemma EmptyIsJson(env: Env)
    ensures IsJsonMediaType(env, [])
  {
  }

  // ---------- the theorem ----------

  function ContentTypeCount(e: Event): nat { if WrittenContentType(e) == [] then 0 else 1 }

  /** Counting names: standard, content type, extensions and data are all apart. */
  lemma CountKeys(st: set<bytes>, extra: set<bytes>, x: set<bytes>, data: set<bytes>, ct: bytes, d: set<bytes>)
    requires st !! x && ct !in st && ct !in x && extra <= {ct} && data <= d
    requires (st + x + {ct}) !! d
    ensures |(st + extra + x + data) - d| == |st + x| + |extra|
  {
    assert (st + extra + x + data) - d == (st + x) + extra;
    assert (st + x) !! extra;
  }

  lemma ReadKeys(env: Env, e: Event)
    requires ValidEvent(env, e)
    ensures ReadMembers(env, e).Keys ==
      StandardTexts(env, e.attributes).Keys + (if WrittenContentType(e) == [] then {} else {DATACONTENTTYPE})
      + e.attributes.extensions.Keys + DataName(e.data)
  {
    hide JsonMembers, StandardTexts, ValidAttributes, WrittenContentType, ReadMembers, ValidData, DataName, DataMembers;
    ValidExtensionsFacts(env, e.attributes);
    MembersLookup(env, e);
    ReadLookup(env, e);
  }

  lemma DataApart(env: Env, e: Event)
    requires NoReserved(e.attributes.extensions)
    ensures
      (StandardTexts(env, e.attributes).Keys + e.attributes.extensions.Keys + {DATACONTENTTYPE}) !! {DATA, DATA_BASE64}
  {
    hide StandardTexts, DATA, DATA_BASE64, DATACONTENTTYPE;
    StandardKeys(env, e.attributes);
    DataNames(e.data);
  }

  lemma ContextKeys(env: Env, a: Attributes)
    ensures ContextTexts(env, a).Keys == StandardTexts(env, a).Keys + a.extensions.Keys
  {
    hide StandardTexts;
  }

  lemma CountMembers(env: Env, e: Event)
    requires ValidEvent(env, e)
    ensures CountAttributes(ReadMembers(env, e)) == |ContextTexts(env, e.attributes)| + ContentTypeCount(e)
  {
    hide StandardTexts, ValidAttributes, WrittenContentType, ReadMembers, ValidData, DataName, ContextTexts, DATA;
    hide DATA_BASE64, DATACONTENTTYPE;
    var st, x := StandardTexts(env, e.attributes).Keys, e.attributes.extensions.Keys;
    var extra := if WrittenContentType(e) == [] then {} else {DATACONTENTTYPE};
    var keys := ReadMembers(env, e).Keys;
    assert keys == st + extra + x + DataName(e.data) by { ReadKeys(env, e); }
    assert |keys - {DATA, DATA_BASE64}| == |st + x| + |extra| by {
      ValidExtensionsFacts(env, e.attributes);
      MembersDisjoint(env, e);
      DataApart(env, e);
      DataNames(e.data);
      CountKeys(st, extra, x, DataName(e.data), DATACONTENTTYPE, {DATA, DATA_BASE64});
    }
    ContextKeys(env, e.attributes);
  }

  lemma DataNames(d: Data)
    ensures DataName(d) <= {DATA, DATA_BASE64} && DATACONTENTTYPE != DATA && DATACONTENTTYPE != DATA_BASE64
    ensures Reserved(DATA) && Reserved(DATA_BASE64)
  {
    ReservedNames();
  }

  /** What construction does not check but a literal does not carry: the two texts must be
      valid UTF-8 and the time must survive formatting. */
  predicate Faithful(env: Env, a: Attributes) {
    && Utf8.Valid(a.dataContentType) && Utf8.Valid(a.dataSchema)
    && (a.time.Some? ==> env.parseTime(env.formatTime(a.time.value)) == a.time)
  }

  /** The limits on context attributes admit the event. */
  predicate ContextFits(env: Env, a: Attributes, limits: Limits) {
    && |ContextTexts(env, a)| + (if a.dataContentType == [] then 0 else 1) <= limits.maxAttributes
    && (forall k :: k in ContextTexts(env, a) ==> |ContextTexts(env, a)[k]| <= limits.maxAttributeValueBytes)
    && |a.dataContentType| <= limits.maxAttributeValueBytes
    && (forall n :: n in a.extensions ==> |n| <= limits.maxAttributeNameBytes)
  }

  function DataDepth(d: Data): nat
    requires ValidData(d)
  {
    if d.Present? && d.kind == JsonData then Depth(ParseDocument(d.bytes).value.value) else 0
  }

  ghost predicate JsonAdmits(env: Env, e: Event, limits: Limits)
    requires ValidEvent(env, e)
  {
    && |EncodedText(env, e)| <= limits.maxEventBytes
    && 1 + DataDepth(e.data) <= limits.maxDepth
    && ContextFits(env, e.attributes, limits)
    && DataFits(e.data, limits)
  }

  /** Reading the context members back, field by field. */
  lemma ReadContext(env: Env, e: Event, limits: Limits)
    requires ValidEvent(env, e) && AsciiTime(env, e.attributes.time)
    ensures var m, a := ReadMembers(env, e), e.attributes;
      && (Required(StringMember(m, SPECVERSION, limits)) == Some(VERSION) <==> Fits(VERSION, limits))
      && (Required(StringMember(m, ID, limits)) == Some(a.id) <==> Fits(a.id, limits))
      && (Required(StringMember(m, SOURCE, limits)) == Some(a.source) <==> Fits(a.source, limits))
      && (Required(StringMember(m, TYPE, limits)) == Some(a.eventType) <==> Fits(a.eventType, limits))
      && (OptionalText(StringMember(m, DATACONTENTTYPE, limits)) == Some(a.dataContentType) <==>
            a.dataContentType == WrittenContentType(e) &&
            (a.dataContentType == [] || (Utf8.Valid(a.dataContentType) && Fits(a.dataContentType, limits))))
      && (OptionalText(StringMember(m, DATASCHEMA, limits)) == Some(a.dataSchema) <==>
            a.dataSchema == [] || (Utf8.Valid(a.dataSchema) && Fits(a.dataSchema, limits)))
      && (OptionalText(StringMember(m, SUBJECT, limits)) == Some(a.subject) <==>
            a.subject == [] || Fits(a.subject, limits))
      && (TimeOf(env, StringMember(m, TIME, limits)) == Some(a.time) <==>
            || a.time.None?
            || (Fits(env.formatTime(a.time.value), limits) && env.parseTime(env.formatTime(a.time.value)) == a.time))
  {
    hide StringMember, Required, OptionalText, TimeOf, Fits, ReadMembers, WrittenContentType, CloudScalars, Utf8.Valid;
    hide SPECVERSION, ID, SOURCE, TYPE, DATACONTENTTYPE, DATASCHEMA, SUBJECT, TIME, VERSION, Quote, IsAscii;
    var m, a := ReadMembers(env, e), e.attributes;
    ReadContextMembers(env, e);
    VersionUtf8();
    RequiredField(m, SPECVERSION, VERSION, limits);
    RequiredField(m, ID, a.id, limits);
    RequiredField(m, SOURCE, a.source, limits);
    RequiredField(m, TYPE, a.eventType, limits);
    ContentTypeField(m, e, limits);
    OptionalField(m, DATASCHEMA, a.dataSchema, limits);
    OptionalField(m, SUBJECT, a.subject, limits);
    TimeField(env, m, a.time, limits);
  }

  lemma VersionUtf8()
    ensures Utf8.Valid(VERSION)
  {
    Utf8.ValidAscii(VERSION);
  }

  lemma ReadContextMembers(env: Env, e: Event)
    requires ValidEvent(env, e)
    ensures var m, a, w := ReadMembers(env, e), e.attributes, WrittenContentType(e);
      && SPECVERSION in m && m[SPECVERSION] == Quote(VERSION) && ID in m && m[ID] == Quote(a.id)
      && SOURCE in m && m[SOURCE] == Quote(a.source) && TYPE in m && m[TYPE] == Quote(a.eventType)
      && (if w == [] then DATACONTENTTYPE !in m else DATACONTENTTYPE in m && m[DATACONTENTTYPE] == Quote(w))
      && (if a.dataSchema == [] then DATASCHEMA !in m else DATASCHEMA in m && m[DATASCHEMA] == Quote(a.dataSchema))
      && (if a.subject == [] then SUBJECT !in m else SUBJECT in m && m[SUBJECT] == Quote(a.subject))
      && (if a.time.None? then TIME !in m else TIME in m && m[TIME] == Quote(env.formatTime(a.time.value)))
  {
    hide JsonMembers, StandardTexts, ValidAttributes, WrittenContentType, ReadMembers, ValidData, Quote, DataMembers;
    hide ExtensionMember, SPECVERSION, ID, SOURCE, TYPE, DATACONTENTTYPE, DATASCHEMA, SUBJECT, TIME, VERSION, DATA;
    hide DATA_BASE64;
    ValidExtensionsFacts(env, e.attributes);
    MembersLookup(env, e);
    MembersDisjoint(env, e);
    ReadLookup(env, e);
    StandardLookup(env, e.attributes);
    ReservedNames();
  }

  predicate TextsFit(env: Env, a: Attributes, limits: Limits) {
    && Fits(VERSION, limits) && Fits(a.id, limits) && Fits(a.source, limits) && Fits(a.eventType, limits)
    && (a.dataSchema == [] || Fits(a.dataSchema, limits)) && (a.subject == [] || Fits(a.subject, limits))
    && (a.time.None? || Fits(env.formatTime(a.time.value), limits))
    && (forall n :: n in a.extensions ==> Fits(a.extensions[n].text, limits))
  }

  /** Each field fits exactly when every context text does. */
  lemma ContextTextsFit(env: Env, a: Attributes, limits: Limits)
    requires NoReserved(a.extensions)
    ensures (forall k :: k in ContextTexts(env, a) ==> |ContextTexts(env, a)[k]| <= limits.maxAttributeValueBytes) <==>
      TextsFit(env, a, limits)
  {
    hide ContextTexts, StandardTexts, SPECVERSION, ID, SOURCE, TYPE, DATACONTENTTYPE, DATASCHEMA, SUBJECT, TIME, DATA;
    hide DATA_BASE64;
    var m := ContextTexts(env, a);
    if forall k :: k in m ==> |m[k]| <= limits.maxAttributeValueBytes {
      assert |VERSION| == 3;
      hide VERSION;
      ContextLookup(env, a);
      assert |m[SPECVERSION]| <= limits.maxAttributeValueBytes;
    }
    if TextsFit(env, a, limits) {
      forall k | k in m ensures Fits(m[k], limits) {
        FittingText(env, a, limits, k);
      }
    }
  }

  lemma FittingText(env: Env, a: Attributes, limits: Limits, k: bytes)
    requires NoReserved(a.extensions) && TextsFit(env, a, limits) && k in ContextTexts(env, a)
    ensures Fits(ContextTexts(env, a)[k], limits)
  {
    hide ContextTexts, StandardTexts, SPECVERSION, ID, SOURCE, TYPE, DATACONTENTTYPE, DATASCHEMA, SUBJECT, TIME, DATA;
    hide DATA_BASE64, VERSION, Fits, Reserved;
    ContextLookup(env, a);
    StandardKeys(env, a);
    ContextKeys(env, a);
  }

  /** Decoding the members gives the event back exactly under the stated conditions. */
  lemma MembersExact(env: Env, e: Event, limits: Limits)
    requires ValidEvent(env, e) && AsciiTime(env, e.attributes.time)
    ensures DecodeMembers(env, ReadMembers(env, e), limits) == Some(e) <==>
      && JsonLossless(env, e) && Faithful(env, e.attributes)
      && ContextFits(env, e.attributes, limits) && DataFits(e.data, limits)
  {
    hide DecodeMembers, ReadMembers, StringMember, DecodeExtensions, DecodeData, ContextTexts, ValidAttributes;
    hide ValidData, Required, OptionalText, TimeOf, CountAttributes, DataFits, Utf8.Valid, JsonDataKept, AsciiTime;
    hide SPECVERSION, ID, SOURCE, TYPE, DATACONTENTTYPE, DATASCHEMA, SUBJECT, TIME, DATA, DATA_BASE64, VERSION;
    var m, a := ReadMembers(env, e), e.attributes;
    DecodeMembersParts(env, m, limits, e);
    ReadContext(env, e, limits);
    ReadEventExtensions(env, e, limits);
    ReadEventData(env, e, limits);
    CountMembers(env, e);
    ValidExtensionsFacts(env, a);
    ContextTextsFit(env, a, limits);
    KeptContentType(env, e);
    EmptyUtf8();
    ContextNonEmpty(env, a);
  }

  lemma ContextNonEmpty(env: Env, a: Attributes)
    ensures |ContextTexts(env, a)| > 0
  {
    hide StandardTexts;
    StandardLookup(env, a);
    assert SPECVERSION in ContextTexts(env, a);
  }

  lemma EmptyUtf8()
    ensures Utf8.Valid([])
  {
  }

  lemma KeptContentType(env: Env, e: Event)
    ensures JsonDataKept(env, e) ==> e.attributes.dataContentType == WrittenContentType(e)
    ensures WrittenContentType(e) == [] ==> e.attributes.dataContentType == []
  {
    hide IsJsonMediaType, TrimSpace;
  }

  lemma ReadEventExtensions(env: Env, e: Event, limits: Limits)
    requires ValidEvent(env, e)
    ensures DecodeExtensions(ReadMembers(env, e), limits) == Some(e.attributes.extensions) <==>
      (forall n :: n in e.attributes.extensions ==> KeptByJson(e.attributes.extensions[n].kind))
      && ExtensionsFit(e.attributes.extensions, limits)
  {
    hide ReadMembers, ValidAttributes, ValidData, ExtensionMember, DecodeExtensions, ValidAttribute, ValidName;
    hide KeptByJson, ExtensionsFit, Reserved;
    ValidExtensionsFacts(env, e.attributes);
    ReadExtensionMembers(env, e);
    ReadExtensions(env, ReadMembers(env, e), e.attributes.extensions, limits);
  }

  lemma ReadExtensionMembers(env: Env, e: Event)
    requires ValidEvent(env, e)
    ensures var m, x := ReadMembers(env, e), e.attributes.extensions;
      && (forall n :: n in x ==> n in m && m[n] == ExtensionMember(x[n]))
      && (forall n :: n in m && !Reserved(n) ==> n in x)
  {
    hide JsonMembers, StandardTexts, ValidAttributes, ReadMembers, ValidData, DataMembers, ExtensionMember;
    hide WrittenContentType, SPECVERSION, ID, SOURCE, TYPE, DATACONTENTTYPE, DATASCHEMA, SUBJECT, TIME, DATA;
    hide DATA_BASE64, Assigned;
    var m, x := ReadMembers(env, e), e.attributes.extensions;
    ValidExtensionsFacts(env, e.attributes);
    ReadLookup(env, e);
    forall n | n in m && !Reserved(n) ensures n in x {
      MemberKeys(env, e, n);
      StandardKeys(env, e.attributes);
    }
    forall n | n in x ensures n in m && m[n] == ExtensionMember(x[n]) {
      MembersLookup(env, e);
      DataNames(e.data);
    }
  }

  lemma ReadEventData(env: Env, e: Event, limits: Limits)
    requires ValidEvent(env, e)
    ensures DecodeData(env, ReadMembers(env, e), e.attributes.dataContentType, limits) == Some(e.data) <==>
      JsonDataKept(env, e) && DataFits(e.data, limits)
  {
    hide JsonMembers, StandardTexts, ValidAttributes, ReadMembers, DataMembers, ExtensionMember, WrittenContentType;
    hide DecodeData, JsonDataKept, DataFits, TrimSpace, DATA, DATA_BASE64, IsValid;
    var m := ReadMembers(env, e);
    ValidExtensionsFacts(env, e.attributes);
    MembersLookup(env, e);
    ReadKeys(env, e);
    DataApart(env, e);
    ReadLookup(env, e);
    ReservedNames();
    ReadData(env, m, e, limits);
  }

  lemma MembersDepth(env: Env, e: Event, n: nat)
    requires ValidEvent(env, e) && Documents(JsonMembers(env, e))
    ensures (forall k :: k in JsonMembers(env, e) ==> MemberDepth(JsonMembers(env, e)[k]) <= n) <==>
      DataDepth(e.data) <= n
  {
    hide JsonMembers, ParseDocument, ValidAttributes, DataMembers, Utf8.Valid, ExtensionMember, StandardTexts;
    hide WrittenContentType;
    var m := JsonMembers(env, e);
    MemberDocuments(env, e);
    var nested := e.data.Present? && e.data.kind == JsonData;
    if nested {
      ValidExtensionsFacts(env, e.attributes);
      MembersLookup(env, e);
      DataIsDocument(e.data, DATA);
      assert MemberDepth(m[DATA]) == DataDepth(e.data);
    }
    forall k | k in m && !(nested && k == DATA) ensures MemberDepth(m[k]) == 0 {
    }
  }

  /** The report is exact. For every valid event and all limits: encoding and then decoding
      gives the same event, payload bytes included, if and only if the loss report is empty,
      the texts construction leaves unchecked are faithful, and the limits admit the event.
      Otherwise decoding fails or yields a different event. */
  lemma JsonReportExact(env: Env, e: Event, limits: Limits)
    requires ValidEvent(env, e) && AsciiTime(env, e.attributes.time)
    ensures DecodeText(env, EncodedText(env, e), limits) == Some(e) <==>
      JsonReport(env, e) == [] && Faithful(env, e.attributes) && JsonAdmits(env, e, limits)
  {
    hide DecodeText, DecodeMembers, JsonMembers, JsonReport, JsonLossless, Faithful, ContextFits, DataFits, Documents;
    hide ValidEvent, AsciiTime, SortedEntries, PrintContainer;
    var m := JsonMembers(env, e);
    EventDocuments(env, e);
    DecodePrinted(env, m, limits);
    MembersExact(env, e, limits);
    JsonReportEmpty(env, e);
    if limits.maxDepth >= 1 {
      MembersDepth(env, e, limits.maxDepth - 1);
    }
  }
}
