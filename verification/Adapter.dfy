/** What the target adapters share (`internal/adapter/adapter.go`). */
module Adapter {
  import opened Bytes
  import opened Order
  import opened Event
  import Conversion
  import JsonEncoder
  import JsonText
  import Utf8

  const CORRELATIONID: bytes := Ascii("correlationid")
  const REQUESTID: bytes := Ascii("requestid")
  const CAUSATIONID: bytes := Ascii("causationid")
  const TENANTID: bytes := Ascii("tenantid")

  // ---------- payloads ----------

  /** The kind of data a media type stands for. Unlike in the core only `application/json`
      and a `+json` suffix are JSON. */
  function KindOfMediaType(mediaType: bytes): DataKind {
    if mediaType == Ascii("application/json") || HasSuffix(mediaType, Ascii("+json")) then JsonData
    else if HasPrefix(mediaType, Ascii("text/")) then TextData
    else BinaryData
  }

  /** JSON is `application/json` or anything that ends in `+json`, and text is what else begins
      with `text/`. */
  lemma KindExact(mediaType: bytes)
    ensures var json := mediaType == Ascii("application/json") || exists rest :: mediaType == rest + Ascii("+json");
      && (KindOfMediaType(mediaType) == JsonData <==> json)
      && (KindOfMediaType(mediaType) == TextData <==> !json && exists rest :: mediaType == Ascii("text/") + rest)
  {
    hide HasPrefix, HasSuffix;
    SuffixMeaning(mediaType, Ascii("+json"));
    PrefixMeaning(mediaType, Ascii("text/"));
  }

  /** The same for a content type that parses; no content type means binary here. */
  function TargetKind(env: Env, contentType: bytes): DataKind {
    if contentType == [] || env.mediaType(contentType).None? then BinaryData
    else KindOfMediaType(env.mediaType(contentType).value)
  }

  /** `DataFromPayload`. */
  function DataFromPayload(env: Env, contentType: bytes, payload: bytes): Option<Data> {
    if contentType == [] then Some(NewBinaryData(payload))
    else if env.mediaType(contentType).None? then None
    else match KindOfMediaType(env.mediaType(contentType).value)
    case JsonData => NewJSONData(payload)
    case TextData => NewTextData(payload)
    case BinaryData => Some(NewBinaryData(payload))
  }

  /** `RestoreRetainedNil`. */
  function RestoreRetainedNil(data: Data, retainedNil: bool): Option<bytes> {
    if data.Absent? then None
    else if retainedNil && data.bytes == [] then None
    else Some(data.bytes)
  }

  function PayloadBytes(body: Option<bytes>): bytes {
    if body.None? then [] else body.value
  }

  /** A payload comes back as it was, nil and empty apart, and of the kind that its content
      type stands for. */
  lemma PayloadRestored(env: Env, contentType: bytes, body: Option<bytes>)
    ensures var d := DataFromPayload(env, contentType, PayloadBytes(body));
      d.Some? ==> && ValidData(d.value) && d.value.Present? && d.value.kind == TargetKind(env, contentType)
                  && d.value.bytes == PayloadBytes(body) && RestoreRetainedNil(d.value, body.None?) == body
  {
    hide JsonText.IsValid, Utf8.Valid;
  }

  /** Conversely valid data is what its payload makes, exactly when its kind is the one the
      content type stands for. */
  lemma PayloadRemade(env: Env, contentType: bytes, d: Data, retainedNil: bool)
    requires ValidData(d) && d.Present? && (contentType == [] || env.mediaType(contentType).Some?)
    ensures PayloadBytes(RestoreRetainedNil(d, retainedNil)) == d.bytes
    ensures DataFromPayload(env, contentType, d.bytes) == Some(d) <==> d.kind == TargetKind(env, contentType)
  {
    hide JsonText.IsValid, Utf8.Valid, KindOfMediaType;
  }

  /** Which data a payload makes: its own bytes, valid as the kind its content type stands for,
      under no content type or one that parses. */
  lemma PayloadExact(env: Env, contentType: bytes, payload: bytes, d: Data)
    ensures DataFromPayload(env, contentType, payload) == Some(d) <==>
      && (contentType == [] || env.mediaType(contentType).Some?) && ValidData(d)
      && d.Present? && d.bytes == payload && d.kind == TargetKind(env, contentType)
  {
    hide JsonText.IsValid, Utf8.Valid, KindOfMediaType;
  }

  // ---------- extensions ----------

  lemma EmptyIsCloudString()
    ensures ValidCloudString([])
  {
  }

  datatype Found = Unusable | NotThere | Text(text: bytes)

  /** `StringExtension`: a nonempty String, nothing, or an error. */
  function StringExtension(e: Event, name: bytes): Found {
    var x := e.attributes.extensions;
    if name !in x then NotThere
    else if x[name].kind != KindString || x[name].text == [] then Unusable
    else Text(x[name].text)
  }

  /** The text is the String under the name; the empty text is none. */
  predicate Mirrors(x: map<bytes, Attribute>, name: bytes, text: bytes) {
    if text == [] then name !in x else name in x && x[name] == Attribute(KindString, text)
  }

  lemma StringExtensionExact(e: Event, name: bytes, text: bytes)
    ensures Mirrors(e.attributes.extensions, name, text) <==>
      StringExtension(e, name) == if text == [] then NotThere else Text(text)
  {
  }

  /** An addition is a String and is new or says what is there already. */
  predicate MayAdd(x: map<bytes, Attribute>, name: bytes, text: bytes) {
    ValidCloudString(text) && (name in x ==> x[name] == Attribute(KindString, text))
  }

  predicate MayAddAll(x: map<bytes, Attribute>, additions: map<bytes, bytes>) {
    forall n :: n in additions ==> MayAdd(x, n, additions[n])
  }

  function StringAttributes(m: map<bytes, bytes>): map<bytes, Attribute> {
    map n | n in m :: Attribute(KindString, m[n])
  }

  /** The result of `AddStringExtensions`: nothing that is there is replaced. */
  function WithExtensions(env: Env, e: Event, additions: map<bytes, bytes>): Option<Event> {
    if !ValidEvent(env, e) || !MayAddAll(e.attributes.extensions, additions) then None
    else NewEvent(env, e.attributes.(extensions := e.attributes.extensions + StringAttributes(additions)), e.data)
  }

  /** `AddStringExtensions`, with the additions in any order. */
  method AddStringExtensions(env: Env, e: Event, additions: map<bytes, bytes>) returns (r: Option<Event>)
    ensures r == WithExtensions(env, e, additions)
  {
    hide ValidEvent, ValidAttributes, NewEvent;
    if !ValidEvent(env, e) {
      return None;
    }
    var extensions := AddAll(e.attributes.extensions, additions);
    if extensions.None? {
      return None;
    }
    return NewEvent(env, e.attributes.(extensions := extensions.value), e.data);
  }

  /** The loop over the additions. */
  method AddAll(x: map<bytes, Attribute>, additions: map<bytes, bytes>) returns (r: Option<map<bytes, Attribute>>)
    ensures r == if MayAddAll(x, additions) then Some(x + StringAttributes(additions)) else None
  {
    hide ValidCloudString;
    var extensions := x;
    var remaining := additions.Keys;
    while remaining != {}
      invariant remaining <= additions.Keys
      invariant forall n :: n in additions && n !in remaining ==> MayAdd(x, n, additions[n])
      invariant extensions.Keys == x.Keys + (additions.Keys - remaining)
      invariant forall n :: n in extensions ==>
        extensions[n] == if n in additions && n !in remaining then Attribute(KindString, additions[n]) else x[n]
      decreases remaining
    {
      var n :| n in remaining;
      remaining := remaining - {n};
      var attribute := NewStringAttribute(additions[n]);
      if attribute.None? {
        assert !MayAdd(x, n, additions[n]);
        return None;
      }
      if n in extensions {
        if extensions[n] != attribute.value {
          assert !MayAdd(x, n, additions[n]);
          return None;
        }
      } else {
        extensions := extensions[n := attribute.value];
      }
    }
    assert MayAddAll(x, additions);
    assert extensions == x + StringAttributes(additions);
    return Some(extensions);
  }

  /** Additions that succeed can be read back, leave everything else as it was, and may be
      made again without any effect. */
  lemma AddedExtensions(env: Env, e: Event, additions: map<bytes, bytes>, r: Event)
    requires WithExtensions(env, e, additions) == Some(r)
    ensures forall n :: n in additions && additions[n] != [] ==> StringExtension(r, n) == Text(additions[n])
    ensures forall n :: n in e.attributes.extensions ==>
      (n in r.attributes.extensions && r.attributes.extensions[n] == e.attributes.extensions[n])
    ensures r.attributes.(extensions := e.attributes.extensions) == e.attributes && r.data == e.data
    ensures WithExtensions(env, r, additions) == Some(r)
  {
    hide ValidAttributes, ValidData, ValidCloudString;
    var x, y := e.attributes.extensions, r.attributes.extensions;
    assert y == x + StringAttributes(additions);
    forall n | n in x ensures n in y && y[n] == x[n] {
      assert n in additions ==> MayAdd(x, n, additions[n]);
    }
    forall n | n in additions ensures MayAdd(y, n, additions[n]) {
      assert MayAdd(x, n, additions[n]);
    }
    assert y + StringAttributes(additions) == y;
  }

  /** The two maps are both in the third, and nothing else is. */
  ghost predicate Extends(x: map<bytes, Attribute>, additions: map<bytes, bytes>, y: map<bytes, Attribute>) {
    && (forall n :: n in y <==> n in x || n in additions)
    && (forall n :: n in x ==> y[n] == x[n])
    && (forall n :: n in additions ==> y[n] == Attribute(KindString, additions[n]))
  }

  /** Adding succeeds with the event that holds both, if that is a valid event. */
  lemma AddExact(env: Env, e: Event, additions: map<bytes, bytes>, r: Event)
    ensures WithExtensions(env, e, additions) == Some(r) <==>
      && ValidEvent(env, e) && ValidAttributes(env, r.attributes)
      && r == Event(e.attributes.(extensions := r.attributes.extensions), e.data)
      && Extends(e.attributes.extensions, additions, r.attributes.extensions)
  {
    hide ValidCore, ValidData, ValidSelected, ValidName, Reserved, ValidCloudString, NewEvent;
    var x, y := e.attributes.extensions, r.attributes.extensions;
    if ValidAttributes(env, r.attributes) && Extends(x, additions, y) {
      forall n | n in additions ensures MayAdd(x, n, additions[n]) {
        assert ValidExtension(env, n, y[n]);
      }
      assert y == x + StringAttributes(additions);
    }
    if MayAddAll(x, additions) && y == x + StringAttributes(additions) {
      forall n | n in x ensures y[n] == x[n] {
        assert n in additions ==> MayAdd(x, n, additions[n]);
      }
    }
    MadeEvent(env, e.attributes.(extensions := x + StringAttributes(additions)), e.data, r);
  }

  lemma MadeEvent(env: Env, a: Attributes, d: Data, r: Event)
    ensures NewEvent(env, a, d) == Some(r) <==> ValidAttributes(env, a) && r == Event(a, d)
  {
    hide ValidAttributes;
  }

  // ---------- losses ----------

  const NOT_REPRESENTED: bytes := Ascii("not represented by ")

  function DataKindLosses(env: Env, e: Event, target: bytes): seq<Note> {
    if e.data.Present? && e.data.kind != TargetKind(env, e.attributes.dataContentType)
    then [Note(Ascii("data.kind"), NOT_REPRESENTED + target)] else []
  }

  function OptionalContextLosses(e: Event, target: bytes): seq<Note> {
    (if e.attributes.dataSchema != [] then [Note(DATASCHEMA, NOT_REPRESENTED + target)] else [])
    + (if e.attributes.subject != [] then [Note(SUBJECT, NOT_REPRESENTED + target)] else [])
    + (if e.attributes.time.Some? then [Note(TIME, NOT_REPRESENTED + target)] else [])
  }

  function Unselected(e: Event, selected: set<bytes>): map<bytes, bytes> {
    map n | n in e.attributes.extensions && n !in selected :: n
  }

  function Noted(names: seq<Entry<bytes>>, target: bytes): seq<Note> {
    seq(|names|, i requires 0 <= i < |names| => Note(Conversion.EXTENSIONS + names[i].key, NOT_REPRESENTED + target))
  }

  /** One loss per extension that is not selected, in ascending order of the names. */
  ghost function ExtensionLosses(e: Event, target: bytes, selected: set<bytes>): seq<Note> {
    Noted(SortedEntries(Unselected(e, selected)), target)
  }

  lemma ExtensionLossesEmpty(e: Event, target: bytes, selected: set<bytes>)
    ensures ExtensionLosses(e, target, selected) == [] <==> e.attributes.extensions.Keys <= selected
  {
    hide SortedEntries, ToMap;
    var m := Unselected(e, selected);
    var names := SortedEntries(m);
    if names == [] {
      EmptyMap<bytes>();
      assert forall n :: n in e.attributes.extensions && n !in selected ==> n in m;
    } else {
      KeyStored(names, 0);
      assert names[0].key in m;
    }
  }

  /** The extension losses name exactly the extensions that are not selected. */
  lemma ExtensionLossNames(e: Event, target: bytes, selected: set<bytes>, note: Note)
    ensures note in ExtensionLosses(e, target, selected) <==>
      && note.text == Ascii("not represented by ") + target
      && exists n :: n in e.attributes.extensions && n !in selected && note.field == Ascii("extensions.") + n
  {
    hide SortedEntries, ToMap, Ascii;
    var m := Unselected(e, selected);
    var names := SortedEntries(m);
    if note in ExtensionLosses(e, target, selected) {
      var i :| 0 <= i < |names| && Noted(names, target)[i] == note;
      KeyStored(names, i);
      assert names[i].key in m;
    }
    if n :| n in e.attributes.extensions && n !in selected && note.field == Ascii("extensions.") + n {
      assert n in ToMap(names);
      var i := KeyAt(names, n);
      assert Noted(names, target)[i] == Note(Ascii("extensions.") + n, Ascii("not represented by ") + target);
    }
  }

  /** The data kind loss names the kind. */
  lemma DataKindLossName(env: Env, e: Event, target: bytes, note: Note)
    requires ValidEvent(env, e)
    ensures note in DataKindLosses(env, e, target) <==>
      && note == Note(Ascii("data.kind"), Ascii("not represented by ") + target)
      && e.data.Present? && DataFromPayload(env, e.attributes.dataContentType, e.data.bytes) != Some(e.data)
  {
    hide TargetKind, DataFromPayload, ValidEvent, Ascii;
    DataKindLossExact(env, e, target);
  }

  /** There is a data kind loss exactly when the payload would not make the same data again. */
  lemma DataKindLossExact(env: Env, e: Event, target: bytes)
    requires ValidEvent(env, e)
    ensures DataKindLosses(env, e, target) == [] <==>
      e.data.Absent? || DataFromPayload(env, e.attributes.dataContentType, e.data.bytes) == Some(e.data)
  {
    hide TargetKind, DataFromPayload, ValidData, ValidExtension, ValidSelected, ValidCloudString;
    if e.data.Present? {
      PayloadRemade(env, e.attributes.dataContentType, e.data, false);
    }
  }

  /** The optional losses name exactly those of the three attributes that have a text among the
      context texts, each once. */
  lemma OptionalLossesExact(env: Env, e: Event, target: bytes)
    ensures var losses, texts := OptionalContextLosses(e, target), StandardTexts(env, e.attributes);
      && (forall note :: note in losses ==> note.text == NOT_REPRESENTED + target)
      && (forall name :: Note(name, NOT_REPRESENTED + target) in losses <==>
            name in {DATASCHEMA, SUBJECT, TIME} && name in texts)
      && (forall i, j :: 0 <= i < j < |losses| ==> losses[i] != losses[j])
  {
    hide StandardTexts, Ascii;
    StandardLookup(env, e.attributes);
    ReservedNames();
    hide SPECVERSION, ID, SOURCE, TYPE, DATACONTENTTYPE, DATASCHEMA, SUBJECT, TIME, DATA, DATA_BASE64, VERSION;
    var losses, reason := OptionalContextLosses(e, target), NOT_REPRESENTED + target;
    assert e.attributes.dataSchema != [] ==> losses[0] == Note(DATASCHEMA, reason);
    var second := if e.attributes.dataSchema == [] then 0 else 1;
    assert e.attributes.subject != [] ==> losses[second] == Note(SUBJECT, reason);
    assert e.attributes.time.Some? ==> losses[|losses| - 1] == Note(TIME, reason);
  }

  lemma OptionalLossNames(e: Event, target: bytes, note: Note)
    ensures note in OptionalContextLosses(e, target) <==>
      && note.text == Ascii("not represented by ") + target
      && (|| (note.field == Ascii("dataschema") && e.attributes.dataSchema != [])
          || (note.field == Ascii("subject") && e.attributes.subject != [])
          || (note.field == Ascii("time") && e.attributes.time.Some?))
  {
    hide Ascii;
    var reason := NOT_REPRESENTED + target;
    var schema := if e.attributes.dataSchema != [] then [Note(DATASCHEMA, reason)] else [];
    var subject := if e.attributes.subject != [] then [Note(SUBJECT, reason)] else [];
    var time := if e.attributes.time.Some? then [Note(TIME, reason)] else [];
    assert OptionalContextLosses(e, target) == schema + subject + time;
    assert note in schema + subject + time <==> note in schema || note in subject || note in time;
  }

  /** On a valid event the report grows exactly when the payload would not make the same data
      again. */
  method AppendDataKindLoss(env: Env, e: Event, start: seq<Note>, target: bytes) returns (report: seq<Note>)
    ensures report == start + DataKindLosses(env, e, target)
    ensures ValidEvent(env, e) ==>
      (report == start <==>
        e.data.Absent? || DataFromPayload(env, e.attributes.dataContentType, e.data.bytes) == Some(e.data))
  {
    hide TargetKind, ValidEvent, DataFromPayload, Ascii;
    if ValidEvent(env, e) {
      DataKindLossExact(env, e, target);
    }
    report := start;
    if e.data.Present? && e.data.kind != TargetKind(env, e.attributes.dataContentType) {
      report := report + [Note(Ascii("data.kind"), NOT_REPRESENTED + target)];
    }
  }

  method AppendOptionalContextLosses(e: Event, start: seq<Note>, target: bytes) returns (report: seq<Note>)
    ensures report == start + OptionalContextLosses(e, target)
  {
    hide Ascii;
    report := start;
    if e.attributes.dataSchema != [] {
      report := report + [Note(DATASCHEMA, NOT_REPRESENTED + target)];
    }
    if e.attributes.subject != [] {
      report := report + [Note(SUBJECT, NOT_REPRESENTED + target)];
    }
    if e.attributes.time.Some? {
      report := report + [Note(TIME, NOT_REPRESENTED + target)];
    }
  }

  method AppendExtensionLosses(e: Event, start: seq<Note>, target: bytes, selected: set<bytes>)
    returns (report: seq<Note>)
    ensures report == start + ExtensionLosses(e, target, selected)
  {
    hide Unselected, SortedEntries, Ascii;
    report := start;
    var names := UnselectedNames(e, selected);
    for i := 0 to |names|
      invariant report == start + Noted(names, target)[..i]
    {
      report := report + [Note(Conversion.EXTENSIONS + names[i].key, NOT_REPRESENTED + target)];
    }
    assert Noted(names, target)[..|names|] == Noted(names, target);
  }

  /** The unselected names, collected in any order and sorted. */
  method UnselectedNames(e: Event, selected: set<bytes>) returns (names: seq<Entry<bytes>>)
    ensures names == SortedEntries(Unselected(e, selected))
  {
    hide SortedEntries, ToMap, Distinct;
    names := [];
    EmptyMap<bytes>();
    assert Distinct(names) by { JsonEncoder.NoMembers(); }
    var remaining := e.attributes.extensions.Keys;
    while remaining != {}
      invariant remaining <= e.attributes.extensions.Keys
      invariant Distinct(names)
      invariant forall n :: n in ToMap(names) ==> ToMap(names)[n] == n
      invariant ToMap(names).Keys == (e.attributes.extensions.Keys - remaining) - selected
      decreases remaining
    {
      var n :| n in remaining;
      remaining := remaining - {n};
      if n !in selected {
        JsonEncoder.DistinctAppend(names, Entry(n, n));
        names := names + [Entry(n, n)];
      }
    }
    assert ToMap(names) == Unselected(e, selected);
    names := SortEntries(names);
  }
}
