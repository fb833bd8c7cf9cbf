/** The issues `validateAttributes` reports (`validation.go`): one list, sorted by field and
    code, that is empty exactly when the attributes are valid and does not depend on the order
    in which the extension map is walked. */
module Validation {
  import opened Bytes
  import opened Order
  import opened Event
  import Conversion

  const REQUIRED: bytes := Ascii("required")
  const INVALID_STRING: bytes := Ascii("invalid_string")
  const INVALID_URI_REFERENCE: bytes := Ascii("invalid_uri_reference")
  const INVALID_MEDIA_TYPE: bytes := Ascii("invalid_media_type")
  const ABSOLUTE_URI_REQUIRED: bytes := Ascii("absolute_uri_required")
  const INVALID_NAME: bytes := Ascii("invalid_name")
  const RESERVED_NAME: bytes := Ascii("reserved_name")
  const INVALID_ATTRIBUTE: bytes := Ascii("invalid_attribute")

  function One(cond: bool, field: bytes, code: bytes): seq<Note> {
    if cond then [Note(field, code)] else []
  }

  function IdentityIssues(env: Env, a: Attributes): seq<Note> {
    One(a.id == [], ID, REQUIRED) + One(a.id != [] && !ValidCloudString(a.id), ID, INVALID_STRING)
    + One(a.source == [], SOURCE, REQUIRED)
    + One(a.source != [] && !(ValidCloudString(a.source) && env.uriReference(a.source)), SOURCE, INVALID_URI_REFERENCE)
    + One(a.eventType == [], TYPE, REQUIRED)
    + One(a.eventType != [] && !ValidCloudString(a.eventType), TYPE, INVALID_STRING)
  }

  function OptionalIssues(env: Env, a: Attributes): seq<Note> {
    One(a.dataContentType != [] && env.mediaType(a.dataContentType).None?, DATACONTENTTYPE, INVALID_MEDIA_TYPE)
    + One(a.dataSchema != [] && !env.absoluteURI(a.dataSchema), DATASCHEMA, ABSOLUTE_URI_REQUIRED)
    + One(a.subject != [] && !ValidCloudString(a.subject), SUBJECT, INVALID_STRING)
  }

  /** The first thing wrong with an extension, if anything is. */
  function ExtensionFault(env: Env, name: bytes, a: Attribute): Option<bytes> {
    if !ValidName(name) then Some(INVALID_NAME)
    else if Reserved(name) then Some(RESERVED_NAME)
    else if !ValidAttribute(env, a) then Some(INVALID_ATTRIBUTE)
    else None
  }

  function ExtensionIssues(env: Env, x: map<bytes, Attribute>): set<Note> {
    set n | n in x && ExtensionFault(env, n, x[n]).Some? ::
      Note(Conversion.EXTENSIONS + n, ExtensionFault(env, n, x[n]).value)
  }

  function SelectedIssues(x: map<bytes, Attribute>): seq<Note> {
    One(TRACEPARENT in x && !ValidTraceParentAttribute(x[TRACEPARENT]), Conversion.EXTENSIONS + TRACEPARENT,
      INVALID_ATTRIBUTE)
    + One(TRACESTATE in x && !ValidTraceStateAttribute(x[TRACESTATE]), Conversion.EXTENSIONS + TRACESTATE,
      INVALID_ATTRIBUTE)
    + One(TRACESTATE in x && TRACEPARENT !in x, Conversion.EXTENSIONS + TRACEPARENT, REQUIRED)
    + One(PARTITIONKEY in x && !ValidPartitionKeyAttribute(x[PARTITIONKEY]), Conversion.EXTENSIONS + PARTITIONKEY,
      INVALID_ATTRIBUTE)
  }

  /** The whole report, in its one order. */
  ghost function Issues(env: Env, a: Attributes): seq<Note> {
    Canonical(multiset(IdentityIssues(env, a) + OptionalIssues(env, a)) + multiset(ExtensionIssues(env, a.extensions))
              + multiset(SelectedIssues(a.extensions)))
  }

  lemma ExtensionIssuesAdd(env: Env, x: map<bytes, Attribute>, n: bytes, a: Attribute)
    requires n !in x
    ensures multiset(ExtensionIssues(env, x[n := a])) == multiset(ExtensionIssues(env, x))
      + (if ExtensionFault(env, n, a).None? then multiset{}
         else multiset{Note(Conversion.EXTENSIONS + n, ExtensionFault(env, n, a).value)})
  {
    hide ExtensionFault, Ascii;
    var before, after := ExtensionIssues(env, x), ExtensionIssues(env, x[n := a]);
    var p := Conversion.EXTENSIONS;
    assert forall m :: (p + m)[|p|..] == m;
    if ExtensionFault(env, n, a).Some? {
      var note := Note(p + n, ExtensionFault(env, n, a).value);
      assert after == before + {note};
      assert note !in before;
    } else {
      assert after == before;
    }
  }

  /** The extension loop, in any order. */
  method AppendExtensionIssues(env: Env, start: seq<Note>, x: map<bytes, Attribute>) returns (issues: seq<Note>)
    ensures multiset(issues) == multiset(start) + multiset(ExtensionIssues(env, x))
  {
    hide ValidName, Reserved, ValidAttribute, ExtensionIssues, INVALID_NAME, RESERVED_NAME, INVALID_ATTRIBUTE, Ascii;
    issues := start;
    var remaining := x.Keys;
    ghost var done: map<bytes, Attribute> := map[];
    NoExtensionIssues(env);
    while remaining != {}
      invariant remaining <= x.Keys && done.Keys == x.Keys - remaining && forall n :: n in done ==> done[n] == x[n]
      invariant multiset(issues) == multiset(start) + multiset(ExtensionIssues(env, done))
      decreases remaining
    {
      var n :| n in remaining;
      ExtensionIssuesAdd(env, done, n, x[n]);
      var field := Conversion.EXTENSIONS + n;
      if !ValidName(n) {
        issues := issues + [Note(field, INVALID_NAME)];
      } else if Reserved(n) {
        issues := issues + [Note(field, RESERVED_NAME)];
      } else if !ValidAttribute(env, x[n]) {
        issues := issues + [Note(field, INVALID_ATTRIBUTE)];
      }
      remaining := remaining - {n};
      done := done[n := x[n]];
    }
    assert done == x;
  }

  lemma NoExtensionIssues(env: Env)
    ensures ExtensionIssues(env, map[]) == {}
  {
  }

  /** One required text: missing, wrong or neither. */
  method AppendRequired(start: seq<Note>, field: bytes, text: bytes, valid: bool, code: bytes)
    returns (issues: seq<Note>)
    ensures issues == start + One(text == [], field, REQUIRED) + One(text != [] && !valid, field, code)
  {
    hide REQUIRED;
    issues := start;
    if text == [] {
      issues := issues + [Note(field, REQUIRED)];
    } else if !valid {
      issues := issues + [Note(field, code)];
    }
  }

  method CollectIdentityIssues(env: Env, a: Attributes) returns (issues: seq<Note>)
    ensures issues == IdentityIssues(env, a)
  {
    hide ValidCloudString, ID, SOURCE, TYPE, REQUIRED, INVALID_STRING, INVALID_URI_REFERENCE, One;
    issues := AppendRequired([], ID, a.id, ValidCloudString(a.id), INVALID_STRING);
    issues := AppendRequired(issues, SOURCE, a.source, ValidCloudString(a.source) && env.uriReference(a.source),
                             INVALID_URI_REFERENCE);
    issues := AppendRequired(issues, TYPE, a.eventType, ValidCloudString(a.eventType), INVALID_STRING);
    assert [] + One(a.id == [], ID, REQUIRED) == One(a.id == [], ID, REQUIRED);
  }

  method AppendOptionalIssues(env: Env, start: seq<Note>, a: Attributes) returns (issues: seq<Note>)
    ensures issues == start + OptionalIssues(env, a)
  {
    hide ValidCloudString, DATACONTENTTYPE, DATASCHEMA, SUBJECT, INVALID_MEDIA_TYPE, ABSOLUTE_URI_REQUIRED;
    hide INVALID_STRING;
    issues := start;
    if a.dataContentType != [] && env.mediaType(a.dataContentType).None? {
      issues := issues + [Note(DATACONTENTTYPE, INVALID_MEDIA_TYPE)];
    }
    if a.dataSchema != [] && !env.absoluteURI(a.dataSchema) {
      issues := issues + [Note(DATASCHEMA, ABSOLUTE_URI_REQUIRED)];
    }
    if a.subject != [] && !ValidCloudString(a.subject) {
      issues := issues + [Note(SUBJECT, INVALID_STRING)];
    }
  }

  /** `validateAttributes`; no issue means nil. */
  method ValidateAttributes(env: Env, a: Attributes) returns (issues: seq<Note>)
    ensures issues == Issues(env, a)
    ensures issues == [] <==> ValidAttributes(env, a)
  {
    hide IdentityIssues, OptionalIssues, ExtensionIssues, SelectedIssues, ValidAttributes, Canonical, SortNotes;
    IssuesEmpty(env, a);
    issues := CollectIdentityIssues(env, a);
    issues := AppendOptionalIssues(env, issues, a);
    issues := AppendExtensionIssues(env, issues, a.extensions);
    issues := AppendSelectedIssues(issues, a.extensions);
    SortNotesIsCanonical(issues);
    issues := SortNotes(issues);
  }

  /** The extensions the package knows. */
  method AppendSelectedIssues(start: seq<Note>, x: map<bytes, Attribute>) returns (issues: seq<Note>)
    ensures issues == start + SelectedIssues(x)
  {
    hide ValidTraceParentAttribute, ValidTraceStateAttribute, ValidPartitionKeyAttribute, TRACEPARENT, TRACESTATE;
    hide PARTITIONKEY, REQUIRED, INVALID_ATTRIBUTE, Ascii;
    issues := start;
    if TRACEPARENT in x && !ValidTraceParentAttribute(x[TRACEPARENT]) {
      issues := issues + [Note(Conversion.EXTENSIONS + TRACEPARENT, INVALID_ATTRIBUTE)];
    }
    if TRACESTATE in x {
      if !ValidTraceStateAttribute(x[TRACESTATE]) {
        issues := issues + [Note(Conversion.EXTENSIONS + TRACESTATE, INVALID_ATTRIBUTE)];
      }
      if TRACEPARENT !in x {
        issues := issues + [Note(Conversion.EXTENSIONS + TRACEPARENT, REQUIRED)];
      }
    }
    if PARTITIONKEY in x && !ValidPartitionKeyAttribute(x[PARTITIONKEY]) {
      issues := issues + [Note(Conversion.EXTENSIONS + PARTITIONKEY, INVALID_ATTRIBUTE)];
    }
  }

  /** There is no issue exactly when the attributes are valid. */
  lemma IssuesEmpty(env: Env, a: Attributes)
    ensures Issues(env, a) == [] <==> ValidAttributes(env, a)
  {
    hide Canonical, ValidCore, ValidSelected, ValidExtension, IdentityIssues, OptionalIssues, ExtensionIssues;
    hide SelectedIssues;
    var core, extensions, selected := IdentityIssues(env, a) + OptionalIssues(env, a),
      ExtensionIssues(env, a.extensions), SelectedIssues(a.extensions);
    UnionEmpty(core, extensions, selected);
    CoreEmpty(env, a);
    ExtensionsEmpty(env, a.extensions);
    SelectedEmpty(a.extensions);
  }

  lemma UnionEmpty(a: seq<Note>, b: set<Note>, c: seq<Note>)
    ensures Canonical(multiset(a) + multiset(b) + multiset(c)) == [] <==> a == [] && b == {} && c == []
  {
    hide Canonical;
    var m := multiset(a) + multiset(b) + multiset(c);
    var r := Canonical(m);
    assert multiset(r) == m && |r| == |multiset(r)|;
    assert |m| == |a| + |b| + |c|;
  }

  lemma CoreEmpty(env: Env, a: Attributes)
    ensures IdentityIssues(env, a) + OptionalIssues(env, a) == [] <==> ValidCore(env, a)
  {
    hide ValidCloudString, ID, SOURCE, TYPE, DATACONTENTTYPE, DATASCHEMA, SUBJECT;
  }

  lemma ExtensionsEmpty(env: Env, x: map<bytes, Attribute>)
    ensures ExtensionIssues(env, x) == {} <==> forall n :: n in x ==> ValidExtension(env, n, x[n])
  {
    hide ValidName, Reserved, ValidAttribute, Ascii;
    forall n | n in x && !ValidExtension(env, n, x[n])
      ensures ExtensionFault(env, n, x[n]).Some?
      ensures Note(Conversion.EXTENSIONS + n, ExtensionFault(env, n, x[n]).value) in ExtensionIssues(env, x)
    {
    }
  }

  lemma SelectedEmpty(x: map<bytes, Attribute>)
    ensures SelectedIssues(x) == [] <==> ValidSelected(x)
  {
    hide ValidTraceParentAttribute, ValidTraceStateAttribute, ValidPartitionKeyAttribute, TRACEPARENT, TRACESTATE;
    hide PARTITIONKEY;
  }

  // ---------- which issues there are ----------

  /** What is wrong with a context attribute, by its name and a code. */
  ghost predicate CoreFault(env: Env, a: Attributes, field: bytes, code: bytes) {
    || (code == Ascii("required") &&
          ((field == Ascii("id") && a.id == []) || (field == Ascii("source") && a.source == [])
           || (field == Ascii("type") && a.eventType == [])))
    || (code == Ascii("invalid_string") &&
          ((field == Ascii("id") && a.id != [] && !ValidCloudString(a.id))
           || (field == Ascii("type") && a.eventType != [] && !ValidCloudString(a.eventType))
           || (field == Ascii("subject") && a.subject != [] && !ValidCloudString(a.subject))))
    || (code == Ascii("invalid_uri_reference") && field == Ascii("source") && a.source != []
          && !(ValidCloudString(a.source) && env.uriReference(a.source)))
    || (code == Ascii("invalid_media_type") && field == Ascii("datacontenttype") && a.dataContentType != []
          && env.mediaType(a.dataContentType).None?)
    || (code == Ascii("absolute_uri_required") && field == Ascii("dataschema") && a.dataSchema != []
          && !env.absoluteURI(a.dataSchema))
  }

  /** What is wrong with an extension. A name is looked at before the attribute; what the package
      knows about three names is looked at in any case. */
  ghost predicate ExtensionWrong(env: Env, x: map<bytes, Attribute>, name: bytes, code: bytes) {
    || (name in x && code == Ascii("invalid_name") && !ValidName(name))
    || (name in x && code == Ascii("reserved_name") && ValidName(name) && Reserved(name))
    || (name in x && code == Ascii("invalid_attribute") &&
          ((ValidName(name) && !Reserved(name) && !ValidAttribute(env, x[name]))
           || (name == Ascii("traceparent") && !ValidTraceParentAttribute(x[name]))
           || (name == Ascii("tracestate") && !ValidTraceStateAttribute(x[name]))
           || (name == Ascii("partitionkey") && !ValidPartitionKeyAttribute(x[name]))))
    || (name !in x && code == Ascii("required") && name == Ascii("traceparent") && Ascii("tracestate") in x)
  }

  lemma OneIn(note: Note, cond: bool, field: bytes, code: bytes)
    ensures note in One(cond, field, code) <==> cond && note == Note(field, code)
  {
  }

  lemma CoreNotes(env: Env, a: Attributes, note: Note)
    ensures note in IdentityIssues(env, a) + OptionalIssues(env, a) <==> CoreFault(env, a, note.field, note.text)
  {
    hide One, Ascii, ValidCloudString;
    forall cond, field, code ensures note in One(cond, field, code) <==> cond && note == Note(field, code) {
      OneIn(note, cond, field, code);
    }
  }

  ghost predicate ExtensionField(env: Env, x: map<bytes, Attribute>, field: bytes, code: bytes) {
    exists name :: field == Ascii("extensions.") + name && ExtensionWrong(env, x, name, code)
  }

  lemma ExtensionNotes(env: Env, x: map<bytes, Attribute>, note: Note)
    ensures (note in ExtensionIssues(env, x) || note in SelectedIssues(x)) <==>
      ExtensionField(env, x, note.field, note.text)
  {
    hide One, Ascii, ValidName, Reserved, ValidAttribute, ValidTraceParentAttribute, ValidTraceStateAttribute;
    hide ValidPartitionKeyAttribute, ExtensionField, ExtensionIssues, SelectedIssues;
    SelectedNotes(env, x, note);
    PlainNotes(env, x, note);
    FieldParts(env, x, note);
  }

  /** The two sources of what is wrong with an extension. */
  ghost predicate PlainWrong(env: Env, x: map<bytes, Attribute>, name: bytes, code: bytes) {
    name in x && ExtensionFault(env, name, x[name]) == Some(code)
  }

  ghost predicate SelectedWrong(x: map<bytes, Attribute>, name: bytes, code: bytes) {
    || (name in x && code == INVALID_ATTRIBUTE &&
          ((name == TRACEPARENT && !ValidTraceParentAttribute(x[name]))
           || (name == TRACESTATE && !ValidTraceStateAttribute(x[name]))
           || (name == PARTITIONKEY && !ValidPartitionKeyAttribute(x[name]))))
    || (name !in x && code == REQUIRED && name == TRACEPARENT && TRACESTATE in x)
  }

  lemma PlainNotes(env: Env, x: map<bytes, Attribute>, note: Note)
    ensures note in ExtensionIssues(env, x) <==>
      exists name :: note.field == Conversion.EXTENSIONS + name && PlainWrong(env, x, name, note.text)
  {
    hide Ascii, ExtensionFault;
    if name :| note.field == Conversion.EXTENSIONS + name && PlainWrong(env, x, name, note.text) {
      assert note == Note(Conversion.EXTENSIONS + name, ExtensionFault(env, name, x[name]).value);
    }
  }

  lemma SelectedNotes(env: Env, x: map<bytes, Attribute>, note: Note)
    ensures note in SelectedIssues(x) <==>
      exists name :: note.field == Conversion.EXTENSIONS + name && SelectedWrong(x, name, note.text)
  {
    hide One, Ascii, ValidTraceParentAttribute, ValidTraceStateAttribute, ValidPartitionKeyAttribute;
    forall cond, field, code ensures note in One(cond, field, code) <==> cond && note == Note(field, code) {
      OneIn(note, cond, field, code);
    }
    if note in SelectedIssues(x) {
      var name := if note.field == Conversion.EXTENSIONS + TRACEPARENT then TRACEPARENT
        else if note.field == Conversion.EXTENSIONS + TRACESTATE then TRACESTATE else PARTITIONKEY;
      assert note.field == Conversion.EXTENSIONS + name;
      assert SelectedWrong(x, name, note.text);
    }
  }

  lemma FieldParts(env: Env, x: map<bytes, Attribute>, note: Note)
    ensures ExtensionField(env, x, note.field, note.text) <==>
      || (exists name :: note.field == Conversion.EXTENSIONS + name && PlainWrong(env, x, name, note.text))
      || (exists name :: note.field == Conversion.EXTENSIONS + name && SelectedWrong(x, name, note.text))
  {
    hide Ascii, ValidName, Reserved, ValidAttribute, ValidTraceParentAttribute, ValidTraceStateAttribute;
    hide ValidPartitionKeyAttribute;
    forall name
      ensures ExtensionWrong(env, x, name, note.text) <==>
        PlainWrong(env, x, name, note.text) || SelectedWrong(x, name, note.text)
    {
    }
    hide ExtensionWrong, PlainWrong, SelectedWrong;
  }

  /** The report names exactly what is wrong: an issue is there if and only if that attribute is
      wrong in that way. */
  lemma IssueExact(env: Env, a: Attributes, field: bytes, code: bytes)
    ensures Note(field, code) in Issues(env, a) <==>
      CoreFault(env, a, field, code) || ExtensionField(env, a.extensions, field, code)
  {
    hide Canonical, IdentityIssues, OptionalIssues, ExtensionIssues, SelectedIssues, CoreFault, ExtensionField;
    var note := Note(field, code);
    CoreNotes(env, a, note);
    ExtensionNotes(env, a.extensions, note);
    var m := multiset(IdentityIssues(env, a) + OptionalIssues(env, a)) + multiset(ExtensionIssues(env, a.extensions))
      + multiset(SelectedIssues(a.extensions));
    assert multiset(Canonical(m)) == m;
    assert note in Canonical(m) <==> note in multiset(Canonical(m));
  }
}
