/** Loss reports (`conversion.go`): what an encoder changes, sorted by field and reason. A Go
    map hands its entries out in any order; here each loop picks the next name freely, and
    the report it builds is proved to be the same one for every choice. */
module Conversion {
  import opened Bytes
  import opened Order
  import opened Event
  import Decimal
  import JsonDocument

  const EXTENSIONS: bytes := Ascii("extensions.")

  const WHITESPACE_LOSS: bytes :=
    Ascii("leading or trailing JSON whitespace is not representable inside a structured event")
  const MATERIALIZED_TEXT_LOSS: bytes := Ascii("text/plain is materialized to preserve text data semantics")
  const TEXT_AS_JSON_LOSS: bytes := Ascii("JSON content type decodes text data as JSON")
  const NOT_JSON_LOSS: bytes := Ascii("non-JSON content type cannot preserve JSON data semantics")
  const JSON_STRING_LOSS: bytes := Ascii("abstract extension type normalizes to a JSON string")
  const MATERIALIZED_LOSS: bytes := Ascii(" is materialized to preserve data semantics")
  const KIND_LOSS: bytes := Ascii("declared content type changes the data kind in the binary binding")
  const PROTOCOL_STRING_LOSS: bytes := Ascii("abstract extension type normalizes to a protocol string")

  /** `implicitDataContentType`. */
  function ImplicitContentType(kind: DataKind): (ct: bytes)
    ensures ct != []
  {
    match kind
    case JsonData => Ascii("application/json")
    case TextData => Ascii("text/plain")
    case BinaryData => Ascii("application/octet-stream")
  }

  /** `dataKindMatchesContentType`. */
  predicate KindMatches(env: Env, kind: DataKind, contentType: bytes) {
    match kind
    case JsonData => IsJsonMediaType(env, contentType)
    case TextData => IsTextMediaType(env, contentType)
    case BinaryData => !IsJsonMediaType(env, contentType) && !IsTextMediaType(env, contentType)
  }

  // ---------- the losses of one event ----------

  predicate KeptByJson(kind: AttributeKind) {
    kind == KindString || kind == KindBoolean || kind == KindInteger
  }

  function JsonDataLosses(env: Env, e: Event): seq<Note> {
    if e.data.Absent? then []
    else
      var ct := e.attributes.dataContentType;
      (if e.data.kind == JsonData && e.data.bytes != JsonDocument.TrimSpace(e.data.bytes)
       then [Note(DATA, WHITESPACE_LOSS)] else []) +
      if e.data.kind == TextData && ct == [] then [Note(DATACONTENTTYPE, MATERIALIZED_TEXT_LOSS)]
      else if e.data.kind == TextData && IsJsonMediaType(env, ct) then [Note(DATA, TEXT_AS_JSON_LOSS)]
      else if e.data.kind == JsonData && !IsJsonMediaType(env, ct) then [Note(DATA, NOT_JSON_LOSS)]
      else []
  }

  function BinaryDataLosses(env: Env, e: Event): seq<Note> {
    if e.data.Absent? then []
    else if e.attributes.dataContentType == [] then
      [Note(DATACONTENTTYPE, ImplicitContentType(e.data.kind) + MATERIALIZED_LOSS)]
    else if !KindMatches(env, e.data.kind, e.attributes.dataContentType) then [Note(DATA, KIND_LOSS)]
    else []
  }

  function LostByJson(e: Event): set<bytes> {
    set n | n in e.attributes.extensions && !KeptByJson(e.attributes.extensions[n].kind)
  }

  function LostByBinding(e: Event): set<bytes> {
    set n | n in e.attributes.extensions && e.attributes.extensions[n].kind != KindString
  }

  function ExtensionNotes(names: set<bytes>, reason: bytes): set<Note> {
    set n | n in names :: Note(EXTENSIONS + n, reason)
  }

  lemma ExtensionNotesAdd(names: set<bytes>, n: bytes, reason: bytes)
    requires n !in names
    ensures multiset(ExtensionNotes(names + {n}, reason)) ==
      multiset(ExtensionNotes(names, reason)) + multiset{Note(EXTENSIONS + n, reason)}
  {
    var x := Note(EXTENSIONS + n, reason);
    assert forall m :: (EXTENSIONS + m)[|EXTENSIONS|..] == m;
    assert ExtensionNotes(names + {n}, reason) == ExtensionNotes(names, reason) + {x};
  }

  ghost function JsonReport(env: Env, e: Event): seq<Note> {
    Canonical(multiset(JsonDataLosses(env, e)) + multiset(ExtensionNotes(LostByJson(e), JSON_STRING_LOSS)))
  }

  ghost function BinaryReport(env: Env, e: Event): seq<Note> {
    Canonical(multiset(BinaryDataLosses(env, e)) + multiset(ExtensionNotes(LostByBinding(e), PROTOCOL_STRING_LOSS)))
  }

  /** The loop both report builders end with: one loss for every name in `lost`, found while
      the extension map is walked in any order. */
  method AppendExtensionNotes(losses: seq<Note>, extensions: set<bytes>, lost: set<bytes>, reason: bytes)
    returns (report: seq<Note>)
    requires lost <= extensions
    ensures report == Canonical(multiset(losses) + multiset(ExtensionNotes(lost, reason)))
  {
    report := losses;
    var remaining := extensions;
    ghost var done: set<bytes> := {};
    while remaining != {}
      invariant done + remaining == extensions && done !! remaining
      invariant multiset(report) == multiset(losses) + multiset(ExtensionNotes(done * lost, reason))
      decreases remaining
    {
      var n :| n in remaining;
      if n in lost {
        report := report + [Note(EXTENSIONS + n, reason)];
        ExtensionNotesAdd(done * lost, n, reason);
        assert (done + {n}) * lost == done * lost + {n};
      } else {
        assert (done + {n}) * lost == done * lost;
      }
      remaining := remaining - {n};
      done := done + {n};
    }
    assert done * lost == lost;
    SortNotesIsCanonical(report);
    report := SortNotes(report);
  }

  /** `jsonConversionReport`. */
  method JsonConversionReport(env: Env, e: Event) returns (report: seq<Note>)
    ensures report == JsonReport(env, e)
  {
    var losses: seq<Note> := [];
    var ct := e.attributes.dataContentType;
    if e.data.Present? && e.data.kind == JsonData && e.data.bytes != JsonDocument.TrimSpace(e.data.bytes) {
      losses := losses + [Note(DATA, WHITESPACE_LOSS)];
    }
    if e.data.Present? {
      if e.data.kind == TextData && ct == [] {
        losses := losses + [Note(DATACONTENTTYPE, MATERIALIZED_TEXT_LOSS)];
      } else if e.data.kind == TextData && IsJsonMediaType(env, ct) {
        losses := losses + [Note(DATA, TEXT_AS_JSON_LOSS)];
      } else if e.data.kind == JsonData && !IsJsonMediaType(env, ct) {
        losses := losses + [Note(DATA, NOT_JSON_LOSS)];
      }
    }
    assert losses == JsonDataLosses(env, e);
    report := AppendExtensionNotes(losses, e.attributes.extensions.Keys, LostByJson(e), JSON_STRING_LOSS);
  }

  /** `binaryConversionReport`, which `httpBinaryConversionReport` is as well. */
  method BinaryConversionReport(env: Env, e: Event) returns (report: seq<Note>)
    ensures report == BinaryReport(env, e)
  {
    var losses: seq<Note> := [];
    if e.data.Present? && e.attributes.dataContentType == [] {
      losses := [Note(DATACONTENTTYPE, ImplicitContentType(e.data.kind) + MATERIALIZED_LOSS)];
    } else if e.data.Present? && !KindMatches(env, e.data.kind, e.attributes.dataContentType) {
      losses := [Note(DATA, KIND_LOSS)];
    }
    assert losses == BinaryDataLosses(env, e);
    report := AppendExtensionNotes(losses, e.attributes.extensions.Keys, LostByBinding(e), PROTOCOL_STRING_LOSS);
  }

  // ---------- when nothing is lost ----------

  predicate JsonDataKept(env: Env, e: Event) {
    match e.data
    case Absent => true
    case Present(JsonData, b) => b == JsonDocument.TrimSpace(b) && IsJsonMediaType(env, e.attributes.dataContentType)
    case Present(TextData, _) =>
      e.attributes.dataContentType != [] && !IsJsonMediaType(env, e.attributes.dataContentType)
    case Present(BinaryData, _) => true
  }

  predicate JsonLossless(env: Env, e: Event) {
    && JsonDataKept(env, e)
    && forall n :: n in e.attributes.extensions ==> KeptByJson(e.attributes.extensions[n].kind)
  }

  predicate BinaryLossless(env: Env, e: Event) {
    && (e.data.Present? ==>
          e.attributes.dataContentType != [] && KindMatches(env, e.data.kind, e.attributes.dataContentType))
    && forall n :: n in e.attributes.extensions ==> e.attributes.extensions[n].kind == KindString
  }

  lemma CanonicalEmpty(base: seq<Note>, names: set<bytes>, reason: bytes)
    ensures Canonical(multiset(base) + multiset(ExtensionNotes(names, reason))) == [] <==> base == [] && names == {}
  {
    var m := multiset(base) + multiset(ExtensionNotes(names, reason));
    var r := Canonical(m);
    assert multiset(r) == m;
    if base != [] {
      assert base[0] in m;
    }
    if names != {} {
      var n :| n in names;
      assert Note(EXTENSIONS + n, reason) in ExtensionNotes(names, reason);
      assert Note(EXTENSIONS + n, reason) in m;
    }
    if base == [] && names == {} {
      assert m == multiset{};
      assert |r| == |multiset(r)|;
    }
  }

  lemma JsonReportEmpty(env: Env, e: Event)
    ensures JsonReport(env, e) == [] <==> JsonLossless(env, e)
  {
    hide Canonical, ExtensionNotes, JsonDocument.TrimSpace, Ascii, IsJsonMediaType;
    CanonicalEmpty(JsonDataLosses(env, e), LostByJson(e), JSON_STRING_LOSS);
    if LostByJson(e) == {} {
      forall n | n in e.attributes.extensions ensures KeptByJson(e.attributes.extensions[n].kind) {
        assert n !in LostByJson(e);
      }
    }
  }

  lemma BinaryReportEmpty(env: Env, e: Event)
    ensures BinaryReport(env, e) == [] <==> BinaryLossless(env, e)
  {
    hide Canonical, ExtensionNotes;
    CanonicalEmpty(BinaryDataLosses(env, e), LostByBinding(e), PROTOCOL_STRING_LOSS);
    if LostByBinding(e) == {} {
      forall n | n in e.attributes.extensions ensures e.attributes.extensions[n].kind == KindString {
        assert n !in LostByBinding(e);
      }
    }
  }

  // ---------- batches ----------

  function Prefixed(report: seq<Note>, prefix: bytes): (r: seq<Note>)
    ensures |r| == |report|
    ensures forall i :: 0 <= i < |report| ==> r[i] == Note(prefix + report[i].field, report[i].text)
  {
    seq(|report|, i requires 0 <= i < |report| => Note(prefix + report[i].field, report[i].text))
  }

  function EventPrefix(index: nat): bytes {
    Ascii("events[") + Decimal.FormatInt(index) + Ascii("].")
  }

  /** The prefixed losses of the events one after the other. */
  ghost function BatchLosses(env: Env, es: seq<Event>): seq<Note> {
    if es == [] then []
    else
      var n := |es| - 1;
      BatchLosses(env, es[..n]) + Prefixed(JsonReport(env, es[n]), EventPrefix(n))
  }

  /** The report of `EncodeJSONBatchWithReport`. */
  ghost function BatchReport(env: Env, es: seq<Event>): seq<Note> {
    SortNotes(BatchLosses(env, es))
  }

  /** `canonicalConversionReport`: the losses are sorted where they stand. */
  method SortInPlace(losses: array<Note>)
    modifies losses
    ensures losses[..] == SortNotes(old(losses[..]))
  {
    hide SortNotes, NotesSorted;
    var sorted := SortNotes(losses[..]);
    SortNotesLength(losses[..]);
    for i := 0 to losses.Length
      invariant forall k :: 0 <= k < i ==> losses[k] == sorted[k]
    {
      losses[i] := sorted[i];
    }
    assert losses[..] == sorted;
  }

  lemma SortNotesLength(s: seq<Note>)
    ensures |SortNotes(s)| == |s|
  {
    assert |multiset(SortNotes(s))| == |multiset(s)|;
  }

  /** `prefixConversionReport`, which rewrites the report it is given in place. */
  method PrefixConversionReport(losses: array<Note>, prefix: bytes)
    modifies losses
    ensures losses[..] == SortNotes(Prefixed(old(losses[..]), prefix))
  {
    for i := 0 to losses.Length
      invariant forall k :: 0 <= k < i ==> losses[k] == Note(prefix + old(losses[k].field), old(losses[k].text))
      invariant forall k :: i <= k < losses.Length ==> losses[k] == old(losses[k])
    {
      losses[i] := Note(prefix + losses[i].field, losses[i].text);
    }
    assert losses[..] == Prefixed(old(losses[..]), prefix);
    SortInPlace(losses);
  }

  lemma {:induction false} BatchLossesEmpty(env: Env, es: seq<Event>)
    ensures BatchLosses(env, es) == [] <==> forall i :: 0 <= i < |es| ==> JsonLossless(env, es[i])
  {
    hide JsonLossless, JsonReport, EventPrefix;
    if es != [] {
      var n := |es| - 1;
      BatchLossesEmpty(env, es[..n]);
      JsonReportEmpty(env, es[n]);
      var last := Prefixed(JsonReport(env, es[n]), EventPrefix(n));
      assert |last| == |JsonReport(env, es[n])|;
      assert forall i :: 0 <= i < n ==> es[..n][i] == es[i];
      assert BatchLosses(env, es) == [] <==> BatchLosses(env, es[..n]) == [] && last == [];
    }
  }

  /** A batch may be encoded strictly exactly when each of its events may. */
  lemma BatchReportEmpty(env: Env, es: seq<Event>)
    ensures BatchReport(env, es) == [] <==> forall i :: 0 <= i < |es| ==> JsonLossless(env, es[i])
  {
    hide JsonLossless;
    BatchLossesEmpty(env, es);
    var losses := BatchLosses(env, es);
    SortNotesLength(losses);
  }

  /** The note is one of the `i`-th event's own, under that event's number. */
  ghost predicate FromEvent(env: Env, es: seq<Event>, note: Note, i: nat, own: Note) {
    && i < |es| && own in JsonReport(env, es[i]) && note.text == own.text
    && note.field == Ascii("events[") + Decimal.FormatInt(i) + Ascii("].") + own.field
  }

  lemma PrefixedNotes(report: seq<Note>, prefix: bytes, note: Note)
    ensures note in Prefixed(report, prefix) <==>
      exists own :: own in report && note.text == own.text && note.field == prefix + own.field
  {
    if own :| own in report && note.text == own.text && note.field == prefix + own.field {
      var i :| 0 <= i < |report| && report[i] == own;
      assert Prefixed(report, prefix)[i] == note;
    }
  }

  lemma {:induction false} BatchLossesNames(env: Env, es: seq<Event>, note: Note)
    ensures note in BatchLosses(env, es) <==> exists i, own :: FromEvent(env, es, note, i, own)
  {
    hide JsonReport, Ascii, Decimal.FormatInt, Prefixed;
    if es != [] {
      var n := |es| - 1;
      BatchLossesNames(env, es[..n], note);
      PrefixedNotes(JsonReport(env, es[n]), EventPrefix(n), note);
      forall i: nat, own
        ensures FromEvent(env, es, note, i, own) <==>
          (if i == n then FromEvent(env, es, note, n, own) else FromEvent(env, es[..n], note, i, own))
      {
        if i < n {
          assert es[..n][i] == es[i];
        }
      }
      var report, prefix := JsonReport(env, es[n]), EventPrefix(n);
      forall own
        ensures FromEvent(env, es, note, n, own) <==>
          own in report && note.text == own.text && note.field == prefix + own.field
      {
      }
      hide FromEvent;
      if note in Prefixed(report, prefix) {
        var own :| own in report && note.text == own.text && note.field == prefix + own.field;
        assert FromEvent(env, es, note, n, own);
      }
    }
  }

  /** The batch report holds exactly the notes of its events, each under its event's number. */
  lemma BatchReportNames(env: Env, es: seq<Event>, note: Note)
    ensures note in BatchReport(env, es) <==> exists i, own :: FromEvent(env, es, note, i, own)
  {
    hide SortNotes, FromEvent, BatchLosses;
    BatchLossesNames(env, es, note);
    assert multiset(SortNotes(BatchLosses(env, es))) == multiset(BatchLosses(env, es));
    assert note in SortNotes(BatchLosses(env, es)) <==> note in multiset(SortNotes(BatchLosses(env, es)));
  }
}
