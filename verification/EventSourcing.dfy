/** The event-sourcing adapter (`adapters/event-sourcing/event_sourcing.go`): a stored message
    becomes an event and retained state, and the two become the message again. Empty texts
    and a zero position mean absent, as in the store's own constructors. */
module EventSourcing {
  import opened Bytes
  import opened Order
  import opened Event
  import opened Adapter
  import Base64
  import Decimal

  datatype Stream = Stream(aggregateType: bytes, aggregateID: bytes)

  datatype Stored<M> = Stored(
    id: bytes, stream: Stream, streamVersion: nat, globalPosition: nat,
    name: bytes, version: nat, contentType: bytes, payload: bytes,
    metadata: M, recordedAt: Option<Instant>,
    correlationID: bytes, causationID: bytes, tenant: bytes, partition: bytes)

  datatype State<M> = State(
    stream: Stream, streamVersion: nat, globalPosition: nat, eventVersion: nat,
    metadata: M, recordedAt: Option<Instant>,
    correlationID: bytes, causationID: bytes, tenant: bytes, partition: bytes, trustMetadata: bool)

  datatype Options = Options(source: bytes, dataSchema: bytes, occurredAt: Option<Instant>)

  /** What is taken from elsewhere: the parsing of tenant identifiers, and whether the store's
      constructors accept a message. */
  datatype Store<!M> = Store(env: Env, tenant: bytes -> Option<bytes>, accepts: Stored<M> -> bool)

  const EVENTSCHEMA: bytes := Ascii("eventschema")
  const TARGET: bytes := Ascii("event-sourcing")
  const SELECTED: set<bytes> := {EVENTSCHEMA, CORRELATIONID, CAUSATIONID, TENANTID, PARTITIONKEY}

  // ---------- the stream as a subject ----------

  const DOT: byte := 0x2E

  /** `encodeStreamSubject`. */
  function StreamSubject(s: Stream): (subject: bytes)
    ensures subject != []
  {
    Base64.EncodeRawURL(s.aggregateType) + [DOT] + Base64.EncodeRawURL(s.aggregateID)
  }

  /** Two streams have the same subject if and only if both components agree, for all byte
      strings: the dot is not in the alphabet, and each component can be told from its text. */
  lemma StreamSubjectInjective(a: Stream, b: Stream)
    ensures StreamSubject(a) == StreamSubject(b) <==> a == b
  {
    hide Base64.EncodeRawURL;
    var x, y := Base64.EncodeRawURL(a.aggregateType), Base64.EncodeRawURL(b.aggregateType);
    var s, t := StreamSubject(a), StreamSubject(b);
    if s == t {
      assert s[..|x|] == x && t[..|y|] == y && s[|x|] == DOT && t[|y|] == DOT;
      IndexOfUnique(s, DOT, |x|);
      IndexOfUnique(t, DOT, |y|);
      assert s[|x| + 1..] == Base64.EncodeRawURL(a.aggregateID);
      assert t[|y| + 1..] == Base64.EncodeRawURL(b.aggregateID);
      Base64.RawURLInjective(a.aggregateType, b.aggregateType);
      Base64.RawURLInjective(a.aggregateID, b.aggregateID);
    }
  }

  // ---------- to an event ----------

  /** `validatedTenant`. */
  function ValidatedTenant<M>(s: Store<M>, value: bytes): Option<bytes> {
    if value == [] then Some([]) else s.tenant(value)
  }

  /** A String attribute, or the zero attribute when the text is not a String; the error is
      dropped, and the event's own validation rejects the zero attribute. */
  function StringOrZero(text: bytes): Attribute {
    if NewStringAttribute(text).Some? then NewStringAttribute(text).value else Attribute(KindUnassigned, [])
  }

  function OptionalExtension(name: bytes, present: bool, text: bytes): map<bytes, Attribute> {
    if present then map[name := StringOrZero(text)] else map[]
  }

  function StoredExtensions<M>(m: Stored<M>, tenant: bytes): map<bytes, Attribute> {
    map[EVENTSCHEMA := StringOrZero(Decimal.FormatInt(m.version))]
    + OptionalExtension(CORRELATIONID, m.correlationID != [], m.correlationID)
    + OptionalExtension(CAUSATIONID, m.causationID != [], m.causationID)
    + OptionalExtension(TENANTID, m.tenant != [], tenant)
    + OptionalExtension(PARTITIONKEY, m.partition != [], m.partition)
  }

  lemma PutExtension(x: map<bytes, Attribute>, name: bytes, present: bool, text: bytes)
    ensures var r := x + OptionalExtension(name, present, text);
      && r == (if present then x[name := StringOrZero(text)] else x)
      && r.Keys <= x.Keys + {name} && (forall k :: k in x && k != name ==> k in r && r[k] == x[k])
      && (name !in x ==> Carries(r, name, present, text))
      && (forall k, p, t :: k != name && Carries(x, k, p, t) ==> Carries(r, k, p, t))
  {
    hide StringOrZero;
  }

  function StateOf<M>(m: Stored<M>, tenant: bytes): State<M> {
    State(m.stream, m.streamVersion, m.globalPosition, m.version, m.metadata, m.recordedAt,
          m.correlationID, m.causationID, tenant, m.partition, true)
  }

  /** The result of `ToCloudEvent`. */
  function Converted<M>(s: Store<M>, m: Stored<M>, options: Options): Option<(Event, State<M>)> {
    if options.source == [] || m.id == [] then None
    else
      var data :- DataFromPayload(s.env, m.contentType, m.payload);
      var tenant :- ValidatedTenant(s, m.tenant);
      var e :- NewEvent(s.env, Attributes(m.id, options.source, m.name, m.contentType, options.dataSchema,
                                          StreamSubject(m.stream), options.occurredAt, StoredExtensions(m, tenant)),
                           data);
      Some((e, StateOf(m, tenant)))
  }

  /** `ToCloudEvent`: state and extensions are filled in together. */
  method ToCloudEvent<M>(s: Store<M>, m: Stored<M>, options: Options) returns (r: Option<(Event, State<M>)>)
    ensures r == Converted(s, m, options)
  {
    hide DataFromPayload, ValidAttributes, StringOrZero, StreamSubject, EVENTSCHEMA, CORRELATIONID, CAUSATIONID;
    hide TENANTID, PARTITIONKEY, OptionalExtension, Decimal.FormatInt, Carries;
    if options.source == [] || m.id == [] {
      return None;
    }
    var data := DataFromPayload(s.env, m.contentType, m.payload);
    if data.None? {
      return None;
    }
    var extensions := map[EVENTSCHEMA := StringOrZero(Decimal.FormatInt(m.version))];
    var state := State(m.stream, m.streamVersion, 0, m.version, m.metadata, m.recordedAt, [], [], [], [], true);
    if m.globalPosition != 0 {
      state := state.(globalPosition := m.globalPosition);
    }
    PutExtension(extensions, CORRELATIONID, m.correlationID != [], m.correlationID);
    if m.correlationID != [] {
      state := state.(correlationID := m.correlationID);
      extensions := extensions[CORRELATIONID := StringOrZero(state.correlationID)];
    }
    PutExtension(extensions, CAUSATIONID, m.causationID != [], m.causationID);
    if m.causationID != [] {
      state := state.(causationID := m.causationID);
      extensions := extensions[CAUSATIONID := StringOrZero(state.causationID)];
    }
    var tenant := ValidatedTenant(s, m.tenant);
    PutExtension(extensions, TENANTID, m.tenant != [], if tenant.Some? then tenant.value else []);
    if m.tenant != [] {
      if tenant.None? {
        return None;
      }
      state := state.(tenant := tenant.value);
      extensions := extensions[TENANTID := StringOrZero(state.tenant)];
    }
    PutExtension(extensions, PARTITIONKEY, m.partition != [], m.partition);
    if m.partition != [] {
      state := state.(partition := m.partition);
      extensions := extensions[PARTITIONKEY := StringOrZero(m.partition)];
    }
    assert state == StateOf(m, tenant.value);
    assert extensions == StoredExtensions(m, tenant.value);
    var e := NewEvent(s.env, Attributes(m.id, options.source, m.name, m.contentType, options.dataSchema,
                                        StreamSubject(m.stream), options.occurredAt, extensions), data.value);
    return if e.None? then None else Some((e.value, state));
  }

  // ---------- from an event ----------

  /** `MappedString`: what is retained must be what the event says; what is not retained is
      taken from the event only on trust. */
  function MappedString(e: Event, name: bytes, retained: bytes, trusted: bool): Option<bytes> {
    match StringExtension(e, name)
    case Unusable => None
    case Text(text) =>
      if retained != [] && text != retained then None
      else if retained == [] && !trusted then None
      else Some(text)
    case NotThere => if retained != [] then None else Some([])
  }

  /** The fields are complete enough to rebuild a message. */
  predicate Complete<M>(state: State<M>) {
    state.stream != Stream([], []) && state.streamVersion != 0 && state.eventVersion != 0 && state.recordedAt.Some?
  }

  /** The text of a mapped extension, empty when there is none. */
  function FoundText(e: Event, name: bytes): bytes {
    var found := StringExtension(e, name);
    if found.Text? then found.text else []
  }

  function SchemaVersion(e: Event): bytes {
    FoundText(e, EVENTSCHEMA)
  }

  function Rebuilt<M>(e: Event, state: State<M>, correlationID: bytes, causationID: bytes, tenant: bytes,
      partition: bytes): Stored<M>
    requires e.data.Present?
  {
    Stored(e.attributes.id, state.stream, state.streamVersion, state.globalPosition,
           e.attributes.eventType, state.eventVersion, e.attributes.dataContentType, e.data.bytes,
           state.metadata, state.recordedAt, correlationID, causationID, tenant, partition)
  }

  /** The message `FromCloudEvent` restores. */
  function Restored<M>(s: Store<M>, e: Event, state: State<M>): Option<Stored<M>> {
    if !ValidEvent(s.env, e) || !Complete(state) then None
    else if e.attributes.subject == [] || e.attributes.subject != StreamSubject(state.stream) then None
    else if SchemaVersion(e) != Decimal.FormatInt(state.eventVersion) then None
    else
      var correlationID :- MappedString(e, CORRELATIONID, state.correlationID, state.trustMetadata);
      var causationID :- MappedString(e, CAUSATIONID, state.causationID, state.trustMetadata);
      var mapped :- MappedString(e, TENANTID, state.tenant, state.trustMetadata);
      var tenant :- ValidatedTenant(s, mapped);
      var partition :- MappedString(e, PARTITIONKEY, state.partition, state.trustMetadata);
      if e.attributes.dataContentType == [] || e.data.Absent? then None
      else
        var m := Rebuilt(e, state, correlationID, causationID, tenant, partition);
        if s.accepts(m) then Some(m) else None
  }

  const SOURCE_LOSS: Note := Note(SOURCE, NOT_REPRESENTED + TARGET)
  const SCHEMA_LOSS: Note := Note(DATASCHEMA, NOT_REPRESENTED + TARGET)
  const TIME_LOSS: Note := Note(TIME, Ascii("recorded_at is not occurrence time"))

  ghost function StoreReport<M>(s: Store<M>, e: Event): seq<Note> {
    [SOURCE_LOSS] + DataKindLosses(s.env, e, TARGET)
    + (if e.attributes.dataSchema != [] then [SCHEMA_LOSS] else [])
    + (if e.attributes.time.Some? then [TIME_LOSS] else [])
    + ExtensionLosses(e, TARGET, SELECTED)
  }

  /** `FromCloudEvent`. */
  method FromCloudEvent<M>(s: Store<M>, e: Event, state: State<M>) returns (r: Option<(Stored<M>, seq<Note>)>)
    ensures r == (var m := Restored(s, e, state); if m.None? then None else Some((m.value, StoreReport(s, e))))
  {
    hide ValidEvent, StreamSubject, MappedString, SchemaVersion, DataKindLosses, ExtensionLosses, SELECTED, TARGET;
    hide CORRELATIONID, CAUSATIONID, TENANTID, PARTITIONKEY, Ascii;
    if !ValidEvent(s.env, e) || !Complete(state) {
      return None;
    }
    if e.attributes.subject == [] || e.attributes.subject != StreamSubject(state.stream) {
      return None;
    }
    if SchemaVersion(e) != Decimal.FormatInt(state.eventVersion) {
      return None;
    }
    var correlationID := MappedString(e, CORRELATIONID, state.correlationID, state.trustMetadata);
    var causationID := MappedString(e, CAUSATIONID, state.causationID, state.trustMetadata);
    var tenant := MappedString(e, TENANTID, state.tenant, state.trustMetadata);
    if correlationID.None? || causationID.None? || tenant.None? {
      return None;
    }
    tenant := ValidatedTenant(s, tenant.value);
    if tenant.None? {
      return None;
    }
    var partition := MappedString(e, PARTITIONKEY, state.partition, state.trustMetadata);
    if partition.None? || e.attributes.dataContentType == [] || e.data.Absent? {
      return None;
    }
    var m := Rebuilt(e, state, correlationID.value, causationID.value, tenant.value, partition.value);
    if !s.accepts(m) {
      return None;
    }
    var report := [SOURCE_LOSS];
    report := AppendDataKindLoss(s.env, e, report, TARGET);
    ghost var before := report;
    if e.attributes.dataSchema != [] {
      report := report + [SCHEMA_LOSS];
    }
    assert report == before + if e.attributes.dataSchema != [] then [SCHEMA_LOSS] else [];
    before := report;
    if e.attributes.time.Some? {
      report := report + [TIME_LOSS];
    }
    assert report == before + if e.attributes.time.Some? then [TIME_LOSS] else [];
    report := AppendExtensionLosses(e, report, TARGET, SELECTED);
    return Some((m, report));
  }

  // ---------- reversal ----------

  lemma SelectedApart()
    ensures EVENTSCHEMA != CORRELATIONID && EVENTSCHEMA != CAUSATIONID && EVENTSCHEMA != TENANTID
    ensures EVENTSCHEMA != PARTITIONKEY
    ensures CORRELATIONID != CAUSATIONID && CORRELATIONID != TENANTID && CORRELATIONID != PARTITIONKEY
    ensures CAUSATIONID != TENANTID && CAUSATIONID != PARTITIONKEY && TENANTID != PARTITIONKEY
  {
    assert |EVENTSCHEMA| == 11 && |CORRELATIONID| == 13 && |CAUSATIONID| == 11;
    assert |TENANTID| == 8 && |PARTITIONKEY| == 12;
    assert EVENTSCHEMA[0] == 0x65 && CAUSATIONID[0] == 0x63;
  }

  lemma StoredNames<M>(m: Stored<M>, tenant: bytes)
    ensures StoredExtensions(m, tenant).Keys <= SELECTED
  {
    hide EVENTSCHEMA, CORRELATIONID, CAUSATIONID, TENANTID, PARTITIONKEY, StringOrZero, Decimal.FormatInt;
  }

  /** Four extensions are put beside a first one, under names that are all different. */
  lemma FourPut(x: map<bytes, Attribute>, ns: seq<bytes>, ps: seq<bool>, ts: seq<bytes>)
    requires |ns| == |ps| == |ts| == 4 && forall i, j :: 0 <= i < j < 4 ==> ns[i] != ns[j]
    requires forall i :: 0 <= i < 4 ==> ns[i] !in x
    ensures var r := x
        + OptionalExtension(ns[0], ps[0], ts[0]) + OptionalExtension(ns[1], ps[1], ts[1])
        + OptionalExtension(ns[2], ps[2], ts[2]) + OptionalExtension(ns[3], ps[3], ts[3]);
      && (forall i :: 0 <= i < 4 ==> Carries(r, ns[i], ps[i], ts[i]))
      && (forall k, t :: k !in ns && Carries(x, k, true, t) ==> Carries(r, k, true, t))
  {
    hide OptionalExtension, Carries;
    var x1 := x + OptionalExtension(ns[0], ps[0], ts[0]);
    var x2 := x1 + OptionalExtension(ns[1], ps[1], ts[1]);
    var x3 := x2 + OptionalExtension(ns[2], ps[2], ts[2]);
    PutExtension(x, ns[0], ps[0], ts[0]);
    PutExtension(x1, ns[1], ps[1], ts[1]);
    PutExtension(x2, ns[2], ps[2], ts[2]);
    PutExtension(x3, ns[3], ps[3], ts[3]);
  }

  /** The text a mapped extension carries in the event that was made. */
  lemma ExtensionText<M>(m: Stored<M>, tenant: bytes)
    ensures var x := StoredExtensions(m, tenant);
      && Carries(x, EVENTSCHEMA, true, Decimal.FormatInt(m.version))
      && Carries(x, CORRELATIONID, m.correlationID != [], m.correlationID)
      && Carries(x, CAUSATIONID, m.causationID != [], m.causationID)
      && Carries(x, TENANTID, m.tenant != [], tenant)
      && Carries(x, PARTITIONKEY, m.partition != [], m.partition)
  {
    SelectedApart();
    hide EVENTSCHEMA, CORRELATIONID, CAUSATIONID, TENANTID, PARTITIONKEY, StringOrZero, Decimal.FormatInt;
    hide OptionalExtension;
    var x := map[EVENTSCHEMA := StringOrZero(Decimal.FormatInt(m.version))];
    assert Carries(x, EVENTSCHEMA, true, Decimal.FormatInt(m.version));
    hide Carries;
    var ns := [CORRELATIONID, CAUSATIONID, TENANTID, PARTITIONKEY];
    var ps := [m.correlationID != [], m.causationID != [], m.tenant != [], m.partition != []];
    var ts := [m.correlationID, m.causationID, tenant, m.partition];
    FourPut(x, ns, ps, ts);
    assert ns[0] == CORRELATIONID && ns[1] == CAUSATIONID && ns[2] == TENANTID && ns[3] == PARTITIONKEY;
  }

  predicate Carries(x: map<bytes, Attribute>, name: bytes, present: bool, text: bytes) {
    if present then name in x && x[name] == StringOrZero(text) else name !in x
  }

  /** A valid event carries no zero attribute, so its text is the one that was put in; an empty
      text that was put in cannot be read. */
  lemma CarriedText(env: Env, e: Event, name: bytes, present: bool, text: bytes)
    requires ValidEvent(env, e) && Carries(e.attributes.extensions, name, present, text)
    ensures StringExtension(e, name) == if !present then NotThere else if text == [] then Unusable else Text(text)
    ensures (present <==> text != []) ==> MappedString(e, name, text, true) == Some(text)
    ensures present && text == [] ==> MappedString(e, name, text, true) == None
  {
    hide ValidName, Reserved, ValidCore, ValidSelected, ValidCloudString, ValidData;
    if present {
      assert ValidExtension(env, name, e.attributes.extensions[name]);
    }
  }

  lemma VersionText(n: nat)
    ensures Decimal.FormatInt(n) != []
  {
  }

  /** What conversion leaves to the store: a complete message with a content type, whose
      parsed tenant is not empty and parses again, and that the constructors accept. */
  predicate Restorable<M>(s: Store<M>, m: Stored<M>, tenant: bytes) {
    && Complete(StateOf(m, tenant)) && m.contentType != []
    && (m.tenant != [] ==> tenant != [])
    && ValidatedTenant(s, tenant).Some? && s.accepts(m.(tenant := ValidatedTenant(s, tenant).value))
  }

  lemma ConvertedParts<M>(s: Store<M>, m: Stored<M>, options: Options, e: Event, state: State<M>)
    requires Converted(s, m, options) == Some((e, state))
    ensures ValidEvent(s.env, e) && e.data.Present? && e.data.bytes == m.payload
    ensures e.data.kind == TargetKind(s.env, m.contentType)
    ensures ValidatedTenant(s, m.tenant) == Some(state.tenant) && state == StateOf(m, state.tenant)
    ensures e.attributes == Attributes(m.id, options.source, m.name, m.contentType, options.dataSchema,
                                       StreamSubject(m.stream), options.occurredAt, StoredExtensions(m, state.tenant))
  {
    hide DataFromPayload, ValidAttributes, ValidData, TargetKind, RestoreRetainedNil, StoredExtensions, StreamSubject;
    PayloadRestored(s.env, m.contentType, Some(m.payload));
  }

  /** Every mapped field reads back as the state retains it. */
  lemma MappedBack<M>(s: Store<M>, m: Stored<M>, e: Event, tenant: bytes)
    requires ValidEvent(s.env, e) && e.attributes.extensions == StoredExtensions(m, tenant)
    requires m.tenant == [] ==> tenant == []
    ensures SchemaVersion(e) == Decimal.FormatInt(m.version)
    ensures MappedString(e, CORRELATIONID, m.correlationID, true) == Some(m.correlationID)
    ensures MappedString(e, CAUSATIONID, m.causationID, true) == Some(m.causationID)
    ensures MappedString(e, TENANTID, tenant, true) == if m.tenant != [] && tenant == [] then None else Some(tenant)
    ensures MappedString(e, PARTITIONKEY, m.partition, true) == Some(m.partition)
    ensures e.attributes.extensions.Keys <= SELECTED
  {
    hide ValidEvent, MappedString, StringOrZero, Decimal.FormatInt, StringExtension, StoredExtensions, SELECTED;
    hide Carries, EVENTSCHEMA, CORRELATIONID, CAUSATIONID, TENANTID, PARTITIONKEY;
    ExtensionText(m, tenant);
    StoredNames(m, tenant);
    VersionText(m.version);
    CarriedText(s.env, e, EVENTSCHEMA, true, Decimal.FormatInt(m.version));
    CarriedText(s.env, e, CORRELATIONID, m.correlationID != [], m.correlationID);
    CarriedText(s.env, e, CAUSATIONID, m.causationID != [], m.causationID);
    CarriedText(s.env, e, TENANTID, m.tenant != [], tenant);
    CarriedText(s.env, e, PARTITIONKEY, m.partition != [], m.partition);
  }

  /** Reversal. For every message that converts, restoring it from the event and the retained
      state gives the same message, its tenant parsed once more, and a report of exactly the
      source, the data schema if one was given and the time if one was given. It succeeds if
      and only if the message is complete, its parsed tenant parses again and the store itself
      would take it. */
  lemma StoreReversal<M>(s: Store<M>, m: Stored<M>, options: Options, e: Event, state: State<M>)
    requires Converted(s, m, options) == Some((e, state))
    ensures Restored(s, e, state) ==
      if Restorable(s, m, state.tenant) then Some(m.(tenant := ValidatedTenant(s, state.tenant).value)) else None
    ensures StoreReport(s, e) ==
      [SOURCE_LOSS] + (if options.dataSchema != [] then [SCHEMA_LOSS] else [])
        + (if options.occurredAt.Some? then [TIME_LOSS] else [])
  {
    hide Converted, ValidEvent, MappedString, SchemaVersion, StreamSubject, StoredExtensions, TargetKind;
    hide ExtensionLosses, SELECTED, TARGET, EVENTSCHEMA, CORRELATIONID, CAUSATIONID, TENANTID, PARTITIONKEY;
    hide Decimal.FormatInt, Ascii;
    ConvertedParts(s, m, options, e, state);
    MappedBack(s, m, e, state.tenant);
    ExtensionLossesEmpty(e, TARGET, SELECTED);
    assert DataKindLosses(s.env, e, TARGET) == [];
  }

  /** The event is bound to its stream and schema version: no state of another stream, or of
      another version, restores anything from it. */
  lemma BoundToStream<M>(s: Store<M>, m: Stored<M>, options: Options, e: Event, state: State<M>, other: State<M>)
    requires Converted(s, m, options) == Some((e, state)) && Restored(s, e, other).Some?
    ensures other.stream == m.stream && other.eventVersion == m.version
  {
    hide Converted, ValidEvent, MappedString, SchemaVersion, StreamSubject, StoredExtensions, TargetKind, SELECTED;
    hide Decimal.FormatInt, EVENTSCHEMA, CORRELATIONID, CAUSATIONID, TENANTID, PARTITIONKEY;
    ConvertedParts(s, m, options, e, state);
    MappedBack(s, m, e, state.tenant);
    StreamSubjectInjective(other.stream, m.stream);
    Decimal.FormatInjective(other.eventVersion, m.version);
  }

  // ---------- the report is exact ----------

  lemma MappedText(e: Event, name: bytes, retained: bytes, trusted: bool)
    requires MappedString(e, name, retained, trusted).Some?
    ensures MappedString(e, name, retained, trusted) == Some(FoundText(e, name)) && !StringExtension(e, name).Unusable?
  {
  }

  /** A usable extension of a valid event is the String of its text. */
  lemma FoundCarried(env: Env, e: Event, name: bytes)
    requires ValidEvent(env, e) && !StringExtension(e, name).Unusable?
    ensures Carries(e.attributes.extensions, name, FoundText(e, name) != [], FoundText(e, name))
    ensures ValidCloudString(FoundText(e, name))
  {
    EmptyIsCloudString();
    hide ValidName, Reserved, ValidCore, ValidSelected, ValidCloudString, ValidData;
    if name in e.attributes.extensions {
      assert ValidExtension(env, name, e.attributes.extensions[name]);
    }
  }

  lemma SameCarried(x: map<bytes, Attribute>, y: map<bytes, Attribute>, name: bytes, present: bool, text: bytes)
    requires Carries(x, name, present, text) && Carries(y, name, present, text)
    ensures (name in x <==> name in y) && (name in x ==> x[name] == y[name])
  {
  }

  lemma RestoredParts<M>(s: Store<M>, e: Event, state: State<M>, m: Stored<M>)
    requires Restored(s, e, state) == Some(m)
    ensures ValidEvent(s.env, e) && e.data.Present? && e.attributes.subject == StreamSubject(m.stream)
    ensures m.id == e.attributes.id && m.name == e.attributes.eventType
    ensures m.contentType == e.attributes.dataContentType && m.payload == e.data.bytes
    ensures FoundText(e, EVENTSCHEMA) == Decimal.FormatInt(m.version) && StringExtension(e, EVENTSCHEMA).Text?
    ensures m.correlationID == FoundText(e, CORRELATIONID) && !StringExtension(e, CORRELATIONID).Unusable?
    ensures m.causationID == FoundText(e, CAUSATIONID) && !StringExtension(e, CAUSATIONID).Unusable?
    ensures m.partition == FoundText(e, PARTITIONKEY) && !StringExtension(e, PARTITIONKEY).Unusable?
    ensures ValidatedTenant(s, FoundText(e, TENANTID)) == Some(m.tenant) && !StringExtension(e, TENANTID).Unusable?
  {
    hide ValidEvent, StreamSubject, MappedString, StringExtension, Decimal.FormatInt, ValidatedTenant, EVENTSCHEMA;
    hide CORRELATIONID, CAUSATIONID, TENANTID, PARTITIONKEY;
    VersionText(m.version);
    MappedText(e, CORRELATIONID, state.correlationID, state.trustMetadata);
    MappedText(e, CAUSATIONID, state.causationID, state.trustMetadata);
    MappedText(e, TENANTID, state.tenant, state.trustMetadata);
    MappedText(e, PARTITIONKEY, state.partition, state.trustMetadata);
  }

  /** The extensions are made again exactly when all of them are mapped and the tenant is. */
  lemma ExtensionsRemade<M>(s: Store<M>, e: Event, state: State<M>, m: Stored<M>, tenant: bytes)
    requires Restored(s, e, state) == Some(m) && ValidatedTenant(s, m.tenant) == Some(tenant)
    ensures StoredExtensions(m, tenant) == e.attributes.extensions <==>
      e.attributes.extensions.Keys <= SELECTED && tenant == FoundText(e, TENANTID)
  {
    hide Restored, ValidEvent, StreamSubject, StringExtension, Decimal.FormatInt, FoundText, StoredExtensions, Carries;
    hide EVENTSCHEMA, CORRELATIONID, CAUSATIONID, TENANTID, PARTITIONKEY;
    var x, y, t := e.attributes.extensions, StoredExtensions(m, tenant), FoundText(e, TENANTID);
    RestoredParts(s, e, state, m);
    StoredNames(m, tenant);
    ExtensionText(m, tenant);
    VersionText(m.version);
    FoundCarried(s.env, e, EVENTSCHEMA);
    FoundCarried(s.env, e, CORRELATIONID);
    FoundCarried(s.env, e, CAUSATIONID);
    FoundCarried(s.env, e, TENANTID);
    FoundCarried(s.env, e, PARTITIONKEY);
    SameCarried(x, y, EVENTSCHEMA, true, Decimal.FormatInt(m.version));
    SameCarried(x, y, CORRELATIONID, m.correlationID != [], m.correlationID);
    SameCarried(x, y, CAUSATIONID, m.causationID != [], m.causationID);
    SameCarried(x, y, PARTITIONKEY, m.partition != [], m.partition);
    if y == x {
      TenantTextOf(x, m.tenant != [], tenant, t);
    }
    if x.Keys <= SELECTED && tenant == t {
      SameCarried(x, y, TENANTID, t != [], t);
      SameMap(x, y);
    }
  }

  lemma SameMap(x: map<bytes, Attribute>, y: map<bytes, Attribute>)
    requires x.Keys <= SELECTED && y.Keys <= SELECTED
    requires forall n :: n in SELECTED ==> (n in x <==> n in y) && (n in x ==> x[n] == y[n])
    ensures x == y
  {
    hide SELECTED;
  }

  /** What one map carries under one name is one text, as long as it is a String. */
  lemma TenantTextOf(x: map<bytes, Attribute>, present: bool, tenant: bytes, t: bytes)
    requires Carries(x, TENANTID, present, tenant) && Carries(x, TENANTID, t != [], t)
    requires ValidCloudString(t) && (!present ==> tenant == [])
    ensures tenant == t
  {
    hide TENANTID, ValidCloudString;
  }

  /** The report is exact: restoring a message from an event and converting it again, with the
      event's own source, data schema and time as options, gives the same event if and only if
      no data kind and no extension is reported and the restored tenant parses to the event's. */
  lemma StoreReportExact<M>(s: Store<M>, e: Event, state: State<M>, m: Stored<M>)
    requires Restored(s, e, state) == Some(m)
    ensures var again := Converted(s, m, Options(e.attributes.source, e.attributes.dataSchema, e.attributes.time));
      (again.Some? && again.value.0 == e) <==>
        && DataKindLosses(s.env, e, TARGET) == [] && ExtensionLosses(e, TARGET, SELECTED) == []
        && ValidatedTenant(s, m.tenant) == Some(FoundText(e, TENANTID))
  {
    hide Restored, ValidAttributes, ValidData, StreamSubject, StringExtension, FoundText, StoredExtensions, StateOf;
    hide ExtensionLosses, DataKindLosses, DataFromPayload, ValidatedTenant, SELECTED, TARGET, EVENTSCHEMA;
    hide CORRELATIONID, CAUSATIONID, TENANTID, PARTITIONKEY;
    RestoredParts(s, e, state, m);
    DataKindLossExact(s.env, e, TARGET);
    ExtensionLossesEmpty(e, TARGET, SELECTED);
    IdentityPresent(s.env, e.attributes);
    if ValidatedTenant(s, m.tenant).Some? {
      ExtensionsRemade(s, e, state, m, ValidatedTenant(s, m.tenant).value);
    }
  }

  lemma IdentityPresent(env: Env, a: Attributes)
    requires ValidAttributes(env, a)
    ensures a.id != [] && a.source != []
  {
    hide ValidCloudString, ValidExtension, ValidSelected;
  }

  // ---------- what is restored ----------

  /** The event has the text under the name, and it is the retained one or, where nothing is
      retained, taken on trust. */
  predicate Takes(e: Event, name: bytes, retained: bytes, trusted: bool, text: bytes) {
    Mirrors(e.attributes.extensions, name, text) && (text == retained || (retained == [] && trusted))
  }

  lemma MappedExact(e: Event, name: bytes, retained: bytes, trusted: bool, text: bytes)
    ensures MappedString(e, name, retained, trusted) == Some(text) <==> Takes(e, name, retained, trusted, text)
  {
    StringExtensionExact(e, name, text);
  }

  /** The message is the one that the event and the state say, field by field. */
  ghost predicate SaysStored<M>(e: Event, state: State<M>, m: Stored<M>) {
    && m.id == e.attributes.id && m.name == e.attributes.eventType && m.contentType == e.attributes.dataContentType
    && e.data.Present? && m.payload == e.data.bytes
    && m.stream == state.stream && m.streamVersion == state.streamVersion && m.version == state.eventVersion
    && m.globalPosition == state.globalPosition && m.metadata == state.metadata && m.recordedAt == state.recordedAt
  }

  /** What is restored, for every event and state: a message that the store accepts, from an
      event bound to the stream and the version of the state, whose texts are those retained or
      trusted. */
  lemma RestoredExact<M>(s: Store<M>, e: Event, state: State<M>, m: Stored<M>)
    ensures Restored(s, e, state) == Some(m) <==>
      && ValidEvent(s.env, e) && SaysStored(e, state, m)
      && !(state.stream.aggregateType == [] && state.stream.aggregateID == [])
      && state.streamVersion > 0 && state.eventVersion > 0 && state.recordedAt.Some?
      && e.attributes.subject == StreamSubject(state.stream) && e.attributes.dataContentType != []
      && Mirrors(e.attributes.extensions, Ascii("eventschema"), Decimal.FormatInt(state.eventVersion))
      && Takes(e, Ascii("correlationid"), state.correlationID, state.trustMetadata, m.correlationID)
      && Takes(e, Ascii("causationid"), state.causationID, state.trustMetadata, m.causationID)
      && Takes(e, Ascii("partitionkey"), state.partition, state.trustMetadata, m.partition)
      && (exists text :: && Takes(e, Ascii("tenantid"), state.tenant, state.trustMetadata, text)
                         && ValidatedTenant(s, text) == Some(m.tenant))
      && s.accepts(m)
  {
    hide ValidEvent, StreamSubject, MappedString, Decimal.FormatInt, Mirrors, Ascii, StringExtension;
    VersionText(state.eventVersion);
    StringExtensionExact(e, EVENTSCHEMA, Decimal.FormatInt(state.eventVersion));
    MappedExact(e, CORRELATIONID, state.correlationID, state.trustMetadata, m.correlationID);
    MappedExact(e, CAUSATIONID, state.causationID, state.trustMetadata, m.causationID);
    MappedExact(e, PARTITIONKEY, state.partition, state.trustMetadata, m.partition);
    forall text
      ensures MappedString(e, TENANTID, state.tenant, state.trustMetadata) == Some(text) <==>
        Takes(e, TENANTID, state.tenant, state.trustMetadata, text)
    {
      MappedExact(e, TENANTID, state.tenant, state.trustMetadata, text);
    }
    hide Takes;
  }

  /** The texts put into an event, as a valid event carries them. */
  ghost predicate Puts<M>(m: Stored<M>, tenant: bytes, x: map<bytes, Attribute>) {
    && x.Keys <= {Ascii("eventschema"), Ascii("correlationid"), Ascii("causationid"), Ascii("tenantid"),
                  Ascii("partitionkey")}
    && Mirrors(x, Ascii("eventschema"), Decimal.FormatInt(m.version))
    && Mirrors(x, Ascii("correlationid"), m.correlationID) && Mirrors(x, Ascii("causationid"), m.causationID)
    && Mirrors(x, Ascii("partitionkey"), m.partition)
    && (if m.tenant != [] && tenant == []
        then Ascii("tenantid") in x && x[Ascii("tenantid")] == Attribute(KindString, [])
        else Mirrors(x, Ascii("tenantid"), tenant))
  }

  lemma CarriesMirrors(env: Env, x: map<bytes, Attribute>, name: bytes, text: bytes)
    requires name in x ==> ValidExtension(env, name, x[name])
    ensures Carries(x, name, text != [], text) <==> Mirrors(x, name, text)
    ensures Carries(x, name, true, text) <==> name in x && x[name] == Attribute(KindString, text)
  {
    hide ValidName, Reserved, ValidCloudString;
  }

  lemma PutsExact<M>(env: Env, m: Stored<M>, tenant: bytes, x: map<bytes, Attribute>)
    requires forall n :: n in x ==> ValidExtension(env, n, x[n])
    requires m.tenant == [] ==> tenant == []
    ensures x == StoredExtensions(m, tenant) <==> Puts(m, tenant, x)
  {
    hide ValidExtension, StringOrZero, Decimal.FormatInt, StoredExtensions, Ascii, Mirrors, Carries;
    ExtensionText(m, tenant);
    StoredNames(m, tenant);
    VersionText(m.version);
    CarriesMirrors(env, x, EVENTSCHEMA, Decimal.FormatInt(m.version));
    CarriesMirrors(env, x, CORRELATIONID, m.correlationID);
    CarriesMirrors(env, x, CAUSATIONID, m.causationID);
    CarriesMirrors(env, x, PARTITIONKEY, m.partition);
    CarriesMirrors(env, x, TENANTID, tenant);
    if Puts(m, tenant, x) {
      var y := StoredExtensions(m, tenant);
      SameCarried(x, y, EVENTSCHEMA, true, Decimal.FormatInt(m.version));
      SameCarried(x, y, CORRELATIONID, m.correlationID != [], m.correlationID);
      SameCarried(x, y, CAUSATIONID, m.causationID != [], m.causationID);
      SameCarried(x, y, PARTITIONKEY, m.partition != [], m.partition);
      SameCarried(x, y, TENANTID, m.tenant != [], tenant);
      SameMap(x, y);
    }
  }

  /** Which event and state a message makes, if it makes any. */
  lemma ConvertedExact<M>(s: Store<M>, m: Stored<M>, options: Options, e: Event, state: State<M>)
    ensures Converted(s, m, options) == Some((e, state)) <==>
      var a := e.attributes;
      && ValidAttributes(s.env, a) && a.id == m.id && a.eventType == m.name && a.dataContentType == m.contentType
      && a.source == options.source && a.dataSchema == options.dataSchema && a.time == options.occurredAt
      && a.subject ==
           Base64.EncodeRawURL(m.stream.aggregateType) + Ascii(".") + Base64.EncodeRawURL(m.stream.aggregateID)
      && DataFromPayload(s.env, m.contentType, m.payload) == Some(e.data)
      && ValidatedTenant(s, m.tenant) == Some(state.tenant) && Puts(m, state.tenant, a.extensions)
      && state == StateOf(m, state.tenant)
  {
    hide DataFromPayload, ValidAttributes, StoredExtensions, Puts, Base64.EncodeRawURL;
    assert Ascii(".") == [DOT];
    hide Ascii;
    if ValidAttributes(s.env, e.attributes) {
      IdentityPresent(s.env, e.attributes);
      ExtensionsValid(s.env, e.attributes);
      if ValidatedTenant(s, m.tenant) == Some(state.tenant) {
        PutsExact(s.env, m, state.tenant, e.attributes.extensions);
      }
    }
  }

  lemma ExtensionsValid(env: Env, a: Attributes)
    requires ValidAttributes(env, a)
    ensures forall n :: n in a.extensions ==> ValidExtension(env, n, a.extensions[n])
  {
    hide ValidExtension, ValidCore, ValidSelected;
  }

  /** The report names exactly what the store does not hold. */
  lemma StoreReportNames<M>(s: Store<M>, e: Event, note: Note)
    requires ValidEvent(s.env, e)
    ensures note in StoreReport(s, e) <==>
      || (note == Note(Ascii("time"), Ascii("recorded_at is not occurrence time")) && e.attributes.time.Some?)
      || (&& note.text == Ascii("not represented by event-sourcing")
          && (|| note.field == Ascii("source")
              || (note.field == Ascii("data.kind") && e.data.Present?
                  && DataFromPayload(s.env, e.attributes.dataContentType, e.data.bytes) != Some(e.data))
              || (note.field == Ascii("dataschema") && e.attributes.dataSchema != [])
              || (exists n ::
                    && n in e.attributes.extensions && note.field == Ascii("extensions.") + n
                    && n !in [Ascii("eventschema"), Ascii("correlationid"), Ascii("causationid"), Ascii("tenantid"),
                              Ascii("partitionkey")])))
  {
    hide ValidEvent, DataFromPayload, DataKindLosses, ExtensionLosses;
    assert Ascii("not represented by event-sourcing") == NOT_REPRESENTED + TARGET;
    hide Ascii;
    DataKindLossName(s.env, e, TARGET, note);
    ExtensionLossNames(e, TARGET, SELECTED, note);
  }
}
