/** The queue adapter (`adapters/queue/queue.go`): a job message becomes an event and the
    retained message, and the two become the message again. Fields the adapter only copies
    (tags, attempts, timeouts, times and the like) are one value of any type. */
module QueueAdapter {
  import opened Bytes
  import opened Order
  import opened Event
  import opened Adapter

  datatype Metadata<X> = Metadata(
    originalID: bytes, jobType: bytes, contentType: bytes, tenantID: bytes,
    correlation: Option<map<bytes, bytes>>, traceContext: Option<map<bytes, bytes>>, rest: X)

  datatype Message<X, Y> = Message(body: Option<bytes>, metadata: Option<Metadata<X>>, rest: Y)

  datatype Options = Options(source: bytes, stableID: bytes, eventType: bytes, occurredAt: Option<Instant>)

  /** What the adapter takes from elsewhere: the validation of messages and of tenant
      identifiers, and the zero value of the copied metadata. */
  datatype Queue<!X, !Y> = Queue(env: Env, valid: Message<X, Y> -> bool, tenant: bytes -> bool, zero: X)

  const QUEUE: bytes := Ascii("queue")

  /** `validatedTenant` accepts the value. */
  predicate TenantOk<X, Y>(q: Queue<X, Y>, value: bytes) {
    value == [] || q.tenant(value)
  }

  function TextAt(m: Option<map<bytes, bytes>>, name: bytes): bytes {
    if m.Some? && name in m.value then m.value[name] else []
  }

  /** The extensions the adapter maps, in the order of its tables. */
  const MAPPED: seq<bytes> := [CORRELATIONID, REQUESTID, CAUSATIONID, TRACEPARENT, TRACESTATE, TENANTID]

  const SELECTED: set<bytes> := set n | n in MAPPED

  /** The retained text of a mapped extension; empty means there is none. */
  function Retained<X>(m: Metadata<X>, name: bytes): bytes {
    if name == TENANTID then m.tenantID
    else if name == TRACEPARENT || name == TRACESTATE then TextAt(m.traceContext, name)
    else TextAt(m.correlation, name)
  }

  lemma MappedApart()
    ensures TENANTID != CORRELATIONID && TENANTID != REQUESTID && TENANTID != CAUSATIONID
    ensures TENANTID != TRACEPARENT && TENANTID != TRACESTATE
    ensures {TRACEPARENT, TRACESTATE} !! {CORRELATIONID, REQUESTID, CAUSATIONID}
  {
    assert |TENANTID| == 8 && |CORRELATIONID| == 13 && |REQUESTID| == 9 && |CAUSATIONID| == 11;
    assert |TRACEPARENT| == 11 && |TRACESTATE| == 10;
    assert TRACEPARENT[0] == 0x74 && CAUSATIONID[0] == 0x63;
  }

  // ---------- to an event ----------

  predicate RetainedValid<X>(m: Metadata<X>) {
    forall n :: n in SELECTED ==> ValidCloudString(Retained(m, n))
  }

  function RetainedExtensions<X>(m: Metadata<X>): map<bytes, Attribute> {
    map n | n in SELECTED && Retained(m, n) != [] :: Attribute(KindString, Retained(m, n))
  }

  /** The result of `queueExtensions`. */
  function QueueExtensions<X, Y>(q: Queue<X, Y>, m: Option<Metadata<X>>): Option<map<bytes, Attribute>> {
    if m.None? then Some(map[])
    else if !TenantOk(q, m.value.tenantID) || !RetainedValid(m.value) then None
    else Some(RetainedExtensions(m.value))
  }

  /** The table both `queueExtensions` and `verifyExtensions` walk. */
  function Table<X>(m: Metadata<X>): (t: seq<Entry<bytes>>)
    ensures |t| == |MAPPED| && forall i :: 0 <= i < |t| ==> t[i] == Entry(MAPPED[i], Retained(m, MAPPED[i]))
  {
    MappedApart();
    [Entry(CORRELATIONID, TextAt(m.correlation, CORRELATIONID)),
     Entry(REQUESTID, TextAt(m.correlation, REQUESTID)),
     Entry(CAUSATIONID, TextAt(m.correlation, CAUSATIONID)),
     Entry(TRACEPARENT, TextAt(m.traceContext, TRACEPARENT)),
     Entry(TRACESTATE, TextAt(m.traceContext, TRACESTATE)),
     Entry(TENANTID, m.tenantID)]
  }

  /** `queueExtensions`. */
  method CollectQueueExtensions<X, Y>(q: Queue<X, Y>, m: Option<Metadata<X>>) returns (r: Option<map<bytes, Attribute>>)
    ensures r == QueueExtensions(q, m)
  {
    hide Table, MAPPED, Retained, ValidCloudString;
    var extensions: map<bytes, Attribute> := map[];
    if m.None? {
      return Some(extensions);
    }
    if !TenantOk(q, m.value.tenantID) {
      return None;
    }
    EmptyIsCloudString();
    var table := Table(m.value);
    for i := 0 to |table|
      invariant forall k :: 0 <= k < i ==> ValidCloudString(Retained(m.value, MAPPED[k]))
      invariant extensions ==
        map n | n in MAPPED[..i] && Retained(m.value, n) != [] :: Attribute(KindString, Retained(m.value, n))
    {
      assert MAPPED[i] in SELECTED;
      if table[i].value != [] {
        var attribute := NewStringAttribute(table[i].value);
        if attribute.None? {
          return None;
        }
        extensions := extensions[table[i].key := attribute.value];
      }
      assert MAPPED[..i + 1] == MAPPED[..i] + [MAPPED[i]];
    }
    assert MAPPED[..|table|] == MAPPED;
    assert extensions == RetainedExtensions(m.value);
    return Some(extensions);
  }

  function ChosenID<X, Y>(message: Message<X, Y>, options: Options): bytes {
    if options.stableID == [] && message.metadata.Some? then message.metadata.value.originalID else options.stableID
  }

  function ChosenType<X, Y>(message: Message<X, Y>, options: Options): bytes {
    if options.eventType == [] && message.metadata.Some? then message.metadata.value.jobType else options.eventType
  }

  function ChosenContentType<X, Y>(message: Message<X, Y>): bytes {
    if message.metadata.Some? then message.metadata.value.contentType else []
  }

  /** The event `ToCloudEvent` makes; the state it returns is the message itself. */
  function Converted<X, Y>(q: Queue<X, Y>, message: Message<X, Y>, options: Options): Option<Event> {
    if message.metadata.Some? && !TenantOk(q, message.metadata.value.tenantID) then None
    else if !q.valid(message) || options.source == [] then None
    else if ChosenID(message, options) == [] || ChosenType(message, options) == [] then None
    else
      var data :- DataFromPayload(q.env, ChosenContentType(message), PayloadBytes(message.body));
      var extensions :- QueueExtensions(q, message.metadata);
      NewEvent(q.env, Attributes(ChosenID(message, options), options.source, ChosenType(message, options),
                                 ChosenContentType(message), [], [], options.occurredAt, extensions), data)
  }

  /** `ToCloudEvent`. */
  method ToCloudEvent<X, Y>(q: Queue<X, Y>, message: Message<X, Y>, options: Options)
    returns (r: Option<(Event, Message<X, Y>)>)
    ensures r == (var e := Converted(q, message, options); if e.None? then None else Some((e.value, message)))
  {
    hide DataFromPayload, QueueExtensions, ValidAttributes;
    if message.metadata.Some? && !TenantOk(q, message.metadata.value.tenantID) {
      return None;
    }
    if !q.valid(message) || options.source == [] {
      return None;
    }
    var id, eventType, contentType: bytes := options.stableID, options.eventType, [];
    if message.metadata.Some? {
      if id == [] {
        id := message.metadata.value.originalID;
      }
      if eventType == [] {
        eventType := message.metadata.value.jobType;
      }
      contentType := message.metadata.value.contentType;
    }
    if id == [] || eventType == [] {
      return None;
    }
    var data := DataFromPayload(q.env, contentType, PayloadBytes(message.body));
    if data.None? {
      return None;
    }
    var extensions := CollectQueueExtensions(q, message.metadata);
    if extensions.None? {
      return None;
    }
    var e := NewEvent(q.env, Attributes(id, options.source, eventType, contentType, [], [], options.occurredAt,
      extensions.value), data.value);
    return if e.None? then None else Some((e.value, message));
  }

  // ---------- from an event ----------

  function MetadataOf<X, Y>(q: Queue<X, Y>, state: Message<X, Y>): Metadata<X> {
    if state.metadata.Some? then state.metadata.value else Metadata([], [], [], [], None, None, q.zero)
  }

  predicate ExtensionAgrees<X, Y>(q: Queue<X, Y>, e: Event, name: bytes, retained: bytes) {
    match StringExtension(e, name)
    case Unusable => false
    case NotThere => retained == []
    case Text(text) => retained == text && (name == TENANTID ==> TenantOk(q, text))
  }

  /** `verifyExtensions` succeeds. */
  predicate ExtensionsAgree<X, Y>(q: Queue<X, Y>, e: Event, m: Metadata<X>) {
    TenantOk(q, m.tenantID) && forall n :: n in SELECTED ==> ExtensionAgrees(q, e, n, Retained(m, n))
  }

  /** `verifyExtensions`. */
  method VerifyExtensions<X, Y>(q: Queue<X, Y>, e: Event, m: Metadata<X>) returns (ok: bool)
    ensures ok == ExtensionsAgree(q, e, m)
  {
    hide Table, MAPPED, Retained, StringExtension, TENANTID;
    if !TenantOk(q, m.tenantID) {
      return false;
    }
    var table := Table(m);
    for i := 0 to |table|
      invariant forall k :: 0 <= k < i ==> ExtensionAgrees(q, e, MAPPED[k], Retained(m, MAPPED[k]))
    {
      assert MAPPED[i] in SELECTED;
      var found := StringExtension(e, table[i].key);
      if found.Unusable? {
        return false;
      }
      if table[i].key == TENANTID && found.Text? && !TenantOk(q, found.text) {
        return false;
      }
      if (found.NotThere? && table[i].value != []) || (found.Text? && table[i].value != found.text) {
        return false;
      }
    }
    return true;
  }

  predicate Contradicts(retained: bytes, text: bytes) {
    retained != [] && retained != text
  }

  /** The message `FromCloudEvent` restores. */
  function Restored<X, Y>(q: Queue<X, Y>, e: Event, state: Message<X, Y>): Option<Message<X, Y>> {
    var m := MetadataOf(q, state);
    if !ValidEvent(q.env, e) || e.data.Absent? then None
    else if Contradicts(m.originalID, e.attributes.id) || Contradicts(m.jobType, e.attributes.eventType) then None
    else if Contradicts(m.contentType, e.attributes.dataContentType) || !ExtensionsAgree(q, e, m) then None
    else
      Some(Message(
        RestoreRetainedNil(e.data, state.body.None?),
        Some(m.(originalID := e.attributes.id, jobType := e.attributes.eventType,
          contentType := e.attributes.dataContentType)),
        state.rest))
  }

  const SOURCE_LOSS: Note := Note(SOURCE, NOT_REPRESENTED + QUEUE)
  const TIME_LOSS: Note := Note(TIME, NOT_REPRESENTED + QUEUE)

  ghost function QueueReport<X, Y>(q: Queue<X, Y>, e: Event): seq<Note> {
    [SOURCE_LOSS] + DataKindLosses(q.env, e, QUEUE) + OptionalContextLosses(e, QUEUE)
    + ExtensionLosses(e, QUEUE, SELECTED)
  }

  /** `FromCloudEvent`: a copy of the state is changed field by field. */
  method FromCloudEvent<X, Y>(q: Queue<X, Y>, e: Event, retained: Message<X, Y>)
    returns (r: Option<(Message<X, Y>, seq<Note>)>)
    ensures r == (var m := Restored(q, e, retained); if m.None? then None else Some((m.value, QueueReport(q, e))))
  {
    hide ValidEvent, ExtensionsAgree, DataKindLosses, OptionalContextLosses, ExtensionLosses, SELECTED, QUEUE, Ascii;
    if !ValidEvent(q.env, e) || e.data.Absent? {
      return None;
    }
    var state := retained;
    if state.metadata.None? {
      state := state.(metadata := Some(Metadata([], [], [], [], None, None, q.zero)));
    }
    var metadata := state.metadata.value;
    if metadata.originalID != [] && metadata.originalID != e.attributes.id {
      return None;
    }
    if metadata.jobType != [] && metadata.jobType != e.attributes.eventType {
      return None;
    }
    state := state.(body := RestoreRetainedNil(e.data, state.body.None?));
    metadata := metadata.(originalID := e.attributes.id);
    metadata := metadata.(jobType := e.attributes.eventType);
    if metadata.contentType != [] && metadata.contentType != e.attributes.dataContentType {
      return None;
    }
    metadata := metadata.(contentType := e.attributes.dataContentType);
    SameAgreement(q, e, MetadataOf(q, retained));
    var ok := VerifyExtensions(q, e, metadata);
    if !ok {
      return None;
    }
    state := state.(metadata := Some(metadata));
    var report := [Note(SOURCE, NOT_REPRESENTED + QUEUE)];
    report := AppendDataKindLoss(q.env, e, report, QUEUE);
    report := AppendOptionalContextLosses(e, report, QUEUE);
    report := AppendExtensionLosses(e, report, QUEUE, SELECTED);
    return Some((state, report));
  }

  /** The extensions do not depend on the fields that are filled in. */
  lemma SameAgreement<X, Y>(q: Queue<X, Y>, e: Event, m: Metadata<X>)
    ensures var filled := m.(originalID := e.attributes.id, jobType := e.attributes.eventType,
      contentType := e.attributes.dataContentType);
      ExtensionsAgree(q, e, filled) == ExtensionsAgree(q, e, m)
  {
    hide StringExtension, TENANTID, TRACEPARENT, TRACESTATE, MAPPED;
  }

  // ---------- reversal ----------

  /** The options do not contradict a retained identity or job type. */
  predicate Consistent<X, Y>(q: Queue<X, Y>, message: Message<X, Y>, options: Options) {
    var m := MetadataOf(q, message);
    && (options.stableID == [] || !Contradicts(m.originalID, options.stableID))
    && (options.eventType == [] || !Contradicts(m.jobType, options.eventType))
  }

  lemma ConvertedParts<X, Y>(q: Queue<X, Y>, message: Message<X, Y>, options: Options, e: Event)
    requires Converted(q, message, options) == Some(e)
    ensures var m := MetadataOf(q, message);
      && ValidEvent(q.env, e) && e.data.Present? && TenantOk(q, m.tenantID)
      && e.attributes.id == ChosenID(message, options) && e.attributes.eventType == ChosenType(message, options)
      && e.attributes.dataContentType == m.contentType && e.attributes.dataSchema == [] && e.attributes.subject == []
      && e.attributes.time == options.occurredAt && e.attributes.extensions == RetainedExtensions(m)
      && e.data.kind == TargetKind(q.env, m.contentType)
      && RestoreRetainedNil(e.data, message.body.None?) == message.body
  {
    hide DataFromPayload, ValidAttributes, ValidData, TargetKind, RestoreRetainedNil, PayloadBytes, RetainedValid;
    hide MAPPED;
    PayloadRestored(q.env, ChosenContentType(message), message.body);
    if message.metadata.None? {
      assert RetainedExtensions(MetadataOf(q, message)) == map[];
    }
  }

  lemma RetainedAgree<X, Y>(q: Queue<X, Y>, e: Event, m: Metadata<X>)
    requires TenantOk(q, m.tenantID) && e.attributes.extensions == RetainedExtensions(m)
    ensures ExtensionsAgree(q, e, m)
  {
    hide MAPPED;
    assert Retained(m, TENANTID) == m.tenantID;
    hide TENANTID;
  }

  /** Queue reversal. For every message that converts, restoring it succeeds if and only if the
      options do not contradict what the message retains, and then gives the message with
      only its identity and job type filled in, a nil body nil and an empty one empty, and a
      report of exactly the source, and the time if one was given. */
  lemma QueueReversal<X, Y>(q: Queue<X, Y>, message: Message<X, Y>, options: Options, e: Event)
    requires Converted(q, message, options) == Some(e)
    ensures Restored(q, e, message) ==
      if !Consistent(q, message, options) then None
      else Some(message.(metadata := Some(MetadataOf(q, message).(originalID := e.attributes.id,
        jobType := e.attributes.eventType))))
    ensures QueueReport(q, e) == if options.occurredAt.Some? then [SOURCE_LOSS, TIME_LOSS] else [SOURCE_LOSS]
  {
    hide Converted, ValidEvent, TargetKind, RestoreRetainedNil, ExtensionsAgree, ExtensionLosses, QUEUE, SELECTED;
    hide Ascii;
    var m := MetadataOf(q, message);
    ConvertedParts(q, message, options, e);
    RetainedAgree(q, e, m);
    ExtensionLossesEmpty(e, QUEUE, SELECTED);
    assert DataKindLosses(q.env, e, QUEUE) == [];
    assert [SOURCE_LOSS] + [] == [SOURCE_LOSS];
  }

  // ---------- the report is exact ----------

  lemma AgreedExtensions<X, Y>(q: Queue<X, Y>, e: Event, m: Metadata<X>)
    requires ValidEvent(q.env, e) && ExtensionsAgree(q, e, m)
    ensures RetainedValid(m)
    ensures RetainedExtensions(m) == e.attributes.extensions <==> e.attributes.extensions.Keys <= SELECTED
    ensures e.attributes.extensions.Keys <= SELECTED <==> ExtensionLosses(e, QUEUE, SELECTED) == []
  {
    hide SELECTED, Retained, ValidCore, ValidSelected, ValidName, Reserved, ValidData, TENANTID, QUEUE, ExtensionLosses;
    hide ValidCloudString;
    var x := e.attributes.extensions;
    ExtensionLossesEmpty(e, QUEUE, SELECTED);
    EmptyIsCloudString();
    forall n | n in SELECTED
      ensures ValidCloudString(Retained(m, n))
      ensures if n !in x then Retained(m, n) == []
        else Retained(m, n) != [] && x[n] == Attribute(KindString, Retained(m, n))
    {
      assert ExtensionAgrees(q, e, n, Retained(m, n));
      if n in x {
        assert ValidExtension(q.env, n, x[n]);
      }
    }
    var r := RetainedExtensions(m);
    assert r.Keys == x.Keys * SELECTED;
    if x.Keys <= SELECTED {
      assert r.Keys == x.Keys;
      assert r == x;
    }
  }

  lemma LossesApart<X, Y>(q: Queue<X, Y>, e: Event)
    ensures QueueReport(q, e) == (if e.attributes.time.Some? then [SOURCE_LOSS, TIME_LOSS] else [SOURCE_LOSS]) <==>
      && DataKindLosses(q.env, e, QUEUE) == [] && ExtensionLosses(e, QUEUE, SELECTED) == []
      && e.attributes.dataSchema == [] && e.attributes.subject == []
  {
    hide ExtensionLosses, QUEUE, SELECTED, TargetKind, Ascii;
  }

  /** The report is exact: restoring a message from an event and converting it again, with the
      event's own source and time as options, gives the same event if and only if the queue
      takes the message and the report holds nothing but the source and the time. */
  lemma QueueReportExact<X, Y>(q: Queue<X, Y>, e: Event, state: Message<X, Y>, message: Message<X, Y>)
    requires Restored(q, e, state) == Some(message)
    ensures Converted(q, message, Options(e.attributes.source, [], [], e.attributes.time)) == Some(e) <==>
      && q.valid(message)
      && QueueReport(q, e) == if e.attributes.time.Some? then [SOURCE_LOSS, TIME_LOSS] else [SOURCE_LOSS]
  {
    hide ValidAttributes, ValidData, DataFromPayload, RestoreRetainedNil, ExtensionsAgree, QueueReport;
    hide RetainedExtensions, RetainedValid, TargetKind, ExtensionLosses, QUEUE, SELECTED, PayloadBytes, Ascii;
    var a, m := e.attributes, message.metadata.value;
    SameAgreement(q, e, MetadataOf(q, state));
    assert ExtensionsAgree(q, e, m);
    AgreedTenant(q, e, m);
    AgreedExtensions(q, e, m);
    ValidMediaType(q.env, a);
    PayloadRemade(q.env, a.dataContentType, e.data, state.body.None?);
    LossesApart(q, e);
    RequiredNotEmpty(q.env, a);
  }

  lemma AgreedTenant<X, Y>(q: Queue<X, Y>, e: Event, m: Metadata<X>)
    requires ExtensionsAgree(q, e, m)
    ensures TenantOk(q, m.tenantID)
  {
  }

  lemma ValidMediaType(env: Env, a: Attributes)
    requires ValidAttributes(env, a)
    ensures a.dataContentType == [] || env.mediaType(a.dataContentType).Some?
  {
  }

  lemma RequiredNotEmpty(env: Env, a: Attributes)
    requires ValidAttributes(env, a)
    ensures a.id != [] && a.source != [] && a.eventType != []
  {
  }

  // ---------- the table ----------

  /** Each mapped extension is the text of its own entry: three of the correlation, two of the
      trace context, and the tenant. */
  predicate TableMirrors<X>(m: Metadata<X>, x: map<bytes, Attribute>) {
    && Mirrors(x, Ascii("correlationid"), TextAt(m.correlation, Ascii("correlationid")))
    && Mirrors(x, Ascii("requestid"), TextAt(m.correlation, Ascii("requestid")))
    && Mirrors(x, Ascii("causationid"), TextAt(m.correlation, Ascii("causationid")))
    && Mirrors(x, Ascii("traceparent"), TextAt(m.traceContext, Ascii("traceparent")))
    && Mirrors(x, Ascii("tracestate"), TextAt(m.traceContext, Ascii("tracestate")))
    && Mirrors(x, Ascii("tenantid"), m.tenantID)
  }

  const TABLE_NAMES: set<bytes> :=
    {Ascii("correlationid"), Ascii("requestid"), Ascii("causationid"), Ascii("traceparent"), Ascii("tracestate"),
     Ascii("tenantid")}

  lemma TableNames()
    ensures TABLE_NAMES == SELECTED
  {
    hide Ascii;
  }

  lemma TableByName<X>(m: Metadata<X>, x: map<bytes, Attribute>)
    ensures TableMirrors(m, x) <==> forall n :: n in SELECTED ==> Mirrors(x, n, Retained(m, n))
  {
    MappedApart();
    hide Ascii, Mirrors;
    assert SELECTED == {CORRELATIONID, REQUESTID, CAUSATIONID, TRACEPARENT, TRACESTATE, TENANTID};
  }

  /** Both directions use the same table: the extensions made for a message mirror it and there
      are no others, and the extensions of an event agree with a message exactly when they
      mirror it. */
  lemma TableExact<X, Y>(q: Queue<X, Y>, e: Event, m: Metadata<X>)
    ensures e.attributes.extensions == RetainedExtensions(m) <==>
      TableMirrors(m, e.attributes.extensions) && e.attributes.extensions.Keys <= TABLE_NAMES
    ensures ExtensionsAgree(q, e, m) <==> TenantOk(q, m.tenantID) && TableMirrors(m, e.attributes.extensions)
  {
    hide TableMirrors, TABLE_NAMES, SELECTED, MAPPED, Retained;
    var x := e.attributes.extensions;
    TableNames();
    TableByName(m, x);
    assert Retained(m, TENANTID) == m.tenantID by { RetainedTenant(m); }
    hide TENANTID;
    if TableMirrors(m, x) && x.Keys <= TABLE_NAMES {
      assert forall n :: n in SELECTED ==> Mirrors(x, n, Retained(m, n));
      assert x == RetainedExtensions(m);
    }
    if ExtensionsAgree(q, e, m) {
      forall n | n in SELECTED ensures Mirrors(x, n, Retained(m, n)) {
        assert ExtensionAgrees(q, e, n, Retained(m, n));
      }
    }
    if TenantOk(q, m.tenantID) && TableMirrors(m, x) {
      forall n | n in SELECTED ensures ExtensionAgrees(q, e, n, Retained(m, n)) {
        assert Mirrors(x, n, Retained(m, n));
      }
    }
  }

  /** Which event a message makes, if it makes one: the chosen identity and type, the given
      source and time, the payload under its content type and the table. */
  lemma ConvertedExact<X, Y>(q: Queue<X, Y>, message: Message<X, Y>, options: Options, e: Event)
    ensures Converted(q, message, options) == Some(e) <==>
      var m, a := MetadataOf(q, message), e.attributes;
      && q.valid(message) && TenantOk(q, m.tenantID) && ValidAttributes(q.env, a)
      && a.id == (if options.stableID == [] then m.originalID else options.stableID)
      && a.eventType == (if options.eventType == [] then m.jobType else options.eventType)
      && a.source == options.source && a.time == options.occurredAt && a.dataContentType == m.contentType
      && a.dataSchema == [] && a.subject == [] && TableMirrors(m, a.extensions) && a.extensions.Keys <= TABLE_NAMES
      && DataFromPayload(q.env, m.contentType, PayloadBytes(message.body)) == Some(e.data)
  {
    hide TableMirrors, TABLE_NAMES, RetainedExtensions, ExtensionsAgree, ValidAttributes, DataFromPayload, PayloadBytes;
    hide RetainedValid, TenantOk;
    var m := MetadataOf(q, message);
    TableExact(q, e, m);
    if e.attributes.extensions == RetainedExtensions(m) && ValidAttributes(q.env, e.attributes) {
      MirroredValid(q.env, e.attributes, m);
    }
    if ValidAttributes(q.env, e.attributes) {
      RequiredNotEmpty(q.env, e.attributes);
    }
    NoMetadataExtensions(q);
  }

  /** Which message an event and a state restore, if they restore one: what is retained is empty
      or what the event says, the table agrees, and everything else is kept. */
  lemma RestoredExact<X, Y>(q: Queue<X, Y>, e: Event, state: Message<X, Y>, message: Message<X, Y>)
    ensures Restored(q, e, state) == Some(message) <==>
      var m, a := MetadataOf(q, state), e.attributes;
      && ValidEvent(q.env, e) && e.data.Present?
      && m.originalID in {[], a.id} && m.jobType in {[], a.eventType} && m.contentType in {[], a.dataContentType}
      && TenantOk(q, m.tenantID) && TableMirrors(m, a.extensions)
      && message.body == (if e.data.bytes == [] && state.body == None then None else Some(e.data.bytes))
      && message.metadata == Some(m.(originalID := a.id, jobType := a.eventType, contentType := a.dataContentType))
      && message.rest == state.rest
  {
    hide ValidEvent, TableMirrors, ExtensionsAgree, TenantOk;
    TableExact(q, e, MetadataOf(q, state));
  }

  lemma MirroredValid<X>(env: Env, a: Attributes, m: Metadata<X>)
    requires ValidAttributes(env, a) && a.extensions == RetainedExtensions(m)
    ensures RetainedValid(m)
  {
    hide ValidCore, ValidSelected, ValidName, Reserved, SELECTED, Retained, ValidCloudString;
    EmptyIsCloudString();
    forall n | n in SELECTED ensures ValidCloudString(Retained(m, n)) {
      if Retained(m, n) != [] {
        assert n in a.extensions && ValidExtension(env, n, a.extensions[n]);
      }
    }
  }

  lemma NoMetadataExtensions<X, Y>(q: Queue<X, Y>)
    ensures RetainedExtensions(Metadata([], [], [], [], None, None, q.zero)) == map[] && TenantOk(q, [])
  {
    hide SELECTED;
  }

  lemma RetainedTenant<X>(m: Metadata<X>)
    ensures Retained(m, TENANTID) == m.tenantID
  {
  }

  /** The report names exactly what the queue does not hold: the source, a data kind that would
      not be made again, and every other attribute that is there and not in the table. */
  lemma QueueReportNames<X, Y>(q: Queue<X, Y>, e: Event, note: Note)
    requires ValidEvent(q.env, e)
    ensures note in QueueReport(q, e) <==>
      && note.text == Ascii("not represented by queue")
      && (|| note.field == Ascii("source")
          || (note.field == Ascii("data.kind") && e.data.Present?
              && DataFromPayload(q.env, e.attributes.dataContentType, e.data.bytes) != Some(e.data))
          || (note.field == Ascii("dataschema") && e.attributes.dataSchema != [])
          || (note.field == Ascii("subject") && e.attributes.subject != [])
          || (note.field == Ascii("time") && e.attributes.time.Some?)
          || (exists n :: n in e.attributes.extensions && n !in TABLE_NAMES && note.field == Ascii("extensions.") + n))
  {
    hide TABLE_NAMES, SELECTED, ValidEvent, DataFromPayload, DataKindLosses, ExtensionLosses;
    assert Ascii("not represented by queue") == NOT_REPRESENTED + QUEUE;
    hide Ascii;
    TableNames();
    DataKindLossName(q.env, e, QUEUE, note);
    ExtensionLossNames(e, QUEUE, SELECTED, note);
    OptionalLossNames(e, QUEUE, note);
  }
}
