/** What an accepted binary message makes: the parts of the argument that HTTP and Kafka share.
    Whatever is accepted encodes without loss unless it has data and no content type, and then
    comes back if its time does. */
module BinaryNormal {
  import opened Bytes
  import opened Order
  import opened Event
  import opened Conversion
  import opened Admission
  import opened Binding
  import JsonNormal
  import JsonRoundTrip
  import JsonText
  import Utf8

  /** The data inferred from a content type is of its kind. */
  lemma InferredData(env: Env, contentType: bytes, b: bytes, d: Data)
    requires DataByContentType(env, contentType, b) == Some(d)
    ensures d.Present? && d.bytes == b && ValidData(d) && KindMatches(env, d.kind, contentType)
    ensures d.kind == TextData ==> !IsJsonMediaType(env, contentType)
  {
    hide IsJsonMediaType, IsTextMediaType, JsonText.IsValid, Utf8.Valid;
  }

  lemma AssembledParts(env: Env, m: map<bytes, bytes>, contentType: bytes, data: Option<Data>, e: Event)
    requires Assemble(env, m, contentType, data) == Some(e)
    ensures var a := e.attributes;
      && ValidAttributes(env, a) && data == Some(e.data) && a.dataContentType == contentType
      && SPECVERSION in m && m[SPECVERSION] == VERSION && BoundTime(env, m) == Some(a.time)
      && a.id == TextOf(m, ID) && a.source == TextOf(m, SOURCE) && a.eventType == TextOf(m, TYPE)
      && a.dataSchema == TextOf(m, DATASCHEMA) && a.subject == TextOf(m, SUBJECT)
      && BoundExtensions(m) == Some(a.extensions)
  {
    assert VERSION != [] by { assert |VERSION| == 3; }
    hide SPECVERSION, ID, SOURCE, TYPE, DATASCHEMA, SUBJECT, TIME, VERSION, BoundExtensions, BoundTime, ValidAttributes;
  }

  lemma Assembled(env: Env, m: map<bytes, bytes>, contentType: bytes, data: Option<Data>, e: Event)
    requires Assemble(env, m, contentType, data) == Some(e)
    ensures ValidAttributes(env, e.attributes) && data == Some(e.data) && e.attributes.dataContentType == contentType
    ensures m != map[]
  {
    hide Assemble, BoundExtensions, BoundTime, ValidAttributes, SPECVERSION, ID, SOURCE, TYPE, DATASCHEMA, SUBJECT;
    hide TIME, VERSION;
    AssembledParts(env, m, contentType, data, e);
  }

  /** Every context text of the event but the time was among the texts it was made from. */
  lemma AssembledTexts(env: Env, m: map<bytes, bytes>, contentType: bytes, data: Option<Data>, e: Event)
    requires Assemble(env, m, contentType, data) == Some(e)
    ensures var texts := ContextTexts(env, e.attributes);
      && texts.Keys <= m.Keys && SPECVERSION in texts
      && (forall k :: k in texts && k != TIME ==> texts[k] == m[k])
      && (if e.attributes.time.None? then TIME !in texts
          else TIME in texts && texts[TIME] == env.formatTime(e.attributes.time.value))
  {
    hide ContextTexts, StandardTexts, ValidAttributes, BoundExtensions, Assemble, Reserved, NoReserved, BoundTime;
    hide SPECVERSION, ID, SOURCE, TYPE, DATACONTENTTYPE, DATASCHEMA, SUBJECT, TIME, DATA, DATA_BASE64, VERSION;
    var a, texts := e.attributes, ContextTexts(env, e.attributes);
    AssembledParts(env, m, contentType, data, e);
    AssembledExtensions(m, a.extensions);
    AssembledTime(env, m, a.time);
    RequiredPresent(env, a);
    ContextLookup(env, a);
    forall k | k in texts ensures k in m && (k != TIME ==> texts[k] == m[k]) {
      if k !in a.extensions {
        StandardKeys(env, a);
        JsonRoundTrip.ContextKeys(env, a);
      }
    }
  }

  lemma RequiredPresent(env: Env, a: Attributes)
    requires ValidAttributes(env, a)
    ensures a.id != [] && a.source != [] && a.eventType != [] && NoReserved(a.extensions)
  {
    hide Reserved, ValidCloudString, ValidName, ValidAttribute, ValidSelected;
  }

  lemma AssembledExtensions(m: map<bytes, bytes>, x: map<bytes, Attribute>)
    requires BoundExtensions(m) == Some(x)
    ensures AllStrings(x) && forall n :: n in x ==> n in m && x[n].text == m[n]
  {
    hide Reserved, ValidCloudString;
  }

  lemma AssembledTime(env: Env, m: map<bytes, bytes>, t: Option<Instant>)
    requires BoundTime(env, m) == Some(t)
    ensures t.Some? ==> TIME in m
  {
    hide TIME;
  }

  /** The texts the event is sent as are admitted where those it was made from were, as long as
      the time as it is written fits. */
  lemma AssembledAdmitted(env: Env, m: map<bytes, bytes>, contentType: bytes, data: Option<Data>, e: Event,
      limits: Limits)
    requires Assemble(env, m, contentType, data) == Some(e) && TextsAdmitted(m, limits)
    ensures TextsAdmitted(ContextTexts(env, e.attributes), limits) <==>
      JsonNormal.TimeFits(env, e.attributes.time, limits)
  {
    hide ContextTexts, Assemble, SPECVERSION, TIME;
    var texts := ContextTexts(env, e.attributes);
    AssembledTexts(env, m, contentType, data, e);
    SubsetSize(texts.Keys, m.Keys);
    assert |texts| == |texts.Keys| && |m| == |m.Keys|;
  }

  /** The report of an accepted event: only a missing content type beside data is a loss. */
  lemma AssembledReport(env: Env, m: map<bytes, bytes>, contentType: bytes, data: Option<Data>, e: Event)
    requires Assemble(env, m, contentType, data) == Some(e)
    requires e.data.Present? ==> KindMatches(env, e.data.kind, contentType)
    ensures BinaryReport(env, e) == [] <==> e.data.Absent? || e.attributes.dataContentType != []
  {
    hide BinaryReport, KindMatches, Assemble, BoundExtensions, ValidAttributes, BoundTime, SPECVERSION, ID, SOURCE;
    hide TYPE, DATASCHEMA, SUBJECT, TIME, VERSION;
    AssembledParts(env, m, contentType, data, e);
    AssembledExtensions(m, e.attributes.extensions);
    BinaryReportEmpty(env, e);
  }

  lemma AssembledSchema(env: Env, m: map<bytes, bytes>, contentType: bytes, data: Option<Data>, e: Event)
    requires Assemble(env, m, contentType, data) == Some(e) && AllUtf8(m)
    ensures Utf8.Valid(e.attributes.dataSchema)
  {
    hide Assemble, BoundExtensions, ValidAttributes, BoundTime, Utf8.Valid, SPECVERSION, ID, SOURCE, TYPE, DATASCHEMA;
    hide SUBJECT, TIME, VERSION;
    AssembledParts(env, m, contentType, data, e);
    JsonRoundTrip.EmptyUtf8();
  }
}
