/** The JSON batch format: an array of encoded events. */
module JsonBatch {
  import opened Bytes
  import opened Order
  import opened Event
  import opened Conversion
  import opened Admission
  import opened JsonText
  import opened JsonDocument
  import opened JsonCodec
  import opened JsonRoundTrip
  import JsonWalk

  ghost function BatchEntries(env: Env, es: seq<Event>): (r: seq<Entry<bytes>>)
    ensures |r| == |es| && forall i :: 0 <= i < |es| ==> r[i] == Entry([], EncodedText(env, es[i]))
  {
    seq(|es|, i requires 0 <= i < |es| => Entry([], EncodedText(env, es[i])))
  }

  ghost function BatchText(env: Env, es: seq<Event>): bytes {
    PrintContainer(BatchEntries(env, es), false)
  }

  /** Decoding stops at the first element that is rejected. */
  function DecodeElements(env: Env, cs: seq<Child>, limits: Limits): Option<seq<Event>> {
    if cs == [] then Some([])
    else
      var first :- DecodeText(env, cs[0].raw, limits);
      var rest :- DecodeElements(env, cs[1..], limits);
      Some([first] + rest)
  }

  /** `DecodeJSONBatch`. */
  function DecodeBatch(env: Env, value: bytes, limits: Limits): Option<seq<Event>> {
    if limits.maxEventBytes <= 0 || |value| > limits.maxEventBytes then None
    else if limits.maxDepth <= 0 || limits.maxDepth == MAX_INT then None
    else
      var d :- ParseDocument(value);
      if !JsonWalk.Inspect(JsonWalk.Tokens(d.value), limits.maxDepth + 1) then None
      else if !d.value.Container? || d.value.named then None
      else if limits.maxBatchEvents <= 0 || |d.value.children| > limits.maxBatchEvents then None
      else DecodeElements(env, d.value.children, limits)
  }

  /** The method: elements are appended to a growing list, and a failure keeps nothing. */
  method DecodeJSONBatch(env: Env, value: bytes, limits: Limits) returns (r: Option<seq<Event>>)
    ensures r == DecodeBatch(env, value, limits)
  {
    hide DecodeText, ParseDocument, JsonWalk.Tokens;
    if limits.maxEventBytes <= 0 || |value| > limits.maxEventBytes {
      return None;
    }
    if limits.maxDepth <= 0 || limits.maxDepth == MAX_INT {
      return None;
    }
    var d := ParseDocument(value);
    if d.None? {
      return None;
    }
    var ok := JsonWalk.InspectJSON(JsonWalk.Tokens(d.value.value), limits.maxDepth + 1);
    if !ok || !d.value.value.Container? || d.value.value.named {
      return None;
    }
    var raw := d.value.value.children;
    if limits.maxBatchEvents <= 0 || |raw| > limits.maxBatchEvents {
      return None;
    }
    var events: seq<Event> := [];
    assert raw[0..] == raw;
    assert DecodeElements(env, raw, limits).Some? ==>
      events + DecodeElements(env, raw, limits).value == DecodeElements(env, raw, limits).value;
    for i := 0 to |raw|
      invariant DecodeElements(env, raw, limits) ==
        var rest := DecodeElements(env, raw[i..], limits);
        if rest.None? then None else Some(events + rest.value)
    {
      assert raw[i..][1..] == raw[i + 1..];
      var event := DecodeText(env, raw[i].raw, limits);
      if event.None? {
        return None;
      }
      ghost var rest := DecodeElements(env, raw[i + 1..], limits);
      if rest.Some? {
        assert events + ([event.value] + rest.value) == (events + [event.value]) + rest.value;
      }
      events := events + [event.value];
    }
    assert raw[|raw|..] == [] && events + [] == events;
    return Some(events);
  }

  lemma {:induction false} ElementsExact(env: Env, cs: seq<Child>, es: seq<Event>, limits: Limits)
    requires |cs| == |es|
    ensures DecodeElements(env, cs, limits) == Some(es) <==>
      forall i :: 0 <= i < |es| ==> DecodeText(env, cs[i].raw, limits) == Some(es[i])
  {
    hide DecodeText;
    if cs != [] {
      ElementsExact(env, cs[1..], es[1..], limits);
      assert es == [es[0]] + es[1..];
      if DecodeElements(env, cs, limits) == Some(es) {
        assert DecodeElements(env, cs[1..], limits) == Some(es[1..]);
        forall i | 0 <= i < |es| ensures DecodeText(env, cs[i].raw, limits) == Some(es[i]) {
          assert i > 0 ==> cs[i] == cs[1..][i - 1] && es[i] == es[1..][i - 1];
        }
      }
    }
  }

  lemma BatchPrintable(env: Env, es: seq<Event>)
    requires forall i :: 0 <= i < |es| ==> ValidEvent(env, es[i])
    ensures AllPrintable(BatchEntries(env, es), false)
    ensures var cs := ChildrenOf(BatchEntries(env, es), false);
      forall i :: 0 <= i < |es| ==>
        cs[i].raw == EncodedText(env, es[i]) && IsValid(cs[i].raw)
          && cs[i].value == ParseDocument(cs[i].raw).value.value
  {
    hide ParseDocument, ValidEvent, JsonMembers, SortedEntries, PrintChildren, ChildrenOf;
    var entries := BatchEntries(env, es);
    forall i | 0 <= i < |es|
      ensures Printable(entries[i], false) && ParseDocument(entries[i].value).Some?
      ensures ParseDocument(entries[i].value).value.core == entries[i].value
    {
      EventDocuments(env, es[i]);
      var m := JsonMembers(env, es[i]);
      SortedPrintable(m);
      PrintedContainer(SortedEntries(m), true);
      assert entries[i].value[0] == LBRACE;
    }
  }

  /** A decoded batch is the batch that was encoded exactly when each event survives on its
      own and the array is within the batch limits: no event is lost, added or reordered. */
  lemma BatchExact(env: Env, es: seq<Event>, limits: Limits)
    requires forall i :: 0 <= i < |es| ==> ValidEvent(env, es[i])
    ensures DecodeBatch(env, BatchText(env, es), limits) == Some(es) <==>
      && |BatchText(env, es)| <= limits.maxEventBytes && 0 < limits.maxDepth && limits.maxDepth != MAX_INT
      && 0 < limits.maxBatchEvents && |es| <= limits.maxBatchEvents
      && forall i :: 0 <= i < |es| ==> DecodeText(env, EncodedText(env, es[i]), limits) == Some(es[i])
  {
    hide ParseDocument, ValidEvent, EncodedText, DecodeText, PrintChildren, ChildrenOf, JsonWalk.Inspect;
    hide JsonWalk.Tokens, AllPrintable, IsValid, Depth;
    BatchPrintable(env, es);
    var entries := BatchEntries(env, es);
    var cs := ChildrenOf(entries, false);
    PrintedContainer(entries, false);
    ElementsExact(env, cs, es, limits);
    assert |BatchText(env, es)| > 0;
    var each := forall i :: 0 <= i < |es| ==> DecodeText(env, EncodedText(env, es[i]), limits) == Some(es[i]);
    if each && limits.maxDepth > 0 {
      JsonWalk.InspectBatch(cs, limits.maxDepth);
      forall i | 0 <= i < |cs| ensures Depth(cs[i].value) <= limits.maxDepth {
        AcceptedDepth(env, cs[i].raw, limits);
      }
    }
  }

  lemma AcceptedDepth(env: Env, value: bytes, limits: Limits)
    requires DecodeText(env, value, limits).Some?
    ensures IsValid(value) && Depth(ParseDocument(value).value.value) <= limits.maxDepth
  {
    hide ParseDocument, DecodeMembers, JsonWalk.Inspect, JsonWalk.Tokens;
    JsonWalk.InspectDocument(ParseDocument(value).value.value, limits.maxDepth);
  }

  /** Strict batches are lossless: with an empty batch report, faithful texts and enough room
      every batch comes back event for event. */
  lemma BatchReportExact(env: Env, es: seq<Event>, limits: Limits)
    requires forall i :: 0 <= i < |es| ==> ValidEvent(env, es[i]) && AsciiTime(env, es[i].attributes.time)
    ensures DecodeBatch(env, BatchText(env, es), limits) == Some(es) <==>
      && |BatchText(env, es)| <= limits.maxEventBytes && 0 < limits.maxDepth && limits.maxDepth != MAX_INT
      && 0 < limits.maxBatchEvents && |es| <= limits.maxBatchEvents
      && BatchReport(env, es) == []
      && forall i :: 0 <= i < |es| ==> Faithful(env, es[i].attributes) && JsonAdmits(env, es[i], limits)
  {
    hide ValidEvent, AsciiTime, DecodeText, DecodeBatch, BatchText, BatchReport, Faithful, JsonAdmits, JsonLossless;
    hide EncodedText, JsonReport;
    BatchExact(env, es, limits);
    BatchReportEmpty(env, es);
    forall i | 0 <= i < |es|
      ensures DecodeText(env, EncodedText(env, es[i]), limits) == Some(es[i]) <==>
        JsonLossless(env, es[i]) && Faithful(env, es[i].attributes) && JsonAdmits(env, es[i], limits)
    {
      JsonReportExact(env, es[i], limits);
      JsonReportEmpty(env, es[i]);
    }
  }
}
