/** Decoding a batch normalises it once. */
module BatchNormal {
  import opened Bytes
  import opened Order
  import opened Event
  import opened Conversion
  import opened Admission
  import opened JsonText
  import opened JsonDocument
  import opened JsonCodec
  import opened JsonRoundTrip
  import opened JsonNormal
  import opened JsonBatch
  import JsonWalk

  lemma {:induction false} ChildWithin(es: seq<Entry<bytes>>, i: nat)
    requires i < |es|
    ensures |es[i].value| <= |PrintChildren(es, false)|
  {
    hide Head;
    if i > 0 {
      ChildWithin(es[1..], i - 1);
    }
  }

  lemma EventWithin(env: Env, es: seq<Event>, i: nat)
    requires i < |es|
    ensures |EncodedText(env, es[i])| <= |BatchText(env, es)|
  {
    hide EncodedText, PrintChildren;
    ChildWithin(BatchEntries(env, es), i);
  }

  lemma {:induction false} ElementCount(env: Env, cs: seq<Child>, limits: Limits)
    requires DecodeElements(env, cs, limits).Some?
    ensures |DecodeElements(env, cs, limits).value| == |cs|
  {
    hide DecodeText;
    if cs != [] {
      ElementCount(env, cs[1..], limits);
    }
  }

  /** Every event of an accepted batch was accepted by itself. */
  lemma AcceptedElements(env: Env, value: bytes, limits: Limits, es: seq<Event>) returns (cs: seq<Child>)
    requires DecodeBatch(env, value, limits) == Some(es)
    ensures |cs| == |es| <= limits.maxBatchEvents && 0 < limits.maxBatchEvents
    ensures 0 < limits.maxDepth && limits.maxDepth != MAX_INT
    ensures forall i :: 0 <= i < |es| ==> DecodeText(env, cs[i].raw, limits) == Some(es[i])
  {
    hide DecodeText, ParseDocument, JsonWalk.Inspect, JsonWalk.Tokens, MAX_INT;
    cs := ParseDocument(value).value.value.children;
    ElementCount(env, cs, limits);
    ElementsExact(env, cs, es, limits);
  }

  predicate TimeReturns(env: Env, t: Option<Instant>, limits: Limits) {
    TimeFits(env, t, limits) && (t.Some? ==> env.parseTime(env.formatTime(t.value)) == t)
  }

  /** For every batch the decoder accepts, each event is valid and the strict encoder succeeds
      with an empty report; and decoding its output under the same limits with only the size
      changed gives the same batch if and only if there is room for the bytes and every time
      survives formatting within the value limit. */
  lemma BatchNormalises(env: Env, value: bytes, limits: Limits, es: seq<Event>, room: int)
    requires DecodeBatch(env, value, limits) == Some(es)
    requires forall i :: 0 <= i < |es| ==> AsciiTime(env, es[i].attributes.time)
    ensures forall i :: 0 <= i < |es| ==> ValidEvent(env, es[i])
    ensures BatchReport(env, es) == []
    ensures DecodeBatch(env, BatchText(env, es), limits.(maxEventBytes := room)) == Some(es) <==>
      |BatchText(env, es)| <= room && forall i :: 0 <= i < |es| ==> TimeReturns(env, es[i].attributes.time, limits)
  {
    hide DecodeText, DecodeBatch, BatchText, BatchReport, JsonReport, JsonLossless, ValidEvent, AsciiTime, EncodedText;
    hide TimeFits, MAX_INT;
    var cs := AcceptedElements(env, value, limits, es);
    var larger := limits.(maxEventBytes := room);
    forall i | 0 <= i < |es|
      ensures ValidEvent(env, es[i]) && JsonLossless(env, es[i])
      ensures |EncodedText(env, es[i])| <= |BatchText(env, es)|
      ensures DecodeText(env, EncodedText(env, es[i]), larger) == Some(es[i]) <==>
        room >= |EncodedText(env, es[i])| && TimeReturns(env, es[i].attributes.time, limits)
    {
      DecodingNormalises(env, cs[i].raw, limits, es[i], room);
      JsonReportEmpty(env, es[i]);
      EventWithin(env, es, i);
    }
    BatchReportEmpty(env, es);
    BatchExact(env, es, larger);
  }
}
