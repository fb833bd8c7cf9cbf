/** The order of what is written: members of an encoded event, Kafka headers, losses and issues
    all stand in dictionary order by unsigned bytes. */
module OutputOrder {
  import opened Bytes
  import opened Order
  import opened Event
  import opened Conversion
  import opened JsonText
  import opened JsonDocument
  import opened JsonCodec
  import opened JsonRoundTrip
  import KafkaBinding
  import Utf8
  import Validation

  ghost predicate NamesInOrder(cs: seq<Child>) {
    forall i, j :: 0 <= i < j < |cs| ==> Before(cs[i].name, cs[j].name)
  }

  /** An encoded event is one object whose members, as a parser finds them, have ascending
      names; they are exactly the members of the event, each with the bytes of its own value. */
  lemma MembersInOrder(env: Env, e: Event)
    requires ValidEvent(env, e)
    ensures var d, m := ParseDocument(EncodedText(env, e)), JsonMembers(env, e);
      && d.Some? && d.value.value.Container? && d.value.value.named && d.value.core == EncodedText(env, e)
      && NamesInOrder(d.value.value.children)
      && (forall c :: c in d.value.value.children ==>
            c.name in m && ParseDocument(m[c.name]) == Some(Document(c.value, c.raw)))
      && (forall k :: k in m ==> exists i :: 0 <= i < |d.value.value.children| && d.value.value.children[i].name == k)
  {
    hide JsonMembers, ParseDocument, SortedEntries, ToMap, ValidEvent, PrintContainer, Before, Ascending, AllPrintable;
    hide NamesInOrder, Documents;
    var m := JsonMembers(env, e);
    EventDocuments(env, e);
    SortedPrintable(m);
    var es := SortedEntries(m);
    PrintedContainer(es, true);
    var cs := ChildrenOf(es, true);
    ChildrenInOrder(es);
    forall c | c in cs ensures c.name in m && ParseDocument(m[c.name]) == Some(Document(c.value, c.raw)) {
      var i :| 0 <= i < |cs| && cs[i] == c;
      PrintedChild(es, i);
    }
    forall k | k in m ensures exists i :: 0 <= i < |cs| && cs[i].name == k {
      var i := KeyAt(es, k);
      PrintedChild(es, i);
    }
  }

  lemma ChildrenInOrder(es: seq<Entry<bytes>>)
    requires AllPrintable(es, true) && Ascending(es)
    ensures NamesInOrder(ChildrenOf(es, true))
  {
    hide ChildrenOf, ParseDocument, LexLess, Before, Utf8.Valid;
    AscendingInOrder(es);
  }

  lemma PrintedChild(es: seq<Entry<bytes>>, i: nat)
    requires AllPrintable(es, true) && i < |es|
    ensures var c := ChildrenOf(es, true)[i];
      c.name == es[i].key && ParseDocument(es[i].value) == Some(Document(c.value, c.raw))
  {
    hide ChildrenOf, ParseDocument, Utf8.Valid;
    assert Printable(es[i], true);
  }

  lemma HeadersInOrder(env: Env, e: Event)
    ensures InOrder(KafkaBinding.EncodedHeaders(env, e))
  {
    hide SortedEntries, InOrder, Ascending, ToMap;
    AscendingInOrder(KafkaBinding.EncodedHeaders(env, e));
  }

  lemma ReportsInOrder(env: Env, e: Event, es: seq<Event>, a: Attributes)
    ensures NotesInOrder(JsonReport(env, e)) && NotesInOrder(BinaryReport(env, e)) && NotesInOrder(BatchReport(env, es))
    ensures NotesInOrder(Validation.Issues(env, a))
  {
    hide Canonical, NotesInOrder, NotesSorted, SortNotes, BatchLosses, Validation.ExtensionIssues, ExtensionNotes;
    SortedInOrder(JsonReport(env, e));
    SortedInOrder(BinaryReport(env, e));
    SortedInOrder(BatchReport(env, es));
    SortedInOrder(Validation.Issues(env, a));
  }
}
