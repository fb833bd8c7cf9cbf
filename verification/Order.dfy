/** Byte-wise string order, and the two kinds of list the package sorts: named entries with
    distinct names (JSON members, Kafka headers) and diagnostics (losses, validation issues).
    In both cases a list that is sorted is determined by what it holds, so the order in which
    a Go map handed out its entries cannot show in the output. */
module Order {
  import opened Bytes

  /** `strings.Compare(a, b) < 0`. */
  predicate LexLess(a: bytes, b: bytes) {
    if b == [] then false
    else if a == [] then true
    else a[0] < b[0] || (a[0] == b[0] && LexLess(a[1..], b[1..]))
  }

  lemma {:induction false} LexTotal(a: bytes, b: bytes)
    ensures a == b || LexLess(a, b) || LexLess(b, a)
    ensures !(LexLess(a, b) && LexLess(b, a))
    ensures !LexLess(a, a)
  {
    if a != [] {
      LexTotal(a[1..], a[1..]);
      if b != [] {
        LexTotal(a[1..], b[1..]);
        assert a == [a[0]] + a[1..] && b == [b[0]] + b[1..];
      }
    }
  }

  lemma {:induction false} LexTransitive(a: bytes, b: bytes, c: bytes)
    requires LexLess(a, b) && LexLess(b, c)
    ensures LexLess(a, c)
  {
    if a != [] && a[0] == b[0] == c[0] {
      LexTransitive(a[1..], b[1..], c[1..]);
    }
  }

  /** `a` and `b` agree before position `n`, where `a` ends or has the smaller byte. */
  predicate DivergesAt(a: bytes, b: bytes, n: nat) {
    n <= |a| && n < |b| && a[..n] == b[..n] && (n == |a| || a[n] < b[n])
  }

  /** Dictionary order, without recursion. */
  ghost predicate Before(a: bytes, b: bytes) {
    exists n: nat :: DivergesAt(a, b, n)
  }

  /** The comparison is dictionary order by unsigned bytes. */
  lemma {:induction false} LexLessExact(a: bytes, b: bytes)
    ensures LexLess(a, b) <==> Before(a, b)
  {
    if b == [] {
    } else if a == [] {
      assert DivergesAt(a, b, 0);
    } else {
      LexLessExact(a[1..], b[1..]);
      if a[0] < b[0] {
        assert DivergesAt(a, b, 0);
      } else if a[0] == b[0] {
        if n: nat :| DivergesAt(a[1..], b[1..], n) {
          assert a[..n + 1] == [a[0]] + a[1..][..n] && b[..n + 1] == [b[0]] + b[1..][..n];
          assert DivergesAt(a, b, n + 1);
        }
      }
      if n: nat :| DivergesAt(a, b, n) {
        LexLessTail(a, b, n);
      }
    }
  }

  lemma LexLessTail(a: bytes, b: bytes, n: nat)
    requires a != [] && b != [] && DivergesAt(a, b, n)
    ensures a[0] < b[0] || (a[0] == b[0] && n > 0 && DivergesAt(a[1..], b[1..], n - 1))
  {
    if n > 0 {
      assert a[0] == a[..n][0] == b[..n][0] == b[0];
      assert a[1..][..n - 1] == a[..n][1..] && b[1..][..n - 1] == b[..n][1..];
    }
  }

  /** Names, or lists of entries, in dictionary order. */
  ghost predicate InOrder<V(!new)>(s: seq<Entry<V>>) {
    forall i, j :: 0 <= i < j < |s| ==> Before(s[i].key, s[j].key)
  }

  lemma AscendingInOrder<V(!new)>(s: seq<Entry<V>>)
    ensures Ascending(s) <==> InOrder(s)
  {
    hide LexLess, Before;
    forall i, j | 0 <= i < j < |s| ensures LexLess(s[i].key, s[j].key) <==> Before(s[i].key, s[j].key) {
      LexLessExact(s[i].key, s[j].key);
    }
  }

  lemma SubsetSize(a: set<bytes>, b: set<bytes>)
    requires a <= b
    ensures |a| <= |b|
  {
    assert b == a + (b - a);
  }

  // ---------- named entries ----------

  datatype Entry<+V> = Entry(key: bytes, value: V)

  predicate Distinct<V(!new)>(s: seq<Entry<V>>) {
    forall i, j :: 0 <= i < j < |s| ==> s[i].key != s[j].key
  }

  predicate Ascending<V(!new)>(s: seq<Entry<V>>) {
    forall i, j :: 0 <= i < j < |s| ==> LexLess(s[i].key, s[j].key)
  }

  /** The map a list of entries fills when they are stored one after the other. */
  function ToMap<V>(s: seq<Entry<V>>): map<bytes, V> {
    if s == [] then map[]
    else ToMap(s[..|s| - 1])[s[|s| - 1].key := s[|s| - 1].value]
  }

  lemma {:induction false} KeyAt<V>(s: seq<Entry<V>>, k: bytes) returns (i: nat)
    requires k in ToMap(s)
    ensures i < |s| && s[i].key == k
  {
    i := |s| - 1;
    if s[i].key != k {
      i := KeyAt(s[..i], k);
    }
  }

  lemma {:induction false} KeyStored<V>(s: seq<Entry<V>>, i: nat)
    requires i < |s|
    ensures s[i].key in ToMap(s)
  {
    var n := |s| - 1;
    if i < n {
      KeyStored(s[..n], i);
    }
  }

  lemma {:induction false} ValueStored<V(!new)>(s: seq<Entry<V>>, i: nat)
    requires i < |s| && Distinct(s)
    ensures s[i].key in ToMap(s) && ToMap(s)[s[i].key] == s[i].value
  {
    var n := |s| - 1;
    if i < n {
      ValueStored(s[..n], i);
      assert s[i].key != s[n].key;
    }
  }

  lemma LastKeyNew<V(!new)>(s: seq<Entry<V>>)
    requires Distinct(s) && s != []
    ensures s[|s| - 1].key !in ToMap(s[..|s| - 1])
  {
    var n := |s| - 1;
    if s[n].key in ToMap(s[..n]) {
      var i := KeyAt(s[..n], s[n].key);
    }
  }

  lemma {:induction false} ToMapSize<V(!new)>(s: seq<Entry<V>>)
    requires Distinct(s)
    ensures |ToMap(s)| == |s|
  {
    if s != [] {
      ToMapSize(s[..|s| - 1]);
      LastKeyNew(s);
    }
  }

  lemma ToMapAppend<V>(s: seq<Entry<V>>, e: Entry<V>)
    ensures ToMap(s + [e]) == ToMap(s)[e.key := e.value]
  {
    assert (s + [e])[..|s|] == s;
  }

  lemma EmptyMap<V>()
    ensures ToMap<V>([]) == map[]
  {
  }

  lemma AscendingDistinct<V(!new)>(s: seq<Entry<V>>)
    requires Ascending(s)
    ensures Distinct(s)
  {
    forall i, j | 0 <= i < j < |s| ensures s[i].key != s[j].key {
      LexTotal(s[i].key, s[j].key);
    }
  }

  /** A strictly ascending list is determined by the map it fills. */
  lemma {:induction false} AscendingUnique<V(!new)>(a: seq<Entry<V>>, b: seq<Entry<V>>)
    requires Ascending(a) && Ascending(b)
    requires ToMap(a) == ToMap(b)
    ensures a == b
  {
    if a != [] {
      KeyStored(a, |a| - 1);
      assert b != [];
      LastKeysAgree(a, b);
      DropLast(a); DropLast(b);
      AscendingUnique(a[..|a| - 1], b[..|b| - 1]);
    } else if b != [] {
      KeyStored(b, |b| - 1);
    }
  }

  lemma LastKeysAgree<V(!new)>(a: seq<Entry<V>>, b: seq<Entry<V>>)
    requires Ascending(a) && Ascending(b)
    requires a != [] && b != [] && ToMap(a) == ToMap(b)
    ensures a[|a| - 1].key == b[|b| - 1].key
  {
    var x, y := a[|a| - 1].key, b[|b| - 1].key;
    KeyStored(a, |a| - 1);
    KeyStored(b, |b| - 1);
    var i := KeyAt(b, x);
    var j := KeyAt(a, y);
    LexTotal(x, y);
  }

  lemma RemoveAdded<V>(m: map<bytes, V>, k: bytes, v: V)
    requires k !in m
    ensures m[k := v] - {k} == m
  {
  }

  lemma DropLast<V(!new)>(s: seq<Entry<V>>)
    requires Ascending(s) && s != []
    ensures var n := |s| - 1;
      && s == s[..n] + [s[n]]
      && Ascending(s[..n])
      && AllBelow(s[..n], s[n].key)
      && ToMap(s[..n]) == ToMap(s) - {s[n].key}
      && s[n].key in ToMap(s) && ToMap(s)[s[n].key] == s[n].value
  {
    hide LexLess, ToMap, Ascending, AllBelow, Distinct;
    AscendingPrefix(s);
    AscendingDistinct(s);
    MapWithoutLast(s);
  }

  lemma AscendingPrefix<V(!new)>(s: seq<Entry<V>>)
    requires Ascending(s) && s != []
    ensures Ascending(s[..|s| - 1]) && AllBelow(s[..|s| - 1], s[|s| - 1].key)
  {
  }

  lemma MapWithoutLast<V(!new)>(s: seq<Entry<V>>)
    requires Distinct(s) && s != []
    ensures ToMap(s[..|s| - 1]) == ToMap(s) - {s[|s| - 1].key}
    ensures s[|s| - 1].key in ToMap(s) && ToMap(s)[s[|s| - 1].key] == s[|s| - 1].value
  {
    LastKeyNew(s);
    RemoveAdded(ToMap(s[..|s| - 1]), s[|s| - 1].key, s[|s| - 1].value);
  }

  predicate AllBelow<V(!new)>(s: seq<Entry<V>>, k: bytes) {
    forall i :: 0 <= i < |s| ==> LexLess(s[i].key, k)
  }

  lemma AscendingAppend<V(!new)>(s: seq<Entry<V>>, e: Entry<V>)
    requires Ascending(s) && AllBelow(s, e.key)
    ensures Ascending(s + [e])
  {
  }

  /** Insertion from the right, the step of the sort. */
  function Insert<V(!new)>(s: seq<Entry<V>>, e: Entry<V>): (r: seq<Entry<V>>) {
    if s == [] then [e]
    else
      var n := |s| - 1;
      if LexLess(s[n].key, e.key) then s + [e] else Insert(s[..n], e) + [s[n]]
  }

  lemma {:induction false} InsertKeeps<V(!new)>(s: seq<Entry<V>>, e: Entry<V>)
    requires Ascending(s) && e.key !in ToMap(s)
    ensures Ascending(Insert(s, e))
    ensures ToMap(Insert(s, e)) == ToMap(s)[e.key := e.value]
    ensures forall k :: AllBelow(s, k) && LexLess(e.key, k) ==> AllBelow(Insert(s, e), k)
    decreases |s|, 1
  {
    hide LexLess, ToMap;
    if s != [] {
      var n := |s| - 1;
      DropLast(s);
      if LexLess(s[n].key, e.key) {
        ToMapAppend(s, e);
        forall i | 0 <= i < n ensures LexLess(s[i].key, e.key) {
          LexTransitive(s[i].key, s[n].key, e.key);
        }
        AscendingAppend(s, e);
      } else {
        LexTotal(s[n].key, e.key);
        InsertBeforeLast(s, e);
      }
    } else {
      ToMapAppend([], e);
      EmptyMap<V>();
      assert [] + [e] == [e];
    }
  }

  lemma {:induction false} InsertBeforeLast<V(!new)>(s: seq<Entry<V>>, e: Entry<V>)
    requires Ascending(s) && e.key !in ToMap(s) && s != []
    requires LexLess(e.key, s[|s| - 1].key)
    ensures var r := Insert(s[..|s| - 1], e) + [s[|s| - 1]];
      && Ascending(r) && ToMap(r) == ToMap(s)[e.key := e.value]
      && forall k :: AllBelow(s, k) && LexLess(e.key, k) ==> AllBelow(r, k)
    decreases |s|, 0
  {
    hide LexLess, ToMap, Insert;
    var n := |s| - 1;
    DropLast(s);
    InsertKeeps(s[..n], e);
    var t := Insert(s[..n], e);
    ToMapAppend(t, s[n]);
    AscendingAppend(t, s[n]);
    forall k | AllBelow(s, k) && LexLess(e.key, k) ensures AllBelow(t + [s[n]], k) {
      assert AllBelow(s[..n], k);
    }
  }

  /** `slices.SortFunc` by name: with distinct names the result is the one ascending list
      that fills the same map. */
  method SortEntries<V(!new)>(s: seq<Entry<V>>) returns (r: seq<Entry<V>>)
    requires Distinct(s)
    ensures Ascending(r) && InOrder(r) && ToMap(r) == ToMap(s)
    ensures r == SortedEntries(ToMap(s))
  {
    r := [];
    assert s[..0] == [];
    for i := 0 to |s|
      invariant Ascending(r) && ToMap(r) == ToMap(s[..i])
    {
      assert s[i].key !in ToMap(s[..i]) by {
        if s[i].key in ToMap(s[..i]) {
          var j := KeyAt(s[..i], s[i].key);
        }
      }
      InsertKeeps(r, s[i]);
      r := Insert(r, s[i]);
      assert s[..i + 1] == s[..i] + [s[i]];
      ToMapAppend(s[..i], s[i]);
    }
    assert s[..|s|] == s;
    SortedEntriesAre(r);
    AscendingInOrder(r);
  }

  /** The ascending list of a map's entries. */
  ghost function SortedEntries<V(!new)>(m: map<bytes, V>): (s: seq<Entry<V>>)
    ensures Ascending(s) && ToMap(s) == m
    decreases |m|
  {
    if m == map[] then []
    else
      var k := LastKey(m.Keys);
      var rest := SortedEntries(m - {k});
      AppendLast(rest, m, k);
      rest + [Entry(k, m[k])]
  }

  lemma AppendLast<V(!new)>(rest: seq<Entry<V>>, m: map<bytes, V>, k: bytes)
    requires k in m && forall x :: x in m && x != k ==> LexLess(x, k)
    requires Ascending(rest) && ToMap(rest) == m - {k}
    ensures Ascending(rest + [Entry(k, m[k])]) && ToMap(rest + [Entry(k, m[k])]) == m
  {
    hide LexLess, ToMap;
    forall i | 0 <= i < |rest| ensures LexLess(rest[i].key, k) {
      KeyStored(rest, i);
    }
    ToMapAppend(rest, Entry(k, m[k]));
    AscendingAppend(rest, Entry(k, m[k]));
    assert (m - {k})[k := m[k]] == m;
  }

  ghost function LastKey(keys: set<bytes>): (k: bytes)
    requires keys != {}
    ensures k in keys && forall x :: x in keys && x != k ==> LexLess(x, k)
    decreases |keys|
  {
    var x :| x in keys;
    if keys == {x} then x
    else
      assert keys == (keys - {x}) + {x};
      var y := LastKey(keys - {x});
      LexTotal(x, y);
      if LexLess(x, y) then y
      else
        assert forall z :: z in keys && z != x && z != y ==> LexLess(z, x) by {
          forall z | z in keys && z != x && z != y ensures LexLess(z, x) {
            LexTransitive(z, y, x);
          }
        }
        x
  }

  lemma SortedEntriesAre<V(!new)>(s: seq<Entry<V>>)
    requires Ascending(s)
    ensures s == SortedEntries(ToMap(s))
  {
    AscendingUnique(s, SortedEntries(ToMap(s)));
  }

  // ---------- diagnostics ----------

  /** A loss (field and reason) or a validation issue (field and code). */
  datatype Note = Note(field: bytes, text: bytes)

  predicate NoteLess(a: Note, b: Note) {
    LexLess(a.field, b.field) || (a.field == b.field && LexLess(a.text, b.text))
  }

  lemma NoteTotal(a: Note, b: Note)
    ensures a == b || NoteLess(a, b) || NoteLess(b, a)
    ensures !(NoteLess(a, b) && NoteLess(b, a))
  {
    LexTotal(a.field, b.field);
    LexTotal(a.text, b.text);
  }

  lemma NoteTransitive(a: Note, b: Note, c: Note)
    requires NoteLess(a, b) && NoteLess(b, c)
    ensures NoteLess(a, c)
  {
    LexTotal(a.field, a.field);
    if LexLess(a.field, b.field) && LexLess(b.field, c.field) {
      LexTransitive(a.field, b.field, c.field);
    } else if a.field == b.field == c.field {
      LexTransitive(a.text, b.text, c.text);
    }
  }

  /** By field, and under one field by text, both in dictionary order. */
  ghost predicate NotesInOrder(s: seq<Note>) {
    forall i, j :: 0 <= i < j < |s| ==>
      || Before(s[i].field, s[j].field)
      || (s[i].field == s[j].field && (Before(s[i].text, s[j].text) || s[i].text == s[j].text))
  }

  lemma SortedInOrder(s: seq<Note>)
    ensures NotesSorted(s) <==> NotesInOrder(s)
  {
    hide LexLess, Before;
    forall i, j | 0 <= i < j < |s|
      ensures !NoteLess(s[j], s[i]) <==>
        (|| Before(s[i].field, s[j].field)
         || (s[i].field == s[j].field && (Before(s[i].text, s[j].text) || s[i].text == s[j].text)))
    {
      LexLessExact(s[i].field, s[j].field);
      LexLessExact(s[i].text, s[j].text);
      LexTotal(s[i].field, s[j].field);
      LexTotal(s[i].text, s[j].text);
    }
  }

  predicate NotesSorted(s: seq<Note>) {
    forall i, j :: 0 <= i < j < |s| ==> !NoteLess(s[j], s[i])
  }

  /** A sorted list of notes is determined by how often it holds each note. */
  lemma {:induction false} NotesUnique(a: seq<Note>, b: seq<Note>)
    requires NotesSorted(a) && NotesSorted(b) && multiset(a) == multiset(b)
    ensures a == b
  {
    hide NoteLess;
    assert |a| == |multiset(a)| == |multiset(b)| == |b|;
    if a != [] {
      var n := |a| - 1;
      LastNotesAgree(a, b);
      WithoutLast(a);
      WithoutLast(b);
      NotesUnique(a[..n], b[..n]);
    }
  }

  lemma WithoutLast(a: seq<Note>)
    requires a != []
    ensures var n := |a| - 1; a == a[..n] + [a[n]] && multiset(a[..n]) == multiset(a) - multiset{a[n]}
  {
    assert a == a[..|a| - 1] + [a[|a| - 1]];
  }

  lemma LastNotesAgree(a: seq<Note>, b: seq<Note>)
    requires NotesSorted(a) && NotesSorted(b) && multiset(a) == multiset(b)
    requires |a| == |b| > 0
    ensures a[|a| - 1] == b[|b| - 1]
  {
    var x, y := a[|a| - 1], b[|b| - 1];
    assert x in multiset(a) && y in multiset(b);
    assert x in b && y in a;
    var i :| 0 <= i < |b| && b[i] == x;
    var j :| 0 <= j < |a| && a[j] == y;
    NoteTotal(x, y);
  }

  function InsertNote(s: seq<Note>, e: Note): (r: seq<Note>) {
    if s == [] then [e]
    else
      var n := |s| - 1;
      if !NoteLess(e, s[n]) then s + [e] else InsertNote(s[..n], e) + [s[n]]
  }

  lemma {:induction false} InsertNoteKeeps(s: seq<Note>, e: Note)
    requires NotesSorted(s)
    ensures multiset(InsertNote(s, e)) == multiset(s) + multiset{e}
    ensures NotesSorted(InsertNote(s, e))
  {
    if s != [] {
      var n := |s| - 1;
      assert s == s[..n] + [s[n]];
      if !NoteLess(e, s[n]) {
        forall i | 0 <= i < n ensures !NoteLess(e, s[i]) {
          NoteTotal(s[i], s[n]); NoteTotal(e, s[n]);
          if NoteLess(e, s[i]) && s[i] != s[n] {
            NoteTransitive(e, s[i], s[n]);
          }
        }
      } else {
        InsertNoteKeeps(s[..n], e);
        var t := InsertNote(s[..n], e);
        forall i | 0 <= i < |t| ensures !NoteLess(s[n], t[i]) {
          assert t[i] in multiset(t);
          NoteTotal(e, s[n]);
        }
      }
    }
  }

  lemma SortStep(s: seq<Note>, r: seq<Note>)
    requires s != [] && multiset(r) == multiset(s[..|s| - 1]) && NotesSorted(r)
    ensures var i := InsertNote(r, s[|s| - 1]); multiset(i) == multiset(s) && NotesSorted(i)
  {
    hide InsertNote, NotesSorted;
    InsertNoteKeeps(r, s[|s| - 1]);
    assert s == s[..|s| - 1] + [s[|s| - 1]];
  }

  /** `slices.SortFunc` by field, then by reason or code. */
  function SortNotes(s: seq<Note>): (r: seq<Note>)
    ensures multiset(r) == multiset(s) && NotesSorted(r)
  {
    if s == [] then []
    else
      var n := |s| - 1;
      SortStep(s, SortNotes(s[..n]));
      InsertNote(SortNotes(s[..n]), s[n])
  }

  /** Sorting forgets the order in which the notes were collected. */
  lemma SortNotesForgetsOrder(a: seq<Note>, b: seq<Note>)
    requires multiset(a) == multiset(b)
    ensures SortNotes(a) == SortNotes(b)
  {
    NotesUnique(SortNotes(a), SortNotes(b));
  }

  /** The sorted list of a collection of notes. */
  ghost function Canonical(m: multiset<Note>): (r: seq<Note>)
    ensures multiset(r) == m && NotesSorted(r)
    decreases |m|
  {
    if m == multiset{} then []
    else
      var x :| x in m;
      var r := Canonical(m - multiset{x});
      InsertNoteKeeps(r, x);
      InsertNote(r, x)
  }

  lemma SortNotesIsCanonical(s: seq<Note>)
    ensures SortNotes(s) == Canonical(multiset(s))
  {
    NotesUnique(SortNotes(s), Canonical(multiset(s)));
  }
}
