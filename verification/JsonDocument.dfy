/** Writing JSON containers around texts that are already JSON, and what reading them finds:
    each child with its own bytes, minus the white space around it. */
module JsonDocument {
  import opened Bytes
  import opened JsonString
  import opened JsonText
  import opened Order
  import Utf8

  // ---------- trimming ----------

  /** The ASCII white space `bytes.TrimSpace` removes. */
  predicate IsTrimmed(c: byte) { c == 0x20 || 0x09 <= c <= 0x0D }

  function TrimLeft(s: bytes): bytes {
    if s != [] && IsTrimmed(s[0]) then TrimLeft(s[1..]) else s
  }

  function TrimRight(s: bytes): bytes {
    if s != [] && IsTrimmed(s[|s| - 1]) then TrimRight(s[..|s| - 1]) else s
  }

  /** `bytes.TrimSpace` on a JSON text. */
  function TrimSpace(s: bytes): bytes { TrimRight(TrimLeft(s)) }

  lemma {:induction false} TrimLeftSpaces(s: bytes, n: nat)
    requires n < |s| && !IsTrimmed(s[n]) && forall i :: 0 <= i < n ==> IsTrimmed(s[i])
    ensures TrimLeft(s) == s[n..]
  {
    if n > 0 {
      TrimLeftSpaces(s[1..], n - 1);
    }
  }

  lemma {:induction false} TrimRightSpaces(s: bytes, n: nat)
    requires 0 < n <= |s| && !IsTrimmed(s[n - 1]) && forall i :: n <= i < |s| ==> IsTrimmed(s[i])
    ensures TrimRight(s) == s[..n]
    decreases |s|
  {
    if n < |s| {
      TrimRightSpaces(s[..|s| - 1], n);
      assert s[..|s| - 1][..n] == s[..n];
    }
  }

  lemma {:induction false} SpaceRun(s: bytes, i: nat)
    requires i <= |s|
    ensures forall k :: i <= k < SpaceEnd(s, i) ==> IsSpace(s[k])
    decreases |s| - i
  {
    if i < |s| && IsSpace(s[i]) {
      SpaceRun(s, i + 1);
    }
  }

  lemma ValueEdges(s: bytes, i: nat)
    requires i <= |s| && ParseValue(s, i).Some?
    ensures !IsTrimmed(s[i]) && !IsTrimmed(s[ParseValue(s, i).value.end - 1])
  {
    hide Unescape, ParseContainer, NumberEnd;
    if s[i] == LBRACE || s[i] == LBRACKET {
      ContainerClose(s, i);
    } else if s[i] != QUOTE && s[i] != MINUS && !IsDigit(s[i]) {
      WordEdges(s, i);
    }
  }

  lemma WordEdges(t: bytes, i: nat)
    ensures WordAt(t, i, NULL) ==> t[i] == 0x6E && t[i + 3] == 0x6C
    ensures WordAt(t, i, TRUE) ==> t[i] == 0x74 && t[i + 3] == 0x65
    ensures WordAt(t, i, FALSE) ==> t[i] == 0x66 && t[i + 4] == 0x65
  {
    FirstByte(t, i);
    if WordAt(t, i, NULL) { assert t[i..i + 4][3] == t[i + 3]; }
    if WordAt(t, i, TRUE) { assert t[i..i + 4][3] == t[i + 3]; }
    if WordAt(t, i, FALSE) { assert t[i..i + 5][4] == t[i + 4]; }
  }

  /** Trimming a complete text leaves the value itself. */
  lemma TrimDocument(s: bytes)
    requires IsValid(s)
    ensures TrimSpace(s) == ParseDocument(s).value.core
  {
    hide ParseValue, TrimLeft, TrimRight;
    var w := SpaceEnd(s, 0);
    var e := ParseValue(s, w).value.end;
    ValueEdges(s, w);
    SpaceRun(s, 0);
    SpaceRun(s, e);
    TrimLeftSpaces(s, w);
    TrimRightSpaces(s[w..], e - w);
    assert s[w..][..e - w] == s[w..e];
  }

  /** The bytes of a value, cut out of its text, are a complete text of the same value. */
  lemma CutOut(s: bytes, i: nat)
    requires i <= |s| && ParseValue(s, i).Some?
    ensures var p := ParseValue(s, i).value;
      ParseDocument(s[i..p.end]) == Some(Document(p.value, s[i..p.end]))
  {
    hide ParseValue;
    var p := ParseValue(s, i).value;
    var x := s[i..p.end];
    var d: int := 0 - i;
    assert Shifted(s, x, d, i, p.end);
    ValueMove(s, x, d, i);
    ValueEdges(s, i);
    assert x[0] == s[i] && !IsSpace(x[0]);
    assert SpaceEnd(x, 0) == 0 && SpaceEnd(x, |x|) == |x|;
    assert x[0..|x|] == x;
  }

  /** A value cut out is a document that trimming leaves alone. */
  lemma CutOutTrimmed(x: bytes)
    requires IsValid(x) && ParseDocument(x).value.core == x
    ensures TrimSpace(x) == x
  {
    TrimDocument(x);
  }

  // ---------- printing ----------

  function Head(e: Entry<bytes>, named: bool): bytes {
    if named then Quote(e.key) + [COLON] else []
  }

  function PrintChildren(es: seq<Entry<bytes>>, named: bool): bytes
    requires es != []
  {
    Head(es[0], named) + es[0].value +
    if |es| == 1 then [Close(named)] else [COMMA] + PrintChildren(es[1..], named)
  }

  function PrintContainer(es: seq<Entry<bytes>>, named: bool): bytes {
    [Open(named)] + if es == [] then [Close(named)] else PrintChildren(es, named)
  }

  /** Names that a literal can carry and values that are JSON texts; an array's elements are
      written without leading white space. */
  predicate Printable(e: Entry<bytes>, named: bool) {
    IsValid(e.value) && if named then Utf8.Valid(e.key) else SpaceEnd(e.value, 0) == 0
  }

  predicate AllPrintable(es: seq<Entry<bytes>>, named: bool) {
    forall i :: 0 <= i < |es| ==> Printable(es[i], named)
  }

  function ChildOf(e: Entry<bytes>, named: bool): Child
    requires Printable(e, named)
  {
    var d := ParseDocument(e.value).value;
    Child(if named then e.key else [], d.core, d.value)
  }

  function ChildrenOf(es: seq<Entry<bytes>>, named: bool): (cs: seq<Child>)
    requires AllPrintable(es, named)
    ensures |cs| == |es|
    ensures forall i :: 0 <= i < |es| ==> cs[i] == ChildOf(es[i], named)
  {
    if es == [] then [] else [ChildOf(es[0], named)] + ChildrenOf(es[1..], named)
  }

  lemma {:induction false} SpacesToEnd(x: bytes, s: bytes, d: nat, i: nat)
    requires i <= |x| && SpaceEnd(x, i) == |x| && Shifted(x, s, d, i, |x|)
    requires |x| + d < |s| && !IsSpace(s[|x| + d])
    ensures SpaceEnd(s, i + d) == |x| + d
    decreases |x| - i
  {
    if i < |x| {
      SpacesToEnd(x, s, d, i + 1);
    }
  }

  /** `x` stands in `s` at position `i`. */
  ghost predicate StandsAt(x: bytes, s: bytes, i: nat) {
    Shifted(x, s, i, 0, |x|)
  }

  lemma LiteralAt(name: bytes, s: bytes, i: nat)
    requires StandsAt(Quote(name), s, i)
    ensures LiteralEnd(s, i) == Some(i + |Quote(name)|)
    ensures s[i + 1..i + |Quote(name)| - 1] == Escape(name)
  {
    hide Escape, ScanBody, IsBody;
    var lit, k := Quote(name), i + |Quote(name)|;
    EscapeIsBody(name);
    assert lit[1..|lit| - 1] == Escape(name);
    SliceMove(lit, s, i, 1, |lit| - 1);
    ScanFinds(Escape(name), s[k..]);
    assert s[k - 1] == lit[|lit| - 1] == QUOTE;
    assert s[i + 1..] == Escape(name) + [QUOTE] + s[k..];
  }

  lemma NameAt(name: bytes, x: bytes, s: bytes, i: nat)
    requires Utf8.Valid(name) && SpaceEnd(x, 0) < |x|
    requires StandsAt(Quote(name), s, i)
    requires var k := i + |Quote(name)|; k < |s| && s[k] == COLON && StandsAt(x, s, k + 1)
    ensures ParseName(s, i) == Some(Parsed(name, i + |Quote(name)| + 1 + SpaceEnd(x, 0)))
  {
    hide LiteralEnd, Unescape, Escape, Utf8.Valid;
    var k := i + |Quote(name)|;
    LiteralAt(name, s, i);
    UnescapeEscape(name);
    SpacesMove(x, s, k + 1, 0, |x|);
    assert SpaceEnd(s, k) == k;
  }

  lemma ValueAt(x: bytes, s: bytes, i: nat)
    requires IsValid(x) && StandsAt(x, s, i)
    requires var k := i + |x|; k < |s| && (s[k] == COMMA || s[k] == RBRACE || s[k] == RBRACKET)
    ensures var d, v := ParseDocument(x).value, i + SpaceEnd(x, 0);
      && v <= |s|
      && ParseValue(s, v) == Some(Parsed(d.value, v + |d.core|))
      && s[v..v + |d.core|] == d.core
      && SpaceEnd(s, v + |d.core|) == i + |x|
  {
    hide ParseValue;
    var w := SpaceEnd(x, 0);
    var p := ParseValue(x, w).value;
    SpaceRun(x, p.end);
    assert p.end < |x| ==> s[p.end + i] == x[p.end] && IsSpace(x[p.end]);
    ValueMove(x, s, i, w);
    SliceMove(x, s, i, w, p.end);
    SpacesToEnd(x, s, i, p.end);
  }

  /** A printed child is read back, whatever stands before it and behind its delimiter. */
  lemma ChildAt(e: Entry<bytes>, named: bool, s: bytes, i: nat)
    requires Printable(e, named)
    requires StandsAt(Head(e, named), s, i) && StandsAt(e.value, s, i + |Head(e, named)|)
    requires var k := i + |Head(e, named)| + |e.value|;
      k < |s| && (s[k] == COMMA || s[k] == Close(named))
    ensures ParseChild(s, i, named) == Some(Parsed(ChildOf(e, named), i + |Head(e, named)| + |e.value|))
  {
    hide ParseValue, ParseName, ParseChild, ParseDocument, Quote, SpaceEnd, StandsAt;
    var n := i + |Head(e, named)|;
    ValueAt(e.value, s, n);
    var d := ParseDocument(e.value).value;
    var v := n + SpaceEnd(e.value, 0);
    if named {
      HeadParts(e, s, i);
      NameAt(e.key, e.value, s, i);
    }
    ChildStep(s, i, named, Parsed(if named then e.key else [], v), Parsed(d.value, v + |d.core|));
  }

  lemma HeadParts(e: Entry<bytes>, s: bytes, i: nat)
    requires StandsAt(Head(e, true), s, i)
    ensures StandsAt(Quote(e.key), s, i) && s[i + |Quote(e.key)|] == COLON
  {
    hide Escape;
    var h := Head(e, true);
    assert forall k :: 0 <= k < |Quote(e.key)| ==> h[k] == Quote(e.key)[k];
    assert h[|Quote(e.key)|] == COLON;
  }

  lemma StandsParts(a: bytes, b: bytes, s: bytes, i: nat)
    requires StandsAt(a + b, s, i)
    ensures StandsAt(a, s, i) && StandsAt(b, s, i + |a|)
  {
    assert forall k :: 0 <= k < |a| ==> (a + b)[k] == a[k];
    assert forall k :: 0 <= k < |b| ==> (a + b)[k + |a|] == b[k];
  }

  /** Printed children are read back one by one, with the bytes of each value. */
  lemma {:induction false} ChildrenAt(es: seq<Entry<bytes>>, named: bool, s: bytes, i: nat)
    requires es != [] && AllPrintable(es, named)
    requires StandsAt(PrintChildren(es, named), s, i)
    ensures ParseChildren(s, i, named) == Some(Parsed(ChildrenOf(es, named), i + |PrintChildren(es, named)|))
    decreases |es|
  {
    hide ParseChild, ParseChildren, Head, Printable, ChildOf, StandsAt;
    var e := es[0];
    var h := Head(e, named);
    var after := if |es| == 1 then [Close(named)] else [COMMA] + PrintChildren(es[1..], named);
    StandsParts(h + e.value, after, s, i);
    StandsParts(h, e.value, s, i);
    var c := Parsed(ChildOf(e, named), i + |h| + |e.value|);
    StandsFirst(after, s, c.end);
    ChildAt(e, named, s, i);
    ChildrenStep(s, i, named, c);
    assert ChildrenOf(es, named) == [c.value] + ChildrenOf(es[1..], named);
    if |es| == 1 {
      assert ChildrenOf(es, named) == [c.value];
    } else {
      StandsParts([COMMA], PrintChildren(es[1..], named), s, c.end);
      ChildrenAt(es[1..], named, s, c.end + 1);
      PrintedFirst(es[1..], named);
      StandsFirst(PrintChildren(es[1..], named), s, c.end + 1);
      assert SpaceEnd(s, c.end + 1) == c.end + 1;
    }
  }

  lemma StandsFirst(x: bytes, s: bytes, i: nat)
    requires StandsAt(x, s, i) && x != []
    ensures i < |s| && s[i] == x[0] && i + |x| <= |s|
  {
  }

  lemma PrintedFirst(es: seq<Entry<bytes>>, named: bool)
    requires es != [] && Printable(es[0], named)
    ensures PrintChildren(es, named) != [] && !IsSpace(PrintChildren(es, named)[0])
    ensures PrintChildren(es, named)[0] != Close(named)
  {
    hide ParseValue, Escape;
    if !named {
      var x := es[0].value;
      ValueEdges(x, 0);
      NoCloseFirst(x, 0);
      assert PrintChildren(es, named)[0] == x[0];
    }
  }

  lemma NoCloseFirst(s: bytes, i: nat)
    requires i <= |s| && ParseValue(s, i).Some?
    ensures s[i] != RBRACE && s[i] != RBRACKET
  {
    hide Unescape, ParseChildren, NumberEnd;
    FirstByte(s, i);
  }

  /** A printed container is one document; its children are the entries that were printed. */
  lemma PrintedContainer(es: seq<Entry<bytes>>, named: bool)
    requires AllPrintable(es, named)
    ensures var s := PrintContainer(es, named);
      ParseDocument(s) == Some(Document(Container(named, ChildrenOf(es, named)), s))
  {
    hide ParseChildren, ParseContainer, ParseValue, Printable, PrintChildren, ChildOf;
    var s := PrintContainer(es, named);
    assert s[0] == Open(named);
    if es != [] {
      assert StandsAt(PrintChildren(es, named), s, 1);
      ChildrenAt(es, named, s, 1);
      PrintedFirst(es, named);
      assert s[1] == PrintChildren(es, named)[0];
    } else {
      assert s[1] == Close(named) && ChildrenOf(es, named) == [];
    }
    assert !IsSpace(s[1]);
    assert SpaceEnd(s, 0) == 0 && SpaceEnd(s, 1) == 1 && SpaceEnd(s, |s|) == |s|;
    ContainerStep(s, 0);
    assert s[0..|s|] == s;
  }
}
