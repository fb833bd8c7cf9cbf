/** JSON text (sections 2 to 7 of RFC 8259): a parser that keeps, for every child of an
    object or array, the exact bytes that spell it, as `json.RawMessage` does. The central
    fact is locality: what a value parses to depends on its own bytes only, so a payload can
    be spliced into a larger document, and cut out of one, without changing its meaning. */
module JsonText {
  import opened Bytes
  import opened JsonString

  const LBRACE: byte := 0x7B
  const RBRACE: byte := 0x7D
  const LBRACKET: byte := 0x5B
  const RBRACKET: byte := 0x5D
  const COLON: byte := 0x3A
  const COMMA: byte := 0x2C
  const MINUS: byte := 0x2D
  const ZERO: byte := 0x30
  const DOT: byte := 0x2E

  const NULL: bytes := Ascii("null")
  const TRUE: bytes := Ascii("true")
  const FALSE: bytes := Ascii("false")

  /** An object and an array differ only in that an object's children carry names. */
  datatype Json =
    | Null
    | Bool(value: bool)
    | Number(text: bytes)
    | String(text: bytes)
    | Container(named: bool, children: seq<Child>)

  /** `raw` is the text of the value without surrounding white space; an array's children
      have the empty name. */
  datatype Child = Child(name: bytes, raw: bytes, value: Json)

  /** What was read, and the position behind it. */
  datatype Parsed<+T> = Parsed(value: T, end: nat)

  // ---------- white space and numbers ----------

  predicate IsSpace(c: byte) { c == 0x20 || c == 0x09 || c == 0x0A || c == 0x0D }

  /** The first position from `i` on that is not white space. */
  function SpaceEnd(s: bytes, i: nat): (e: nat)
    requires i <= |s|
    ensures i <= e <= |s|
    ensures e < |s| ==> !IsSpace(s[e])
    decreases |s| - i
  {
    if i < |s| && IsSpace(s[i]) then SpaceEnd(s, i + 1) else i
  }

  predicate IsDigit(c: byte) { 0x30 <= c <= 0x39 }

  function DigitEnd(s: bytes, i: nat): (e: nat)
    requires i <= |s|
    ensures i <= e <= |s|
    ensures i < e ==> IsDigit(s[e - 1])
    ensures e < |s| ==> !IsDigit(s[e])
    decreases |s| - i
  {
    if i < |s| && IsDigit(s[i]) then DigitEnd(s, i + 1) else i
  }

  function IntegerEnd(s: bytes, i: nat): (e: Option<nat>)
    requires i <= |s|
    ensures e.Some? ==> i < e.value <= |s| && IsDigit(s[e.value - 1])
  {
    var d := if i < |s| && s[i] == MINUS then i + 1 else i;
    if d == |s| || !IsDigit(s[d]) then None
    else if s[d] == ZERO then Some(d + 1)
    else Some(DigitEnd(s, d))
  }

  function FractionEnd(s: bytes, i: nat): (e: Option<nat>)
    requires i <= |s|
    ensures e.Some? ==> i <= e.value <= |s| && (i < e.value ==> IsDigit(s[e.value - 1]))
  {
    if i == |s| || s[i] != DOT then Some(i)
    else if DigitEnd(s, i + 1) == i + 1 then None
    else Some(DigitEnd(s, i + 1))
  }

  function ExponentEnd(s: bytes, i: nat): (e: Option<nat>)
    requires i <= |s|
    ensures e.Some? ==> i <= e.value <= |s| && (i < e.value ==> IsDigit(s[e.value - 1]))
  {
    if i == |s| || (s[i] != 0x65 && s[i] != 0x45) then Some(i)
    else
      var d := if i + 1 < |s| && (s[i + 1] == 0x2B || s[i + 1] == MINUS) then i + 2 else i + 1;
      if DigitEnd(s, d) == d then None else Some(DigitEnd(s, d))
  }

  function NumberEnd(s: bytes, i: nat): (e: Option<nat>)
    requires i <= |s|
    ensures e.Some? ==> i < e.value <= |s| && IsDigit(s[e.value - 1])
  {
    var n :- IntegerEnd(s, i);
    var f :- FractionEnd(s, n);
    ExponentEnd(s, f)
  }

  /** The bytes that could lengthen a number. */
  predicate IsNumberByte(c: byte) {
    IsDigit(c) || c == DOT || c == 0x65 || c == 0x45 || c == 0x2B || c == MINUS
  }

  // ---------- values ----------

  /** The end of the string literal at `i`. */
  function LiteralEnd(s: bytes, i: nat): (e: Option<nat>)
    requires i <= |s|
    ensures e.Some? ==> i + 2 <= e.value <= |s| && s[i] == QUOTE && s[e.value - 1] == QUOTE
  {
    if i == |s| || s[i] != QUOTE then None
    else
      var n :- ScanBody(s[i + 1..]);
      ScanSound(s[i + 1..]);
      Some(i + n + 2)
  }

  predicate WordAt(s: bytes, i: nat, word: bytes) {
    i + |word| <= |s| && s[i..i + |word|] == word
  }

  function Close(named: bool): byte { if named then RBRACE else RBRACKET }

  function Open(named: bool): byte { if named then LBRACE else LBRACKET }

  function ParseValue(s: bytes, i: nat): (r: Option<Parsed<Json>>)
    requires i <= |s|
    ensures r.Some? ==> i < r.value.end <= |s|
    decreases |s| - i, 0
  {
    if i == |s| then None
    else if s[i] == LBRACE || s[i] == LBRACKET then ParseContainer(s, i)
    else ParseScalar(s, i)
  }

  function ParseScalar(s: bytes, i: nat): (r: Option<Parsed<Json>>)
    requires i < |s|
    ensures r.Some? ==> i < r.value.end <= |s|
  {
    if s[i] == QUOTE then
      var e :- LiteralEnd(s, i);
      Some(Parsed(String(Unescape(s[i + 1..e - 1])), e))
    else if s[i] == MINUS || IsDigit(s[i]) then
      var e :- NumberEnd(s, i);
      Some(Parsed(Number(s[i..e]), e))
    else if WordAt(s, i, NULL) then Some(Parsed(Null, i + 4))
    else if WordAt(s, i, TRUE) then Some(Parsed(Bool(true), i + 4))
    else if WordAt(s, i, FALSE) then Some(Parsed(Bool(false), i + 5))
    else None
  }

  function ParseContainer(s: bytes, i: nat): (r: Option<Parsed<Json>>)
    requires i < |s|
    ensures r.Some? ==> i + 2 <= r.value.end <= |s| && r.value.value.Container?
    decreases |s| - i - 1, 3
  {
    var named := s[i] == LBRACE;
    var w := SpaceEnd(s, i + 1);
    if w < |s| && s[w] == Close(named) then Some(Parsed(Container(named, []), w + 1))
    else
      var p :- ParseChildren(s, w, named);
      Some(Parsed(Container(named, p.value), p.end))
  }

  /** The name of an object's child and the colon: the position of the value. */
  function ParseName(s: bytes, i: nat): (r: Option<Parsed<bytes>>)
    requires i <= |s|
    ensures r.Some? ==> i < r.value.end <= |s|
  {
    var k :- LiteralEnd(s, i);
    var c := SpaceEnd(s, k);
    if c == |s| || s[c] != COLON then None
    else Some(Parsed(Unescape(s[i + 1..k - 1]), SpaceEnd(s, c + 1)))
  }

  /** One child and the white space behind it. */
  function ParseChild(s: bytes, i: nat, named: bool): (r: Option<Parsed<Child>>)
    requires i <= |s|
    ensures r.Some? ==> i < r.value.end <= |s|
    decreases |s| - i, 1
  {
    var name :- if named then ParseName(s, i) else Some(Parsed([], i));
    var p :- ParseValue(s, name.end);
    Some(Parsed(Child(name.value, s[name.end..p.end], p.value), SpaceEnd(s, p.end)))
  }

  /** Children up to and including the closing bracket. */
  function ParseChildren(s: bytes, i: nat, named: bool): (r: Option<Parsed<seq<Child>>>)
    requires i <= |s|
    ensures r.Some? ==> i < r.value.end <= |s|
    decreases |s| - i, 2
  {
    var c :- ParseChild(s, i, named);
    if c.end == |s| then None
    else if s[c.end] == Close(named) then Some(Parsed([c.value], c.end + 1))
    else if s[c.end] == COMMA then
      var rest :- ParseChildren(s, SpaceEnd(s, c.end + 1), named);
      Some(Parsed([c.value] + rest.value, rest.end))
    else None
  }

  lemma ContainerStep(s: bytes, i: nat)
    requires i < |s| && (s[i] == LBRACE || s[i] == LBRACKET)
    ensures ParseValue(s, i) == ParseContainer(s, i)
    ensures var named, w := s[i] == LBRACE, SpaceEnd(s, i + 1);
      if w < |s| && s[w] == Close(named) then ParseContainer(s, i) == Some(Parsed(Container(named, []), w + 1))
      else
        var p := ParseChildren(s, w, named);
        ParseContainer(s, i) == if p.None? then None else Some(Parsed(Container(named, p.value.value), p.value.end))
  {
    hide ParseChildren, SpaceEnd;
  }

  lemma ChildStep(s: bytes, i: nat, named: bool, name: Parsed<bytes>, v: Parsed<Json>)
    requires i <= |s| && (if named then ParseName(s, i) == Some(name) else name == Parsed([], i))
    requires ParseValue(s, name.end) == Some(v)
    ensures ParseChild(s, i, named) == Some(Parsed(Child(name.value, s[name.end..v.end], v.value), SpaceEnd(s, v.end)))
  {
    hide ParseName, ParseValue, SpaceEnd;
  }

  /** The two ways to go on behind a child. */
  lemma ChildrenStep(s: bytes, i: nat, named: bool, c: Parsed<Child>)
    requires i <= |s| && ParseChild(s, i, named) == Some(c) && c.end < |s|
    ensures s[c.end] == Close(named) ==> ParseChildren(s, i, named) == Some(Parsed([c.value], c.end + 1))
    ensures s[c.end] == COMMA ==>
      var rest := ParseChildren(s, SpaceEnd(s, c.end + 1), named);
      ParseChildren(s, i, named) ==
        if rest.None? then None else Some(Parsed([c.value] + rest.value.value, rest.value.end))
  {
    hide ParseChild;
  }

  /** A complete text: a value between white space. `core` is the value's own bytes. */
  datatype Document = Document(value: Json, core: bytes)

  function ParseDocument(s: bytes): (d: Option<Document>) {
    var w := SpaceEnd(s, 0);
    var p :- ParseValue(s, w);
    if SpaceEnd(s, p.end) != |s| then None else Some(Document(p.value, s[w..p.end]))
  }

  /** `json.Valid`. */
  predicate IsValid(s: bytes) { ParseDocument(s).Some? }

  function Depth(v: Json): nat {
    match v
    case Container(_, cs) => 1 + ChildDepth(cs)
    case _ => 0
  }

  function ChildDepth(cs: seq<Child>): nat {
    if cs == [] then 0
    else
      var first, rest := Depth(cs[0].value), ChildDepth(cs[1..]);
      if first > rest then first else rest
  }

  // ---------- locality ----------

  /** The bytes of `s` from `lo` up to `hi` stand in `t` as well, `d` positions further on. */
  ghost predicate Shifted(s: bytes, t: bytes, d: int, lo: nat, hi: nat) {
    lo <= hi <= |s| && 0 <= lo + d && hi + d <= |t| && forall k :: lo <= k < hi ==> t[k + d] == s[k]
  }

  /** Nothing at position `e` would lengthen a number that ends there. */
  ghost predicate Ends(t: bytes, e: int) {
    0 <= e <= |t| && (e < |t| ==> !IsNumberByte(t[e]))
  }

  lemma ShiftedPart(s: bytes, t: bytes, d: int, lo: nat, hi: nat, from: nat, to: nat)
    requires Shifted(s, t, d, lo, hi) && lo <= from <= to <= hi
    ensures Shifted(s, t, d, from, to)
    ensures from < to ==> t[from + d] == s[from]
  {
  }

  lemma {:induction false} SpacesMove(s: bytes, t: bytes, d: int, i: nat, hi: nat)
    requires Shifted(s, t, d, i, hi) && SpaceEnd(s, i) < hi
    ensures SpaceEnd(t, i + d) == SpaceEnd(s, i) + d
    decreases |s| - i
  {
    if IsSpace(s[i]) {
      SpacesMove(s, t, d, i + 1, hi);
    }
  }

  lemma {:induction false} DigitsMove(s: bytes, t: bytes, d: int, i: nat)
    requires i <= |s| && Shifted(s, t, d, i, DigitEnd(s, i))
    requires DigitEnd(s, i) + d < |t| ==> !IsDigit(t[DigitEnd(s, i) + d])
    ensures DigitEnd(t, i + d) == DigitEnd(s, i) + d
    decreases |s| - i
  {
    if i < |s| && IsDigit(s[i]) {
      DigitsMove(s, t, d, i + 1);
    }
  }

  lemma IntegerMove(s: bytes, t: bytes, d: int, i: nat, e: nat)
    requires i <= |s| && IntegerEnd(s, i) == Some(e) && Shifted(s, t, d, i, e)
    requires e + d < |t| ==> !IsDigit(t[e + d])
    ensures IntegerEnd(t, i + d) == Some(e + d)
  {
    var k := if s[i] == MINUS then i + 1 else i;
    if s[k] != ZERO {
      DigitsMove(s, t, d, k);
    }
  }

  lemma FractionMove(s: bytes, t: bytes, d: int, i: nat, e: nat)
    requires i <= |s| && FractionEnd(s, i) == Some(e) && Shifted(s, t, d, i, e)
    requires e + d < |t| ==> !IsDigit(t[e + d]) && t[e + d] != DOT
    ensures FractionEnd(t, i + d) == Some(e + d)
  {
    if i < e {
      DigitsMove(s, t, d, i + 1);
    }
  }

  lemma ExponentMove(s: bytes, t: bytes, d: int, i: nat, e: nat)
    requires i <= |s| && ExponentEnd(s, i) == Some(e) && Shifted(s, t, d, i, e) && Ends(t, e + d)
    ensures ExponentEnd(t, i + d) == Some(e + d)
  {
    if i < e {
      var k := if s[i + 1] == 0x2B || s[i + 1] == MINUS then i + 2 else i + 1;
      DigitsMove(s, t, d, k);
    }
  }

  lemma NumberMove(s: bytes, t: bytes, d: int, i: nat, e: nat)
    requires i <= |s| && NumberEnd(s, i) == Some(e) && Shifted(s, t, d, i, e) && Ends(t, e + d)
    ensures NumberEnd(t, i + d) == Some(e + d)
  {
    hide DigitEnd;
    var n := IntegerEnd(s, i).value;
    var f := FractionEnd(s, n).value;
    ExponentMove(s, t, d, f, e);
    FractionMove(s, t, d, n, f);
    IntegerMove(s, t, d, i, n);
  }

  lemma SliceMove(s: bytes, t: bytes, d: int, lo: nat, hi: nat)
    requires Shifted(s, t, d, lo, hi)
    ensures t[lo + d..hi + d] == s[lo..hi]
  {
  }

  lemma CutAt(t: bytes, j: nat, k: nat)
    requires j <= k < |t|
    ensures t[j..] == t[j..k] + [t[k]] + t[k + 1..]
  {
  }

  lemma LiteralMove(s: bytes, t: bytes, d: int, i: nat, e: nat)
    requires i <= |s| && LiteralEnd(s, i) == Some(e) && Shifted(s, t, d, i, e)
    ensures LiteralEnd(t, i + d) == Some(e + d)
    ensures t[i + d + 1..e + d - 1] == s[i + 1..e - 1]
  {
    hide IsBody, ScanBody;
    ScanSound(s[i + 1..]);
    var body := s[i + 1..e - 1];
    assert s[i + 1..][..e - i - 2] == body;
    SliceMove(s, t, d, i + 1, e - 1);
    assert t[e + d - 1] == s[e - 1] == QUOTE;
    CutAt(t, i + d + 1, e + d - 1);
    ScanFinds(body, t[e + d..]);
  }

  lemma ScalarMove(s: bytes, t: bytes, d: int, i: nat)
    requires i < |s| && ParseScalar(s, i).Some?
    requires var e := ParseScalar(s, i).value.end; Shifted(s, t, d, i, e) && Ends(t, e + d)
    ensures var p := ParseScalar(s, i).value; ParseScalar(t, i + d) == Some(Parsed(p.value, p.end + d))
  {
    hide Unescape, LiteralEnd, NumberEnd;
    var e := ParseScalar(s, i).value.end;
    SliceMove(s, t, d, i, e);
    if s[i] == QUOTE {
      LiteralMove(s, t, d, i, e);
    } else if s[i] == MINUS || IsDigit(s[i]) {
      NumberMove(s, t, d, i, e);
    } else {
      FirstByte(s, i);
      FirstByte(t, i + d);
    }
  }

  lemma FirstByte(t: bytes, i: nat)
    ensures WordAt(t, i, NULL) ==> t[i] == 0x6E
    ensures WordAt(t, i, TRUE) ==> t[i] == 0x74
    ensures WordAt(t, i, FALSE) ==> t[i] == 0x66
  {
    if WordAt(t, i, NULL) { assert t[i..i + 4][0] == t[i]; }
    if WordAt(t, i, TRUE) { assert t[i..i + 4][0] == t[i]; }
    if WordAt(t, i, FALSE) { assert t[i..i + 5][0] == t[i]; }
  }

  lemma {:induction false} ValueMove(s: bytes, t: bytes, d: int, i: nat)
    requires i <= |s| && ParseValue(s, i).Some?
    requires var e := ParseValue(s, i).value.end; Shifted(s, t, d, i, e) && Ends(t, e + d)
    ensures var p := ParseValue(s, i).value; ParseValue(t, i + d) == Some(Parsed(p.value, p.end + d))
    decreases |s| - i, 0
  {
    if s[i] == LBRACE || s[i] == LBRACKET {
      ContainerMove(s, t, d, i);
    } else {
      ScalarMove(s, t, d, i);
    }
  }

  lemma {:induction false} ContainerMove(s: bytes, t: bytes, d: int, i: nat)
    requires i < |s| && ParseContainer(s, i).Some?
    requires Shifted(s, t, d, i, ParseContainer(s, i).value.end)
    ensures var p := ParseContainer(s, i).value; ParseContainer(t, i + d) == Some(Parsed(p.value, p.end + d))
    decreases |s| - i - 1, 3
  {
    hide ParseChildren, ParseChild;
    var e := ParseContainer(s, i).value.end;
    var named := s[i] == LBRACE;
    var w := SpaceEnd(s, i + 1);
    SpacesMove(s, t, d, i + 1, e);
    if s[w] != Close(named) {
      ChildrenMove(s, t, d, w, named);
    }
  }

  lemma ChildrenBegin(s: bytes, i: nat, named: bool) returns (c: Parsed<Child>)
    requires i <= |s| && ParseChildren(s, i, named).Some?
    ensures ParseChild(s, i, named) == Some(c) && c.end < ParseChildren(s, i, named).value.end
    ensures s[c.end] == Close(named) || s[c.end] == COMMA
    ensures s[c.end] == COMMA ==>
      && ParseChildren(s, SpaceEnd(s, c.end + 1), named).Some?
      && ParseChildren(s, SpaceEnd(s, c.end + 1), named).value.end == ParseChildren(s, i, named).value.end
  {
    hide ParseChild;
    c := ParseChild(s, i, named).value;
  }

  /** Children end with the closing bracket. */
  lemma {:induction false} ChildrenClose(s: bytes, i: nat, named: bool)
    requires i <= |s| && ParseChildren(s, i, named).Some?
    ensures s[ParseChildren(s, i, named).value.end - 1] == Close(named)
    decreases |s| - i
  {
    hide ParseChildren, ParseChild, SpaceEnd;
    var c := ChildrenBegin(s, i, named);
    ChildrenStep(s, i, named, c);
    if s[c.end] == COMMA {
      ChildrenClose(s, SpaceEnd(s, c.end + 1), named);
    }
  }

  lemma ContainerClose(s: bytes, i: nat)
    requires i < |s| && (s[i] == LBRACE || s[i] == LBRACKET) && ParseContainer(s, i).Some?
    ensures var c := s[ParseContainer(s, i).value.end - 1]; c == RBRACE || c == RBRACKET
  {
    hide ParseChildren, ParseContainer;
    ContainerStep(s, i);
    var named, w := s[i] == LBRACE, SpaceEnd(s, i + 1);
    if w == |s| || s[w] != Close(named) {
      ChildrenClose(s, w, named);
    }
  }

  lemma {:induction false} ChildrenMove(s: bytes, t: bytes, d: int, i: nat, named: bool)
    requires i <= |s| && ParseChildren(s, i, named).Some?
    requires Shifted(s, t, d, i, ParseChildren(s, i, named).value.end)
    ensures var p := ParseChildren(s, i, named).value;
      ParseChildren(t, i + d, named) == Some(Parsed(p.value, p.end + d))
    decreases |s| - i, 2
  {
    hide ParseChildren, ParseChild, SpaceEnd, Shifted;
    var e := ParseChildren(s, i, named).value.end;
    var c := ChildrenBegin(s, i, named);
    ShiftedPart(s, t, d, i, e, i, c.end + 1);
    ShiftedPart(s, t, d, i, e, c.end, e);
    ChildMove(s, t, d, i, named);
    ChildrenStep(s, i, named, c);
    ChildrenStep(t, i + d, named, Parsed(c.value, c.end + d));
    if s[c.end] == COMMA {
      var k := SpaceEnd(s, c.end + 1);
      ShiftedPart(s, t, d, i, e, c.end + 1, e);
      SpacesMove(s, t, d, c.end + 1, e);
      ShiftedPart(s, t, d, i, e, k, e);
      ChildrenMove(s, t, d, k, named);
    }
  }

  /** A child followed by a comma or its closing bracket. */
  lemma {:induction false} ChildMove(s: bytes, t: bytes, d: int, i: nat, named: bool)
    requires i <= |s| && ParseChild(s, i, named).Some?
    requires var e := ParseChild(s, i, named).value.end;
      e < |s| && Shifted(s, t, d, i, e + 1) && (s[e] == COMMA || s[e] == Close(named))
    ensures var p := ParseChild(s, i, named).value;
      ParseChild(t, i + d, named) == Some(Parsed(p.value, p.end + d))
    decreases |s| - i, 1
  {
    hide ParseName, ParseValue, ParseChild, SpaceEnd;
    var e := ParseChild(s, i, named).value.end;
    var name, p := ChildParts(s, i, named);
    if named {
      NameMove(s, t, d, i, e);
    }
    SpaceEdge(s, p.end);
    ValueMove(s, t, d, name.end);
    SpacesMove(s, t, d, p.end, e + 1);
    SliceMove(s, t, d, name.end, p.end);
    ChildStep(t, i + d, named, Parsed(name.value, name.end + d), Parsed(p.value, p.end + d));
  }

  lemma SpaceEdge(s: bytes, i: nat)
    requires i <= |s|
    ensures i < SpaceEnd(s, i) ==> IsSpace(s[i])
  {
  }

  /** The name and the value behind a child that was parsed. */
  lemma ChildParts(s: bytes, i: nat, named: bool) returns (name: Parsed<bytes>, p: Parsed<Json>)
    requires i <= |s| && ParseChild(s, i, named).Some?
    ensures if named then ParseName(s, i) == Some(name) else name == Parsed([], i)
    ensures name.end <= |s| && ParseValue(s, name.end) == Some(p) && i <= name.end < p.end <= |s|
    ensures ParseChild(s, i, named) == Some(Parsed(Child(name.value, s[name.end..p.end], p.value), SpaceEnd(s, p.end)))
  {
    hide ParseName, ParseValue, SpaceEnd;
    name := if named then ParseName(s, i).value else Parsed([], i);
    p := ParseValue(s, name.end).value;
  }

  lemma NameMove(s: bytes, t: bytes, d: int, i: nat, hi: nat)
    requires i <= |s| && ParseName(s, i).Some?
    requires ParseName(s, i).value.end < hi && Shifted(s, t, d, i, hi)
    ensures var p := ParseName(s, i).value; ParseName(t, i + d) == Some(Parsed(p.value, p.end + d))
  {
    hide Unescape, LiteralEnd;
    var k := LiteralEnd(s, i).value;
    var c := SpaceEnd(s, k);
    LiteralMove(s, t, d, i, k);
    SpacesMove(s, t, d, k, hi);
    SpacesMove(s, t, d, c + 1, hi);
  }
}
