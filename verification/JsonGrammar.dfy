/** The parser accepts the JSON grammar (sections 2 to 7 of RFC 8259), all of it and nothing
    else. A syntax tree says how a text is written, white space, spellings and all; every tree
    parses to its value, and every text that parses is written by some tree. */
module JsonGrammar {
  import opened Bytes
  import opened JsonString
  import opened JsonSpelling
  import opened JsonText
  import opened JsonDocument

  // ---------- how a text is written ----------

  datatype Syntax =
    | Null
    | True
    | False
    | Figure(minus: bool, whole: bytes, fraction: bytes, exponent: bytes)
    | Literal(units: seq<Unit>)
    | Brackets(named: bool, blank: bytes, items: seq<Item>)

  /** An element of an array or a member of an object, with the white space around its parts; an
      element has no name. */
  datatype Item = Item(before: bytes, name: seq<Unit>, gap: bytes, indent: bytes, value: Syntax, after: bytes)

  predicate Blank(ws: bytes) { forall i :: 0 <= i < |ws| ==> ws[i] in Ascii(" \t\n\r") }

  predicate Digits(ds: bytes) { forall i :: 0 <= i < |ds| ==> ds[i] in Ascii("0123456789") }

  /** An exponent: a letter, an optional sign and digits. */
  ghost predicate IsExponent(x: bytes) {
    exists letter: byte, sign: bytes, ds: bytes ::
      && letter in Ascii("eE") && (sign == [] || sign == Ascii("+") || sign == Ascii("-")) && ds != [] && Digits(ds)
      && x == [letter] + sign + ds
  }

  /** No leading zeros, digits behind a point, and a complete exponent. */
  ghost predicate FigureFormed(x: Syntax)
    requires x.Figure?
  {
    && Digits(x.whole) && x.whole != [] && (x.whole[0] == Ascii("0")[0] ==> |x.whole| == 1)
    && Digits(x.fraction) && (x.exponent == [] || IsExponent(x.exponent))
  }

  function WriteFigure(x: Syntax): bytes
    requires x.Figure?
  {
    (if x.minus then Ascii("-") else []) + x.whole
    + (if x.fraction == [] then [] else Ascii(".") + x.fraction) + x.exponent
  }

  function WriteLiteral(us: seq<Unit>): bytes { Ascii("\"") + Body(us) + Ascii("\"") }

  function Write(x: Syntax): bytes
    decreases x
  {
    match x
    case Null => Ascii("null")
    case True => Ascii("true")
    case False => Ascii("false")
    case Figure(_, _, _, _) => WriteFigure(x)
    case Literal(us) => WriteLiteral(us)
    case Brackets(named, blank, items) =>
      (if named then Ascii("{") else Ascii("["))
      + (if items == [] then blank else WriteItems(items, named))
      + (if named then Ascii("}") else Ascii("]"))
  }

  function WriteItems(items: seq<Item>, named: bool): bytes
    requires items != []
    decreases items
  {
    WriteItem(items[0], named) + if |items| == 1 then [] else Ascii(",") + WriteItems(items[1..], named)
  }

  function WriteItem(item: Item, named: bool): bytes
    decreases item
  {
    item.before + (WriteName(item, named) + (Write(item.value) + item.after))
  }

  function WriteName(item: Item, named: bool): bytes {
    if named then WriteLiteral(item.name) + (item.gap + (Ascii(":") + item.indent)) else []
  }

  ghost predicate Formed(x: Syntax)
    decreases x
  {
    match x
    case Figure(_, _, _, _) => FigureFormed(x)
    case Literal(us) => WellFormed(us)
    case Brackets(named, blank, items) => Blank(blank) && forall i :: 0 <= i < |items| ==> ItemFormed(items[i], named)
    case _ => true
  }

  ghost predicate ItemFormed(item: Item, named: bool)
    decreases item
  {
    && Blank(item.before) && Blank(item.gap) && Blank(item.indent) && Blank(item.after)
    && (named ==> WellFormed(item.name)) && Formed(item.value)
  }

  // ---------- what it means ----------

  function Value(x: Syntax): Json
    decreases x
  {
    match x
    case Null => Json.Null
    case True => Bool(true)
    case False => Bool(false)
    case Figure(_, _, _, _) => Number(WriteFigure(x))
    case Literal(us) => String(Text(us))
    case Brackets(named, _, items) => Container(named, Children(items, named))
  }

  function Children(items: seq<Item>, named: bool): seq<Child>
    decreases items
  {
    if items == [] then []
    else [Child(if named then Text(items[0].name) else [], Write(items[0].value), Value(items[0].value))]
         + Children(items[1..], named)
  }

  // ---------- characters ----------

  lemma BlankIsSpace(c: byte)
    ensures c in Ascii(" \t\n\r") <==> IsSpace(c)
  {
    var ws := Ascii(" \t\n\r");
    assert |ws| == 4 && ws[0] == 0x20 && ws[1] == 0x09 && ws[2] == 0x0A && ws[3] == 0x0D;
  }

  lemma DigitIsDigit(c: byte)
    ensures c in Ascii("0123456789") <==> IsDigit(c)
  {
    var ds := Ascii("0123456789");
    assert forall i :: 0 <= i < 10 ==> ds[i] as int == 0x30 + i;
    if IsDigit(c) {
      assert ds[c as int - 0x30] == c;
    }
  }

  lemma BlankMeaning(ws: bytes)
    ensures Blank(ws) <==> forall i :: 0 <= i < |ws| ==> IsSpace(ws[i])
  {
    forall i | 0 <= i < |ws| ensures ws[i] in Ascii(" \t\n\r") <==> IsSpace(ws[i]) {
      BlankIsSpace(ws[i]);
    }
  }

  lemma DigitsMeaning(ds: bytes)
    ensures Digits(ds) <==> forall i :: 0 <= i < |ds| ==> IsDigit(ds[i])
  {
    forall i | 0 <= i < |ds| ensures ds[i] in Ascii("0123456789") <==> IsDigit(ds[i]) {
      DigitIsDigit(ds[i]);
    }
  }

  lemma Marks()
    ensures Ascii("\"") == [QUOTE] && Ascii("{") == [LBRACE] && Ascii("}") == [RBRACE] && Ascii("[") == [LBRACKET]
    ensures Ascii("]") == [RBRACKET] && Ascii(",") == [COMMA] && Ascii(":") == [COLON] && Ascii("-") == [MINUS]
    ensures Ascii(".") == [DOT] && Ascii("+") == [0x2B] && Ascii("eE") == [0x65, 0x45] && Ascii("0") == [ZERO]
  {
  }

  // ---------- runs of spaces and digits ----------

  lemma {:induction false} BlankAt(ws: bytes, s: bytes, i: nat)
    requires Blank(ws) && StandsAt(ws, s, i) && (i + |ws| < |s| ==> !IsSpace(s[i + |ws|]))
    ensures SpaceEnd(s, i) == i + |ws|
    decreases |ws|
  {
    BlankMeaning(ws);
    if ws != [] {
      assert s[i] == ws[0];
      assert StandsAt(ws[1..], s, i + 1);
      BlankMeaning(ws[1..]);
      BlankAt(ws[1..], s, i + 1);
    }
  }

  lemma {:induction false} DigitsAt(ds: bytes, s: bytes, i: nat)
    requires Digits(ds) && StandsAt(ds, s, i) && (i + |ds| < |s| ==> !IsDigit(s[i + |ds|]))
    ensures DigitEnd(s, i) == i + |ds|
    decreases |ds|
  {
    DigitsMeaning(ds);
    if ds != [] {
      assert s[i] == ds[0];
      assert StandsAt(ds[1..], s, i + 1);
      DigitsMeaning(ds[1..]);
      DigitsAt(ds[1..], s, i + 1);
    }
  }

  // ---------- numbers: every figure is found ----------

  lemma WholeAt(minus: bool, whole: bytes, s: bytes, i: nat)
    requires Digits(whole) && whole != [] && (whole[0] == ZERO ==> |whole| == 1)
    requires StandsAt((if minus then [MINUS] else []) + whole, s, i)
    requires var k := i + (if minus then 1 else 0) + |whole|; k < |s| ==> !IsDigit(s[k])
    ensures IntegerEnd(s, i) == Some(i + (if minus then 1 else 0) + |whole|)
  {
    var sign := if minus then [MINUS] else [];
    StandsParts(sign, whole, s, i);
    DigitsMeaning(whole);
    var d := i + |sign|;
    assert s[d] == whole[0];
    assert minus ==> s[i] == sign[0];
    DigitsAt(whole, s, d);
  }

  lemma FractionAt(fraction: bytes, s: bytes, i: nat)
    requires i <= |s| && Digits(fraction)
    requires fraction == [] ==> i < |s| ==> s[i] != DOT
    requires fraction != [] ==> StandsAt([DOT] + fraction, s, i)
    requires fraction != [] ==> var k := i + 1 + |fraction|; k < |s| ==> !IsDigit(s[k])
    ensures FractionEnd(s, i) == Some(i + if fraction == [] then 0 else 1 + |fraction|)
  {
    if fraction != [] {
      StandsParts([DOT], fraction, s, i);
      assert s[i] == [DOT][0];
      DigitsAt(fraction, s, i + 1);
    }
  }

  lemma ExponentAt(x: bytes, s: bytes, i: nat)
    requires i <= |s| && (x == [] || IsExponent(x))
    requires x == [] ==> i < |s| ==> s[i] != 0x65 && s[i] != 0x45
    requires x != [] ==> StandsAt(x, s, i)
    requires x != [] ==> i + |x| < |s| ==> !IsDigit(s[i + |x|])
    ensures ExponentEnd(s, i) == Some(i + |x|)
  {
    hide Ascii, StandsAt, Digits;
    if x != [] {
      Marks();
      var letter: byte, sign: bytes, ds: bytes :|
        && letter in Ascii("eE") && (sign == [] || sign == Ascii("+") || sign == Ascii("-")) && ds != [] && Digits(ds)
        && x == [letter] + sign + ds;
      StandsParts([letter] + sign, ds, s, i);
      StandsParts([letter], sign, s, i);
      DigitsMeaning(ds);
      StandsFirst([letter], s, i);
      StandsFirst(ds, s, i + 1 + |sign|);
      if sign != [] {
        StandsFirst(sign, s, i + 1);
      }
      DigitsAt(ds, s, i + 1 + |sign|);
    }
  }

  /** What follows a part of a number, inside the figure or behind it. */
  lemma FigureAt(x: Syntax, s: bytes, i: nat)
    requires x.Figure? && FigureFormed(x) && StandsAt(WriteFigure(x), s, i) && Ends(s, i + |WriteFigure(x)|)
    ensures NumberEnd(s, i) == Some(i + |WriteFigure(x)|)
  {
    hide IntegerEnd, FractionEnd, ExponentEnd, IsExponent, Digits;
    Marks();
    var sign := if x.minus then [MINUS] else [];
    var point := if x.fraction == [] then [] else [DOT] + x.fraction;
    assert WriteFigure(x) == sign + x.whole + point + x.exponent;
    StandsParts(sign + x.whole + point, x.exponent, s, i);
    StandsParts(sign + x.whole, point, s, i);
    var n := i + |sign| + |x.whole|;
    var f := n + |point|;
    ExponentFirst(x.exponent);
    DigitsFirst(x.fraction);
    assert x.exponent != [] ==> f < |s| && s[f] == x.exponent[0];
    assert point != [] ==> n < |s| && s[n] == point[0] == DOT;
    NumberBytes();
    WholeAt(x.minus, x.whole, s, i);
    FractionAt(x.fraction, s, n);
    ExponentAt(x.exponent, s, f);
  }

  lemma NumberBytes()
    ensures !IsDigit(DOT) && !IsDigit(0x65) && !IsDigit(0x45) && DOT != 0x65 && DOT != 0x45
    ensures forall c: byte :: !IsNumberByte(c) ==> !IsDigit(c) && c != DOT && c != 0x65 && c != 0x45
  {
  }

  lemma ExponentFirst(x: bytes)
    requires x == [] || IsExponent(x)
    ensures x != [] ==> x[0] == 0x65 || x[0] == 0x45
  {
    Marks();
  }

  lemma DigitsFirst(ds: bytes)
    requires Digits(ds)
    ensures ds != [] ==> IsDigit(ds[0])
  {
    DigitsMeaning(ds);
  }

  // ---------- literals ----------

  lemma WrittenLiteralAt(us: seq<Unit>, s: bytes, i: nat)
    requires WellFormed(us) && StandsAt(WriteLiteral(us), s, i)
    ensures LiteralEnd(s, i) == Some(i + |WriteLiteral(us)|)
    ensures Unescape(s[i + 1..i + |WriteLiteral(us)| - 1]) == Text(us)
  {
    hide ScanBody, IsBody, Unescape, Body, Text, WellFormed;
    Marks();
    var lit, body, k := WriteLiteral(us), Body(us), i + |WriteLiteral(us)|;
    UnescapeSpelled(us);
    assert lit == [QUOTE] + body + [QUOTE] && lit[1..|lit| - 1] == body;
    SliceMove(lit, s, i, 1, |lit| - 1);
    ScanFinds(body, s[k..]);
    assert s[i] == lit[0] && s[k - 1] == lit[|lit| - 1];
    CutAt(s, i + 1, k - 1);
  }

  // ---------- every tree parses to its value ----------

  lemma FirstOfValue(x: Syntax)
    requires Formed(x)
    ensures Write(x) != []
    ensures !IsSpace(Write(x)[0]) && Write(x)[0] != RBRACE && Write(x)[0] != RBRACKET
    ensures (Write(x)[0] == LBRACE || Write(x)[0] == LBRACKET) <==> x.Brackets?
    ensures Write(x)[0] == QUOTE <==> x.Literal?
    ensures x.Figure? <==> Write(x)[0] == MINUS || IsDigit(Write(x)[0])
  {
    hide Body, WriteItems;
    Marks();
    match x
    case Null => assert Ascii("null")[0] == 0x6E;
    case True => assert Ascii("true")[0] == 0x74;
    case False => assert Ascii("false")[0] == 0x66;
    case Figure(_, _, _, _) => DigitsFirst(x.whole);
    case _ =>
  }

  lemma WordValueAt(x: Syntax, s: bytes, i: nat)
    requires (x.Null? || x.True? || x.False?) && StandsAt(Write(x), s, i)
    ensures ParseValue(s, i) == Some(Parsed(Value(x), i + |Write(x)|))
  {
    hide LiteralEnd, NumberEnd, ParseContainer, Unescape;
    var word := Write(x);
    SliceMove(word, s, i, 0, |word|);
    assert word[0..|word|] == word;
    assert s[i] == word[0];
    FirstByte(s, i);
    assert NULL == Ascii("null") && TRUE == Ascii("true") && FALSE == Ascii("false");
    assert Ascii("null")[0] == 0x6E && Ascii("true")[0] == 0x74 && Ascii("false")[0] == 0x66;
  }

  lemma ScalarValueAt(x: Syntax, s: bytes, i: nat)
    requires Formed(x) && !x.Brackets? && StandsAt(Write(x), s, i) && Ends(s, i + |Write(x)|)
    ensures ParseValue(s, i) == Some(Parsed(Value(x), i + |Write(x)|))
  {
    hide LiteralEnd, NumberEnd, ParseContainer, Unescape, WordAt, WriteLiteral, Text, FigureFormed, WriteFigure;
    hide WellFormed;
    FirstOfValue(x);
    StandsFirst(Write(x), s, i);
    match x
    case Figure(_, _, _, _) =>
      FigureAt(x, s, i);
      SliceMove(Write(x), s, i, 0, |Write(x)|);
      assert Write(x)[0..|Write(x)|] == Write(x);
    case Literal(us) => WrittenLiteralAt(us, s, i);
    case _ => WordValueAt(x, s, i);
  }

  /** A tree that stands in a text parses to its value there. */
  lemma {:induction false} ValueAtPosition(x: Syntax, s: bytes, i: nat)
    requires Formed(x) && StandsAt(Write(x), s, i) && Ends(s, i + |Write(x)|)
    ensures ParseValue(s, i) == Some(Parsed(Value(x), i + |Write(x)|))
    decreases x, 1
  {
    if x.Brackets? {
      BracketsAt(x, s, i);
    } else {
      ScalarValueAt(x, s, i);
    }
  }

  lemma {:induction false} BracketsAt(x: Syntax, s: bytes, i: nat)
    requires x.Brackets? && Formed(x) && StandsAt(Write(x), s, i)
    ensures ParseValue(s, i) == Some(Parsed(Value(x), i + |Write(x)|))
    decreases x, 0
  {
    hide ParseValue, ParseContainer, ParseChildren, SpaceEnd, WriteItems, StandsAt, ItemFormed, Blank, Ascii, Open;
    hide Value, Write, Formed, Children;
    BracketParts(x, s, i);
    BracketValue(x);
    ContainerStep(s, i);
    if x.items == [] {
      BlankAt(x.blank, s, i + 1);
    } else {
      ItemsAt(x.items, x.named, s, i + 1);
      FirstOfItem(x.items[0], x.named, s, i + 1, x.items);
    }
  }

  lemma BracketValue(x: Syntax)
    requires x.Brackets? && Formed(x)
    ensures Blank(x.blank) && forall i :: 0 <= i < |x.items| ==> ItemFormed(x.items[i], x.named)
    ensures Value(x) == Container(x.named, Children(x.items, x.named))
    ensures x.items == [] ==> Children(x.items, x.named) == []
  {
    hide Blank, ItemFormed;
  }

  /** What stands between the brackets. */
  function Inner(x: Syntax): bytes
    requires x.Brackets?
  {
    if x.items == [] then x.blank else WriteItems(x.items, x.named)
  }

  lemma BracketParts(x: Syntax, s: bytes, i: nat)
    requires x.Brackets? && StandsAt(Write(x), s, i)
    ensures StandsAt(Inner(x), s, i + 1) && |Write(x)| == |Inner(x)| + 2 && i + 1 + |Inner(x)| < |s|
    ensures s[i] == (if x.named then LBRACE else LBRACKET) && s[i + 1 + |Inner(x)|] == Close(x.named)
    ensures !IsSpace(Close(x.named))
  {
    hide WriteItems, StandsAt;
    Marks();
    var inner, open, close := Inner(x), [Open(x.named)], [Close(x.named)];
    assert Write(x) == open + inner + close;
    StandsParts(open + inner, close, s, i);
    StandsParts(open, inner, s, i);
    StandsFirst(open, s, i);
    StandsFirst(close, s, i + 1 + |inner|);
  }

  /** Behind the white space before an item stands no closing bracket. */
  lemma FirstOfItem(item: Item, named: bool, s: bytes, i: nat, items: seq<Item>)
    requires items != [] && items[0] == item && ItemFormed(item, named) && StandsAt(WriteItems(items, named), s, i)
    ensures i + |item.before| < |s| && SpaceEnd(s, i) == i + |item.before|
    ensures s[i + |item.before|] != RBRACE && s[i + |item.before|] != RBRACKET
  {
    hide Write, Formed, Body, WellFormed, SpaceEnd, StandsAt;
    Marks();
    ItemParts(items, named, s, i);
    var j := i + |item.before|;
    FirstOfValue(item.value);
    if named {
      StandsFirst(WriteName(item, named), s, j);
    } else {
      StandsFirst(Write(item.value), s, j);
    }
    BlankAt(item.before, s, i);
  }

  /** Where the parts of the first item stand. */
  lemma ItemParts(items: seq<Item>, named: bool, s: bytes, i: nat)
    requires items != [] && StandsAt(WriteItems(items, named), s, i)
    ensures var item := items[0];
      var j := i + |item.before|;
      var v := j + |WriteName(item, named)|;
      var a := v + |Write(item.value)|;
      && StandsAt(item.before, s, i) && StandsAt(WriteName(item, named), s, j)
      && StandsAt(Write(item.value), s, v) && StandsAt(item.after, s, a)
      && i + |WriteItem(item, named)| == a + |item.after|
      && (|items| > 1 ==>
            && StandsAt(Ascii(","), s, a + |item.after|)
            && StandsAt(WriteItems(items[1..], named), s, a + |item.after| + 1)
            && |WriteItems(items, named)| == |WriteItem(item, named)| + 1 + |WriteItems(items[1..], named)|)
      && (|items| == 1 ==> |WriteItems(items, named)| == |WriteItem(item, named)|)
  {
    hide Write, WriteName, StandsAt;
    var item := items[0];
    var tail := if |items| == 1 then [] else Ascii(",") + WriteItems(items[1..], named);
    StandsParts(WriteItem(item, named), tail, s, i);
    StandsParts(item.before, WriteName(item, named) + (Write(item.value) + item.after), s, i);
    StandsParts(WriteName(item, named), Write(item.value) + item.after, s, i + |item.before|);
    StandsParts(Write(item.value), item.after, s, i + |item.before| + |WriteName(item, named)|);
    if |items| > 1 {
      StandsParts(Ascii(","), WriteItems(items[1..], named), s, i + |WriteItem(item, named)|);
    }
  }

  lemma NameAtPosition(item: Item, s: bytes, j: nat)
    requires WellFormed(item.name) && Blank(item.gap) && Blank(item.indent)
    requires StandsAt(WriteName(item, true), s, j)
    requires var v := j + |WriteName(item, true)|; v < |s| && !IsSpace(s[v])
    ensures ParseName(s, j) == Some(Parsed(Text(item.name), j + |WriteName(item, true)|))
  {
    hide LiteralEnd, Unescape, WellFormed, WriteLiteral, SpaceEnd, StandsAt, Blank, Text;
    Marks();
    var lit := WriteLiteral(item.name);
    StandsParts(lit, item.gap + ([COLON] + item.indent), s, j);
    StandsParts(item.gap, [COLON] + item.indent, s, j + |lit|);
    StandsParts([COLON], item.indent, s, j + |lit| + |item.gap|);
    StandsFirst([COLON], s, j + |lit| + |item.gap|);
    WrittenLiteralAt(item.name, s, j);
    BlankAt(item.gap, s, j + |lit|);
    BlankAt(item.indent, s, j + |lit| + |item.gap| + 1);
  }

  /** One item: name, value and the white space behind it. */
  lemma {:induction false} ItemAt(items: seq<Item>, named: bool, s: bytes, i: nat)
    requires items != [] && ItemFormed(items[0], named) && StandsAt(WriteItems(items, named), s, i)
    requires var k := i + |WriteItem(items[0], named)|; k < |s| && (s[k] == COMMA || s[k] == Close(named))
    ensures var item := items[0];
      ParseChild(s, i + |item.before|, named) ==
        Some(Parsed(Child(if named then Text(item.name) else [], Write(item.value), Value(item.value)),
                    i + |WriteItem(item, named)|))
    decreases items[0], 0
  {
    hide Write, Formed, Value, ParseValue, ParseName, ParseChild, SpaceEnd, StandsAt, WellFormed, Text, WriteItem;
    hide WriteName, WriteItems, Blank;
    var item := items[0];
    ItemParts(items, named, s, i);
    var j := i + |item.before|;
    var v := j + |WriteName(item, named)|;
    var a := v + |Write(item.value)|;
    var k := a + |item.after|;
    FirstOfValue(item.value);
    StandsFirst(Write(item.value), s, v);
    Separators(s[k], named);
    BlankAt(item.after, s, a);
    AfterEnds(item.after, s, a);
    ValueAtPosition(item.value, s, v);
    if named {
      NameAtPosition(item, s, j);
    } else {
      NoName(item);
    }
    SliceStands(Write(item.value), s, v);
    ChildStep(s, j, named, Parsed(if named then Text(item.name) else [], v), Parsed(Value(item.value), a));
  }

  lemma NoName(item: Item)
    ensures WriteName(item, false) == []
  {
  }

  lemma SliceStands(x: bytes, s: bytes, i: nat)
    requires StandsAt(x, s, i)
    ensures i + |x| <= |s| && s[i..i + |x|] == x
  {
  }

  lemma Separators(c: byte, named: bool)
    requires c == COMMA || c == Close(named)
    ensures !IsSpace(c) && !IsNumberByte(c)
  {
  }

  /** White space or a separator does not lengthen a number. */
  lemma AfterEnds(ws: bytes, s: bytes, i: nat)
    requires Blank(ws) && StandsAt(ws, s, i) && i + |ws| < |s| && !IsNumberByte(s[i + |ws|])
    ensures Ends(s, i)
  {
    BlankMeaning(ws);
    if ws != [] {
      assert s[i] == ws[0];
    }
  }

  lemma {:induction false} ItemsAt(items: seq<Item>, named: bool, s: bytes, i: nat)
    requires items != [] && (forall j :: 0 <= j < |items| ==> ItemFormed(items[j], named))
    requires StandsAt(WriteItems(items, named), s, i)
    requires var k := i + |WriteItems(items, named)|; k < |s| && s[k] == Close(named)
    ensures i + |items[0].before| <= |s|
    ensures ParseChildren(s, i + |items[0].before|, named) ==
      Some(Parsed(Children(items, named), i + |WriteItems(items, named)| + 1))
    decreases items
  {
    hide Write, ItemFormed, Value, ParseChild, ParseChildren, SpaceEnd, StandsAt, Text, WriteItem, WriteName;
    hide WriteItems;
    var item := items[0];
    ItemParts(items, named, s, i);
    var k := i + |WriteItem(item, named)|;
    var c := Child(if named then Text(item.name) else [], Write(item.value), Value(item.value));
    if |items| == 1 {
      ItemAt(items, named, s, i);
      ChildrenStep(s, i + |item.before|, named, Parsed(c, k));
      assert items[1..] == [] && Children(items, named) == [c];
    } else {
      Marks();
      StandsFirst(Ascii(","), s, k);
      ItemAt(items, named, s, i);
      var rest := items[1..];
      ItemsAt(rest, named, s, k + 1);
      FirstOfItem(rest[0], named, s, k + 1, rest);
      CloseIsNotComma(named);
      ChildrenStep(s, i + |item.before|, named, Parsed(c, k));
      assert Children(items, named) == [c] + Children(rest, named);
    }
  }

  lemma CloseIsNotComma(named: bool)
    ensures Close(named) != COMMA
  {
  }

  // ---------- every text that parses is written by a tree ----------

  lemma BlankFound(s: bytes, i: nat)
    requires i <= |s|
    ensures Blank(s[i..SpaceEnd(s, i)])
  {
    SpaceRun(s, i);
    BlankMeaning(s[i..SpaceEnd(s, i)]);
  }

  lemma {:induction false} DigitRunFound(s: bytes, i: nat)
    requires i <= |s|
    ensures forall k :: i <= k < DigitEnd(s, i) ==> IsDigit(s[k])
    decreases |s| - i
  {
    if i < |s| && IsDigit(s[i]) {
      DigitRunFound(s, i + 1);
    }
  }

  lemma DigitsFound(s: bytes, i: nat)
    requires i <= |s|
    ensures Digits(s[i..DigitEnd(s, i)])
  {
    DigitRunFound(s, i);
    DigitsMeaning(s[i..DigitEnd(s, i)]);
  }

  lemma ExponentFound(s: bytes, i: nat)
    requires i <= |s| && ExponentEnd(s, i).Some?
    ensures var x := s[i..ExponentEnd(s, i).value]; x == [] || IsExponent(x)
  {
    hide Ascii, Digits;
    Marks();
    var e := ExponentEnd(s, i).value;
    if i < e {
      var d := if i + 1 < |s| && (s[i + 1] == 0x2B || s[i + 1] == MINUS) then i + 2 else i + 1;
      var letter, sign, ds := s[i], s[i + 1..d], s[d..e];
      DigitsFound(s, d);
      assert d == i + 2 ==> sign == [s[i + 1]];
      assert s[i..e] == [letter] + sign + ds;
      assert IsExponent(s[i..e]);
    }
  }

  lemma FourSlices(s: bytes, a: nat, b: nat, c: nat, d: nat, e: nat)
    requires a <= b <= c <= d <= e <= |s|
    ensures s[a..e] == s[a..b] + s[b..c] + s[c..d] + s[d..e]
    ensures s[a..e] == s[a..b] + (s[b..c] + (s[c..d] + s[d..e]))
  {
  }

  lemma Bracketed(s: bytes, i: nat, e: nat)
    requires i + 2 <= e <= |s|
    ensures s[i..e] == [s[i]] + s[i + 1..e - 1] + [s[e - 1]]
  {
  }

  /** The sign and the whole part of a number. */
  lemma WholeFound(s: bytes, i: nat) returns (d: nat)
    requires i <= |s| && IntegerEnd(s, i).Some?
    ensures var n := IntegerEnd(s, i).value;
      && i < |s| && d == (if s[i] == MINUS then i + 1 else i) && d < n <= |s|
      && s[i..d] == (if s[i] == MINUS then [MINUS] else [])
      && Digits(s[d..n]) && (s[d..n][0] == ZERO ==> |s[d..n]| == 1)
  {
    hide DigitEnd;
    d := if s[i] == MINUS then i + 1 else i;
    DigitsFound(s, d);
    DigitsMeaning(s[d..d + 1]);
    assert s[d..IntegerEnd(s, i).value][0] == s[d];
  }

  lemma FractionFound(s: bytes, n: nat)
    requires n <= |s| && FractionEnd(s, n).Some?
    ensures var f := FractionEnd(s, n).value;
      f == n || (n + 1 < f && s[n..f] == [DOT] + s[n + 1..f] && Digits(s[n + 1..f]))
  {
    hide DigitEnd;
    if n < |s| {
      DigitsFound(s, n + 1);
    }
  }

  lemma FigureFound(s: bytes, i: nat) returns (x: Syntax)
    requires i <= |s| && NumberEnd(s, i).Some?
    ensures x.Figure? && FigureFormed(x) && WriteFigure(x) == s[i..NumberEnd(s, i).value]
  {
    hide IntegerEnd, FractionEnd, ExponentEnd, IsExponent, Digits;
    Marks();
    var n := IntegerEnd(s, i).value;
    var f := FractionEnd(s, n).value;
    var e := ExponentEnd(s, f).value;
    var d := WholeFound(s, i);
    FractionFound(s, n);
    ExponentFound(s, f);
    NoDigits();
    FourSlices(s, i, d, n, f, e);
    x := Figure(s[i] == MINUS, s[d..n], if n == f then [] else s[n + 1..f], s[f..e]);
    assert n == f ==> s[n..f] == [];
  }

  lemma NoDigits()
    ensures Digits([])
  {
  }

  lemma LiteralFound(s: bytes, i: nat) returns (us: seq<Unit>)
    requires i <= |s| && LiteralEnd(s, i).Some?
    ensures var e := LiteralEnd(s, i).value;
      WellFormed(us) && WriteLiteral(us) == s[i..e] && Text(us) == Unescape(s[i + 1..e - 1])
  {
    hide ScanBody, IsBody, Unescape, Body, Text, WellFormed;
    Marks();
    var e := LiteralEnd(s, i).value;
    var body := s[i + 1..e - 1];
    ScanSound(s[i + 1..]);
    assert s[i + 1..][..e - i - 2] == body;
    us := BodySpelled(body);
    UnescapeSpelled(us);
    assert s[i..e] == [s[i]] + body + [s[e - 1]];
  }

  lemma ScalarFound(s: bytes, i: nat) returns (x: Syntax)
    requires i < |s| && s[i] != LBRACE && s[i] != LBRACKET && ParseValue(s, i).Some?
    ensures Formed(x) && Write(x) == s[i..ParseValue(s, i).value.end] && Value(x) == ParseValue(s, i).value.value
  {
    hide LiteralEnd, NumberEnd, Unescape, FigureFormed, WriteFigure, WriteLiteral, WellFormed, Text;
    assert NULL == Ascii("null") && TRUE == Ascii("true") && FALSE == Ascii("false");
    if s[i] == QUOTE {
      var us := LiteralFound(s, i);
      x := Literal(us);
    } else if s[i] == MINUS || IsDigit(s[i]) {
      x := FigureFound(s, i);
    } else if WordAt(s, i, NULL) {
      x := Syntax.Null;
    } else if WordAt(s, i, TRUE) {
      x := True;
    } else {
      x := False;
    }
  }

  /** Whatever parses is written by a tree of the same value. */
  lemma {:induction false} ValueFound(s: bytes, i: nat) returns (x: Syntax)
    requires i <= |s| && ParseValue(s, i).Some?
    ensures Formed(x) && Write(x) == s[i..ParseValue(s, i).value.end] && Value(x) == ParseValue(s, i).value.value
    decreases |s| - i, 0
  {
    if s[i] == LBRACE || s[i] == LBRACKET {
      x := BracketsFound(s, i);
    } else {
      x := ScalarFound(s, i);
    }
  }

  /** An empty pair of brackets. */
  lemma EmptyFound(s: bytes, i: nat) returns (x: Syntax)
    requires i < |s| && (s[i] == LBRACE || s[i] == LBRACKET)
    requires var w := SpaceEnd(s, i + 1); w < |s| && s[w] == Close(s[i] == LBRACE)
    ensures Formed(x) && Write(x) == s[i..SpaceEnd(s, i + 1) + 1] && Value(x) == Container(s[i] == LBRACE, [])
  {
    hide SpaceEnd, WriteItems, ItemFormed, Blank;
    Marks();
    var w := SpaceEnd(s, i + 1);
    BlankFound(s, i + 1);
    Bracketed(s, i, w + 1);
    x := Brackets(s[i] == LBRACE, s[i + 1..w], []);
    assert Children([], s[i] == LBRACE) == [];
  }

  lemma FilledBrackets(s: bytes, i: nat, e: nat, items: seq<Item>) returns (x: Syntax)
    requires i + 2 <= e <= |s| && (s[i] == LBRACE || s[i] == LBRACKET) && s[e - 1] == Close(s[i] == LBRACE)
    requires items != [] && (forall j :: 0 <= j < |items| ==> ItemFormed(items[j], s[i] == LBRACE))
    requires WriteItems(items, s[i] == LBRACE) == s[i + 1..e - 1]
    ensures Formed(x) && Write(x) == s[i..e] && Value(x) == Container(s[i] == LBRACE, Children(items, s[i] == LBRACE))
  {
    hide WriteItems, ItemFormed, Blank, Children;
    Marks();
    NoBlank();
    Bracketed(s, i, e);
    x := Brackets(s[i] == LBRACE, [], items);
  }

  lemma {:induction false} BracketsFound(s: bytes, i: nat) returns (x: Syntax)
    requires i < |s| && (s[i] == LBRACE || s[i] == LBRACKET) && ParseValue(s, i).Some?
    ensures Formed(x) && Write(x) == s[i..ParseValue(s, i).value.end] && Value(x) == ParseValue(s, i).value.value
    decreases |s| - i - 1, 4
  {
    hide ParseValue, ParseContainer, ParseChildren, SpaceEnd, WriteItems, ItemFormed, Blank, Formed, Write, Value;
    hide Children;
    ContainerStep(s, i);
    var named, w := s[i] == LBRACE, SpaceEnd(s, i + 1);
    if w < |s| && s[w] == Close(named) {
      x := EmptyFound(s, i);
    } else {
      var items := ItemsFound(s, i + 1, named);
      x := FilledBrackets(s, i, ParseChildren(s, w, named).value.end, items);
    }
  }

  lemma NoBlank()
    ensures Blank([])
  {
  }

  /** Children up to the closing bracket; `i` is before the white space in front of them. */
  lemma {:induction false} ItemsFound(s: bytes, i: nat, named: bool) returns (items: seq<Item>)
    requires i <= |s| && ParseChildren(s, SpaceEnd(s, i), named).Some?
    ensures var p := ParseChildren(s, SpaceEnd(s, i), named).value;
      && items != [] && (forall j :: 0 <= j < |items| ==> ItemFormed(items[j], named))
      && WriteItems(items, named) == s[i..p.end - 1] && s[p.end - 1] == Close(named)
      && Children(items, named) == p.value
    decreases |s| - i, 3
  {
    hide ParseChildren, ParseChild, SpaceEnd, ItemFormed, WriteItem, Value, Write, Text;
    Marks();
    var w := SpaceEnd(s, i);
    var c := ChildrenBegin(s, w, named);
    var item := ItemFound(s, i, named);
    ChildrenStep(s, w, named, c);
    CloseIsNotComma(named);
    if s[c.end] == Close(named) {
      items := [item];
      assert items[1..] == [] && WriteItems(items, named) == WriteItem(item, named) + [];
    } else {
      var rest := ItemsFound(s, c.end + 1, named);
      items := [item] + rest;
      assert items[1..] == rest && |items| > 1;
      var e := ParseChildren(s, w, named).value.end;
      assert s[i..e - 1] == s[i..c.end] + ([s[c.end]] + s[c.end + 1..e - 1]);
    }
  }

  /** One child with the white space on both sides. */
  lemma {:induction false} ItemFound(s: bytes, i: nat, named: bool) returns (item: Item)
    requires i <= |s| && ParseChild(s, SpaceEnd(s, i), named).Some?
    ensures var c := ParseChild(s, SpaceEnd(s, i), named).value;
      && ItemFormed(item, named) && WriteItem(item, named) == s[i..c.end]
      && c.value == Child(if named then Text(item.name) else [], Write(item.value), Value(item.value))
    decreases |s| - i, 2
  {
    hide ParseChild, ParseName, ParseValue, SpaceEnd, Formed, Write, Value, WellFormed, Text, Blank, WriteLiteral;
    hide WriteName;
    var w := SpaceEnd(s, i);
    var name, p := ChildParts(s, w, named);
    BlankFound(s, i);
    BlankFound(s, p.end);
    var x := ValueFound(s, name.end);
    var a := SpaceEnd(s, p.end);
    var us, gap, indent := NamePart(s, w, named, name);
    item := Item(s[i..w], us, gap, indent, x, s[p.end..a]);
    assert WriteName(item, named) == s[w..name.end] by {
      SameName(item, Item([], us, gap, indent, Syntax.Null, []), named);
    }
    FourSlices(s, i, w, name.end, p.end, a);
  }

  lemma SameName(a: Item, b: Item, named: bool)
    requires a.name == b.name && a.gap == b.gap && a.indent == b.indent
    ensures WriteName(a, named) == WriteName(b, named)
  {
  }

  lemma NamePart(s: bytes, w: nat, named: bool, name: Parsed<bytes>) returns (us: seq<Unit>, gap: bytes, indent: bytes)
    requires w <= name.end <= |s| && (if named then ParseName(s, w) == Some(name) else name == Parsed([], w))
    ensures Blank(gap) && Blank(indent) && (named ==> WellFormed(us) && Text(us) == name.value)
    ensures WriteName(Item([], us, gap, indent, Syntax.Null, []), named) == s[w..name.end]
  {
    hide ParseName, WellFormed, Text, Blank, WriteLiteral;
    NoBlank();
    us, gap, indent := [], [], [];
    if named {
      us, gap, indent := NameFound(s, w);
    }
  }

  lemma NameFound(s: bytes, w: nat) returns (us: seq<Unit>, gap: bytes, indent: bytes)
    requires w <= |s| && ParseName(s, w).Some?
    ensures var n := ParseName(s, w).value;
      && WellFormed(us) && Text(us) == n.value && Blank(gap) && Blank(indent)
      && WriteLiteral(us) + (gap + (Ascii(":") + indent)) == s[w..n.end]
  {
    hide LiteralEnd, SpaceEnd, Unescape, WellFormed, Text, Blank, WriteLiteral;
    Marks();
    var k := LiteralEnd(s, w).value;
    var c := SpaceEnd(s, k);
    us := LiteralFound(s, w);
    BlankFound(s, k);
    BlankFound(s, c + 1);
    gap, indent := s[k..c], s[c + 1..SpaceEnd(s, c + 1)];
    assert s[w..SpaceEnd(s, c + 1)] == s[w..k] + (s[k..c] + ([s[c]] + s[c + 1..SpaceEnd(s, c + 1)]));
  }

  // ---------- documents ----------

  /** A text is valid JSON exactly when it is a tree between white space. */
  ghost predicate WrittenBy(s: bytes, before: bytes, x: Syntax, after: bytes) {
    Blank(before) && Formed(x) && Blank(after) && s == before + (Write(x) + after)
  }

  lemma DocumentOf(s: bytes, before: bytes, x: Syntax, after: bytes)
    requires WrittenBy(s, before, x, after)
    ensures ParseDocument(s) == Some(Document(Value(x), Write(x)))
  {
    hide ParseValue, Write, Value, Formed, SpaceEnd, Blank;
    var w := |before|;
    var e := w + |Write(x)|;
    assert StandsAt(before, s, 0) && StandsAt(Write(x), s, w) && StandsAt(after, s, e);
    FirstOfValue(x);
    StandsFirst(Write(x), s, w);
    BlankAt(before, s, 0);
    BlankAt(after, s, e);
    assert Ends(s, e) by { EndsAtBlank(after, s, e); }
    ValueAtPosition(x, s, w);
    SliceStands(Write(x), s, w);
  }

  lemma EndsAtBlank(ws: bytes, s: bytes, i: nat)
    requires Blank(ws) && StandsAt(ws, s, i) && i + |ws| == |s|
    ensures Ends(s, i)
  {
    BlankMeaning(ws);
    if ws != [] {
      assert s[i] == ws[0];
    }
  }

  /** The parser accepts exactly the grammar, and reads the value the grammar gives. */
  lemma GrammarExact(s: bytes)
    ensures IsValid(s) <==> exists before, x, after :: WrittenBy(s, before, x, after)
    ensures forall before, x, after :: WrittenBy(s, before, x, after) ==>
      ParseDocument(s) == Some(Document(Value(x), Write(x)))
  {
    hide ParseDocument, WrittenBy, Value, Write;
    forall before, x, after | WrittenBy(s, before, x, after)
      ensures ParseDocument(s) == Some(Document(Value(x), Write(x)))
    {
      DocumentOf(s, before, x, after);
    }
    if IsValid(s) {
      DocumentFound(s);
    }
  }

  lemma DocumentFound(s: bytes)
    requires IsValid(s)
    ensures exists before, x, after :: WrittenBy(s, before, x, after)
  {
    hide ParseValue, Write, Value, Formed, SpaceEnd, Blank;
    var w := SpaceEnd(s, 0);
    var p := ParseValue(s, w).value;
    BlankFound(s, 0);
    BlankFound(s, p.end);
    var x := ValueFound(s, w);
    assert s == s[0..w] + (s[w..p.end] + s[p.end..|s|]);
    assert WrittenBy(s, s[0..w], x, s[p.end..|s|]);
  }
}
