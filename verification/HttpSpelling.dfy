/** What an HTTP header says, whatever way it is spelled: names in any case, values plain or
    quoted and with any bytes percent-encoded. Each form is a sequence of units with a spelling
    and a meaning; the decoder is proved to accept exactly the spellings of the units. */
module HttpSpelling {
  import opened Bytes
  import opened Alphabet
  import opened Hex
  import opened HttpAttribute
  import opened HttpHeader
  import opened Event
  import JsonSpelling
  import Utf8

  // ---------- percent-encoding ----------

  /** A byte as it is, or a percent sign and the two digits of a byte in either case. */
  datatype Unit = Plain(byte: byte) | Escaped(high: byte, highValue: nat, low: byte, lowValue: nat)

  predicate UnitOk(u: Unit) {
    match u
    case Plain(c) => c != Ascii("%")[0]
    case Escaped(h, v, l, w) => JsonSpelling.IsDigitOf(h, v) && JsonSpelling.IsDigitOf(l, w)
  }

  function UnitSpelling(u: Unit): bytes {
    match u
    case Plain(c) => [c]
    case Escaped(h, _, l, _) => Ascii("%") + [h, l]
  }

  function UnitMeaning(u: Unit): byte
    requires UnitOk(u)
  {
    match u
    case Plain(c) => c
    case Escaped(_, v, _, w) => (16 * v + w) as byte
  }

  predicate UnitsOk(us: seq<Unit>) {
    forall i :: 0 <= i < |us| ==> UnitOk(us[i])
  }

  function Spelled(us: seq<Unit>): bytes {
    if us == [] then [] else UnitSpelling(us[0]) + Spelled(us[1..])
  }

  function Meant(us: seq<Unit>): (t: bytes)
    requires UnitsOk(us)
    ensures |t| == |us|
  {
    seq(|us|, i requires 0 <= i < |us| => UnitMeaning(us[i]))
  }

  /** `s` is a percent-encoding of `t`. */
  ghost predicate Encodes(s: bytes, t: bytes) {
    exists us :: UnitsOk(us) && s == Spelled(us) && t == Meant(us)
  }

  lemma SpelledStep(u: Unit, us: seq<Unit>)
    ensures Spelled([u] + us) == UnitSpelling(u) + Spelled(us)
    ensures UnitOk(u) && UnitsOk(us) ==>
      UnitsOk([u] + us) && Meant([u] + us) == [UnitMeaning(u)] + Meant(us)
  {
    hide UnitSpelling, UnitMeaning, UnitOk;
    assert ([u] + us)[1..] == us;
  }

  lemma Percent()
    ensures Ascii("%") == [PERCENT]
  {
  }

  lemma UnescapeUnit(u: Unit, rest: bytes)
    requires UnitOk(u)
    ensures PathUnescape(UnitSpelling(u) + rest) ==
      var r := PathUnescape(rest); if r.None? then None else Some([UnitMeaning(u)] + r.value)
  {
    hide PathUnescape, JsonSpelling.IsDigitOf, IsHex, HexValue;
    Percent();
    match u
    case Plain(c) => UnescapePlain(c, rest);
    case Escaped(h, v, l, w) =>
      JsonSpelling.DigitMeaning(h, v);
      JsonSpelling.DigitMeaning(l, w);
      assert Ascii("%") + [h, l] == [PERCENT, h, l];
      UnescapePair(h, l, rest);
  }

  lemma {:induction false} UnescapeSpelled(us: seq<Unit>)
    requires UnitsOk(us)
    ensures PathUnescape(Spelled(us)) == Some(Meant(us))
  {
    hide PathUnescape, UnitSpelling, UnitMeaning, UnitOk;
    if us == [] {
      UnescapeNothing();
    } else {
      UnescapeSpelled(us[1..]);
      UnescapeUnit(us[0], Spelled(us[1..]));
      SpelledStep(us[0], us[1..]);
      assert us == [us[0]] + us[1..];
    }
  }

  /** The unit at the beginning of a text that unescapes, and the rest. */
  lemma FirstUnit(s: bytes) returns (u: Unit, rest: bytes)
    requires s != [] && PathUnescape(s).Some?
    ensures UnitOk(u) && s == UnitSpelling(u) + rest && |rest| < |s| && PathUnescape(rest).Some?
    ensures PathUnescape(s).value == [UnitMeaning(u)] + PathUnescape(rest).value
  {
    hide JsonSpelling.IsDigitOf, HexValue;
    Percent();
    if s[0] != PERCENT {
      u, rest := Plain(s[0]), s[1..];
    } else {
      JsonSpelling.DigitMeaning(s[1], HexValue(s[1]));
      JsonSpelling.DigitMeaning(s[2], HexValue(s[2]));
      u, rest := Escaped(s[1], HexValue(s[1]), s[2], HexValue(s[2])), s[3..];
    }
  }

  lemma {:induction false} SpellUnescaped(s: bytes) returns (us: seq<Unit>)
    requires PathUnescape(s).Some?
    ensures UnitsOk(us) && s == Spelled(us) && PathUnescape(s).value == Meant(us)
    decreases |s|
  {
    hide PathUnescape, UnitOk, UnitSpelling, UnitMeaning;
    if s == [] {
      UnescapeNothing();
      return [];
    }
    var u, rest := FirstUnit(s);
    var more := SpellUnescaped(rest);
    SpelledStep(u, more);
    us := [u] + more;
  }

  /** Unescaping accepts exactly the percent-encodings, and yields what they encode. */
  lemma UnescapeExact(s: bytes, t: bytes)
    ensures PathUnescape(s) == Some(t) <==> Encodes(s, t)
  {
    hide PathUnescape, UnitsOk, Spelled, Meant;
    if PathUnescape(s) == Some(t) {
      var us := SpellUnescaped(s);
    }
    if us :| UnitsOk(us) && s == Spelled(us) && t == Meant(us) {
      UnescapeSpelled(us);
    }
  }

  // ---------- quoted strings ----------

  /** A byte inside a quoted string, with or without a backslash before it. */
  datatype Mark = Bare(byte: byte) | Backslashed(byte: byte)

  /** No control byte at all, and a quote or a backslash only behind a backslash. */
  predicate MarkOk(m: Mark) {
    && 0x20 <= m.byte && m.byte != 0x7F
    && (m.Bare? ==> m.byte !in Ascii("\"\\"))
  }

  function MarkSpelling(m: Mark): bytes {
    match m
    case Bare(c) => [c]
    case Backslashed(c) => Ascii("\\") + [c]
  }

  predicate MarksOk(ms: seq<Mark>) {
    forall i :: 0 <= i < |ms| ==> MarkOk(ms[i])
  }

  function Marked(ms: seq<Mark>): bytes {
    if ms == [] then [] else MarkSpelling(ms[0]) + Marked(ms[1..])
  }

  function Unmarked(ms: seq<Mark>): (t: bytes)
    ensures |t| == |ms|
  {
    seq(|ms|, i requires 0 <= i < |ms| => ms[i].byte)
  }

  lemma Marks()
    ensures Ascii("\\") == [BACKSLASH] && Ascii("\"") == [QUOTE] && Ascii("\"\\") == [QUOTE, BACKSLASH]
  {
  }

  lemma MarkedStep(m: Mark, ms: seq<Mark>)
    ensures Marked([m] + ms) == MarkSpelling(m) + Marked(ms) && Unmarked([m] + ms) == [m.byte] + Unmarked(ms)
    ensures MarksOk([m] + ms) <==> MarkOk(m) && MarksOk(ms)
  {
    hide MarkSpelling, MarkOk;
    assert ([m] + ms)[1..] == ms;
    assert ([m] + ms)[0] == m;
    assert forall i :: 0 <= i < |ms| ==> ([m] + ms)[i + 1] == ms[i];
  }

  lemma UnquoteMark(m: Mark, rest: bytes)
    requires MarkOk(m)
    ensures UnquoteInner(MarkSpelling(m) + rest, false) ==
      var r := UnquoteInner(rest, false); if r.None? then None else Some([m.byte] + r.value)
  {
    Marks();
    var s := MarkSpelling(m) + rest;
    match m
    case Bare(c) =>
      assert s[1..] == rest;
    case Backslashed(c) =>
      assert s[1..][0] == c && s[1..][1..] == rest;
  }

  lemma UnquoteNothing()
    ensures UnquoteInner([], false) == Some([])
  {
  }

  lemma {:induction false} UnquoteMarked(ms: seq<Mark>)
    requires MarksOk(ms)
    ensures UnquoteInner(Marked(ms), false) == Some(Unmarked(ms))
  {
    hide UnquoteInner, MarkSpelling, MarkOk;
    if ms == [] {
      UnquoteNothing();
    } else {
      UnquoteMarked(ms[1..]);
      UnquoteMark(ms[0], Marked(ms[1..]));
      MarkedStep(ms[0], ms[1..]);
      assert ms == [ms[0]] + ms[1..];
    }
  }

  lemma {:induction false} MarkUnquoted(s: bytes) returns (ms: seq<Mark>)
    requires UnquoteInner(s, false).Some?
    ensures MarksOk(ms) && s == Marked(ms) && UnquoteInner(s, false).value == Unmarked(ms)
  {
    if s == [] {
      return [];
    }
    Marks();
    var m: Mark, rest: bytes;
    if s[0] == BACKSLASH {
      assert UnquoteInner(s[1..], true).Some? && s[1..] != [];
      assert s[1..][0] == s[1] && s[1..][1..] == s[2..];
      m, rest := Backslashed(s[1]), s[2..];
    } else {
      m, rest := Bare(s[0]), s[1..];
    }
    assert s == MarkSpelling(m) + rest;
    var more := MarkUnquoted(rest);
    MarkedStep(m, more);
    ms := [m] + more;
  }

  /** `v` is a percent-encoding as it is, or one between quotes. */
  ghost predicate Quotes(v: bytes, s: bytes) {
    || (v == s && !HasPrefix(s, Ascii("\"")))
    || exists ms :: MarksOk(ms) && v == Ascii("\"") + Marked(ms) + Ascii("\"") && s == Unmarked(ms)
  }

  lemma UnquoteExact(v: bytes, s: bytes)
    ensures Unquote(v) == Some(s) <==> Quotes(v, s)
  {
    hide UnquoteInner, MarksOk, Marked, Unmarked;
    Marks();
    if v == [] || v[0] != QUOTE {
      assert !exists rest :: v == Ascii("\"") + rest + Ascii("\"");
    }
    if Unquote(v) == Some(s) && v != [] && v[0] == QUOTE {
      var ms := MarkUnquoted(v[1..|v| - 1]);
      assert v == Ascii("\"") + Marked(ms) + Ascii("\"");
    }
    if ms :| MarksOk(ms) && v == Ascii("\"") + Marked(ms) + Ascii("\"") && s == Unmarked(ms) {
      assert v[1..|v| - 1] == Marked(ms);
      UnquoteMarked(ms);
    }
  }

  /** The value of a header reads as a text if and only if it is a percent-encoding of that
      text, quoted or not, and the text is UTF-8. */
  lemma ValueExact(v: bytes, t: bytes)
    ensures Decode(v) == Some(t) <==> Utf8.Valid(t) && exists s :: Quotes(v, s) && Encodes(s, t)
  {
    hide Unquote, PathUnescape, Quotes, Encodes, Utf8.Valid;
    forall s ensures (Unquote(v) == Some(s) && PathUnescape(s) == Some(t)) <==> (Quotes(v, s) && Encodes(s, t)) {
      UnquoteExact(v, s);
      UnescapeExact(s, t);
    }
  }

  // ---------- what is written ----------

  /** The bytes that are sent as they are: every one that prints but the quote and the percent. */
  predicate SentPlain(c: byte) {
    Printing(c) && c !in Ascii("\"%")
  }

  /** The unit a byte is written as: itself, or its two upper-case digits. */
  function Written(c: byte): Unit {
    if SentPlain(c) then Plain(c)
    else
      var high: nat, low: nat := c as int / 16, c as int % 16;
      Escaped(JsonSpelling.UPPER[high], high, JsonSpelling.UPPER[low], low)
  }

  function WrittenUnits(value: bytes): (us: seq<Unit>)
    ensures |us| == |value| && forall i :: 0 <= i < |value| ==> us[i] == Written(value[i])
  {
    seq(|value|, i requires 0 <= i < |value| => Written(value[i]))
  }

  lemma PlainMeaning(c: byte)
    ensures SentPlain(c) <==> Copied(c)
  {
    hide Printing;
    PrintingExact(c);
    assert Ascii("\"%") == [QUOTE, PERCENT];
  }

  lemma UpperDigit(v: nat)
    requires v < 16
    ensures JsonSpelling.UPPER[v] == UpperHex(v) && JsonSpelling.IsDigitOf(UpperHex(v), v)
  {
  }

  lemma WrittenByte(c: byte)
    ensures EncodeByte(c) == UnitSpelling(Written(c)) && UnitOk(Written(c)) && UnitMeaning(Written(c)) == c
  {
    hide SentPlain, JsonSpelling.UPPER, JsonSpelling.IsDigitOf;
    PlainMeaning(c);
    Percent();
    var high: nat, low: nat := c as int / 16, c as int % 16;
    UpperDigit(high);
    UpperDigit(low);
    assert Ascii("%") + [UpperHex(high), UpperHex(low)] == [PERCENT, UpperHex(high), UpperHex(low)];
  }

  /** What the encoder writes: byte by byte, each as its unit, and so a percent-encoding of the
      value. */
  lemma {:induction false} EncodeWritten(value: bytes)
    ensures UnitsOk(WrittenUnits(value)) && Encode(value) == Spelled(WrittenUnits(value))
    ensures Encodes(Encode(value), value)
  {
    hide Written, UnitSpelling, EncodeByte, UnitOk, UnitMeaning;
    forall i | 0 <= i < |value|
      ensures UnitOk(WrittenUnits(value)[i]) && UnitMeaning(WrittenUnits(value)[i]) == value[i]
    {
      WrittenByte(value[i]);
    }
    assert Meant(WrittenUnits(value)) == value;
    if value != [] {
      EncodeWritten(value[1..]);
      WrittenByte(value[0]);
      SpelledStep(Written(value[0]), WrittenUnits(value[1..]));
      assert WrittenUnits(value) == [Written(value[0])] + WrittenUnits(value[1..]);
    }
  }

  // ---------- names ----------

  /** `b` is `a` in small letters. */
  ghost predicate Lowers(a: byte, b: byte) {
    (a !in CAPITALS && b == a) || exists i :: 0 <= i < 26 && a == CAPITALS[i] && b == SMALL[i]
  }

  /** `name` is `s` in small letters, byte by byte. */
  ghost predicate LowersAll(s: bytes, name: bytes) {
    |s| == |name| && forall i :: 0 <= i < |s| ==> Lowers(s[i], name[i])
  }

  lemma LowerExact(a: byte, b: byte)
    ensures LowerByte(a) == b <==> Lowers(a, b)
  {
    hide CAPITALS, SMALL;
    Letters(a);
    CapitalAt();
    SmallAt();
    if 0x41 <= a <= 0x5A {
      assert a == CAPITALS[a as int - 0x41];
    }
  }

  lemma LowersExact(s: bytes, name: bytes)
    ensures ToLower(s) == name <==> LowersAll(s, name)
  {
    hide LowerByte, Lowers;
    forall i | 0 <= i < |s| && |s| == |name| ensures ToLower(s)[i] == name[i] <==> Lowers(s[i], name[i]) {
      LowerExact(s[i], name[i]);
    }
  }

  /** A header names an attribute if and only if it is `ce-` in any case and the name, which is
      the rest in small letters. */
  lemma NameExact(key: bytes, name: bytes)
    ensures (IsAttributeKey(key) && NameOf(key) == name) <==> LowersAll(key, Ascii("ce-") + name)
  {
    hide ToLower, LowersAll, LowerByte;
    var whole := Ascii("ce-") + name;
    LowersExact(key, whole);
    LowersExact(CE, Ascii("ce-"));
    assert LowersAll(CE, Ascii("ce-")) by { Prefix(); }
    assert |CE| == 3 && |Ascii("ce-")| == 3;
    if |key| >= 3 {
      FoldParts(key, Ascii("ce-"), name);
    }
    if ToLower(key) == whole {
      assert |ToLower(key)| == |key|;
    }
  }

  lemma Prefix()
    ensures LowersAll(CE, Ascii("ce-"))
  {
    hide Lowers;
    var small := Ascii("ce-");
    forall i | 0 <= i < 3 ensures Lowers(CE[i], small[i]) {
      LowerExact(CE[i], small[i]);
    }
  }

  lemma FoldParts(key: bytes, head: bytes, name: bytes)
    requires |key| >= 3 && |head| == 3
    ensures ToLower(key) == head + name <==> ToLower(key[..3]) == head && ToLower(key[3..]) == name
  {
    hide LowerByte;
    assert ToLower(key) == ToLower(key[..3]) + ToLower(key[3..]);
    assert (head + name)[..3] == head && (head + name)[3..] == name;
    if ToLower(key) == head + name {
      assert ToLower(key)[..3] == ToLower(key[..3]) && ToLower(key)[3..] == ToLower(key[3..]);
    }
  }

  /** A header carries the content type if and only if its name is that in any case. */
  lemma ContentTypeNameExact(key: bytes)
    ensures EqualFold(key, CONTENT_TYPE) <==> LowersAll(key, Ascii("content-type"))
  {
    hide LowerByte, LowersAll;
    LowersExact(key, Ascii("content-type"));
    LowersExact(CONTENT_TYPE, Ascii("content-type"));
    assert LowersAll(CONTENT_TYPE, Ascii("content-type")) by { SmallContentType(); }
  }

  lemma SmallContentType()
    ensures LowersAll(CONTENT_TYPE, Ascii("content-type"))
  {
    hide Lowers;
    var small := Ascii("content-type");
    forall i | 0 <= i < 12 ensures Lowers(CONTENT_TYPE[i], small[i]) {
      LowerExact(CONTENT_TYPE[i], small[i]);
    }
  }

  /** The header an attribute is written under: `Ce-` and the name, its first letter a capital. */
  lemma KeyWritten(name: bytes, first: byte)
    requires ValidName(name) && Lowers(first, name[0]) && first !in SMALL
    ensures AttributeKey(name) == Ascii("Ce-") + [first] + name[1..]
  {
    hide CAPITALS, SMALL;
    Letters(first);
    Letters(name[0]);
    LowerExact(first, name[0]);
    var s := CE + name;
    assert CE == [0x43, 0x65, DASH];
    forall i | 0 <= i < |s| ensures IsTokenByte(s[i]) {
      assert i >= 3 ==> s[i] == name[i - 3] && IsLowerAlphanumeric(name[i - 3]);
    }
    var k, w := AttributeKey(name), Ascii("Ce-") + [first] + name[1..];
    forall i | 0 <= i < |s| ensures k[i] == w[i] {
      assert i >= 4 ==> s[i - 1] == name[i - 4] && s[i] == name[i - 3] == w[i] && IsLowerAlphanumeric(name[i - 4]);
    }
  }
}
