/** What a string literal means, whatever way it is spelled (section 7 of RFC 8259). The inside
    of a literal is a sequence of units, each with a spelling and a meaning of its own; reading
    is proved to yield the meaning for every sequence, and every inside to be one. */
module JsonSpelling {
  import opened Bytes
  import opened Hex
  import opened JsonString
  import Utf8

  // ---------- units ----------

  /** A character as its own UTF-8 bytes, a two-byte escape, one or two escapes with four
      hexadecimal digits, or a byte that begins no character. */
  datatype Unit =
    | Plain(scalar: Utf8.Scalar)
    | Short(row: nat)
    | Four(digits: bytes, value: nat)
    | Pair(high: bytes, highValue: nat, low: bytes, lowValue: nat)
    | Stray(byte: byte)

  /** The short escapes, letter by letter, and the characters they stand for. */
  const LETTERS: bytes := Ascii("\"\\/bfnrt")
  const CHARACTERS: bytes := [0x22, 0x5C, 0x2F, 0x08, 0x0C, 0x0A, 0x0D, 0x09]

  const LOWER: bytes := Ascii("0123456789abcdef")
  const UPPER: bytes := Ascii("0123456789ABCDEF")

  /** `c` is the digit of value `v` in either case. */
  predicate IsDigitOf(c: byte, v: nat) {
    v < 16 && (c == LOWER[v] || c == UPPER[v])
  }

  /** Four digits and the number they write. */
  ghost predicate Writes(digits: bytes, value: nat) {
    && |digits| == 4
    && exists a: nat, b: nat, c: nat, d: nat ::
         && IsDigitOf(digits[0], a) && IsDigitOf(digits[1], b) && IsDigitOf(digits[2], c) && IsDigitOf(digits[3], d)
         && value == ((a * 16 + b) * 16 + c) * 16 + d
  }

  function EscapeOf(digits: bytes): bytes { Ascii("\\u") + digits }

  function Spelling(u: Unit): bytes {
    match u
    case Plain(r) => Utf8.Encode(r)
    case Short(row) => if row < 8 then [0x5C, LETTERS[row]] else []
    case Four(digits, _) => EscapeOf(digits)
    case Pair(high, _, low, _) => EscapeOf(high) + EscapeOf(low)
    case Stray(b) => [b]
  }

  function Meaning(u: Unit): bytes {
    match u
    case Plain(r) => Utf8.Encode(r)
    case Short(row) => if row < 8 then [CHARACTERS[row]] else []
    case Four(_, v) => Utf8.Encode(if v < 0xD800 || 0xE000 <= v < 0x10000 then v else 0xFFFD)
    case Pair(_, h, _, l) =>
      if 0xD800 <= h < 0xDC00 && 0xDC00 <= l < 0xE000
      then Utf8.Encode(0x10000 + (h - 0xD800) * 0x400 + (l - 0xDC00)) else []
    case Stray(_) => Utf8.Encode(0xFFFD)
  }

  /** An escaped low surrogate stands at the beginning. */
  ghost predicate LowAhead(rest: bytes) {
    exists digits, v: nat :: Writes(digits, v) && 0xDC00 <= v < 0xE000 && HasPrefix(rest, EscapeOf(digits))
  }

  /** No character begins here. */
  ghost predicate NoCharacter(s: bytes) {
    forall r: Utf8.Scalar :: !HasPrefix(s, Utf8.Encode(r))
  }

  /** The unit may stand before `rest`: two halves of a pair belong together, and only a byte
      that begins no character is stray. */
  ghost predicate Fits(u: Unit, rest: bytes) {
    match u
    case Plain(r) => 0x20 <= r && r != 0x22 && r != 0x5C
    case Short(row) => row < 8
    case Four(digits, v) => Writes(digits, v) && (0xD800 <= v < 0xDC00 ==> !LowAhead(rest))
    case Pair(high, h, low, l) => Writes(high, h) && 0xD800 <= h < 0xDC00 && Writes(low, l) && 0xDC00 <= l < 0xE000
    case Stray(b) => NoCharacter([b] + rest)
  }

  function Body(us: seq<Unit>): bytes {
    if us == [] then [] else Spelling(us[0]) + Body(us[1..])
  }

  function Text(us: seq<Unit>): bytes {
    if us == [] then [] else Meaning(us[0]) + Text(us[1..])
  }

  ghost predicate WellFormed(us: seq<Unit>) {
    us == [] || (Fits(us[0], Body(us[1..])) && WellFormed(us[1..]))
  }

  // ---------- digits ----------

  lemma DigitMeaning(c: byte, v: nat)
    ensures IsDigitOf(c, v) <==> IsHex(c) && HexValue(c) == v
  {
    if v < 16 {
      assert LOWER[v] == (if v < 10 then 0x30 + v as byte else 0x61 + (v - 10) as byte);
      assert UPPER[v] == (if v < 10 then 0x30 + v as byte else 0x41 + (v - 10) as byte);
    }
  }

  lemma WritesEscape(digits: bytes, value: nat, rest: bytes)
    ensures Writes(digits, value) <==>
      |digits| == 4 && IsUnicodeEscape(EscapeOf(digits) + rest) && EscapedValue(EscapeOf(digits) + rest) == value
  {
    hide LOWER, UPPER, IsDigitOf, IsHex, HexValue;
    if |digits| == 4 {
      var s := EscapeOf(digits) + rest;
      EscapeBytes(digits, rest);
      if Writes(digits, value) {
        var a: nat, b: nat, c: nat, d: nat :|
          && IsDigitOf(digits[0], a) && IsDigitOf(digits[1], b) && IsDigitOf(digits[2], c) && IsDigitOf(digits[3], d)
          && value == ((a * 16 + b) * 16 + c) * 16 + d;
        DigitMeaning(digits[0], a); DigitMeaning(digits[1], b); DigitMeaning(digits[2], c); DigitMeaning(digits[3], d);
      }
      if IsUnicodeEscape(s) {
        var a, b, c, d := HexValue(digits[0]), HexValue(digits[1]), HexValue(digits[2]), HexValue(digits[3]);
        DigitMeaning(digits[0], a); DigitMeaning(digits[1], b); DigitMeaning(digits[2], c); DigitMeaning(digits[3], d);
        assert EscapedValue(s) == ((a * 16 + b) * 16 + c) * 16 + d;
        assert EscapedValue(s) == value ==> Writes(digits, value);
      }
    }
  }

  lemma EscapeBytes(digits: bytes, rest: bytes)
    requires |digits| == 4
    ensures var s := EscapeOf(digits) + rest;
      && |s| == 6 + |rest| && s[0] == BACKSLASH && s[1] == LETTER_U
      && s[2] == digits[0] && s[3] == digits[1] && s[4] == digits[2] && s[5] == digits[3]
      && s[..6] == EscapeOf(digits) && s[6..] == rest
  {
    assert Ascii("\\u")[0] == 0x5C && Ascii("\\u")[1] == 0x75;
  }

  /** An escape that the reader recognises is one of these. */
  lemma EscapeFound(s: bytes)
    requires IsUnicodeEscape(s)
    ensures Writes(s[2..6], EscapedValue(s)) && s[..6] == EscapeOf(s[2..6]) && HasPrefix(s, EscapeOf(s[2..6]))
  {
    hide IsHex, HexValue, Writes;
    var digits := s[2..6];
    assert Ascii("\\u") == [BACKSLASH, LETTER_U];
    assert s == EscapeOf(digits) + s[6..];
    WritesEscape(digits, EscapedValue(s), s[6..]);
  }

  lemma LowAheadMeaning(rest: bytes)
    ensures LowAhead(rest) <==> IsUnicodeEscape(rest) && 0xDC00 <= EscapedValue(rest) < 0xE000
  {
    hide Writes, IsHex, HexValue, EscapeOf;
    if digits, v: nat :| Writes(digits, v) && 0xDC00 <= v < 0xE000 && HasPrefix(rest, EscapeOf(digits)) {
      var n := |EscapeOf(digits)|;
      assert rest == EscapeOf(digits) + rest[n..];
      WritesEscape(digits, v, rest[n..]);
    }
    if IsUnicodeEscape(rest) && 0xDC00 <= EscapedValue(rest) < 0xE000 {
      EscapeFound(rest);
    }
  }

  // ---------- reading one unit ----------

  lemma ShortRow(c: byte)
    ensures forall row :: 0 <= row < 8 && LETTERS[row] == c ==> ShortEscape(c) == Some(CHARACTERS[row])
    ensures ShortEscape(c).Some? ==> exists row :: 0 <= row < 8 && LETTERS[row] == c
  {
    var l := LETTERS;
    assert l[0] == 0x22 && l[1] == 0x5C && l[2] == 0x2F && l[3] == 0x62;
    assert l[4] == 0x66 && l[5] == 0x6E && l[6] == 0x72 && l[7] == 0x74;
  }

  lemma ReadShort(row: nat, rest: bytes)
    requires row < 8
    ensures ReadUnit(Spelling(Short(row)) + rest) == (Meaning(Short(row)), 2)
    ensures UnitLength(Spelling(Short(row))) == 2
  {
    hide CHARACTERS;
    ShortRow(LETTERS[row]);
    assert LETTERS[row] != LETTER_U by { NoLetterU(row); }
    hide LETTERS, ShortEscape;
    var s := Spelling(Short(row)) + rest;
    assert s[0] == BACKSLASH && s[1] == LETTERS[row];
  }

  lemma NoLetterU(row: nat)
    requires row < 8
    ensures LETTERS[row] != LETTER_U
  {
  }

  lemma ReadFour(digits: bytes, v: nat, rest: bytes)
    requires Fits(Four(digits, v), rest)
    ensures ReadUnit(EscapeOf(digits) + rest) == (Meaning(Four(digits, v)), 6)
    ensures UnitLength(EscapeOf(digits)) == 6
  {
    hide Writes, LowAhead, IsHex, HexValue, EscapeOf, Utf8.Encode;
    assert |digits| == 4 by { WritesFour(digits, v); }
    WritesEscape(digits, v, rest);
    WritesEscape(digits, v, []);
    EscapeBytes(digits, rest);
    EscapeBytes(digits, []);
    assert EscapeOf(digits) + [] == EscapeOf(digits);
    LowAheadMeaning(rest);
  }

  lemma WritesFour(digits: bytes, v: nat)
    requires Writes(digits, v)
    ensures |digits| == 4 && v < 0x10000
  {
  }

  lemma ReadPair(high: bytes, h: nat, low: bytes, l: nat, rest: bytes)
    requires Fits(Pair(high, h, low, l), rest)
    ensures ReadUnit(Spelling(Pair(high, h, low, l)) + rest) == (Meaning(Pair(high, h, low, l)), 12)
    ensures UnitLength(EscapeOf(high)) == 6 && UnitLength(EscapeOf(low)) == 6
    ensures |EscapeOf(high)| == |EscapeOf(low)| == 6
  {
    hide Writes, IsHex, HexValue, EscapeOf, Utf8.Encode;
    WritesFour(high, h);
    WritesFour(low, l);
    var tail := EscapeOf(low) + rest;
    var s := Spelling(Pair(high, h, low, l)) + rest;
    assert s == EscapeOf(high) + tail;
    WritesEscape(high, h, tail); WritesEscape(low, l, rest);
    WritesEscape(high, h, []); WritesEscape(low, l, []);
    EscapeBytes(high, tail); EscapeBytes(low, rest); EscapeBytes(high, []); EscapeBytes(low, []);
    assert EscapeOf(high) + [] == EscapeOf(high) && EscapeOf(low) + [] == EscapeOf(low);
  }

  lemma EncodedHigh(r: Utf8.Scalar)
    requires r >= 0x80
    ensures forall i :: 0 <= i < |Utf8.Encode(r)| ==> Utf8.Encode(r)[i] >= 0x80
  {
  }

  lemma ReadPlain(r: Utf8.Scalar, rest: bytes)
    requires 0x20 <= r && r != 0x22 && r != 0x5C
    ensures ReadUnit(Utf8.Encode(r) + rest) == (Utf8.Encode(r), |Utf8.Encode(r)|)
  {
    var t := Utf8.Encode(r) + rest;
    if r < 0x80 {
      assert t[0] == r as byte;
    } else {
      EncodedHigh(r);
      hide Utf8.Encode, Utf8.Value;
      assert t[0] == Utf8.Encode(r)[0];
      Utf8.WidthEncode(r, rest);
      Utf8.EncodeValue(t);
      assert t[..|Utf8.Encode(r)|] == Utf8.Encode(r);
    }
  }

  lemma StrayMeaning(s: bytes)
    requires s != []
    ensures NoCharacter(s) <==> Utf8.Width(s) == 0
  {
    hide Utf8.Encode, Utf8.Value, Utf8.Width;
    if Utf8.Width(s) > 0 {
      Utf8.EncodeValue(s);
      assert HasPrefix(s, Utf8.Encode(Utf8.Value(s)));
    }
    if r: Utf8.Scalar :| HasPrefix(s, Utf8.Encode(r)) {
      assert s == Utf8.Encode(r) + s[|Utf8.Encode(r)|..];
      Utf8.WidthEncode(r, s[|Utf8.Encode(r)|..]);
    }
  }

  lemma ReadStray(b: byte, rest: bytes)
    requires NoCharacter([b] + rest)
    ensures ReadUnit([b] + rest) == (Utf8.Encode(0xFFFD), 1) && b >= 0x80
  {
    hide Utf8.Encode, NoCharacter;
    StrayMeaning([b] + rest);
  }

  /** Reading a unit yields its meaning and stops behind its spelling. */
  lemma ReadSpelled(u: Unit, rest: bytes)
    requires Fits(u, rest)
    ensures Spelling(u) != [] && ReadUnit(Spelling(u) + rest) == (Meaning(u), |Spelling(u)|)
  {
    hide ReadUnit, Utf8.Encode, Writes, LowAhead, NoCharacter, EscapeOf;
    match u
    case Plain(r) => ReadPlain(r, rest);
    case Short(row) => ReadShort(row, rest);
    case Four(digits, v) =>
      ReadFour(digits, v, rest);
      WritesFour(digits, v);
      EscapeBytes(digits, []);
    case Pair(high, h, low, l) => ReadPair(high, h, low, l, rest);
    case Stray(b) => ReadStray(b, rest);
  }

  lemma SpellingIsBody(u: Unit, rest: bytes)
    requires Fits(u, rest)
    ensures IsBody(Spelling(u))
  {
    hide ReadUnit, Utf8.Encode, Writes, LowAhead, NoCharacter, EscapeOf, UnitLength, IsBody;
    match u
    case Plain(r) => PlainIsBody(r);
    case Short(row) =>
      ReadShort(row, []);
      UnitIsWhole(Spelling(u));
    case Four(digits, v) =>
      ReadFour(digits, v, rest);
      WritesFour(digits, v);
      EscapeBytes(digits, []);
      UnitIsWhole(Spelling(u));
    case Pair(high, h, low, l) =>
      ReadPair(high, h, low, l, rest);
      UnitIsWhole(EscapeOf(high));
      UnitIsWhole(EscapeOf(low));
      BodyConcat(EscapeOf(high), EscapeOf(low));
    case Stray(b) =>
      ReadStray(b, rest);
      HighBytesBody([b]);
  }

  lemma PlainIsBody(r: Utf8.Scalar)
    requires 0x20 <= r && r != 0x22 && r != 0x5C
    ensures IsBody(Utf8.Encode(r))
  {
    hide IsBody;
    if r < 0x80 {
      UnitIsWhole([r as byte]);
    } else {
      EncodedHigh(r);
      HighBytesBody(Utf8.Encode(r));
    }
  }

  // ---------- whole literals ----------

  /** Reading is right for every spelling: the inside of a literal means the meanings of its
      units, one after the other. */
  lemma {:induction false} UnescapeSpelled(us: seq<Unit>)
    requires WellFormed(us)
    ensures IsBody(Body(us)) && Unescape(Body(us)) == Text(us)
  {
    hide Fits, Spelling, Meaning, ReadUnit, Unescape, IsBody;
    if us == [] {
      NoBody();
      NothingEscaped();
    } else {
      UnescapeSpelled(us[1..]);
      ReadSpelled(us[0], Body(us[1..]));
      SpellingIsBody(us[0], Body(us[1..]));
      BodyConcat(Spelling(us[0]), Body(us[1..]));
      UnescapeStep(Spelling(us[0]), Body(us[1..]), Meaning(us[0]));
    }
  }

  /** The unit at the beginning of an inside. */
  lemma FirstUnit(s: bytes) returns (u: Unit)
    requires s != [] && IsBody(s)
    ensures var n := |Spelling(u)|; 0 < n <= |s| && s[..n] == Spelling(u) && Fits(u, s[n..]) && IsBody(s[n..])
  {
    hide IsBody, Utf8.Encode, Writes, LowAhead, NoCharacter, EscapeOf;
    BodyStep(s, UnitLength(s));
    if s[0] == BACKSLASH {
      u := FirstEscape(s);
    } else if s[0] < 0x80 {
      u := Plain(s[0] as int);
      AsciiEncode(s[0]);
      assert s[..1] == [s[0]];
    } else {
      u := FirstHigh(s);
    }
  }

  lemma AsciiEncode(c: byte)
    requires c < 0x80
    ensures Utf8.Encode(c as int) == [c]
  {
  }

  lemma FirstHigh(s: bytes) returns (u: Unit)
    requires s != [] && IsBody(s) && s[0] >= 0x80
    ensures var n := |Spelling(u)|; 0 < n <= |s| && s[..n] == Spelling(u) && Fits(u, s[n..]) && IsBody(s[n..])
  {
    hide IsBody, Utf8.Encode, NoCharacter, Utf8.Value;
    StrayMeaning(s);
    var w := Utf8.Width(s);
    if w == 0 {
      u := Stray(s[0]);
      assert s == [s[0]] + s[1..] && s[..1] == [s[0]];
      BodyStep(s, 1);
    } else {
      u := Plain(Utf8.Value(s));
      Utf8.EncodeValue(s);
      HighWidth(s);
      BodyDropHigh(s, w);
    }
  }

  lemma HighWidth(s: bytes)
    requires s != [] && s[0] >= 0x80 && Utf8.Width(s) > 0
    ensures Utf8.Value(s) >= 0x80 && forall i :: 0 <= i < Utf8.Width(s) ==> s[i] >= 0x80
  {
  }

  lemma FirstEscape(s: bytes) returns (u: Unit)
    requires s != [] && IsBody(s) && s[0] == BACKSLASH
    ensures var n := |Spelling(u)|; 0 < n <= |s| && s[..n] == Spelling(u) && Fits(u, s[n..]) && IsBody(s[n..])
  {
    hide IsBody, Writes, LowAhead, EscapeOf, ShortEscape, CHARACTERS;
    BodyStep(s, UnitLength(s));
    if IsUnicodeEscape(s) {
      u := FirstUnicode(s);
    } else {
      ShortRow(s[1]);
      var row :| 0 <= row < 8 && LETTERS[row] == s[1];
      u := Short(row);
      assert s[..2] == [s[0], s[1]];
    }
  }

  lemma FirstUnicode(s: bytes) returns (u: Unit)
    requires IsUnicodeEscape(s) && IsBody(s)
    ensures var n := |Spelling(u)|; 0 < n <= |s| && s[..n] == Spelling(u) && Fits(u, s[n..]) && IsBody(s[n..])
  {
    hide IsBody, Writes, LowAhead, EscapeOf, IsHex, HexValue;
    var rest := s[6..];
    EscapeFound(s);
    BodyStep(s, 6);
    var v := EscapedValue(s);
    LowAheadMeaning(rest);
    if 0xD800 <= v < 0xDC00 && LowAhead(rest) {
      EscapeFound(rest);
      BodyStep(rest, 6);
      u := Pair(s[2..6], v, rest[2..6], EscapedValue(rest));
      assert s[..12] == s[..6] + rest[..6] && s[12..] == rest[6..];
    } else {
      u := Four(s[2..6], v);
    }
  }

  /** Every inside of a literal is spelled by units. */
  lemma {:induction false} BodySpelled(s: bytes) returns (us: seq<Unit>)
    requires IsBody(s)
    ensures WellFormed(us) && Body(us) == s
    decreases |s|
  {
    hide IsBody, Fits, Spelling;
    if s == [] {
      us := [];
    } else {
      var u := FirstUnit(s);
      var n := |Spelling(u)|;
      var rest := BodySpelled(s[n..]);
      us := [u] + rest;
      assert us[1..] == rest && s == s[..n] + s[n..];
    }
  }

  // ---------- what the writer chooses ----------

  /** The characters `json.Marshal` does not write as themselves although it could. */
  const GUARDED: set<int> := {0x3C, 0x3E, 0x26, 0x2028, 0x2029}

  function LowerDigits(r: nat): bytes
    requires r < 0x10000
  {
    [LOWER[r / 4096], LOWER[r / 256 % 16], LOWER[r / 16 % 16], LOWER[r % 16]]
  }

  /** A character is written as itself, unless a short escape other than the slash stands for
      it, or it is a control character or guarded: then in lower-case hexadecimal. */
  function Written(r: Utf8.Scalar): Unit {
    if r == 0x22 then Short(0)
    else if r == 0x5C then Short(1)
    else if r == 0x08 then Short(3)
    else if r == 0x0C then Short(4)
    else if r == 0x0A then Short(5)
    else if r == 0x0D then Short(6)
    else if r == 0x09 then Short(7)
    else if r < 0x20 || r in GUARDED then Four(LowerDigits(r), r)
    else Plain(r)
  }

  function WrittenAll(rs: seq<Utf8.Scalar>): (us: seq<Unit>)
    ensures |us| == |rs| && forall i :: 0 <= i < |rs| ==> us[i] == Written(rs[i])
  {
    seq(|rs|, i requires 0 <= i < |rs| => Written(rs[i]))
  }

  lemma LowerDigitsEscape(r: nat)
    requires r < 0x10000
    ensures EscapeOf(LowerDigits(r)) == UnicodeEscape(r)
  {
    LowerTable(r / 4096); LowerTable(r / 256 % 16); LowerTable(r / 16 % 16); LowerTable(r % 16);
    assert Ascii("\\u") == [BACKSLASH, LETTER_U];
  }

  lemma LowerTable(v: nat)
    requires v < 16
    ensures LOWER[v] == LowerHex(v)
  {
    assert LOWER[v] == (if v < 10 then 0x30 + v as byte else 0x61 + (v - 10) as byte);
  }

  lemma WrittenAscii(c: byte)
    requires c < 0x80
    ensures EscapeAscii(c) == Spelling(Written(c as int))
  {
    LowerDigitsEscape(c as int);
    var l := LETTERS;
    assert l[0] == 0x22 && l[1] == 0x5C && l[3] == 0x62 && l[4] == 0x66 && l[5] == 0x6E && l[6] == 0x72 && l[7] == 0x74;
    AsciiEncode(c);
    hide UnicodeEscape, EscapeOf, LowerDigits, LETTERS;
  }

  lemma ValueEncode(r: Utf8.Scalar, rest: bytes)
    ensures var t := Utf8.Encode(r) + rest; Utf8.Width(t) == |Utf8.Encode(r)| && Utf8.Value(t) == r
  {
    hide Utf8.Encode, Utf8.Value, Utf8.Width;
    var t := Utf8.Encode(r) + rest;
    Utf8.WidthEncode(r, rest);
    Utf8.EncodeValue(t);
    assert t[..|Utf8.Encode(r)|] == Utf8.Encode(r);
    Utf8.EncodeInjective(r, Utf8.Value(t));
  }

  lemma WrittenRune(r: Utf8.Scalar, rest: bytes)
    ensures var t := Utf8.Encode(r) + rest;
      t != [] && EscapeRune(t) == Spelling(Written(r)) && RuneSize(t) == |Utf8.Encode(r)|
  {
    hide EscapeAscii, UnicodeEscape, LowerDigits, EscapeOf, LETTERS;
    var t := Utf8.Encode(r) + rest;
    ValueEncode(r, rest);
    if r < 0x80 {
      AsciiEncode(r as byte);
      WrittenAscii(r as byte);
    } else {
      EncodedHigh(r);
      if r < 0x10000 {
        LowerDigitsEscape(r);
      }
      hide Utf8.Encode, Utf8.Value, Utf8.Width;
      assert t[0] == Utf8.Encode(r)[0] && t[..|Utf8.Encode(r)|] == Utf8.Encode(r);
    }
  }

  /** A text is written character by character as above. */
  lemma {:induction false} EscapeWritten(rs: seq<Utf8.Scalar>)
    ensures Escape(Utf8.EncodeAll(rs)) == Body(WrittenAll(rs))
  {
    hide EscapeRune, Spelling, Written, Utf8.Encode, RuneSize;
    if rs == [] {
      NothingEscaped();
    } else {
      var rest := Utf8.EncodeAll(rs[1..]);
      EscapeWritten(rs[1..]);
      WrittenRune(rs[0], rest);
      assert WrittenAll(rs)[1..] == WrittenAll(rs[1..]);
      assert (Utf8.Encode(rs[0]) + rest)[|Utf8.Encode(rs[0])|..] == rest;
    }
  }
}
