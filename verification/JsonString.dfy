/** JSON string literals (section 7 of RFC 8259) as `encoding/json` writes and reads them:
    the writer escapes HTML-sensitive characters and the two Unicode line separators, the
    reader repairs invalid UTF-8 and unpaired surrogates with U+FFFD. */
module JsonString {
  import opened Bytes
  import opened Hex
  import Utf8

  const QUOTE: byte := 0x22
  const BACKSLASH: byte := 0x5C
  const LETTER_U: byte := 0x75

  // ---------- writing ----------

  /** `\uXXXX` for a value below 0x10000. */
  function UnicodeEscape(r: nat): (s: bytes)
    requires r < 0x10000
    ensures |s| == 6
  {
    [BACKSLASH, LETTER_U, LowerHex(r / 4096), LowerHex(r / 256 % 16), LowerHex(r / 16 % 16), LowerHex(r % 16)]
  }

  predicate CopiedAscii(c: byte) {
    0x20 <= c < 0x80 && c != QUOTE && c != BACKSLASH && c != 0x3C && c != 0x3E && c != 0x26
  }

  function EscapeAscii(c: byte): (s: bytes)
    requires c < 0x80
  {
    if CopiedAscii(c) then [c]
    else if c == QUOTE || c == BACKSLASH then [BACKSLASH, c]
    else if c == 0x08 then [BACKSLASH, 0x62]
    else if c == 0x0C then [BACKSLASH, 0x66]
    else if c == 0x0A then [BACKSLASH, 0x6E]
    else if c == 0x0D then [BACKSLASH, 0x72]
    else if c == 0x09 then [BACKSLASH, 0x74]
    else UnicodeEscape(c as int)
  }

  /** The number of bytes `utf8.DecodeRune` takes from a non-empty text. */
  function RuneSize(s: bytes): (n: nat)
    requires s != []
    ensures 1 <= n <= 4 && n <= |s|
  {
    if Utf8.Width(s) == 0 then 1 else Utf8.Width(s)
  }

  function EscapeRune(s: bytes): (t: bytes)
    requires s != []
  {
    if s[0] < 0x80 then EscapeAscii(s[0])
    else if Utf8.Width(s) == 0 then UnicodeEscape(0xFFFD)
    else if Utf8.Value(s) == 0x2028 || Utf8.Value(s) == 0x2029 then UnicodeEscape(Utf8.Value(s))
    else s[..Utf8.Width(s)]
  }

  function Escape(s: bytes): bytes
    decreases |s|
  {
    if s == [] then [] else EscapeRune(s) + Escape(s[RuneSize(s)..])
  }

  /** `json.Marshal` of a string. */
  function Quote(s: bytes): (lit: bytes)
    ensures |lit| >= 2 && lit[0] == QUOTE
  {
    [QUOTE] + Escape(s) + [QUOTE]
  }

  // ---------- scanning ----------

  /** The character behind a two-byte escape. */
  function ShortEscape(c: byte): Option<byte> {
    if c == QUOTE || c == BACKSLASH || c == 0x2F then Some(c)
    else if c == 0x62 then Some(0x08)
    else if c == 0x66 then Some(0x0C)
    else if c == 0x6E then Some(0x0A)
    else if c == 0x72 then Some(0x0D)
    else if c == 0x74 then Some(0x09)
    else None
  }

  predicate IsUnicodeEscape(s: bytes) {
    |s| >= 6 && s[0] == BACKSLASH && s[1] == LETTER_U && IsHex(s[2]) && IsHex(s[3]) && IsHex(s[4]) && IsHex(s[5])
  }

  /** The length of the character or escape that `s` begins with; 0 at a quote, a control
      character or a malformed escape. */
  function UnitLength(s: bytes): (n: nat)
    ensures n <= |s|
  {
    if s == [] then 0
    else if s[0] == BACKSLASH then
      if IsUnicodeEscape(s) then 6
      else if |s| >= 2 && ShortEscape(s[1]).Some? then 2
      else 0
    else if s[0] == QUOTE || s[0] < 0x20 then 0
    else 1
  }

  /** `s` is the inside of a string literal. */
  predicate IsBody(s: bytes)
    decreases |s|
  {
    s == [] || (UnitLength(s) > 0 && IsBody(s[UnitLength(s)..]))
  }

  /** The number of bytes before the quote that ends the literal whose inside starts `s`. */
  function ScanBody(s: bytes): (n: Option<nat>)
    ensures n.Some? ==> n.value < |s|
    decreases |s|
  {
    if s == [] then None
    else if s[0] == QUOTE then Some(0)
    else if UnitLength(s) == 0 then None
    else
      var n :- ScanBody(s[UnitLength(s)..]);
      Some(UnitLength(s) + n)
  }

  // ---------- reading ----------

  function EscapedValue(s: bytes): (r: nat)
    requires IsUnicodeEscape(s)
    ensures r < 0x10000
  {
    HexValue(s[2]) * 4096 + HexValue(s[3]) * 256 + HexValue(s[4]) * 16 + HexValue(s[5])
  }

  predicate IsPair(s: bytes) {
    && IsUnicodeEscape(s) && 0xD800 <= EscapedValue(s) < 0xDC00
    && IsUnicodeEscape(s[6..]) && 0xDC00 <= EscapedValue(s[6..]) < 0xE000
  }

  /** The first character of a literal's inside, and how many bytes spell it. */
  function ReadUnit(s: bytes): (r: (bytes, nat))
    requires s != []
    ensures 1 <= r.1 <= |s|
  {
    if s[0] == BACKSLASH then
      if IsPair(s) then
        (Utf8.Encode(0x10000 + (EscapedValue(s) - 0xD800) * 0x400 + (EscapedValue(s[6..]) - 0xDC00)), 12)
      else if IsUnicodeEscape(s) then
        (Utf8.Encode(if 0xD800 <= EscapedValue(s) < 0xE000 then Utf8.REPLACEMENT else EscapedValue(s)), 6)
      else if |s| >= 2 && ShortEscape(s[1]).Some? then
        ([ShortEscape(s[1]).value], 2)
      else ([], |s|)
    else if s[0] < 0x80 then ([s[0]], 1)
    else if Utf8.Width(s) == 0 then (Utf8.Encode(Utf8.REPLACEMENT), 1)
    else (Utf8.Encode(Utf8.Value(s)), Utf8.Width(s))
  }

  /** The text of a literal's inside. */
  function Unescape(s: bytes): bytes
    decreases |s|
  {
    if s == [] then [] else ReadUnit(s).0 + Unescape(s[ReadUnit(s).1..])
  }

  // ---------- scanning is exact ----------

  lemma UnitLocal(s: bytes, t: bytes)
    requires UnitLength(s) > 0 && UnitLength(s) <= |t| && t[..UnitLength(s)] == s[..UnitLength(s)]
    ensures UnitLength(t) == UnitLength(s)
  {
    var n := UnitLength(s);
    assert forall i :: 0 <= i < n ==> t[i] == t[..n][i] == s[..n][i] == s[i];
  }

  lemma {:induction false} ScanFinds(s: bytes, rest: bytes)
    requires IsBody(s)
    ensures ScanBody(s + [QUOTE] + rest) == Some(|s|)
    decreases |s|
  {
    var t := s + [QUOTE] + rest;
    if s != [] {
      var n := UnitLength(s);
      UnitLocal(s, t);
      ScanFinds(s[n..], rest);
      assert t[n..] == s[n..] + [QUOTE] + rest;
    }
  }

  lemma {:induction false} ScanSound(s: bytes)
    requires ScanBody(s).Some?
    ensures var n := ScanBody(s).value; IsBody(s[..n]) && s[n] == QUOTE
    decreases |s|
  {
    if s[0] != QUOTE {
      var k, n := UnitLength(s), ScanBody(s).value;
      ScanSound(s[k..]);
      assert s[..n][..k] == s[..k];
      UnitLocal(s, s[..n]);
      assert s[..n][k..] == s[k..][..n - k];
    }
  }

  lemma BodyStep(s: bytes, n: nat)
    requires s != [] && n == UnitLength(s)
    ensures IsBody(s) <==> n > 0 && IsBody(s[n..])
  {
    hide UnitLength;
  }

  lemma NoBody()
    ensures IsBody([])
  {
  }

  lemma {:induction false} BodyConcat(s: bytes, t: bytes)
    requires IsBody(s) && IsBody(t)
    ensures IsBody(s + t)
    decreases |s|
  {
    hide UnitLength, IsBody;
    if s == [] {
      assert s + t == t;
    } else {
      var n := UnitLength(s);
      BodyStep(s, n);
      assert (s + t)[..n] == s[..n];
      UnitLocal(s, s + t);
      BodyConcat(s[n..], t);
      assert (s + t)[n..] == s[n..] + t;
      BodyStep(s + t, n);
    }
  }

  lemma {:induction false} HighBytesBody(s: bytes)
    requires forall i :: 0 <= i < |s| ==> s[i] >= 0x80
    ensures IsBody(s)
  {
    if s != [] {
      HighBytesBody(s[1..]);
    }
  }

  lemma UnicodeEscapeUnit(r: nat)
    requires r < 0x10000
    ensures UnitLength(UnicodeEscape(r)) == 6
  {
    hide LowerHex;
  }

  lemma EscapeAsciiUnit(c: byte)
    requires c < 0x80
    ensures UnitLength(EscapeAscii(c)) == |EscapeAscii(c)| > 0
  {
    hide UnicodeEscape;
    UnicodeEscapeUnit(c as int);
  }

  lemma UnitIsWhole(t: bytes)
    requires t != [] && UnitLength(t) == |t|
    ensures IsBody(t)
  {
    hide IsBody, UnitLength;
    NoBody();
    BodyStep(t, |t|);
    assert t[|t|..] == [];
  }

  lemma EscapeRuneIsBody(s: bytes)
    requires s != []
    ensures IsBody(EscapeRune(s))
  {
    hide IsBody, UnitLength, UnicodeEscape, EscapeAscii;
    var t := EscapeRune(s);
    if s[0] < 0x80 {
      EscapeAsciiUnit(s[0]);
      UnitIsWhole(t);
    } else if Utf8.Width(s) == 0 || Utf8.Value(s) == 0x2028 || Utf8.Value(s) == 0x2029 {
      UnicodeEscapeUnit(if Utf8.Width(s) == 0 then 0xFFFD else Utf8.Value(s));
      UnitIsWhole(t);
    } else {
      HighBytesBody(t);
    }
  }

  lemma {:induction false} EscapeIsBody(s: bytes)
    ensures IsBody(Escape(s))
    decreases |s|
  {
    hide EscapeRune, IsBody;
    if s != [] {
      EscapeRuneIsBody(s);
      EscapeIsBody(s[RuneSize(s)..]);
      BodyConcat(EscapeRune(s), Escape(s[RuneSize(s)..]));
    } else {
      HighBytesBody([]);
    }
  }

  // ---------- reading what was written ----------

  lemma EscapedValueOf(r: nat, rest: bytes)
    requires r < 0x10000
    ensures IsUnicodeEscape(UnicodeEscape(r) + rest)
    ensures EscapedValue(UnicodeEscape(r) + rest) == r
  {
    assert r / 256 == r / 4096 * 16 + r / 256 % 16;
    assert r / 16 == r / 256 * 16 + r / 16 % 16;
  }

  lemma ReadEscapedRune(s: bytes, rest: bytes)
    requires s != [] && Utf8.Width(s) > 0
    ensures EscapeRune(s) != []
    ensures ReadUnit(EscapeRune(s) + rest) == (s[..RuneSize(s)], |EscapeRune(s)|)
  {
    var t := EscapeRune(s) + rest;
    if s[0] < 0x80 {
      ReadEscapedAscii(s[0], rest);
      assert s[..1] == [s[0]];
    } else if Utf8.Value(s) == 0x2028 || Utf8.Value(s) == 0x2029 {
      EscapedValueOf(Utf8.Value(s), rest);
      Utf8.EncodeValue(s);
    } else {
      assert t[..Utf8.Width(s)] == s[..Utf8.Width(s)];
      Utf8.WidthLocal(s, t);
      Utf8.EncodeValue(s);
      assert t[0] == s[0];
    }
  }

  lemma ReadEscapedAscii(c: byte, rest: bytes)
    requires c < 0x80
    ensures EscapeAscii(c) != []
    ensures ReadUnit(EscapeAscii(c) + rest) == ([c], |EscapeAscii(c)|)
  {
    if EscapeAscii(c) == UnicodeEscape(c as int) {
      EscapedValueOf(c as int, rest);
    }
  }

  lemma EscapeStep(s: bytes)
    requires Utf8.Valid(s) && s != []
    ensures Utf8.Width(s) > 0 && RuneSize(s) == Utf8.Width(s) && Utf8.Valid(s[RuneSize(s)..])
    ensures Escape(s) == EscapeRune(s) + Escape(s[RuneSize(s)..])
  {
    hide EscapeRune, Utf8.Width;
  }

  lemma UnescapeStep(t: bytes, rest: bytes, text: bytes)
    requires t != [] && ReadUnit(t + rest) == (text, |t|)
    ensures Unescape(t + rest) == text + Unescape(rest)
  {
    hide ReadUnit;
    assert (t + rest)[|t|..] == rest;
  }

  lemma NothingEscaped()
    ensures Escape([]) == [] && Unescape([]) == []
  {
  }

  /** Every valid UTF-8 text comes back from its literal. */
  lemma {:induction false} UnescapeEscape(s: bytes)
    requires Utf8.Valid(s)
    ensures Unescape(Escape(s)) == s
    decreases |s|
  {
    hide EscapeRune, ReadUnit, Escape, Unescape, RuneSize, Utf8.Valid, Utf8.Width;
    if s == [] {
      NothingEscaped();
    } else {
      var n := RuneSize(s);
      EscapeStep(s);
      ReadEscapedRune(s, Escape(s[n..]));
      UnescapeEscape(s[n..]);
      UnescapeStep(EscapeRune(s), Escape(s[n..]), s[..n]);
      assert s == s[..n] + s[n..];
    }
  }

  /** Reading yields valid UTF-8 whatever the bytes were: an ill-formed text cannot survive. */
  lemma {:induction false} UnescapeValid(s: bytes)
    ensures Utf8.Valid(Unescape(s))
    decreases |s|
  {
    if s != [] {
      var (u, n) := ReadUnit(s);
      UnescapeValid(s[n..]);
      var rest := Unescape(s[n..]);
      ReadUnitScalar(s);
      if u != [] {
        var r: Utf8.Scalar :| u == Utf8.Encode(r);
        Utf8.ValidEncode(r, rest);
      } else {
        assert u + rest == rest;
      }
    }
  }

  lemma ReadUnitScalar(s: bytes)
    requires s != []
    ensures ReadUnit(s).0 == [] || exists r: Utf8.Scalar :: ReadUnit(s).0 == Utf8.Encode(r)
  {
    var u := ReadUnit(s).0;
    if |u| == 1 && u[0] < 0x80 {
      assert u == Utf8.Encode(u[0] as int);
    }
  }

  // ---------- size admission ----------

  lemma {:induction false} BodyDropHigh(s: bytes, n: nat)
    requires IsBody(s) && n <= |s|
    requires forall i :: 0 <= i < n ==> s[i] >= 0x80
    ensures IsBody(s[n..])
    decreases n
  {
    if n > 0 {
      BodyDropHigh(s[1..], n - 1);
      assert s[1..][n - 1..] == s[n..];
    }
  }

  lemma UnitIsBody(s: bytes)
    requires s != [] && IsBody(s)
    ensures var (u, n) := ReadUnit(s); IsBody(s[n..]) && n <= 6 * |u|
  {
    if IsPair(s) {
      assert s[6..][6..] == s[12..];
    } else if s[0] >= 0x80 {
      BodyDropHigh(s, ReadUnit(s).1);
    }
  }

  /** Six bytes of a literal spell at least one byte of text. */
  lemma {:induction false} SixBytesPerByte(s: bytes)
    requires IsBody(s)
    ensures |s| <= 6 * |Unescape(s)|
    decreases |s|
  {
    if s != [] {
      UnitIsBody(s);
      SixBytesPerByte(s[ReadUnit(s).1..]);
    }
  }

  /** `exceedsJSONEncodedStringLimit`: the check made before a literal is decoded. */
  predicate ExceedsEncodedLimit(rawLength: nat, limit: int) {
    if limit <= 0 then true
    else
      var units, remainder := rawLength / 6, rawLength % 6;
      units > limit || (units == limit && remainder > 2)
  }

  /** The quotient and remainder comparison is the plain one, without the product. */
  lemma EncodedLimitMeaning(rawLength: nat, limit: int)
    ensures ExceedsEncodedLimit(rawLength, limit) <==> limit <= 0 || rawLength > 6 * limit + 2
  {
    assert rawLength == rawLength / 6 * 6 + rawLength % 6;
  }

  /** Two-stage admission of a literal is admission by decoded size alone. */
  lemma TwoStageAdmission(body: bytes, limit: int)
    requires IsBody(body)
    ensures (!ExceedsEncodedLimit(|body| + 2, limit) && |Unescape(body)| <= limit)
            <==> (limit > 0 && |Unescape(body)| <= limit)
  {
    SixBytesPerByte(body);
    EncodedLimitMeaning(|body| + 2, limit);
  }
}
