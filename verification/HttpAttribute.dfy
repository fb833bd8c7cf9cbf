/** HTTP header values of context attributes: percent-encoding, quoted strings and the size
    check made before decoding (section 3.1.3.2 of the CloudEvents HTTP Protocol Binding
    1.0.2; section 2.1 of RFC 3986). */
module HttpAttribute {
  import opened Bytes
  import opened Hex
  import Utf8

  const QUOTE: byte := 0x22
  const PERCENT: byte := 0x25
  const BACKSLASH: byte := 0x5C

  // ---------- encoding ----------

  predicate Copied(c: byte) { 0x21 <= c <= 0x7E && c != QUOTE && c != PERCENT }

  function EncodeByte(c: byte): (r: bytes)
    ensures 1 <= |r| <= 3
  {
    if Copied(c) then [c] else [PERCENT, UpperHex(c as int / 16), UpperHex(c as int % 16)]
  }

  function Encode(value: bytes): bytes {
    if value == [] then [] else EncodeByte(value[0]) + Encode(value[1..])
  }

  /** `encodeHTTPAttribute`. */
  method EncodeHTTPAttribute(value: bytes) returns (encoded: bytes)
    ensures encoded == Encode(value)
  {
    hide Encode, UpperHex;
    encoded := [];
    assert value[0..] == value && [] + Encode(value) == Encode(value);
    for i := 0 to |value|
      invariant encoded + Encode(value[i..]) == Encode(value)
    {
      var c := value[i];
      ghost var before := encoded;
      if c >= 0x21 && c <= 0x7E && c != QUOTE && c != PERCENT {
        encoded := encoded + [c];
      } else {
        encoded := encoded + [PERCENT, UpperHex(c as int / 16), UpperHex(c as int % 16)];
      }
      EncodeStep(value, i);
      Regroup(before, EncodeByte(c), Encode(value[i + 1..]));
    }
    assert value[|value|..] == [] && encoded + [] == encoded;
    NothingEncoded();
  }

  lemma EncodeStep(value: bytes, i: nat)
    requires i < |value|
    ensures Encode(value[i..]) == EncodeByte(value[i]) + Encode(value[i + 1..])
  {
    assert value[i..][1..] == value[i + 1..];
  }

  lemma NothingEncoded()
    ensures Encode([]) == []
  {
  }

  lemma Regroup(a: bytes, b: bytes, c: bytes)
    ensures a + (b + c) == a + b + c
  {
  }

  // ---------- decoding ----------

  /** `url.PathUnescape`. */
  function PathUnescape(s: bytes): Option<bytes> {
    if s == [] then Some([])
    else if s[0] != PERCENT then
      var rest :- PathUnescape(s[1..]);
      Some([s[0]] + rest)
    else if |s| < 3 || !IsHex(s[1]) || !IsHex(s[2]) then None
    else
      var rest :- PathUnescape(s[3..]);
      Some([(HexValue(s[1]) * 16 + HexValue(s[2])) as byte] + rest)
  }

  /** The quoted-string automaton between the quotes. */
  function UnquoteInner(s: bytes, escaped: bool): Option<bytes> {
    if s == [] then (if escaped then None else Some([]))
    else if !escaped && s[0] == BACKSLASH then UnquoteInner(s[1..], true)
    else if !escaped && s[0] == QUOTE then None
    else if s[0] < 0x20 || s[0] == 0x7F then None
    else
      var rest :- UnquoteInner(s[1..], false);
      Some([s[0]] + rest)
  }

  function Unquote(value: bytes): Option<bytes> {
    if value == [] || value[0] != QUOTE then Some(value)
    else if |value| < 2 || value[|value| - 1] != QUOTE then None
    else UnquoteInner(value[1..|value| - 1], false)
  }

  /** `unquoteHTTPAttribute`. */
  method UnquoteHTTPAttribute(value: bytes) returns (r: Option<bytes>)
    ensures r == Unquote(value)
  {
    if value == [] || value[0] != QUOTE {
      return Some(value);
    }
    if |value| < 2 || value[|value| - 1] != QUOTE {
      return None;
    }
    var inner := value[1..|value| - 1];
    hide UnquoteInner;
    var unquoted: bytes := [];
    var escaped := false;
    ghost var whole := UnquoteInner(inner, false);
    assert inner[0..] == inner;
    assert whole.Some? ==> [] + whole.value == whole.value;
    for i := 0 to |inner|
      invariant whole == var rest := UnquoteInner(inner[i..], escaped);
                         if rest.None? then None else Some(unquoted + rest.value)
    {
      var c := inner[i];
      UnquoteStep(inner, i, escaped);
      if escaped {
        escaped := false;
      } else if c == BACKSLASH {
        escaped := true;
        continue;
      } else if c == QUOTE {
        return None;
      }
      if c < 0x20 || c == 0x7F {
        return None;
      }
      ghost var rest := UnquoteInner(inner[i + 1..], false);
      if rest.Some? {
        Regroup(unquoted, [c], rest.value);
      }
      unquoted := unquoted + [c];
    }
    assert inner[|inner|..] == [];
    UnquoteEnd(escaped);
    if escaped {
      return None;
    }
    assert unquoted + [] == unquoted;
    return Some(unquoted);
  }

  lemma UnquoteStep(s: bytes, i: nat, escaped: bool)
    requires i < |s|
    ensures UnquoteInner(s[i..], escaped) ==
      if !escaped && s[i] == BACKSLASH then UnquoteInner(s[i + 1..], true)
      else if (!escaped && s[i] == QUOTE) || s[i] < 0x20 || s[i] == 0x7F then None
      else
        var rest := UnquoteInner(s[i + 1..], false);
        if rest.None? then None else Some([s[i]] + rest.value)
  {
    assert s[i..][0] == s[i] && s[i..][1..] == s[i + 1..];
  }

  lemma UnquoteEnd(escaped: bool)
    ensures UnquoteInner([], escaped) == if escaped then None else Some([])
  {
  }

  /** `decodeHTTPAttribute`. */
  function Decode(value: bytes): Option<bytes> {
    var unquoted :- Unquote(value);
    var decoded :- PathUnescape(unquoted);
    if Utf8.Valid(decoded) then Some(decoded) else None
  }

  method DecodeHTTPAttribute(value: bytes) returns (r: Option<bytes>)
    ensures r == Decode(value)
  {
    hide Unquote, PathUnescape, Utf8.Valid;
    var unquoted := UnquoteHTTPAttribute(value);
    if unquoted.None? {
      return None;
    }
    var decoded := PathUnescape(unquoted.value);
    return if decoded.None? || !Utf8.Valid(decoded.value) then None else decoded;
  }

  // ---------- the codec laws ----------

  lemma UnescapePlain(c: byte, rest: bytes)
    requires c != PERCENT
    ensures PathUnescape([c] + rest) == var r := PathUnescape(rest); if r.None? then None else Some([c] + r.value)
  {
    assert ([c] + rest)[1..] == rest;
  }

  lemma UnescapePair(x: byte, y: byte, rest: bytes)
    requires IsHex(x) && IsHex(y)
    ensures PathUnescape([PERCENT, x, y] + rest) ==
      var r := PathUnescape(rest); if r.None? then None else Some([(HexValue(x) * 16 + HexValue(y)) as byte] + r.value)
  {
    var s := [PERCENT, x, y] + rest;
    assert s[3..] == rest;
  }

  lemma UnescapeNothing()
    ensures PathUnescape([]) == Some([])
  {
  }

  lemma UnescapeByte(c: byte, rest: bytes)
    ensures PathUnescape(EncodeByte(c) + rest) ==
      var r := PathUnescape(rest); if r.None? then None else Some([c] + r.value)
  {
    hide PathUnescape;
    if Copied(c) {
      UnescapePlain(c, rest);
    } else {
      UnescapePair(UpperHex(c as int / 16), UpperHex(c as int % 16), rest);
    }
  }

  lemma {:induction false} UnescapeEncode(value: bytes)
    ensures PathUnescape(Encode(value)) == Some(value)
  {
    hide PathUnescape, EncodeByte, Encode;
    if value == [] {
      NothingEncoded();
      UnescapeNothing();
    } else {
      UnescapeEncode(value[1..]);
      UnescapeByte(value[0], Encode(value[1..]));
      EncodeStep(value, 0);
      assert value[0..] == value == [value[0]] + value[1..];
    }
  }

  predicate IsPrintable(s: bytes) {
    forall i :: 0 <= i < |s| ==> 0x21 <= s[i] <= 0x7E && s[i] != QUOTE
  }

  /** The output is printable ASCII without a double quote, at most three times as long, and
      every percent sign begins a well-formed escape. */
  lemma {:induction false} EncodeOutput(value: bytes)
    ensures IsPrintable(Encode(value)) && |Encode(value)| <= 3 * |value|
    ensures PathUnescape(Encode(value)).Some?
  {
    UnescapeEncode(value);
    if value != [] {
      EncodeOutput(value[1..]);
      assert IsPrintable(EncodeByte(value[0]));
    }
  }

  /** A value comes back from its encoding exactly when it is valid UTF-8. */
  lemma DecodeEncode(value: bytes)
    ensures Decode(Encode(value)) == if Utf8.Valid(value) then Some(value) else None
  {
    EncodeOutput(value);
    UnescapeEncode(value);
  }

  function DoubleBackslashes(s: bytes): bytes {
    if s == [] then []
    else (if s[0] == BACKSLASH then [BACKSLASH, BACKSLASH] else [s[0]]) + DoubleBackslashes(s[1..])
  }

  lemma {:induction false} UnquoteDoubled(s: bytes)
    requires IsPrintable(s)
    ensures UnquoteInner(DoubleBackslashes(s), false) == Some(s)
  {
    if s != [] {
      UnquoteDoubled(s[1..]);
      var d, rest := DoubleBackslashes(s), DoubleBackslashes(s[1..]);
      if s[0] == BACKSLASH {
        assert d[1..] == [BACKSLASH] + rest;
        assert d[1..][1..] == rest;
      } else {
        assert d[1..] == rest;
      }
      assert s == [s[0]] + s[1..];
    }
  }

  /** The same value may be sent as a quoted string with its backslashes doubled. */
  lemma DecodeQuoted(value: bytes)
    requires Utf8.Valid(value)
    ensures Decode([QUOTE] + DoubleBackslashes(Encode(value)) + [QUOTE]) == Some(value)
  {
    var inner := DoubleBackslashes(Encode(value));
    var s := [QUOTE] + inner + [QUOTE];
    assert s[1..|s| - 1] == inner;
    EncodeOutput(value);
    UnquoteDoubled(Encode(value));
    UnescapeEncode(value);
  }

  // ---------- the size check before decoding ----------

  const WORD: int := 0x1_0000_0000_0000_0000

  /** `exceedsHTTPEncodedAttributeLimit`, with the two-word product of `bits.Mul`. */
  predicate ExceedsEncodedLimit(length: int, limit: int) {
    if limit <= 0 then true
    else
      var high, maximum := limit * 3 / WORD, limit * 3 % WORD;
      high == 0 && length > maximum
  }

  /** For machine words the two-word comparison is the comparison of integers. */
  lemma EncodedLimitMeaning(length: int, limit: int)
    requires 0 <= length < WORD / 2 && limit < WORD / 2
    ensures ExceedsEncodedLimit(length, limit) <==> limit <= 0 || length > 3 * limit
  {
  }

  lemma {:induction false} UnescapeLength(s: bytes)
    ensures PathUnescape(s).Some? ==> |PathUnescape(s).value| <= |s| <= 3 * |PathUnescape(s).value|
  {
    if s != [] && PathUnescape(s).Some? {
      UnescapeLength(if s[0] != PERCENT then s[1..] else s[3..]);
    }
  }

  /** No unquoted value that decodes to at most `limit` bytes is rejected beforehand, so for
      unquoted values the check before and the check after together are the check after. */
  lemma UnquotedAdmission(value: bytes, limit: int)
    requires (value == [] || value[0] != QUOTE) && Decode(value).Some?
    ensures (!ExceedsEncodedLimit(|value|, limit) && |Decode(value).value| <= limit)
            <==> (0 < limit && |Decode(value).value| <= limit)
  {
    UnescapeLength(value);
  }

  /** The check made before decoding and the check made after, together. */
  predicate Admitted(value: bytes, limit: int)
    requires Decode(value).Some?
  {
    !ExceedsEncodedLimit(|value|, limit) && |Decode(value).value| <= limit
  }

  /** Under every limit the two checks amount to the size of the decoded value. */
  ghost predicate AdmittedByDecodedSize(value: bytes)
    requires Decode(value).Some?
  {
    forall limit: int :: Admitted(value, limit) <==> 0 < limit && |Decode(value).value| <= limit
  }

  /** For every value, quoted or not, the two checks amount to the size of the decoded value if
      and only if the value is at most three times as long as what it decodes to (an empty
      value counts as one byte). */
  lemma AdmissionExact(value: bytes)
    requires |value| < WORD / 2 && Decode(value).Some?
    ensures AdmittedByDecodedSize(value) <==> |value| <= 3 * Size(Decode(value).value)
  {
    hide Decode;
    var least := Size(Decode(value).value);
    DecodeShrinks(value);
    EncodedLimitMeaning(|value|, least);
    assert Admitted(value, least) <==> |value| <= 3 * least;
  }

  function Size(value: bytes): nat { if value == [] then 1 else |value| }

  lemma DecodeShrinks(value: bytes)
    requires Decode(value).Some?
    ensures |Decode(value).value| <= |value|
  {
    var unquoted := Unquote(value).value;
    UnescapeLength(unquoted);
    if value != [] && value[0] == QUOTE {
      QuotedLength(value[1..|value| - 1], false);
    }
  }

  /** The backslashes of a quoted string that escape the byte after them. */
  function Escapes(s: bytes, escaped: bool): nat {
    if s == [] then 0
    else if !escaped && s[0] == BACKSLASH then 1 + Escapes(s[1..], true)
    else Escapes(s[1..], false)
  }

  /** The bytes of a percent-encoded text that stand for themselves. */
  function PlainBytes(s: bytes): nat {
    if s == [] then 0
    else if s[0] != PERCENT then 1 + PlainBytes(s[1..])
    else if |s| < 3 then 0
    else PlainBytes(s[3..])
  }

  lemma {:induction false} QuotedLength(s: bytes, escaped: bool)
    requires UnquoteInner(s, escaped).Some?
    ensures |s| == |UnquoteInner(s, escaped).value| + Escapes(s, escaped)
  {
    if s != [] {
      QuotedLength(s[1..], !escaped && s[0] == BACKSLASH);
    }
  }

  lemma {:induction false} EncodedLength(s: bytes)
    requires PathUnescape(s).Some?
    ensures |s| + 2 * PlainBytes(s) == 3 * |PathUnescape(s).value|
  {
    if s != [] {
      EncodedLength(if s[0] != PERCENT then s[1..] else s[3..]);
    }
  }

  /** For a quoted value, in terms of what is sent: the two quotes and the escaping
      backslashes must not outnumber the plain bytes two to one. Unquoted values have none of
      them, so the condition always holds for those (`UnquotedAdmission`). */
  lemma QuotedAdmissionExact(value: bytes)
    requires |value| < WORD / 2 && Decode(value).Some? && value != [] && value[0] == QUOTE
    ensures |value| >= 2
    ensures var inner := value[1..|value| - 1];
      && UnquoteInner(inner, false).Some?
      && (AdmittedByDecodedSize(value) <==>
            inner == [] || 2 + Escapes(inner, false) <= 2 * PlainBytes(UnquoteInner(inner, false).value))
  {
    hide ExceedsEncodedLimit, AdmittedByDecodedSize;
    var inner := value[1..|value| - 1];
    AdmissionExact(value);
    QuotedLength(inner, false);
    EncodedLength(UnquoteInner(inner, false).value);
    if inner != [] {
      SomethingUnquoted(inner, false);
      SomethingUnescaped(UnquoteInner(inner, false).value);
    }
  }

  lemma {:induction false} SomethingUnquoted(s: bytes, escaped: bool)
    requires s != [] && UnquoteInner(s, escaped).Some?
    ensures UnquoteInner(s, escaped).value != []
  {
    if !escaped && s[0] == BACKSLASH && s[1..] != [] {
      SomethingUnquoted(s[1..], true);
    }
  }

  lemma SomethingUnescaped(s: bytes)
    requires s != [] && PathUnescape(s).Some?
    ensures PathUnescape(s).value != []
  {
  }

  lemma {:induction false} UnquotePlain(s: bytes)
    requires IsPrintable(s) && BACKSLASH !in s
    ensures UnquoteInner(s, false) == Some(s)
  {
    if s != [] {
      UnquotePlain(s[1..]);
      assert s == [s[0]] + s[1..];
    }
  }

  /** A witness: `"%41"` has no plain byte, decodes to one byte and is refused at limit one,
      being five bytes long. */
  lemma QuotedAdmissionStricter()
    ensures var value := [QUOTE, PERCENT, 0x34, 0x31, QUOTE];
      Decode(value) == Some([0x41]) && ExceedsEncodedLimit(|value|, 1)
  {
    var value := [QUOTE, PERCENT, 0x34, 0x31, QUOTE];
    var inner := [PERCENT, 0x34, 0x31];
    assert value[1..|value| - 1] == inner;
    UnquotePlain(inner);
    assert inner == [PERCENT, 0x34, 0x31] + [];
    UnescapePair(0x34, 0x31, []);
    UnescapeNothing();
    var letter: bytes := [0x41];
    assert letter + [] == letter;
    assert PathUnescape(inner) == Some(letter);
    assert Unquote(value) == Some(inner);
    Utf8.ValidAscii(letter);
  }
}
