/** Base64 as `encoding/base64` writes it and strictly reads it (sections 3.5, 4 and 5 of
    RFC 4648). A text is a run of six-bit digits, an alphabet and, for the standard
    encoding, padding; the digits alone already determine the bytes. */
module Base64 {
  import opened Bytes
  import opened Alphabet

  type Digit = d: int | 0 <= d < 64

  const PAD: byte := 0x3D
  const CR: byte := 0x0D
  const LF: byte := 0x0A

  // ---------- six-bit digits ----------

  /** The four digits of three bytes ... */
  function D0(x: byte): Digit { x as int / 4 }
  function D1(x: byte, y: byte): Digit { x as int % 4 * 16 + y as int / 16 }
  function D2(y: byte, z: byte): Digit { y as int % 16 * 4 + z as int / 64 }
  function D3(z: byte): Digit { z as int % 64 }

  /** ... and the three bytes of four digits. */
  function B0(p: Digit, q: Digit): byte { (p * 4 + q / 16) as byte }
  function B1(q: Digit, r: Digit): byte { (q % 16 * 16 + r / 4) as byte }
  function B2(r: Digit, u: Digit): byte { (r % 4 * 64 + u) as byte }

  /** The bits of the second and the third digit that a short last group leaves unused. */
  predicate NoBits1(q: Digit) { q % 16 == 0 }
  predicate NoBits2(r: Digit) { r % 4 == 0 }

  lemma Pack4(h: nat, l: nat)
    requires l < 4
    ensures (h * 4 + l) / 4 == h && (h * 4 + l) % 4 == l
  {
  }

  lemma Pack16(h: nat, l: nat)
    requires l < 16
    ensures (h * 16 + l) / 16 == h && (h * 16 + l) % 16 == l
  {
  }

  lemma Pack64(h: nat, l: nat)
    requires l < 64
    ensures (h * 64 + l) / 64 == h && (h * 64 + l) % 64 == l
  {
  }

  lemma RegroupFirst(x: byte, y: byte)
    ensures B0(D0(x), D1(x, y)) == x && NoBits1(D1(x, 0)) && D1(x, y) % 16 == y as int / 16
  {
    Pack16(x as int % 4, y as int / 16);
    Pack16(x as int % 4, 0);
  }

  lemma RegroupSecond(x: byte, y: byte, z: byte)
    ensures B1(D1(x, y), D2(y, z)) == y && NoBits2(D2(y, 0)) && D2(y, z) % 4 == z as int / 64
  {
    RegroupFirst(x, y);
    Pack4(y as int % 16, z as int / 64);
    Pack4(y as int % 16, 0);
    hide D1;
  }

  lemma RegroupThird(y: byte, z: byte)
    ensures B2(D2(y, z), D3(z)) == z
  {
    RegroupSecond(0, y, z);
    hide D2;
  }

  lemma Regroup(x: byte, y: byte, z: byte)
    ensures B0(D0(x), D1(x, y)) == x && B1(D1(x, y), D2(y, z)) == y && B2(D2(y, z), D3(z)) == z
    ensures NoBits1(D1(x, 0)) && NoBits2(D2(y, 0))
  {
    hide B0, B1, B2, D0, D1, D2, D3, NoBits1, NoBits2;
    RegroupFirst(x, y);
    RegroupSecond(x, y, z);
    RegroupThird(y, z);
  }

  lemma Resplit(p: Digit, q: Digit, r: Digit, u: Digit)
    ensures D0(B0(p, q)) == p && D1(B0(p, q), B1(q, r)) == q && D2(B1(q, r), B2(r, u)) == r && D3(B2(r, u)) == u
    ensures NoBits1(q) ==> D1(B0(p, q), 0) == q
    ensures NoBits2(r) ==> D2(B1(q, r), 0) == r
  {
    ByteParts(p, q, r, u);
    hide B0, B1, B2;
  }

  lemma ByteParts(p: Digit, q: Digit, r: Digit, u: Digit)
    ensures var x: int, y: int, z: int := B0(p, q) as int, B1(q, r) as int, B2(r, u) as int;
      && x / 4 == p && x % 4 == q / 16 && y / 16 == q % 16 && y % 16 == r / 4 && z / 64 == r % 4 && z % 64 == u
  {
    Pack4(p, q / 16);
    Pack16(q % 16, r / 4);
    Pack64(r % 4, u);
  }

  function DigitCount(n: nat): nat { n / 3 * 4 + (if n % 3 == 0 then 0 else n % 3 + 1) }

  function ByteCount(n: nat): nat { n / 4 * 3 + (if n % 4 == 0 then 0 else n % 4 - 1) }

  lemma DigitCountStep(n: nat)
    requires n >= 3
    ensures DigitCount(n) == 4 + DigitCount(n - 3)
  {
    assert n / 3 == 1 + (n - 3) / 3 && n % 3 == (n - 3) % 3;
  }

  lemma ByteCountStep(n: nat)
    requires n >= 4
    ensures ByteCount(n) == 3 + ByteCount(n - 4) && n % 4 == (n - 4) % 4
  {
    assert n / 4 == 1 + (n - 4) / 4;
  }

  function Digits(b: bytes): (q: seq<Digit>)
    ensures |q| == DigitCount(|b|)
  {
    if |b| == 0 then []
    else if |b| == 1 then [D0(b[0]), D1(b[0], 0)]
    else if |b| == 2 then [D0(b[0]), D1(b[0], b[1]), D2(b[1], 0)]
    else
      DigitCountStep(|b|);
      [D0(b[0]), D1(b[0], b[1]), D2(b[1], b[2]), D3(b[2])] + Digits(b[3..])
  }

  /** The bytes behind a run of digits; a lone digit and non-zero unused bits are refused. */
  function Undigits(q: seq<Digit>): (b: Option<bytes>)
    ensures b.Some? ==> |q| % 4 != 1 && |b.value| == ByteCount(|q|)
  {
    if |q| == 0 then Some([])
    else if |q| == 1 then None
    else if |q| == 2 then
      if NoBits1(q[1]) then Some([B0(q[0], q[1])]) else None
    else if |q| == 3 then
      if NoBits2(q[2]) then Some([B0(q[0], q[1]), B1(q[1], q[2])]) else None
    else
      ByteCountStep(|q|);
      var rest :- Undigits(q[4..]);
      Some([B0(q[0], q[1]), B1(q[1], q[2]), B2(q[2], q[3])] + rest)
  }

  lemma DigitsOfGroup(x: byte, y: byte, z: byte, rest: bytes)
    ensures Digits([x, y, z] + rest) == [D0(x), D1(x, y), D2(y, z), D3(z)] + Digits(rest)
  {
    hide D0, D1, D2, D3, DigitCount;
    var b := [x, y, z] + rest;
    assert b[3..] == rest && b[0] == x && b[1] == y && b[2] == z;
  }

  lemma UndigitsOfGroup(p: Digit, q: Digit, r: Digit, u: Digit, rest: seq<Digit>)
    ensures Undigits([p, q, r, u] + rest) ==
      var b := Undigits(rest); if b.None? then None else Some([B0(p, q), B1(q, r), B2(r, u)] + b.value)
  {
    hide B0, B1, B2, ByteCount, NoBits1, NoBits2;
    var all := [p, q, r, u] + rest;
    assert all[4..] == rest && all[0] == p && all[1] == q && all[2] == r && all[3] == u;
  }

  lemma {:induction false} UndigitsDigits(b: bytes)
    ensures Undigits(Digits(b)) == Some(b)
  {
    hide D0, D1, D2, D3, B0, B1, B2, NoBits1, NoBits2, DigitCount, ByteCount;
    if |b| >= 3 {
      hide Digits, Undigits;
      var x, y, z, rest := b[0], b[1], b[2], b[3..];
      UndigitsDigits(rest);
      Regroup(x, y, z);
      assert b == [x, y, z] + rest;
      DigitsOfGroup(x, y, z, rest);
      UndigitsOfGroup(D0(x), D1(x, y), D2(y, z), D3(z), Digits(rest));
    } else if |b| == 2 {
      Regroup(b[0], b[1], 0);
      assert b == [b[0], b[1]];
    } else if |b| == 1 {
      Regroup(b[0], 0, 0);
      assert b == [b[0]];
    }
  }

  lemma {:induction false} DigitsUndigits(q: seq<Digit>)
    requires Undigits(q).Some?
    ensures Digits(Undigits(q).value) == q
  {
    hide D0, D1, D2, D3, B0, B1, B2, DigitCount, ByteCount;
    if |q| >= 4 {
      hide Digits, Undigits;
      var p, r, u, v, rest := q[0], q[1], q[2], q[3], q[4..];
      assert q == [p, r, u, v] + rest;
      UndigitsOfGroup(p, r, u, v, rest);
      DigitsUndigits(rest);
      Resplit(p, r, u, v);
      DigitsOfGroup(B0(p, r), B1(r, u), B2(u, v), Undigits(rest).value);
    } else if |q| == 3 {
      Resplit(q[0], q[1], q[2], 0);
      assert q == [q[0], q[1], q[2]];
    } else if |q| == 2 {
      Resplit(q[0], q[1], 0, 0);
      assert q == [q[0], q[1]];
    }
  }

  /** Distinct byte strings have distinct digits. */
  lemma DigitsInjective(a: bytes, b: bytes)
    requires Digits(a) == Digits(b)
    ensures a == b
  {
    UndigitsDigits(a);
    UndigitsDigits(b);
  }

  // ---------- alphabets ----------

  /** Symbol of a digit; `url` selects the URL- and filename-safe alphabet of section 5. */
  function Symbol(d: Digit, url: bool): (c: byte)
    ensures c != PAD && c != CR && c != LF && c != 0x2E
  {
    if d < 26 then (0x41 + d) as byte
    else if d < 52 then (0x61 + d - 26) as byte
    else if d < 62 then (0x30 + d - 52) as byte
    else if d == 62 then (if url then 0x2D else 0x2B)
    else (if url then 0x5F else 0x2F)
  }

  function DigitOf(c: byte): Option<Digit> {
    if 0x41 <= c <= 0x5A then Some(c as int - 0x41)
    else if 0x61 <= c <= 0x7A then Some(c as int - 0x61 + 26)
    else if 0x30 <= c <= 0x39 then Some(c as int - 0x30 + 52)
    else if c == 0x2B then Some(62)
    else if c == 0x2F then Some(63)
    else None
  }

  function Symbols(q: seq<Digit>, url: bool): (s: bytes)
    ensures |s| == |q|
    ensures forall i :: 0 <= i < |q| ==> s[i] == Symbol(q[i], url)
  {
    seq(|q|, i requires 0 <= i < |q| => Symbol(q[i], url))
  }

  predicate InAlphabet(s: bytes) {
    forall i :: 0 <= i < |s| ==> DigitOf(s[i]).Some?
  }

  function DigitsOf(s: bytes): (q: seq<Digit>)
    requires InAlphabet(s)
    ensures |q| == |s|
    ensures forall i :: 0 <= i < |s| ==> q[i] == DigitOf(s[i]).value
  {
    seq(|s|, i requires 0 <= i < |s| => DigitOf(s[i]).value)
  }

  lemma SymbolsInjective(p: seq<Digit>, q: seq<Digit>, url: bool)
    requires Symbols(p, url) == Symbols(q, url)
    ensures p == q
  {
    forall i | 0 <= i < |p| ensures p[i] == q[i] {
      assert Symbols(p, url)[i] == Symbols(q, url)[i];
    }
  }

  lemma DigitsOfSymbols(q: seq<Digit>)
    ensures InAlphabet(Symbols(q, false)) && DigitsOf(Symbols(q, false)) == q
  {
  }

  lemma SymbolsOfDigits(s: bytes)
    requires InAlphabet(s)
    ensures Symbols(DigitsOf(s), false) == s
  {
  }

  // ---------- the standard padded encoding ----------

  function Padding(n: nat): bytes {
    if n % 3 == 0 then [] else if n % 3 == 1 then [PAD, PAD] else [PAD]
  }

  /** `base64.StdEncoding.EncodeToString`. */
  function Encode(b: bytes): (s: bytes) {
    Symbols(Digits(b), false) + Padding(|b|)
  }

  function PadCount(s: bytes): (n: nat)
    ensures n <= |s| && n <= 2
  {
    if |s| == 0 || s[|s| - 1] != PAD then 0
    else if |s| == 1 || s[|s| - 2] != PAD then 1
    else 2
  }

  predicate NoLineBreaks(s: bytes) {
    CR !in s && LF !in s
  }

  function DropLineBreaks(s: bytes): bytes {
    if s == [] then []
    else if s[0] == CR || s[0] == LF then DropLineBreaks(s[1..])
    else [s[0]] + DropLineBreaks(s[1..])
  }

  /** `base64.StdEncoding.Strict().DecodeString` once line breaks are gone. */
  function DecodeUnbroken(s: bytes): (b: Option<bytes>) {
    var body := s[..|s| - PadCount(s)];
    if |s| % 4 != 0 || !InAlphabet(body) then None else Undigits(DigitsOf(body))
  }

  /** `base64.StdEncoding.Strict().DecodeString`, which skips CR and LF anywhere. */
  function Decode(s: bytes): (b: Option<bytes>) {
    DecodeUnbroken(DropLineBreaks(s))
  }

  /** `base64DecodedLength`: the size that is admitted before anything is decoded. */
  function DecodedLength(s: bytes): int {
    |s| / 4 * 3 - PadCount(s)
  }

  lemma {:induction false} DropNothing(s: bytes)
    requires NoLineBreaks(s)
    ensures DropLineBreaks(s) == s
  {
    if s != [] {
      assert s[0] in s && forall x :: x in s[1..] ==> x in s;
      DropNothing(s[1..]);
      assert s == [s[0]] + s[1..];
    }
  }

  lemma EncodeParts(b: bytes)
    ensures var s := Encode(b);
      && PadCount(s) == |Padding(|b|)|
      && s[..|s| - PadCount(s)] == Symbols(Digits(b), false)
      && |s| % 4 == 0
  {
    hide Digits;
    var text := Symbols(Digits(b), false);
    var s := Encode(b);
    assert |text| > 0 ==> text[|text| - 1] != PAD;
    assert s == text + Padding(|b|);
    assert s[..|text|] == text;
    FourPerGroup(|b|);
  }

  lemma FourPerGroup(n: nat)
    ensures (DigitCount(n) + |Padding(n)|) % 4 == 0
  {
  }

  lemma EncodeUnbroken(b: bytes)
    ensures NoLineBreaks(Encode(b))
  {
    var text := Symbols(Digits(b), false);
    assert CR !in text && LF !in text;
  }

  /** Every byte string comes back from its text, ... */
  lemma DecodeEncode(b: bytes)
    ensures Decode(Encode(b)) == Some(b)
  {
    EncodeParts(b);
    EncodeUnbroken(b);
    DropNothing(Encode(b));
    DigitsOfSymbols(Digits(b));
    UndigitsDigits(b);
  }

  /** ... every accepted text without line breaks is the text of what it decodes to, and its
      admitted size is the exact number of bytes. */
  lemma EncodeDecode(s: bytes)
    requires NoLineBreaks(s) && Decode(s).Some?
    ensures Encode(Decode(s).value) == s
    ensures DecodedLength(s) == |Decode(s).value|
  {
    hide Digits, Undigits, DigitsOf, Symbols, DropLineBreaks;
    DropNothing(s);
    var k := PadCount(s);
    var body := s[..|s| - k];
    var b := Decode(s).value;
    DigitsUndigits(DigitsOf(body));
    SymbolsOfDigits(body);
    GroupsOfFour(|s|, k, |b|);
    assert s == body + s[|s| - k..];
    assert s[|s| - k..] == Padding(|b|) by {
      assert |Padding(|b|)| == k;
    }
  }

  lemma GroupsOfFour(n: nat, k: nat, m: nat)
    requires n % 4 == 0 && k <= 2 && k <= n
    requires m == (n - k) / 4 * 3 + (if (n - k) % 4 == 0 then 0 else (n - k) % 4 - 1)
    ensures |Padding(m)| == k && m == n / 4 * 3 - k
  {
    if k > 0 {
      assert (n - k) / 4 == n / 4 - 1 && (n - k) % 4 == 4 - k;
    }
  }

  /** Line breaks are the only freedom: without them equal bytes mean equal texts. */
  lemma TextsOneToOne(s: bytes, t: bytes)
    requires NoLineBreaks(s) && NoLineBreaks(t)
    requires Decode(s).Some? && Decode(s) == Decode(t)
    ensures s == t
  {
    EncodeDecode(s);
    EncodeDecode(t);
  }

  lemma AsciiText(b: bytes)
    ensures IsAscii(Encode(b))
  {
    var q := Digits(b);
    assert forall i :: 0 <= i < |q| ==> Symbols(q, false)[i] < 0x80;
  }

  /** Everything the decoder accepts is ASCII, line breaks included. */
  lemma AcceptedIsAscii(s: bytes)
    requires Decode(s).Some?
    ensures IsAscii(s)
  {
    hide Undigits;
    var t := DropLineBreaks(s);
    forall i | 0 <= i < |t| ensures t[i] < 0x80 {
      if i < |t| - PadCount(t) {
        assert t[..|t| - PadCount(t)][i] == t[i];
        assert DigitOf(t[..|t| - PadCount(t)][i]).Some?;
      }
    }
    DroppedAscii(s);
  }

  lemma {:induction false} DroppedAscii(s: bytes)
    requires IsAscii(DropLineBreaks(s))
    ensures IsAscii(s)
  {
    if s != [] {
      var rest := DropLineBreaks(s[1..]);
      if s[0] != CR && s[0] != LF {
        assert DropLineBreaks(s)[0] == s[0];
        assert forall i :: 0 <= i < |rest| ==> DropLineBreaks(s)[i + 1] == rest[i];
      }
      DroppedAscii(s[1..]);
      assert s == [s[0]] + s[1..];
    }
  }

  // ---------- the raw URL-safe encoding ----------

  /** `base64.RawURLEncoding.EncodeToString`. */
  function EncodeRawURL(b: bytes): (s: bytes)
    ensures 0x2E !in s
  {
    var s := Symbols(Digits(b), true);
    assert forall i :: 0 <= i < |s| ==> s[i] != 0x2E;
    s
  }

  lemma RawURLInjective(a: bytes, b: bytes)
    requires EncodeRawURL(a) == EncodeRawURL(b)
    ensures a == b
  {
    SymbolsInjective(Digits(a), Digits(b), true);
    DigitsInjective(a, b);
  }

  // ---------- what the digits are ----------

  /** The number that bytes write in base 256, and digits in base 64, after what came before. */
  function Number256(before: nat, b: bytes): nat
    decreases |b|
  {
    if b == [] then before else Number256(before * 256 + b[0] as int, b[1..])
  }

  function Number64(before: nat, q: seq<Digit>): nat
    decreases |q|
  {
    if q == [] then before else Number64(before * 64 + q[0], q[1..])
  }

  lemma GroupNumber(before: nat, x: byte, y: byte, z: byte)
    ensures ((((before * 64 + D0(x)) * 64 + D1(x, y)) * 64) + D2(y, z)) * 64 + D3(z) ==
      ((before * 256 + x as int) * 256 + y as int) * 256 + z as int
    ensures (before * 64 + D0(x)) * 64 + D1(x, 0) == (before * 256 + x as int) * 16
    ensures ((before * 64 + D0(x)) * 64 + D1(x, y)) * 64 + D2(y, 0) == ((before * 256 + x as int) * 256 + y as int) * 4
  {
  }

  lemma Number64Step(before: nat, p: Digit, rest: seq<Digit>)
    ensures Number64(before, [p] + rest) == Number64(before * 64 + p, rest)
  {
    assert ([p] + rest)[1..] == rest;
  }

  lemma Number256Step(before: nat, x: byte, rest: bytes)
    ensures Number256(before, [x] + rest) == Number256(before * 256 + x as int, rest)
  {
    assert ([x] + rest)[1..] == rest;
  }

  lemma NoMore(before: nat)
    ensures Number64(before, []) == before && Number256(before, []) == before
  {
  }

  lemma Number64Group(before: nat, p: Digit, q: Digit, r: Digit, rest: seq<Digit>)
    ensures Number64(before, [p, q] + rest) == Number64((before * 64 + p) * 64 + q, rest)
    ensures Number64(before, [p, q, r] + rest) == Number64(((before * 64 + p) * 64 + q) * 64 + r, rest)
  {
    hide Number64;
    assert [p, q] + rest == [p] + ([q] + rest) && [p, q, r] + rest == [p] + ([q] + ([r] + rest));
    Number64Step(before, p, [q] + rest);
    Number64Step(before, p, [q] + ([r] + rest));
    Number64Step(before * 64 + p, q, rest);
    Number64Step(before * 64 + p, q, [r] + rest);
    Number64Step((before * 64 + p) * 64 + q, r, rest);
  }

  lemma Number256Group(before: nat, x: byte, y: byte, rest: bytes)
    ensures Number256(before, [x, y] + rest) == Number256((before * 256 + x as int) * 256 + y as int, rest)
  {
    hide Number256;
    assert [x, y] + rest == [x] + ([y] + rest);
    Number256Step(before, x, [y] + rest);
    Number256Step(before * 256 + x as int, y, rest);
  }

  /** The digits write in base 64 the number that the bytes write in base 256, moved up by the
      bits that fill the last digit. */
  lemma {:induction false} DigitsNumber(before: nat, b: bytes)
    ensures Number64(before, Digits(b)) == Number256(before, b) * Fill(|b|)
    decreases |b|
  {
    hide Number64, Number256, Digits, Fill;
    if |b| == 0 {
      NoMore(before);
      NothingToFill();
    } else if |b| < 3 {
      ShortNumber(before, b);
    } else {
      LongNumber(before, b);
      DigitsNumber(((before * 256 + b[0] as int) * 256 + b[1] as int) * 256 + b[2] as int, b[3..]);
      FillStep(|b|);
    }
  }

  /** What the bits that fill the last digit multiply the number by. */
  function Fill(n: nat): nat { if n % 3 == 0 then 1 else if n % 3 == 1 then 16 else 4 }

  lemma FillStep(n: nat)
    requires n >= 3
    ensures Fill(n) == Fill(n - 3)
  {
    assert n % 3 == (n - 3) % 3;
  }

  lemma NothingToFill()
    ensures Fill(0) == 1 && Fill(1) == 16 && Fill(2) == 4 && Digits([]) == []
  {
  }

  lemma LongNumber(before: nat, b: bytes)
    requires |b| >= 3
    ensures var after := ((before * 256 + b[0] as int) * 256 + b[1] as int) * 256 + b[2] as int;
      && Number64(before, Digits(b)) == Number64(after, Digits(b[3..]))
      && Number256(before, b) == Number256(after, b[3..])
  {
    hide D0, D1, D2, D3, Number64, Number256;
    var x, y, z, q := b[0], b[1], b[2], Digits(b[3..]);
    GroupNumber(before, x, y, z);
    assert Digits(b) == [D0(x), D1(x, y), D2(y, z)] + ([D3(z)] + q);
    Number64Group(before, D0(x), D1(x, y), D2(y, z), [D3(z)] + q);
    Number64Step(((before * 64 + D0(x)) * 64 + D1(x, y)) * 64 + D2(y, z), D3(z), q);
    assert b == [x, y] + ([z] + b[3..]);
    Number256Group(before, x, y, [z] + b[3..]);
    Number256Step((before * 256 + x as int) * 256 + y as int, z, b[3..]);
  }

  lemma ShortNumber(before: nat, b: bytes)
    requires 0 < |b| < 3
    ensures Number64(before, Digits(b)) == Number256(before, b) * Fill(|b|)
  {
    hide D0, D1, D2, D3, Number64, Number256;
    var x, y := b[0], b[|b| - 1];
    GroupNumber(before, x, y, 0);
    if |b| == 1 {
      assert Digits(b) == [D0(x), D1(x, 0)] + [] && b == [x] + [];
      Number64Group(before, D0(x), D1(x, 0), 0, []);
      Number256Step(before, x, []);
      NoMore((before * 64 + D0(x)) * 64 + D1(x, 0));
      NoMore(before * 256 + x as int);
    } else {
      assert Digits(b) == [D0(x), D1(x, y), D2(y, 0)] + [] && b == [x, y] + [];
      Number64Group(before, D0(x), D1(x, y), D2(y, 0), []);
      Number256Group(before, x, y, []);
      NoMore(((before * 64 + D0(x)) * 64 + D1(x, y)) * 64 + D2(y, 0));
      NoMore((before * 256 + x as int) * 256 + y as int);
    }
  }

  lemma AlphabetSize()
    ensures |CAPITALS| == 26 && |SMALL| == 26 && |DIGITS| == 10
  {
  }

  lemma SymbolsWritten(d: Digit)
    ensures Symbol(d, false) == (CAPITALS + SMALL + DIGITS + Ascii("+/"))[d]
    ensures Symbol(d, true) == (CAPITALS + SMALL + DIGITS + Ascii("-_"))[d]
  {
    hide CAPITALS, SMALL, DIGITS;
    CapitalAt();
    SmallAt();
    DigitAt();
  }

  /** The two texts of some bytes: the digits in their alphabets, and for the standard one as
      many equals signs as fill the last group of four. */
  lemma TextsWritten(b: bytes)
    ensures |EncodeRawURL(b)| == |Digits(b)| && |Encode(b)| == (|b| + 2) / 3 * 4
    ensures forall i :: 0 <= i < |Digits(b)| ==>
      && EncodeRawURL(b)[i] == (CAPITALS + SMALL + DIGITS + Ascii("-_"))[Digits(b)[i]]
      && Encode(b)[i] == (CAPITALS + SMALL + DIGITS + Ascii("+/"))[Digits(b)[i]]
    ensures forall i :: |Digits(b)| <= i < |Encode(b)| ==> Encode(b)[i] in Ascii("=")
  {
    hide Digits, CAPITALS, SMALL, DIGITS;
    AlphabetSize();
    forall d: Digit
      ensures Symbol(d, false) == (CAPITALS + SMALL + DIGITS + Ascii("+/"))[d]
      ensures Symbol(d, true) == (CAPITALS + SMALL + DIGITS + Ascii("-_"))[d]
    {
      SymbolsWritten(d);
    }
    hide Symbol;
    assert Ascii("=") == [PAD];
  }
}
