/** UTF-8 as `unicode/utf8` reads and writes it (section 3 of RFC 3629). */
module Utf8 {
  import opened Bytes

  type Scalar = r: int | 0 <= r < 0xD800 || 0xE000 <= r < 0x110000

  const REPLACEMENT: Scalar := 0xFFFD

  predicate Continuation(b: byte) { 0x80 <= b <= 0xBF }

  /** The smallest and largest second byte that may follow a three- or four-byte lead. */
  function SecondLow(lead: byte): byte {
    if lead == 0xE0 then 0xA0 else if lead == 0xF0 then 0x90 else 0x80
  }

  function SecondHigh(lead: byte): byte {
    if lead == 0xED then 0x9F else if lead == 0xF4 then 0x8F else 0xBF
  }

  /** The width of the well-formed encoding that `s` begins with; 0 when there is none. */
  function Width(s: bytes): (n: nat)
    ensures n <= 4 && n <= |s|
  {
    if |s| >= 1 && s[0] < 0x80 then 1
    else if |s| >= 2 && 0xC2 <= s[0] <= 0xDF && Continuation(s[1]) then 2
    else if |s| >= 3 && 0xE0 <= s[0] <= 0xEF && SecondLow(s[0]) <= s[1] <= SecondHigh(s[0])
         && Continuation(s[2]) then 3
    else if |s| >= 4 && 0xF0 <= s[0] <= 0xF4 && SecondLow(s[0]) <= s[1] <= SecondHigh(s[0])
         && Continuation(s[2]) && Continuation(s[3]) then 4
    else 0
  }

  /** The scalar value of the encoding that `s` begins with. */
  function Value(s: bytes): (r: Scalar)
    requires Width(s) > 0
  {
    match Width(s)
    case 1 => s[0] as int
    case 2 => (s[0] as int - 0xC0) * 64 + (s[1] as int - 0x80)
    case 3 => (s[0] as int - 0xE0) * 4096 + (s[1] as int - 0x80) * 64 + (s[2] as int - 0x80)
    case _ => (s[0] as int - 0xF0) * 262144 + (s[1] as int - 0x80) * 4096
              + (s[2] as int - 0x80) * 64 + (s[3] as int - 0x80)
  }

  function Encode(r: Scalar): (s: bytes)
    ensures 1 <= |s| <= 4
  {
    if r < 0x80 then [r as byte]
    else if r < 0x800 then [(0xC0 + r / 64) as byte, (0x80 + r % 64) as byte]
    else if r < 0x10000 then
      [(0xE0 + r / 4096) as byte, (0x80 + r / 64 % 64) as byte, (0x80 + r % 64) as byte]
    else
      [(0xF0 + r / 262144) as byte, (0x80 + r / 4096 % 64) as byte,
       (0x80 + r / 64 % 64) as byte, (0x80 + r % 64) as byte]
  }

  predicate Valid(s: bytes)
    decreases |s|
  {
    s == [] || (Width(s) > 0 && Valid(s[Width(s)..]))
  }

  /** A width, and the value behind it, depend on the bytes of that encoding alone. */
  lemma WidthLocal(s: bytes, t: bytes)
    requires Width(s) > 0 && Width(s) <= |t| && t[..Width(s)] == s[..Width(s)]
    ensures Width(t) == Width(s) && Value(t) == Value(s)
  {
    var n := Width(s);
    assert forall i :: 0 <= i < n ==> t[i] == t[..n][i] == s[..n][i] == s[i];
  }

  lemma SixBitDigits(high: nat, low: nat)
    requires low < 64
    ensures (high * 64 + low) / 64 == high && (high * 64 + low) % 64 == low
  {
  }

  lemma Quotients(r: nat)
    ensures r / 64 / 64 == r / 4096 && r / 4096 / 64 == r / 262144
  {
  }

  /** Writing the scalar value that was read gives back the bytes it was read from. */
  lemma EncodeValue(s: bytes)
    requires Width(s) > 0
    ensures Encode(Value(s)) == s[..Width(s)]
  {
    match Width(s)
    case 1 =>
    case 2 =>
      SixBitDigits(s[0] as int - 0xC0, s[1] as int - 0x80);
    case 3 => EncodeValue3(s);
    case _ => EncodeValue4(s);
  }

  lemma EncodeValue3(s: bytes)
    requires Width(s) == 3
    ensures Encode(Value(s)) == s[..3]
  {
    var a, b, c := s[0] as int - 0xE0, s[1] as int - 0x80, s[2] as int - 0x80;
    var r := Value(s);
    assert r == (a * 64 + b) * 64 + c;
    SixBitDigits(a * 64 + b, c);
    SixBitDigits(a, b);
    Quotients(r);
    assert r >= 0x800;
  }

  lemma EncodeValue4(s: bytes)
    requires Width(s) == 4
    ensures Encode(Value(s)) == s[..4]
  {
    var a, b, c, d := s[0] as int - 0xF0, s[1] as int - 0x80, s[2] as int - 0x80, s[3] as int - 0x80;
    var r := Value(s);
    assert r == ((a * 64 + b) * 64 + c) * 64 + d;
    SixBitDigits((a * 64 + b) * 64 + c, d);
    SixBitDigits(a * 64 + b, c);
    SixBitDigits(a, b);
    Quotients(r);
    assert r >= 0x10000;
  }

  /** What is written is well formed, whatever follows it. */
  lemma WidthEncode(r: Scalar, rest: bytes)
    ensures Width(Encode(r) + rest) == |Encode(r)|
  {
    var s := Encode(r);
    var t := s + rest;
    assert forall i :: 0 <= i < |s| ==> t[i] == s[i];
  }

  lemma ValidEncode(r: Scalar, rest: bytes)
    requires Valid(rest)
    ensures Valid(Encode(r) + rest)
  {
    WidthEncode(r, rest);
    assert (Encode(r) + rest)[|Encode(r)|..] == rest;
  }

  lemma {:induction false} ValidAscii(s: bytes)
    requires IsAscii(s)
    ensures Valid(s)
  {
    if s != [] {
      ValidAscii(s[1..]);
    }
  }

  /** The bytes of a sequence of characters. */
  function EncodeAll(rs: seq<Scalar>): bytes {
    if rs == [] then [] else Encode(rs[0]) + EncodeAll(rs[1..])
  }

  lemma EncodeInjective(a: Scalar, b: Scalar)
    requires Encode(a) == Encode(b)
    ensures a == b
  {
    Written(a);
    Written(b);
    hide Encode;
  }

  /** The number that the bytes of an encoding write, and how many there are. */
  lemma Written(r: Scalar)
    ensures var s := Encode(r);
      && (|s| == 1 ==> r == s[0] as int)
      && (|s| == 2 ==> r == (s[0] as int - 0xC0) * 64 + (s[1] as int - 0x80))
      && (|s| == 3 ==> r == ((s[0] as int - 0xE0) * 64 + (s[1] as int - 0x80)) * 64 + (s[2] as int - 0x80))
      && (|s| == 4 ==> r == (((s[0] as int - 0xF0) * 64 + (s[1] as int - 0x80)) * 64 + (s[2] as int - 0x80)) * 64
                            + (s[3] as int - 0x80))
  {
    Quotients(r);
    assert r == r / 64 * 64 + r % 64 && r / 64 == r / 64 / 64 * 64 + r / 64 % 64;
    assert r / 4096 == r / 4096 / 64 * 64 + r / 4096 % 64;
  }

  /** The first character of a text is the one that was written first. */
  lemma FirstScalar(r: Scalar, rest: bytes)
    ensures var s := Encode(r) + rest;
      s != [] && Width(s) == |Encode(r)| > 0 && Value(s) == r && s[Width(s)..] == rest
  {
    var s := Encode(r) + rest;
    WidthEncode(r, rest);
    assert |Encode(r)| > 0;
    hide Encode, Width;
    EncodeValue(s);
    assert s[..Width(s)] == Encode(r);
    EncodeInjective(Value(s), r);
  }

  lemma {:induction false} EncodeAllValid(rs: seq<Scalar>)
    ensures Valid(EncodeAll(rs))
  {
    hide Encode;
    if rs != [] {
      EncodeAllValid(rs[1..]);
      ValidEncode(rs[0], EncodeAll(rs[1..]));
    }
  }

  /** The characters of a valid text. */
  lemma {:induction false} ScalarsOf(s: bytes) returns (rs: seq<Scalar>)
    requires Valid(s)
    ensures EncodeAll(rs) == s
    decreases |s|
  {
    hide Encode, Value, Width;
    if s == [] {
      return [];
    }
    var n := Width(s);
    var rest := ScalarsOf(s[n..]);
    EncodeValue(s);
    rs := [Value(s)] + rest;
    assert rs[1..] == rest && s == s[..n] + s[n..];
  }

  /** A text is valid exactly when it is the bytes of some characters. */
  lemma ValidExact(s: bytes)
    ensures Valid(s) <==> exists rs :: EncodeAll(rs) == s
  {
    hide Valid, EncodeAll;
    if rs :| EncodeAll(rs) == s {
      EncodeAllValid(rs);
    }
    if Valid(s) {
      var rs := ScalarsOf(s);
    }
  }
}
