/** The trace-context checks on the `traceparent` and `tracestate` extensions. Each check
    splits its text and tests the pieces; each is proved to accept exactly the texts of a
    grammar that does not mention splitting (sections 3.2 and 3.3 of W3C Trace Context). */
module TraceContext {
  import opened Bytes
  import opened Alphabet

  const DASH: byte := 0x2D
  const COMMA: byte := 0x2C
  const EQUALS: byte := 0x3D
  const AT: byte := 0x40

  // ---------- traceparent ----------

  predicate IsLowerHex(c: byte) { 0x30 <= c <= 0x39 || 0x61 <= c <= 0x66 }

  predicate LowerHex(s: bytes) { forall i :: 0 <= i < |s| ==> IsLowerHex(s[i]) }

  predicate AllZero(s: bytes) { forall i :: 0 <= i < |s| ==> s[i] == 0x30 }

  /** `validTraceParent`. */
  predicate ValidTraceParent(value: bytes) {
    var parts := Split(value, DASH);
    && |parts| >= 4 && |parts[0]| == 2 && |parts[1]| == 32 && |parts[2]| == 16 && |parts[3]| == 2
    && (forall i :: 0 <= i < |parts| ==> parts[i] != [] && LowerHex(parts[i]))
    && parts[0] != [0x66, 0x66] && !AllZero(parts[1]) && !AllZero(parts[2])
    && (parts[0] == [0x30, 0x30] ==> |parts| == 4)
  }

  /** One or more non-empty fields of lowercase hexadecimal digits between dashes. */
  predicate HexFields(t: bytes) {
    && t != [] && t[0] != DASH && t[|t| - 1] != DASH
    && (forall i :: 0 <= i < |t| ==> IsLowerHex(t[i]) || t[i] == DASH)
    && (forall i :: 0 <= i < |t| - 1 ==> t[i] != DASH || t[i + 1] != DASH)
  }

  /** The same by position: version, trace id, parent id and flags at fixed offsets. */
  predicate Positioned(v: bytes) {
    && |v| >= 55
    && LowerHex(v[..2]) && v[2] == DASH
    && LowerHex(v[3..35]) && v[35] == DASH
    && LowerHex(v[36..52]) && v[52] == DASH
    && LowerHex(v[53..55])
    && v[..2] != [0x66, 0x66] && !AllZero(v[3..35]) && !AllZero(v[36..52])
    && if |v| == 55 then true else v[..2] != [0x30, 0x30] && v[55] == DASH && HexFields(v[56..])
  }

  predicate HexParts(parts: seq<bytes>) {
    forall i :: 0 <= i < |parts| ==> parts[i] != [] && LowerHex(parts[i])
  }

  lemma HexFieldsStep(t: bytes, n: nat)
    requires n < |t| && t[n] == DASH && DASH !in t[..n]
    ensures HexFields(t) <==> n > 0 && LowerHex(t[..n]) && HexFields(t[n + 1..])
  {
    var u := t[n + 1..];
    assert forall i :: 0 <= i < n ==> t[i] == t[..n][i] && t[i] != DASH;
    assert forall i :: 0 <= i < |u| ==> u[i] == t[i + n + 1];
    if n > 0 && LowerHex(t[..n]) && HexFields(u) {
      forall i | 0 <= i < |t| ensures IsLowerHex(t[i]) || t[i] == DASH {
        if i > n { assert t[i] == u[i - n - 1]; }
      }
      forall i | 0 <= i < |t| - 1 ensures t[i] != DASH || t[i + 1] != DASH {
        if i > n { assert t[i] == u[i - n - 1] && t[i + 1] == u[i - n]; }
        if i == n { assert t[i + 1] == u[0]; }
      }
      assert t[|t| - 1] == u[|u| - 1];
    }
    if HexFields(t) {
      assert u != [] && u[0] == t[n + 1] && u[|u| - 1] == t[|t| - 1];
    }
  }

  lemma HexPartsStep(first: bytes, rest: seq<bytes>)
    ensures HexParts([first] + rest) <==> first != [] && LowerHex(first) && HexParts(rest)
  {
    hide LowerHex;
    var parts := [first] + rest;
    assert parts[0] == first;
    assert forall i :: 0 <= i < |rest| ==> rest[i] == parts[i + 1];
    assert forall i :: 0 < i < |parts| ==> parts[i] == rest[i - 1];
  }

  lemma OneField(t: bytes)
    requires DASH !in t
    ensures HexFields(t) <==> t != [] && LowerHex(t)
  {
    assert forall i :: 0 <= i < |t| ==> t[i] != DASH;
  }

  lemma {:induction false} HexPartsMeaning(t: bytes)
    ensures HexParts(Split(t, DASH)) <==> HexFields(t)
    decreases |t|
  {
    hide LowerHex, HexFields, HexParts;
    var n := IndexOf(t, DASH);
    if n == |t| {
      OneField(t);
      HexPartsStep(t, []);
      EmptyHexParts();
      assert [t] + [] == [t];
    } else {
      HexPartsMeaning(t[n + 1..]);
      assert DASH !in t[..n];
      HexFieldsStep(t, n);
      HexPartsStep(t[..n], Split(t[n + 1..], DASH));
    }
  }

  lemma EmptyHexParts()
    ensures HexParts([])
  {
  }

  lemma SplitFirst(v: bytes, n: nat)
    requires n < |v| && v[n] == DASH && DASH !in v[..n]
    ensures Split(v, DASH) == [v[..n]] + Split(v[n + 1..], DASH)
  {
    IndexOfUnique(v, DASH, n);
  }

  lemma SplitAtFirst(v: bytes)
    requires |Split(v, DASH)| > 1
    ensures var n := |Split(v, DASH)[0]|;
      && n < |v| && v[n] == DASH && DASH !in v[..n] && Split(v, DASH)[0] == v[..n]
      && Split(v, DASH)[1..] == Split(v[n + 1..], DASH)
  {
    var n := IndexOf(v, DASH);
    var rest := Split(v[n + 1..], DASH);
    assert Split(v, DASH) == [v[..n]] + rest;
    assert ([v[..n]] + rest)[1..] == rest;
  }

  lemma LowerHexNoDash(s: bytes)
    requires LowerHex(s)
    ensures DASH !in s
  {
  }

  lemma {:induction false} LastPart(v: bytes)
    requires |Split(v, DASH)| == 1
    ensures Split(v, DASH)[0] == v
  {
  }

  /** The four fixed fields of a text laid out by position, and what its fifth field on is. */
  lemma GrammarParts(v: bytes)
    requires Positioned(v)
    ensures Split(v, DASH) == [v[..2], v[3..35], v[36..52], v[53..55]] + if |v| == 55 then [] else Split(v[56..], DASH)
  {
    hide Split, IndexOf, HexFields, AllZero, LowerHex;
    LowerHexNoDash(v[..2]); LowerHexNoDash(v[3..35]);
    SplitFirst(v, 2);
    var a := v[3..];
    assert a[..32] == v[3..35] && a[33..] == v[36..];
    SplitFirst(a, 32);
    GrammarEnd(v);
  }

  lemma GrammarEnd(v: bytes)
    requires Positioned(v)
    ensures Split(v[36..], DASH) == [v[36..52], v[53..55]] + if |v| == 55 then [] else Split(v[56..], DASH)
  {
    hide Split, IndexOf, HexFields, AllZero, LowerHex;
    LowerHexNoDash(v[36..52]); LowerHexNoDash(v[53..55]);
    var b := v[36..];
    assert b[..16] == v[36..52] && b[17..] == v[53..];
    SplitFirst(b, 16);
    var c := v[53..];
    assert c[..2] == v[53..55];
    if |v| == 55 {
      assert c == v[53..55];
      SplitWhole(c, DASH);
    } else {
      assert c[3..] == v[56..];
      SplitFirst(c, 2);
    }
  }

  /** The lengths of the first parts fix where the dashes are. */
  /** Part `k`, `n` bytes long, begins at offset `o` and is not the last one. */
  lemma PartAt(v: bytes, o: nat, parts: seq<bytes>, k: nat, n: nat)
    requires o <= |v| && k + 1 < |parts| && Split(v[o..], DASH) == parts[k..] && |parts[k]| == n
    ensures o + n < |v| && v[o + n] == DASH && parts[k] == v[o..o + n]
    ensures Split(v[o + n + 1..], DASH) == parts[k + 1..]
  {
    hide Split, IndexOf;
    var a := v[o..];
    assert parts[k..][0] == parts[k] && parts[k..][1..] == parts[k + 1..];
    SplitAtFirst(a);
    assert a[n + 1..] == v[o + n + 1..] && a[..n] == v[o..o + n];
  }

  lemma PartLast(v: bytes, o: nat, parts: seq<bytes>, k: nat)
    requires o <= |v| && k + 1 == |parts| && Split(v[o..], DASH) == parts[k..]
    ensures parts[k] == v[o..]
  {
    hide Split, IndexOf;
    assert parts[k..] == [parts[k]];
    LastPart(v[o..]);
  }

  lemma FixedSizes(v: bytes)
    requires ValidTraceParent(v)
    ensures var parts := Split(v, DASH);
      |parts| >= 4 && |parts[0]| == 2 && |parts[1]| == 32 && |parts[2]| == 16 && |parts[3]| == 2
  {
    hide Split, LowerHex, AllZero;
  }

  lemma PartsByPosition(v: bytes)
    requires ValidTraceParent(v)
    ensures |v| >= 55 && v[2] == DASH && v[35] == DASH && v[52] == DASH
    ensures var parts := Split(v, DASH);
      && parts[0] == v[..2] && parts[1] == v[3..35] && parts[2] == v[36..52] && parts[3] == v[53..55]
      && if |parts| == 4 then |v| == 55 else |v| > 55 && v[55] == DASH && parts[4..] == Split(v[56..], DASH)
  {
    hide Split, ValidTraceParent;
    var parts := Split(v, DASH);
    FixedSizes(v);
    assert v[0..] == v && parts[0..] == parts;
    PartAt(v, 0, parts, 0, 2);
    PartAt(v, 3, parts, 1, 32);
    PartAt(v, 36, parts, 2, 16);
    if |parts| == 4 {
      PartLast(v, 53, parts, 3);
      assert |v[53..]| == |v| - 53;
    } else {
      PartAt(v, 53, parts, 3, 2);
    }
  }

  lemma PositionedExact(v: bytes)
    ensures ValidTraceParent(v) <==> Positioned(v)
  {
    hide Split, LowerHex, AllZero, HexFields;
    if ValidTraceParent(v) {
      PartsByPosition(v);
      var parts := Split(v, DASH);
      if |parts| > 4 {
        assert HexParts(parts[4..]) by {
          assert forall i :: 0 <= i < |parts| - 4 ==> parts[4..][i] == parts[i + 4];
        }
        HexPartsMeaning(v[56..]);
      }
    }
    if Positioned(v) {
      GrammarParts(v);
      if |v| > 55 {
        HexPartsMeaning(v[56..]);
        var more := Split(v[56..], DASH);
        var parts := Split(v, DASH);
        assert forall i :: 4 <= i < |parts| ==> parts[i] == more[i - 4];
      }
    }
  }

  const HEX: bytes := Ascii("0123456789abcdef")
  const ZERO: bytes := Ascii("0")
  const DASHES: bytes := Ascii("-")

  /** Fields that each begin with a dash and are not empty. */
  predicate FurtherFields(t: bytes) {
    && t != [] && t[0] in DASHES && t[|t| - 1] in HEX
    && (forall i :: 0 <= i < |t| ==> t[i] in HEX || t[i] in DASHES)
    && (forall i :: 0 <= i < |t| - 1 ==> t[i] in DASHES ==> t[i + 1] in HEX)
  }

  /** The grammar: dashes at fixed offsets between small hexadecimal digits; the trace id and the
      parent id not all zero; version 00 ends there, others may go on with further fields, and
      version ff is invalid. */
  predicate TraceParentGrammar(v: bytes) {
    && |v| >= 55
    && (forall i :: 0 <= i < 55 ==> if i == 2 || i == 35 || i == 52 then v[i] in DASHES else v[i] in HEX)
    && v[..2] != Ascii("ff")
    && (exists i :: 3 <= i < 35 && v[i] !in ZERO) && (exists i :: 36 <= i < 52 && v[i] !in ZERO)
    && (|v| > 55 ==> v[..2] != Ascii("00") && FurtherFields(v[55..]))
  }

  lemma LowerHexExact(c: byte)
    ensures IsLowerHex(c) <==> c in HEX
  {
    assert forall i :: 0 <= i < 10 ==> HEX[i] == 0x30 + i as byte;
    assert forall i :: 10 <= i < 16 ==> HEX[i] == 0x61 + (i - 10) as byte;
    if IsLowerHex(c) {
      assert c == HEX[if c <= 0x39 then c as int - 0x30 else c as int - 0x57];
    }
  }

  lemma FurtherExact(t: bytes)
    requires t != []
    ensures FurtherFields(t) <==> t[0] == DASH && HexFields(t[1..])
  {
    hide HEX, DASHES, IsLowerHex;
    forall c ensures (IsLowerHex(c) <==> c in HEX) && (c in DASHES <==> c == DASH) && !IsLowerHex(DASH) {
      LowerHexExact(c);
      Dashes(c);
    }
    var u := t[1..];
    assert forall i :: 0 <= i < |u| ==> u[i] == t[i + 1];
    assert forall i :: 0 < i < |t| ==> t[i] == u[i - 1];
  }

  lemma Dashes(c: byte)
    ensures (c in DASHES <==> c == DASH) && !IsLowerHex(DASH) && (c in ZERO <==> c == 0x30)
  {
    assert DASHES == [DASH] && ZERO == [0x30];
  }

  lemma AllZeroExact(v: bytes, lo: nat, hi: nat)
    requires lo <= hi <= |v|
    ensures !AllZero(v[lo..hi]) <==> exists i :: lo <= i < hi && v[i] !in ZERO
  {
    hide ZERO;
    forall c ensures c in ZERO <==> c == 0x30 {
      Dashes(c);
    }
    assert forall i :: lo <= i < hi ==> v[lo..hi][i - lo] == v[i];
  }

  lemma LowerHexSlice(v: bytes, lo: nat, hi: nat)
    requires lo <= hi <= |v|
    ensures LowerHex(v[lo..hi]) <==> forall i :: lo <= i < hi ==> v[i] in HEX
  {
    hide HEX, IsLowerHex;
    forall c ensures IsLowerHex(c) <==> c in HEX {
      LowerHexExact(c);
    }
    var t := v[lo..hi];
    assert forall i :: lo <= i < hi ==> t[i - lo] == v[i];
    assert forall i :: 0 <= i < |t| ==> t[i] == v[i + lo];
  }

  /** The split check accepts exactly the texts of the grammar. */
  lemma TraceParentExact(v: bytes)
    ensures ValidTraceParent(v) <==> TraceParentGrammar(v)
  {
    hide ValidTraceParent, LowerHex, AllZero, HexFields, FurtherFields, HEX, DASHES, ZERO;
    PositionedExact(v);
    assert Ascii("ff") == [0x66, 0x66] && Ascii("00") == [0x30, 0x30];
    if |v| >= 55 {
      forall c ensures c in DASHES <==> c == DASH {
        Dashes(c);
      }
      LowerHexSlice(v, 0, 2);
      LowerHexSlice(v, 3, 35);
      LowerHexSlice(v, 36, 52);
      LowerHexSlice(v, 53, 55);
      AllZeroExact(v, 3, 35);
      AllZeroExact(v, 36, 52);
      assert v[0..2] == v[..2];
      if |v| > 55 {
        FurtherExact(v[55..]);
        assert v[55..][0] == v[55] && v[55..][1..] == v[56..];
      }
    }
  }

  /** Version 00 is exactly 55 bytes long. */
  lemma VersionZeroLength(v: bytes)
    requires ValidTraceParent(v) && v[..2] == [0x30, 0x30]
    ensures |v| == 55
  {
    TraceParentExact(v);
  }

  // ---------- tracestate ----------

  predicate IsPad(c: byte) { c == 0x20 || c == 0x09 }

  predicate AllPad(s: bytes) { forall i :: 0 <= i < |s| ==> IsPad(s[i]) }

  function TrimPadLeft(s: bytes): (r: bytes)
    ensures r != [] ==> !IsPad(r[0])
  {
    if s != [] && IsPad(s[0]) then TrimPadLeft(s[1..]) else s
  }

  function TrimPadRight(s: bytes): (r: bytes)
    ensures r != [] ==> !IsPad(r[|r| - 1])
    ensures |r| <= |s| && r == s[..|r|]
  {
    if s != [] && IsPad(s[|s| - 1]) then TrimPadRight(s[..|s| - 1]) else s
  }

  /** `strings.Trim(s, " \t")`. */
  function TrimPad(s: bytes): bytes { TrimPadRight(TrimPadLeft(s)) }

  predicate IsKeyByte(c: byte) {
    0x61 <= c <= 0x7A || 0x30 <= c <= 0x39 || c == 0x5F || c == DASH || c == 0x2A || c == 0x2F
  }

  predicate KeyPart(s: bytes) { forall i :: 0 <= i < |s| ==> IsKeyByte(s[i]) }

  predicate IsLower(c: byte) { 0x61 <= c <= 0x7A }

  /** `validTraceStateKey`. */
  predicate ValidKey(key: bytes) {
    if key == [] || |key| > 256 then false
    else if AT !in key then IsLower(key[0]) && KeyPart(key)
    else
      var n := IndexOf(key, AT);
      if n == |key| then false
      else
        var tenant, system := key[..n], key[n + 1..];
        && 0 < |tenant| <= 241 && 0 < |system| <= 14
        && (IsLower(tenant[0]) || 0x30 <= tenant[0] <= 0x39) && IsLower(system[0])
        && KeyPart(tenant) && KeyPart(system)
  }

  /** The bytes of a key. */
  predicate KeyLetter(c: byte) {
    c in SMALL || c in DIGITS || c in Ascii("_-*/")
  }

  predicate KeyLetters(s: bytes) { forall i :: 0 <= i < |s| ==> KeyLetter(s[i]) }

  /** A tenant and a system around an at sign. */
  predicate SystemKey(tenant: bytes, system: bytes) {
    && 0 < |tenant| <= 241 && 0 < |system| <= 14 && (tenant[0] in SMALL || tenant[0] in DIGITS)
    && system[0] in SMALL && KeyLetters(tenant) && KeyLetters(system)
  }

  /** A key by its parts: one that begins with a letter, or a tenant and a system. */
  ghost predicate KeyGrammar(key: bytes) {
    || (0 < |key| <= 256 && key[0] in SMALL && KeyLetters(key))
    || exists tenant, system :: key == tenant + Ascii("@") + system && SystemKey(tenant, system)
  }

  lemma KeyLetterExact(c: byte)
    ensures IsKeyByte(c) <==> KeyLetter(c)
    ensures IsLower(c) <==> c in SMALL
    ensures 0x30 <= c <= 0x39 <==> c in DIGITS
  {
    hide SMALL, DIGITS, CAPITALS;
    Letters(c);
    Decimals(c);
    assert Ascii("_-*/") == [0x5F, DASH, 0x2A, 0x2F];
  }

  lemma KeyPartExact(s: bytes)
    ensures KeyPart(s) <==> KeyLetters(s)
    ensures KeyLetters(s) ==> AT !in s
  {
    hide KeyLetter;
    forall c ensures IsKeyByte(c) <==> KeyLetter(c) {
      KeyLetterExact(c);
    }
  }

  /** The check of a cut key. */
  predicate CutKey(tenant: bytes, system: bytes) {
    && 0 < |tenant| <= 241 && 0 < |system| <= 14
    && (IsLower(tenant[0]) || 0x30 <= tenant[0] <= 0x39) && IsLower(system[0])
    && KeyPart(tenant) && KeyPart(system)
  }

  lemma CutKeyExact(tenant: bytes, system: bytes)
    ensures CutKey(tenant, system) <==> SystemKey(tenant, system)
    ensures SystemKey(tenant, system) ==> AT !in tenant
  {
    hide KeyPart, KeyLetters, IsLower, Ascii;
    KeyPartExact(tenant);
    KeyPartExact(system);
    if tenant != [] && system != [] {
      KeyLetterExact(tenant[0]);
      KeyLetterExact(system[0]);
    }
  }

  lemma CutAt(key: bytes, n: nat)
    requires n < |key| && key[n] == AT && AT !in key[..n]
    ensures ValidKey(key) <==> CutKey(key[..n], key[n + 1..])
  {
    hide KeyPart, IsLower, IndexOf;
    IndexOfUnique(key, AT, n);
    var tenant, system := key[..n], key[n + 1..];
    assert |key| == |tenant| + 1 + |system| && AT in key;
  }

  /** The cut at the at sign accepts exactly the keys of the grammar. */
  lemma KeyExact(key: bytes)
    ensures ValidKey(key) <==> KeyGrammar(key)
  {
    hide SystemKey, CutKey, ValidKey;
    assert Ascii("@") == [AT];
    if AT !in key {
      PlainKey(key);
    } else {
      var n := IndexOf(key, AT);
      assert AT !in key[..n] && key == key[..n] + [AT] + key[n + 1..];
      CutAt(key, n);
      CutKeyExact(key[..n], key[n + 1..]);
      KeyPartExact(key);
    }
    hide KeyLetters;
    if tenant, system :| key == tenant + Ascii("@") + system && SystemKey(tenant, system) {
      CutKeyExact(tenant, system);
      assert key[..|tenant|] == tenant && key[|tenant| + 1..] == system && key[|tenant|] == AT;
      CutAt(key, |tenant|);
    }
  }

  lemma PlainKey(key: bytes)
    requires AT !in key
    ensures ValidKey(key) <==> 0 < |key| <= 256 && key[0] in SMALL && KeyLetters(key)
  {
    hide KeyPart, KeyLetters, IsLower, Ascii;
    KeyPartExact(key);
    if key != [] {
      KeyLetterExact(key[0]);
    }
  }

  /** `validTraceStateValue`. */
  predicate ValidValue(value: bytes) {
    && 0 < |value| <= 256 && value[|value| - 1] != 0x20
    && forall i :: 0 <= i < |value| ==> 0x20 <= value[i] <= 0x7E && value[i] != COMMA && value[i] != EQUALS
  }

  /** The bytes of a value: the space and all that print but the comma and the equals sign. */
  predicate ValueLetter(c: byte) {
    (Printing(c) || c in Ascii(" ")) && c !in Ascii(",=")
  }

  lemma ValueLetterExact(c: byte)
    ensures 0x20 <= c <= 0x7E && c != COMMA && c != EQUALS <==> ValueLetter(c)
  {
    hide Printing;
    PrintingExact(c);
    assert Ascii(" ") == [0x20] && Ascii(",=") == [COMMA, EQUALS];
  }

  /** A value is such bytes and does not end in a space. */
  predicate ValueGrammar(value: bytes) {
    && 0 < |value| <= 256 && value[|value| - 1] !in Ascii(" ")
    && forall i :: 0 <= i < |value| ==> ValueLetter(value[i])
  }

  lemma ValueExact(value: bytes)
    ensures ValidValue(value) <==> ValueGrammar(value)
  {
    hide ValueLetter;
    assert Ascii(" ") == [0x20];
    forall i | 0 <= i < |value|
      ensures 0x20 <= value[i] <= 0x7E && value[i] != COMMA && value[i] != EQUALS <==> ValueLetter(value[i])
    {
      ValueLetterExact(value[i]);
    }
  }

  datatype Member = Member(key: bytes, value: bytes)

  /** `strings.Cut` of a trimmed list member at its first equals sign. */
  function CutMember(part: bytes): Option<Member> {
    var text := TrimPad(part);
    var n := IndexOf(text, EQUALS);
    if n == |text| then None else Some(Member(text[..n], text[n + 1..]))
  }

  predicate ValidMember(part: bytes) {
    var m := CutMember(part);
    m.Some? && ValidKey(m.value.key) && ValidValue(m.value.value)
  }

  function MemberOf(part: bytes): Member
    requires ValidMember(part)
  {
    CutMember(part).value
  }

  function MembersOf(parts: seq<bytes>): (ms: seq<Member>)
    requires forall i :: 0 <= i < |parts| ==> ValidMember(parts[i])
    ensures |ms| == |parts|
    ensures forall i :: 0 <= i < |parts| ==> ms[i] == MemberOf(parts[i])
  {
    seq(|parts|, i requires 0 <= i < |parts| => MemberOf(parts[i]))
  }

  predicate DistinctKeys(ms: seq<Member>) {
    forall i, j :: 0 <= i < j < |ms| ==> ms[i].key != ms[j].key
  }

  predicate Accepts(value: bytes) {
    && 0 < |value| <= 512 && !IsPad(value[0]) && !IsPad(value[|value| - 1])
    && var parts := Split(value, COMMA);
    && |parts| <= 32 && (forall i :: 0 <= i < |parts| ==> ValidMember(parts[i]))
    && DistinctKeys(MembersOf(parts))
  }

  /** `validTraceState`, with the keys it has seen. */
  method ValidTraceState(value: bytes) returns (ok: bool)
    ensures ok == Accepts(value)
  {
    hide ValidKey, ValidValue, Split, IndexOf, TrimPad;
    if value == [] || |value| > 512 {
      return false;
    }
    if IsPad(value[0]) || IsPad(value[|value| - 1]) {
      return false;
    }
    var parts := Split(value, COMMA);
    if |parts| > 32 {
      return false;
    }
    var seen: set<bytes> := {};
    for k := 0 to |parts|
      invariant forall i :: 0 <= i < k ==> ValidMember(parts[i])
      invariant forall i :: 0 <= i < k ==> MemberOf(parts[i]).key in seen
      invariant forall key :: key in seen ==> exists i :: 0 <= i < k && MemberOf(parts[i]).key == key
      invariant forall i, j :: 0 <= i < j < k ==> MemberOf(parts[i]).key != MemberOf(parts[j]).key
    {
      var m := CutMember(parts[k]);
      if m.None? || !ValidKey(m.value.key) || !ValidValue(m.value.value) {
        assert !ValidMember(parts[k]);
        return false;
      }
      assert ValidMember(parts[k]) && MemberOf(parts[k]) == m.value;
      if m.value.key in seen {
        var i :| 0 <= i < k && MemberOf(parts[i]).key == m.value.key;
        SameKey(value, i, k);
        return false;
      }
      seen := seen + {m.value.key};
    }
    assert DistinctKeys(MembersOf(parts));
    return true;
  }

  lemma SameKey(value: bytes, i: nat, k: nat)
    requires var parts := Split(value, COMMA);
      && i < k < |parts| && ValidMember(parts[i]) && ValidMember(parts[k])
      && MemberOf(parts[i]).key == MemberOf(parts[k]).key
    ensures !Accepts(value)
  {
    hide ValidMember, MemberOf, Split;
    var parts := Split(value, COMMA);
    if forall n :: 0 <= n < |parts| ==> ValidMember(parts[n]) {
      var ms := MembersOf(parts);
      assert ms[i].key == ms[k].key;
      assert !DistinctKeys(ms);
    }
  }

  // ---------- the grammar of tracestate ----------

  /** A list member with the optional white space around it. */
  datatype Item = Item(left: bytes, member: Member, right: bytes)

  function Plain(m: Member): bytes { m.key + [EQUALS] + m.value }

  function Render(item: Item): bytes { item.left + Plain(item.member) + item.right }

  predicate WellFormed(item: Item) {
    AllPad(item.left) && AllPad(item.right) && ValidKey(item.member.key) && ValidValue(item.member.value)
  }

  function Renders(items: seq<Item>): (r: seq<bytes>)
    ensures |r| == |items| && forall i :: 0 <= i < |items| ==> r[i] == Render(items[i])
  {
    seq(|items|, i requires 0 <= i < |items| => Render(items[i]))
  }

  function MembersIn(items: seq<Item>): (r: seq<Member>)
    ensures |r| == |items| && forall i :: 0 <= i < |items| ==> r[i] == items[i].member
  {
    seq(|items|, i requires 0 <= i < |items| => items[i].member)
  }

  /** `value` is the comma-separated list of `items`. */
  ghost predicate Lists(value: bytes, items: seq<Item>) {
    && 0 < |items| <= 32 && value == Join(Renders(items), COMMA)
    && (forall i :: 0 <= i < |items| ==> WellFormed(items[i]))
    && DistinctKeys(MembersIn(items))
  }

  /** Spaces and tabs. */
  predicate Padding(s: bytes) { forall i :: 0 <= i < |s| ==> s[i] in Ascii(" \t") }

  /** An item by the grammars of its parts. */
  ghost predicate ItemGrammar(item: Item) {
    && Padding(item.left) && Padding(item.right) && KeyGrammar(item.member.key) && ValueGrammar(item.member.value)
  }

  /** A list of at most 32 items with distinct keys, without outer white space. */
  ghost predicate TraceStateGrammar(value: bytes) {
    && 0 < |value| <= 512 && !Padding(value[..1]) && !Padding(value[|value| - 1..])
    && exists items ::
         && 0 < |items| <= 32 && value == Join(Renders(items), Ascii(",")[0])
         && (forall i :: 0 <= i < |items| ==> ItemGrammar(items[i]))
         && DistinctKeys(MembersIn(items))
  }

  lemma PaddingExact(s: bytes)
    ensures AllPad(s) <==> Padding(s)
  {
    assert Ascii(" \t") == [0x20, 0x09];
  }

  lemma ItemExact(item: Item)
    ensures WellFormed(item) <==> ItemGrammar(item)
  {
    hide AllPad, Padding, ValidKey, ValidValue, KeyGrammar, ValueGrammar;
    PaddingExact(item.left);
    PaddingExact(item.right);
    KeyExact(item.member.key);
    ValueExact(item.member.value);
  }

  lemma EdgesExact(value: bytes)
    requires value != []
    ensures Padding(value[..1]) <==> IsPad(value[0])
    ensures Padding(value[|value| - 1..]) <==> IsPad(value[|value| - 1])
  {
    hide Padding;
    PaddingExact(value[..1]);
    PaddingExact(value[|value| - 1..]);
  }

  lemma KeyBytes(key: bytes)
    requires ValidKey(key)
    ensures key != [] && !IsPad(key[0]) && COMMA !in key && EQUALS !in key
  {
    if AT in key {
      var n := IndexOf(key, AT);
      forall i | 0 <= i < |key| ensures key[i] != COMMA && key[i] != EQUALS {
        if i < n {
          assert key[..n][i] == key[i];
        } else if i > n {
          assert key[n + 1..][i - n - 1] == key[i];
        }
      }
      assert key[..n][0] == key[0];
    }
  }

  lemma {:induction false} TrimPadLeftOf(left: bytes, text: bytes)
    requires AllPad(left) && text != [] && !IsPad(text[0])
    ensures TrimPadLeft(left + text) == text
  {
    if left == [] {
      assert left + text == text;
    } else {
      assert (left + text)[1..] == left[1..] + text;
      TrimPadLeftOf(left[1..], text);
    }
  }

  lemma {:induction false} TrimPadRightOf(text: bytes, right: bytes)
    requires AllPad(right) && text != [] && !IsPad(text[|text| - 1])
    ensures TrimPadRight(text + right) == text
  {
    if right == [] {
      assert text + right == text;
    } else {
      var n := |right| - 1;
      assert (text + right)[..|text| + n] == text + right[..n];
      TrimPadRightOf(text, right[..n]);
    }
  }

  lemma PlainEdges(m: Member)
    requires ValidKey(m.key) && ValidValue(m.value)
    ensures var t := Plain(m); t != [] && !IsPad(t[0]) && !IsPad(t[|t| - 1]) && COMMA !in t
  {
    KeyBytes(m.key);
    var t := Plain(m);
    assert t[0] == m.key[0] && t[|t| - 1] == m.value[|m.value| - 1];
    assert COMMA !in m.value;
  }

  /** A rendered item is cut back to its member and holds no comma. */
  lemma CutRender(item: Item)
    requires WellFormed(item)
    ensures CutMember(Render(item)) == Some(item.member) && COMMA !in Render(item)
  {
    hide ValidKey, TrimPadLeft, TrimPadRight;
    var m := item.member;
    var text := Plain(m);
    PlainEdges(m);
    KeyBytes(m.key);
    assert Render(item) == item.left + (text + item.right);
    assert (text + item.right)[0] == text[0];
    TrimPadLeftOf(item.left, text + item.right);
    TrimPadRightOf(text, item.right);
    assert text[..|m.key|] == m.key && text[|m.key| + 1..] == m.value;
    IndexOfUnique(text, EQUALS, |m.key|);
  }

  lemma {:induction false} TrimPadLeftParts(s: bytes) returns (left: bytes)
    ensures AllPad(left) && s == left + TrimPadLeft(s)
  {
    if s != [] && IsPad(s[0]) {
      var l := TrimPadLeftParts(s[1..]);
      left := [s[0]] + l;
    } else {
      left := [];
    }
  }

  lemma {:induction false} TrimPadRightParts(s: bytes)
    ensures AllPad(s[|TrimPadRight(s)|..])
  {
    if s != [] && IsPad(s[|s| - 1]) {
      TrimPadRightParts(s[..|s| - 1]);
      var n := |TrimPadRight(s)|;
      assert s[n..] == s[..|s| - 1][n..] + [s[|s| - 1]];
    }
  }

  /** Every accepted part is an item of the grammar. */
  lemma PartIsItem(part: bytes) returns (item: Item)
    requires ValidMember(part)
    ensures WellFormed(item) && Render(item) == part && item.member == MemberOf(part)
  {
    hide ValidKey, ValidValue, TrimPadLeft, TrimPadRight;
    var m := CutMember(part).value;
    var text := TrimPad(part);
    var n := IndexOf(text, EQUALS);
    assert text == Plain(m);
    var left := TrimPadLeftParts(part);
    var inner := TrimPadLeft(part);
    TrimPadRightParts(inner);
    var right := inner[|text|..];
    assert inner == text + right;
    item := Item(left, m, right);
    assert part == left + (text + right);
    assert left + (text + right) == left + text + right;
  }

  lemma {:induction false} PartsAreItems(parts: seq<bytes>) returns (items: seq<Item>)
    requires forall i :: 0 <= i < |parts| ==> ValidMember(parts[i])
    ensures |items| == |parts| && Renders(items) == parts && MembersIn(items) == MembersOf(parts)
    ensures forall i :: 0 <= i < |items| ==> WellFormed(items[i])
  {
    hide ValidMember, WellFormed, Render, MemberOf;
    if parts == [] {
      items := [];
    } else {
      var item := PartIsItem(parts[0]);
      var rest := PartsAreItems(parts[1..]);
      items := [item] + rest;
      assert forall i :: 0 < i < |parts| ==> parts[i] == parts[1..][i - 1] && items[i] == rest[i - 1];
      assert forall i :: 0 <= i < |rest| ==> Render(rest[i]) == Renders(rest)[i];
      assert forall i :: 0 <= i < |rest| ==> MembersIn(rest)[i] == MembersOf(parts[1..])[i];
    }
  }

  lemma ListedParts(value: bytes, items: seq<Item>)
    requires Lists(value, items)
    ensures Split(value, COMMA) == Renders(items)
    ensures forall i :: 0 <= i < |items| ==> ValidMember(Renders(items)[i])
    ensures MembersOf(Renders(items)) == MembersIn(items)
  {
    hide ValidKey, ValidValue, CutMember, Render;
    var parts := Renders(items);
    forall i | 0 <= i < |items|
      ensures CutMember(parts[i]) == Some(items[i].member) && COMMA !in parts[i]
    {
      CutRender(items[i]);
    }
    SplitJoin(parts, COMMA);
  }

  /** The split, trim and cut loop accepts exactly the texts of the list grammar. */
  lemma TraceStateExact(value: bytes)
    ensures Accepts(value) <==> TraceStateGrammar(value)
  {
    hide ValidMember, WellFormed, ItemGrammar, Split, Join, Padding;
    assert Ascii(",")[0] == COMMA;
    if value != [] {
      EdgesExact(value);
    }
    forall item ensures WellFormed(item) <==> ItemGrammar(item) {
      ItemExact(item);
    }
    if Accepts(value) {
      var parts := Split(value, COMMA);
      var items := PartsAreItems(parts);
      JoinSplit(value, COMMA);
      assert Lists(value, items);
    }
    if TraceStateGrammar(value) {
      var items :| && 0 < |items| <= 32 && value == Join(Renders(items), Ascii(",")[0])
                   && (forall i :: 0 <= i < |items| ==> ItemGrammar(items[i]))
                   && DistinctKeys(MembersIn(items));
      assert Lists(value, items);
      ListedParts(value, items);
    }
  }

  function Plains(ms: seq<Member>): (r: seq<bytes>)
    ensures |r| == |ms| && forall i :: 0 <= i < |ms| ==> r[i] == Plain(ms[i])
  {
    seq(|ms|, i requires 0 <= i < |ms| => Plain(ms[i]))
  }

  /** The key and value list behind an accepted text. */
  function TraceStateList(value: bytes): seq<Member>
    requires Accepts(value)
  {
    MembersOf(Split(value, COMMA))
  }

  lemma {:induction false} JoinShrinks(a: seq<bytes>, b: seq<bytes>)
    requires |a| == |b| > 0 && forall i :: 0 <= i < |a| ==> |a[i]| <= |b[i]|
    ensures |Join(a, COMMA)| <= |Join(b, COMMA)|
  {
    if |a| > 1 {
      JoinShrinks(a[1..], b[1..]);
    }
  }

  lemma {:induction false} JoinEdges(a: seq<bytes>)
    requires |a| > 0 && forall i :: 0 <= i < |a| ==> a[i] != []
    ensures var s := Join(a, COMMA);
      s != [] && s[0] == a[0][0] && s[|s| - 1] == a[|a| - 1][|a[|a| - 1]| - 1]
  {
    if |a| > 1 {
      JoinEdges(a[1..]);
    }
  }

  /** Rejoining the trimmed members is accepted again and means the same list. */
  lemma Rejoin(value: bytes)
    requires Accepts(value)
    ensures var text := Join(Plains(TraceStateList(value)), COMMA);
      Accepts(text) && TraceStateList(text) == TraceStateList(value)
  {
    hide ValidMember, WellFormed, Split, Join, Plain, Render, ValidKey, ValidValue, MemberOf;
    var parts := Split(value, COMMA);
    var ms := TraceStateList(value);
    var items := PartsAreItems(parts);
    JoinSplit(value, COMMA);
    var bare := seq(|ms|, i requires 0 <= i < |ms| => Item([], ms[i], []));
    var text := Join(Plains(ms), COMMA);
    BareItems(items, ms, bare);
    assert Lists(text, bare);
    JoinShrinks(Plains(ms), parts);
    JoinEdges(Plains(ms));
    ListedParts(text, bare);
    assert MembersIn(bare) == ms;
    PlainEdges(ms[0]);
    PlainEdges(ms[|ms| - 1]);
  }

  lemma BareItems(items: seq<Item>, ms: seq<Member>, bare: seq<Item>)
    requires MembersIn(items) == ms && |bare| == |ms|
    requires forall i :: 0 <= i < |items| ==> WellFormed(items[i])
    requires forall i :: 0 <= i < |bare| ==> bare[i] == Item([], ms[i], [])
    ensures Renders(bare) == Plains(ms)
    ensures forall i :: 0 <= i < |bare| ==> WellFormed(bare[i])
    ensures forall i :: 0 <= i < |ms| ==> ValidKey(ms[i].key) && ValidValue(ms[i].value)
    ensures forall i :: 0 <= i < |ms| ==> |Plains(ms)[i]| <= |Renders(items)[i]| && Plains(ms)[i] != []
  {
    hide ValidKey, ValidValue;
    forall i | 0 <= i < |ms| ensures Render(bare[i]) == Plain(ms[i]) && items[i].member == ms[i] {
      assert MembersIn(items)[i] == ms[i];
      assert [] + Plain(ms[i]) + [] == Plain(ms[i]);
    }
  }
}
