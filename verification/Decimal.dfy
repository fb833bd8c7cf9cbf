/** Decimal integers as `strconv` writes and reads them. */
module Decimal {
  import opened Bytes
  import opened JsonText

  function FormatNat(n: nat): (s: bytes)
    ensures s != [] && forall i :: 0 <= i < |s| ==> IsDigit(s[i])
    ensures s[0] == ZERO ==> n == 0 && |s| == 1
  {
    if n < 10 then [(0x30 + n) as byte] else FormatNat(n / 10) + [(0x30 + n % 10) as byte]
  }

  /** `strconv.FormatInt(n, 10)`. */
  function FormatInt(n: int): bytes {
    if n < 0 then [MINUS] + FormatNat(-n) else FormatNat(n)
  }

  predicate AllDigits(s: bytes) { forall i :: 0 <= i < |s| ==> IsDigit(s[i]) }

  function DigitsValue(s: bytes): nat
    requires AllDigits(s)
  {
    if s == [] then 0 else DigitsValue(s[..|s| - 1]) * 10 + (s[|s| - 1] as int - 0x30)
  }

  /** `strconv.ParseInt(s, 10, 32)`. */
  function ParseInt32(s: bytes): Option<int> {
    var digits := if s != [] && (s[0] == MINUS || s[0] == 0x2B) then s[1..] else s;
    if digits == [] || !AllDigits(digits) then None
    else
      var n: int := DigitsValue(digits);
      var v := if s[0] == MINUS then -n else n;
      if -2147483648 <= v <= 2147483647 then Some(v) else None
  }

  lemma ParseRange(s: bytes)
    ensures ParseInt32(s).Some? ==> -2147483648 <= ParseInt32(s).value <= 2147483647 && s != []
  {
  }

  lemma {:induction false} DigitsValueOfFormat(n: nat)
    ensures DigitsValue(FormatNat(n)) == n
  {
    var s := FormatNat(n);
    if n < 10 {
      assert s[..0] == [];
    } else {
      DigitsValueOfFormat(n / 10);
      assert s[..|s| - 1] == FormatNat(n / 10);
    }
  }

  /** Every 32-bit integer is read back from its text. */
  lemma ParseFormat(v: int)
    requires -2147483648 <= v <= 2147483647
    ensures ParseInt32(FormatInt(v)) == Some(v)
  {
    hide FormatNat;
    if v < 0 {
      DigitsValueOfFormat(-v);
      assert FormatInt(v)[1..] == FormatNat(-v);
    } else {
      DigitsValueOfFormat(v);
      assert IsDigit(FormatNat(v)[0]);
    }
  }

  lemma {:induction false} DigitRun(s: bytes, i: nat)
    requires i <= |s| && forall k :: i <= k < |s| ==> IsDigit(s[k])
    ensures DigitEnd(s, i) == |s|
    decreases |s| - i
  {
    if i < |s| {
      DigitRun(s, i + 1);
    }
  }

  /** The text of an integer is a JSON number. */
  lemma FormatIsNumber(v: int)
    ensures NumberEnd(FormatInt(v), 0) == Some(|FormatInt(v)|)
  {
    hide FormatNat;
    var s := FormatInt(v);
    var d := if v < 0 then 1 else 0;
    assert s[d..] == FormatNat(if v < 0 then -v else v);
    assert forall k :: d <= k < |s| ==> s[k] == s[d..][k - d];
    DigitRun(s, d);
    assert IntegerEnd(s, 0) == Some(|s|);
  }

  lemma FormatIsDocument(v: int)
    ensures var s := FormatInt(v); ParseDocument(s) == Some(Document(Number(s), s))
  {
    hide NumberEnd, FormatNat;
    var s := FormatInt(v);
    FormatIsNumber(v);
    assert s[0] == MINUS || IsDigit(s[0]);
    assert SpaceEnd(s, 0) == 0 && SpaceEnd(s, |s|) == |s|;
    assert s[0..|s|] == s;
  }

  lemma FormatIsAscii(v: int)
    ensures IsAscii(FormatInt(v))
  {
  }

  lemma FormatInjective(a: nat, b: nat)
    requires FormatInt(a) == FormatInt(b)
    ensures a == b
  {
    hide DigitsValue, FormatNat;
    DigitsValueOfFormat(a);
    DigitsValueOfFormat(b);
  }
}
