/** Letters and digits as they are written out, and where they are in ASCII. */
module Alphabet {
  import opened Bytes

  const CAPITALS: bytes := Ascii("ABCDEFGHIJKLMNOPQRSTUVWXYZ")
  const SMALL: bytes := Ascii("abcdefghijklmnopqrstuvwxyz")
  const DIGITS: bytes := Ascii("0123456789")

  lemma CapitalAt()
    ensures |CAPITALS| == 26 && forall i :: 0 <= i < 26 ==> CAPITALS[i] == 0x41 + i as byte
  {
  }

  lemma SmallAt()
    ensures |SMALL| == 26 && forall i :: 0 <= i < 26 ==> SMALL[i] == 0x61 + i as byte
  {
  }

  lemma DigitAt()
    ensures |DIGITS| == 10 && forall i :: 0 <= i < 10 ==> DIGITS[i] == 0x30 + i as byte
  {
  }

  lemma Letters(c: byte)
    ensures c in CAPITALS <==> 0x41 <= c <= 0x5A
    ensures c in SMALL <==> 0x61 <= c <= 0x7A
  {
    hide CAPITALS, SMALL;
    CapitalAt();
    SmallAt();
    if 0x41 <= c <= 0x5A {
      assert c == CAPITALS[c as int - 0x41];
    }
    if 0x61 <= c <= 0x7A {
      assert c == SMALL[c as int - 0x61];
    }
  }

  lemma Decimals(c: byte)
    ensures c in DIGITS <==> 0x30 <= c <= 0x39
  {
    hide DIGITS;
    DigitAt();
    if 0x30 <= c <= 0x39 {
      assert c == DIGITS[c as int - 0x30];
    }
  }

  const MARKS: bytes := Ascii("!\"#$%&'()*+,-./")
  const SIGNS: bytes := Ascii(":;<=>?@[\\]^_`{|}~")

  /** The characters that print. */
  predicate Printing(c: byte) {
    c in CAPITALS || c in SMALL || c in DIGITS || c in MARKS || c in SIGNS
  }

  lemma Marks(c: byte)
    ensures c in MARKS <==> 0x21 <= c <= 0x2F
  {
    assert |MARKS| == 15 && forall i :: 0 <= i < 15 ==> MARKS[i] == 0x21 + i as byte;
    if 0x21 <= c <= 0x2F {
      assert c == MARKS[c as int - 0x21];
    }
  }

  lemma Signs(c: byte)
    ensures c in SIGNS <==> 0x3A <= c <= 0x40 || 0x5B <= c <= 0x60 || 0x7B <= c <= 0x7E
  {
    assert |SIGNS| == 17 && forall i :: 0 <= i < 7 ==> SIGNS[i] == 0x3A + i as byte;
    assert forall i :: 7 <= i < 13 ==> SIGNS[i] == 0x5B + (i - 7) as byte;
    assert forall i :: 13 <= i < 17 ==> SIGNS[i] == 0x7B + (i - 13) as byte;
    if 0x3A <= c <= 0x40 {
      assert c == SIGNS[c as int - 0x3A];
    } else if 0x5B <= c <= 0x60 {
      assert c == SIGNS[c as int - 0x54];
    } else if 0x7B <= c <= 0x7E {
      assert c == SIGNS[c as int - 0x6E];
    }
  }

  lemma PrintingExact(c: byte)
    ensures Printing(c) <==> 0x21 <= c <= 0x7E
  {
    hide CAPITALS, SMALL, DIGITS, MARKS, SIGNS;
    Letters(c);
    Decimals(c);
    Marks(c);
    Signs(c);
  }
}
