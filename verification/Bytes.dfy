/** Bytes, byte strings and the small string helpers that the codecs share.
    A Go `string` and a Go `[]byte` are both sequences of bytes here; only where nil and
    empty differ (Kafka keys, record values, header values, queue bodies) is a value an
    `Option<bytes>`. Every operation that can fail answers `None` when it rejects its input. */
module Bytes {

  newtype byte = b: int | 0 <= b < 256

  type bytes = seq<byte>

  datatype Option<+T> = None | Some(value: T) {
    predicate IsFailure() { None? }
    function PropagateFailure<U>(): Option<U> requires None? { None }
    function Extract(): T requires Some? { value }
  }

  /** The bytes of an ASCII literal (any other character would become a question mark). */
  function Ascii(s: string): (b: bytes)
    ensures |b| == |s|
    ensures forall i :: 0 <= i < |s| && s[i] as int < 128 ==> b[i] as int == s[i] as int
  {
    seq(|s|, i requires 0 <= i < |s| => if s[i] as int < 128 then s[i] as byte else 0x3F)
  }

  predicate IsAscii(s: bytes) {
    forall i :: 0 <= i < |s| ==> s[i] < 0x80
  }

  predicate HasPrefix(s: bytes, prefix: bytes) {
    |prefix| <= |s| && s[..|prefix|] == prefix
  }

  predicate HasSuffix(s: bytes, suffix: bytes) {
    |suffix| <= |s| && s[|s| - |suffix|..] == suffix
  }

  lemma PrefixMeaning(s: bytes, prefix: bytes)
    ensures HasPrefix(s, prefix) <==> exists rest :: s == prefix + rest
  {
    if HasPrefix(s, prefix) {
      assert s == prefix + s[|prefix|..];
    }
  }

  lemma SuffixMeaning(s: bytes, suffix: bytes)
    ensures HasSuffix(s, suffix) <==> exists rest :: s == rest + suffix
  {
    if HasSuffix(s, suffix) {
      assert s == s[..|s| - |suffix|] + suffix;
    }
    if rest :| s == rest + suffix {
      assert s[|rest|..] == suffix;
    }
  }

  function LowerByte(b: byte): byte {
    if 0x41 <= b <= 0x5A then b + 0x20 else b
  }

  /** ASCII lower-casing: the model keeps to ASCII header names. */
  function ToLower(s: bytes): (r: bytes)
    ensures |r| == |s|
    ensures forall i :: 0 <= i < |s| ==> r[i] == LowerByte(s[i])
  {
    seq(|s|, i requires 0 <= i < |s| => LowerByte(s[i]))
  }

  predicate EqualFold(a: bytes, b: bytes) {
    ToLower(a) == ToLower(b)
  }

  /** The position of the first `sep`, or the length when there is none. */
  function IndexOf(s: bytes, sep: byte): (n: nat)
    ensures n <= |s|
    ensures forall i :: 0 <= i < n ==> s[i] != sep
    ensures n < |s| ==> s[n] == sep
  {
    if s == [] || s[0] == sep then 0 else 1 + IndexOf(s[1..], sep)
  }

  /** `strings.Split` on a one-byte separator: never empty. */
  function Split(s: bytes, sep: byte): (parts: seq<bytes>)
    ensures |parts| > 0
    decreases |s|
  {
    var n := IndexOf(s, sep);
    if n == |s| then [s] else [s[..n]] + Split(s[n + 1..], sep)
  }

  function Join(parts: seq<bytes>, sep: byte): bytes
    requires |parts| > 0
  {
    if |parts| == 1 then parts[0] else parts[0] + [sep] + Join(parts[1..], sep)
  }

  lemma {:induction false} IndexOfUnique(s: bytes, sep: byte, n: nat)
    requires n <= |s|
    requires sep !in s[..n]
    requires n < |s| ==> s[n] == sep
    ensures IndexOf(s, sep) == n
  {
    assert forall i :: 0 <= i < n ==> s[i] == s[..n][i];
  }

  lemma SplitAt(first: bytes, rest: bytes, sep: byte)
    requires sep !in first
    ensures Split(first + [sep] + rest, sep) == [first] + Split(rest, sep)
  {
    hide IndexOf;
    var s := first + [sep] + rest;
    assert s[..|first|] == first && s[|first|] == sep && s[|first| + 1..] == rest;
    IndexOfUnique(s, sep, |first|);
  }

  lemma SplitWhole(s: bytes, sep: byte)
    requires sep !in s
    ensures Split(s, sep) == [s]
  {
    assert s[..|s|] == s;
    IndexOfUnique(s, sep, |s|);
  }

  lemma JoinStep(parts: seq<bytes>, sep: byte)
    requires |parts| > 1
    ensures Join(parts, sep) == parts[0] + [sep] + Join(parts[1..], sep)
  {
  }

  /** Splitting is the inverse of joining parts that are free of the separator, ... */
  lemma {:induction false} SplitJoin(parts: seq<bytes>, sep: byte)
    requires |parts| > 0
    requires forall i :: 0 <= i < |parts| ==> sep !in parts[i]
    ensures Split(Join(parts, sep), sep) == parts
  {
    hide Split;
    if |parts| == 1 {
      SplitWhole(parts[0], sep);
    } else {
      JoinStep(parts, sep);
      hide Join;
      SplitJoin(parts[1..], sep);
      SplitAt(parts[0], Join(parts[1..], sep), sep);
      assert parts == [parts[0]] + parts[1..];
    }
  }

  /** ... and the parts of a split are free of the separator and join to the input. */
  lemma {:induction false} JoinSplit(s: bytes, sep: byte)
    ensures Join(Split(s, sep), sep) == s
    ensures forall i :: 0 <= i < |Split(s, sep)| ==> sep !in Split(s, sep)[i]
    decreases |s|
  {
    var n := IndexOf(s, sep);
    if n < |s| {
      JoinSplit(s[n + 1..], sep);
      var rest := Split(s[n + 1..], sep);
      assert Split(s, sep)[1..] == rest;
      assert s == s[..n] + [sep] + s[n + 1..];
    }
  }
}
