/** HTTP headers: a map from names to lists of values, with one `Ce-` header for every
    context attribute. */
module HttpHeader {
  import opened Bytes
  import opened Event
  import opened Binding
  import opened HttpAttribute

  type Header = map<bytes, seq<bytes>>

  const CE: bytes := Ascii("Ce-")
  const CONTENT_TYPE: bytes := Ascii("Content-Type")
  const DASH: byte := 0x2D

  // ---------- header names ----------

  predicate IsTokenByte(c: byte) {
    || IsLowerAlphanumeric(LowerByte(c))
    || c in [0x21, 0x23, 0x24, 0x25, 0x26, 0x27, 0x2A, 0x2B, DASH, 0x2E, 0x5E, 0x5F, 0x60, 0x7C, 0x7E]
  }

  function UpperByte(c: byte): byte { if 0x61 <= c <= 0x7A then c - 0x20 else c }

  /** `textproto.CanonicalMIMEHeaderKey`, which `http.Header.Set` applies. */
  function CanonicalKey(s: bytes): (r: bytes)
    ensures |r| == |s|
    ensures forall i :: 0 <= i < |s| ==> LowerByte(r[i]) == LowerByte(s[i])
  {
    if exists i :: 0 <= i < |s| && !IsTokenByte(s[i]) then s
    else seq(|s|, i requires 0 <= i < |s| => if i == 0 || s[i - 1] == DASH then UpperByte(s[i]) else LowerByte(s[i]))
  }

  /** `cloudEventsHTTPAttributeName` accepts the header name. */
  predicate IsAttributeKey(key: bytes) {
    |key| >= 3 && EqualFold(key[..3], CE)
  }

  /** The attribute name of such a header, in lower case. */
  function NameOf(key: bytes): bytes {
    if |key| >= 3 then ToLower(key[3..]) else []
  }

  function AttributeKey(name: bytes): bytes {
    CanonicalKey(CE + name)
  }

  predicate Lower(name: bytes) {
    ToLower(name) == name
  }

  lemma FoldSame(a: bytes, b: bytes)
    requires |a| == |b| && forall i :: 0 <= i < |a| ==> LowerByte(a[i]) == LowerByte(b[i])
    ensures ToLower(a) == ToLower(b)
  {
    hide LowerByte;
  }

  lemma FoldApart(a: bytes, b: bytes, i: nat)
    requires i < |a| && i < |b| && LowerByte(a[i]) != LowerByte(b[i])
    ensures !EqualFold(a, b)
  {
    hide LowerByte;
    assert ToLower(a)[i] != ToLower(b)[i];
  }

  lemma NameOfKey(name: bytes)
    requires Lower(name)
    ensures IsAttributeKey(AttributeKey(name)) && NameOf(AttributeKey(name)) == name
    ensures |AttributeKey(name)[3..]| == |name|
    ensures !EqualFold(AttributeKey(name), CONTENT_TYPE)
  {
    hide CanonicalKey, ToLower, LowerByte, CE, CONTENT_TYPE;
    KeyBytes();
    var k, s := AttributeKey(name), CE + name;
    assert s[3..] == name && s[..3] == CE;
    FoldSame(k[3..], s[3..]);
    FoldSame(k[..3], s[..3]);
    assert LowerByte(k[1]) == LowerByte(s[1]);
    FoldApart(k, CONTENT_TYPE, 1);
  }

  lemma KeyBytes()
    ensures |CE| == 3 && |CONTENT_TYPE| == 12 && LowerByte(CE[1]) != LowerByte(CONTENT_TYPE[1])
  {
    assert CE[1] == 0x65 && CONTENT_TYPE[1] == 0x6F;
  }

  lemma ContentTypeKey()
    ensures !IsAttributeKey(CONTENT_TYPE)
  {
    hide ToLower, LowerByte, CE, CONTENT_TYPE, EqualFold;
    KeyBytes();
    FoldApart(CONTENT_TYPE[..3], CE, 1);
  }

  // ---------- encoding ----------

  /** One single-valued header for every text. */
  function AttributeHeaders(m: map<bytes, bytes>): Header {
    var keys := set n | n in m :: AttributeKey(n);
    map k | k in keys && NameOf(k) in m :: [Encode(m[NameOf(k)])]
  }

  function ContentTypeHeader(contentType: bytes): Header {
    if contentType == [] then map[] else map[CONTENT_TYPE := [contentType]]
  }

  function EncodedHeader(env: Env, e: Event): Header {
    AttributeHeaders(ContextTexts(env, e.attributes)) + ContentTypeHeader(SentContentType(e))
  }

  /** No body and an empty body look the same to a reader. */
  function EncodedBody(e: Event): bytes {
    if e.data.Present? then e.data.bytes else []
  }

  predicate LowerNames(m: map<bytes, bytes>) {
    forall n :: n in m ==> Lower(n)
  }

  lemma AttributeHeadersLookup(m: map<bytes, bytes>)
    requires LowerNames(m)
    ensures var h := AttributeHeaders(m);
      && (forall n :: n in m ==> AttributeKey(n) in h && h[AttributeKey(n)] == [Encode(m[n])])
      && (forall k :: k in h ==>
            (IsAttributeKey(k) && NameOf(k) in m && k == AttributeKey(NameOf(k)) && !EqualFold(k, CONTENT_TYPE)))
  {
    hide CanonicalKey, AttributeKey, NameOf, IsAttributeKey, Encode, EqualFold, Lower, CONTENT_TYPE;
    forall n | n in m
      ensures NameOf(AttributeKey(n)) == n && IsAttributeKey(AttributeKey(n))
      ensures !EqualFold(AttributeKey(n), CONTENT_TYPE)
    {
      NameOfKey(n);
    }
  }

  /** Adding a text adds its header. */
  lemma AttributeHeadersAdd(m: map<bytes, bytes>, name: bytes, text: bytes)
    requires LowerNames(m) && Lower(name)
    ensures AttributeHeaders(m[name := text]) == AttributeHeaders(m)[AttributeKey(name) := [Encode(text)]]
    ensures LowerNames(m[name := text])
  {
    hide CanonicalKey, AttributeKey, NameOf, IsAttributeKey, Encode, EqualFold, AttributeHeaders, Lower, CONTENT_TYPE;
    AttributeHeadersLookup(m);
    AttributeHeadersLookup(m[name := text]);
    NameOfKey(name);
  }

  lemma NoAttributeHeaders()
    ensures AttributeHeaders(map[]) == map[]
  {
  }

  lemma ValidNamesLower(m: map<bytes, bytes>)
    requires forall n :: n in m ==> ValidName(n)
    ensures LowerNames(m)
  {
    forall n | n in m ensures Lower(n) {
      assert ValidName(n);
      assert forall i :: 0 <= i < |n| ==> LowerByte(n[i]) == n[i];
    }
  }

  // ---------- reading ----------

  function AttributeKeys(header: Header): set<bytes> {
    set k | k in header && IsAttributeKey(k)
  }

  /** No two headers name the same attribute. */
  predicate DistinctNames(header: Header) {
    forall j, k :: j in AttributeKeys(header) && k in AttributeKeys(header) && NameOf(j) == NameOf(k) ==> j == k
  }

  /** `k` is the one header that carries a content type, and it carries just one. */
  predicate SoleContentType(header: Header, k: bytes) {
    && k in header && EqualFold(k, CONTENT_TYPE) && |header[k]| == 1
    && forall j :: j in header && EqualFold(j, CONTENT_TYPE) && j != k ==> header[j] == []
  }

  predicate NoContentType(header: Header) {
    forall k :: k in header && EqualFold(k, CONTENT_TYPE) ==> header[k] == []
  }

  /** `None` when there is more than one value, else the value if there is one. */
  ghost function ContentTypeOf(header: Header): Option<Option<bytes>> {
    if NoContentType(header) then Some(None)
    else if exists k :: SoleContentType(header, k) then
      var k :| SoleContentType(header, k);
      Some(Some(header[k][0]))
    else None
  }

  lemma SoleContentTypeValue(header: Header, k: bytes)
    requires SoleContentType(header, k)
    ensures ContentTypeOf(header) == Some(Some(header[k][0]))
  {
    hide EqualFold;
    assert !NoContentType(header);
  }

  lemma ManyContentTypes(header: Header, j: bytes, k: bytes)
    requires j in header && k in header && EqualFold(j, CONTENT_TYPE) && EqualFold(k, CONTENT_TYPE)
    requires header[j] != [] && (if j == k then |header[k]| > 1 else header[k] != [])
    ensures ContentTypeOf(header) == None
  {
    hide EqualFold;
    if i :| SoleContentType(header, i) {
      assert false;
    }
  }

  /** `singleHeaderValue` for the content type: the names in any order, leaving at the second
      value. */
  method SingleContentType(header: Header) returns (value: bytes, count: nat)
    ensures ContentTypeOf(header) ==
      if count == 0 then Some(None) else if count == 1 then Some(Some(value)) else None
  {
    hide EqualFold, ContentTypeOf, SoleContentType;
    value, count := [], 0;
    ghost var holder: bytes := [];
    var remaining := header.Keys;
    while remaining != {}
      invariant remaining <= header.Keys && count <= 1
      invariant count == 0 ==> AllEmpty(header, header.Keys - remaining)
      invariant count == 1 ==> Holds(header, header.Keys - remaining, holder, value)
      decreases remaining
    {
      var candidate :| candidate in remaining;
      ghost var before, seen := count, header.Keys - remaining;
      if EqualFold(candidate, CONTENT_TYPE) {
        var values := header[candidate];
        for i := 0 to |values|
          invariant count == before + i <= 1
          invariant count == 1 ==> (if i == 1 then value == values[0] else Holds(header, seen, holder, value))
        {
          count := count + 1;
          if count > 1 {
            ManyContentTypes(header, if i == 0 then holder else candidate, candidate);
            return [], count;
          }
          value := values[i];
        }
        if |values| == 1 {
          holder := candidate;
        }
      }
      remaining := remaining - {candidate};
      assert header.Keys - remaining == seen + {candidate};
    }
    assert header.Keys - remaining == header.Keys;
    FoundContentType(header, holder, value, count);
  }

  predicate AllEmpty(header: Header, keys: set<bytes>) {
    forall k :: k in keys && k in header && EqualFold(k, CONTENT_TYPE) ==> header[k] == []
  }

  predicate Holds(header: Header, keys: set<bytes>, holder: bytes, value: bytes) {
    && holder in keys && holder in header && EqualFold(holder, CONTENT_TYPE) && header[holder] == [value]
    && AllEmpty(header, keys - {holder})
  }

  lemma FoundContentType(header: Header, holder: bytes, value: bytes, count: nat)
    requires count == 0 ==> AllEmpty(header, header.Keys)
    requires count == 1 ==> Holds(header, header.Keys, holder, value)
    ensures count == 0 ==> ContentTypeOf(header) == Some(None)
    ensures count == 1 ==> ContentTypeOf(header) == Some(Some(value))
  {
    hide EqualFold, ContentTypeOf;
    if count == 0 {
      assert ContentTypeOf(header) == Some(None) by { NoContentTypeValue(header); }
    } else if count == 1 {
      assert SoleContentType(header, holder);
      SoleContentTypeValue(header, holder);
    }
  }

  lemma NoContentTypeValue(header: Header)
    requires AllEmpty(header, header.Keys)
    ensures ContentTypeOf(header) == Some(None)
  {
    hide EqualFold;
    assert NoContentType(header);
  }
}
