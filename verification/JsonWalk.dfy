/** The depth and duplicate walk (`inspectJSON`, `inspectJSONValue`) over a decoder's tokens.
    The decoder delivers the tokens of the text it reads; a syntax error is the end of the
    stream. The walk itself is a recursive method that advances the shared decoder and keeps
    the names it has seen, proved against the function `Walk`, whose meaning on the tokens of
    a well-formed document is then stated without tokens. */
module JsonWalk {
  import opened Bytes
  import opened JsonText

  datatype Token = Delimiter(mark: byte) | Text(text: bytes) | Scalar

  function Tokens(v: Json): seq<Token>
    decreases v
  {
    match v
    case String(text) => [Text(text)]
    case Container(named, cs) => [Delimiter(Open(named))] + ChildTokens(cs, named) + [Delimiter(Close(named))]
    case _ => [Scalar]
  }

  function ChildTokens(cs: seq<Child>, named: bool): seq<Token>
    decreases cs
  {
    if cs == [] then []
    else (if named then [Text(cs[0].name)] else []) + Tokens(cs[0].value) + ChildTokens(cs[1..], named)
  }

  /** `Decoder.More`: another child follows. */
  predicate More(ts: seq<Token>) {
    ts != [] && ts[0] != Delimiter(RBRACE) && ts[0] != Delimiter(RBRACKET)
  }

  /** What is left of the tokens when the walk accepts. */
  function Walk(ts: seq<Token>, depth: nat, maxDepth: int, topLevel: bool): (r: Option<seq<Token>>)
    ensures r.Some? ==> |r.value| < |ts|
    decreases |ts|, 1
  {
    if ts == [] then None
    else if !ts[0].Delimiter? then Some(ts[1..])
    else if depth + 1 > maxDepth then None
    else WalkChildren(ts[1..], depth + 1, maxDepth, topLevel, ts[0].mark == LBRACE, {})
  }

  function WalkChildren(ts: seq<Token>, depth: nat, maxDepth: int, topLevel: bool, named: bool, seen: set<bytes>)
    : (r: Option<seq<Token>>)
    ensures r.Some? ==> |r.value| < |ts|
    decreases |ts|, 2
  {
    if ts == [] then None
    else if !More(ts) then Some(ts[1..])
    else if !named then
      var rest :- Walk(ts, depth, maxDepth, false);
      WalkChildren(rest, depth, maxDepth, topLevel, named, seen)
    else if !ts[0].Text? || (topLevel && ts[0].text in seen) then None
    else
      var rest :- Walk(ts[1..], depth, maxDepth, false);
      WalkChildren(rest, depth, maxDepth, topLevel, named, if topLevel then seen + {ts[0].text} else seen)
  }

  /** `inspectJSON`: one value and nothing behind it. */
  predicate Inspect(ts: seq<Token>, maxDepth: int) {
    maxDepth > 0 && Walk(ts, 0, maxDepth, true) == Some([])
  }

  // ---------- the walk as it is written ----------

  class Decoder {
    var rest: seq<Token>

    constructor (tokens: seq<Token>)
      ensures rest == tokens
    {
      rest := tokens;
    }

    method Next() returns (token: Option<Token>)
      modifies this
      ensures old(rest) == [] ==> token == None && rest == []
      ensures old(rest) != [] ==> token == Some(old(rest)[0]) && rest == old(rest)[1..]
    {
      if rest == [] {
        token := None;
      } else {
        token := Some(rest[0]);
        rest := rest[1..];
      }
    }
  }

  method InspectValue(decoder: Decoder, depth: nat, maxDepth: int, topLevel: bool) returns (ok: bool)
    modifies decoder
    ensures ok == Walk(old(decoder.rest), depth, maxDepth, topLevel).Some?
    ensures ok ==> decoder.rest == Walk(old(decoder.rest), depth, maxDepth, topLevel).value
    decreases |decoder.rest|
  {
    ghost var whole := Walk(decoder.rest, depth, maxDepth, topLevel);
    var token := decoder.Next();
    if token.None? {
      return false;
    }
    if !token.value.Delimiter? {
      return true;
    }
    var inner := depth + 1;
    if inner > maxDepth {
      return false;
    }
    if token.value.mark == LBRACE {
      var seen: set<bytes> := {};
      while More(decoder.rest)
        invariant |decoder.rest| < |old(decoder.rest)|
        invariant WalkChildren(decoder.rest, inner, maxDepth, topLevel, true, seen) == whole
        decreases |decoder.rest|
      {
        var name := decoder.Next();
        if !name.value.Text? {
          return false;
        }
        if topLevel {
          if name.value.text in seen {
            return false;
          }
          seen := seen + {name.value.text};
        }
        ok := InspectValue(decoder, inner, maxDepth, false);
        if !ok {
          return false;
        }
      }
    } else {
      while More(decoder.rest)
        invariant |decoder.rest| < |old(decoder.rest)|
        invariant WalkChildren(decoder.rest, inner, maxDepth, topLevel, false, {}) == whole
        decreases |decoder.rest|
      {
        ok := InspectValue(decoder, inner, maxDepth, false);
        if !ok {
          return false;
        }
      }
    }
    token := decoder.Next();
    return token.Some?;
  }

  method InspectJSON(tokens: seq<Token>, maxDepth: int) returns (ok: bool)
    ensures ok == Inspect(tokens, maxDepth)
  {
    if maxDepth <= 0 {
      return false;
    }
    var decoder := new Decoder(tokens);
    ok := InspectValue(decoder, 0, maxDepth, true);
    if !ok {
      return false;
    }
    var trailing := decoder.Next();
    return trailing.None?;
  }

  // ---------- what the walk decides ----------

  predicate DistinctNames(cs: seq<Child>) {
    forall i, j :: 0 <= i < j < |cs| ==> cs[i].name != cs[j].name
  }

  predicate NamesAvoid(cs: seq<Child>, seen: set<bytes>) {
    forall i :: 0 <= i < |cs| ==> cs[i].name !in seen
  }

  lemma {:induction false} WalkExact(v: Json, rest: seq<Token>, depth: nat, maxDepth: int, topLevel: bool)
    requires depth <= maxDepth
    ensures Walk(Tokens(v) + rest, depth, maxDepth, topLevel) ==
      if depth + Depth(v) <= maxDepth && (topLevel && v.Container? && v.named ==> DistinctNames(v.children))
      then Some(rest) else None
    decreases v, 1
  {
    if v.Container? {
      var ts := Tokens(v) + rest;
      var inner := ChildTokens(v.children, v.named) + [Delimiter(Close(v.named))] + rest;
      assert ts[1..] == inner;
      if depth + 1 <= maxDepth {
        WalkChildrenExact(v.children, v.named, rest, depth + 1, maxDepth, topLevel, {});
      }
    } else {
      assert (Tokens(v) + rest)[1..] == rest;
    }
  }

  lemma {:induction false} WalkChildrenExact(cs: seq<Child>, named: bool, rest: seq<Token>, depth: nat, maxDepth: int,
                                             topLevel: bool, seen: set<bytes>)
    requires depth <= maxDepth
    ensures
      WalkChildren(ChildTokens(cs, named) + [Delimiter(Close(named))] + rest, depth, maxDepth, topLevel, named, seen) ==
      if depth + ChildDepth(cs) <= maxDepth && (topLevel && named ==> DistinctNames(cs) && NamesAvoid(cs, seen))
      then Some(rest) else None
    decreases cs, 0
  {
    var ts := ChildTokens(cs, named) + [Delimiter(Close(named))] + rest;
    if cs == [] {
      assert ts == [Delimiter(Close(named))] + rest;
      assert ts[1..] == rest;
    } else {
      var c := cs[0];
      var after := ChildTokens(cs[1..], named) + [Delimiter(Close(named))] + rest;
      var head := if named then [Text(c.name)] else [];
      assert ts == head + (Tokens(c.value) + after);
      TokensBegin(c.value);
      WalkExact(c.value, after, depth, maxDepth, false);
      var seen' := if named && topLevel then seen + {c.name} else seen;
      WalkChildrenExact(cs[1..], named, rest, depth, maxDepth, topLevel, seen');
      if named {
        assert ts[1..] == Tokens(c.value) + after;
        SplitNames(cs, seen);
      } else {
        assert ts == Tokens(c.value) + after;
      }
    }
  }

  lemma TokensBegin(v: Json)
    ensures Tokens(v) != [] && More(Tokens(v))
  {
  }

  lemma SplitNames(cs: seq<Child>, seen: set<bytes>)
    requires cs != []
    ensures DistinctNames(cs) && NamesAvoid(cs, seen) <==>
      cs[0].name !in seen && DistinctNames(cs[1..]) && NamesAvoid(cs[1..], seen + {cs[0].name})
  {
    var tail := cs[1..];
    if cs[0].name !in seen && DistinctNames(tail) && NamesAvoid(tail, seen + {cs[0].name}) {
      forall i, j | 0 <= i < j < |cs| ensures cs[i].name != cs[j].name {
        assert cs[j] == tail[j - 1];
        assert i > 0 ==> cs[i] == tail[i - 1];
      }
      forall i | 0 <= i < |cs| ensures cs[i].name !in seen {
        assert i > 0 ==> cs[i] == tail[i - 1];
      }
    }
    if DistinctNames(cs) && NamesAvoid(cs, seen) {
      forall i | 0 <= i < |tail| ensures tail[i].name !in seen + {cs[0].name} {
        assert tail[i] == cs[i + 1];
      }
    }
  }

  /** On a well-formed document the walk accepts exactly when containers nest no deeper than
      the limit and a top-level object's names are distinct; nested duplicates are ignored. */
  lemma InspectDocument(v: Json, maxDepth: int)
    ensures Inspect(Tokens(v), maxDepth) <==>
      maxDepth > 0 && Depth(v) <= maxDepth && (v.Container? && v.named ==> DistinctNames(v.children))
  {
    if maxDepth > 0 {
      WalkExact(v, [], 0, maxDepth, true);
      assert Tokens(v) + [] == Tokens(v);
    }
  }

  lemma {:induction false} ChildDepthBound(cs: seq<Child>, n: int)
    ensures ChildDepth(cs) <= n <==> 0 <= n && forall i :: 0 <= i < |cs| ==> Depth(cs[i].value) <= n
  {
    if cs != [] {
      ChildDepthBound(cs[1..], n);
      if forall i :: 0 <= i < |cs| ==> Depth(cs[i].value) <= n {
        assert forall i :: 0 <= i < |cs[1..]| ==> cs[1..][i] == cs[i + 1];
      }
      if 0 <= n && Depth(cs[0].value) <= n && ChildDepth(cs[1..]) <= n {
        forall i | 0 <= i < |cs| ensures Depth(cs[i].value) <= n {
          assert i > 0 ==> cs[i] == cs[1..][i - 1];
        }
      }
    }
  }

  /** A batch passes one level deeper exactly when every element is within the limit. */
  lemma InspectBatch(cs: seq<Child>, maxDepth: int)
    requires maxDepth >= 0
    ensures Inspect(Tokens(Container(false, cs)), maxDepth + 1) <==>
      forall i :: 0 <= i < |cs| ==> Depth(cs[i].value) <= maxDepth
  {
    InspectDocument(Container(false, cs), maxDepth + 1);
    ChildDepthBound(cs, maxDepth);
  }

  /** Brackets within brackets, `n` of them. */
  predicate Nests(v: Json, n: nat)
    decreases n
  {
    n == 0 || (v.Container? && (n == 1 || exists i :: 0 <= i < |v.children| && Nests(v.children[i].value, n - 1)))
  }

  /** The depth is how many brackets are open at once. */
  lemma {:induction false} DepthExact(v: Json, n: nat)
    ensures Depth(v) >= n <==> Nests(v, n)
    decreases n
  {
    if n > 1 && v.Container? {
      ChildDepthBound(v.children, n - 2);
      forall i | 0 <= i < |v.children|
        ensures Depth(v.children[i].value) >= n - 1 <==> Nests(v.children[i].value, n - 1)
      {
        DepthExact(v.children[i].value, n - 1);
      }
    }
  }
}
