/**
 * JSON Pointer resolution as section 4 of RFC 6901 describes it and as
 * `serde_json::Value::pointer` / `pointer_mut` implement it:
 *   - the empty pointer denotes the whole document;
 *   - any other pointer must start with `/`; the rest is split on `/`;
 *   - each token is unescaped, first `~1` to `/`, then `~0` to `~`;
 *   - an object is entered by member name, an array by an index token in
 *     canonical decimal that is below the array's length.
 * A mutable reference into the tree is modelled by `Put`, which rebuilds the
 * document with the node at a pointer replaced.
 */
module JsonPointer {
  import opened JsonValue
  import opened Decimal

  /** `str::split('/')`: the pieces between slashes, in order. */
  function Split(s: string): (parts: seq<string>)
    ensures |parts| >= 1
    decreases |s|
  {
    if s == [] then [""]
    else if s[0] == '/' then [""] + Split(s[1..])
    else
      var rest := Split(s[1..]);
      assert rest == [rest[0]] + rest[1..];
      [[s[0]] + rest[0]] + rest[1..]
  }

  lemma {:induction false} SplitNoSlash(s: string)
    requires '/' !in s
    ensures Split(s) == [s]
    decreases |s|
  {
    if s != [] {
      SplitNoSlash(s[1..]);
      assert s == [s[0]] + s[1..];
    }
  }

  /** Appending a slash and a slash-free piece appends one piece. */
  lemma {:induction false} SplitSnoc(s: string, last: string)
    requires '/' !in last
    ensures Split(s + "/" + last) == Split(s) + [last]
    decreases |s|
  {
    var t := s + "/" + last;
    if s == [] {
      assert t == "/" + last;
      assert t[1..] == last;
      SplitNoSlash(last);
    } else {
      assert t[0] == s[0];
      assert t[1..] == s[1..] + "/" + last;
      SplitSnoc(s[1..], last);
    }
  }

  // ----- token escaping ---------------------------------------------------

  /** `str::replace("~1", "/")`: left to right, non-overlapping. */
  function DecodeSlash(s: string): string
    decreases |s|
  {
    if |s| < 2 then s
    else if s[0] == '~' && s[1] == '1' then "/" + DecodeSlash(s[2..])
    else [s[0]] + DecodeSlash(s[1..])
  }

  /** `str::replace("~0", "~")`: left to right, non-overlapping. */
  function DecodeTilde(s: string): string
    decreases |s|
  {
    if |s| < 2 then s
    else if s[0] == '~' && s[1] == '0' then "~" + DecodeTilde(s[2..])
    else [s[0]] + DecodeTilde(s[1..])
  }

  /** The reference token a pointer segment stands for. */
  function Unescape(segment: string): string {
    DecodeTilde(DecodeSlash(segment))
  }

  /** The segment that spells a reference token: `~` as `~0`, `/` as `~1`. */
  function Escape(token: string): (segment: string)
    ensures '/' !in segment
    decreases |token|
  {
    if token == [] then []
    else (if token[0] == '~' then "~0" else if token[0] == '/' then "~1" else [token[0]]) + Escape(token[1..])
  }

  /** Only `~` escaped; the intermediate form between the two decoding passes. */
  function EscapeTilde(token: string): string
    decreases |token|
  {
    if token == [] then []
    else (if token[0] == '~' then "~0" else [token[0]]) + EscapeTilde(token[1..])
  }

  lemma DecodeSlashCons(c: char, s: string)
    requires c != '~'
    ensures DecodeSlash([c] + s) == [c] + DecodeSlash(s)
  {
    if s != [] {
      assert ([c] + s)[1..] == s;
    }
  }

  lemma DecodeTildeCons(c: char, s: string)
    requires c != '~'
    ensures DecodeTilde([c] + s) == [c] + DecodeTilde(s)
  {
    if s != [] {
      assert ([c] + s)[1..] == s;
    }
  }

  lemma {:induction false} DecodeSlashOfEscape(token: string)
    ensures DecodeSlash(Escape(token)) == EscapeTilde(token)
    decreases |token|
  {
    if token != [] {
      var c, rest := token[0], Escape(token[1..]);
      DecodeSlashOfEscape(token[1..]);
      if c == '~' {
        var s := "~0" + rest;
        assert Escape(token) == s;
        assert s[1..] == "0" + rest;
        DecodeSlashCons('0', rest);
      } else if c == '/' {
        var s := "~1" + rest;
        assert Escape(token) == s;
        assert s[2..] == rest;
      } else {
        assert Escape(token) == [c] + rest;
        DecodeSlashCons(c, rest);
      }
    }
  }

  lemma {:induction false} DecodeTildeOfEscapeTilde(token: string)
    ensures DecodeTilde(EscapeTilde(token)) == token
    decreases |token|
  {
    if token != [] {
      var c, rest := token[0], EscapeTilde(token[1..]);
      DecodeTildeOfEscapeTilde(token[1..]);
      if c == '~' {
        var s := "~0" + rest;
        assert EscapeTilde(token) == s;
        assert s[2..] == rest;
      } else {
        assert EscapeTilde(token) == [c] + rest;
        DecodeTildeCons(c, rest);
      }
      assert token == [c] + token[1..];
    }
  }

  /** Unescaping undoes escaping, for every reference token. */
  lemma UnescapeEscape(token: string)
    ensures Unescape(Escape(token)) == token
  {
    DecodeSlashOfEscape(token);
    DecodeTildeOfEscapeTilde(token);
  }

  /** A segment without `~` is its own token. */
  lemma {:induction false} UnescapePlain(segment: string)
    requires '~' !in segment
    ensures Unescape(segment) == segment
  {
    DecodeSlashPlain(segment);
    DecodeTildePlain(segment);
  }

  lemma {:induction false} DecodeSlashPlain(s: string)
    requires '~' !in s
    ensures DecodeSlash(s) == s
    decreases |s|
  {
    if |s| >= 2 {
      DecodeSlashPlain(s[1..]);
      assert s == [s[0]] + s[1..];
    }
  }

  lemma {:induction false} DecodeTildePlain(s: string)
    requires '~' !in s
    ensures DecodeTilde(s) == s
    decreases |s|
  {
    if |s| >= 2 {
      DecodeTildePlain(s[1..]);
      assert s == [s[0]] + s[1..];
    }
  }

  // ----- pointers -----------------------------------------------------------

  function UnescapeAll(segments: seq<string>): (tokens: seq<string>)
    ensures |tokens| == |segments|
    ensures forall i :: 0 <= i < |segments| ==> tokens[i] == Unescape(segments[i])
  {
    seq(|segments|, i requires 0 <= i < |segments| => Unescape(segments[i]))
  }

  lemma UnescapeAllSnoc(segments: seq<string>, last: string)
    ensures UnescapeAll(segments + [last]) == UnescapeAll(segments) + [Unescape(last)]
  {
    var l, r := UnescapeAll(segments + [last]), UnescapeAll(segments) + [Unescape(last)];
    assert |l| == |r|;
    forall i | 0 <= i < |l| ensures l[i] == r[i] {
      assert (segments + [last])[i] == if i < |segments| then segments[i] else last;
    }
  }

  /** The reference tokens of a pointer, or `None` when it is not a pointer. */
  function Tokens(ptr: string): Option<seq<string>> {
    if ptr == "" then Some([])
    else if ptr[0] != '/' then None
    else Some(UnescapeAll(Split(ptr[1..])))
  }

  /** The pointer that spells a sequence of reference tokens. */
  function PointerOf(tokens: seq<string>): string
    decreases |tokens|
  {
    if tokens == [] then ""
    else PointerOf(tokens[..|tokens| - 1]) + "/" + Escape(tokens[|tokens| - 1])
  }

  /**
   * Tokens of a pointer extended by one slash-free segment: the parent's
   * tokens followed by the unescaped segment.
   */
  lemma TokensSnoc(ptr: string, segment: string)
    requires Tokens(ptr).Some? && '/' !in segment
    ensures Tokens(ptr + "/" + segment) == Some(Tokens(ptr).value + [Unescape(segment)])
  {
    var p := ptr + "/" + segment;
    if ptr == "" {
      assert p == "/" + segment;
      assert p != "" && p[0] == '/' && p[1..] == segment;
      SplitNoSlash(segment);
      assert UnescapeAll([segment]) == [Unescape(segment)];
      assert Tokens(ptr).value + [Unescape(segment)] == [Unescape(segment)];
    } else {
      assert p[0] == '/' && p[1..] == ptr[1..] + "/" + segment;
      SplitSnoc(ptr[1..], segment);
      UnescapeAllSnoc(Split(ptr[1..]), segment);
    }
  }

  /** Parsing a pointer spelt from tokens gives those tokens back. */
  lemma {:induction false} TokensOfPointer(tokens: seq<string>)
    ensures Tokens(PointerOf(tokens)) == Some(tokens)
    decreases |tokens|
  {
    if tokens != [] {
      var init, last := tokens[..|tokens| - 1], tokens[|tokens| - 1];
      TokensOfPointer(init);
      TokensSnoc(PointerOf(init), Escape(last));
      UnescapeEscape(last);
      assert tokens == init + [last];
    }
  }

  /** A pointer of a single segment. */
  lemma TokensOfSegment(segment: string)
    requires '/' !in segment
    ensures Tokens("/" + segment) == Some([Unescape(segment)])
  {
    TokensSnoc("", segment);
    assert "" + "/" + segment == "/" + segment;
    assert Tokens("").value + [Unescape(segment)] == [Unescape(segment)];
  }

  /** serde_json's `parse_index`: a canonical decimal token, nothing else. */
  function ArrayIndex(token: string): (r: Option<nat>)
    ensures r.Some? <==> Canonical(token)
    ensures r.Some? ==> token == Show(r.value)
  {
    if |token| > 0 && (token[0] == '+' || (token[0] == '0' && |token| != 1)) then None
    else
      var r := ParseUsize(token);
      if r.Some? then
        ShowOfValue(token);
        r
      else r
  }

  /** The node reached by following `tokens` from `doc`. */
  function ResolveTokens(doc: Json, tokens: seq<string>): Option<Json>
    decreases tokens
  {
    if tokens == [] then Some(doc)
    else match doc
      case JObj(m) =>
        if tokens[0] in m then ResolveTokens(m[tokens[0]], tokens[1..]) else None
      case JArr(a) =>
        var i := ArrayIndex(tokens[0]);
        if i.Some? && i.value < |a| then ResolveTokens(a[i.value], tokens[1..]) else None
      case _ => None
  }

  /** `doc` with the node reached by `tokens` replaced by `v`. */
  function PutTokens(doc: Json, tokens: seq<string>, v: Json): Json
    decreases tokens
  {
    if tokens == [] then v
    else match doc
      case JObj(m) =>
        if tokens[0] in m then JObj(m[tokens[0] := PutTokens(m[tokens[0]], tokens[1..], v)]) else doc
      case JArr(a) =>
        var i := ArrayIndex(tokens[0]);
        if i.Some? && i.value < |a| then JArr(a[i.value := PutTokens(a[i.value], tokens[1..], v)]) else doc
      case _ => doc
  }

  /**
   * `Value::pointer`: the node a pointer denotes, if it denotes one.  The
   * empty pointer denotes the whole document; a non-empty one that does not
   * start with `/` denotes nothing.
   */
  function Resolve(doc: Json, ptr: string): (r: Option<Json>)
    ensures ptr == "" ==> r == Some(doc)
    ensures ptr != "" && ptr[0] != '/' ==> r == None
  {
    var t := Tokens(ptr);
    if t.Some? then ResolveTokens(doc, t.value) else None
  }

  /**
   * A write through `Value::pointer_mut`: the node at `ptr` becomes `v`.
   * A pointer that denotes no node gives no reference, so nothing changes.
   */
  function Put(doc: Json, ptr: string, v: Json): (d: Json)
    ensures Resolve(doc, ptr) == None ==> d == doc
  {
    var t := Tokens(ptr);
    if t.Some? then
      PutTokensMissing(doc, t.value, v);
      PutTokens(doc, t.value, v)
    else doc
  }

  /** Writing below a node that does not exist leaves the document alone. */
  lemma {:induction false} PutTokensMissing(doc: Json, tokens: seq<string>, v: Json)
    ensures ResolveTokens(doc, tokens) == None ==> PutTokens(doc, tokens, v) == doc
    decreases tokens
  {
    if tokens != [] && ResolveTokens(doc, tokens) == None {
      match doc
      case JObj(m) =>
        if tokens[0] in m {
          PutTokensMissing(m[tokens[0]], tokens[1..], v);
          assert m[tokens[0] := m[tokens[0]]] == m;
        }
      case JArr(a) =>
        var i := ArrayIndex(tokens[0]);
        if i.Some? && i.value < |a| {
          PutTokensMissing(a[i.value], tokens[1..], v);
          assert a[i.value := a[i.value]] == a;
        }
      case _ =>
    }
  }

  // ----- laws of Resolve and Put -------------------------------------------

  /** Reading back what was just written gives it. */
  lemma {:induction false} ResolvePutTokens(doc: Json, tokens: seq<string>, v: Json)
    requires ResolveTokens(doc, tokens).Some?
    ensures ResolveTokens(PutTokens(doc, tokens, v), tokens) == Some(v)
    decreases tokens
  {
    if tokens != [] {
      match doc
      case JObj(m) => ResolvePutTokens(m[tokens[0]], tokens[1..], v);
      case JArr(a) => ResolvePutTokens(a[ArrayIndex(tokens[0]).value], tokens[1..], v);
    }
  }

  /** Writing back what is already there changes nothing. */
  lemma {:induction false} PutResolvedTokens(doc: Json, tokens: seq<string>)
    requires ResolveTokens(doc, tokens).Some?
    ensures PutTokens(doc, tokens, ResolveTokens(doc, tokens).value) == doc
    decreases tokens
  {
    if tokens != [] {
      match doc
      case JObj(m) =>
        PutResolvedTokens(m[tokens[0]], tokens[1..]);
      case JArr(a) =>
        var i := ArrayIndex(tokens[0]).value;
        PutResolvedTokens(a[i], tokens[1..]);
    }
  }

  /** A second write to the same place overrides the first. */
  lemma {:induction false} PutPutTokens(doc: Json, tokens: seq<string>, v: Json, w: Json)
    requires ResolveTokens(doc, tokens).Some?
    ensures PutTokens(PutTokens(doc, tokens, v), tokens, w) == PutTokens(doc, tokens, w)
    decreases tokens
  {
    if tokens != [] {
      match doc
      case JObj(m) =>
        PutPutTokens(m[tokens[0]], tokens[1..], v, w);
        assert PutTokens(doc, tokens, v).members[tokens[0]] == PutTokens(m[tokens[0]], tokens[1..], v);
      case JArr(a) =>
        var i := ArrayIndex(tokens[0]).value;
        PutPutTokens(a[i], tokens[1..], v, w);
        assert PutTokens(doc, tokens, v).items[i] == PutTokens(a[i], tokens[1..], v);
    }
  }

  lemma ResolvePut(doc: Json, ptr: string, v: Json)
    requires Resolve(doc, ptr).Some?
    ensures Resolve(Put(doc, ptr, v), ptr) == Some(v)
  {
    ResolvePutTokens(doc, Tokens(ptr).value, v);
  }

  lemma PutResolved(doc: Json, ptr: string)
    requires Resolve(doc, ptr).Some?
    ensures Put(doc, ptr, Resolve(doc, ptr).value) == doc
  {
    PutResolvedTokens(doc, Tokens(ptr).value);
  }

  lemma PutPut(doc: Json, ptr: string, v: Json, w: Json)
    requires Resolve(doc, ptr).Some?
    ensures Put(Put(doc, ptr, v), ptr, w) == Put(doc, ptr, w)
  {
    PutPutTokens(doc, Tokens(ptr).value, v, w);
  }

  /** Following `a + b` follows `a`, then `b` from the node `a` reached. */
  lemma {:induction false} ResolveTokensAppend(doc: Json, a: seq<string>, b: seq<string>)
    requires ResolveTokens(doc, a).Some?
    ensures ResolveTokens(doc, a + b) == ResolveTokens(ResolveTokens(doc, a).value, b)
    decreases a
  {
    if a == [] {
      assert a + b == b;
    } else {
      assert (a + b)[0] == a[0] && (a + b)[1..] == a[1..] + b;
      match doc
      case JObj(m) => ResolveTokensAppend(m[a[0]], a[1..], b);
      case JArr(items) => ResolveTokensAppend(items[ArrayIndex(a[0]).value], a[1..], b);
    }
  }

  /**
   * A write is local: a node whose path is neither a prefix of the written
   * path nor extends it reads the same afterwards.  Two different tokens
   * never name the same array element, because an accepted index token is
   * the canonical spelling of its index.
   */
  lemma {:induction false} PutTokensFrame(doc: Json, tokens: seq<string>, other: seq<string>, v: Json)
    requires ResolveTokens(doc, tokens).Some?
    requires !(tokens <= other) && !(other <= tokens)
    ensures ResolveTokens(PutTokens(doc, tokens, v), other) == ResolveTokens(doc, other)
    decreases tokens
  {
    assert tokens != [] && other != [];
    var t0, o0 := tokens[0], other[0];
    if t0 == o0 {
      PrefixCons(t0, tokens[1..], other[1..]);
      PrefixCons(t0, other[1..], tokens[1..]);
      assert tokens == [t0] + tokens[1..] && other == [t0] + other[1..];
    }
    match doc
    case JObj(m) =>
      if t0 == o0 {
        PutTokensFrame(m[t0], tokens[1..], other[1..], v);
      }
    case JArr(a) =>
      var i := ArrayIndex(t0).value;
      if t0 == o0 {
        PutTokensFrame(a[i], tokens[1..], other[1..], v);
      } else {
        var j := ArrayIndex(o0);
        assert j.Some? ==> j.value != i;
      }
  }

  /** A common first element does not change whether one sequence is a prefix of another. */
  lemma PrefixCons(x: string, a: seq<string>, b: seq<string>)
    ensures [x] + a <= [x] + b <==> a <= b
  {
    if a <= b {
      assert ([x] + b)[..|a| + 1] == [x] + a;
    }
    if [x] + a <= [x] + b {
      assert a == ([x] + a)[1..] && b[..|a|] == ([x] + b)[1..][..|a|];
    }
  }

  /** The pointer spelt from tokens denotes the node the tokens reach. */
  lemma ResolvePointerOf(doc: Json, tokens: seq<string>)
    ensures Resolve(doc, PointerOf(tokens)) == ResolveTokens(doc, tokens)
  {
    TokensOfPointer(tokens);
  }

  /** Neither pointer denotes an ancestor of, or the same node as, the other. */
  predicate Apart(p: string, q: string) {
    && Tokens(p).Some? && Tokens(q).Some?
    && !(Tokens(p).value <= Tokens(q).value) && !(Tokens(q).value <= Tokens(p).value)
  }

  /** Writing through one pointer leaves every node apart from it as it was. */
  lemma PutFrame(doc: Json, ptr: string, other: string, v: Json)
    requires Resolve(doc, ptr).Some? && Apart(ptr, other)
    ensures Resolve(Put(doc, ptr, v), other) == Resolve(doc, other)
  {
    PutTokensFrame(doc, Tokens(ptr).value, Tokens(other).value, v);
  }
}
