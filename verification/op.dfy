/**
 * The six JSON Patch operations of sections 4.1 to 4.6 of RFC 6902, as the
 * engine carries them out on one document.  Each operation is first given
 * as a function from the document before to an `Applied` value: the document
 * afterwards and what the operation returned.  The `Document` class then
 * performs the same steps on its `doc` field, each method specified by the
 * matching function.
 */
module Op {
  import opened JsonValue
  import opened Errors
  import opened Decimal
  import opened JsonPointer

  /** A decoded patch operation; `path` and `from` are JSON Pointers. */
  datatype Operation =
    | Add(path: string, value: Json)
    | Remove(path: string)
    | Replace(path: string, value: Json)
    | Move(from: string, path: string)
    | Copy(from: string, path: string)
    | Test(path: string, value: Json)

  /** The document after an operation, and the operation's own result. */
  datatype Applied<+T> = Applied(doc: Json, result: Result<T>)

  /** `pointer`: resolution, with failure reported as `InvalidPointer`. */
  function Pointer(doc: Json, ptr: string): (r: Result<Json>)
    ensures r.Err? ==> r.error == InvalidPointer
  {
    var n := Resolve(doc, ptr);
    if n.Some? then Ok(n.value) else Err(InvalidPointer)
  }

  // ----- split_at ---------------------------------------------------------

  /** `str::rfind('/')`: the position of the last slash. */
  function LastSlash(s: string): (r: Option<nat>)
    ensures r.None? <==> '/' !in s
    ensures r.Some? ==> r.value < |s| && s[r.value] == '/' && '/' !in s[r.value + 1..]
    decreases |s|
  {
    if s == [] then None
    else if s[|s| - 1] == '/' then Some(|s| - 1)
    else
      var r := LastSlash(s[..|s| - 1]);
      assert r.Some? ==> s[r.value + 1..] == s[..|s| - 1][r.value + 1..] + [s[|s| - 1]];
      assert r.None? ==> s == s[..|s| - 1] + [s[|s| - 1]];
      r
  }

  /**
   * `split_at`: a pointer cut at its last slash into the parent pointer and
   * the last segment (still escaped); no slash at all is an error.
   */
  function SplitAt(path: string): (r: Result<(string, string)>)
    ensures r.Err? <==> '/' !in path
    ensures r.Err? ==> r.error == InvalidPointer
    ensures r.Ok? ==> path == r.value.0 + "/" + r.value.1 && '/' !in r.value.1
  {
    var i := LastSlash(path);
    if i.None? then Err(InvalidPointer)
    else
      assert path == path[..i.value] + "/" + path[i.value + 1..];
      Ok((path[..i.value], path[i.value + 1..]))
  }

  lemma {:induction false} LastSlashOfJoin(parent: string, segment: string)
    requires '/' !in segment
    ensures LastSlash(parent + "/" + segment) == Some(|parent|)
    decreases |segment|
  {
    var s := parent + "/" + segment;
    if segment != [] {
      assert s[..|s| - 1] == parent + "/" + segment[..|segment| - 1];
      LastSlashOfJoin(parent, segment[..|segment| - 1]);
    }
  }

  /** Cutting a pointer built from a parent and a slash-free segment gives them back. */
  lemma SplitAtOfJoin(parent: string, segment: string)
    requires '/' !in segment
    ensures SplitAt(parent + "/" + segment) == Ok((parent, segment))
  {
    LastSlashOfJoin(parent, segment);
    var s := parent + "/" + segment;
    assert s[..|parent|] == parent && s[|parent| + 1..] == segment;
  }

  // ----- parse_idx ----------------------------------------------------------

  /**
   * `parse_idx`: a token that starts with `0` and is longer than one
   * character is refused; otherwise Rust's `usize` parser reads it (so an
   * optional leading `+` is accepted), and the index must be below `limit`.
   */
  function ParseIdx(token: string, limit: nat): (r: Result<nat>)
    ensures r.Ok? ==> r.value < limit
    ensures r.Err? ==> r.error == InvalidPointer
  {
    if |token| > 0 && token[0] == '0' && |token| != 1 then Err(InvalidPointer)
    else
      var n := ParseUsize(token);
      if n.Some? && n.value < limit then Ok(n.value) else Err(InvalidPointer)
  }

  /** A `+` followed by decimal digits whose value is `i`. */
  predicate PlusDigits(token: string, i: nat) {
    |token| >= 2 && token[0] == '+' && AllDigits(token[1..]) && Value(token[1..]) == i
  }

  /**
   * Exactly the tokens `parse_idx` accepts: the canonical decimal form of an
   * index below the limit, or that index written with a `+` sign.
   */
  lemma ParseIdxAccepts(token: string, limit: nat, i: nat)
    ensures ParseIdx(token, limit) == Ok(i) <==> i < limit && (token == Show(i) || PlusDigits(token, i))
  {
    if ParseIdx(token, limit) == Ok(i) && token[0] != '+' {
      ShowOfValue(token);
    }
    if token == Show(i) {
      ValueOfShow(i);
      assert token[0] != '+' by { assert IsDigit(token[0]); }
    }
    if PlusDigits(token, i) {
      assert token == "+" + token[1..];
    }
  }

  /** Index bounds: the canonical form of `i` is accepted exactly when `i < limit`. */
  lemma ParseIdxBound(i: nat, limit: nat)
    ensures ParseIdx(Show(i), limit) == if i < limit then Ok(i) else Err(InvalidPointer)
  {
    ParseIdxAccepts(Show(i), limit, i);
    if i >= limit {
      forall j: nat ensures ParseIdx(Show(i), limit) != Ok(j) {
        ParseIdxAccepts(Show(i), limit, j);
        if j < limit && Show(i) == Show(j) {
          ValueOfShow(i);
          ValueOfShow(j);
        }
      }
    }
  }

  /** Tokens `parse_idx` refuses whatever the limit: leading zeros, signs other than `+`, `-`, the empty token. */
  lemma ParseIdxRejects(token: string, limit: nat)
    requires token == "" || token[0] == '-' || (token[0] == '0' && |token| > 1)
    ensures ParseIdx(token, limit) == Err(InvalidPointer)
  {
    if token != "" && token[0] == '-' {
      assert !AllDigits(token) by { assert !IsDigit(token[0]); }
    }
  }

  // ----- the operations, as functions ---------------------------------------

  /**
   * The `match` on the parent container in `add`: an object gets the member
   * `key` (the raw segment) set and hands back what it held; an array gets
   * the value appended for `-` or inserted at the index `parse_idx` reads
   * with limit `len + 1`; anything else is refused.
   */
  function AddInto(parent: Json, key: string, value: Json): Result<(Json, Option<Json>)> {
    match parent
    case JObj(m) => Ok((JObj(m[key := value]), Get(m, key)))
    case JArr(a) =>
      if key == "-" then Ok((JArr(a + [value]), None))
      else
        var idx := ParseIdx(key, |a| + 1);
        if idx.Err? then Err(idx.error)
        else Ok((JArr(a[..idx.value] + [value] + a[idx.value..]), None))
    case _ => Err(InvalidPointer)
  }

  /**
   * The `match` on the parent container in `remove`: an object must hold the
   * member `key`; an array gives up the element at the index `parse_idx`
   * reads with limit `len`; anything else is refused.
   */
  function RemoveFrom(parent: Json, key: string): Result<(Json, Json)> {
    match parent
    case JObj(m) =>
      if key in m then Ok((JObj(m - {key}), m[key])) else Err(InvalidPointer)
    case JArr(a) =>
      var idx := ParseIdx(key, |a|);
      if idx.Err? then Err(idx.error)
      else Ok((JArr(a[..idx.value] + a[idx.value + 1..]), a[idx.value]))
    case _ => Err(InvalidPointer)
  }

  /** `add` (section 4.1 of RFC 6902); returns the member it overwrote, if any. */
  function ApplyAdd(doc: Json, path: string, value: Json): Applied<Option<Json>> {
    if path == "" then Applied(value, Ok(Some(doc)))
    else
      var split := SplitAt(path);
      if split.Err? then Applied(doc, Err(split.error))
      else
        var (ptr, key) := split.value;
        var parent := Pointer(doc, ptr);
        if parent.Err? then Applied(doc, Err(parent.error))
        else
          var updated := AddInto(parent.value, key, value);
          if updated.Err? then Applied(doc, Err(updated.error))
          else Applied(Put(doc, ptr, updated.value.0), Ok(updated.value.1))
  }

  /** `remove` (section 4.2 of RFC 6902); returns the value it took out. */
  function ApplyRemove(doc: Json, path: string): Applied<Json> {
    var split := SplitAt(path);
    if split.Err? then Applied(doc, Err(split.error))
    else
      var (ptr, key) := split.value;
      var parent := Pointer(doc, ptr);
      if parent.Err? then Applied(doc, Err(parent.error))
      else
        var updated := RemoveFrom(parent.value, key);
        if updated.Err? then Applied(doc, Err(updated.error))
        else Applied(Put(doc, ptr, updated.value.0), Ok(updated.value.1))
  }

  /** `replace` (section 4.3 of RFC 6902); returns the value it displaced. */
  function ApplyReplace(doc: Json, path: string, value: Json): Applied<Json> {
    match Pointer(doc, path)
    case Err(e) => Applied(doc, Err(e))
    case Ok(previous) => Applied(Put(doc, path, value), Ok(previous))
  }

  /** `from` is a proper ancestor of `path`: `path` continues `from` with a slash. */
  predicate MovesIntoChild(from: string, path: string)
    ensures MovesIntoChild(from, path) <==> exists rest :: path == from + "/" + rest
  {
    var b := from <= path && |from| < |path| && path[|from|] == '/';
    assert forall rest :: path == from + "/" + rest ==> b by {
      forall rest | path == from + "/" + rest
        ensures b
      {
        assert path[..|from|] == from && path[|from|] == '/';
      }
    }
    assert b ==> path == from + "/" + path[|from| + 1..];
    b
  }

  /**
   * `move_` (section 4.4 of RFC 6902): refused into a child of `from`; otherwise a remove
   * at `from` followed by an add at `path`.  A failing add leaves the removal
   * in place.
   */
  function ApplyMove(doc: Json, from: string, path: string): Applied<Option<Json>> {
    if MovesIntoChild(from, path) then Applied(doc, Err(InvalidPointer))
    else
      var removed := ApplyRemove(doc, from);
      if removed.result.Err? then Applied(removed.doc, Err(removed.result.error))
      else ApplyAdd(removed.doc, path, removed.result.value)
  }

  /** `copy` (section 4.5 of RFC 6902): an add at `path` of the value found at `from`. */
  function ApplyCopy(doc: Json, from: string, path: string): Applied<Option<Json>> {
    match Pointer(doc, from)
    case Err(e) => Applied(doc, Err(e))
    case Ok(v) => ApplyAdd(doc, path, v)
  }

  /** `test` (section 4.6 of RFC 6902): the node at `path` must equal `value`. */
  function ApplyTest(doc: Json, path: string, value: Json): Result<()> {
    if Resolve(doc, path) == Some(value) then Ok(()) else Err(InvalidTest)
  }

  /** The unit result of an operation whose own return value is dropped. */
  function Discard<T>(s: Applied<T>): Applied<()> {
    Applied(s.doc, if s.result.Ok? then Ok(()) else Err(s.result.error))
  }

  /** `Operation::apply`: dispatch to the operation's function. */
  function ApplyOperation(doc: Json, op: Operation): Applied<()> {
    match op
    case Add(path, value) => Discard(ApplyAdd(doc, path, value))
    case Remove(path) => Discard(ApplyRemove(doc, path))
    case Replace(path, value) => Discard(ApplyReplace(doc, path, value))
    case Move(from, path) => Discard(ApplyMove(doc, from, path))
    case Copy(from, path) => Discard(ApplyCopy(doc, from, path))
    case Test(path, value) => Applied(doc, ApplyTest(doc, path, value))
  }

  // ----- the operations, in place -------------------------------------------

  /**
   * A document that operations mutate.  A `&mut` reference to a node inside
   * the tree is rendered as: read the node with `Pointer`, compute its new
   * value, write it back with `Put`.
   */
  class Document {
    var doc: Json

    constructor (doc: Json)
      ensures this.doc == doc
    {
      this.doc := doc;
    }

    method Add(path: string, value: Json) returns (r: Result<Option<Json>>)
      modifies this
      ensures Applied(doc, r) == ApplyAdd(old(doc), path, value)
    {
      if path == "" {
        r := Ok(Some(doc));
        doc := value;
        return;
      }
      var split := SplitAt(path);
      if split.Err? {
        return Err(split.error);
      }
      var (ptr, key) := split.value;
      var target := Pointer(doc, ptr);
      if target.Err? {
        return Err(target.error);
      }
      match target.value {
        case JObj(m) =>
          r := Ok(Get(m, key));
          doc := Put(doc, ptr, JObj(m[key := value]));
        case JArr(a) =>
          if key == "-" {
            doc := Put(doc, ptr, JArr(a + [value]));
          } else {
            var idx := ParseIdx(key, |a| + 1);
            if idx.Err? {
              return Err(idx.error);
            }
            doc := Put(doc, ptr, JArr(a[..idx.value] + [value] + a[idx.value..]));
          }
          r := Ok(None);
        case _ =>
          r := Err(InvalidPointer);
      }
    }

    method Remove(path: string) returns (r: Result<Json>)
      modifies this
      ensures Applied(doc, r) == ApplyRemove(old(doc), path)
    {
      var split := SplitAt(path);
      if split.Err? {
        return Err(split.error);
      }
      var (ptr, key) := split.value;
      var target := Pointer(doc, ptr);
      if target.Err? {
        return Err(target.error);
      }
      match target.value {
        case JObj(m) =>
          if key !in m {
            return Err(InvalidPointer);
          }
          r := Ok(m[key]);
          doc := Put(doc, ptr, JObj(m - {key}));
        case JArr(a) =>
          var idx := ParseIdx(key, |a|);
          if idx.Err? {
            return Err(idx.error);
          }
          r := Ok(a[idx.value]);
          doc := Put(doc, ptr, JArr(a[..idx.value] + a[idx.value + 1..]));
        case _ =>
          r := Err(InvalidPointer);
      }
    }

    method Replace(path: string, value: Json) returns (r: Result<Json>)
      modifies this
      ensures Applied(doc, r) == ApplyReplace(old(doc), path, value)
    {
      r := Pointer(doc, path);
      if r.Ok? {
        doc := Put(doc, path, value);
      }
    }

    method Move(from: string, path: string) returns (r: Result<Option<Json>>)
      modifies this
      ensures Applied(doc, r) == ApplyMove(old(doc), from, path)
    {
      if MovesIntoChild(from, path) {
        return Err(InvalidPointer);
      }
      var removed := Remove(from);
      if removed.Err? {
        return Err(removed.error);
      }
      r := Add(path, removed.value);
    }

    /** `test`: the document is only read. */
    method Test(path: string, value: Json) returns (r: Result<()>)
      ensures r == ApplyTest(doc, path, value)
    {
      var found := Pointer(doc, path);
      if found.Ok? && found.value == value {
        r := Ok(());
      } else {
        r := Err(InvalidTest);
      }
    }

    method Copy(from: string, path: string) returns (r: Result<Option<Json>>)
      modifies this
      ensures Applied(doc, r) == ApplyCopy(old(doc), from, path)
    {
      var source := Pointer(doc, from);
      if source.Err? {
        return Err(source.error);
      }
      r := Add(path, source.value);
    }

    method Apply(op: Operation) returns (r: Result<()>)
      modifies this
      ensures Applied(doc, r) == ApplyOperation(old(doc), op)
    {
      match op {
        case Add(path, value) =>
          var res := Add(path, value);
          r := if res.Ok? then Ok(()) else Err(res.error);
        case Remove(path) =>
          var res := Remove(path);
          r := if res.Ok? then Ok(()) else Err(res.error);
        case Replace(path, value) =>
          var res := Replace(path, value);
          r := if res.Ok? then Ok(()) else Err(res.error);
        case Move(from, path) =>
          var res := Move(from, path);
          r := if res.Ok? then Ok(()) else Err(res.error);
        case Copy(from, path) =>
          var res := Copy(from, path);
          r := if res.Ok? then Ok(()) else Err(res.error);
        case Test(path, value) =>
          r := Test(path, value);
      }
    }
  }
}
