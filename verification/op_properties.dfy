/**
 * What the operations of RFC 6902 promise, proved about the functions of
 * module Op: root handling, where members and elements go, the index bounds,
 * inverse pairs, the move and copy rules and the error kinds.
 */
module OpProperties {
  import opened JsonValue
  import opened Errors
  import opened Decimal
  import opened JsonPointer
  import opened Op

  lemma DigitsHaveNoTilde(s: string)
    requires AllDigits(s)
    ensures '~' !in s && '/' !in s
  {
    forall j | 0 <= j < |s|
      ensures s[j] != '~' && s[j] != '/'
    {
      assert IsDigit(s[j]);
    }
  }

  /** Resolving one slash-free segment below a resolved parent. */
  lemma ResolveChild(doc: Json, ptr: string, segment: string)
    requires Resolve(doc, ptr).Some? && '/' !in segment
    ensures Resolve(doc, ptr + "/" + segment) == ResolveTokens(Resolve(doc, ptr).value, [Unescape(segment)])
  {
    TokensSnoc(ptr, segment);
    ResolveTokensAppend(doc, Tokens(ptr).value, [Unescape(segment)]);
  }

  // ----- the root pointer and pointers without a slash ---------------------

  /**
   * The empty path: add and replace swap the whole document and hand back the
   * old one, remove refuses it, test compares the whole document.
   */
  lemma RootPath(doc: Json, v: Json)
    ensures ApplyAdd(doc, "", v) == Applied(v, Ok(Some(doc)))
    ensures ApplyReplace(doc, "", v) == Applied(v, Ok(doc))
    ensures ApplyRemove(doc, "") == Applied(doc, Err(InvalidPointer))
    ensures ApplyTest(doc, "", v).Ok? <==> v == doc
  {
  }

  /** A non-empty path without a slash cannot name a parent: add and remove refuse it. */
  lemma SlashlessPath(doc: Json, path: string, v: Json)
    requires path != "" && '/' !in path
    ensures ApplyAdd(doc, path, v) == Applied(doc, Err(InvalidPointer))
    ensures ApplyRemove(doc, path) == Applied(doc, Err(InvalidPointer))
  {
  }

  /** A failed add or remove leaves the document alone and reports `InvalidPointer`. */
  lemma AddRemoveFailure(doc: Json, path: string, v: Json)
    ensures var r := ApplyAdd(doc, path, v);
      r.result.Err? ==> r == Applied(doc, Err(InvalidPointer))
    ensures var r := ApplyRemove(doc, path);
      r.result.Err? ==> r == Applied(doc, Err(InvalidPointer))
  {
  }

  /**
   * Every operation but move fails without touching the document; only test
   * reports `InvalidTest`, all others `InvalidPointer`.
   */
  lemma FailureKinds(doc: Json, op: Operation)
    ensures var s := ApplyOperation(doc, op);
      s.result.Err? ==>
        && (!op.Move? ==> s.doc == doc)
        && (s.result.error == InvalidTest <==> op.Test?)
  {
    match op
    case Add(path, value) =>
      AddRemoveFailure(doc, path, value);
    case Remove(path) =>
      AddRemoveFailure(doc, path, JNull);
    case Replace(path, value) =>
    case Move(from, path) =>
      AddRemoveFailure(doc, from, JNull);
      if !MovesIntoChild(from, path) && ApplyRemove(doc, from).result.Ok? {
        AddRemoveFailure(ApplyRemove(doc, from).doc, path, ApplyRemove(doc, from).result.value);
      }
    case Copy(from, path) =>
      if Resolve(doc, from).Some? {
        AddRemoveFailure(doc, path, Resolve(doc, from).value);
      }
    case Test(path, value) =>
  }

  // ----- unfolding add and remove at a resolved parent ---------------------

  /** Add at a path whose parent resolves: the container step, written back at the parent. */
  lemma AddAtParent(doc: Json, path: string, ptr: string, key: string, parent: Json, v: Json)
    requires SplitAt(path) == Ok((ptr, key)) && Resolve(doc, ptr) == Some(parent)
    ensures ApplyAdd(doc, path, v) ==
      match AddInto(parent, key, v)
      case Err(e) => Applied(doc, Err(e))
      case Ok(u) => Applied(Put(doc, ptr, u.0), Ok(u.1))
  {
  }

  /** Remove at a path whose parent resolves: the container step, written back at the parent. */
  lemma RemoveAtParent(doc: Json, path: string, ptr: string, key: string, parent: Json)
    requires SplitAt(path) == Ok((ptr, key)) && Resolve(doc, ptr) == Some(parent)
    ensures ApplyRemove(doc, path) ==
      match RemoveFrom(parent, key)
      case Err(e) => Applied(doc, Err(e))
      case Ok(u) => Applied(Put(doc, ptr, u.0), Ok(u.1))
  {
  }

  // ----- locality -----------------------------------------------------------

  /**
   * `other` is neither the node at `ptr` nor one of its ancestors, and does
   * not lie at or below the member `key` of that node.
   */
  predicate OutsideMember(ptr: string, key: string, other: string) {
    && Tokens(ptr).Some? && Tokens(other).Some?
    && !(Tokens(other).value <= Tokens(ptr).value)
    && !(Tokens(ptr).value + [key] <= Tokens(other).value)
  }

  /** Rewriting one member of an object leaves every node outside that member as it was. */
  lemma MemberFrame(doc: Json, ptr: string, key: string, m: map<string, Json>, m2: map<string, Json>, other: string)
    requires Resolve(doc, ptr) == Some(JObj(m)) && m2 - {key} == m - {key}
    requires OutsideMember(ptr, key, other)
    ensures Resolve(Put(doc, ptr, JObj(m2)), other) == Resolve(doc, other)
  {
    var t, o := Tokens(ptr).value, Tokens(other).value;
    var d2 := PutTokens(doc, t, JObj(m2));
    if !(t <= o) {
      PutTokensFrame(doc, t, o, JObj(m2));
    } else {
      var rest := o[|t|..];
      assert o == t + rest;
      assert rest != [];
      var k := rest[0];
      assert k != key by {
        assert o[..|t| + 1] == t + [k];
      }
      ResolvePutTokens(doc, t, JObj(m2));
      ResolveTokensAppend(d2, t, rest);
      ResolveTokensAppend(doc, t, rest);
      assert (k in m2 <==> k in m) by {
        assert k in m2 <==> k in m2 - {key};
        assert k in m <==> k in m - {key};
      }
      if k in m {
        assert m2[k] == (m2 - {key})[k] == (m - {key})[k] == m[k];
      }
    }
  }

  /**
   * Add changes nothing apart from the parent node; under an object parent it
   * changes nothing outside the member it sets.
   */
  lemma AddFrame(doc: Json, path: string, ptr: string, key: string, v: Json, other: string)
    requires SplitAt(path) == Ok((ptr, key)) && Resolve(doc, ptr).Some?
    ensures var r := ApplyAdd(doc, path, v);
      && (Apart(ptr, other) ==> Resolve(r.doc, other) == Resolve(doc, other))
      && (Resolve(doc, ptr).value.JObj? && OutsideMember(ptr, key, other) ==> Resolve(r.doc, other) == Resolve(doc, other))
  {
    var parent := Resolve(doc, ptr).value;
    AddAtParent(doc, path, ptr, key, parent, v);
    var u := AddInto(parent, key, v);
    if u.Ok? {
      if Apart(ptr, other) {
        PutFrame(doc, ptr, other, u.value.0);
      }
      if parent.JObj? && OutsideMember(ptr, key, other) {
        var m := parent.members;
        assert m[key := v] - {key} == m - {key};
        MemberFrame(doc, ptr, key, m, m[key := v], other);
      }
    }
  }

  /**
   * Remove changes nothing apart from the parent node; under an object parent
   * it changes nothing outside the member it drops.
   */
  lemma RemoveFrame(doc: Json, path: string, ptr: string, key: string, other: string)
    requires SplitAt(path) == Ok((ptr, key)) && Resolve(doc, ptr).Some?
    ensures var r := ApplyRemove(doc, path);
      && (Apart(ptr, other) ==> Resolve(r.doc, other) == Resolve(doc, other))
      && (Resolve(doc, ptr).value.JObj? && OutsideMember(ptr, key, other) ==> Resolve(r.doc, other) == Resolve(doc, other))
  {
    var parent := Resolve(doc, ptr).value;
    RemoveAtParent(doc, path, ptr, key, parent);
    var u := RemoveFrom(parent, key);
    if u.Ok? {
      if Apart(ptr, other) {
        PutFrame(doc, ptr, other, u.value.0);
      }
      if parent.JObj? && OutsideMember(ptr, key, other) {
        var m := parent.members;
        assert (m - {key}) - {key} == m - {key};
        MemberFrame(doc, ptr, key, m, m - {key}, other);
      }
    }
  }

  // ----- add ----------------------------------------------------------------

  /**
   * Add under an object: only the member named by the raw last segment is set,
   * the previous value of that member is returned, and when the segment holds
   * no escape the new value is found at `path`.
   */
  lemma AddObjectMember(doc: Json, path: string, ptr: string, key: string, m: map<string, Json>, v: Json)
    requires SplitAt(path) == Ok((ptr, key)) && Resolve(doc, ptr) == Some(JObj(m))
    ensures var r := ApplyAdd(doc, path, v);
      && r.result == Ok(Get(m, key))
      && Resolve(r.doc, ptr) == Some(JObj(m[key := v]))
      && ('~' !in key ==> Resolve(r.doc, path) == Some(v))
  {
    AddAtParent(doc, path, ptr, key, JObj(m), v);
    var r := ApplyAdd(doc, path, v);
    ResolvePut(doc, ptr, JObj(m[key := v]));
    if '~' !in key {
      UnescapePlain(key);
      ResolveChild(r.doc, ptr, key);
    }
  }

  /**
   * Add under an array: `-` appends; otherwise `parse_idx` with limit
   * `len + 1` picks the position, later elements move one place right, and a
   * refused index leaves the document alone.
   */
  lemma AddArrayElement(doc: Json, path: string, ptr: string, key: string, a: seq<Json>, v: Json)
    requires SplitAt(path) == Ok((ptr, key)) && Resolve(doc, ptr) == Some(JArr(a))
    ensures var r := ApplyAdd(doc, path, v);
      if key == "-" then
        r.result == Ok(None) && Resolve(r.doc, ptr) == Some(JArr(a + [v]))
      else
        match ParseIdx(key, |a| + 1)
        case Ok(i) => r.result == Ok(None) && Resolve(r.doc, ptr) == Some(JArr(a[..i] + [v] + a[i..]))
        case Err(_) => r == Applied(doc, Err(InvalidPointer))
  {
    AddAtParent(doc, path, ptr, key, JArr(a), v);
    if key == "-" {
      ResolvePut(doc, ptr, JArr(a + [v]));
    } else if ParseIdx(key, |a| + 1).Ok? {
      var i := ParseIdx(key, |a| + 1).value;
      ResolvePut(doc, ptr, JArr(a[..i] + [v] + a[i..]));
    }
  }

  /** Add under a parent that is neither object nor array fails. */
  lemma AddToScalar(doc: Json, path: string, ptr: string, key: string, v: Json)
    requires SplitAt(path) == Ok((ptr, key)) && Resolve(doc, ptr).Some? && !Resolve(doc, ptr).value.IsContainer()
    ensures ApplyAdd(doc, path, v) == Applied(doc, Err(InvalidPointer))
  {
    AddAtParent(doc, path, ptr, key, Resolve(doc, ptr).value, v);
  }

  lemma ArrayIndexOfShow(i: nat)
    ensures ArrayIndex(Show(i)) == Some(i)
  {
    ValueOfShow(i);
    var r := ArrayIndex(Show(i));
    if r.Some? && r.value != i {
      ValueOfShow(r.value);
    }
  }

  /** The element at index `i` of an array found at `ptr` is found at `ptr/i`. */
  lemma ResolveElement(doc: Json, ptr: string, a: seq<Json>, i: nat)
    requires Resolve(doc, ptr) == Some(JArr(a)) && i < |a|
    ensures Resolve(doc, ptr + "/" + Show(i)) == Some(a[i])
  {
    var key := Show(i);
    DigitsHaveNoTilde(key);
    UnescapePlain(key);
    ResolveChild(doc, ptr, key);
    ArrayIndexOfShow(i);
  }

  /**
   * The index bound of add: into an array of length n, index i (written
   * canonically) is accepted exactly when i <= n, and the value then sits at
   * index i.
   */
  lemma AddIndexBound(doc: Json, ptr: string, a: seq<Json>, i: nat, v: Json)
    requires Resolve(doc, ptr) == Some(JArr(a))
    ensures var path := ptr + "/" + Show(i);
      var r := ApplyAdd(doc, path, v);
      && (r.result.Ok? <==> i <= |a|)
      && (i <= |a| ==> Resolve(r.doc, path) == Some(v))
      && (i > |a| ==> r.doc == doc)
  {
    var key := Show(i);
    var path := ptr + "/" + key;
    DigitsHaveNoTilde(key);
    SplitAtOfJoin(ptr, key);
    ParseIdxBound(i, |a| + 1);
    assert key != "-" by { assert IsDigit(key[0]); }
    AddArrayElement(doc, path, ptr, key, a, v);
    if i <= |a| {
      var r := ApplyAdd(doc, path, v);
      var a' := a[..i] + [v] + a[i..];
      ResolveElement(r.doc, ptr, a', i);
    }
  }

  /** Appending with `-`: the value becomes the last element, at index n. */
  lemma AddAppend(doc: Json, ptr: string, a: seq<Json>, v: Json)
    requires Resolve(doc, ptr) == Some(JArr(a))
    ensures var r := ApplyAdd(doc, ptr + "/" + "-", v);
      && r.result == Ok(None)
      && Resolve(r.doc, ptr) == Some(JArr(a + [v]))
      && Resolve(r.doc, ptr + "/" + Show(|a|)) == Some(v)
  {
    SplitAtOfJoin(ptr, "-");
    AddArrayElement(doc, ptr + "/" + "-", ptr, "-", a, v);
    var r := ApplyAdd(doc, ptr + "/" + "-", v);
    ResolveElement(r.doc, ptr, a + [v], |a|);
  }

  // ----- remove -------------------------------------------------------------

  /** Remove under an object: the member must exist; it is returned and dropped. */
  lemma RemoveObjectMember(doc: Json, path: string, ptr: string, key: string, m: map<string, Json>)
    requires SplitAt(path) == Ok((ptr, key)) && Resolve(doc, ptr) == Some(JObj(m))
    ensures var r := ApplyRemove(doc, path);
      if key in m then
        r.result == Ok(m[key]) && Resolve(r.doc, ptr) == Some(JObj(m - {key}))
      else
        r == Applied(doc, Err(InvalidPointer))
  {
    RemoveAtParent(doc, path, ptr, key, JObj(m));
    if key in m {
      ResolvePut(doc, ptr, JObj(m - {key}));
    }
  }

  /**
   * Remove under an array: `parse_idx` with limit `len` picks the element,
   * which is returned; the array shrinks by one and later elements move left.
   */
  lemma RemoveArrayElement(doc: Json, path: string, ptr: string, key: string, a: seq<Json>)
    requires SplitAt(path) == Ok((ptr, key)) && Resolve(doc, ptr) == Some(JArr(a))
    ensures var r := ApplyRemove(doc, path);
      match ParseIdx(key, |a|)
      case Ok(i) =>
        && r.result == Ok(a[i])
        && Resolve(r.doc, ptr) == Some(JArr(a[..i] + a[i + 1..]))
        && |a[..i] + a[i + 1..]| == |a| - 1
      case Err(_) => r == Applied(doc, Err(InvalidPointer))
  {
    RemoveAtParent(doc, path, ptr, key, JArr(a));
    if ParseIdx(key, |a|).Ok? {
      var i := ParseIdx(key, |a|).value;
      ResolvePut(doc, ptr, JArr(a[..i] + a[i + 1..]));
    }
  }

  /** The index bound of remove: index i is accepted exactly when i < n; `-` never is. */
  lemma RemoveIndexBound(doc: Json, ptr: string, a: seq<Json>, i: nat)
    requires Resolve(doc, ptr) == Some(JArr(a))
    ensures ApplyRemove(doc, ptr + "/" + Show(i)).result.Ok? <==> i < |a|
    ensures ApplyRemove(doc, ptr + "/" + "-") == Applied(doc, Err(InvalidPointer))
  {
    var key := Show(i);
    DigitsHaveNoTilde(key);
    SplitAtOfJoin(ptr, key);
    RemoveAtParent(doc, ptr + "/" + key, ptr, key, JArr(a));
    ParseIdxBound(i, |a|);
    SplitAtOfJoin(ptr, "-");
    RemoveAtParent(doc, ptr + "/" + "-", ptr, "-", JArr(a));
    ParseIdxRejects("-", |a|);
  }

  /** Remove under a parent that is neither object nor array fails. */
  lemma RemoveFromScalar(doc: Json, path: string, ptr: string, key: string)
    requires SplitAt(path) == Ok((ptr, key)) && Resolve(doc, ptr).Some? && !Resolve(doc, ptr).value.IsContainer()
    ensures ApplyRemove(doc, path) == Applied(doc, Err(InvalidPointer))
  {
    RemoveAtParent(doc, path, ptr, key, Resolve(doc, ptr).value);
  }

  // ----- add and remove undo each other -------------------------------------

  /** A container where add creates a new member or element rather than overwriting one. */
  predicate Insertable(parent: Json, key: string) {
    match parent
    case JObj(m) => key !in m
    case JArr(a) => ParseIdx(key, |a| + 1).Ok?
    case _ => false
  }

  lemma AddIntoThenRemoveFrom(parent: Json, key: string, v: Json)
    requires Insertable(parent, key)
    ensures AddInto(parent, key, v).Ok?
    ensures RemoveFrom(AddInto(parent, key, v).value.0, key) == Ok((parent, v))
  {
    match parent
    case JObj(m) =>
      assert m[key := v] - {key} == m;
    case JArr(a) =>
      var i := ParseIdx(key, |a| + 1).value;
      var a' := a[..i] + [v] + a[i..];
      assert key != "-" by { assert !(|key| > 0 && key[0] == '0' && |key| != 1); }
      assert a'[..i] + a'[i + 1..] == a;
  }

  lemma RemoveFromThenAddInto(parent: Json, key: string)
    requires RemoveFrom(parent, key).Ok?
    ensures var (rest, taken) := RemoveFrom(parent, key).value;
      AddInto(rest, key, taken) == Ok((parent, None))
  {
    match parent
    case JObj(m) =>
      assert (m - {key})[key := m[key]] == m;
    case JArr(a) =>
      var i := ParseIdx(key, |a|).value;
      var a' := a[..i] + a[i + 1..];
      assert ParseIdx(key, |a'| + 1) == Ok(i);
      assert key != "-" by { assert !(|key| > 0 && key[0] == '0' && |key| != 1); }
      assert a'[..i] + [a[i]] + a'[i..] == a;
  }

  /**
   * Adding a new member or element and then removing it at the same path
   * gives back the original document and the added value.
   */
  lemma AddThenRemove(doc: Json, path: string, ptr: string, key: string, v: Json)
    requires SplitAt(path) == Ok((ptr, key)) && Resolve(doc, ptr).Some? && Insertable(Resolve(doc, ptr).value, key)
    ensures var added := ApplyAdd(doc, path, v);
      added.result.Ok? && ApplyRemove(added.doc, path) == Applied(doc, Ok(v))
  {
    var parent := Resolve(doc, ptr).value;
    AddIntoThenRemoveFrom(parent, key, v);
    var grown := AddInto(parent, key, v).value.0;
    AddAtParent(doc, path, ptr, key, parent, v);
    var added := ApplyAdd(doc, path, v);
    ResolvePut(doc, ptr, grown);
    RemoveAtParent(added.doc, path, ptr, key, grown);
    PutPut(doc, ptr, grown, parent);
    PutResolved(doc, ptr);
  }

  /**
   * Removing a member or element and adding the removed value back at the
   * same path restores the document.
   */
  lemma RemoveThenAdd(doc: Json, path: string)
    requires ApplyRemove(doc, path).result.Ok?
    ensures var removed := ApplyRemove(doc, path);
      ApplyAdd(removed.doc, path, removed.result.value) == Applied(doc, Ok(None))
  {
    var (ptr, key) := SplitAt(path).value;
    var parent := Resolve(doc, ptr).value;
    RemoveAtParent(doc, path, ptr, key, parent);
    RemoveFromThenAddInto(parent, key);
    var (rest, taken) := RemoveFrom(parent, key).value;
    var removed := ApplyRemove(doc, path);
    ResolvePut(doc, ptr, rest);
    AddAtParent(removed.doc, path, ptr, key, rest, taken);
    PutPut(doc, ptr, rest, parent);
    PutResolved(doc, ptr);
  }

  // ----- replace, move, copy, test ------------------------------------------

  /**
   * Replace succeeds exactly when the path resolves (the root included); it
   * returns the old value, the new one is then found at the path and passes a
   * test, and replacing back restores the document.
   */
  lemma ReplaceSwaps(doc: Json, path: string, v: Json)
    ensures var r := ApplyReplace(doc, path, v);
      && (r.result.Ok? <==> Resolve(doc, path).Some?)
      && (r.result.Ok? ==>
            && r.result.value == Resolve(doc, path).value
            && Resolve(r.doc, path) == Some(v)
            && ApplyTest(r.doc, path, v) == Ok(())
            && ApplyReplace(r.doc, path, r.result.value).doc == doc)
      && (r.result.Err? ==> r == Applied(doc, Err(InvalidPointer)))
  {
    if Resolve(doc, path).Some? {
      ResolvePut(doc, path, v);
      PutPut(doc, path, v, Resolve(doc, path).value);
      PutResolved(doc, path);
    }
  }

  /** Move into a descendant of `from` is refused and the document is untouched. */
  lemma MoveIntoChild(doc: Json, from: string, rest: string)
    ensures ApplyMove(doc, from, from + "/" + rest) == Applied(doc, Err(InvalidPointer))
  {
    var path := from + "/" + rest;
    assert path[..|from|] == from && path[|from|] == '/';
  }

  /**
   * Move of a location onto itself is allowed (it is not a proper prefix)
   * and, when the location exists, leaves the document as it was.
   */
  lemma MoveOntoItself(doc: Json, path: string)
    requires ApplyRemove(doc, path).result.Ok?
    ensures ApplyMove(doc, path, path) == Applied(doc, Ok(None))
  {
    RemoveThenAdd(doc, path);
  }

  /** A successful remove always changes the document. */
  lemma RemoveChanges(doc: Json, path: string)
    requires ApplyRemove(doc, path).result.Ok?
    ensures ApplyRemove(doc, path).doc != doc
  {
    var (ptr, key) := SplitAt(path).value;
    var parent := Resolve(doc, ptr).value;
    RemoveAtParent(doc, path, ptr, key, parent);
    var rest := RemoveFrom(parent, key).value.0;
    ResolvePut(doc, ptr, rest);
    match parent
    case JObj(m) =>
      assert key in m && key !in rest.members;
    case JArr(a) =>
      assert |rest.items| == |a| - 1;
  }

  /**
   * Move is remove-then-add: a move whose add fails keeps the removal, so the
   * value taken from `from` is lost.
   */
  lemma MoveKeepsRemovalOnFailure(doc: Json, from: string, path: string)
    requires !MovesIntoChild(from, path)
    requires ApplyRemove(doc, from).result.Ok?
    ensures var r := ApplyMove(doc, from, path);
      r.result.Err? ==> r.doc == ApplyRemove(doc, from).doc && r.doc != doc
  {
    RemoveChanges(doc, from);
  }

  /**
   * Copy needs `from` to resolve.  Into an object it sets exactly one member
   * of the parent to the value found at `from`, which a test at `path` then
   * finds when the last segment holds no escape; every node outside that
   * member reads as before, the source of the copy included.
   */
  lemma CopyIntoObject(doc: Json, from: string, path: string, ptr: string, key: string, m: map<string, Json>, other: string)
    requires SplitAt(path) == Ok((ptr, key)) && Resolve(doc, ptr) == Some(JObj(m))
    ensures var r := ApplyCopy(doc, from, path);
      match Resolve(doc, from)
      case None => r == Applied(doc, Err(InvalidPointer))
      case Some(x) =>
        && r.result.Ok?
        && Resolve(r.doc, ptr) == Some(JObj(m[key := x]))
        && ('~' !in key ==> ApplyTest(r.doc, path, x) == Ok(()))
        && (OutsideMember(ptr, key, other) ==> Resolve(r.doc, other) == Resolve(doc, other))
        && (OutsideMember(ptr, key, from) ==> Resolve(r.doc, from) == Some(x))
  {
    if Resolve(doc, from).Some? {
      var x := Resolve(doc, from).value;
      AddObjectMember(doc, path, ptr, key, m, x);
      AddFrame(doc, path, ptr, key, x, other);
      AddFrame(doc, path, ptr, key, x, from);
    }
  }

  /**
   * Copy into an array: the value found at `from` is appended for `-` or
   * inserted at the index `parse_idx` accepts; a refused index changes
   * nothing; nodes apart from the array read as before.
   */
  lemma CopyIntoArray(doc: Json, from: string, path: string, ptr: string, key: string, a: seq<Json>, other: string)
    requires SplitAt(path) == Ok((ptr, key)) && Resolve(doc, ptr) == Some(JArr(a))
    ensures var r := ApplyCopy(doc, from, path);
      match Resolve(doc, from)
      case None => r == Applied(doc, Err(InvalidPointer))
      case Some(x) =>
        && (key == "-" ==> r.result == Ok(None) && Resolve(r.doc, ptr) == Some(JArr(a + [x])))
        && (key != "-" ==>
              match ParseIdx(key, |a| + 1)
              case Ok(i) => r.result == Ok(None) && Resolve(r.doc, ptr) == Some(JArr(a[..i] + [x] + a[i..]))
              case Err(_) => r == Applied(doc, Err(InvalidPointer)))
        && (Apart(ptr, other) ==> Resolve(r.doc, other) == Resolve(doc, other))
  {
    if Resolve(doc, from).Some? {
      var x := Resolve(doc, from).value;
      AddArrayElement(doc, path, ptr, key, a, x);
      AddFrame(doc, path, ptr, key, x, other);
    }
  }

  /**
   * Test never changes the document, succeeds exactly when the path resolves
   * to an equal value, and reports every failure, an unresolvable path
   * included, as `InvalidTest`.
   */
  lemma TestOutcome(doc: Json, path: string, v: Json)
    ensures ApplyOperation(doc, Test(path, v)).doc == doc
    ensures ApplyTest(doc, path, v).Ok? <==> Resolve(doc, path) == Some(v)
    ensures ApplyTest(doc, path, v).Err? ==> ApplyTest(doc, path, v).error == InvalidTest
  {
  }

  /** Equal documents in the sense of section 4.6 of RFC 6902: member order does not matter. */
  lemma TestIgnoresMemberOrder(k1: string, k2: string, v1: Json, v2: Json)
    requires k1 != k2
    ensures ApplyTest(JObj(map[k1 := v1, k2 := v2]), "", JObj(map[k2 := v2, k1 := v1])) == Ok(())
  {
    assert map[k1 := v1, k2 := v2] == map[k2 := v2, k1 := v1];
  }

  // ----- behaviour the engine shows for unusual tokens ----------------------

  /**
   * The last segment is used as an object key without unescaping: adding at
   * `/a~1b` creates the member `a~1b`, which a test at the same path, reading
   * the unescaped token `a/b`, does not find.
   */
  lemma RawKeyOnAdd()
    ensures var r := ApplyAdd(EmptyObject, "/a~1b", JNum(1));
      && r == Applied(JObj(map["a~1b" := JNum(1)]), Ok(None))
      && ApplyTest(r.doc, "/a~1b", JNum(1)) == Err(InvalidTest)
  {
    SplitAtOfJoin("", "a~1b");
    assert "" + "/" + "a~1b" == "/a~1b";
    TokensOfSegment("a~1b");
    assert DecodeSlash("a~1b") == "a/b" by {
      assert "a~1b"[1..] == "~1b";
      assert "~1b"[2..] == "b";
    }
    DecodeTildePlain("a/b");
    assert Tokens("/a~1b") == Some(["a/b"]);
  }

  /**
   * `parse_idx` accepts a `+` sign but pointer resolution does not: adding at
   * `ptr/+i` inserts at index i, yet a test at that same path fails.
   */
  lemma SignedIndexOnAdd(doc: Json, ptr: string, a: seq<Json>, i: nat, v: Json)
    requires Resolve(doc, ptr) == Some(JArr(a)) && i <= |a|
    ensures var path := ptr + "/" + ("+" + Show(i));
      var r := ApplyAdd(doc, path, v);
      && r.result == Ok(None)
      && Resolve(r.doc, ptr) == Some(JArr(a[..i] + [v] + a[i..]))
      && Resolve(r.doc, ptr + "/" + Show(i)) == Some(v)
      && ApplyTest(r.doc, path, v) == Err(InvalidTest)
  {
    var digits := Show(i);
    var key := "+" + digits;
    var path := ptr + "/" + key;
    DigitsHaveNoTilde(digits);
    assert '/' !in key && '~' !in key by {
      forall j | 0 <= j < |key| ensures key[j] != '/' && key[j] != '~' {
        if j > 0 { assert key[j] == digits[j - 1]; }
      }
    }
    ValueOfShow(i);
    assert PlusDigits(key, i) by { assert key[1..] == digits; }
    ParseIdxAccepts(key, |a| + 1, i);
    SplitAtOfJoin(ptr, key);
    assert key != "-";
    AddArrayElement(doc, path, ptr, key, a, v);
    var r := ApplyAdd(doc, path, v);
    var grown := a[..i] + [v] + a[i..];
    ResolveElement(r.doc, ptr, grown, i);
    UnescapePlain(key);
    ResolveChild(r.doc, ptr, key);
    assert ArrayIndex(key) == None;
  }

  /** A move whose add fails loses the moved member: `{"a":1}` becomes `{}`. */
  lemma MoveToMissingParent()
    ensures ApplyMove(JObj(map["a" := JNum(1)]), "/a", "/x/y") == Applied(EmptyObject, Err(InvalidPointer))
  {
    var doc := JObj(map["a" := JNum(1)]);
    SplitAtOfJoin("", "a");
    assert "" + "/" + "a" == "/a";
    SplitAtOfJoin("/x", "y");
    assert "/x" + "/" + "y" == "/x/y";
    assert map["a" := JNum(1)] - {"a"} == map[];
    assert "" + "/" + "x" == "/x";
    TokensOfSegment("x");
    UnescapePlain("x");
    assert Tokens("/x") == Some(["x"]);
    assert !MovesIntoChild("/a", "/x/y") by { assert "/x/y"[..2] != "/a"; }
  }
}
