/** Laws of JSON Merge Patch (RFC 7396). */
module MergeProperties {
  import opened JsonValue
  import opened MergePatch

  /**
   * Against an object patch, a key is in the result exactly when the patch
   * gives it a non-null value, or the patch does not mention it and the
   * target has it; a non-null patch member is merged into the target's member
   * (or into `null`); an unmentioned member keeps its value.
   */
  lemma MergeMembers(target: Json, patch: Json, k: string)
    requires patch.JObj?
    ensures Merge(target, patch).JObj?
    ensures var t := TargetMembers(target);
      var pm := patch.members;
      var m := Merge(target, patch).members;
      && (k in m <==> if k in pm then pm[k] != JNull else k in t)
      && (k in pm && pm[k] != JNull ==> m[k] == Merge(MemberOrNull(t, k), pm[k]))
      && (k !in pm && k in t ==> m[k] == t[k])
  {
  }

  /** A patch that is not an object replaces the target, `null` included. */
  lemma NonObjectPatchReplaces(target: Json, patch: Json)
    requires !patch.JObj?
    ensures Merge(target, patch) == patch
  {
  }

  /** A target that is not an object is merged as if it were `{}`. */
  lemma NonObjectTargetIsEmpty(target: Json, patch: Json)
    requires !target.JObj?
    ensures Merge(target, patch) == Merge(EmptyObject, patch)
  {
  }

  /** No object member anywhere in the value is `null`. */
  predicate NullFree(j: Json) {
    match j
    case JObj(m) => forall k :: k in m ==> m[k] != JNull && NullFree(m[k])
    case _ => true
  }

  /** Merging a patch without `null` members into `{}` (or into a non-object) gives the patch back. */
  lemma {:induction false} MergeIntoEmpty(target: Json, patch: Json)
    requires TargetMembers(target) == map[]
    requires NullFree(patch)
    ensures Merge(target, patch) == patch
    decreases patch
  {
    if patch.JObj? {
      var pm := patch.members;
      var m := Merge(target, patch).members;
      forall k | k in pm
        ensures Merge(JNull, pm[k]) == pm[k]
      {
        MergeIntoEmpty(JNull, pm[k]);
      }
      assert m.Keys == pm.Keys;
      assert m == pm;
    }
  }

  /** Merging the same patch a second time changes nothing. */
  lemma {:induction false} MergeIdempotent(target: Json, patch: Json)
    ensures Merge(Merge(target, patch), patch) == Merge(target, patch)
    decreases patch
  {
    if patch.JObj? {
      var pm := patch.members;
      var once := Merge(target, patch);
      var t := TargetMembers(target);
      var m1 := once.members;
      var m2 := Merge(once, patch).members;
      forall k | k in pm && pm[k] != JNull
        ensures Merge(MemberOrNull(m1, k), pm[k]) == m1[k]
      {
        MergeIdempotent(MemberOrNull(t, k), pm[k]);
      }
      assert m2.Keys == m1.Keys;
      assert m2 == m1;
    }
  }

  /** Examples from Appendix A of RFC 7396. */
  lemma AppendixA()
    ensures Merge(JObj(map["a" := JStr("b")]), JObj(map["a" := JStr("c")])) == JObj(map["a" := JStr("c")])
    ensures Merge(JObj(map["a" := JStr("b")]), JObj(map["a" := JNull])) == JObj(map[])
    ensures Merge(JObj(map["a" := JStr("b"), "b" := JStr("c")]), JObj(map["a" := JNull])) == JObj(map["b" := JStr("c")])
    ensures Merge(JObj(map["e" := JNull]), JObj(map["a" := JNum(1)])) == JObj(map["e" := JNull, "a" := JNum(1)])
    ensures Merge(JArr([JNum(1), JNum(2)]), JObj(map["a" := JStr("b"), "c" := JNull])) == JObj(map["a" := JStr("b")])
    ensures Merge(JObj(map["a" := JStr("foo")]), JNull) == JNull
  {
    var r := Merge(JObj(map["a" := JStr("b"), "b" := JStr("c")]), JObj(map["a" := JNull]));
    assert r.members.Keys == {"b"};
    var e := Merge(JObj(map["e" := JNull]), JObj(map["a" := JNum(1)]));
    assert e.members.Keys == {"e", "a"};
    var c := Merge(JArr([JNum(1), JNum(2)]), JObj(map["a" := JStr("b"), "c" := JNull]));
    assert c.members.Keys == {"a"};
  }

  /** The nested example of Appendix A: a member deleted inside a merged member. */
  lemma AppendixANested()
    ensures Merge(JObj(map["a" := JObj(map["b" := JStr("c")])]), JObj(map["a" := JObj(map["b" := JStr("d"), "c" := JNull])]))
      == JObj(map["a" := JObj(map["b" := JStr("d")])])
    ensures Merge(EmptyObject, JObj(map["a" := JObj(map["bb" := JObj(map["ccc" := JNull])])]))
      == JObj(map["a" := JObj(map["bb" := EmptyObject])])
  {
    var inner := Merge(JObj(map["b" := JStr("c")]), JObj(map["b" := JStr("d"), "c" := JNull]));
    assert inner.members.Keys == {"b"};
    assert inner == JObj(map["b" := JStr("d")]);
    var outer := Merge(JObj(map["a" := JObj(map["b" := JStr("c")])]), JObj(map["a" := JObj(map["b" := JStr("d"), "c" := JNull])]));
    assert outer.members.Keys == {"a"} && outer.members["a"] == inner;
    assert outer.members == map["a" := inner];
    var deep := Merge(JNull, JObj(map["ccc" := JNull]));
    assert deep.members.Keys == {};
    assert deep == EmptyObject;
    var mid := Merge(JNull, JObj(map["bb" := JObj(map["ccc" := JNull])]));
    assert mid.members.Keys == {"bb"} && mid.members["bb"] == deep;
    assert mid.members == map["bb" := EmptyObject];
    var top := Merge(EmptyObject, JObj(map["a" := JObj(map["bb" := JObj(map["ccc" := JNull])])]));
    assert top.members.Keys == {"a"} && top.members["a"] == mid;
    assert top.members == map["a" := mid];
  }
}
