/**
 * JSON Merge Patch (RFC 7396, section 2): objects are merged member by
 * member, a `null` member deletes, and anything else replaces wholesale.
 * Merging cannot fail.
 */
module MergePatch {
  import opened JsonValue

  /** The members of a value when it is used as a merge target: none unless it is an object. */
  function TargetMembers(target: Json): map<string, Json> {
    if target.JObj? then target.members else map[]
  }

  /** A member as a merge target: `null` when absent. */
  function MemberOrNull(m: map<string, Json>, key: string): Json {
    if key in m then m[key] else JNull
  }

  /** The MergePatch function of section 2 of RFC 7396. */
  function Merge(target: Json, patch: Json): Json
    decreases patch
  {
    if !patch.JObj? then patch
    else
      var t := TargetMembers(target);
      var pm := patch.members;
      JObj(map k | k in t.Keys + pm.Keys && !(k in pm && pm[k] == JNull) ::
             if k in pm then Merge(MemberOrNull(t, k), pm[k]) else t[k])
  }

  /**
   * `merge_mut`.  The target is updated in place in the library; here its
   * new value is returned.  The three arms are those of the library: both
   * objects, an object target with any other patch, and any other target,
   * which becomes `{}` before the merge is retried once.
   */
  method MergeMut(value: Json, patch: Json) returns (r: Json)
    ensures r == Merge(value, patch)
    decreases patch, if value.JObj? then 0 else 1
  {
    if value.JObj? && patch.JObj? {
      var members := value.members;
      var todo := patch.members.Keys;
      ghost var done: set<string> := {};
      while todo != {}
        invariant todo + done == patch.members.Keys && todo !! done
        invariant members == map k | k in value.members.Keys + done && !(k in done && patch.members[k] == JNull) ::
                    if k in done then Merge(MemberOrNull(value.members, k), patch.members[k]) else value.members[k]
        decreases todo
      {
        var name :| name in todo;
        var other := patch.members[name];
        if other == JNull {
          members := members - {name};
        } else {
          var current := MemberOrNull(members, name);
          assert current == MemberOrNull(value.members, name);
          var merged := MergeMut(current, other);
          members := members[name := merged];
        }
        todo := todo - {name};
        done := done + {name};
      }
      r := JObj(members);
    } else if value.JObj? {
      r := patch;
    } else {
      r := MergeMut(EmptyObject, patch);
    }
  }

  /** `merge_ref`: the merge applied to a copy; the input is left as it was. */
  method MergeRef(value: Json, patch: Json) returns (r: Json)
    ensures r == Merge(value, patch)
  {
    r := MergeMut(value, patch);
  }
}
