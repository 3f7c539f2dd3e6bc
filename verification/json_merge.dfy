/** JSON Merge Patch: the in-place `merge_patch` against the function of RFC 7396. */
module JsonMerge {
  import opened Wrappers
  import opened JsonValue

  function MembersOf(j: Json): map<string, Json> {
    if j.Obj? then j.members else map[]
  }

  function MemberOrNull(members: map<string, Json>, key: string): Json {
    if key in members then members[key] else Null
  }

  /** MergePatch of section 2 of RFC 7396, stated member by member. */
  function MergePatch(target: Json, patch: Json): Json
    decreases patch
  {
    match patch
    case Obj(p) =>
      var t := MembersOf(target);
      Obj(map k | k in t.Keys + p.Keys && (k in p ==> !p[k].Null?) ::
        if k in p then MergePatch(MemberOrNull(t, k), p[k]) else t[k])
    case _ => patch
  }

  // ----- what a merge leaves where -----

  /** The value that a path of member names leads to, if there is one. */
  function MemberAt(j: Json, keys: seq<string>): Option<Json> {
    if keys == [] then Some(j)
    else if j.Obj? && keys[0] in j.members then MemberAt(j.members[keys[0]], keys[1..])
    else None
  }

  lemma {:induction false} MergedAt(target: Json, patch: Json, keys: seq<string>)
    requires MemberAt(patch, keys).Some?
    ensures var v := MemberAt(patch, keys).value;
            var was := MemberAt(target, keys);
            MemberAt(MergePatch(target, patch), keys)
            == if v.Null? && keys != [] then None
               else Some(MergePatch(if was.Some? then was.value else Null, v))
    decreases keys
  {
    if keys == [] {
    } else {
      var k := keys[0];
      MergedAt(MemberOrNull(MembersOf(target), k), patch.members[k], keys[1..]);
      if |keys| > 1 && patch.members[k].Null? {
        assert false;
      }
    }
  }

  /** A value in the patch that is neither null nor an object takes its place in the result; a null
      deletes; an object is merged with what is there. */
  lemma MergeWrites(target: Json, patch: Json, keys: seq<string>)
    requires MemberAt(patch, keys).Some?
    ensures var v := MemberAt(patch, keys).value;
            var now := MemberAt(MergePatch(target, patch), keys);
            (v.Null? && keys != [] ==> now == None)
            && (!v.Null? && !v.Obj? ==> now == Some(v))
            && (v.Obj? && MemberAt(target, keys).Some? ==> now == Some(MergePatch(MemberAt(target, keys).value, v)))
  {
    MergedAt(target, patch, keys);
  }

  /** What the patch does not mention, though it has an object around it, stays as it is. */
  lemma {:induction false} MergeKeeps(target: Json, patch: Json, keys: seq<string>, i: nat)
    requires i < |keys| && MemberAt(patch, keys[..i]).Some?
    requires MemberAt(patch, keys[..i]).value.Obj? && keys[i] !in MemberAt(patch, keys[..i]).value.members
    ensures MemberAt(MergePatch(target, patch), keys) == MemberAt(target, keys)
    decreases keys
  {
    if i == 0 {
    } else {
      var k := keys[0];
      assert keys[..i][1..] == keys[1..][..i - 1];
      MergeKeeps(MemberOrNull(MembersOf(target), k), patch.members[k], keys[1..], i - 1);
    }
  }

  /** Merging a patch twice is merging it once. */
  lemma {:induction false} MergeIdempotent(target: Json, patch: Json)
    ensures MergePatch(MergePatch(target, patch), patch) == MergePatch(target, patch)
    decreases patch
  {
    if !patch.Obj? {
    } else {
      var p := patch.members;
      var once := MergePatch(target, patch).members;
      var twice := MergePatch(Obj(once), patch).members;
      assert twice.Keys == once.Keys;
      forall k | k in once
        ensures twice[k] == once[k]
      {
        if k in p {
          MergeIdempotent(MemberOrNull(MembersOf(target), k), p[k]);
        }
      }
    }
  }

  /** The documents a merge onto `target` can produce: below an object, each member is either the
      target's own, or non-null and producible in turn. */
  predicate Reachable(target: Json, wanted: Json)
    decreases wanted
  {
    wanted.Obj? ==>
      var t := MembersOf(target);
      forall k | k in wanted.members ::
        (k in t && t[k] == wanted.members[k])
        || (!wanted.members[k].Null? && Reachable(MemberOrNull(t, k), wanted.members[k]))
  }

  /** A patch from `target` to `wanted`, where there is one. */
  function PatchTo(target: Json, wanted: Json): Json
    decreases wanted
  {
    match wanted
    case Obj(w) =>
      var t := MembersOf(target);
      Obj(map k | k in t.Keys + w.Keys && !(k in w && k in t && t[k] == w[k]) ::
        if k in w then PatchTo(MemberOrNull(t, k), w[k]) else Null)
    case _ => wanted
  }

  lemma {:induction false} PatchToReaches(target: Json, wanted: Json)
    requires Reachable(target, wanted)
    ensures MergePatch(target, PatchTo(target, wanted)) == wanted
    ensures PatchTo(target, wanted).Null? <==> wanted.Null?
    decreases wanted
  {
    if !wanted.Obj? {
    } else {
      var t, w := MembersOf(target), wanted.members;
      var result := MergePatch(target, PatchTo(target, wanted)).members;
      forall k | k in w
        ensures k in result && result[k] == w[k]
      {
        if !(k in t && t[k] == w[k]) {
          PatchToReaches(MemberOrNull(t, k), w[k]);
        }
      }
      assert result.Keys == w.Keys;
    }
  }

  lemma {:induction false} MergeIsReachable(target: Json, patch: Json)
    ensures Reachable(target, MergePatch(target, patch))
    ensures MergePatch(target, patch).Null? <==> patch.Null?
    decreases patch
  {
    if !patch.Obj? {
    } else {
      var t, p := MembersOf(target), patch.members;
      var merged := MergePatch(target, patch).members;
      forall k | k in merged
        ensures (k in t && t[k] == merged[k]) || (!merged[k].Null? && Reachable(MemberOrNull(t, k), merged[k]))
      {
        if k in p {
          MergeIsReachable(MemberOrNull(t, k), p[k]);
        }
      }
    }
  }

  /** Some merge patch turns `target` into `wanted` exactly when `wanted` is reachable: null members
      can be kept from the target but never written. */
  lemma MergeReaches(target: Json, wanted: Json)
    ensures (exists patch :: MergePatch(target, patch) == wanted) <==> Reachable(target, wanted)
  {
    if Reachable(target, wanted) {
      PatchToReaches(target, wanted);
    }
    forall patch | MergePatch(target, patch) == wanted
      ensures Reachable(target, wanted)
    {
      MergeIsReachable(target, patch);
    }
  }

  /** `merge_patch` on the node holding `node`; the members of the patch are visited in any order. */
  method MergeInto(node: Json, patch: Json) returns (result: Json)
    ensures result == MergePatch(node, patch)
    decreases patch
  {
    if !patch.Obj? {
      return patch;
    }
    var p := patch.members;
    var now := if node.Obj? then node.members else map[];
    ghost var before := now;
    var todo := p.Keys;
    while todo != {}
      invariant todo <= p.Keys
      invariant forall k :: k in now <==>
        if k in p && k !in todo then !p[k].Null? else k in before
      invariant forall k | k in now ::
        now[k] == if k in p && k !in todo then MergePatch(MemberOrNull(before, k), p[k]) else before[k]
      decreases todo
    {
      var k :| k in todo;
      var v := p[k];
      if v.Null? {
        now := now - {k};
      } else {
        if k !in now {
          now := now[k := Null];
        }
        var child := MergeInto(now[k], v);
        now := now[k := child];
      }
      todo := todo - {k};
    }
    result := Obj(now);
    assert now == MergePatch(node, patch).members;
  }
}
