/** What each kind of patch element does, told through the others. */
module JsonElementLaws {
  import opened Decimals
  import opened JsonValue
  import opened JsonPointer
  import opened JsonPatch
  import opened JsonDiff
  import opened JsonLaws
  import JsonPointerLaws

  function MoveOp(from: string, path: string): Json {
    Obj(map["op" := Str("move"), "from" := Str(from), "path" := Str(path)])
  }

  function CopyOp(from: string, path: string): Json {
    Obj(map["op" := Str("copy"), "from" := Str(from), "path" := Str(path)])
  }

  function TestOp(path: string, v: Json): Json {
    Obj(map["op" := Str("test"), "path" := Str(path), "value" := v])
  }

  // ----- from elements to operations -----

  lemma OpsApply(doc: Json, path: string, ptr: seq<string>, v: Json)
    requires Split(path) == Ok(ptr)
    ensures ApplyOp(doc, AddOp(path, v)) == Add(doc, ptr, v)
    ensures ApplyOp(doc, RemoveOp(path)) == Remove(doc, ptr)
    ensures ApplyOp(doc, ReplaceOp(path, v)) == Replace(doc, ptr, v)
  {
    DecodeOps(path, v);
  }

  lemma TestApplies(doc: Json, path: string, ptr: seq<string>, v: Json)
    requires Split(path) == Ok(ptr)
    ensures ApplyOp(doc, TestOp(path, v)) == Test(doc, ptr, v)
  {
    var m := TestOp(path, v).members;
    assert StringMember(m, "op") == Ok("test") && StringMember(m, "path") == Ok(path) && Member(m, "value") == Ok(v);
  }

  lemma MoveApplies(doc: Json, from: string, path: string, f: seq<string>, p: seq<string>)
    requires Split(from) == Ok(f) && Split(path) == Ok(p)
    ensures ApplyOp(doc, MoveOp(from, path)) == Move(doc, f, p)
  {
    var m := MoveOp(from, path).members;
    assert StringMember(m, "op") == Ok("move") && StringMember(m, "path") == Ok(path);
    assert StringMember(m, "from") == Ok(from);
  }

  lemma CopyApplies(doc: Json, from: string, path: string, f: seq<string>, p: seq<string>)
    requires Split(from) == Ok(f) && Split(path) == Ok(p)
    ensures ApplyOp(doc, CopyOp(from, path)) == Copy(doc, f, p)
  {
    var m := CopyOp(from, path).members;
    assert StringMember(m, "op") == Ok("copy") && StringMember(m, "path") == Ok(path);
    assert StringMember(m, "from") == Ok(from);
  }

  lemma TwoOps(doc: Json, a: Json, b: Json)
    ensures ApplyOps(doc, [a, b]) == if ApplyOp(doc, a).Done? then ApplyOp(ApplyOp(doc, a).doc, b) else ApplyOp(doc, a)
  {
    assert [a, b][1..] == [b];
    OneOp(ApplyOp(doc, a).doc, b);
  }

  // ----- one element told through others (section 4 of RFC 6902) -----

  /** "move" is a "remove" at its source and an "add" of what was there; nothing happens without a source. */
  lemma MoveIsRemoveAdd(doc: Json, from: string, path: string, f: seq<string>, p: seq<string>)
    requires Split(from) == Ok(f) && Split(path) == Ok(p)
    ensures ApplyOp(doc, MoveOp(from, path))
            == if At(doc, f).Ok? then ApplyOps(doc, [RemoveOp(from), AddOp(path, At(doc, f).value)])
               else Failed(doc, At(doc, f).error)
  {
    MoveApplies(doc, from, path, f, p);
    if At(doc, f).Ok? {
      var v := At(doc, f).value;
      TwoOps(doc, RemoveOp(from), AddOp(path, v));
      OpsApply(doc, from, f, v);
      OpsApply(Remove(doc, f).doc, path, p, v);
    }
  }

  /** "copy" is an "add" of what is at its source. */
  lemma CopyIsAdd(doc: Json, from: string, path: string, f: seq<string>, p: seq<string>)
    requires Split(from) == Ok(f) && Split(path) == Ok(p)
    ensures ApplyOp(doc, CopyOp(from, path))
            == if At(doc, f).Ok? then ApplyOp(doc, AddOp(path, At(doc, f).value)) else Failed(doc, At(doc, f).error)
  {
    CopyApplies(doc, from, path, f, p);
    if At(doc, f).Ok? {
      OpsApply(doc, path, p, At(doc, f).value);
    }
  }

  /** "replace" of what exists below the root is a "remove" and an "add" at the same place; of the root,
      the new value; without a target it fails as reading the target does. */
  lemma ReplaceIsRemoveAdd(doc: Json, path: string, ptr: seq<string>, v: Json)
    requires Split(path) == Ok(ptr)
    ensures ApplyOp(doc, ReplaceOp(path, v))
            == if At(doc, ptr).Err? then Failed(doc, At(doc, ptr).error)
               else if ptr == [] then Done(v)
               else ApplyOps(doc, [RemoveOp(path), AddOp(path, v)])
  {
    OpsApply(doc, path, ptr, v);
    if ptr != [] && At(doc, ptr).Ok? {
      TwoOps(doc, RemoveOp(path), AddOp(path, v));
      AtParent(doc, ptr);
      AtLast(doc, ptr);
      var parent := At(doc, Init(ptr)).value;
      RemoveThenReplaceChild(parent, Last(ptr), v);
      var removed := RemoveChild(parent, Last(ptr)).value;
      PutLaws(doc, Init(ptr), removed, PutChild(parent, Last(ptr), v));
      if |ptr| > 1 {
        AtTop(Put(doc, Init(ptr), removed), ptr);
      }
      OpsApply(Put(doc, Init(ptr), removed), path, ptr, v);
      PutLast(doc, ptr, v);
    }
  }

  lemma RemoveThenReplaceChild(parent: Json, last: string, v: Json)
    requires Child(parent, last).Ok?
    ensures RemoveChild(parent, last).Ok?
    ensures AddChild(RemoveChild(parent, last).value, last, v) == Ok(PutChild(parent, last, v))
  {
    var removed := RemoveChild(parent, last).value;
    if parent.Obj? {
      assert removed.members[last := v] == parent.members[last := v];
    } else {
      var i := ArrayIndex(last).value;
      assert InsertAt(removed.elems, i, v) == parent.elems[i := v];
    }
  }

  lemma PutLast(doc: Json, ptr: seq<string>, v: Json)
    requires ptr != [] && At(doc, ptr).Ok?
    ensures At(doc, Init(ptr)).Ok? && Child(At(doc, Init(ptr)).value, Last(ptr)).Ok?
    ensures Put(doc, ptr, v) == Put(doc, Init(ptr), PutChild(At(doc, Init(ptr)).value, Last(ptr), v))
  {
    AtParent(doc, ptr);
    AtLast(doc, ptr);
    assert ptr == Init(ptr) + [Last(ptr)];
    AtConcat(doc, Init(ptr), [Last(ptr)]);
    var parent := At(doc, Init(ptr)).value;
    assert [Last(ptr)][1..] == [] && Put(parent, [Last(ptr)], v) == PutChild(parent, Last(ptr), v);
    assert Put(doc, Init(ptr) + [Last(ptr)], v) == Put(doc, Init(ptr), Put(parent, [Last(ptr)], v));
  }

  /** "test" passes exactly on an equal value. Otherwise it fails with its own exception, unless reading
      the target throws one about the pointer's syntax. */
  lemma TestPasses(doc: Json, path: string, ptr: seq<string>, v: Json)
    requires Split(path) == Ok(ptr)
    ensures ApplyOp(doc, TestOp(path, v)) == Done(doc) <==> At(doc, ptr) == Ok(v)
    ensures At(doc, ptr) != Ok(v) ==>
      ApplyOp(doc, TestOp(path, v))
      == Failed(doc, if At(doc, ptr).Err? && At(doc, ptr).error in {Exception(106), Exception(109)}
                     then At(doc, ptr).error else Exception(501))
  {
    TestApplies(doc, path, ptr, v);
    if At(doc, ptr).Err? {
      AtErrors(doc, ptr);
    }
  }

  /** Every exception that checked access can throw. */
  lemma {:induction false} AtErrors(j: Json, toks: seq<string>)
    requires At(j, toks).Err?
    ensures At(j, toks).error in {Exception(106), Exception(109), Exception(401), Exception(402), Exception(403),
                                  Exception(404), Exception(410)}
    decreases toks
  {
    if Child(j, toks[0]).Err? {
    } else {
      AtErrors(Child(j, toks[0]).value, toks[1..]);
    }
  }

  // ----- when "add" and "remove" succeed -----

  /** "add" succeeds at the root, at any key under an object or a null, and under an array at "-" and at
      every index up to its length. */
  lemma AddSucceeds(doc: Json, ptr: seq<string>, v: Json)
    ensures Add(doc, ptr, v).Done?
            <==> ptr == []
                 || (At(doc, Init(ptr)).Ok?
                     && var parent := At(doc, Init(ptr)).value;
                        parent.Null? || parent.Obj?
                        || (parent.Arr?
                            && (Last(ptr) == "-"
                                || exists i: nat | i <= |parent.elems| && i < SIZE_MAX :: Last(ptr) == Decimal(i))))
  {
    if ptr != [] && At(doc, Init(ptr)).Ok? {
      if |ptr| > 1 {
        AtTop(doc, ptr);
      }
      var parent := At(doc, Init(ptr)).value;
      if parent.Arr? {
        if ArrayIndex(Last(ptr)).Ok? {
          ArrayIndexCanonical(Last(ptr), ArrayIndex(Last(ptr)).value);
        }
        forall i: nat | i <= |parent.elems| && i < SIZE_MAX && Last(ptr) == Decimal(i)
          ensures ArrayIndex(Last(ptr)) == Ok(i)
        {
          ArrayIndexCanonical(Last(ptr), i);
        }
      }
    }
  }

  /** A failing "add" fails as reading its parent does or, in an array, as reading the place would with
      one more element there. */
  lemma AddFails(doc: Json, ptr: seq<string>, v: Json)
    requires Add(doc, ptr, v).Failed?
    ensures ptr != []
    ensures var parent := At(doc, Init(ptr));
            Add(doc, ptr, v).error
            == if parent.Err? then parent.error
               else if parent.value.Arr? && Child(Arr(parent.value.elems + [v]), Last(ptr)).Err? then
                 Child(Arr(parent.value.elems + [v]), Last(ptr)).error
               else AssertionFailure
    ensures At(doc, Init(ptr)).Ok? && At(doc, Init(ptr)).value.Arr? ==>
      Child(Arr(At(doc, Init(ptr)).value.elems + [v]), Last(ptr)).Err?
  {
    if At(doc, Init(ptr)).Ok? {
      if |ptr| > 1 {
        AtTop(doc, ptr);
      }
    } else if |ptr| > 1 && At(doc, ptr[..1]).Err? {
      ErrorOfPrefix(doc, ptr[..1], Init(ptr)[1..]);
      assert Init(ptr) == ptr[..1] + Init(ptr)[1..];
    }
  }

  lemma {:induction false} ErrorOfPrefix(j: Json, a: seq<string>, b: seq<string>)
    requires At(j, a).Err?
    ensures At(j, a + b) == At(j, a)
    decreases a
  {
    assert (a + b)[0] == a[0] && (a + b)[1..] == a[1..] + b;
    if Child(j, a[0]).Err? {
    } else {
      ErrorOfPrefix(Child(j, a[0]).value, a[1..], b);
    }
  }

  /** A failing "remove" fails as reading its target does, but for "-", which it takes for a bad index. */
  lemma RemoveFails(doc: Json, ptr: seq<string>)
    requires Remove(doc, ptr).Failed?
    ensures Remove(doc, ptr)
            == Failed(doc, if ptr == [] then Exception(405)
                           else if At(doc, ptr) == Err(Exception(402)) && At(doc, Init(ptr)).Ok? then Exception(404)
                           else if At(doc, ptr).Err? then At(doc, ptr).error else AssertionFailure)
    ensures ptr != [] ==> At(doc, ptr).Err?
  {
    if ptr != [] {
      if At(doc, Init(ptr)).Ok? {
        AtLast(doc, ptr);
        DashIsNoIndex();
      } else {
        assert ptr == Init(ptr) + [Last(ptr)];
        ErrorOfPrefix(doc, Init(ptr), [Last(ptr)]);
      }
    }
  }

  /** "add" of a member that exists is a "replace". */
  lemma AddReplacesMember(doc: Json, ptr: seq<string>, v: Json)
    requires ptr != [] && At(doc, Init(ptr)).Ok? && At(doc, Init(ptr)).value.Obj?
    requires Last(ptr) in At(doc, Init(ptr)).value.members
    ensures Add(doc, ptr, v) == Replace(doc, ptr, v)
  {
    if |ptr| > 1 {
      AtTop(doc, ptr);
    }
    AtLast(doc, ptr);
    PutLast(doc, ptr, v);
  }

  /** "add" under a null makes an object of it first. */
  lemma AddUnderNull(doc: Json, ptr: seq<string>, v: Json)
    requires ptr != [] && At(doc, Init(ptr)) == Ok(Null)
    ensures Add(doc, ptr, v) == Add(Put(doc, Init(ptr), Obj(map[])), ptr, v)
  {
    var empty := Put(doc, Init(ptr), Obj(map[]));
    PutLaws(doc, Init(ptr), Obj(map[]), Obj(map[Last(ptr) := v]));
    if |ptr| > 1 {
      AtTop(doc, ptr);
      AtTop(empty, ptr);
    }
    assert map[][Last(ptr) := v] == map[Last(ptr) := v];
  }

  // ----- malformed elements -----

  /** An object with a known "op" and a "path", and with the "value" or the "from" that "op" needs. */
  predicate WellFormedElement(val: Json) {
    val.Obj?
    && var m := val.members;
       var op := StringMember(m, "op");
       op.Ok? && PointerMember(m, "path").Ok?
       && op.value in {"add", "remove", "replace", "move", "copy", "test"}
       && (op.value in {"add", "replace", "test"} ==> "value" in m)
       && (op.value in {"move", "copy"} ==> PointerMember(m, "from").Ok?)
  }

  /** A malformed element changes nothing and throws a parse error: 104 when it is no object, 105 for a
      member that is missing or wrong, and that of the pointer when one of its texts is none. */
  lemma MalformedFails(doc: Json, val: Json)
    requires !WellFormedElement(val)
    ensures ApplyOp(doc, val).Failed? && ApplyOp(doc, val).doc == doc
    ensures ApplyOp(doc, val).error == Exception(104) <==> !val.Obj?
    ensures val.Obj? && (forall k | k in {"path", "from"} && StringMember(val.members, k).Ok? ::
                           Split(val.members[k].s).Ok?) ==>
              ApplyOp(doc, val).error == Exception(105)
  {
    if val.Obj? {
      var m := val.members;
      PointerMemberFails(m, "path");
      PointerMemberFails(m, "from");
      if StringMember(m, "op").Ok? && PointerMember(m, "path").Ok? {
        DecodedFails(doc, m, StringMember(m, "op").value, PointerMember(m, "path").value);
      }
    }
  }

  lemma DecodedFails(doc: Json, m: map<string, Json>, op: string, ptr: seq<string>)
    requires op in {"add", "replace", "test"} ==> "value" !in m
    requires op in {"move", "copy"} ==> PointerMember(m, "from").Err?
    requires op != "remove"
    ensures ApplyDecoded(doc, m, op, ptr)
            == Failed(doc, if op in {"move", "copy"} then PointerMember(m, "from").error else Exception(105))
  {
  }

  lemma PointerMemberFails(m: map<string, Json>, member: string)
    ensures PointerMember(m, member).Err? ==>
      PointerMember(m, member).error
      == if StringMember(m, member).Err? then Exception(105) else Split(m[member].s).error
    ensures PointerMember(m, member).Err? ==> PointerMember(m, member).error != Exception(104)
  {
    if StringMember(m, member).Ok? && Split(m[member].s).Err? {
      JsonPointerLaws.SplitFails(m[member].s);
    }
  }

  /** A patch is an array, whose elements are applied one after another until one fails. */
  lemma PatchByElements(doc: Json, patch: Json, ops: seq<Json>, op: Json)
    ensures ApplyPatch(doc, patch).Done? ==> patch.Arr?
    ensures !patch.Arr? ==> ApplyPatch(doc, patch) == Failed(doc, Exception(104))
    ensures ApplyPatch(doc, Arr([])) == Done(doc)
    ensures var before := ApplyPatch(doc, Arr(ops));
            ApplyPatch(doc, Arr(ops + [op])) == if before.Done? then ApplyOp(before.doc, op) else before
  {
    ApplyOpsConcat(doc, ops, [op]);
    OneOp(ApplyOps(doc, ops).doc, op);
  }
}
