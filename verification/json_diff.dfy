/** `diff`: a patch that turns one document into another. */
module JsonDiff {
  import opened Wrappers
  import opened JsonValue
  import opened Decimals
  import opened JsonPointer
  import opened JsonPatch

  // ----- patch elements -----

  function ReplaceOp(path: string, v: Json): Json {
    Obj(map["op" := Str("replace"), "path" := Str(path), "value" := v])
  }

  function AddOp(path: string, v: Json): Json {
    Obj(map["op" := Str("add"), "path" := Str(path), "value" := v])
  }

  function RemoveOp(path: string): Json {
    Obj(map["op" := Str("remove"), "path" := Str(path)])
  }

  function ElemPath(path: string, i: nat): string {
    path + "/" + Decimal(i)
  }

  function KeyPath(path: string, key: string): string {
    path + "/" + Escape(key)
  }

  function Min(a: nat, b: nat): nat { if a < b then a else b }

  // ----- the operations diff emits -----

  function Diff(source: Json, target: Json, path: string): seq<Json>
    decreases source, 2
  {
    if source == target then []
    else if TypeOf(source) != TypeOf(target) then [ReplaceOp(path, target)]
    else
      match source
      case Arr(_) =>
        DiffElems(source, target, 0, path)
        + RemoveElems(|target.elems|, |source.elems|, path)
        + AddElems(target.elems, |source.elems|, path)
      case Obj(_) =>
        DiffKeys(source, target, SortedKeys(source.members.Keys), 0, path)
        + AddKeys(source, target, SortedKeys(target.members.Keys), 0, path)
      case _ => [ReplaceOp(path, target)]
  }

  /** Common elements from index `i` on. */
  function DiffElems(source: Json, target: Json, i: nat, path: string): seq<Json>
    requires source.Arr? && target.Arr?
    decreases source, 1, |source.elems| - i
  {
    if i < |source.elems| && i < |target.elems| then
      Diff(source.elems[i], target.elems[i], ElemPath(path, i)) + DiffElems(source, target, i + 1, path)
    else []
  }

  /** Removals of the elements `lo..hi`, the last one first. */
  function RemoveElems(lo: nat, hi: nat, path: string): seq<Json>
    decreases hi
  {
    if lo < hi then [RemoveOp(ElemPath(path, hi - 1))] + RemoveElems(lo, hi - 1, path) else []
  }

  /** Appends of the elements from index `i` on. */
  function AddElems(elems: seq<Json>, i: nat, path: string): seq<Json>
    decreases |elems| - i
  {
    if i < |elems| then [AddOp(path + "/-", elems[i])] + AddElems(elems, i + 1, path) else []
  }

  /** The source's keys from index `i` on: the common ones are diffed, the others removed. */
  function DiffKeys(source: Json, target: Json, keys: seq<string>, i: nat, path: string): seq<Json>
    requires source.Obj? && target.Obj? && forall j | 0 <= j < |keys| :: keys[j] in source.members
    decreases source, 1, |keys| - i
  {
    if i >= |keys| then [] else
    var k := keys[i];
    (if k in target.members then Diff(source.members[k], target.members[k], KeyPath(path, k))
     else [RemoveOp(KeyPath(path, k))])
    + DiffKeys(source, target, keys, i + 1, path)
  }

  /** The target's keys from index `i` on that the source lacks. */
  function AddKeys(source: Json, target: Json, keys: seq<string>, i: nat, path: string): seq<Json>
    requires source.Obj? && target.Obj? && forall j | 0 <= j < |keys| :: keys[j] in target.members
    decreases |keys| - i
  {
    if i >= |keys| then [] else
    (if keys[i] in source.members then [] else [AddOp(KeyPath(path, keys[i]), target.members[keys[i]])])
    + AddKeys(source, target, keys, i + 1, path)
  }

  // ----- what one emitted operation does to the parent at its path -----

  lemma DecodeOps(path: string, v: Json)
    ensures var m := ReplaceOp(path, v).members;
            StringMember(m, "op") == Ok("replace") && StringMember(m, "path") == Ok(path) && Member(m, "value") == Ok(v)
    ensures var m := AddOp(path, v).members;
            StringMember(m, "op") == Ok("add") && StringMember(m, "path") == Ok(path) && Member(m, "value") == Ok(v)
    ensures var m := RemoveOp(path).members;
            StringMember(m, "op") == Ok("remove") && StringMember(m, "path") == Ok(path)
  {
  }

  lemma OneOp(doc: Json, op: Json)
    ensures ApplyOps(doc, [op]) == ApplyOp(doc, op)
  {
    assert [op][1..] == [];
  }

  lemma ApplyReplace(doc: Json, path: string, toks: seq<string>, v: Json)
    requires Split(path) == Ok(toks) && At(doc, toks).Ok?
    ensures ApplyOps(doc, [ReplaceOp(path, v)]) == Done(Put(doc, toks, v))
  {
    DecodeOps(path, v);
    OneOp(doc, ReplaceOp(path, v));
  }

  lemma ChildPointer(doc: Json, toks: seq<string>, last: string)
    requires At(doc, toks).Ok?
    ensures Init(toks + [last]) == toks && Last(toks + [last]) == last
    ensures |toks| > 0 ==> At(doc, (toks + [last])[..1]).Ok?
  {
    assert Init(toks + [last]) == toks;
    if |toks| > 0 {
      assert (toks + [last])[..1] == toks[..1];
      assert toks == toks[..1] + toks[1..];
      AtPrefix(doc, toks[..1], toks[1..]);
    }
  }

  lemma ApplyAdd(doc: Json, path: string, toks: seq<string>, last: string, v: Json)
    requires Split(path) == Ok(toks) && At(doc, toks).Ok?
    requires AddChild(At(doc, toks).value, last, v).Ok?
    ensures ApplyOps(doc, [AddOp(path + "/" + Escape(last), v)])
            == Done(Put(doc, toks, AddChild(At(doc, toks).value, last, v).value))
  {
    SplitAppend(path, last);
    ChildPointer(doc, toks, last);
    var at := path + "/" + Escape(last);
    DecodeOps(at, v);
    OneOp(doc, AddOp(at, v));
    assert ApplyOp(doc, AddOp(at, v)) == Add(doc, toks + [last], v);
  }

  lemma ApplyRemove(doc: Json, path: string, toks: seq<string>, last: string)
    requires Split(path) == Ok(toks) && At(doc, toks).Ok?
    requires RemoveChild(At(doc, toks).value, last).Ok?
    ensures ApplyOps(doc, [RemoveOp(path + "/" + Escape(last))])
            == Done(Put(doc, toks, RemoveChild(At(doc, toks).value, last).value))
  {
    SplitAppend(path, last);
    ChildPointer(doc, toks, last);
    var at := path + "/" + Escape(last);
    DecodeOps(at, Null);
    OneOp(doc, RemoveOp(at));
    assert ApplyOp(doc, RemoveOp(at)) == Remove(doc, toks + [last]);
  }

  // ----- running the emitted operations against a node at some path -----

  /** `ops`, run on any document that holds `a` at `toks`, replace that subtree by `b`. */
  ghost predicate Rewrites(ops: seq<Json>, toks: seq<string>, a: Json, b: Json) {
    forall doc | At(doc, toks) == Ok(a) :: ApplyOps(doc, ops) == Done(Put(doc, toks, b))
  }

  lemma RewritesNothing(toks: seq<string>, a: Json)
    ensures Rewrites([], toks, a, a)
  {
    forall doc | At(doc, toks) == Ok(a)
      ensures ApplyOps(doc, []) == Done(Put(doc, toks, a))
    {
      PutLaws(doc, toks, a, a);
    }
  }

  lemma RewritesCompose(p: seq<Json>, q: seq<Json>, toks: seq<string>, a: Json, b: Json, c: Json)
    requires Rewrites(p, toks, a, b) && Rewrites(q, toks, b, c)
    ensures Rewrites(p + q, toks, a, c)
  {
    forall doc | At(doc, toks) == Ok(a)
      ensures ApplyOps(doc, p + q) == Done(Put(doc, toks, c))
    {
      ApplyOpsConcat(doc, p, q);
      PutLaws(doc, toks, b, c);
    }
  }

  /** Rewriting a child is rewriting its parent. */
  lemma RewritesChild(ops: seq<Json>, toks: seq<string>, key: string, a: Json, b: Json, parent: Json)
    requires Rewrites(ops, toks + [key], a, b) && Child(parent, key) == Ok(a)
    ensures Rewrites(ops, toks, parent, PutChild(parent, key, b))
  {
    forall doc | At(doc, toks) == Ok(parent)
      ensures ApplyOps(doc, ops) == Done(Put(doc, toks, PutChild(parent, key, b)))
    {
      AtConcat(doc, toks, [key]);
      assert [key][1..] == [];
      assert At(parent, [key]) == Ok(a);
      assert Put(parent, [key], b) == PutChild(parent, key, b);
    }
  }

  lemma RewritesByAdd(path: string, toks: seq<string>, last: string, v: Json, parent: Json)
    requires Split(path) == Ok(toks) && AddChild(parent, last, v).Ok?
    ensures Rewrites([AddOp(path + "/" + Escape(last), v)], toks, parent, AddChild(parent, last, v).value)
  {
    forall doc | At(doc, toks) == Ok(parent)
      ensures ApplyOps(doc, [AddOp(path + "/" + Escape(last), v)])
              == Done(Put(doc, toks, AddChild(parent, last, v).value))
    {
      ApplyAdd(doc, path, toks, last, v);
    }
  }

  lemma RewritesByRemove(path: string, toks: seq<string>, last: string, parent: Json)
    requires Split(path) == Ok(toks) && RemoveChild(parent, last).Ok?
    ensures Rewrites([RemoveOp(path + "/" + Escape(last))], toks, parent, RemoveChild(parent, last).value)
  {
    forall doc | At(doc, toks) == Ok(parent)
      ensures ApplyOps(doc, [RemoveOp(path + "/" + Escape(last))])
              == Done(Put(doc, toks, RemoveChild(parent, last).value))
    {
      ApplyRemove(doc, path, toks, last);
    }
  }

  // ----- arrays -----

  lemma IndexChild(elems: seq<Json>, i: nat)
    requires i < |elems| < SIZE_MAX
    ensures Child(Arr(elems), Decimal(i)) == Ok(elems[i])
    ensures ArrayIndex(Decimal(i)) == Ok(i)
    ensures Escape(Decimal(i)) == Decimal(i)
  {
    ArrayIndexCanonical(Decimal(i), i);
    PlainTokens(i);
    assert Decimal(i) != "-" by {
      assert Decimal(i)[0] in Decimal(i) && !IsDigit('-');
    }
  }

  /** The array part way through the first pass: elements below `i` are already the target's. */
  function Mixed(source: Json, target: Json, i: nat): Json
    requires source.Arr? && target.Arr? && i <= |source.elems| && i <= |target.elems|
  {
    Arr(target.elems[..i] + source.elems[i..])
  }

  /** Rewriting element `i` is one step of the first pass. */
  lemma MixedStep(ops: seq<Json>, source: Json, target: Json, i: nat, toks: seq<string>)
    requires source.Arr? && target.Arr? && i < |source.elems| < SIZE_MAX && i < |target.elems|
    requires Rewrites(ops, toks + [Decimal(i)], source.elems[i], target.elems[i])
    ensures Rewrites(ops, toks, Mixed(source, target, i), Mixed(source, target, i + 1))
  {
    var now := Mixed(source, target, i);
    IndexChild(now.elems, i);
    RewritesChild(ops, toks, Decimal(i), source.elems[i], target.elems[i], now);
    assert PutChild(now, Decimal(i), target.elems[i]) == Mixed(source, target, i + 1);
  }

  lemma {:induction false} ElemsRewrite(source: Json, target: Json, i: nat, path: string, toks: seq<string>)
    requires source.Arr? && target.Arr? && Representable(source) && Split(path) == Ok(toks)
    requires i <= Min(|source.elems|, |target.elems|)
    ensures var n := Min(|source.elems|, |target.elems|);
            Rewrites(DiffElems(source, target, i, path), toks, Mixed(source, target, i), Mixed(source, target, n))
    decreases source, 1, |source.elems| - i
  {
    var n := Min(|source.elems|, |target.elems|);
    if i == n {
      RewritesNothing(toks, Mixed(source, target, i));
    } else {
      PlainTokens(i);
      SplitAppend(path, Decimal(i));
      var head := Diff(source.elems[i], target.elems[i], ElemPath(path, i));
      DiffRewrites(source.elems[i], target.elems[i], ElemPath(path, i), toks + [Decimal(i)]);
      MixedStep(head, source, target, i, toks);
      ElemsRewrite(source, target, i + 1, path, toks);
      RewritesCompose(head, DiffElems(source, target, i + 1, path), toks,
                      Mixed(source, target, i), Mixed(source, target, i + 1), Mixed(source, target, n));
    }
  }

  lemma {:induction false} RemovalsRewrite(elems: seq<Json>, lo: nat, path: string, toks: seq<string>)
    requires lo <= |elems| < SIZE_MAX && Split(path) == Ok(toks)
    ensures Rewrites(RemoveElems(lo, |elems|, path), toks, Arr(elems), Arr(elems[..lo]))
    decreases |elems|
  {
    var n := |elems|;
    if lo == n {
      assert elems[..lo] == elems;
      RewritesNothing(toks, Arr(elems));
    } else {
      var rest := elems[..n - 1];
      IndexChild(elems, n - 1);
      assert EraseAt(elems, n - 1) == rest;
      RewritesByRemove(path, toks, Decimal(n - 1), Arr(elems));
      RemovalsRewrite(rest, lo, path, toks);
      assert rest[..lo] == elems[..lo];
      RewritesCompose([RemoveOp(ElemPath(path, n - 1))], RemoveElems(lo, n - 1, path), toks,
                      Arr(elems), Arr(rest), Arr(elems[..lo]));
    }
  }

  lemma {:induction false} AppendsRewrite(elems: seq<Json>, i: nat, path: string, toks: seq<string>)
    requires i <= |elems| && Split(path) == Ok(toks)
    ensures Rewrites(AddElems(elems, i, path), toks, Arr(elems[..i]), Arr(elems))
    decreases |elems| - i
  {
    if i == |elems| {
      assert elems[..i] == elems;
      RewritesNothing(toks, Arr(elems));
    } else {
      PlainTokens(0);
      assert path + "/-" == path + "/" + "-";
      RewritesByAdd(path, toks, "-", elems[i], Arr(elems[..i]));
      assert elems[..i] + [elems[i]] == elems[..i + 1];
      AppendsRewrite(elems, i + 1, path, toks);
      RewritesCompose([AddOp(path + "/-", elems[i])], AddElems(elems, i + 1, path), toks,
                      Arr(elems[..i]), Arr(elems[..i + 1]), Arr(elems));
    }
  }

  lemma {:induction false} ArrayRewrites(source: Json, target: Json, path: string, toks: seq<string>)
    requires source.Arr? && target.Arr? && Representable(source) && Split(path) == Ok(toks)
    ensures Rewrites(DiffElems(source, target, 0, path)
                     + RemoveElems(|target.elems|, |source.elems|, path)
                     + AddElems(target.elems, |source.elems|, path),
                     toks, source, target)
    decreases source, 1, |source.elems| + 1
  {
    var s, t := source.elems, target.elems;
    var n := Min(|s|, |t|);
    var common := DiffElems(source, target, 0, path);
    var removes, adds := RemoveElems(|t|, |s|, path), AddElems(t, |s|, path);
    var mixed := Mixed(source, target, n);
    assert Mixed(source, target, 0) == source;
    ElemsRewrite(source, target, 0, path, toks);
    if |t| <= |s| {
      RemovalsRewrite(mixed.elems, |t|, path, toks);
      assert mixed.elems[..|t|] == t;
      RewritesCompose(common, removes, toks, source, mixed, target);
      assert common + removes + adds == common + removes;
    } else {
      AppendsRewrite(t, |s|, path, toks);
      assert mixed.elems == t[..|s|];
      RewritesCompose(common, adds, toks, source, mixed, target);
      assert common + removes + adds == common + adds;
    }
  }

  // ----- objects -----

  /** The keys from index `i` on. */
  ghost function KeysFrom(keys: seq<string>, i: nat): set<string> {
    set j | i <= j < |keys| :: keys[j]
  }

  lemma KeysFromStep(keys: seq<string>, i: nat)
    requires i < |keys|
    ensures KeysFrom(keys, i) == {keys[i]} + KeysFrom(keys, i + 1)
  {
  }

  /** `now` once the members under `keys` are the target's, or gone where the target has none. */
  function AfterDiff(now: map<string, Json>, target: map<string, Json>, keys: set<string>): map<string, Json> {
    map k | k in now && (k in keys ==> k in target) :: if k in keys then target[k] else now[k]
  }

  lemma AfterDiffStep(now: map<string, Json>, target: map<string, Json>, k: string, rest: set<string>)
    requires k in now && k !in rest
    ensures var next := if k in target then now[k := target[k]] else now - {k};
            AfterDiff(next, target, rest) == AfterDiff(now, target, {k} + rest)
  {
    var next := if k in target then now[k := target[k]] else now - {k};
    var a, b := AfterDiff(next, target, rest), AfterDiff(now, target, {k} + rest);
    assert a.Keys == b.Keys;
    assert forall x | x in a :: a[x] == b[x];
  }

  lemma {:induction false} KeysRewrite(source: Json, target: Json, now: map<string, Json>,
                                       keys: seq<string>, i: nat, path: string, toks: seq<string>)
    requires source.Obj? && target.Obj? && Representable(source) && Split(path) == Ok(toks)
    requires Distinct(keys) && i <= |keys| && forall j | 0 <= j < |keys| :: keys[j] in source.members
    requires forall j | i <= j < |keys| :: keys[j] in now && now[keys[j]] == source.members[keys[j]]
    ensures Rewrites(DiffKeys(source, target, keys, i, path), toks,
                     Obj(now), Obj(AfterDiff(now, target.members, KeysFrom(keys, i))))
    decreases source, 1, |keys| - i
  {
    var after := AfterDiff(now, target.members, KeysFrom(keys, i));
    if i == |keys| {
      assert after == now;
      RewritesNothing(toks, Obj(now));
    } else {
      var k := keys[i];
      var head, next;
      if k in target.members {
        head := Diff(source.members[k], target.members[k], KeyPath(path, k));
        next := now[k := target.members[k]];
        SplitAppend(path, k);
        DiffRewrites(source.members[k], target.members[k], KeyPath(path, k), toks + [k]);
        RewritesChild(head, toks, k, source.members[k], target.members[k], Obj(now));
      } else {
        head := [RemoveOp(KeyPath(path, k))];
        next := now - {k};
        RewritesByRemove(path, toks, k, Obj(now));
      }
      KeysRewrite(source, target, next, keys, i + 1, path, toks);
      KeysFromStep(keys, i);
      AfterDiffStep(now, target.members, k, KeysFrom(keys, i + 1));
      RewritesCompose(head, DiffKeys(source, target, keys, i + 1, path), toks, Obj(now), Obj(next), Obj(after));
    }
  }

  /** `now` with the members of `target` under `keys`. */
  function AfterAdd(now: map<string, Json>, target: map<string, Json>, keys: set<string>): map<string, Json>
    requires keys <= target.Keys
  {
    map k | k in now.Keys + keys :: if k in keys then target[k] else now[k]
  }

  lemma AfterAddStep(now: map<string, Json>, target: map<string, Json>, k: string, rest: set<string>)
    requires k in target && rest <= target.Keys
    ensures AfterAdd(now[k := target[k]], target, rest) == AfterAdd(now, target, {k} + rest)
  {
    var a, b := AfterAdd(now[k := target[k]], target, rest), AfterAdd(now, target, {k} + rest);
    assert a.Keys == b.Keys;
    assert forall x | x in a :: a[x] == b[x];
  }

  /** Both passes together leave exactly the target's members. */
  lemma BothPasses(source: map<string, Json>, target: map<string, Json>)
    ensures AfterAdd(AfterDiff(source, target, source.Keys), target, target.Keys - source.Keys) == target
  {
    var all := AfterAdd(AfterDiff(source, target, source.Keys), target, target.Keys - source.Keys);
    assert all.Keys == target.Keys;
    assert forall k | k in all :: all[k] == target[k];
  }

  /** The members still to be added from index `i` on. */
  ghost function MissingFrom(source: map<string, Json>, keys: seq<string>, i: nat): set<string> {
    KeysFrom(keys, i) - source.Keys
  }

  lemma AddsStep(source: map<string, Json>, target: map<string, Json>, now: map<string, Json>,
                 keys: seq<string>, i: nat)
    requires i < |keys| && forall j | 0 <= j < |keys| :: keys[j] in target
    ensures MissingFrom(source, keys, i) <= target.Keys && MissingFrom(source, keys, i + 1) <= target.Keys
    ensures AfterAdd(if keys[i] in source then now else now[keys[i] := target[keys[i]]], target,
                     MissingFrom(source, keys, i + 1))
            == AfterAdd(now, target, MissingFrom(source, keys, i))
  {
    KeysFromStep(keys, i);
    if keys[i] in source {
      assert MissingFrom(source, keys, i) == MissingFrom(source, keys, i + 1);
    } else {
      assert MissingFrom(source, keys, i) == {keys[i]} + MissingFrom(source, keys, i + 1);
      AfterAddStep(now, target, keys[i], MissingFrom(source, keys, i + 1));
    }
  }

  lemma {:induction false} AddsRewrite(source: Json, target: Json, now: map<string, Json>,
                                       keys: seq<string>, i: nat, path: string, toks: seq<string>)
    requires source.Obj? && target.Obj? && Split(path) == Ok(toks)
    requires i <= |keys| && forall j | 0 <= j < |keys| :: keys[j] in target.members
    ensures MissingFrom(source.members, keys, i) <= target.members.Keys
    ensures Rewrites(AddKeys(source, target, keys, i, path), toks,
                     Obj(now), Obj(AfterAdd(now, target.members, MissingFrom(source.members, keys, i))))
    decreases |keys| - i
  {
    var s, t := source.members, target.members;
    if i == |keys| {
      assert AfterAdd(now, t, MissingFrom(s, keys, i)) == now;
      RewritesNothing(toks, Obj(now));
    } else {
      var k := keys[i];
      var head, next := [], now;
      if k in s {
        RewritesNothing(toks, Obj(now));
      } else {
        head, next := [AddOp(KeyPath(path, k), t[k])], now[k := t[k]];
        RewritesByAdd(path, toks, k, t[k], Obj(now));
      }
      AddsRewrite(source, target, next, keys, i + 1, path, toks);
      AddsStep(s, t, now, keys, i);
      RewritesCompose(head, AddKeys(source, target, keys, i + 1, path), toks,
                      Obj(now), Obj(next), Obj(AfterAdd(now, t, MissingFrom(s, keys, i))));
    }
  }

  lemma {:induction false} ObjectRewrites(source: Json, target: Json, path: string, toks: seq<string>)
    requires source.Obj? && target.Obj? && Representable(source) && Split(path) == Ok(toks)
    ensures Rewrites(DiffKeys(source, target, SortedKeys(source.members.Keys), 0, path)
                     + AddKeys(source, target, SortedKeys(target.members.Keys), 0, path),
                     toks, source, target)
    decreases source, 1, |source.members| + 1
  {
    var s, t := source.members, target.members;
    var sKeys, tKeys := SortedKeys(s.Keys), SortedKeys(t.Keys);
    assert KeysFrom(sKeys, 0) == s.Keys && KeysFrom(tKeys, 0) == t.Keys;
    var common := AfterDiff(s, t, s.Keys);
    KeysRewrite(source, target, s, sKeys, 0, path, toks);
    AddsRewrite(source, target, common, tKeys, 0, path, toks);
    assert MissingFrom(s, tKeys, 0) == t.Keys - s.Keys;
    BothPasses(s, t);
    RewritesCompose(DiffKeys(source, target, sKeys, 0, path), AddKeys(source, target, tKeys, 0, path), toks,
                    source, Obj(common), target);
  }

  // ----- main results -----

  /** Locality: run on any document holding `source` at `path`, the diff replaces exactly that
      subtree by `target` and no operation throws. */
  lemma {:induction false} DiffRewrites(source: Json, target: Json, path: string, toks: seq<string>)
    requires Representable(source) && Split(path) == Ok(toks)
    ensures Rewrites(Diff(source, target, path), toks, source, target)
    decreases source, 2
  {
    if source == target {
      RewritesNothing(toks, source);
    } else if TypeOf(source) == TypeOf(target) && source.Arr? {
      ArrayRewrites(source, target, path, toks);
    } else if TypeOf(source) == TypeOf(target) && source.Obj? {
      ObjectRewrites(source, target, path, toks);
    } else {
      assert Diff(source, target, path) == [ReplaceOp(path, target)];
      forall doc | At(doc, toks) == Ok(source)
        ensures ApplyOps(doc, [ReplaceOp(path, target)]) == Done(Put(doc, toks, target))
      {
        ApplyReplace(doc, path, toks, target);
      }
    }
  }

  /** Patching a document with its diff to another gives that other document. */
  lemma PatchWithDiff(source: Json, target: Json)
    requires Representable(source)
    ensures ApplyPatch(source, Arr(Diff(source, target, ""))) == Done(target)
  {
    DiffRewrites(source, target, "", []);
    assert At(source, []) == Ok(source);
  }

  lemma {:induction false} DiffElemsEmpty(source: Json, target: Json, i: nat, path: string)
    requires source.Arr? && target.Arr? && DiffElems(source, target, i, path) == []
    ensures forall j | i <= j < |source.elems| && j < |target.elems| :: source.elems[j] == target.elems[j]
    decreases source, 1, |source.elems| - i
  {
    if i >= |source.elems| || i >= |target.elems| {
    } else {
      DiffEmpty(source.elems[i], target.elems[i], ElemPath(path, i));
      DiffElemsEmpty(source, target, i + 1, path);
    }
  }

  lemma {:induction false} DiffKeysEmpty(source: Json, target: Json, keys: seq<string>, i: nat, path: string)
    requires source.Obj? && target.Obj? && forall j | 0 <= j < |keys| :: keys[j] in source.members
    requires DiffKeys(source, target, keys, i, path) == []
    ensures forall j | i <= j < |keys| ::
              keys[j] in target.members && source.members[keys[j]] == target.members[keys[j]]
    decreases source, 1, |keys| - i
  {
    if i >= |keys| {
    } else {
      var k := keys[i];
      if k in target.members {
        DiffEmpty(source.members[k], target.members[k], KeyPath(path, k));
      }
      DiffKeysEmpty(source, target, keys, i + 1, path);
    }
  }

  lemma {:induction false} AddKeysEmpty(source: Json, target: Json, keys: seq<string>, i: nat, path: string)
    requires source.Obj? && target.Obj? && forall j | 0 <= j < |keys| :: keys[j] in target.members
    requires AddKeys(source, target, keys, i, path) == []
    ensures forall j | i <= j < |keys| :: keys[j] in source.members
    decreases |keys| - i
  {
    if i >= |keys| {
    } else {
      AddKeysEmpty(source, target, keys, i + 1, path);
    }
  }

  lemma {:induction false} ArrayDiffEmpty(source: Json, target: Json, path: string)
    requires source.Arr? && target.Arr? && DiffElems(source, target, 0, path) == []
    requires RemoveElems(|target.elems|, |source.elems|, path) == []
    requires AddElems(target.elems, |source.elems|, path) == []
    ensures source == target
    decreases source, 1, |source.elems| + 1
  {
    DiffElemsEmpty(source, target, 0, path);
    assert source.elems == target.elems;
  }

  lemma {:induction false} ObjectDiffEmpty(
      source: Json, target: Json, sKeys: seq<string>, tKeys: seq<string>, path: string)
    requires source.Obj? && target.Obj?
    requires forall k :: k in source.members <==> k in sKeys
    requires forall k :: k in target.members <==> k in tKeys
    requires DiffKeys(source, target, sKeys, 0, path) == [] && AddKeys(source, target, tKeys, 0, path) == []
    ensures source == target
    decreases source, 1, |sKeys| + 1
  {
    DiffKeysEmpty(source, target, sKeys, 0, path);
    AddKeysEmpty(source, target, tKeys, 0, path);
    SameMembers(source.members, target.members);
  }

  lemma SameMembers<K, V>(a: map<K, V>, b: map<K, V>)
    requires forall k | k in a :: k in b && a[k] == b[k]
    requires forall k | k in b :: k in a
    ensures a == b
  {
  }

  /** The diff is empty exactly between equal documents, whatever the path argument. */
  lemma {:induction false} DiffEmpty(source: Json, target: Json, path: string)
    ensures Diff(source, target, path) == [] <==> source == target
    decreases source, 2
  {
    if Diff(source, target, path) == [] && source != target {
      if source.Arr? {
        ArrayDiffEmpty(source, target, path);
      } else if source.Obj? {
        ObjectDiffEmpty(source, target, SortedKeys(source.members.Keys), SortedKeys(target.members.Keys), path);
      }
    }
  }

  // ----- the path argument only prefixes -----

  function PrefixPath(prefix: string, op: Json): Json {
    if op.Obj? && "path" in op.members && op.members["path"].Str?
    then Obj(op.members["path" := Str(prefix + op.members["path"].s)])
    else op
  }

  function PrefixPaths(prefix: string, ops: seq<Json>): seq<Json> {
    if ops == [] then [] else [PrefixPath(prefix, ops[0])] + PrefixPaths(prefix, ops[1..])
  }

  lemma {:induction false} PrefixConcat(prefix: string, a: seq<Json>, b: seq<Json>)
    ensures PrefixPaths(prefix, a + b) == PrefixPaths(prefix, a) + PrefixPaths(prefix, b)
  {
    if a == [] {
      assert a + b == b;
    } else {
      assert (a + b)[1..] == a[1..] + b;
      PrefixConcat(prefix, a[1..], b);
    }
  }

  lemma PrefixOne(prefix: string, path: string, v: Json)
    ensures PrefixPaths(prefix, [ReplaceOp(path, v)]) == [ReplaceOp(prefix + path, v)]
    ensures PrefixPaths(prefix, [AddOp(path, v)]) == [AddOp(prefix + path, v)]
    ensures PrefixPaths(prefix, [RemoveOp(path)]) == [RemoveOp(prefix + path)]
  {
    assert PrefixPath(prefix, ReplaceOp(path, v)) == ReplaceOp(prefix + path, v);
    assert PrefixPath(prefix, AddOp(path, v)) == AddOp(prefix + path, v);
    assert PrefixPath(prefix, RemoveOp(path)) == RemoveOp(prefix + path);
  }

  lemma {:induction false} DiffElemsPrefix(source: Json, target: Json, i: nat, prefix: string, path: string)
    requires source.Arr? && target.Arr?
    ensures DiffElems(source, target, i, prefix + path) == PrefixPaths(prefix, DiffElems(source, target, i, path))
    decreases source, 1, |source.elems| - i
  {
    if i >= |source.elems| || i >= |target.elems| {
    } else {
      assert ElemPath(prefix + path, i) == prefix + ElemPath(path, i);
      DiffPrefix(source.elems[i], target.elems[i], prefix, ElemPath(path, i));
      DiffElemsPrefix(source, target, i + 1, prefix, path);
      PrefixConcat(prefix, Diff(source.elems[i], target.elems[i], ElemPath(path, i)),
                   DiffElems(source, target, i + 1, path));
    }
  }

  lemma {:induction false} RemoveElemsPrefix(lo: nat, hi: nat, prefix: string, path: string)
    ensures RemoveElems(lo, hi, prefix + path) == PrefixPaths(prefix, RemoveElems(lo, hi, path))
    decreases hi
  {
    if lo >= hi {
    } else {
      assert ElemPath(prefix + path, hi - 1) == prefix + ElemPath(path, hi - 1);
      PrefixOne(prefix, ElemPath(path, hi - 1), Null);
      PrefixConcat(prefix, [RemoveOp(ElemPath(path, hi - 1))], RemoveElems(lo, hi - 1, path));
      RemoveElemsPrefix(lo, hi - 1, prefix, path);
    }
  }

  lemma {:induction false} AddElemsPrefix(elems: seq<Json>, i: nat, prefix: string, path: string)
    ensures AddElems(elems, i, prefix + path) == PrefixPaths(prefix, AddElems(elems, i, path))
    decreases |elems| - i
  {
    if i >= |elems| {
    } else {
      assert (prefix + path) + "/-" == prefix + (path + "/-");
      PrefixOne(prefix, path + "/-", elems[i]);
      PrefixConcat(prefix, [AddOp(path + "/-", elems[i])], AddElems(elems, i + 1, path));
      AddElemsPrefix(elems, i + 1, prefix, path);
    }
  }

  lemma {:induction false} DiffKeysPrefix(source: Json, target: Json, keys: seq<string>, i: nat,
                                          prefix: string, path: string)
    requires source.Obj? && target.Obj? && forall j | 0 <= j < |keys| :: keys[j] in source.members
    ensures DiffKeys(source, target, keys, i, prefix + path)
            == PrefixPaths(prefix, DiffKeys(source, target, keys, i, path))
    decreases source, 1, |keys| - i
  {
    if i >= |keys| {
    } else {
      var k := keys[i];
      assert KeyPath(prefix + path, k) == prefix + KeyPath(path, k);
      var head := if k in target.members then Diff(source.members[k], target.members[k], KeyPath(path, k))
                  else [RemoveOp(KeyPath(path, k))];
      if k in target.members {
        DiffPrefix(source.members[k], target.members[k], prefix, KeyPath(path, k));
      } else {
        PrefixOne(prefix, KeyPath(path, k), Null);
      }
      PrefixConcat(prefix, head, DiffKeys(source, target, keys, i + 1, path));
      DiffKeysPrefix(source, target, keys, i + 1, prefix, path);
    }
  }

  lemma {:induction false} AddKeysPrefix(source: Json, target: Json, keys: seq<string>, i: nat,
                                         prefix: string, path: string)
    requires source.Obj? && target.Obj? && forall j | 0 <= j < |keys| :: keys[j] in target.members
    ensures AddKeys(source, target, keys, i, prefix + path)
            == PrefixPaths(prefix, AddKeys(source, target, keys, i, path))
    decreases |keys| - i
  {
    if i >= |keys| {
    } else {
      var k := keys[i];
      assert KeyPath(prefix + path, k) == prefix + KeyPath(path, k);
      PrefixOne(prefix, KeyPath(path, k), target.members[k]);
      var head := if k in source.members then [] else [AddOp(KeyPath(path, k), target.members[k])];
      PrefixConcat(prefix, head, AddKeys(source, target, keys, i + 1, path));
      AddKeysPrefix(source, target, keys, i + 1, prefix, path);
    }
  }

  /** A diff made at a path is the diff made at the root with that path put before every path. */
  lemma {:induction false} DiffPrefix(source: Json, target: Json, prefix: string, path: string)
    ensures Diff(source, target, prefix + path) == PrefixPaths(prefix, Diff(source, target, path))
    decreases source, 2
  {
    if source == target {
    } else if TypeOf(source) == TypeOf(target) && source.Arr? {
      var a := DiffElems(source, target, 0, path);
      var b := RemoveElems(|target.elems|, |source.elems|, path);
      var c := AddElems(target.elems, |source.elems|, path);
      DiffElemsPrefix(source, target, 0, prefix, path);
      RemoveElemsPrefix(|target.elems|, |source.elems|, prefix, path);
      AddElemsPrefix(target.elems, |source.elems|, prefix, path);
      PrefixConcat(prefix, a, b);
      PrefixConcat(prefix, a + b, c);
    } else if TypeOf(source) == TypeOf(target) && source.Obj? {
      var sKeys, tKeys := SortedKeys(source.members.Keys), SortedKeys(target.members.Keys);
      DiffKeysPrefix(source, target, sKeys, 0, prefix, path);
      AddKeysPrefix(source, target, tKeys, 0, prefix, path);
      PrefixConcat(prefix, DiffKeys(source, target, sKeys, 0, path), AddKeys(source, target, tKeys, 0, path));
    } else {
      PrefixOne(prefix, path, target);
    }
  }

  // ----- the algorithm -----

  // One turn of each accumulating loop: what is in hand and what is still to come stay the whole.

  lemma ElemsTurn(before: seq<Json>, after: seq<Json>, source: Json, target: Json, i: nat, path: string,
                  whole: seq<Json>)
    requires source.Arr? && target.Arr? && i < |source.elems| && i < |target.elems|
    requires before + DiffElems(source, target, i, path) == whole
    requires after == before + Diff(source.elems[i], target.elems[i], ElemPath(path, i))
    ensures after + DiffElems(source, target, i + 1, path) == whole
  {
    Regroup(before, Diff(source.elems[i], target.elems[i], ElemPath(path, i)),
            DiffElems(source, target, i + 1, path));
  }

  lemma KeysTurn(before: seq<Json>, after: seq<Json>, source: Json, target: Json, keys: seq<string>, i: nat,
                 path: string, whole: seq<Json>)
    requires source.Obj? && target.Obj? && i < |keys|
    requires forall j | 0 <= j < |keys| :: keys[j] in source.members
    requires before + DiffKeys(source, target, keys, i, path) == whole
    requires after == before
                      + if keys[i] in target.members
                        then Diff(source.members[keys[i]], target.members[keys[i]], KeyPath(path, keys[i]))
                        else [RemoveOp(KeyPath(path, keys[i]))]
    ensures after + DiffKeys(source, target, keys, i + 1, path) == whole
  {
    var head := if keys[i] in target.members
                then Diff(source.members[keys[i]], target.members[keys[i]], KeyPath(path, keys[i]))
                else [RemoveOp(KeyPath(path, keys[i]))];
    Regroup(before, head, DiffKeys(source, target, keys, i + 1, path));
  }

  lemma AddKeysTurn(before: seq<Json>, after: seq<Json>, source: Json, target: Json, keys: seq<string>, i: nat,
                    path: string, whole: seq<Json>)
    requires source.Obj? && target.Obj? && i < |keys|
    requires forall j | 0 <= j < |keys| :: keys[j] in target.members
    requires before + AddKeys(source, target, keys, i, path) == whole
    requires after == if keys[i] in source.members then before
                      else before + [AddOp(KeyPath(path, keys[i]), target.members[keys[i]])]
    ensures after + AddKeys(source, target, keys, i + 1, path) == whole
  {
    var head := if keys[i] in source.members then [] else [AddOp(KeyPath(path, keys[i]), target.members[keys[i]])];
    assert after == before + head;
    Regroup(before, head, AddKeys(source, target, keys, i + 1, path));
  }

  /** Inserting at the end of the common part goes before the removals emitted so far. */
  lemma RemovalTurn(before: seq<Json>, after: seq<Json>, common: seq<Json>, lo: nat, i: nat, path: string)
    requires lo <= i && before == common + RemoveElems(lo, i, path)
    requires after == before[..|common|] + [RemoveOp(ElemPath(path, i))] + before[|common|..]
    ensures after == common + RemoveElems(lo, i + 1, path)
  {
    assert before[..|common|] == common && before[|common|..] == RemoveElems(lo, i, path);
    Regroup(common, [RemoveOp(ElemPath(path, i))], RemoveElems(lo, i, path));
  }

  lemma AppendTurn(before: seq<Json>, after: seq<Json>, elems: seq<Json>, i: nat, path: string, whole: seq<Json>)
    requires i < |elems| && before + AddElems(elems, i, path) == whole
    requires after == before + [AddOp(path + "/-", elems[i])]
    ensures after + AddElems(elems, i + 1, path) == whole
  {
    Regroup(before, [AddOp(path + "/-", elems[i])], AddElems(elems, i + 1, path));
  }

  lemma NothingBefore(ops: seq<Json>)
    ensures [] + ops == ops && ops + [] == ops
  {
  }

  /** `diff`. */
  method ComputeDiff(source: Json, target: Json, path: string := "") returns (result: seq<Json>)
    ensures result == Diff(source, target, path)
    decreases source, 2
  {
    result := [];
    if source == target {
      return;
    }
    if TypeOf(source) != TypeOf(target) {
      return [ReplaceOp(path, target)];
    }
    match source
    case Arr(_) => result := ComputeArrayDiff(source, target, path);
    case Obj(_) =>
      result := ComputeMemberDiffs(source, target, SortedKeys(source.members.Keys), path);
      var adds := ComputeMemberAdds(source, target, SortedKeys(target.members.Keys), path);
      result := result + adds;
    case _ => result := [ReplaceOp(path, target)];
  }

  /** The pass over the elements that two arrays have in common. */
  method ComputeElemDiffs(source: Json, target: Json, path: string) returns (result: seq<Json>)
    requires source.Arr? && target.Arr?
    ensures result == DiffElems(source, target, 0, path)
    decreases source, 0
  {
    var s, t := source.elems, target.elems;
    ghost var whole := DiffElems(source, target, 0, path);
    result := [];
    var i := 0;
    NothingBefore(whole);
    while i < |s| && i < |t|
      invariant i <= |s| && i <= |t|
      invariant result + DiffElems(source, target, i, path) == whole
    {
      ghost var before := result;
      var inner := ComputeDiff(s[i], t[i], path + "/" + Decimal(i));
      result := result + inner;
      ElemsTurn(before, result, source, target, i, path, whole);
      i := i + 1;
    }
    NothingBefore(result);
  }

  /** The array case: each removal is inserted before the removals emitted so far. */
  method ComputeArrayDiff(source: Json, target: Json, path: string) returns (result: seq<Json>)
    requires source.Arr? && target.Arr?
    ensures result == DiffElems(source, target, 0, path)
                      + RemoveElems(|target.elems|, |source.elems|, path)
                      + AddElems(target.elems, |source.elems|, path)
    decreases source, 1
  {
    result := ComputeElemDiffs(source, target, path);
    ghost var common := result;
    var s, t := source.elems, target.elems;
    var i := Min(|s|, |t|);
    var endIndex := |result|;
    NothingBefore(common);
    while i < |s|
      invariant i <= |s| && endIndex == |common|
      invariant i >= Min(|s|, |t|) && result == common + RemoveElems(|t|, i, path)
    {
      ghost var before := result;
      result := result[..endIndex] + [RemoveOp(path + "/" + Decimal(i))] + result[endIndex..];
      RemovalTurn(before, result, common, |t|, i, path);
      i := i + 1;
    }
    ghost var whole := result + AddElems(t, |s|, path);
    while i < |t|
      invariant |s| <= i && (i <= |t| || i == |s|)
      invariant result + AddElems(t, i, path) == whole
    {
      ghost var before := result;
      result := result + [AddOp(path + "/-", t[i])];
      AppendTurn(before, result, t, i, path, whole);
      i := i + 1;
    }
    NothingBefore(result);
  }

  /** The first pass over two objects, through the source's members. */
  method ComputeMemberDiffs(source: Json, target: Json, keys: seq<string>, path: string) returns (result: seq<Json>)
    requires source.Obj? && target.Obj? && forall j | 0 <= j < |keys| :: keys[j] in source.members
    ensures result == DiffKeys(source, target, keys, 0, path)
    decreases source, 0
  {
    ghost var whole := DiffKeys(source, target, keys, 0, path);
    result := [];
    var i := 0;
    NothingBefore(whole);
    while i < |keys|
      invariant i <= |keys|
      invariant result + DiffKeys(source, target, keys, i, path) == whole
    {
      var key := keys[i];
      ghost var before := result;
      if key in target.members {
        var inner := ComputeDiff(source.members[key], target.members[key], path + "/" + Escape(key));
        result := result + inner;
      } else {
        result := result + [RemoveOp(path + "/" + Escape(key))];
      }
      KeysTurn(before, result, source, target, keys, i, path, whole);
      i := i + 1;
    }
    NothingBefore(result);
  }

  /** The second pass, through the target's members. */
  method ComputeMemberAdds(source: Json, target: Json, keys: seq<string>, path: string) returns (result: seq<Json>)
    requires source.Obj? && target.Obj? && forall j | 0 <= j < |keys| :: keys[j] in target.members
    ensures result == AddKeys(source, target, keys, 0, path)
  {
    ghost var whole := AddKeys(source, target, keys, 0, path);
    result := [];
    var i := 0;
    NothingBefore(whole);
    while i < |keys|
      invariant i <= |keys|
      invariant result + AddKeys(source, target, keys, i, path) == whole
    {
      ghost var before := result;
      if keys[i] !in source.members {
        result := result + [AddOp(path + "/" + Escape(keys[i]), target.members[keys[i]])];
      }
      AddKeysTurn(before, result, source, target, keys, i, path, whole);
      i := i + 1;
    }
    NothingBefore(result);
  }
}
