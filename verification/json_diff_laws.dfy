/** Which places a diff touches, and with which operation. */
module JsonDiffLaws {
  import opened Decimals
  import opened JsonValue
  import opened JsonPointer
  import opened JsonPatch
  import opened JsonDiff

  /** A place `at` that holds `s` in the one document and `t` in the other calls for `op`: a "replace"
      between different values that are not both arrays nor both objects, a "remove" of what the target
      lacks though it has its parent, an "add" of a member the source lacks, or an append to an array
      that is longer in the target. */
  ghost predicate CallsFor(op: Json, at: string, s: Json, t: Result<Json>, parentStays: bool) {
    match t
    case Err(_) => parentStays && op == RemoveOp(at)
    case Ok(v) =>
      (s != v && !(s.Arr? && v.Arr?) && !(s.Obj? && v.Obj?) && op == ReplaceOp(at, v))
      || (s.Obj? && v.Obj?
          && exists key | key in v.members && key !in s.members :: op == AddOp(at + "/" + Escape(key), v.members[key]))
      || (s.Arr? && v.Arr?
          && exists i | |s.elems| <= i < |v.elems| :: op == AddOp(at + "/-", v.elems[i]))
  }

  ghost predicate WarrantedAt(op: Json, source: Json, target: Json, path: string, toks: seq<string>) {
    At(source, toks).Ok?
    && CallsFor(op, path + ToText(toks), At(source, toks).value, At(target, toks),
                toks != [] && At(target, Init(toks)).Ok?)
  }

  ghost predicate Warranted(op: Json, source: Json, target: Json, path: string) {
    exists toks :: WarrantedAt(op, source, target, path, toks)
  }

  ghost predicate AllWarranted(ops: seq<Json>, source: Json, target: Json, path: string) {
    forall i | 0 <= i < |ops| :: Warranted(ops[i], source, target, path)
  }

  lemma AtCons(j: Json, key: string, toks: seq<string>)
    requires Child(j, key).Ok?
    ensures At(j, [key] + toks) == At(Child(j, key).value, toks)
  {
    assert ([key] + toks)[1..] == toks;
  }

  lemma LongerPath(path: string, key: string, text: string)
    ensures path + "/" + Escape(key) + text == path + ("/" + Escape(key) + text)
  {
  }

  lemma LiftAt(op: Json, source: Json, target: Json, path: string, key: string, toks: seq<string>)
    requires Child(source, key).Ok? && Child(target, key).Ok?
    requires WarrantedAt(op, Child(source, key).value, Child(target, key).value, path + "/" + Escape(key), toks)
    ensures WarrantedAt(op, source, target, path, [key] + toks)
  {
    AtCons(source, key, toks);
    AtCons(target, key, toks);
    ToTextCons(key, toks);
    LongerPath(path, key, ToText(toks));
    if toks != [] {
      AtCons(target, key, Init(toks));
      assert Init([key] + toks) == [key] + Init(toks);
    }
  }

  /** What two children call for, their parents do. */
  lemma Lift(op: Json, source: Json, target: Json, path: string, key: string)
    requires Child(source, key).Ok? && Child(target, key).Ok?
    requires Warranted(op, Child(source, key).value, Child(target, key).value, path + "/" + Escape(key))
    ensures Warranted(op, source, target, path)
  {
    var toks :| WarrantedAt(op, Child(source, key).value, Child(target, key).value, path + "/" + Escape(key), toks);
    LiftAt(op, source, target, path, key, toks);
  }

  lemma LiftAll(ops: seq<Json>, source: Json, target: Json, path: string, key: string)
    requires Child(source, key).Ok? && Child(target, key).Ok?
    requires AllWarranted(ops, Child(source, key).value, Child(target, key).value, path + "/" + Escape(key))
    ensures AllWarranted(ops, source, target, path)
  {
    forall i | 0 <= i < |ops|
      ensures Warranted(ops[i], source, target, path)
    {
      Lift(ops[i], source, target, path, key);
    }
  }

  lemma AllConcat(a: seq<Json>, b: seq<Json>, source: Json, target: Json, path: string)
    requires AllWarranted(a, source, target, path) && AllWarranted(b, source, target, path)
    ensures AllWarranted(a + b, source, target, path)
  {
  }

  lemma OneWarranted(op: Json, source: Json, target: Json, path: string)
    requires Warranted(op, source, target, path)
    ensures AllWarranted([op], source, target, path)
  {
  }

  lemma RemoveWarranted(source: Json, target: Json, path: string, key: string)
    requires Child(source, key).Ok? && Child(target, key).Err?
    ensures Warranted(RemoveOp(path + "/" + Escape(key)), source, target, path)
  {
    ToTextCons(key, []);
    AtCons(source, key, []);
    assert [key][1..] == [] && Init([key]) == [];
    assert path + ToText([key]) == path + "/" + Escape(key) by {
      assert [key] + [] == [key];
    }
    assert [key] + [] == [key];
    assert WarrantedAt(RemoveOp(path + "/" + Escape(key)), source, target, path, [key]);
  }

  // ----- arrays -----

  lemma {:induction false} ElemsWarranted(source: Json, target: Json, i: nat, path: string)
    requires source.Arr? && target.Arr? && Representable(source)
    ensures AllWarranted(DiffElems(source, target, i, path), source, target, path)
    decreases source, 1, |source.elems| - i
  {
    if i >= |source.elems| || i >= |target.elems| {
    } else {
      var key := Decimal(i);
      IndexChild(source.elems, i);
      ElemChild(target.elems, i);
      DiffWarranted(source.elems[i], target.elems[i], ElemPath(path, i));
      LiftAll(Diff(source.elems[i], target.elems[i], ElemPath(path, i)), source, target, path, key);
      ElemsWarranted(source, target, i + 1, path);
      AllConcat(Diff(source.elems[i], target.elems[i], ElemPath(path, i)), DiffElems(source, target, i + 1, path),
                source, target, path);
    }
  }

  /** The element at an index that a `size_type` can hold, however long the array is. */
  lemma ElemChild(elems: seq<Json>, i: nat)
    requires i < SIZE_MAX
    ensures Child(Arr(elems), Decimal(i)) == if i < |elems| then Ok(elems[i]) else Err(Exception(401))
  {
    ArrayIndexCanonical(Decimal(i), i);
    assert Decimal(i) != "-" by {
      assert Decimal(i)[0] in Decimal(i) && !IsDigit('-');
    }
  }

  lemma {:induction false} RemovesWarranted(source: Json, target: Json, hi: nat, path: string)
    requires source.Arr? && target.Arr? && hi <= |source.elems| < SIZE_MAX
    ensures AllWarranted(RemoveElems(|target.elems|, hi, path), source, target, path)
    decreases hi
  {
    if |target.elems| >= hi {
    } else {
      IndexChild(source.elems, hi - 1);
      ElemChild(target.elems, hi - 1);
      RemoveWarranted(source, target, path, Decimal(hi - 1));
      OneWarranted(RemoveOp(ElemPath(path, hi - 1)), source, target, path);
      RemovesWarranted(source, target, hi - 1, path);
      AllConcat([RemoveOp(ElemPath(path, hi - 1))], RemoveElems(|target.elems|, hi - 1, path), source, target, path);
    }
  }

  lemma {:induction false} AppendsWarranted(source: Json, target: Json, i: nat, path: string)
    requires source.Arr? && target.Arr? && |source.elems| <= i
    ensures AllWarranted(AddElems(target.elems, i, path), source, target, path)
    decreases |target.elems| - i
  {
    if i >= |target.elems| {
    } else {
      var op := AddOp(path + "/-", target.elems[i]);
      assert path + "" == path;
      assert WarrantedAt(op, source, target, path, []);
      OneWarranted(op, source, target, path);
      AppendsWarranted(source, target, i + 1, path);
      AllConcat([op], AddElems(target.elems, i + 1, path), source, target, path);
    }
  }

  // ----- objects -----

  lemma {:induction false} KeysWarranted(source: Json, target: Json, keys: seq<string>, i: nat, path: string)
    requires source.Obj? && target.Obj? && Representable(source)
    requires forall j | 0 <= j < |keys| :: keys[j] in source.members
    ensures AllWarranted(DiffKeys(source, target, keys, i, path), source, target, path)
    decreases source, 1, |keys| - i
  {
    if i >= |keys| {
    } else {
      var k := keys[i];
      var head := if k in target.members then Diff(source.members[k], target.members[k], KeyPath(path, k))
                  else [RemoveOp(KeyPath(path, k))];
      if k in target.members {
        DiffWarranted(source.members[k], target.members[k], KeyPath(path, k));
        LiftAll(head, source, target, path, k);
      } else {
        RemoveWarranted(source, target, path, k);
        OneWarranted(RemoveOp(KeyPath(path, k)), source, target, path);
      }
      KeysWarranted(source, target, keys, i + 1, path);
      AllConcat(head, DiffKeys(source, target, keys, i + 1, path), source, target, path);
    }
  }

  lemma {:induction false} AddsWarranted(source: Json, target: Json, keys: seq<string>, i: nat, path: string)
    requires source.Obj? && target.Obj? && forall j | 0 <= j < |keys| :: keys[j] in target.members
    ensures AllWarranted(AddKeys(source, target, keys, i, path), source, target, path)
    decreases |keys| - i
  {
    if i >= |keys| {
    } else {
      var k := keys[i];
      var head := if k in source.members then [] else [AddOp(KeyPath(path, k), target.members[k])];
      if k !in source.members {
        assert path + "" == path;
        assert WarrantedAt(AddOp(KeyPath(path, k), target.members[k]), source, target, path, []);
        OneWarranted(AddOp(KeyPath(path, k), target.members[k]), source, target, path);
      }
      AddsWarranted(source, target, keys, i + 1, path);
      AllConcat(head, AddKeys(source, target, keys, i + 1, path), source, target, path);
    }
  }

  lemma {:induction false} ArrayWarranted(source: Json, target: Json, path: string)
    requires source.Arr? && target.Arr? && Representable(source)
    ensures AllWarranted(DiffElems(source, target, 0, path)
                         + RemoveElems(|target.elems|, |source.elems|, path)
                         + AddElems(target.elems, |source.elems|, path), source, target, path)
    decreases source, 1, |source.elems| + 1
  {
    var a := DiffElems(source, target, 0, path);
    var b := RemoveElems(|target.elems|, |source.elems|, path);
    ElemsWarranted(source, target, 0, path);
    RemovesWarranted(source, target, |source.elems|, path);
    AppendsWarranted(source, target, |source.elems|, path);
    AllConcat(a, b, source, target, path);
    AllConcat(a + b, AddElems(target.elems, |source.elems|, path), source, target, path);
  }

  lemma {:induction false} ObjectWarranted(
      source: Json, target: Json, sKeys: seq<string>, tKeys: seq<string>, path: string)
    requires source.Obj? && target.Obj? && Representable(source)
    requires forall j | 0 <= j < |sKeys| :: sKeys[j] in source.members
    requires forall j | 0 <= j < |tKeys| :: tKeys[j] in target.members
    ensures AllWarranted(DiffKeys(source, target, sKeys, 0, path) + AddKeys(source, target, tKeys, 0, path),
                         source, target, path)
    decreases source, 1, |sKeys| + 1
  {
    KeysWarranted(source, target, sKeys, 0, path);
    AddsWarranted(source, target, tKeys, 0, path);
    AllConcat(DiffKeys(source, target, sKeys, 0, path), AddKeys(source, target, tKeys, 0, path),
              source, target, path);
  }

  lemma ReplaceWarranted(source: Json, target: Json, path: string)
    requires source != target && !(source.Arr? && target.Arr?) && !(source.Obj? && target.Obj?)
    ensures AllWarranted([ReplaceOp(path, target)], source, target, path)
  {
    assert path + "" == path;
    assert WarrantedAt(ReplaceOp(path, target), source, target, path, []);
    OneWarranted(ReplaceOp(path, target), source, target, path);
  }

  /** The forms that a diff takes. */
  ghost predicate IsDiff(ops: seq<Json>, source: Json, target: Json, path: string) {
    if source == target then ops == []
    else if source.Arr? && target.Arr? then
      ops == DiffElems(source, target, 0, path)
             + RemoveElems(|target.elems|, |source.elems|, path)
             + AddElems(target.elems, |source.elems|, path)
    else if source.Obj? && target.Obj? then
      ops == DiffKeys(source, target, SortedKeys(source.members.Keys), 0, path)
             + AddKeys(source, target, SortedKeys(target.members.Keys), 0, path)
    else ops == [ReplaceOp(path, target)]
  }

  lemma DiffIsDiff(source: Json, target: Json, path: string)
    ensures IsDiff(Diff(source, target, path), source, target, path)
  {
  }

  lemma {:induction false} IsDiffWarranted(ops: seq<Json>, source: Json, target: Json, path: string)
    requires Representable(source) && IsDiff(ops, source, target, path)
    ensures AllWarranted(ops, source, target, path)
    decreases source, 2
  {
    if source == target {
    } else if source.Arr? && target.Arr? {
      ArrayWarranted(source, target, path);
    } else if source.Obj? && target.Obj? {
      ObjectWarranted(source, target, SortedKeys(source.members.Keys), SortedKeys(target.members.Keys), path);
    } else {
      ReplaceWarranted(source, target, path);
    }
  }

  // ----- main result -----

  /** Every operation of a diff is called for by the two documents at the place it names. */
  lemma {:induction false} DiffWarranted(source: Json, target: Json, path: string)
    requires Representable(source)
    ensures AllWarranted(Diff(source, target, path), source, target, path)
    decreases source, 3
  {
    DiffIsDiff(source, target, path);
    IsDiffWarranted(Diff(source, target, path), source, target, path);
  }

  // ----- in which order -----

  lemma SortedPair(k: string, l: string)
    requires k != l && KeyLe(k, l)
    ensures SortedKeys({k, l}) == [k, l] && SortedKeys({k}) == [k] && SortedKeys({l}) == [l] && SortedKeys({}) == []
  {
    var ks := SortedKeys({k, l});
    SortedKeysAscend({k, l});
    assert k in {k, l} && l in {k, l} && |{k, l}| == 2;
    KeyLeTotal(k, l);
    assert ks[0] in {k, l} && ks[1] in {k, l};
    SortedOne(k);
    SortedOne(l);
  }

  lemma SortedOne(k: string)
    ensures SortedKeys({k}) == [k]
  {
    var ks := SortedKeys({k});
    assert |{k}| == 1 && ks[0] in ks;
  }

  /** Members are removed, and then others added, in the order of their keys. */
  lemma MembersInOrder(k: string, l: string, x: Json, y: Json, path: string)
    requires k != l && KeyLe(k, l)
    ensures Diff(Obj(map[k := x, l := y]), Obj(map[]), path)
            == [RemoveOp(path + "/" + Escape(k)), RemoveOp(path + "/" + Escape(l))]
    ensures Diff(Obj(map[]), Obj(map[k := x, l := y]), path)
            == [AddOp(path + "/" + Escape(k), x), AddOp(path + "/" + Escape(l), y)]
    ensures Diff(Obj(map[l := y]), Obj(map[k := x]), path)
            == [RemoveOp(path + "/" + Escape(l)), AddOp(path + "/" + Escape(k), x)]
  {
    SortedPair(k, l);
    TwoKeys(k, l, x, y, path);
    var both, none := map[k := x, l := y], map[];
    assert both.Keys == {k, l} && none.Keys == {} && map[l := y].Keys == {l} && map[k := x].Keys == {k};
    NothingBefore(DiffKeys(Obj(both), Obj(none), [k, l], 0, path));
    NothingBefore(AddKeys(Obj(none), Obj(both), [k, l], 0, path));
  }

  lemma TwoKeys(k: string, l: string, x: Json, y: Json, path: string)
    requires k != l
    ensures var both, none := Obj(map[k := x, l := y]), Obj(map[]);
            DiffKeys(both, none, [k, l], 0, path) == [RemoveOp(KeyPath(path, k)), RemoveOp(KeyPath(path, l))]
            && AddKeys(none, both, [k, l], 0, path) == [AddOp(KeyPath(path, k), x), AddOp(KeyPath(path, l), y)]
    ensures DiffKeys(Obj(map[l := y]), Obj(map[k := x]), [l], 0, path) == [RemoveOp(KeyPath(path, l))]
    ensures AddKeys(Obj(map[l := y]), Obj(map[k := x]), [k], 0, path) == [AddOp(KeyPath(path, k), x)]
  {
    var both, none := Obj(map[k := x, l := y]), Obj(map[]);
    assert DiffKeys(both, none, [k, l], 2, path) == [] && AddKeys(none, both, [k, l], 2, path) == [];
    assert DiffKeys(both, none, [k, l], 1, path) == [RemoveOp(KeyPath(path, l))];
    assert AddKeys(none, both, [k, l], 1, path) == [AddOp(KeyPath(path, l), y)];
  }
}
