/** Laws of single patch operations: what undoes what, and when an operation throws. */
module JsonLaws {
  import opened JsonValue
  import opened Decimals
  import opened JsonPointer
  import opened JsonPatch
  import JsonDiff

  lemma AtLast(doc: Json, ptr: seq<string>)
    requires ptr != [] && At(doc, Init(ptr)).Ok?
    ensures At(doc, ptr) == Child(At(doc, Init(ptr)).value, Last(ptr))
  {
    assert ptr == Init(ptr) + [Last(ptr)];
    AtConcat(doc, Init(ptr), [Last(ptr)]);
    assert [Last(ptr)][1..] == [];
  }

  lemma AtParent(doc: Json, ptr: seq<string>)
    requires ptr != [] && At(doc, ptr).Ok?
    ensures At(doc, Init(ptr)).Ok?
  {
    assert ptr == Init(ptr) + [Last(ptr)];
    AtPrefix(doc, Init(ptr), [Last(ptr)]);
  }

  lemma AtTop(doc: Json, ptr: seq<string>)
    requires |ptr| > 1 && At(doc, Init(ptr)).Ok?
    ensures At(doc, ptr[..1]).Ok?
  {
    assert Init(ptr) == ptr[..1] + Init(ptr)[1..];
    AtPrefix(doc, ptr[..1], Init(ptr)[1..]);
  }

  lemma PutCancels(doc: Json, toks: seq<string>, v: Json)
    requires At(doc, toks).Ok?
    ensures Put(doc, toks, v) == doc <==> v == At(doc, toks).value
  {
    PutLaws(doc, toks, v, v);
  }

  // ----- add and remove undo each other -----

  lemma AddThenRemoveChild(parent: Json, last: string, v: Json)
    requires AddChild(parent, last, v).Ok?
    ensures RemoveChild(AddChild(parent, last, v).value, last) == Ok(parent)
            <==> (parent.Obj? && last !in parent.members) || (parent.Arr? && last != "-")
  {
    var added := AddChild(parent, last, v).value;
    if parent.Obj? && last !in parent.members {
      assert added.members - {last} == parent.members;
    } else if parent.Arr? && last != "-" {
      var idx := ArrayIndex(last).value;
      assert EraseAt(added.elems, idx) == parent.elems;
    } else if parent.Obj? {
      assert last !in added.members - {last};
    }
  }

  /** "remove" right after "add" at the same place restores the document exactly when the add
      created a new object member or inserted at an array index. */
  lemma AddThenRemove(doc: Json, ptr: seq<string>, v: Json)
    requires ptr != [] && Add(doc, ptr, v).Done?
    ensures var parent := At(doc, Init(ptr)).value;
            Remove(Add(doc, ptr, v).doc, ptr) == Done(doc)
            <==> (parent.Obj? && Last(ptr) !in parent.members) || (parent.Arr? && Last(ptr) != "-")
  {
    var parent := At(doc, Init(ptr)).value;
    var added := AddChild(parent, Last(ptr), v).value;
    AddThenRemoveChild(parent, Last(ptr), v);
    PutLaws(doc, Init(ptr), added, added);
    if RemoveChild(added, Last(ptr)).Ok? {
      var removed := RemoveChild(added, Last(ptr)).value;
      PutLaws(doc, Init(ptr), added, removed);
      PutCancels(doc, Init(ptr), removed);
    }
  }

  lemma RemoveThenAddChild(parent: Json, last: string)
    requires Child(parent, last).Ok?
    ensures RemoveChild(parent, last).Ok?
    ensures AddChild(RemoveChild(parent, last).value, last, Child(parent, last).value) == Ok(parent)
  {
    var removed, v := RemoveChild(parent, last).value, Child(parent, last).value;
    if parent.Obj? {
      assert removed.members[last := v] == parent.members;
    } else {
      assert InsertAt(removed.elems, ArrayIndex(last).value, v) == parent.elems;
    }
  }

  /** Adding a removed value back at its place restores the document. */
  lemma RemoveThenAdd(doc: Json, ptr: seq<string>)
    requires ptr != [] && At(doc, ptr).Ok?
    ensures Remove(doc, ptr).Done?
    ensures Add(Remove(doc, ptr).doc, ptr, At(doc, ptr).value) == Done(doc)
  {
    AtParent(doc, ptr);
    AtLast(doc, ptr);
    var parent := At(doc, Init(ptr)).value;
    RemoveThenAddChild(parent, Last(ptr));
    var removed := RemoveChild(parent, Last(ptr)).value;
    PutLaws(doc, Init(ptr), removed, parent);
    if |ptr| > 1 {
      AtTop(Put(doc, Init(ptr), removed), ptr);
    }
  }

  /** "move" from a place to itself changes nothing exactly when that place exists and is not the root. */
  lemma MoveToItself(doc: Json, ptr: seq<string>)
    ensures Move(doc, ptr, ptr) == Done(doc) <==> At(doc, ptr).Ok? && ptr != []
  {
    if At(doc, ptr).Ok? && ptr != [] {
      RemoveThenAdd(doc, ptr);
    }
  }

  // ----- what an operation leaves where -----

  lemma AddChildPlaces(parent: Json, last: string, v: Json)
    requires AddChild(parent, last, v).Ok?
    requires parent.Arr? ==> |parent.elems| < SIZE_MAX
    ensures Child(AddChild(parent, last, v).value, if parent.Arr? && last == "-" then Decimal(|parent.elems|) else last)
            == Ok(v)
  {
    if parent.Arr? {
      var n := |parent.elems|;
      ArrayIndexCanonical(Decimal(n), n);
      DashIsNoIndex();
    }
  }

  /** Where "add" at `ptr` puts its value: at `ptr`, where "-" is the index one past an array's end. */
  function Placed(doc: Json, ptr: seq<string>): seq<string> {
    if ptr == [] then []
    else
      match At(doc, Init(ptr))
      case Ok(Arr(elems)) => if Last(ptr) == "-" then Init(ptr) + [Decimal(|elems|)] else ptr
      case _ => ptr
  }

  /** The array "add" puts its value in, if it is one, is shorter than the largest `size_type`. */
  predicate Roomy(doc: Json, ptr: seq<string>) {
    ptr != [] && At(doc, Init(ptr)).Ok? && At(doc, Init(ptr)).value.Arr?
    ==> |At(doc, Init(ptr)).value.elems| < SIZE_MAX
  }

  /** After "add" the value is where it was put: for every pointer, the root and "-" included. */
  lemma AddPlaces(doc: Json, ptr: seq<string>, v: Json)
    requires Add(doc, ptr, v).Done? && Roomy(doc, ptr)
    ensures At(Add(doc, ptr, v).doc, Placed(doc, ptr)) == Ok(v)
  {
    if ptr != [] {
      var parent := At(doc, Init(ptr)).value;
      var last := if parent.Arr? && Last(ptr) == "-" then Decimal(|parent.elems|) else Last(ptr);
      var added := AddChild(parent, Last(ptr), v).value;
      PutLaws(doc, Init(ptr), added, added);
      AddChildPlaces(parent, Last(ptr), v);
      AtJoin(Put(doc, Init(ptr), added), Init(ptr), last);
      assert Init(ptr) + [Last(ptr)] == ptr;
    }
  }

  lemma RepresentableRoomy(doc: Json, ptr: seq<string>, v: Json)
    requires Add(doc, ptr, v).Done? && Representable(Add(doc, ptr, v).doc)
    ensures Roomy(doc, ptr)
  {
    if ptr != [] {
      var added := AddChild(At(doc, Init(ptr)).value, Last(ptr), v).value;
      PutLaws(doc, Init(ptr), added, added);
      RepresentableAt(Put(doc, Init(ptr), added), Init(ptr));
    }
  }

  lemma AtJoin(doc: Json, init: seq<string>, last: string)
    requires At(doc, init).Ok?
    ensures At(doc, init + [last]) == Child(At(doc, init).value, last)
  {
    AtConcat(doc, init, [last]);
    assert [last][1..] == [];
  }

  /** "copy" and "move" that succeed leave at the target the value the source had. */
  lemma TransferPlaces(doc: Json, from: seq<string>, ptr: seq<string>, moves: bool)
    requires var r := if moves then Move(doc, from, ptr) else Copy(doc, from, ptr);
             r.Done? && Representable(r.doc)
    ensures var r := if moves then Move(doc, from, ptr) else Copy(doc, from, ptr);
            var before := if moves then Remove(doc, from).doc else doc;
            At(doc, from).Ok? && At(r.doc, Placed(before, ptr)) == At(doc, from)
  {
    var before, v := if moves then Remove(doc, from).doc else doc, At(doc, from).value;
    RepresentableRoomy(before, ptr, v);
    AddPlaces(before, ptr, v);
  }

  lemma {:induction false} RepresentableAt(j: Json, toks: seq<string>)
    requires Representable(j) && At(j, toks).Ok?
    ensures Representable(At(j, toks).value)
    decreases toks
  {
    if toks == [] {
    } else {
      RepresentableAt(Child(j, toks[0]).value, toks[1..]);
    }
  }

  /** "test" succeeds exactly on an equal value, and never changes the document. */
  lemma TestDecides(doc: Json, ptr: seq<string>, v: Json)
    ensures Test(doc, ptr, v).doc == doc
    ensures Test(doc, ptr, v).Done? <==> At(doc, ptr) == Ok(v)
    ensures At(doc, ptr).Ok? && At(doc, ptr).value != v ==> Test(doc, ptr, v).error == Exception(501)
  {
  }

  /** Writing through a pointer changes nothing that branches off from it: different tokens always
      name different children. */
  lemma {:induction false} PutElsewhere(
      j: Json, common: seq<string>, x: string, a: seq<string>, y: string, b: seq<string>, v: Json)
    requires x != y && At(j, common + [x] + a).Ok?
    ensures At(Put(j, common + [x] + a, v), common + [y] + b) == At(j, common + [y] + b)
    decreases common
  {
    var p, q := common + [x] + a, common + [y] + b;
    if common == [] {
      assert p[0] == x && q[0] == y;
      if j.Arr? && ArrayIndex(y).Ok? {
        ArrayIndexCanonical(x, ArrayIndex(x).value);
        ArrayIndexCanonical(y, ArrayIndex(y).value);
      }
    } else {
      assert p[0] == common[0] && p[1..] == common[1..] + [x] + a;
      assert q[0] == common[0] && q[1..] == common[1..] + [y] + b;
      var child := Child(j, common[0]).value;
      PutElsewhere(child, common[1..], x, a, y, b, v);
      var put := Put(child, p[1..], v);
      PutChildLaws(j, common[0], put, put);
    }
  }

  // ----- when an operation throws -----

  /** A successful "remove" had something to remove, except under a parent that is neither an
      object nor an array: there it changes nothing and reports nothing, although section 4.2 of
      RFC 6902 requires the target to exist. */
  lemma RemoveSucceeds(doc: Json, ptr: seq<string>)
    ensures Remove(doc, ptr).Done?
            <==> ptr != [] && At(doc, Init(ptr)).Ok?
                 && (At(doc, ptr).Ok? || !(At(doc, Init(ptr)).value.Obj? || At(doc, Init(ptr)).value.Arr?))
    ensures Remove(doc, ptr) == Done(doc)
            <==> ptr != [] && At(doc, Init(ptr)).Ok?
                 && !(At(doc, Init(ptr)).value.Obj? || At(doc, Init(ptr)).value.Arr?)
  {
    if ptr != [] && At(doc, Init(ptr)).Ok? {
      AtLast(doc, ptr);
      var parent := At(doc, Init(ptr)).value;
      DashIsNoIndex();
      if RemoveChild(parent, Last(ptr)).Ok? {
        PutCancels(doc, Init(ptr), RemoveChild(parent, Last(ptr)).value);
        if parent.Obj? {
          assert Last(ptr) !in parent.members - {Last(ptr)};
        }
      }
    }
  }

  lemma DashIsNoIndex()
    ensures ArrayIndex("-") == Err(Exception(404))
  {
    assert '-' in "-" && !IsDigit('-');
  }

  /** "remove" of a member of a number, by any key: accepted, and nothing happens. */
  lemma RemoveUnderNumber(n: int, key: string)
    ensures ApplyOps(Num(n), [JsonDiff.RemoveOp("" + "/" + Escape(key))]) == Done(Num(n))
    ensures At(Num(n), [key]).Err?
  {
    JsonDiff.ApplyRemove(Num(n), "", [], key);
  }

  lemma {:induction false} AtThrowsExceptions(j: Json, toks: seq<string>)
    requires At(j, toks).Err?
    ensures At(j, toks).error.Exception?
    decreases toks
  {
    if Child(j, toks[0]).Err? {
    } else {
      AtThrowsExceptions(Child(j, toks[0]).value, toks[1..]);
    }
  }

  /** "add" reaches the assertion that marks its last cases impossible exactly when the parent it
      resolves is a boolean, a number or a string. */
  lemma AddAsserts(doc: Json, ptr: seq<string>, v: Json)
    ensures Add(doc, ptr, v) == Failed(doc, AssertionFailure)
            <==> ptr != [] && At(doc, Init(ptr)).Ok? && TypeOf(At(doc, Init(ptr)).value) in {BoolT, NumT, StrT}
  {
    if ptr != [] {
      if At(doc, Init(ptr)).Err? {
        AtThrowsExceptions(doc, Init(ptr));
      } else if |ptr| > 1 {
        AtTop(doc, ptr);
      }
      if |ptr| > 1 && At(doc, ptr[..1]).Err? {
        AtThrowsExceptions(doc, ptr[..1]);
      }
    }
  }

  /** "add" of a member to a number, by any key. */
  lemma AddUnderNumber(n: int, key: string, v: Json)
    ensures ApplyOp(Num(n), JsonDiff.AddOp("/" + Escape(key), v)) == Failed(Num(n), AssertionFailure)
  {
    var path := "/" + Escape(key);
    assert Split(path) == Ok([key]) by {
      assert path == "" + "/" + Escape(key);
      SplitAppend("", key);
      assert Split("").value + [key] == [key];
    }
    assert Add(Num(n), [key], v) == Failed(Num(n), AssertionFailure) by {
      assert Init([key]) == [];
    }
    AddOpApplies(Num(n), path, [key], v);
  }

  lemma AddOpApplies(doc: Json, path: string, ptr: seq<string>, v: Json)
    requires Split(path) == Ok(ptr)
    ensures ApplyOp(doc, JsonDiff.AddOp(path, v)) == Add(doc, ptr, v)
  {
    JsonDiff.DecodeOps(path, v);
  }

  /** An operation that throws leaves the document as it was, unless it is a "move" whose first
      half, the removal, has already been done. */
  lemma ThrowingKeepsDocument(doc: Json, val: Json)
    requires ApplyOp(doc, val).Failed?
    ensures var d := ApplyOp(doc, val).doc;
            d == doc
            || (val.Obj? && StringMember(val.members, "op") == Ok("move")
                && PointerMember(val.members, "from").Ok?
                && Done(d) == Remove(doc, PointerMember(val.members, "from").value))
  {
  }
}
