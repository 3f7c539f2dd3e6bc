/** A document that is changed in place, by a patch or by a merge patch. */
module JsonDocument {
  import opened Wrappers
  import opened JsonValue
  import opened JsonPointer
  import opened JsonPatch
  import JsonMerge

  class Document {
    var root: Json

    constructor (root: Json)
      ensures this.root == root
    {
      this.root := root;
    }

    /** Reports the outcome of an operation on the current document as an `Applied` value. */
    ghost predicate Outcome(error: Option<Error>, expected: Applied)
      reads this
    {
      expected == if error.Some? then Failed(root, error.value) else Done(root)
    }

    method OperationAdd(ptr: seq<string>, val: Json) returns (error: Option<Error>)
      modifies this
      ensures Outcome(error, Add(old(root), ptr, val))
    {
      if |ptr| == 0 {
        root := val;
        return None;
      }
      var top := [ptr[0]];
      assert ptr[..1] == top;
      if top != ptr {
        var found := At(root, top);
        if found.Err? {
          return Some(found.error);
        }
      }
      var last, parentPtr := Last(ptr), Init(ptr);
      var at := At(root, parentPtr);
      if at.Err? {
        return Some(at.error);
      }
      var parent := at.value;
      match parent
      case Null =>
        root := Put(root, parentPtr, Obj(map[last := val]));
        return None;
      case Obj(members) =>
        root := Put(root, parentPtr, Obj(members[last := val]));
        return None;
      case Arr(elems) =>
        if last == "-" {
          root := Put(root, parentPtr, Arr(elems + [val]));
          return None;
        }
        var idx := ArrayIndex(last);
        if idx.Err? {
          return Some(idx.error);
        }
        if idx.value > |elems| {
          return Some(Exception(401));
        }
        root := Put(root, parentPtr, Arr(InsertAt(elems, idx.value, val)));
        return None;
      case _ =>
        return Some(AssertionFailure);
    }

    method OperationRemove(ptr: seq<string>) returns (error: Option<Error>)
      modifies this
      ensures Outcome(error, Remove(old(root), ptr))
    {
      if |ptr| == 0 {
        return Some(Exception(405));
      }
      var last, parentPtr := Last(ptr), Init(ptr);
      var at := At(root, parentPtr);
      if at.Err? {
        return Some(at.error);
      }
      var parent := at.value;
      if parent.Obj? {
        if last !in parent.members {
          return Some(Exception(403));
        }
        root := Put(root, parentPtr, Obj(parent.members - {last}));
      } else if parent.Arr? {
        var idx := ArrayIndex(last);
        if idx.Err? {
          return Some(idx.error);
        }
        if idx.value >= |parent.elems| {
          return Some(Exception(401));
        }
        root := Put(root, parentPtr, Arr(EraseAt(parent.elems, idx.value)));
      } else {
        PutLaws(root, parentPtr, parent, parent);
      }
      return None;
    }

    method ApplyDecodedInPlace(val: map<string, Json>, op: string, ptr: seq<string>) returns (error: Option<Error>)
      modifies this
      ensures Outcome(error, ApplyDecoded(old(root), val, op, ptr))
    {
      match op
      case "add" =>
        var value := Member(val, "value");
        if value.Err? {
          return Some(value.error);
        }
        error := OperationAdd(ptr, value.value);
      case "remove" =>
        error := OperationRemove(ptr);
      case "replace" =>
        var value := Member(val, "value");
        if value.Err? {
          return Some(value.error);
        }
        var at := At(root, ptr);
        if at.Err? {
          return Some(at.error);
        }
        root := Put(root, ptr, value.value);
        error := None;
      case "move" =>
        var from := PointerMember(val, "from");
        if from.Err? {
          return Some(from.error);
        }
        var at := At(root, from.value);
        if at.Err? {
          return Some(at.error);
        }
        error := OperationRemove(from.value);
        if error.None? {
          error := OperationAdd(ptr, at.value);
        }
      case "copy" =>
        var from := PointerMember(val, "from");
        if from.Err? {
          return Some(from.error);
        }
        var at := At(root, from.value);
        if at.Err? {
          return Some(at.error);
        }
        error := OperationAdd(ptr, at.value);
      case "test" =>
        var success := false;
        var value := Member(val, "value");
        if value.Err? {
          return Some(value.error);
        }
        var at := At(root, ptr);
        if at.Ok? {
          success := at.value == value.value;
        } else if !IsOutOfRange(at.error) {
          return Some(at.error);
        }
        error := if success then None else Some(Exception(501));
      case _ =>
        error := Some(Exception(105));
    }

    /** One element of the patch array. */
    method ApplyOpInPlace(val: Json) returns (error: Option<Error>)
      modifies this
      ensures Outcome(error, ApplyOp(old(root), val))
    {
      if !val.Obj? {
        return Some(Exception(104));
      }
      var op := StringMember(val.members, "op");
      if op.Err? {
        return Some(op.error);
      }
      var ptr := PointerMember(val.members, "path");
      if ptr.Err? {
        return Some(ptr.error);
      }
      error := ApplyDecodedInPlace(val.members, op.value, ptr.value);
    }

    /** `patch_inplace`: the operations run so far stay applied when one throws. */
    method PatchInPlace(patch: Json) returns (error: Option<Error>)
      modifies this
      ensures Outcome(error, ApplyPatch(old(root), patch))
    {
      if !patch.Arr? {
        return Some(Exception(104));
      }
      var i := 0;
      while i < |patch.elems|
        invariant 0 <= i <= |patch.elems|
        invariant ApplyPatch(old(root), patch) == ApplyOps(root, patch.elems[i..])
      {
        OpsTurn(root, patch.elems, i);
        error := ApplyOpInPlace(patch.elems[i]);
        if error.Some? {
          return;
        }
        i := i + 1;
      }
      error := None;
    }

    /** `patch`: the same on a copy, so that an exception leaves the document alone. */
    method Patch(patch: Json) returns (result: Result<Json>)
      ensures result == match ApplyPatch(root, patch) case Done(d) => Ok(d) case Failed(_, e) => Err(e)
    {
      var copy := new Document(root);
      var error := copy.PatchInPlace(patch);
      result := if error.Some? then Err(error.value) else Ok(copy.root);
    }

    /** `merge_patch` on the document itself. */
    method MergePatchInPlace(patch: Json)
      modifies this
      ensures root == JsonMerge.MergePatch(old(root), patch)
    {
      root := JsonMerge.MergeInto(root, patch);
    }
  }
}
