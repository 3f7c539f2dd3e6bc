/** The JSON Patch engine: `patch_inplace` with its add and remove operations. */
module JsonPatch {
  import opened JsonValue
  import opened JsonPointer

  /** A document after an operation: changed, or left as it was when an exception was thrown. */
  datatype Applied = Done(doc: Json) | Failed(doc: Json, error: Error)

  // ----- the operations on a parent node -----

  function InsertAt(elems: seq<Json>, idx: nat, v: Json): seq<Json>
    requires idx <= |elems|
  {
    elems[..idx] + [v] + elems[idx..]
  }

  function EraseAt(elems: seq<Json>, idx: nat): seq<Json>
    requires idx < |elems|
  {
    elems[..idx] + elems[idx + 1..]
  }

  /** What "add" makes of the parent of the location it addresses. */
  function AddChild(parent: Json, last: string, v: Json): Result<Json> {
    match parent
    case Null => Ok(Obj(map[last := v]))
    case Obj(members) => Ok(Obj(members[last := v]))
    case Arr(elems) =>
      if last == "-" then Ok(Arr(elems + [v]))
      else
        var idx :- ArrayIndex(last);
        if idx > |elems| then Err(Exception(401)) else Ok(Arr(InsertAt(elems, idx, v)))
    case _ => Err(AssertionFailure)
  }

  /** What "remove" makes of the parent of the location it addresses. */
  function RemoveChild(parent: Json, last: string): Result<Json> {
    match parent
    case Obj(members) => if last in members then Ok(Obj(members - {last})) else Err(Exception(403))
    case Arr(elems) =>
      var idx :- ArrayIndex(last);
      if idx >= |elems| then Err(Exception(401)) else Ok(Arr(EraseAt(elems, idx)))
    case _ => Ok(parent)
  }

  function Init<T>(s: seq<T>): seq<T>
    requires s != []
  {
    s[..|s| - 1]
  }

  function Last<T>(s: seq<T>): T
    requires s != []
  {
    s[|s| - 1]
  }

  function Add(doc: Json, ptr: seq<string>, v: Json): (r: Applied)
    ensures r.Failed? ==> r.doc == doc
  {
    if ptr == [] then Done(v)
    else if |ptr| > 1 && At(doc, ptr[..1]).Err? then Failed(doc, At(doc, ptr[..1]).error)
    else
      match At(doc, Init(ptr))
      case Err(e) => Failed(doc, e)
      case Ok(parent) =>
        match AddChild(parent, Last(ptr), v)
        case Err(e) => Failed(doc, e)
        case Ok(changed) => Done(Put(doc, Init(ptr), changed))
  }

  function Remove(doc: Json, ptr: seq<string>): (r: Applied)
    ensures r.Failed? ==> r.doc == doc
  {
    if ptr == [] then Failed(doc, Exception(405))
    else
      match At(doc, Init(ptr))
      case Err(e) => Failed(doc, e)
      case Ok(parent) =>
        match RemoveChild(parent, Last(ptr))
        case Err(e) => Failed(doc, e)
        case Ok(changed) => Done(Put(doc, Init(ptr), changed))
  }

  function Replace(doc: Json, ptr: seq<string>, v: Json): Applied {
    match At(doc, ptr)
    case Err(e) => Failed(doc, e)
    case Ok(_) => Done(Put(doc, ptr, v))
  }

  function Move(doc: Json, from: seq<string>, ptr: seq<string>): Applied {
    match At(doc, from)
    case Err(e) => Failed(doc, e)
    case Ok(v) =>
      match Remove(doc, from)
      case Failed(d, e) => Failed(d, e)
      case Done(d) => Add(d, ptr, v)
  }

  function Copy(doc: Json, from: seq<string>, ptr: seq<string>): Applied {
    match At(doc, from)
    case Err(e) => Failed(doc, e)
    case Ok(v) => Add(doc, ptr, v)
  }

  predicate IsOutOfRange(e: Error) {
    e.Exception? && 400 <= e.id < 500
  }

  /** `test`: only out-of-range exceptions count as an unsuccessful comparison. */
  function Test(doc: Json, ptr: seq<string>, v: Json): Applied {
    match At(doc, ptr)
    case Ok(found) => if found == v then Done(doc) else Failed(doc, Exception(501))
    case Err(e) => Failed(doc, if IsOutOfRange(e) then Exception(501) else e)
  }

  // ----- decoding one element of the patch array -----

  function Member(val: map<string, Json>, member: string): Result<Json> {
    if member in val then Ok(val[member]) else Err(Exception(105))
  }

  function StringMember(val: map<string, Json>, member: string): Result<string> {
    var j :- Member(val, member);
    if j.Str? then Ok(j.s) else Err(Exception(105))
  }

  function PointerMember(val: map<string, Json>, member: string): Result<seq<string>> {
    var text :- StringMember(val, member);
    Split(text)
  }

  function ApplyDecoded(doc: Json, val: map<string, Json>, op: string, ptr: seq<string>): Applied {
    if op == "add" then
      match Member(val, "value") case Err(e) => Failed(doc, e) case Ok(v) => Add(doc, ptr, v)
    else if op == "remove" then
      Remove(doc, ptr)
    else if op == "replace" then
      match Member(val, "value") case Err(e) => Failed(doc, e) case Ok(v) => Replace(doc, ptr, v)
    else if op == "move" then
      match PointerMember(val, "from") case Err(e) => Failed(doc, e) case Ok(from) => Move(doc, from, ptr)
    else if op == "copy" then
      match PointerMember(val, "from") case Err(e) => Failed(doc, e) case Ok(from) => Copy(doc, from, ptr)
    else if op == "test" then
      match Member(val, "value") case Err(e) => Failed(doc, e) case Ok(v) => Test(doc, ptr, v)
    else
      Failed(doc, Exception(105))
  }

  function ApplyOp(doc: Json, val: Json): Applied {
    if !val.Obj? then Failed(doc, Exception(104))
    else
      match StringMember(val.members, "op")
      case Err(e) => Failed(doc, e)
      case Ok(op) =>
        match PointerMember(val.members, "path")
        case Err(e) => Failed(doc, e)
        case Ok(ptr) => ApplyDecoded(doc, val.members, op, ptr)
  }

  /** The operations of a patch, in order, up to the first that throws. */
  function ApplyOps(doc: Json, ops: seq<Json>): Applied
    decreases |ops|
  {
    if ops == [] then Done(doc)
    else
      match ApplyOp(doc, ops[0])
      case Failed(d, e) => Failed(d, e)
      case Done(d) => ApplyOps(d, ops[1..])
  }

  lemma OpsTurn(doc: Json, ops: seq<Json>, i: nat)
    requires i < |ops|
    ensures ApplyOps(doc, ops[i..])
            == if ApplyOp(doc, ops[i]).Done? then ApplyOps(ApplyOp(doc, ops[i]).doc, ops[i + 1..])
               else ApplyOp(doc, ops[i])
  {
    assert ops[i..][1..] == ops[i + 1..];
  }

  function ApplyPatch(doc: Json, patch: Json): Applied {
    if patch.Arr? then ApplyOps(doc, patch.elems) else Failed(doc, Exception(104))
  }

  lemma {:induction false} ApplyOpsConcat(doc: Json, a: seq<Json>, b: seq<Json>)
    ensures ApplyOps(doc, a + b) ==
            if ApplyOps(doc, a).Done? then ApplyOps(ApplyOps(doc, a).doc, b) else ApplyOps(doc, a)
    decreases a
  {
    if a == [] {
      assert a + b == b;
    } else {
      assert (a + b)[1..] == a[1..] + b;
      if ApplyOp(doc, a[0]).Done? {
        ApplyOpsConcat(ApplyOp(doc, a[0]).doc, a[1..], b);
      }
    }
  }
}
