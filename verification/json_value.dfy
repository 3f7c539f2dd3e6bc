/** JSON documents as values: the default `std::map` object representation, one number kind. */
module JsonValue {
  import opened Wrappers

  /** The exceptions of the library, by their documented id, and a failed `JSON_ASSERT`. */
  datatype Error = Exception(id: nat) | AssertionFailure

  datatype Result<+T> = Ok(value: T) | Err(error: Error) {
    predicate IsFailure() { Err? }

    function PropagateFailure<U>(): Result<U>
      requires Err?
    {
      Err(error)
    }

    function Extract(): T
      requires Ok?
    {
      value
    }
  }

  datatype Json =
    | Null
    | Bool(b: bool)
    | Num(n: int)
    | Str(s: string)
    | Arr(elems: seq<Json>)
    | Obj(members: map<string, Json>)

  datatype Type = NullT | BoolT | NumT | StrT | ArrT | ObjT

  function TypeOf(j: Json): Type {
    match j
    case Null => NullT
    case Bool(_) => BoolT
    case Num(_) => NumT
    case Str(_) => StrT
    case Arr(_) => ArrT
    case Obj(_) => ObjT
  }

  /** Every array is shorter than the largest value of the 64-bit `size_type`, as any vector is. */
  const SIZE_MAX := 0xFFFF_FFFF_FFFF_FFFF

  predicate Representable(j: Json) {
    match j
    case Arr(elems) => |elems| < SIZE_MAX && forall i | 0 <= i < |elems| :: Representable(elems[i])
    case Obj(members) => forall k | k in members :: Representable(members[k])
    case _ => true
  }

  // ----- the iteration order of std::map -----

  /** Lexicographic order on keys. */
  predicate KeyLe(a: string, b: string) {
    a == [] || (b != [] && (a[0] < b[0] || (a[0] == b[0] && KeyLe(a[1..], b[1..]))))
  }

  lemma {:induction false} KeyLeReflexive(a: string)
    ensures KeyLe(a, a)
  {
    if a == [] {
    } else {
      KeyLeReflexive(a[1..]);
    }
  }

  lemma {:induction false} KeyLeTotal(a: string, b: string)
    ensures KeyLe(a, b) || KeyLe(b, a)
    ensures KeyLe(a, b) && KeyLe(b, a) ==> a == b
  {
    if a == [] || b == [] {
    } else {
      KeyLeTotal(a[1..], b[1..]);
    }
  }

  lemma {:induction false} KeyLeTransitive(a: string, b: string, c: string)
    requires KeyLe(a, b) && KeyLe(b, c)
    ensures KeyLe(a, c)
  {
    if a == [] || a[0] != b[0] || b[0] != c[0] {
    } else {
      KeyLeTransitive(a[1..], b[1..], c[1..]);
    }
  }

  /** The first place where two keys differ, or where one of them ends. */
  function CommonPrefix(a: string, b: string): (i: nat)
    ensures i <= |a| && i <= |b| && a[..i] == b[..i]
    ensures i < |a| && i < |b| ==> a[i] != b[i]
  {
    if a == [] || b == [] || a[0] != b[0] then 0 else 1 + CommonPrefix(a[1..], b[1..])
  }

  /** The order is decided where they first differ; a prefix comes before what it begins. */
  lemma {:induction false} KeyLeDecides(a: string, b: string)
    ensures var i := CommonPrefix(a, b);
            KeyLe(a, b) <==> i == |a| || (i < |b| && a[i] < b[i])
  {
    if a == [] || b == [] || a[0] != b[0] {
    } else {
      KeyLeDecides(a[1..], b[1..]);
    }
  }

  lemma {:induction false} LeastKeyExists(keys: set<string>)
    requires keys != {}
    ensures exists least :: least in keys && forall k | k in keys :: KeyLe(least, k)
    decreases |keys|
  {
    var x :| x in keys;
    KeyLeReflexive(x);
    if keys == {x} {
    } else {
      var rest := keys - {x};
      LeastKeyExists(rest);
      var y :| y in rest && forall k | k in rest :: KeyLe(y, k);
      KeyLeTotal(x, y);
      var least := if KeyLe(x, y) then x else y;
      forall k | k in keys
        ensures KeyLe(least, k)
      {
        if k != x && least == x {
          assert k in rest;
          KeyLeTransitive(x, y, k);
        }
      }
    }
  }

  function LeastKey(keys: set<string>): (least: string)
    requires keys != {}
    ensures least in keys && forall k | k in keys :: KeyLe(least, k)
  {
    LeastKeyExists(keys);
    assert forall a, b | a in keys && b in keys && KeyLe(a, b) && KeyLe(b, a) :: a == b by {
      forall a, b | a in keys && b in keys && KeyLe(a, b) && KeyLe(b, a)
        ensures a == b
      {
        KeyLeTotal(a, b);
      }
    }
    var least :| least in keys && forall k | k in keys :: KeyLe(least, k);
    least
  }

  /** The keys in the order an iterator of the map visits them. */
  function SortedKeys(keys: set<string>): (ks: seq<string>)
    ensures forall k :: k in ks <==> k in keys
    ensures Distinct(ks)
    ensures |ks| == |keys|
    decreases |keys|
  {
    if keys == {} then [] else
    var least := LeastKey(keys);
    [least] + SortedKeys(keys - {least})
  }

  ghost predicate Ascending(ks: seq<string>) {
    forall i, j | 0 <= i < j < |ks| :: KeyLe(ks[i], ks[j])
  }

  lemma AscendingCons(least: string, rest: seq<string>)
    requires Ascending(rest) && forall k | k in rest :: KeyLe(least, k)
    ensures Ascending([least] + rest)
  {
  }

  lemma {:induction false} SortedKeysAscend(keys: set<string>)
    ensures Ascending(SortedKeys(keys))
    decreases |keys|
  {
    if keys == {} {
    } else {
      var least := LeastKey(keys);
      SortedKeysAscend(keys - {least});
      AscendingCons(least, SortedKeys(keys - {least}));
    }
  }
}
