/** What a tree holds: the worklist's account of a tree against checked access, and without any order. */
module JsonDestroyLaws {
  import opened Wrappers
  import opened Decimals
  import opened JsonValue
  import opened JsonPointer
  import opened JsonDestroy

  // ----- descendants are what pointers below the root find -----

  lemma {:induction false} UnionHolds<T>(ms: seq<multiset<T>>, i: nat)
    requires i < |ms|
    ensures ms[i] <= Union(ms)
  {
    if i == |ms| - 1 {
    } else {
      UnionHolds(ms[..|ms| - 1], i);
    }
  }

  lemma {:induction false} UnionFrom<T>(ms: seq<multiset<T>>, x: T) returns (i: nat)
    requires x in Union(ms)
    ensures i < |ms| && x in ms[i]
  {
    if x in ms[|ms| - 1] {
      i := |ms| - 1;
    } else {
      i := UnionFrom(ms[..|ms| - 1], x);
    }
  }

  /** A child, and everything below it, is below its parent. */
  lemma ChildBelow(j: Json, i: nat)
    requires i < |Children(j)|
    ensures multiset{Children(j)[i]} + Descendants(Children(j)[i]) <= Descendants(j)
  {
    NodesBelow(j);
    UnionHolds(Nodes(Children(j)), i);
  }

  /** Every child that checked access finds is among the children. */
  lemma ChildListed(j: Json, token: string) returns (i: nat)
    requires Child(j, token).Ok?
    ensures i < |Children(j)| && Children(j)[i] == Child(j, token).value
  {
    match j
    case Obj(members) =>
      var keys := SortedKeys(members.Keys);
      i :| 0 <= i < |keys| && keys[i] == token;
    case Arr(elems) => i := ArrayIndex(token).value;
  }

  /** And the other way round. */
  lemma ListedChild(j: Json, i: nat) returns (token: string)
    requires Representable(j) && i < |Children(j)|
    ensures Child(j, token) == Ok(Children(j)[i]) && Representable(Children(j)[i])
  {
    match j
    case Obj(members) =>
      token := SortedKeys(members.Keys)[i];
    case Arr(elems) =>
      token := Decimal(i);
      ArrayIndexCanonical(token, i);
      assert token[0] in token && !IsDigit('-');
  }

  /** What a pointer below the root finds is a descendant. */
  lemma {:induction false} FoundIsDescendant(j: Json, toks: seq<string>)
    requires toks != [] && At(j, toks).Ok?
    ensures At(j, toks).value in Descendants(j)
    decreases toks
  {
    var i := ChildListed(j, toks[0]);
    ChildBelow(j, i);
    if |toks| == 1 {
      assert toks[1..] == [];
    } else {
      FoundIsDescendant(Child(j, toks[0]).value, toks[1..]);
    }
  }

  lemma BelowSomeChild(j: Json, x: Json) returns (i: nat)
    requires x in Descendants(j)
    ensures i < |Children(j)| && (x == Children(j)[i] || x in Descendants(Children(j)[i]))
  {
    NodesBelow(j);
    i := UnionFrom(Nodes(Children(j)), x);
  }

  lemma FoundBelow(j: Json, token: string, toks: seq<string>, x: Json)
    requires Child(j, token).Ok? && At(Child(j, token).value, toks) == Ok(x)
    ensures At(j, [token] + toks) == Ok(x)
  {
    assert ([token] + toks)[1..] == toks;
  }

  /** A descendant is what some pointer below the root finds. */
  lemma {:induction false} DescendantIsFound(j: Json, x: Json) returns (toks: seq<string>)
    requires Representable(j) && x in Descendants(j)
    ensures toks != [] && At(j, toks) == Ok(x)
    decreases j
  {
    var i := BelowSomeChild(j, x);
    var token := ListedChild(j, i);
    var rest := [];
    if x != Children(j)[i] {
      rest := DescendantIsFound(Children(j)[i], x);
    }
    FoundBelow(j, token, rest, x);
    toks := [token] + rest;
  }

  /** The descendants of a tree are what the pointers below its root find. */
  lemma DescendantsAreFound(j: Json, x: Json)
    requires Representable(j)
    ensures x in Descendants(j) <==> exists toks :: toks != [] && At(j, toks) == Ok(x)
  {
    if x in Descendants(j) {
      var toks := DescendantIsFound(j, x);
    }
    forall toks | toks != [] && At(j, toks) == Ok(x)
      ensures x in Descendants(j)
    {
      FoundIsDescendant(j, toks);
    }
  }

  /** As many children as elements or members. */
  lemma ChildrenCount(j: Json)
    ensures |Children(j)| == if j.Arr? then |j.elems| else if j.Obj? then |j.members| else 0
  {
    if j.Obj? {
      assert |j.members.Keys| == |j.members|;
    }
  }

  // ----- how often -----

  function Without<T>(s: seq<T>, i: nat): seq<T>
    requires i < |s|
  {
    s[..i] + s[i + 1..]
  }

  predicate AllIn(keys: seq<string>, members: map<string, Json>) { forall j | 0 <= j < |keys| :: keys[j] in members }

  /** One tree taken off a stack. */
  lemma StackWithout(stack: seq<Json>, i: nat)
    requires i < |stack|
    ensures StackCount(stack) == StackCount(Without(stack, i)) + NodeCount(stack[i])
    ensures StackNodes(stack) == StackNodes(Without(stack, i)) + multiset{stack[i]} + Descendants(stack[i])
  {
    var a, v, b := stack[..i], stack[i], stack[i + 1..];
    assert stack == a + ([v] + b);
    StackConcat(a, [v] + b);
    StackConcat([v], b);
    StackConcat(a, b);
    OneCount(v);
    OneNode(v);
  }

  lemma ValuesWithout(members: map<string, Json>, keys: seq<string>, i: nat)
    requires i < |keys| && AllIn(keys, members)
    ensures AllIn(Without(keys, i), members)
    ensures MemberValues(members, Without(keys, i)) == Without(MemberValues(members, keys), i)
    ensures MemberValues(members, keys)[i] == members[keys[i]]
  {
  }

  ghost predicate SameKeys(a: seq<string>, b: seq<string>) {
    Distinct(a) && Distinct(b) && forall k :: k in a <==> k in b
  }

  lemma WithoutKey(keys: seq<string>, i: nat)
    requires Distinct(keys) && i < |keys|
    ensures var rest := Without(keys, i);
            Distinct(rest) && |rest| == |keys| - 1 && forall k :: k in rest <==> k in keys && k != keys[i]
  {
    var rest := Without(keys, i);
    forall k
      ensures k in rest <==> k in keys && k != keys[i]
    {
      if k in keys && k != keys[i] {
        var j :| 0 <= j < |keys| && keys[j] == k;
        assert rest[if j < i then j else j - 1] == k;
      }
    }
  }

  lemma HoldsSomething<T>(s: seq<T>)
    requires s != []
    ensures exists x :: x in s
  {
    assert s[0] in s;
  }

  lemma SameWithout(a: seq<string>, b: seq<string>) returns (i: nat)
    requires SameKeys(a, b) && a != []
    ensures i < |b| && b[i] == a[0] && SameKeys(Without(a, 0), Without(b, i)) && |Without(a, 0)| < |a|
  {
    assert a[0] in a;
    i :| 0 <= i < |b| && b[i] == a[0];
    WithoutKey(a, 0);
    WithoutKey(b, i);
  }

  /** The order of the keys does not matter. */
  lemma {:induction false} ValuesAnyOrder(members: map<string, Json>, a: seq<string>, b: seq<string>)
    requires SameKeys(a, b) && AllIn(a, members) && AllIn(b, members)
    ensures StackCount(MemberValues(members, a)) == StackCount(MemberValues(members, b))
    ensures StackNodes(MemberValues(members, a)) == StackNodes(MemberValues(members, b))
    decreases |a|
  {
    if a == [] {
      if b != [] {
        HoldsSomething(b);
      }
    } else {
      var i := SameWithout(a, b);
      ValuesWithout(members, a, 0);
      ValuesWithout(members, b, i);
      StackWithout(MemberValues(members, a), 0);
      StackWithout(MemberValues(members, b), i);
      ValuesAnyOrder(members, Without(a, 0), Without(b, i));
    }
  }

  lemma SortedAccount(members: map<string, Json>) returns (keys: seq<string>)
    ensures Distinct(keys) && (forall k :: k in keys <==> k in members) && AllIn(keys, members)
    ensures NodeCount(Obj(members)) == 1 + StackCount(MemberValues(members, keys))
    ensures Descendants(Obj(members)) == StackNodes(MemberValues(members, keys))
  {
    keys := SortedKeys(members.Keys);
    CountBelow(Obj(members));
    NodesBelow(Obj(members));
  }

  /** The account of an object, through its keys in any order. */
  lemma ObjectAccount(members: map<string, Json>, keys: seq<string>)
    requires Distinct(keys) && (forall k :: k in keys <==> k in members) && AllIn(keys, members)
    ensures NodeCount(Obj(members)) == 1 + StackCount(MemberValues(members, keys))
    ensures Descendants(Obj(members)) == StackNodes(MemberValues(members, keys))
  {
    var sorted := SortedAccount(members);
    ValuesAnyOrder(members, sorted, keys);
  }

  lemma SameValues(a: map<string, Json>, b: map<string, Json>, keys: seq<string>)
    requires AllIn(keys, a) && AllIn(keys, b) && forall j | 0 <= j < |keys| :: a[keys[j]] == b[keys[j]]
    ensures MemberValues(a, keys) == MemberValues(b, keys)
  {
  }

  lemma AccountWithout(members: map<string, Json>, keys: seq<string>, i: nat)
    requires i < |keys| && Distinct(keys) && (forall k :: k in keys <==> k in members) && AllIn(keys, members)
    ensures var fewer, rest := Obj(members - {keys[i]}), Without(MemberValues(members, keys), i);
            NodeCount(fewer) == 1 + StackCount(rest) && Descendants(fewer) == StackNodes(rest)
  {
    var fewer, rest := members - {keys[i]}, Without(keys, i);
    WithoutKey(keys, i);
    ValuesWithout(members, keys, i);
    assert AllIn(rest, fewer) by {
      assert forall j | 0 <= j < |rest| :: rest[j] in rest;
    }
    SameValues(members, fewer, rest);
    ObjectAccount(fewer, rest);
  }

  /** A member adds its own tree to an object, whichever member it is. */
  lemma MemberAdds(members: map<string, Json>, k: string)
    requires k in members
    ensures NodeCount(Obj(members)) == NodeCount(Obj(members - {k})) + NodeCount(members[k])
    ensures Descendants(Obj(members))
            == Descendants(Obj(members - {k})) + multiset{members[k]} + Descendants(members[k])
  {
    var keys := SortedAccount(members);
    var i :| 0 <= i < |keys| && keys[i] == k;
    StackWithout(MemberValues(members, keys), i);
    AccountWithout(members, keys, i);
  }

  /** An element adds its own tree to an array. */
  lemma ElementAdds(elems: seq<Json>, v: Json)
    ensures NodeCount(Arr(elems + [v])) == NodeCount(Arr(elems)) + NodeCount(v)
    ensures Descendants(Arr(elems + [v])) == Descendants(Arr(elems)) + multiset{v} + Descendants(v)
  {
    StackConcat(elems, [v]);
    OneCount(v);
    OneNode(v);
    CountBelow(Arr(elems));
    NodesBelow(Arr(elems));
    CountBelow(Arr(elems + [v]));
    NodesBelow(Arr(elems + [v]));
  }

  /** Every other value, and an empty array or object, is a single node. */
  lemma Leaves(j: Json)
    requires (j.Arr? ==> j.elems == []) && (j.Obj? ==> j.members == map[])
    ensures NodeCount(j) == 1 && Descendants(j) == multiset{}
  {
    CountBelow(j);
    NodesBelow(j);
    if j.Obj? {
      assert j.members.Keys == {};
    }
    assert Children(j) == [];
  }
}
