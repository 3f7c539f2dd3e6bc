/** `json_value::destroy`: tearing a tree down with a worklist instead of recursion. */
module JsonDestroy {
  import opened JsonValue

  /** The values held directly by an array or object, in iteration order. */
  function Children(j: Json): (cs: seq<Json>)
    ensures forall i | 0 <= i < |cs| :: cs[i] < j
  {
    match j
    case Arr(elems) => elems
    case Obj(members) => MemberValues(members, SortedKeys(members.Keys))
    case _ => []
  }

  function MemberValues(members: map<string, Json>, keys: seq<string>): (vs: seq<Json>)
    requires forall i | 0 <= i < |keys| :: keys[i] in members
    ensures |vs| == |keys| && forall i | 0 <= i < |vs| :: vs[i] == members[keys[i]]
  {
    seq(|keys|, i requires 0 <= i < |keys| => members[keys[i]])
  }

  function Sum(ns: seq<nat>): nat {
    if ns == [] then 0 else Sum(ns[..|ns| - 1]) + ns[|ns| - 1]
  }

  ghost function Union<T>(ms: seq<multiset<T>>): multiset<T> {
    if ms == [] then multiset{} else Union(ms[..|ms| - 1]) + ms[|ms| - 1]
  }

  /** The number of values in a tree, its root included. */
  function NodeCount(j: Json): nat {
    var cs := Children(j);
    1 + Sum(seq(|cs|, i requires 0 <= i < |cs| => NodeCount(cs[i])))
  }

  /** Every value below the root of a tree, as often as it occurs. */
  ghost function Descendants(j: Json): multiset<Json> {
    var cs := Children(j);
    Union(seq(|cs|, i requires 0 <= i < |cs| => multiset{cs[i]} + Descendants(cs[i])))
  }

  function Counts(stack: seq<Json>): seq<nat> {
    seq(|stack|, i requires 0 <= i < |stack| => NodeCount(stack[i]))
  }

  ghost function Nodes(stack: seq<Json>): seq<multiset<Json>> {
    seq(|stack|, i requires 0 <= i < |stack| => multiset{stack[i]} + Descendants(stack[i]))
  }

  /** The values in all the trees of a stack. */
  function StackCount(stack: seq<Json>): nat {
    Sum(Counts(stack))
  }

  ghost function StackNodes(stack: seq<Json>): multiset<Json> {
    Union(Nodes(stack))
  }

  lemma {:induction false} SumConcat(a: seq<nat>, b: seq<nat>)
    ensures Sum(a + b) == Sum(a) + Sum(b)
  {
    if b == [] {
      assert a + b == a;
    } else {
      assert (a + b)[..|a + b| - 1] == a + b[..|b| - 1];
      SumConcat(a, b[..|b| - 1]);
    }
  }

  lemma {:induction false} UnionConcat<T>(a: seq<multiset<T>>, b: seq<multiset<T>>)
    ensures Union(a + b) == Union(a) + Union(b)
  {
    if b == [] {
      assert a + b == a;
    } else {
      assert (a + b)[..|a + b| - 1] == a + b[..|b| - 1];
      UnionConcat(a, b[..|b| - 1]);
    }
  }

  lemma CountsConcat(a: seq<Json>, b: seq<Json>)
    ensures Counts(a + b) == Counts(a) + Counts(b)
  {
  }

  lemma NodesConcat(a: seq<Json>, b: seq<Json>)
    ensures Nodes(a + b) == Nodes(a) + Nodes(b)
  {
  }

  lemma StackConcat(a: seq<Json>, b: seq<Json>)
    ensures StackCount(a + b) == StackCount(a) + StackCount(b)
    ensures StackNodes(a + b) == StackNodes(a) + StackNodes(b)
  {
    CountsConcat(a, b);
    NodesConcat(a, b);
    SumConcat(Counts(a), Counts(b));
    UnionConcat(Nodes(a), Nodes(b));
  }

  lemma OneCount(j: Json)
    ensures StackCount([j]) == NodeCount(j)
  {
    assert Counts([j]) == [NodeCount(j)];
  }

  lemma OneNode(j: Json)
    ensures StackNodes([j]) == multiset{j} + Descendants(j)
  {
    assert Nodes([j]) == [multiset{j} + Descendants(j)];
  }

  lemma CountBelow(j: Json)
    ensures NodeCount(j) == 1 + StackCount(Children(j))
  {
    var cs := Children(j);
    assert Counts(cs) == seq(|cs|, i requires 0 <= i < |cs| => NodeCount(cs[i]));
  }

  lemma NodesBelow(j: Json)
    ensures Descendants(j) == StackNodes(Children(j))
  {
    var cs := Children(j);
    assert Nodes(cs) == seq(|cs|, i requires 0 <= i < |cs| => multiset{cs[i]} + Descendants(cs[i]));
  }

  /** The stack after its top has been replaced by the top's children. */
  function Popped(stack: seq<Json>): seq<Json>
    requires stack != []
  {
    stack[..|stack| - 1] + Children(stack[|stack| - 1])
  }

  /** One iteration takes exactly one value off the stack: its top. */
  lemma PopStep(stack: seq<Json>)
    requires stack != []
    ensures StackCount(Popped(stack)) == StackCount(stack) - 1
    ensures StackNodes(Popped(stack)) + multiset{stack[|stack| - 1]} == StackNodes(stack)
  {
    var rest, top := stack[..|stack| - 1], stack[|stack| - 1];
    assert stack == rest + [top];
    StackConcat(rest, [top]);
    StackConcat(rest, Children(top));
    OneCount(top);
    OneNode(top);
    CountBelow(top);
    NodesBelow(top);
  }

  /** What is left of an item once its children have been moved out. */
  function Shell(j: Json): Json {
    match j
    case Arr(_) => Arr([])
    case Obj(_) => Obj(map[])
    case _ => j
  }

  /** Each value is of the type of its original and holds nothing any more. */
  ghost predicate Emptied(shells: seq<Json>, originals: seq<Json>) {
    |shells| == |originals|
    && forall i | 0 <= i < |shells| :: TypeOf(shells[i]) == TypeOf(originals[i]) && Children(shells[i]) == []
  }

  lemma EmptiedAppend(shells: seq<Json>, originals: seq<Json>, j: Json)
    requires Emptied(shells, originals)
    ensures Emptied(shells + [Shell(j)], originals + [j])
  {
    assert SortedKeys({}) == [];
  }

  lemma PoppedByType(stack: seq<Json>)
    requires stack != []
    ensures var top, rest := stack[|stack| - 1], stack[..|stack| - 1];
            Popped(stack) == if top.Arr? || top.Obj? then rest + Children(top) else rest
  {
  }

  /** What has been popped and what is still on the stack are together the descendants of `j`. */
  ghost predicate Accounted(j: Json, popped: seq<Json>, stack: seq<Json>) {
    multiset(popped) + StackNodes(stack) == Descendants(j) && |popped| + StackCount(stack) == NodeCount(j) - 1
  }

  lemma Turn(j: Json, popped: seq<Json>, stack: seq<Json>)
    requires stack != [] && Accounted(j, popped, stack)
    ensures Accounted(j, popped + [stack[|stack| - 1]], Popped(stack))
    ensures StackCount(Popped(stack)) == StackCount(stack) - 1
  {
    PopStep(stack);
  }

  /** One iteration: the top gone, and its children there if it is an array or an object. */
  lemma DestroyTurn(j: Json, popped: seq<Json>, before: seq<Json>, after: seq<Json>)
    requires before != [] && Accounted(j, popped, before)
    requires var top, rest := before[|before| - 1], before[..|before| - 1];
             after == if top.Arr? || top.Obj? then rest + Children(top) else rest
    ensures Accounted(j, popped + [before[|before| - 1]], after)
    ensures StackCount(after) < StackCount(before)
  {
    PoppedByType(before);
    Turn(j, popped, before);
  }

  lemma AccountedStart(j: Json)
    ensures Accounted(j, [], Children(j))
  {
    CountBelow(j);
    NodesBelow(j);
  }

  lemma AccountedEnd(j: Json, popped: seq<Json>)
    requires Accounted(j, popped, [])
    ensures multiset(popped) == Descendants(j) && |popped| == NodeCount(j) - 1
  {
  }

  /** `destroy`: `popped` are the values taken off the stack, in order; `destructed` is what each had
      become when it went out of scope. Every descendant is popped once and goes out of scope with
      no children, so destructors never nest. */
  method Destroy(j: Json) returns (popped: seq<Json>, destructed: seq<Json>)
    ensures multiset(popped) == Descendants(j)
    ensures |popped| == NodeCount(j) - 1
    ensures Emptied(destructed, popped)
  {
    popped, destructed := [], [];
    var stack := Children(j);
    AccountedStart(j);
    while |stack| > 0
      invariant Accounted(j, popped, stack)
      invariant Emptied(destructed, popped)
      decreases StackCount(stack)
    {
      ghost var taken, before := popped, stack;
      var current := stack[|stack| - 1];
      EmptiedAppend(destructed, popped, current);
      popped := popped + [current];
      stack := stack[..|stack| - 1];
      if current.Arr? || current.Obj? {
        stack := stack + Children(current);
        current := Shell(current);
      }
      DestroyTurn(j, taken, before, stack);
      destructed := destructed + [current];
    }
    AccountedEnd(j, popped);
  }
}
