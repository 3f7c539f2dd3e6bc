/** `ordered_map`: a vector of key/value pairs that acts as a finite map and keeps insertion order. */
module OrderedMapModel {
  import opened Wrappers

  type Entries<K, V> = seq<(K, V)>

  function Keys<K, V>(s: Entries<K, V>): seq<K> {
    seq(|s|, i requires 0 <= i < |s| => s[i].0)
  }

  ghost predicate DistinctKeys<K, V>(s: Entries<K, V>) {
    forall i, j | 0 <= i < j < |s| :: s[i].0 != s[j].0
  }

  /** The position of the first entry under `k`, or the size: what every scan loop looks for. */
  function IndexOf<K(==), V>(s: Entries<K, V>, k: K): (i: nat)
    ensures i <= |s|
    ensures i < |s| ==> s[i].0 == k
    ensures forall j | 0 <= j < i :: s[j].0 != k
  {
    if s == [] then 0 else if s[0].0 == k then 0 else 1 + IndexOf(s[1..], k)
  }

  lemma IndexOfUnique<K, V>(s: Entries<K, V>, k: K, i: nat)
    requires i <= |s| && (i < |s| ==> s[i].0 == k) && forall j | 0 <= j < i :: s[j].0 != k
    ensures IndexOf(s, k) == i
  {
  }

  function Lookup<K(==), V>(s: Entries<K, V>, k: K): Option<V> {
    if IndexOf(s, k) < |s| then Some(s[IndexOf(s, k)].1) else None
  }

  /** The finite map the entries stand for: first entry under each key. */
  ghost function ToMap<K, V>(s: Entries<K, V>): map<K, V> {
    map k | k in Keys(s) :: s[IndexOf(s, k)].1
  }

  function MapGet<K, V>(m: map<K, V>, k: K): Option<V> {
    if k in m then Some(m[k]) else None
  }

  lemma KeyIndex<K, V>(s: Entries<K, V>, k: K)
    ensures k in Keys(s) <==> IndexOf(s, k) < |s|
  {
    if IndexOf(s, k) < |s| {
      assert Keys(s)[IndexOf(s, k)] == k;
    }
    if k in Keys(s) {
      var i :| 0 <= i < |s| && Keys(s)[i] == k;
      assert s[i].0 == k;
    }
  }

  /** Lookups agree with the map. */
  lemma LookupAgrees<K, V>(s: Entries<K, V>, k: K)
    ensures Lookup(s, k) == MapGet(ToMap(s), k)
  {
    KeyIndex(s, k);
  }

  // ----- the operations on the entries -----

  function Emplaced<K(==), V>(s: Entries<K, V>, k: K, v: V): Entries<K, V> {
    if IndexOf(s, k) < |s| then s else s + [(k, v)]
  }

  function Assigned<K(==), V>(s: Entries<K, V>, k: K, v: V): Entries<K, V> {
    var i := IndexOf(s, k);
    if i < |s| then s[i := (s[i].0, v)] else s + [(k, v)]
  }

  function WithoutRange<K, V>(s: Entries<K, V>, first: nat, last: nat): Entries<K, V>
    requires first <= last <= |s|
  {
    s[..first] + s[last..]
  }

  function Erased<K(==), V>(s: Entries<K, V>, k: K): Entries<K, V> {
    var i := IndexOf(s, k);
    if i < |s| then WithoutRange(s, i, i + 1) else s
  }

  /** With distinct keys, an entry's position is the only one its key has. */
  lemma DistinctIndex<K, V>(s: Entries<K, V>, i: nat)
    requires DistinctKeys(s) && i < |s|
    ensures IndexOf(s, s[i].0) == i
  {
    assert s[IndexOf(s, s[i].0)].0 == s[i].0;
  }

  /** Two lists of entries with distinct keys and the same keyed values have the same map. */
  lemma MapFromEntries<K, V>(s: Entries<K, V>, m: map<K, V>)
    requires DistinctKeys(s)
    requires forall i | 0 <= i < |s| :: s[i].0 in m && m[s[i].0] == s[i].1
    requires forall k | k in m :: k in Keys(s)
    ensures ToMap(s) == m
  {
    forall k | k in Keys(s)
      ensures k in m && ToMap(s)[k] == m[k]
    {
      KeyIndex(s, k);
    }
  }

  lemma MapAt<K, V>(s: Entries<K, V>, i: nat)
    requires DistinctKeys(s) && i < |s|
    ensures s[i].0 in ToMap(s) && ToMap(s)[s[i].0] == s[i].1
  {
    assert Keys(s)[i] == s[i].0;
    DistinctIndex(s, i);
  }

  lemma EmplacedRefines<K, V>(s: Entries<K, V>, k: K, v: V)
    requires DistinctKeys(s)
    ensures DistinctKeys(Emplaced(s, k, v))
    ensures ToMap(Emplaced(s, k, v)) == if k in ToMap(s) then ToMap(s) else ToMap(s)[k := v]
    ensures Keys(Emplaced(s, k, v)) == if k in ToMap(s) then Keys(s) else Keys(s) + [k]
  {
    KeyIndex(s, k);
    if k !in ToMap(s) {
      AppendRefines(s, k, v);
    }
  }

  lemma AppendRefines<K, V>(s: Entries<K, V>, k: K, v: V)
    requires DistinctKeys(s) && k !in Keys(s)
    ensures DistinctKeys(s + [(k, v)])
    ensures ToMap(s + [(k, v)]) == ToMap(s)[k := v]
    ensures Keys(s + [(k, v)]) == Keys(s) + [k]
  {
    var t := s + [(k, v)];
    assert Keys(t) == Keys(s) + [k];
    assert forall i | 0 <= i < |s| :: Keys(s)[i] == s[i].0;
    forall i | 0 <= i < |t|
      ensures t[i].0 in ToMap(s)[k := v] && ToMap(s)[k := v][t[i].0] == t[i].1
    {
      if i < |s| {
        MapAt(s, i);
      }
    }
    MapFromEntries(t, ToMap(s)[k := v]);
  }

  lemma AssignedRefines<K, V>(s: Entries<K, V>, k: K, v: V)
    requires DistinctKeys(s)
    ensures DistinctKeys(Assigned(s, k, v))
    ensures ToMap(Assigned(s, k, v)) == ToMap(s)[k := v]
    ensures Keys(Assigned(s, k, v)) == if k in ToMap(s) then Keys(s) else Keys(s) + [k]
  {
    KeyIndex(s, k);
    var i := IndexOf(s, k);
    if i < |s| {
      var t := Assigned(s, k, v);
      assert Keys(t) == Keys(s);
      forall j | 0 <= j < |t|
        ensures t[j].0 in ToMap(s)[k := v] && ToMap(s)[k := v][t[j].0] == t[j].1
      {
        MapAt(s, j);
      }
      MapFromEntries(t, ToMap(s)[k := v]);
    } else {
      AppendRefines(s, k, v);
    }
  }

  ghost function KeysIn<K>(order: seq<K>, first: nat, last: nat): set<K>
    requires first <= last <= |order|
  {
    set i | first <= i < last :: order[i]
  }

  lemma KeysInOne<K>(order: seq<K>, i: nat)
    requires i < |order|
    ensures KeysIn(order, i, i + 1) == {order[i]}
  {
  }

  /** Where the entries left by a range erase come from. */
  function Origin(i: nat, first: nat, last: nat): nat
    requires first <= last
  {
    if i < first then i else i - first + last
  }

  lemma WithoutRangeEntries<K, V>(s: Entries<K, V>, first: nat, last: nat)
    requires first <= last <= |s|
    ensures var t := WithoutRange(s, first, last);
            forall i | 0 <= i < |t| :: Origin(i, first, last) < |s| && t[i] == s[Origin(i, first, last)]
    ensures Keys(WithoutRange(s, first, last)) == Keys(s)[..first] + Keys(s)[last..]
    ensures DistinctKeys(s) ==> DistinctKeys(WithoutRange(s, first, last))
  {
  }

  lemma WithoutRangeRefines<K, V>(s: Entries<K, V>, first: nat, last: nat)
    requires DistinctKeys(s) && first <= last <= |s|
    ensures DistinctKeys(WithoutRange(s, first, last))
    ensures ToMap(WithoutRange(s, first, last)) == ToMap(s) - KeysIn(Keys(s), first, last)
    ensures Keys(WithoutRange(s, first, last)) == Keys(s)[..first] + Keys(s)[last..]
  {
    var t := WithoutRange(s, first, last);
    var gone := KeysIn(Keys(s), first, last);
    WithoutRangeEntries(s, first, last);
    forall i | 0 <= i < |t|
      ensures t[i].0 in ToMap(s) && t[i].0 !in gone && ToMap(s)[t[i].0] == t[i].1
    {
      var j := Origin(i, first, last);
      MapAt(s, j);
      assert forall x | first <= x < last :: Keys(s)[x] != s[j].0;
    }
    forall k | k in ToMap(s) && k !in gone
      ensures k in Keys(t)
    {
      KeyIndex(s, k);
      var j := IndexOf(s, k);
      assert Keys(s)[j] == k;
      var i := if j < first then j else j - last + first;
      assert Keys(t)[i] == k;
    }
    MapFromEntries(t, ToMap(s) - gone);
  }

  lemma ErasedRefines<K, V>(s: Entries<K, V>, k: K)
    requires DistinctKeys(s)
    ensures DistinctKeys(Erased(s, k))
    ensures ToMap(Erased(s, k)) == ToMap(s) - {k}
  {
    KeyIndex(s, k);
    var i := IndexOf(s, k);
    if i < |s| {
      WithoutRangeRefines(s, i, i + 1);
      KeysInOne(Keys(s), i);
      assert Keys(s)[i] == k;
    } else {
      assert k !in ToMap(s);
      assert ToMap(s) - {k} == ToMap(s);
    }
  }

  /** Without distinct keys, which the range constructors do not establish, erasing a key removes
      its first entry only: the key is gone exactly when it had at most one. */
  lemma ErasedForgets<K, V>(s: Entries<K, V>, k: K)
    ensures Lookup(Erased(s, k), k) == None
            <==> forall i, j | 0 <= i < |s| && 0 <= j < |s| && s[i].0 == k && s[j].0 == k :: i == j
  {
    var t, i := Erased(s, k), IndexOf(s, k);
    if Lookup(t, k) == None {
      forall x | 0 <= x < |s| && s[x].0 == k
        ensures x == i
      {
        if x != i {
          LaterEntryStays(s, k, x);
        }
      }
    } else {
      var j := IndexOf(t, k);
      var x := if j < i then j else j + 1;
      assert s[x].0 == k && s[i].0 == k && x != i;
    }
  }

  /** Two entries of one key: erasing it leaves the second. */
  lemma DuplicateStays<K>(k: K)
    ensures Lookup(Erased([(k, 1), (k, 2)], k), k) == Some(2)
  {
    var s := [(k, 1), (k, 2)];
    assert IndexOf(s, k) == 0;
    assert Erased(s, k) == [(k, 2)];
  }

  lemma LaterEntryStays<K, V>(s: Entries<K, V>, k: K, x: nat)
    requires x < |s| && s[x].0 == k && x != IndexOf(s, k)
    ensures Lookup(Erased(s, k), k) != None
  {
    var t := Erased(s, k);
    assert t[x - 1] == s[x];
  }

  // ----- runs -----

  datatype Command<K, V> =
    | Emplace(key: K, value: V)
    | Assign(key: K, value: V)
    | Erase(key: K)
    | EraseRange(first: nat, last: nat)

  /** What a command does to the vector; a range outside the vector is not a call. */
  function Execute<K(==), V>(s: Entries<K, V>, c: Command<K, V>): Entries<K, V> {
    match c
    case Emplace(k, v) => Emplaced(s, k, v)
    case Assign(k, v) => Assigned(s, k, v)
    case Erase(k) => Erased(s, k)
    case EraseRange(first, last) => if first <= last <= |s| then WithoutRange(s, first, last) else s
  }

  /** What the same command does to a finite map with an insertion order. */
  ghost function Specify<K, V>(m: map<K, V>, order: seq<K>, c: Command<K, V>): (map<K, V>, seq<K>) {
    match c
    case Emplace(k, v) => if k in m then (m, order) else (m[k := v], order + [k])
    case Assign(k, v) => (m[k := v], if k in m then order else order + [k])
    case Erase(k) => (m - {k}, Drop(order, k))
    case EraseRange(first, last) =>
      if first <= last <= |order| then (m - KeysIn(order, first, last), order[..first] + order[last..])
      else (m, order)
  }

  /** An order without key `k`. */
  ghost function Drop<K>(order: seq<K>, k: K): seq<K> {
    if order == [] then [] else (if order[0] == k then [] else [order[0]]) + Drop(order[1..], k)
  }

  lemma {:induction false} DropAbsent<K>(order: seq<K>, k: K)
    requires k !in order
    ensures Drop(order, k) == order
  {
    if order == [] {
    } else {
      DropAbsent(order[1..], k);
    }
  }

  lemma {:induction false} DropAt<K>(order: seq<K>, i: nat)
    requires Distinct(order) && i < |order|
    ensures Drop(order, order[i]) == order[..i] + order[i + 1..]
  {
    if i == 0 {
      assert order[0] !in order[1..];
      DropAbsent(order[1..], order[0]);
    } else {
      DropAt(order[1..], i - 1);
      assert order[1..][i - 1] == order[i];
      assert [order[0]] + (order[1..][..i - 1] + order[1..][i..]) == order[..i] + order[i + 1..];
    }
  }

  lemma ExecuteRefines<K, V>(s: Entries<K, V>, c: Command<K, V>)
    requires DistinctKeys(s)
    ensures DistinctKeys(Execute(s, c))
    ensures (ToMap(Execute(s, c)), Keys(Execute(s, c))) == Specify(ToMap(s), Keys(s), c)
  {
    match c
    case Emplace(k, v) => EmplacedRefines(s, k, v);
    case Assign(k, v) => AssignedRefines(s, k, v);
    case Erase(k) =>
      ErasedRefines(s, k);
      KeyIndex(s, k);
      var i := IndexOf(s, k);
      if i < |s| {
        WithoutRangeRefines(s, i, i + 1);
        assert Distinct(Keys(s));
        DropAt(Keys(s), i);
        assert Keys(s)[i] == k;
      } else {
        DropAbsent(Keys(s), k);
        assert ToMap(s) - {k} == ToMap(s);
      }
    case EraseRange(first, last) =>
      if first <= last <= |s| {
        WithoutRangeRefines(s, first, last);
      }
  }

  function Run<K(==), V>(s: Entries<K, V>, cs: seq<Command<K, V>>): Entries<K, V>
    decreases |cs|
  {
    if cs == [] then s else Run(Execute(s, cs[0]), cs[1..])
  }

  ghost function SpecRun<K, V>(m: map<K, V>, order: seq<K>, cs: seq<Command<K, V>>): (map<K, V>, seq<K>)
    decreases |cs|
  {
    if cs == [] then (m, order)
    else
      var next := Specify(m, order, cs[0]);
      SpecRun(next.0, next.1, cs[1..])
  }

  /** Over every run from distinct keys, the vector is the finite map with its insertion order. */
  lemma {:induction false} RunRefines<K, V>(s: Entries<K, V>, cs: seq<Command<K, V>>)
    requires DistinctKeys(s)
    ensures DistinctKeys(Run(s, cs))
    ensures (ToMap(Run(s, cs)), Keys(Run(s, cs))) == SpecRun(ToMap(s), Keys(s), cs)
    decreases |cs|
  {
    if cs == [] {
    } else {
      ExecuteRefines(s, cs[0]);
      RunRefines(Execute(s, cs[0]), cs[1..]);
    }
  }

  // ----- the container -----

  /** Entries from `pos` on have been copied one place down, up to the place `it`. */
  ghost predicate Shifted<T>(s: seq<T>, t: seq<T>, pos: nat, it: nat) {
    |t| == |s| && pos <= it < |s|
    && (forall j | 0 <= j < pos || it < j < |s| :: t[j] == s[j])
    && forall j | pos <= j < it :: t[j] == s[j + 1]
  }

  lemma ShiftTurn<T>(s: seq<T>, t: seq<T>, pos: nat, it: nat)
    requires Shifted(s, t, pos, it) && it + 1 < |s|
    ensures Shifted(s, t[it := t[it + 1]], pos, it + 1)
  {
  }

  lemma ShiftDone<K, V>(s: Entries<K, V>, t: Entries<K, V>, pos: nat)
    requires s != [] && Shifted(s, t, pos, |s| - 1)
    ensures t[..|t| - 1] == WithoutRange(s, pos, pos + 1)
  {
    var done := WithoutRange(s, pos, pos + 1);
    assert forall j | pos <= j < |done| :: done[j] == s[j + 1];
  }

  class OrderedMap<K(==), V> {
    var data: Entries<K, V>
    const defaultValue: V  // T{}

    constructor (defaultValue: V)
      ensures data == [] && this.defaultValue == defaultValue
    {
      data := [];
      this.defaultValue := defaultValue;
    }

    /** `find`. */
    method Find(key: K) returns (pos: nat)
      ensures pos == IndexOf(data, key)
    {
      pos := 0;
      while pos < |data|
        invariant pos <= |data|
        invariant forall j | 0 <= j < pos :: data[j].0 != key
      {
        if data[pos].0 == key {
          IndexOfUnique(data, key, pos);
          return;
        }
        pos := pos + 1;
      }
      IndexOfUnique(data, key, pos);
    }

    /** `emplace` and `insert`: a present key wins over the new value. */
    method EmplaceBack(key: K, value: V) returns (pos: nat, inserted: bool)
      modifies this
      ensures data == Emplaced(old(data), key, value)
      ensures inserted <==> key !in Keys(old(data))
      ensures pos < |data| && pos == IndexOf(data, key)
    {
      KeyIndex(data, key);
      pos := 0;
      while pos < |data|
        invariant pos <= |data|
        invariant data == old(data)
        invariant forall j | 0 <= j < pos :: data[j].0 != key
      {
        if data[pos].0 == key {
          IndexOfUnique(data, key, pos);
          return pos, false;
        }
        pos := pos + 1;
      }
      IndexOfUnique(data, key, pos);
      data := data + [(key, value)];
      IndexOfUnique(data, key, pos);
      inserted := true;
    }

    /** `operator[]` followed by an assignment through the reference it returns. */
    method IndexAssign(key: K, value: V)
      modifies this
      ensures data == Assigned(old(data), key, value)
    {
      var pos, inserted := EmplaceBack(key, defaultValue);
      KeyIndex(old(data), key);
      data := data[pos := (data[pos].0, value)];
      if inserted {
        assert data == old(data) + [(key, value)];
      }
    }

    /** `erase(key)`: re-constructs each later entry one place down, then drops the last. */
    method EraseKey(key: K) returns (count: nat)
      modifies this
      ensures data == Erased(old(data), key)
      ensures count == if key in Keys(old(data)) then 1 else 0
    {
      KeyIndex(data, key);
      var pos := Find(key);
      if pos == |data| {
        return 0;
      }
      var it, next := pos, pos + 1;
      while next != |data|
        invariant 0 <= it && next == it + 1 && Shifted(old(data), data, pos, it)
        decreases |data| - next
      {
        ShiftTurn(old(data), data, pos, it);
        data := data[it := data[next]];
        it, next := it + 1, next + 1;
      }
      ShiftDone(old(data), data, pos);
      data := data[..|data| - 1];
      count := 1;
    }

    /** `erase(first, last)`: returns the position after the last erased entry. */
    method EraseBetween(first: nat, last: nat) returns (pos: nat)
      requires first <= last <= |data|
      modifies this
      ensures data == WithoutRange(old(data), first, last)
      ensures pos == first && data[pos..] == old(data)[last..]
    {
      if first == last {
        return first;
      }
      var affected := last - first;
      var offset := first;
      ghost var kept := WithoutRange(data, first, last);
      var it := first;
      while it + affected != |data|
        invariant first <= it <= |kept| && |data| == |old(data)|
        invariant data[..it] == kept[..it]
        invariant data[it + affected..] == old(data)[it + affected..]
        decreases |data| - it
      {
        ghost var before := data;
        assert before[it + affected] == old(data)[it + affected..][0] == kept[it];
        data := data[it := data[it + affected]];
        assert data[..it + 1] == before[..it] + [kept[it]];
        assert data[it + 1 + affected..] == old(data)[it + affected..][1..];
        it := it + 1;
      }
      data := data[..|data| - affected];
      pos := offset;
    }

    /** `insert(first, last)`: one entry after another. */
    method InsertAll(entries: Entries<K, V>)
      modifies this
      ensures data == Run(old(data), Emplacements(entries))
    {
      var i := 0;
      ghost var cs := Emplacements(entries);
      assert cs[0..] == cs;
      while i < |entries|
        invariant i <= |entries| == |cs|
        invariant Run(data, cs[i..]) == Run(old(data), cs)
      {
        var _, _ := EmplaceBack(entries[i].0, entries[i].1);
        assert cs[i..][0] == Emplace(entries[i].0, entries[i].1) && cs[i..][1..] == cs[i + 1..];
        i := i + 1;
      }
    }
  }

  function Emplacements<K, V>(entries: Entries<K, V>): seq<Command<K, V>> {
    seq(|entries|, i requires 0 <= i < |entries| => Emplace(entries[i].0, entries[i].1))
  }

  // ----- inserting a range -----

  function OrElse<V>(a: Option<V>, b: Option<V>): Option<V> { if a.Some? then a else b }

  lemma LookupAppend<K, V>(s: Entries<K, V>, k: K, v: V, x: K)
    ensures Lookup(s + [(k, v)], x) == OrElse(Lookup(s, x), if x == k then Some(v) else None)
  {
    var t := s + [(k, v)];
    var i := IndexOf(s, x);
    if i < |s| {
      IndexOfUnique(t, x, i);
    } else if x == k {
      IndexOfUnique(t, x, |s|);
    } else {
      IndexOfUnique(t, x, |t|);
    }
  }

  lemma LookupCons<K, V>(k: K, v: V, rest: Entries<K, V>, x: K)
    ensures Lookup([(k, v)] + rest, x) == if x == k then Some(v) else Lookup(rest, x)
  {
    var t := [(k, v)] + rest;
    if x == k {
      IndexOfUnique(t, x, 0);
    } else {
      assert t[1..] == rest;
    }
  }

  /** Inserting a range leaves each key already there with its old value, and gives each new one the
      first value there is for it; it only adds entries, at the end. */
  lemma {:induction false} InsertedRange<K, V>(s: Entries<K, V>, entries: Entries<K, V>, x: K)
    ensures Lookup(Run(s, Emplacements(entries)), x) == OrElse(Lookup(s, x), Lookup(entries, x))
    ensures s <= Run(s, Emplacements(entries))
    decreases |entries|
  {
    if entries == [] {
      assert Emplacements(entries) == [];
    } else {
      var k, v, rest := entries[0].0, entries[0].1, entries[1..];
      assert Emplacements(entries)[1..] == Emplacements(rest);
      assert Emplacements(entries)[0] == Emplace(k, v);
      assert entries == [(k, v)] + rest;
      InsertedRange(Emplaced(s, k, v), rest, x);
      LookupCons(k, v, rest, x);
      if IndexOf(s, k) >= |s| {
        LookupAppend(s, k, v, x);
      }
    }
  }

  /** The new entries are those of the range whose key is not there yet, in their order. */
  function NewEntries<K(==), V>(s: Entries<K, V>, entries: Entries<K, V>): Entries<K, V>
    decreases |entries|
  {
    if entries == [] then []
    else if Lookup(s, entries[0].0).Some? then NewEntries(s, entries[1..])
    else [entries[0]] + NewEntries(s + [entries[0]], entries[1..])
  }

  lemma {:induction false} InsertedInOrder<K, V>(s: Entries<K, V>, entries: Entries<K, V>)
    ensures Run(s, Emplacements(entries)) == s + NewEntries(s, entries)
    decreases |entries|
  {
    if entries == [] {
      assert Emplacements(entries) == [] && s + [] == s;
    } else {
      var e, rest := entries[0], entries[1..];
      assert Emplacements(entries)[1..] == Emplacements(rest);
      assert Emplacements(entries)[0] == Emplace(e.0, e.1);
      if Lookup(s, e.0).Some? {
        InsertedInOrder(s, rest);
      } else {
        InsertedInOrder(s + [e], rest);
        assert s + [e] + NewEntries(s + [e], rest) == s + ([e] + NewEntries(s + [e], rest));
      }
    }
  }
}
