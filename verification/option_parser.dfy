/** `OptionParser`: the argv state machine, its counts and its defaults. */
module OptionParsing {
  import opened Wrappers

  /** `OptionDetails` with the facts of its `Value`. */
  datatype Details = Details(
    short: string, long: seq<string>,
    isContainer: bool,
    hasDefault: bool, defaultValue: string,
    hasImplicit: bool, implicitValue: string)
  {
    predicate Named() { short != "" || long != [] }

    function Essential(): string { if long == [] then short else long[0] }

    /** The text whose `std::hash` identifies the option; `std::hash` is taken to be injective. */
    function Hash(): string { (if long == [] then "" else long[0]) + short }

    predicate HasName(name: string) { (name == short && short != "") || name in long }
  }

  type OptionMap = map<string, Details>

  datatype KeyValue = KeyValue(key: string, value: string)

  /** `OptionValue`: how often it was given, and whether its default was put in. */
  datatype Stored = Stored(count: nat, isDefault: bool)

  datatype Failure = NoSuchOption | MissingArgument | InvalidSyntax | BadArgument

  /** What matching one argument against the option syntax yields. */
  datatype ArguDesc = ArguDesc(argName: string, grouping: bool, setValue: bool, value: string)

  // ----- registering options -----

  /** Every option is registered under each of its names, and under nothing else. */
  ghost predicate WellFormed(options: OptionMap) {
    forall name | name in options ::
      options[name].HasName(name) && options[name].Named()
      && forall other | options[name].HasName(other) :: other in options && options[other] == options[name]
  }

  lemma EssentialRegistered(options: OptionMap, name: string)
    requires WellFormed(options) && name in options
    ensures options[name].Essential() in options && options[options[name].Essential()] == options[name]
  {
    assert options[name].HasName(options[name].Essential());
  }

  /** An option's names in the order they are registered. */
  function AllNames(d: Details): seq<string> { (if d.short == "" then [] else [d.short]) + d.long }

  lemma HasNameIsAllNames(d: Details, n: string)
    ensures d.HasName(n) <==> n in AllNames(d)
  {
  }

  function NameSet(names: seq<string>): set<string> { set n | n in names }

  function WithNames(options: OptionMap, d: Details, names: set<string>): OptionMap {
    options + map name | name in names :: d
  }

  /** No name of `d` is taken or given twice. */
  ghost predicate Addable(options: OptionMap, names: seq<string>) {
    Distinct(names) && forall i | 0 <= i < |names| :: names[i] !in options
  }

  predicate Taken(options: OptionMap, names: seq<string>, i: nat)
    requires i < |names|
  {
    names[i] in options || names[i] in names[..i]
  }

  /** How many names are registered, one after another, before one is already there. */
  function Registered(options: OptionMap, names: seq<string>, i: nat := 0): (k: nat)
    requires i <= |names|
    ensures i <= k <= |names| && (k < |names| ==> Taken(options, names, k))
    ensures forall j | i <= j < k :: !Taken(options, names, j)
    decreases |names| - i
  {
    if i == |names| || Taken(options, names, i) then i else Registered(options, names, i + 1)
  }

  lemma RegisteredAll(options: OptionMap, names: seq<string>)
    ensures Registered(options, names) == |names| <==> Addable(options, names)
  {
    if Registered(options, names) == |names| {
      forall i, j | 0 <= i < j < |names|
        ensures names[i] != names[j]
      {
        assert !Taken(options, names, j) && names[..j][i] == names[i];
      }
      forall i | 0 <= i < |names|
        ensures names[i] !in options
      {
        assert !Taken(options, names, i);
      }
    }
  }

  /** The map after `add_option`: also after one that threw, when the names before the first that was
      already there stay registered. */
  function AfterAdding(options: OptionMap, d: Details): OptionMap {
    WithNames(options, d, NameSet(AllNames(d)[..Registered(options, AllNames(d))]))
  }

  /** The first `i` names have been added, none of them there before. */
  ghost predicate Added(options: OptionMap, d: Details, names: seq<string>, i: nat, now: OptionMap) {
    i <= |names| && Registered(options, names) == Registered(options, names, i)
    && now == WithNames(options, d, NameSet(names[..i]))
  }

  lemma AddedTurn(options: OptionMap, d: Details, names: seq<string>, i: nat, now: OptionMap)
    requires i < |names| && Added(options, d, names, i, now)
    ensures if names[i] in now then Registered(options, names) == i
            else Added(options, d, names, i + 1, now[names[i] := d])
  {
    assert names[..i + 1] == names[..i] + [names[i]];
    assert NameSet(names[..i] + [names[i]]) == NameSet(names[..i]) + {names[i]};
    WithNamesNext(options, d, NameSet(names[..i]), names[i]);
    assert names[i] in now <==> Taken(options, names, i);
  }

  lemma WithNamesNext(options: OptionMap, d: Details, names: set<string>, name: string)
    ensures WithNames(options, d, names + {name}) == WithNames(options, d, names)[name := d]
  {
  }

  lemma AddedNothing(options: OptionMap, d: Details, names: seq<string>)
    ensures WithNames(options, d, NameSet(names[..0])) == options
  {
    assert names[..0] == [];
  }

  lemma AddedEnd(options: OptionMap, d: Details, i: nat, now: OptionMap)
    requires Added(options, d, AllNames(d), i, now) && Registered(options, AllNames(d)) == i
    ensures now == AfterAdding(options, d)
    ensures i == |AllNames(d)| <==> Addable(options, AllNames(d))
  {
    RegisteredAll(options, AllNames(d));
  }

  /** `Options::add_option`, through `add_one_option` for each name: `added` unless it threw at a name
      already there. */
  method AddOption(options: OptionMap, d: Details) returns (now: OptionMap, added: bool)
    ensures added <==> Addable(options, AllNames(d))
    ensures now == AfterAdding(options, d)
  {
    var names, i := AllNames(d), 0;
    now := options;
    AddedNothing(options, d, names);
    while i < |names|
      invariant Added(options, d, names, i, now)
    {
      AddedTurn(options, d, names, i, now);
      if names[i] in now {
        AddedEnd(options, d, i, now);
        return now, false;
      }
      now := now[names[i] := d];
      i := i + 1;
    }
    AddedEnd(options, d, i, now);
    added := true;
  }

  /** Adding an option, or failing to, keeps every option under each of its names exactly when nothing
      was registered or no name was left out. */
  lemma AddKeepsWellFormed(options: OptionMap, d: Details)
    requires WellFormed(options) && d.Named()
    ensures var names, k := AllNames(d), Registered(options, AllNames(d));
            WellFormed(AfterAdding(options, d)) <==> k == 0 || forall i | k <= i < |names| :: names[i] in names[..k]
  {
    var names, k, now := AllNames(d), Registered(options, AllNames(d)), AfterAdding(options, d);
    if k == 0 {
      AddedNothing(options, d, names);
    } else if i :| k <= i < |names| && names[i] !in names[..k] {
      LeftOutBreaks(options, d, k, i);
    } else {
      assert forall n :: d.HasName(n) <==> n in NameSet(names[..k]) by {
        forall n
          ensures d.HasName(n) <==> n in NameSet(names[..k])
        {
          HasNameIsAllNames(d, n);
          if n in names {
            var i :| 0 <= i < |names| && names[i] == n;
            assert i < k ==> names[..k][i] == n;
          }
        }
      }
      NewNames(options, names, k);
      NamedKeepsWellFormed(options, d, NameSet(names[..k]));
    }
  }

  lemma NewNames(options: OptionMap, names: seq<string>, k: nat)
    requires k <= |names| && forall j | 0 <= j < k :: !Taken(options, names, j)
    ensures forall n | n in NameSet(names[..k]) :: n !in options
  {
    forall n | n in NameSet(names[..k])
      ensures n !in options
    {
      var j :| 0 <= j < k && names[..k][j] == n;
      assert !Taken(options, names, j);
    }
  }

  lemma NamedKeepsWellFormed(options: OptionMap, d: Details, names: set<string>)
    requires WellFormed(options) && d.Named() && (forall n :: d.HasName(n) <==> n in names)
    requires forall n | n in names :: n !in options
    ensures WellFormed(WithNames(options, d, names))
  {
    var now := WithNames(options, d, names);
    forall name | name in now
      ensures now[name].HasName(name) && now[name].Named()
      ensures forall other | now[name].HasName(other) :: other in now && now[other] == now[name]
    {
    }
  }

  lemma SameUnder(options: OptionMap, name: string, other: string)
    requires WellFormed(options) && name in options && options[name].HasName(other)
    ensures other in options && options[other] == options[name]
  {
  }

  /** A name left out leads nowhere or to another option. */
  lemma LeftOutBreaks(options: OptionMap, d: Details, k: nat, i: nat)
    requires WellFormed(options) && 0 < k == Registered(options, AllNames(d)) <= i < |AllNames(d)|
    requires AllNames(d)[i] !in AllNames(d)[..k]
    ensures !WellFormed(AfterAdding(options, d))
  {
    var names, now := AllNames(d), AfterAdding(options, d);
    var first, other := names[0], names[i];
    assert names[..k][0] == first && !Taken(options, names, 0);
    HasNameIsAllNames(d, first);
    HasNameIsAllNames(d, other);
    assert now[first] == d && first !in options;
    assert other !in NameSet(names[..k]);
    if WellFormed(now) {
      SameUnder(now, first, other);
      SameUnder(options, other, first);
    }
  }

  /** Adding `f,bar` where another option is named `bar`: `f` is registered, `bar` leads elsewhere. */
  lemma HalfAdded(other: Details, d: Details)
    requires other.short == "" && other.long == ["bar"] && d.short == "f" && d.long == ["bar"]
    ensures var options := map["bar" := other];
            WellFormed(options) && AfterAdding(options, d) == map["bar" := other, "f" := d]
            && !WellFormed(AfterAdding(options, d))
  {
    var options, names := map["bar" := other], AllNames(d);
    assert names == ["f", "bar"] && names[1] == "bar" && names[0] == "f";
    assert !Taken(options, names, 0) && Taken(options, names, 1);
    assert Registered(options, names) == 1 && names[..1] == ["f"];
    assert NameSet(["f"]) == {"f"} by {
      assert ["f"][0] == "f";
    }
    assert WellFormed(options) by {
      assert forall n | other.HasName(n) :: n == "bar";
      assert other.long[0] == "bar";
    }
    assert AllNames(d)[1] !in names[..1];
    LeftOutBreaks(options, d, 1, 1);
  }

  // ----- counting -----

  function CountOf(parsed: map<string, Stored>, h: string): nat {
    if h in parsed then parsed[h].count else 0
  }

  predicate DefaultOf(parsed: map<string, Stored>, h: string) {
    h in parsed && parsed[h].isDefault
  }

  predicate Known(options: OptionMap, entries: seq<KeyValue>) {
    forall i | 0 <= i < |entries| :: entries[i].key in options
  }

  /** How many entries belong to options hashed to `h`. */
  function Tally(options: OptionMap, entries: seq<KeyValue>, h: string): nat
    requires Known(options, entries)
  {
    if entries == [] then 0 else
    var last := entries[|entries| - 1];
    Tally(options, entries[..|entries| - 1], h) + if options[last.key].Hash() == h then 1 else 0
  }

  lemma TallyAppend(options: OptionMap, entries: seq<KeyValue>, e: KeyValue, h: string)
    requires Known(options, entries) && e.key in options
    ensures Known(options, entries + [e])
    ensures Tally(options, entries + [e], h)
            == Tally(options, entries, h) + if options[e.key].Hash() == h then 1 else 0
  {
    assert (entries + [e])[..|entries|] == entries;
  }

  /** How many entries name option `key`. */
  function Occurrences(entries: seq<KeyValue>, key: string): nat {
    if entries == [] then 0 else
    Occurrences(entries[..|entries| - 1], key) + if entries[|entries| - 1].key == key then 1 else 0
  }

  /** No two options have the same hash. */
  ghost predicate NoCollision(options: OptionMap) {
    forall a, b | a in options && b in options && options[a].Hash() == options[b].Hash() :: options[a] == options[b]
  }

  /** Entries as the parser makes them: under an option's essential name. */
  predicate Essentials(options: OptionMap, entries: seq<KeyValue>) {
    forall i | 0 <= i < |entries| ::
      entries[i].key in options && options[entries[i].key].Essential() == entries[i].key
  }

  lemma {:induction false} TallyIsOccurrences(options: OptionMap, entries: seq<KeyValue>, name: string)
    requires WellFormed(options) && NoCollision(options) && Essentials(options, entries) && name in options
    ensures Tally(options, entries, options[name].Hash()) == Occurrences(entries, options[name].Essential())
  {
    if entries == [] {
    } else {
      TallyIsOccurrences(options, entries[..|entries| - 1], name);
      var e := entries[|entries| - 1];
      EssentialRegistered(options, name);
      assert options[e.key].Essential() == e.key;
    }
  }

  /** Counting by hash counts each option's own entries exactly when no two options collide. */
  lemma CountingIsExact(options: OptionMap)
    requires WellFormed(options)
    ensures (forall entries, name | Essentials(options, entries) && name in options ::
               Tally(options, entries, options[name].Hash()) == Occurrences(entries, options[name].Essential()))
            <==> NoCollision(options)
  {
    if NoCollision(options) {
      forall entries, name | Essentials(options, entries) && name in options
        ensures Tally(options, entries, options[name].Hash()) == Occurrences(entries, options[name].Essential())
      {
        TallyIsOccurrences(options, entries, name);
      }
    } else {
      var a, b :| a in options && b in options && options[a].Hash() == options[b].Hash() && options[a] != options[b];
      EssentialRegistered(options, a);
      EssentialRegistered(options, b);
      var entries := [KeyValue(options[a].Essential(), "")];
      assert entries[..0] == [];
      assert Essentials(options, entries);
      assert Tally(options, entries, options[b].Hash()) == 1;
      assert Occurrences(entries, options[b].Essential()) == 0;
    }
  }

  /** Options that do collide: a long name with a short one, and the two written as one word. */
  lemma CollidingNames(b: Details, w: Details)
    requires b.short == "b" && b.long == ["foo"] && w.short == "" && w.long == ["foob"]
    ensures b.Hash() == w.Hash() && !NoCollision(map["b" := b, "foo" := b, "foob" := w])
  {
    var options := map["b" := b, "foo" := b, "foob" := w];
    assert "foo" in options && "foob" in options;
    assert "foo" + "b" == "foob" + "";
  }

  // ----- what a command line means -----

  /** What the parser is given. */
  datatype Env = Env(
    options: OptionMap,
    positional: seq<string>,
    allowUnrecognised: bool,
    split: string -> Option<ArguDesc>,
    accepts: (Details, string) -> bool)

  /** The log of options given, the arguments left over, and the next positional name. */
  datatype State = State(sequential: seq<KeyValue>, unmatched: seq<string>, next: nat)

  datatype Parsed<+T> = Good(value: T) | Bad(failure: Failure) {
    predicate IsFailure() { Bad? }

    function PropagateFailure<U>(): Parsed<U>
      requires Bad?
    {
      Bad(failure)
    }

    function Extract(): T
      requires Good?
    {
      value
    }
  }

  /** The log is made of registered options under their essential names. */
  ghost predicate Legal(env: Env, st: State) {
    WellFormed(env.options) && Essentials(env.options, st.sequential) && st.next <= |env.positional|
  }

  /** An option given once more. */
  function Give(env: Env, st: State, d: Details, arg: string): Parsed<State> {
    if env.accepts(d, arg) then Good(st.(sequential := st.sequential + [KeyValue(d.Essential(), arg)]))
    else Bad(BadArgument)
  }

  lemma GiveLegal(env: Env, st: State, name: string, arg: string)
    requires Legal(env, st) && name in env.options
    ensures Give(env, st, env.options[name], arg).Good? ==> Legal(env, Give(env, st, env.options[name], arg).value)
  {
    EssentialRegistered(env.options, name);
  }

  /** Whether positional `i` can take a further value: a container always, others when not yet given. */
  predicate Takes(env: Env, sequential: seq<KeyValue>, i: nat)
    requires i < |env.positional| && Known(env.options, sequential)
  {
    env.positional[i] in env.options
    ==> var d := env.options[env.positional[i]];
        d.isContainer || Tally(env.options, sequential, d.Hash()) == 0
  }

  /** The first positional from `next` on that takes a value, or is not an option at all. */
  function Target(env: Env, sequential: seq<KeyValue>, next: nat): (i: nat)
    requires Known(env.options, sequential) && next <= |env.positional|
    ensures next <= i <= |env.positional|
    ensures i < |env.positional| ==> Takes(env, sequential, i)
    decreases |env.positional| - next
  {
    if next == |env.positional| || Takes(env, sequential, next) then next else Target(env, sequential, next + 1)
  }

  /** A positional argument: the state after it and whether anything took it. */
  function Positional(env: Env, st: State, a: string): Parsed<(State, bool)>
    requires Known(env.options, st.sequential) && st.next <= |env.positional|
  {
    var i := Target(env, st.sequential, st.next);
    if i == |env.positional| then Good((st.(next := i), false))
    else if env.positional[i] !in env.options then Bad(NoSuchOption)
    else
      var d := env.options[env.positional[i]];
      var st' :- Give(env, st, d, a);
      Good((st'.(next := if d.isContainer then i else i + 1), true))
  }

  /** The value of an option that was given without one: its implicit value or the next argument. */
  function Checked(env: Env, st: State, argv: seq<string>, current: nat, d: Details): Parsed<(State, nat)> {
    if d.hasImplicit then
      var st' :- Give(env, st, d, d.implicitValue);
      Good((st', current))
    else if current + 1 >= |argv| then Bad(MissingArgument)
    else
      var st' :- Give(env, st, d, argv[current + 1]);
      Good((st', current + 1))
  }

  /** Short options written together, from character `i` on. */
  function Group(env: Env, st: State, argv: seq<string>, current: nat, s: string, i: nat): Parsed<(State, nat)>
    decreases |s| - i
  {
    if i >= |s| then Good((st, current))
    else if [s[i]] !in env.options then
      if env.allowUnrecognised then
        Group(env, st.(unmatched := st.unmatched + [['-', s[i]]]), argv, current, s, i + 1)
      else Bad(NoSuchOption)
    else
      var d := env.options[[s[i]]];
      if i + 1 == |s| then Checked(env, st, argv, current, d)
      else if d.hasImplicit then
        var st' :- Give(env, st, d, d.implicitValue);
        Group(env, st', argv, current, s, i + 1)
      else
        var st' :- Give(env, st, d, s[i + 1..]);
        Good((st', current))
  }

  /** The argument at `current`: the state after it and the position of the next. */
  function One(env: Env, st: State, argv: seq<string>, current: nat): Parsed<(State, nat)>
    requires Known(env.options, st.sequential) && st.next <= |env.positional| && current < |argv|
  {
    var a := argv[current];
    match env.split(a)
    case None =>
      if |a| >= 2 && a[0] == '-' && !env.allowUnrecognised then Bad(InvalidSyntax)
      else
        var (st', taken) :- Positional(env, st, a);
        Good((if taken then st' else st'.(unmatched := st'.unmatched + [a]), current + 1))
    case Some(desc) =>
      if desc.grouping then
        var (st', last) :- Group(env, st, argv, current, desc.argName, 0);
        Good((st', last + 1))
      else if desc.argName == "" then Good((st, current + 1))
      else if desc.argName !in env.options then
        if env.allowUnrecognised then Good((st.(unmatched := st.unmatched + [a]), current + 1))
        else Bad(NoSuchOption)
      else
        var d := env.options[desc.argName];
        if desc.setValue then
          var st' :- Give(env, st, d, desc.value);
          Good((st', current + 1))
        else
          var (st', last) :- Checked(env, st, argv, current, d);
          Good((st', last + 1))
  }

  lemma CheckedLegal(env: Env, st: State, argv: seq<string>, current: nat, name: string)
    requires Legal(env, st) && current < |argv| && name in env.options
    ensures var r := Checked(env, st, argv, current, env.options[name]);
            r.Good? ==> Legal(env, r.value.0) && current <= r.value.1 < |argv|
  {
    var d := env.options[name];
    GiveLegal(env, st, name, d.implicitValue);
    if current + 1 < |argv| {
      GiveLegal(env, st, name, argv[current + 1]);
    }
  }

  lemma {:induction false} GroupLegal(env: Env, st: State, argv: seq<string>, current: nat, s: string, i: nat)
    requires Legal(env, st) && current < |argv|
    ensures var r := Group(env, st, argv, current, s, i);
            r.Good? ==> Legal(env, r.value.0) && current <= r.value.1 < |argv|
    decreases |s| - i
  {
    if i >= |s| {
    } else {
      if [s[i]] !in env.options {
        GroupLegal(env, st.(unmatched := st.unmatched + [['-', s[i]]]), argv, current, s, i + 1);
      } else {
        var d := env.options[[s[i]]];
        CheckedLegal(env, st, argv, current, [s[i]]);
        GiveLegal(env, st, [s[i]], d.implicitValue);
        GiveLegal(env, st, [s[i]], s[i + 1..]);
        if i + 1 < |s| && d.hasImplicit && Give(env, st, d, d.implicitValue).Good? {
          GroupLegal(env, Give(env, st, d, d.implicitValue).value, argv, current, s, i + 1);
        }
      }
    }
  }

  lemma PositionalLegal(env: Env, st: State, a: string)
    requires Legal(env, st)
    ensures var r := Positional(env, st, a); r.Good? ==> Legal(env, r.value.0)
  {
    var i := Target(env, st.sequential, st.next);
    if i < |env.positional| && env.positional[i] in env.options {
      GiveLegal(env, st, env.positional[i], a);
    }
  }

  /** Each argument moves the position forward and never past the end. */
  lemma OneLegal(env: Env, st: State, argv: seq<string>, current: nat)
    requires Legal(env, st) && current < |argv|
    ensures var r := One(env, st, argv, current);
            r.Good? ==> Legal(env, r.value.0) && current < r.value.1 <= |argv|
  {
    match env.split(argv[current])
    case None => PositionalLegal(env, st, argv[current]);
    case Some(desc) =>
      if desc.grouping {
        GroupLegal(env, st, argv, current, desc.argName, 0);
      } else if desc.argName in env.options {
        GiveLegal(env, st, desc.argName, desc.value);
        CheckedLegal(env, st, argv, current, desc.argName);
      }
  }

  /** The arguments from `current` up to the end or past a "--", which the flag reports. */
  ghost function Head(env: Env, st: State, argv: seq<string>, current: nat): Parsed<(State, nat, bool)>
    requires Legal(env, st) && current <= |argv|
    decreases |argv| - current
  {
    if current == |argv| then Good((st, current, false))
    else if argv[current] == "--" then Good((st, current + 1, true))
    else
      OneLegal(env, st, argv, current);
      var (st', current') :- One(env, st, argv, current);
      Head(env, st', argv, current')
  }

  lemma {:induction false} HeadLegal(env: Env, st: State, argv: seq<string>, current: nat)
    requires Legal(env, st) && current <= |argv|
    ensures var r := Head(env, st, argv, current);
            r.Good? ==> Legal(env, r.value.0) && current <= r.value.1 <= |argv|
    decreases |argv| - current
  {
    if current >= |argv| || argv[current] == "--" {
    } else {
      OneLegal(env, st, argv, current);
      var r := One(env, st, argv, current);
      if r.Good? {
        HeadLegal(env, r.value.0, argv, r.value.1);
      }
    }
  }

  /** The arguments after "--": positionals as long as one takes them, then left over. */
  ghost function Rest(env: Env, st: State, argv: seq<string>, current: nat): Parsed<State>
    requires Legal(env, st) && current <= |argv|
    decreases |argv| - current
  {
    if current == |argv| then Good(st)
    else
      PositionalLegal(env, st, argv[current]);
      var (st', taken) :- Positional(env, st, argv[current]);
      if taken then Rest(env, st', argv, current + 1)
      else Good(st'.(unmatched := st'.unmatched + argv[current..]))
  }

  // ----- defaults -----

  /** Every default that an option not given calls for is an acceptable value. */
  ghost predicate DefaultsAccepted(env: Env, sequential: seq<KeyValue>)
    requires Known(env.options, sequential)
  {
    forall name | name in env.options && env.options[name].hasDefault
                  && Tally(env.options, sequential, env.options[name].Hash()) == 0 ::
      env.accepts(env.options[name], env.options[name].defaultValue)
  }

  predicate AllAccepted(env: Env, entries: seq<KeyValue>)
    requires Known(env.options, entries)
  {
    forall i | 0 <= i < |entries| :: env.accepts(env.options[entries[i].key], entries[i].value)
  }

  /** An option with a default among those named, of hash `h`. */
  ghost predicate HasDefaultAt(options: OptionMap, names: set<string>, h: string)
    requires names <= options.Keys
  {
    exists name :: name in names && options[name].Hash() == h && options[name].hasDefault
  }

  /** One default for each hash with a defaulted option among `names` and no entry in the log, and
      nothing else. */
  ghost predicate DefaultsRight(
      options: OptionMap, names: set<string>, sequential: seq<KeyValue>, defaults: seq<KeyValue>)
    requires names <= options.Keys && Known(options, sequential)
  {
    Essentials(options, defaults)
    && (forall i | 0 <= i < |defaults| ::
          options[defaults[i].key].hasDefault && defaults[i].value == options[defaults[i].key].defaultValue)
    && (forall h :: Tally(options, defaults, h)
                    == if Tally(options, sequential, h) == 0 && HasDefaultAt(options, names, h) then 1 else 0)
  }

  lemma DefaultsNext(
      options: OptionMap, done: set<string>, sequential: seq<KeyValue>, defaults: seq<KeyValue>, name: string)
    requires WellFormed(options) && done <= options.Keys && name in options && Known(options, sequential)
    requires DefaultsRight(options, done, sequential, defaults)
    ensures var d := options[name];
            var more := defaults + [KeyValue(d.Essential(), d.defaultValue)];
            if d.hasDefault && Tally(options, sequential, d.Hash()) == 0 && Tally(options, defaults, d.Hash()) == 0
            then DefaultsRight(options, done + {name}, sequential, more)
                 && forall h :: Tally(options, more, h) == Tally(options, defaults, h) + if h == d.Hash() then 1 else 0
            else DefaultsRight(options, done + {name}, sequential, defaults)
  {
    var d := options[name];
    var e := KeyValue(d.Essential(), d.defaultValue);
    EssentialRegistered(options, name);
    forall h
      ensures HasDefaultAt(options, done + {name}, h)
              <==> HasDefaultAt(options, done, h) || (d.hasDefault && d.Hash() == h)
    {
      if d.hasDefault && d.Hash() == h {
        assert name in done + {name};
      }
    }
    forall h
      ensures Tally(options, defaults + [e], h) == Tally(options, defaults, h) + if h == d.Hash() then 1 else 0
    {
      TallyAppend(options, defaults, e, h);
    }
  }

  /** Without collisions: each option with a default and no entry in the log is listed exactly once,
      however many names it has, and no other option is. */
  lemma DefaultsOncePerOption(options: OptionMap, sequential: seq<KeyValue>, defaults: seq<KeyValue>, name: string)
    requires WellFormed(options) && NoCollision(options) && Essentials(options, sequential) && name in options
    requires DefaultsRight(options, options.Keys, sequential, defaults)
    ensures var d := options[name];
            Occurrences(defaults, d.Essential())
            == if d.hasDefault && Occurrences(sequential, d.Essential()) == 0 then 1 else 0
  {
    TallyIsOccurrences(options, sequential, name);
    TallyIsOccurrences(options, defaults, name);
  }

  lemma AcceptedMore(env: Env, entries: seq<KeyValue>, e: KeyValue)
    requires Known(env.options, entries) && AllAccepted(env, entries)
    requires e.key in env.options && env.accepts(env.options[e.key], e.value)
    ensures Known(env.options, entries + [e]) && AllAccepted(env, entries + [e])
  {
  }

  /** Without collisions the defaults are all acceptable exactly when every option not given has an
      acceptable default or none. */
  lemma DefaultsAcceptedExactly(env: Env, sequential: seq<KeyValue>, defaults: seq<KeyValue>)
    requires WellFormed(env.options) && NoCollision(env.options) && Known(env.options, sequential)
    requires DefaultsRight(env.options, env.options.Keys, sequential, defaults)
    ensures AllAccepted(env, defaults) <==> DefaultsAccepted(env, sequential)
  {
    forall name | name in env.options && env.options[name].hasDefault
                  && Tally(env.options, sequential, env.options[name].Hash()) == 0
      ensures exists i :: 0 <= i < |defaults| && env.options[defaults[i].key] == env.options[name]
    {
      var h := env.options[name].Hash();
      assert HasDefaultAt(env.options, env.options.Keys, h);
      var i := TallyFinds(env.options, defaults, h);
    }
    forall i | 0 <= i < |defaults|
      ensures Tally(env.options, sequential, env.options[defaults[i].key].Hash()) == 0
    {
      TallyHolds(env.options, defaults, i);
    }
  }

  lemma {:induction false} TallyFinds(options: OptionMap, entries: seq<KeyValue>, h: string) returns (i: nat)
    requires Known(options, entries) && Tally(options, entries, h) > 0
    ensures i < |entries| && options[entries[i].key].Hash() == h
  {
    var last := entries[|entries| - 1];
    if options[last.key].Hash() == h {
      i := |entries| - 1;
    } else {
      i := TallyFinds(options, entries[..|entries| - 1], h);
    }
  }

  lemma {:induction false} TallyHolds(options: OptionMap, entries: seq<KeyValue>, i: nat)
    requires Known(options, entries) && i < |entries|
    ensures Tally(options, entries, options[entries[i].key].Hash()) > 0
  {
    if i == |entries| - 1 {
    } else {
      TallyHolds(options, entries[..|entries| - 1], i);
    }
  }

  // ----- the parser -----

  class OptionParser {
    const env: Env
    var parsed: map<string, Stored>
    var sequential: seq<KeyValue>
    var defaults: seq<KeyValue>
    var keys: map<string, string>

    constructor (env: Env)
      requires WellFormed(env.options)
      ensures this.env == env && Counting() && Fresh() && defaults == [] && sequential == []
    {
      this.env := env;
      parsed, sequential, defaults, keys := map[], [], [], map[];
    }

    /** Every count kept in the hash table is the number of entries of its hash in the log. */
    ghost predicate Counting()
      reads this
    {
      WellFormed(env.options) && Essentials(env.options, sequential)
      && forall h :: CountOf(parsed, h) == Tally(env.options, sequential, h)
    }

    /** No default has been put in yet. */
    ghost predicate Fresh()
      reads this
    {
      forall h :: !DefaultOf(parsed, h)
    }

    /** What looking an option up in `m_parsed` leaves behind: an entry that counts nothing. */
    method Touch(h: string)
      requires Counting()
      modifies this`parsed
      ensures Counting() && h in parsed && old(parsed).Keys <= parsed.Keys
      ensures forall x :: CountOf(parsed, x) == CountOf(old(parsed), x)
      ensures forall x :: DefaultOf(parsed, x) == DefaultOf(old(parsed), x)
    {
      if h !in parsed {
        parsed := parsed[h := Stored(0, false)];
      }
      assert forall x :: CountOf(parsed, x) == CountOf(old(parsed), x);
    }

    /** `parse_option` and `add_to_option`. */
    method Record(ghost name: string, d: Details, arg: string) returns (failure: Option<Failure>)
      requires Counting() && name in env.options && env.options[name] == d
      modifies this`parsed, this`sequential
      ensures failure == if env.accepts(d, arg) then None else Some(BadArgument)
      ensures failure.None? ==> Counting() && sequential == old(sequential) + [KeyValue(d.Essential(), arg)]
      ensures forall h :: DefaultOf(parsed, h) == DefaultOf(old(parsed), h)
    {
      var h := d.Hash();
      var stored := if h in parsed then parsed[h] else Stored(0, false);
      parsed := parsed[h := stored.(count := stored.count + 1)];
      if !env.accepts(d, arg) {
        return Some(BadArgument);
      }
      EssentialRegistered(env.options, name);
      ghost var e := KeyValue(d.Essential(), arg);
      forall x
        ensures Tally(env.options, sequential + [e], x)
                == Tally(env.options, sequential, x) + if d.Hash() == x then 1 else 0
      {
        TallyAppend(env.options, sequential, e, x);
      }
      sequential := sequential + [KeyValue(d.Essential(), arg)];
      failure := None;
    }

    /** The object and the parser's local variables hold the state `st`. */
    ghost predicate Holds(st: State, unmatched: seq<string>, next: nat)
      reads this
    {
      Counting() && Legal(env, st) && st == State(sequential, unmatched, next)
    }

    /** `checked_parse_arg`. */
    method CheckedParseArg(argv: seq<string>, current: nat, ghost name: string, d: Details, ghost st: State)
      returns (failure: Option<Failure>, current': nat)
      requires Counting() && current < |argv| && name in env.options && env.options[name] == d
      requires st.sequential == sequential
      modifies this`parsed, this`sequential
      ensures forall h :: DefaultOf(parsed, h) == DefaultOf(old(parsed), h)
      ensures match Checked(env, st, argv, current, d)
              case Bad(f) => failure == Some(f)
              case Good((st', last)) =>
                failure.None? && Counting() && current' == last && st' == st.(sequential := sequential)
    {
      current' := current;
      if current + 1 >= |argv| {
        if d.hasImplicit {
          failure := Record(name, d, d.implicitValue);
        } else {
          failure := Some(MissingArgument);
        }
      } else if d.hasImplicit {
        failure := Record(name, d, d.implicitValue);
      } else {
        failure := Record(name, d, argv[current + 1]);
        current' := current + 1;
      }
    }

    /** `consume_positional`. */
    method ConsumePositional(a: string, next: nat, ghost st: State)
      returns (failure: Option<Failure>, consumed: bool, next': nat)
      requires Counting() && Legal(env, st) && st.sequential == sequential && st.next == next
      modifies this`parsed, this`sequential
      ensures forall h :: DefaultOf(parsed, h) == DefaultOf(old(parsed), h)
      ensures match Positional(env, st, a)
              case Bad(f) => failure == Some(f)
              case Good((st', taken)) =>
                failure.None? && Counting() && consumed == taken
                && st' == st.(sequential := sequential, next := next')
    {
      next' := next;
      while next' != |env.positional|
        invariant next <= next' <= |env.positional|
        invariant Counting() && sequential == old(sequential)
        invariant forall h :: DefaultOf(parsed, h) == DefaultOf(old(parsed), h)
        invariant Target(env, sequential, next) == Target(env, sequential, next')
        decreases |env.positional| - next'
      {
        var name := env.positional[next'];
        if name !in env.options {
          return Some(NoSuchOption), false, next';
        }
        var d := env.options[name];
        if d.isContainer {
          failure := Record(name, d, a);
          return failure, true, next';
        }
        Touch(d.Hash());
        if parsed[d.Hash()].count == 0 {
          failure := Record(name, d, a);
          return failure, true, next' + 1;
        }
        next' := next' + 1;
      }
      return None, false, next';
    }

    /** Short options written together. */
    method ParseGroup(argv: seq<string>, current: nat, s: string, unmatched: seq<string>, ghost st: State)
      returns (failure: Option<Failure>, current': nat, unmatched': seq<string>)
      requires Holds(st, unmatched, st.next) && current < |argv|
      modifies this`parsed, this`sequential
      ensures forall h :: DefaultOf(parsed, h) == DefaultOf(old(parsed), h)
      ensures match Group(env, st, argv, current, s, 0)
              case Bad(f) => failure == Some(f)
              case Good((st', last)) => failure.None? && current' == last && Holds(st', unmatched', st.next)
    {
      unmatched', current', failure := unmatched, current, None;
      ghost var now := st;
      var i := 0;
      while i != |s|
        invariant i <= |s| && failure.None? && current' == current
        invariant Holds(now, unmatched', st.next)
        invariant Group(env, st, argv, current, s, 0) == Group(env, now, argv, current, s, i)
        invariant forall h :: DefaultOf(parsed, h) == DefaultOf(old(parsed), h)
        decreases |s| - i
      {
        var name := [s[i]];
        if name !in env.options {
          if !env.allowUnrecognised {
            return Some(NoSuchOption), current, unmatched';
          }
          unmatched' := unmatched' + [['-', s[i]]];
          now := now.(unmatched := unmatched');
        } else {
          var d := env.options[name];
          if i + 1 == |s| {
            CheckedLegal(env, now, argv, current, name);
            failure, current' := CheckedParseArg(argv, current, name, d, now);
            return;
          } else if d.hasImplicit {
            GiveLegal(env, now, name, d.implicitValue);
            failure := Record(name, d, d.implicitValue);
            if failure.Some? {
              return;
            }
            now := now.(sequential := sequential);
          } else {
            // an option that needs a value takes the rest of the group; "requires argument" cannot arise
            GiveLegal(env, now, name, s[i + 1..]);
            failure := Record(name, d, s[i + 1..]);
            return;
          }
        }
        i := i + 1;
      }
    }

    /** One turn of the main loop. */
    method ParseOne(argv: seq<string>, current: nat, unmatched: seq<string>, next: nat, ghost st: State)
      returns (failure: Option<Failure>, current': nat, unmatched': seq<string>, next': nat)
      requires Holds(st, unmatched, next) && current < |argv|
      modifies this`parsed, this`sequential
      ensures forall h :: DefaultOf(parsed, h) == DefaultOf(old(parsed), h)
      ensures match One(env, st, argv, current)
              case Bad(f) => failure == Some(f)
              case Good((st', after)) => failure.None? && current' == after && Holds(st', unmatched', next')
    {
      OneLegal(env, st, argv, current);
      failure, current', unmatched', next' := None, current, unmatched, next;
      var a := argv[current];
      var desc := env.split(a);
      if desc.None? {
        if |a| >= 2 && a[0] == '-' && !env.allowUnrecognised {
          return Some(InvalidSyntax), current, unmatched, next;
        }
        PositionalLegal(env, st, a);
        var consumed;
        failure, consumed, next' := ConsumePositional(a, next, st);
        if failure.None? && !consumed {
          unmatched' := unmatched' + [a];
        }
      } else if desc.value.grouping {
        failure, current', unmatched' := ParseGroup(argv, current, desc.value.argName, unmatched, st);
      } else if |desc.value.argName| != 0 {
        var name := desc.value.argName;
        if name !in env.options {
          if env.allowUnrecognised {
            return None, current + 1, unmatched + [a], next;
          }
          return Some(NoSuchOption), current, unmatched, next;
        }
        var d := env.options[name];
        if desc.value.setValue {
          failure := Record(name, d, desc.value.value);
        } else {
          failure, current' := CheckedParseArg(argv, current, name, d, st);
        }
      }
      if failure.None? {
        current' := current' + 1;
      }
    }

    /** The main loop: up to the end of the arguments or past a "--". */
    method ParseHead(argv: seq<string>)
      returns (failure: Option<Failure>, current: nat, consumeRemaining: bool, unmatched: seq<string>, next: nat)
      requires |argv| >= 1 && Counting() && Fresh() && sequential == []
      modifies this`parsed, this`sequential
      ensures Fresh()
      ensures match Head(env, State([], [], 0), argv, 1)
              case Bad(f) => failure == Some(f)
              case Good((st, after, dashes)) =>
                failure.None? && current == after <= |argv| && consumeRemaining == dashes && Holds(st, unmatched, next)
    {
      failure, current, consumeRemaining, unmatched, next := None, 1, false, [], 0;
      ghost var st := State([], [], 0);
      HeadLegal(env, st, argv, 1);
      while current != |argv|
        invariant current <= |argv| && failure.None? && !consumeRemaining
        invariant Fresh() && Holds(st, unmatched, next)
        invariant Head(env, State([], [], 0), argv, 1) == Head(env, st, argv, current)
        decreases |argv| - current
      {
        if argv[current] == "--" {
          consumeRemaining := true;
          current := current + 1;
          break;
        }
        OneLegal(env, st, argv, current);
        ghost var after := One(env, st, argv, current);
        failure, current, unmatched, next := ParseOne(argv, current, unmatched, next, st);
        if failure.Some? {
          return;
        }
        st := after.value.0;
      }
    }

    /** The defaults put in so far are those of the options among `done` not given in the log. */
    ghost predicate DefaultsSoFar(done: set<string>)
      requires Known(env.options, sequential)
      reads this
    {
      done <= env.options.Keys && DefaultsRight(env.options, done, sequential, defaults)
      && AllAccepted(env, defaults)
      && forall h :: DefaultOf(parsed, h) <==> Tally(env.options, defaults, h) > 0
    }

    method MarkDefault(h: string)
      requires h in parsed && Counting()
      modifies this`parsed
      ensures Counting() && forall x :: DefaultOf(parsed, x) <==> x == h || DefaultOf(old(parsed), x)
    {
      parsed := parsed[h := parsed[h].(isDefault := true)];
      assert forall x :: CountOf(parsed, x) == CountOf(old(parsed), x);
    }

    /** `parse_default` for one registered name, if its option has a default and was not given. */
    method PutDefault(name: string, ghost done: set<string>) returns (failure: Option<Failure>)
      requires Counting() && DefaultsSoFar(done) && name in env.options
      modifies this`parsed, this`defaults
      ensures failure.None? ==> Counting() && DefaultsSoFar(done + {name})
      ensures failure.Some? ==> failure == Some(BadArgument) && !DefaultsAccepted(env, sequential)
    {
      var d := env.options[name];
      var h := d.Hash();
      Touch(h);
      DefaultsNext(env.options, done, sequential, defaults, name);
      if d.hasDefault && parsed[h].count == 0 && !parsed[h].isDefault {
        MarkDefault(h);
        if !env.accepts(d, d.defaultValue) {
          return Some(BadArgument);
        }
        EssentialRegistered(env.options, name);
        AcceptedMore(env, defaults, KeyValue(d.Essential(), d.defaultValue));
        defaults := defaults + [KeyValue(d.Essential(), d.defaultValue)];
      }
      failure := None;
    }

    /** The loop over all registered names, in any order: each option comes up once per name. */
    method PutDefaults() returns (failure: Option<Failure>)
      requires Counting() && Fresh() && defaults == []
      modifies this`parsed, this`defaults
      ensures failure.None? ==>
        Counting() && DefaultsRight(env.options, env.options.Keys, sequential, defaults) && AllAccepted(env, defaults)
      ensures failure.Some? ==>
        failure == Some(BadArgument) && !DefaultsAccepted(env, sequential)
    {
      failure := None;
      ghost var done := {};
      var todo := env.options.Keys;
      while todo != {}
        invariant todo !! done && todo + done == env.options.Keys && failure.None?
        invariant Counting() && DefaultsSoFar(done)
        decreases todo
      {
        var name :| name in todo;
        failure := PutDefault(name, done);
        if failure.Some? {
          return;
        }
        todo, done := todo - {name}, done + {name};
      }
      assert done == env.options.Keys;
    }

    /** The arguments after "--". */
    method ParseRest(argv: seq<string>, start: nat, unmatched: seq<string>, next: nat, ghost st: State)
      returns (failure: Option<Failure>, unmatched': seq<string>)
      requires Holds(st, unmatched, next) && start <= |argv|
      modifies this`parsed, this`sequential
      ensures match Rest(env, st, argv, start)
              case Bad(f) => failure == Some(f)
              case Good(st') => failure.None? && Holds(st', unmatched', st'.next)
    {
      failure, unmatched' := None, unmatched;
      var current, place := start, next;
      ghost var now := st;
      while current < |argv|
        invariant current <= |argv| && failure.None? && unmatched' == unmatched
        invariant Holds(now, unmatched', place)
        invariant Rest(env, st, argv, start) == Rest(env, now, argv, current)
      {
        PositionalLegal(env, now, argv[current]);
        ghost var after := Positional(env, now, argv[current]);
        var consumed;
        failure, consumed, place := ConsumePositional(argv[current], place, now);
        if failure.Some? {
          return;
        }
        now := after.value.0;
        if !consumed {
          break;
        }
        current := current + 1;
      }
      unmatched' := LeaveOver(argv, current, unmatched');
      assert argv[|argv|..] == [] && unmatched + [] == unmatched;
    }

    /** The arguments nothing took. */
    method LeaveOver(argv: seq<string>, start: nat, unmatched: seq<string>) returns (unmatched': seq<string>)
      requires start <= |argv|
      ensures unmatched' == unmatched + argv[start..]
    {
      unmatched' := unmatched;
      var current := start;
      while current != |argv|
        invariant start <= current <= |argv| && unmatched' == unmatched + argv[start..current]
        decreases |argv| - current
      {
        unmatched' := unmatched' + [argv[current]];
        current := current + 1;
      }
      assert argv[start..current] == argv[start..];
    }

    /** A name that is not empty leads to the hash of the option registered under it. */
    ghost predicate Aliased()
      reads this
    {
      forall name | name in keys && name != "" :: name in env.options && keys[name] == env.options[name].Hash()
    }

    /** The names of one option. */
    method Alias(ghost name: string, d: Details)
      requires WellFormed(env.options) && Aliased() && name in env.options && env.options[name] == d
      modifies this`keys
      ensures Aliased() && old(keys).Keys <= keys.Keys
      ensures name != "" ==> name in keys
    {
      assert forall n | d.HasName(n) :: n in env.options && env.options[n] == d;
      keys := keys[d.short := d.Hash()];
      var i := 0;
      while i < |d.long|
        invariant i <= |d.long| && Aliased() && old(keys).Keys <= keys.Keys
        invariant d.short in keys && forall j | 0 <= j < i :: d.long[j] in keys
      {
        assert d.HasName(d.long[i]);
        keys := keys[d.long[i] := d.Hash()];
        i := i + 1;
      }
    }

    /** `finalise_aliases`: every name leads to its option's hash. A missing short name is the empty
        name, which then leads to one of the options without one. */
    method FinaliseAliases()
      requires Counting() && keys == map[]
      modifies this`parsed, this`keys
      ensures Counting() && Aliased()
      ensures forall name | name in env.options && name != "" :: name in keys && keys[name] in parsed
      ensures forall h :: DefaultOf(parsed, h) == DefaultOf(old(parsed), h)
    {
      var todo := env.options.Keys;
      ghost var done := {};
      while todo != {}
        invariant todo !! done && todo + done == env.options.Keys
        invariant Counting() && Aliased()
        invariant forall h :: DefaultOf(parsed, h) == DefaultOf(old(parsed), h)
        invariant forall name | name in done && name != "" :: name in keys && env.options[name].Hash() in parsed
        decreases todo
      {
        var name :| name in todo;
        var d := env.options[name];
        Alias(name, d);
        Touch(d.Hash());
        todo, done := todo - {name}, done + {name};
      }
    }

    /** `ParseResult::count`. */
    function Count(name: string): nat
      reads this
    {
      if name in keys then CountOf(parsed, keys[name]) else 0
    }

    /** `parse`: the log and the arguments left over are what the command line means; the defaults are
        those of the options the part before "--" does not give; counts are entries of the log. */
    method Parse(argv: seq<string>) returns (failure: Option<Failure>, unmatched: seq<string>)
      requires |argv| >= 1 && Counting() && Fresh() && sequential == [] && defaults == [] && keys == map[]
      modifies this
      ensures match Head(env, State([], [], 0), argv, 1)
              case Bad(f) => failure == Some(f)
              case Good((st, current, dashes)) =>
                Legal(env, st) && current <= |argv|
                && (failure.None? ==>
                      Counting()
                      && DefaultsRight(env.options, env.options.Keys, st.sequential, defaults)
                      && AllAccepted(env, defaults)
                      && (forall name | name in env.options && name != "" ::
                            Count(name) == Tally(env.options, sequential, env.options[name].Hash()))
                      && (if dashes then
                            Rest(env, st, argv, current).Good?
                            && Rest(env, st, argv, current).value.sequential == sequential
                            && Rest(env, st, argv, current).value.unmatched == unmatched
                          else st.sequential == sequential && st.unmatched == unmatched))
                && (failure.Some? ==>
                      (failure == Some(BadArgument) && !DefaultsAccepted(env, st.sequential))
                      || (dashes && Rest(env, st, argv, current) == Bad(failure.value)))
    {
      ghost var start := State([], [], 0);
      assert Legal(env, start);
      HeadLegal(env, start, argv, 1);
      ghost var head := Head(env, start, argv, 1);
      var current, consumeRemaining, next;
      failure, current, consumeRemaining, unmatched, next := ParseHead(argv);
      if failure.Some? {
        return;
      }
      ghost var st := head.value.0;
      failure := PutDefaults();
      if failure.Some? {
        return;
      }
      if consumeRemaining {
        failure, unmatched := ParseRest(argv, current, unmatched, next, st);
        if failure.Some? {
          return;
        }
      }
      FinaliseAliases();
    }
  }
}
