/** Command lines written from items: exactly the lines the parser's main loop reads, and to what. */
module OptionLines {
  import opened Wrappers
  import opened OptionParsing
  import opened IntegerParser
  import opened OptionLaws

  // ----- items -----

  /** An option by one of its names, and a value for it. */
  datatype Use = Use(name: string, value: string)

  /** Where the value stands: in the same argument, in the next one, or nowhere when it is implicit. */
  datatype How = Attached | Separate | Implied

  /** Arguments that belong together: a long option; a short one after letters that take no value from
      the line; such letters alone; a positional; an argument that nothing takes. */
  datatype Item =
    | Long(use: Use, how: How)
    | Short(before: string, use: Use, how: How)
    | Letters(letters: string)
    | Bare(use: Use)
    | Left(arg: string)

  /** A short option with its value, in the same argument or after it. */
  function Word(before: string, u: Use, how: How): string {
    before + u.name + if how.Attached? then u.value else ""
  }

  function Arguments(item: Item): (args: seq<string>)
    ensures args != []
  {
    match item
    case Long(u, how) =>
      [if how.Attached? then "--" + u.name + "=" + u.value else "--" + u.name]
      + if how.Separate? then [u.value] else []
    case Short(before, u, how) => ["-" + Word(before, u, how)] + if how.Separate? then [u.value] else []
    case Letters(letters) => ["-" + letters]
    case Bare(u) => [u.value]
    case Left(arg) => [arg]
  }

  /** The log entry of a use, under the essential name of its option. */
  function Entry(env: Env, u: Use): KeyValue
    requires u.name in env.options
  {
    KeyValue(env.options[u.name].Essential(), u.value)
  }

  predicate Usable(env: Env, u: Use) { u.name in env.options && env.accepts(env.options[u.name], u.value) }

  /** A letter inside a group: an option that takes its implicit value, or one that is let through. */
  predicate Passes(env: Env, letter: char) {
    if [letter] in env.options then
      env.options[[letter]].hasImplicit && env.accepts(env.options[[letter]], env.options[[letter]].implicitValue)
    else env.allowUnrecognised
  }

  predicate AllPass(env: Env, letters: string) { forall i | 0 <= i < |letters| :: Passes(env, letters[i]) }

  /** Whether the option's value may stand there. */
  predicate Placeable(env: Env, u: Use, how: How)
    requires u.name in env.options
  {
    match how
    case Attached => true
    case Separate => !env.options[u.name].hasImplicit
    case Implied => env.options[u.name].hasImplicit && u.value == env.options[u.name].implicitValue
  }

  /** An argument that is not taken for an option. */
  predicate IsBare(env: Env, a: string) {
    MatchArgument(a) == None && a != "--" && (|a| >= 2 && a[0] == '-' ==> env.allowUnrecognised)
  }

  /** A long option that is let through though no option has its name. */
  predicate IsUnknown(env: Env, a: string) {
    env.allowUnrecognised
    && match MatchArgument(a)
       case Some(desc) => !desc.grouping && desc.argName !in env.options
       case None => false
  }

  /** What follows a single `-`. */
  predicate IsGroup(s: string) { s != "" && IsAlnum(s[0]) && IsLine(s) }

  /** What can be written in state `st`. A positional has to be the one whose turn it is, and an argument
      is left over only when no positional takes it. */
  predicate Writable(env: Env, st: State, item: Item)
    requires Known(env.options, st.sequential) && st.next <= |env.positional|
  {
    var i := Target(env, st.sequential, st.next);
    match item
    case Long(u, how) =>
      Usable(env, u) && Placeable(env, u, how) && IsLongName(u.name) && (how.Attached? ==> IsLine(u.value))
    case Short(before, u, how) =>
      Usable(env, u) && Placeable(env, u, how) && |u.name| == 1 && AllPass(env, before)
      && IsGroup(Word(before, u, how))
      && (how.Attached? ==> u.value != "" && !env.options[u.name].hasImplicit)
    case Letters(letters) =>
      IsGroup(letters) && AllPass(env, letters) && [letters[|letters| - 1]] !in env.options
    case Bare(u) => Usable(env, u) && IsBare(env, u.value) && i < |env.positional| && env.positional[i] == u.name
    case Left(a) => (IsBare(env, a) && i == |env.positional|) || IsUnknown(env, a)
  }

  function AfterUse(env: Env, st: State, u: Use): State
    requires u.name in env.options
  {
    st.(sequential := st.sequential + [Entry(env, u)])
  }

  function AfterLetter(env: Env, st: State, letter: char): State {
    if [letter] in env.options then AfterUse(env, st, Use([letter], env.options[[letter]].implicitValue))
    else st.(unmatched := st.unmatched + [['-', letter]])
  }

  function AfterLetters(env: Env, st: State, letters: string): State
    decreases |letters|
  {
    if letters == "" then st else AfterLetters(env, AfterLetter(env, st, letters[0]), letters[1..])
  }

  /** The state after an item has been read. */
  function After(env: Env, st: State, item: Item): State
    requires Known(env.options, st.sequential) && st.next <= |env.positional| && Writable(env, st, item)
  {
    var i := Target(env, st.sequential, st.next);
    match item
    case Long(u, _) => AfterUse(env, st, u)
    case Short(before, u, _) => AfterUse(env, AfterLetters(env, st, before), u)
    case Letters(letters) => AfterLetters(env, st, letters)
    case Bare(u) => AfterUse(env, st, u).(next := if env.options[u.name].isContainer then i else i + 1)
    case Left(a) => State(st.sequential, st.unmatched + [a], if MatchArgument(a).None? then i else st.next)
  }

  // ----- an item is read as itself -----

  lemma MatchLong(key: string, value: string)
    requires IsLongName(key) && IsLine(value)
    ensures MatchArgument("--" + key + "=" + value) == Some(ArguDesc(key, false, true, value))
  {
    var arg := "--" + key + "=" + value;
    var rest := arg[2..];
    assert rest == key + "=" + value;
    assert forall j | 0 <= j < |key| :: rest[j] == key[j] && key[j] != '=';
    EqualsAtUnique(rest, |key|);
    assert rest[..|key|] == key && rest[|key| + 1..] == value;
  }

  lemma MatchLongAlone(key: string)
    requires IsLongName(key)
    ensures MatchArgument("--" + key) == Some(ArguDesc(key, false, false, ""))
  {
    var arg := "--" + key;
    assert arg[2..] == key;
    assert forall j | 0 <= j < |key| :: key[j] != '=';
    assert key[..|key|] == key;
  }

  lemma MatchGroup(letters: string)
    requires IsGroup(letters)
    ensures MatchArgument("-" + letters) == Some(ArguDesc(letters, true, false, ""))
  {
    var arg := "-" + letters;
    assert arg[1..] == letters && arg[2..] == letters[1..] && arg[1] == letters[0];
  }

  /** An option without a value in its own argument. */
  lemma CheckedReads(env: Env, st: State, argv: seq<string>, current: nat, u: Use, how: How)
    requires Usable(env, u) && Placeable(env, u, how) && !how.Attached?
    requires how.Separate? ==> current + 1 < |argv| && argv[current + 1] == u.value
    ensures Checked(env, st, argv, current, env.options[u.name])
            == Good((AfterUse(env, st, u), if how.Separate? then current + 1 else current))
  {
  }

  /** `args` stand in `argv` from `current` on. */
  ghost predicate StandAt<T>(argv: seq<T>, current: nat, args: seq<T>) {
    current + |args| <= |argv| && argv[current..current + |args|] == args
  }

  lemma StandAtOne<T>(argv: seq<T>, current: nat, args: seq<T>, i: nat)
    requires StandAt(argv, current, args) && i < |args|
    ensures argv[current + i] == args[i]
  {
    assert argv[current + i] == argv[current..current + |args|][i];
  }

  /** The item can be read at `current`. */
  ghost predicate StandsAt(env: Env, st: State, argv: seq<string>, current: nat, item: Item) {
    Legal(env, st) && Writable(env, st, item) && StandAt(argv, current, Arguments(item))
    && env.split(argv[current]) == MatchArgument(argv[current])
  }

  /** The word of an option and, if it stands apart, its value. */
  lemma WordStands(argv: seq<string>, current: nat, word: string, u: Use, how: How)
    requires StandAt(argv, current, [word] + if how.Separate? then [u.value] else [])
    ensures current < |argv| && argv[current] == word
    ensures how.Separate? ==> current + 1 < |argv| && argv[current + 1] == u.value
  {
    StandAtOne(argv, current, [word] + if how.Separate? then [u.value] else [], 0);
    if how.Separate? {
      StandAtOne(argv, current, [word] + if how.Separate? then [u.value] else [], 1);
    }
  }

  lemma OneSet(env: Env, st: State, argv: seq<string>, current: nat, u: Use)
    requires Legal(env, st) && current < |argv| && Usable(env, u) && u.name != ""
    requires env.split(argv[current]) == Some(ArguDesc(u.name, false, true, u.value))
    ensures One(env, st, argv, current) == Good((AfterUse(env, st, u), current + 1))
  {
  }

  lemma OneUnset(env: Env, st: State, argv: seq<string>, current: nat, name: string, st': State, last: nat)
    requires Legal(env, st) && current < |argv| && name in env.options && name != ""
    requires env.split(argv[current]) == Some(ArguDesc(name, false, false, ""))
    requires Checked(env, st, argv, current, env.options[name]) == Good((st', last))
    ensures One(env, st, argv, current) == Good((st', last + 1))
  {
  }

  lemma LongReads(env: Env, st: State, argv: seq<string>, current: nat, item: Item)
    requires item.Long? && StandsAt(env, st, argv, current, item)
    ensures One(env, st, argv, current) == Good((After(env, st, item), current + |Arguments(item)|))
  {
    var u, how := item.use, item.how;
    WordStands(argv, current, Arguments(item)[0], u, how);
    if how.Attached? {
      MatchLong(u.name, u.value);
      OneSet(env, st, argv, current, u);
    } else {
      MatchLongAlone(u.name);
      CheckedReads(env, st, argv, current, u, how);
      OneUnset(env, st, argv, current, u.name, AfterUse(env, st, u), if how.Separate? then current + 1 else current);
    }
  }

  /** The letters of a group that take no value from the line. */
  lemma {:induction false} GroupPasses(
      env: Env, st: State, argv: seq<string>, current: nat, s: string, i: nat, before: string)
    requires AllPass(env, before) && i + |before| <= |s| && s[i..i + |before|] == before
    requires i + |before| == |s| && before != "" ==> [before[|before| - 1]] !in env.options
    ensures Group(env, st, argv, current, s, i)
            == Group(env, AfterLetters(env, st, before), argv, current, s, i + |before|)
    decreases |before|
  {
    if before == "" {
    } else {
      assert s[i] == before[0] && Passes(env, before[0]);
      assert s[i + 1..i + |before|] == before[1..];
      GroupPasses(env, AfterLetter(env, st, before[0]), argv, current, s, i + 1, before[1..]);
    }
  }

  /** The last option of a group. */
  lemma GroupEnds(env: Env, st: State, argv: seq<string>, current: nat, s: string, i: nat, u: Use, how: How)
    requires Usable(env, u) && Placeable(env, u, how) && |u.name| == 1
    requires how.Attached? ==> u.value != "" && !env.options[u.name].hasImplicit
    requires how.Separate? ==> current + 1 < |argv| && argv[current + 1] == u.value
    requires i < |s| && [s[i]] == u.name && s[i + 1..] == if how.Attached? then u.value else ""
    ensures Group(env, st, argv, current, s, i)
            == Good((AfterUse(env, st, u), if how.Separate? then current + 1 else current))
  {
    if !how.Attached? {
      CheckedReads(env, st, argv, current, u, how);
    }
  }

  lemma OneGroup(env: Env, st: State, argv: seq<string>, current: nat, letters: string, st': State, last: nat)
    requires Legal(env, st) && current < |argv|
    requires env.split(argv[current]) == Some(ArguDesc(letters, true, false, ""))
    requires Group(env, st, argv, current, letters, 0) == Good((st', last))
    ensures One(env, st, argv, current) == Good((st', last + 1))
  {
  }

  lemma WordParts(before: string, u: Use, how: How)
    requires |u.name| == 1
    ensures var s, n := Word(before, u, how), |before|;
            n < |s| && s[0..n] == before && [s[n]] == u.name && s[n + 1..] == if how.Attached? then u.value else ""
  {
  }

  lemma GroupReads(env: Env, st: State, argv: seq<string>, current: nat, before: string, u: Use, how: How)
    requires AllPass(env, before) && Usable(env, u) && Placeable(env, u, how) && |u.name| == 1
    requires how.Attached? ==> u.value != "" && !env.options[u.name].hasImplicit
    requires how.Separate? ==> current + 1 < |argv| && argv[current + 1] == u.value
    ensures Group(env, st, argv, current, Word(before, u, how), 0)
            == Good((AfterUse(env, AfterLetters(env, st, before), u), if how.Separate? then current + 1 else current))
  {
    WordParts(before, u, how);
    GroupPasses(env, st, argv, current, Word(before, u, how), 0, before);
    GroupEnds(env, AfterLetters(env, st, before), argv, current, Word(before, u, how), |before|, u, how);
  }

  lemma ShortReads(env: Env, st: State, argv: seq<string>, current: nat, item: Item)
    requires item.Short? && StandsAt(env, st, argv, current, item)
    ensures One(env, st, argv, current) == Good((After(env, st, item), current + |Arguments(item)|))
  {
    var before, u, how := item.before, item.use, item.how;
    var s := Word(before, u, how);
    WordStands(argv, current, "-" + s, u, how);
    MatchGroup(s);
    GroupReads(env, st, argv, current, before, u, how);
    OneGroup(env, st, argv, current, s, AfterUse(env, AfterLetters(env, st, before), u),
             if how.Separate? then current + 1 else current);
  }

  lemma LettersRead(env: Env, st: State, argv: seq<string>, current: nat, item: Item)
    requires item.Letters? && StandsAt(env, st, argv, current, item)
    ensures One(env, st, argv, current) == Good((After(env, st, item), current + |Arguments(item)|))
  {
    var letters := item.letters;
    StandAtOne(argv, current, Arguments(item), 0);
    MatchGroup(letters);
    assert letters[0..|letters|] == letters;
    GroupPasses(env, st, argv, current, letters, 0, letters);
    OneGroup(env, st, argv, current, letters, AfterLetters(env, st, letters), current);
  }

  lemma BareReads(env: Env, st: State, argv: seq<string>, current: nat, item: Item)
    requires item.Bare? && StandsAt(env, st, argv, current, item)
    ensures One(env, st, argv, current) == Good((After(env, st, item), current + |Arguments(item)|))
  {
    StandAtOne(argv, current, Arguments(item), 0);
  }

  lemma LeftReads(env: Env, st: State, argv: seq<string>, current: nat, item: Item)
    requires item.Left? && StandsAt(env, st, argv, current, item)
    ensures One(env, st, argv, current) == Good((After(env, st, item), current + |Arguments(item)|))
  {
    StandAtOne(argv, current, Arguments(item), 0);
    if MatchArgument(item.arg).Some? {
      assert MatchArgument(item.arg).value.argName != "";
    }
  }

  lemma ItemReads(env: Env, st: State, argv: seq<string>, current: nat, item: Item)
    requires StandsAt(env, st, argv, current, item)
    ensures One(env, st, argv, current) == Good((After(env, st, item), current + |Arguments(item)|))
  {
    if item.Long? {
      LongReads(env, st, argv, current, item);
    } else if item.Short? {
      ShortReads(env, st, argv, current, item);
    } else if item.Letters? {
      LettersRead(env, st, argv, current, item);
    } else if item.Bare? {
      BareReads(env, st, argv, current, item);
    } else {
      LeftReads(env, st, argv, current, item);
    }
  }

  lemma NotDashes(env: Env, st: State, argv: seq<string>, current: nat, item: Item)
    requires StandsAt(env, st, argv, current, item)
    ensures argv[current] != "--"
  {
    StandAtOne(argv, current, Arguments(item), 0);
    match item
    case Long(u, how) => assert |Arguments(item)[0]| > 2;
    case Short(before, u, how) => assert Arguments(item)[0][1] == Word(before, u, how)[0];
    case Letters(letters) => assert Arguments(item)[0][1] == letters[0];
    case Bare(u) =>
    case Left(a) =>
  }

  // ----- whatever is read is an item -----

  /** What `Checked` has read. */
  lemma CheckedIs(env: Env, st: State, argv: seq<string>, current: nat, name: string) returns (u: Use, how: How)
    requires name in env.options && Checked(env, st, argv, current, env.options[name]).Good?
    ensures u.name == name && Usable(env, u) && Placeable(env, u, how) && !how.Attached?
    ensures how.Separate? ==> current + 1 < |argv| && argv[current + 1] == u.value
    ensures Checked(env, st, argv, current, env.options[name])
            == Good((AfterUse(env, st, u), if how.Separate? then current + 1 else current))
  {
    var d := env.options[name];
    if d.hasImplicit {
      u, how := Use(name, d.implicitValue), Implied;
    } else {
      u, how := Use(name, argv[current + 1]), Separate;
    }
  }

  /** A group read from letter `i` on: letters that pass and, unless they go to its end, an option. */
  ghost predicate GroupIs(env: Env, st: State, argv: seq<string>, current: nat, s: string, i: nat,
                          before: string, use: Option<(Use, How)>)
    requires i <= |s|
  {
    AllPass(env, before)
    && match use
       case None =>
         s[i..] == before && (before != "" ==> [before[|before| - 1]] !in env.options)
         && Group(env, st, argv, current, s, i) == Good((AfterLetters(env, st, before), current))
       case Some((u, how)) =>
         Usable(env, u) && Placeable(env, u, how) && |u.name| == 1 && s[i..] == Word(before, u, how)
         && (how.Attached? ==> u.value != "" && !env.options[u.name].hasImplicit)
         && (how.Separate? ==> current + 1 < |argv| && argv[current + 1] == u.value)
         && Group(env, st, argv, current, s, i)
            == Good((AfterUse(env, AfterLetters(env, st, before), u), if how.Separate? then current + 1 else current))
  }

  lemma GroupIsMore(env: Env, st: State, argv: seq<string>, current: nat, s: string, i: nat,
                    before: string, use: Option<(Use, How)>)
    requires i < |s| && Passes(env, s[i]) && ([s[i]] in env.options ==> i + 1 < |s|)
    requires GroupIs(env, AfterLetter(env, st, s[i]), argv, current, s, i + 1, before, use)
    ensures GroupIs(env, st, argv, current, s, i, [s[i]] + before, use)
  {
    assert s[i..] == [s[i]] + s[i + 1..];
    assert ([s[i]] + before)[1..] == before;
    match use
    case None =>
    case Some((u, how)) => assert [s[i]] + Word(before, u, how) == Word([s[i]] + before, u, how);
  }

  lemma {:induction false} GroupParts(env: Env, st: State, argv: seq<string>, current: nat, s: string, i: nat)
    returns (before: string, use: Option<(Use, How)>)
    requires i <= |s| && Group(env, st, argv, current, s, i).Good?
    ensures GroupIs(env, st, argv, current, s, i, before, use)
    decreases |s| - i
  {
    if i == |s| {
      before, use := "", None;
    } else if [s[i]] !in env.options || (i + 1 < |s| && env.options[[s[i]]].hasImplicit) {
      before, use := GroupParts(env, AfterLetter(env, st, s[i]), argv, current, s, i + 1);
      GroupIsMore(env, st, argv, current, s, i, before, use);
      before := [s[i]] + before;
    } else if i + 1 == |s| {
      var u, how := CheckedIs(env, st, argv, current, [s[i]]);
      before, use := "", Some((u, how));
      assert s[i..] == [s[i]] == Word("", u, how);
    } else {
      var u := Use([s[i]], s[i + 1..]);
      before, use := "", Some((u, Attached));
      assert s[i..] == Word("", u, Attached);
    }
  }

  lemma MatchedGroup(a: string)
    requires MatchArgument(a).Some? && MatchArgument(a).value.grouping
    ensures var letters := MatchArgument(a).value.argName; a == "-" + letters && IsGroup(letters)
  {
    assert a == [a[0]] + a[1..] && a[1..] == [a[1]] + a[2..];
  }

  lemma MatchedLong(a: string)
    requires MatchArgument(a).Some? && !MatchArgument(a).value.grouping
    ensures var desc := MatchArgument(a).value;
            IsLongName(desc.argName) && IsLine(desc.value)
            && a == if desc.setValue then "--" + desc.argName + "=" + desc.value else "--" + desc.argName
  {
    var rest := a[2..];
    var i := EqualsAt(rest);
    assert a == "--" + rest && rest[..|rest|] == rest;
    if i < |rest| {
      SplitAtEquals(rest, i);
    }
  }

  lemma SplitAtEquals(rest: string, i: nat)
    requires i < |rest| && rest[i] == '='
    ensures "--" + rest == "--" + rest[..i] + "=" + rest[i + 1..]
  {
    assert rest == rest[..i] + ("=" + rest[i + 1..]);
  }

  lemma StandsOne(argv: seq<string>, current: nat)
    requires current < |argv|
    ensures StandAt(argv, current, [argv[current]])
    ensures current + 1 < |argv| ==> StandAt(argv, current, [argv[current], argv[current + 1]])
  {
  }

  lemma WordStandsBack(argv: seq<string>, current: nat, word: string, u: Use, how: How)
    requires current < |argv| && argv[current] == word
    requires how.Separate? ==> current + 1 < |argv| && argv[current + 1] == u.value
    ensures StandAt(argv, current, [word] + if how.Separate? then [u.value] else [])
  {
    StandsOne(argv, current);
    assert [word] + [u.value] == [word, u.value] && [word] + [] == [word];
  }

  lemma LongIs(env: Env, st: State, argv: seq<string>, current: nat) returns (item: Item)
    requires Legal(env, st) && current < |argv| && env.split(argv[current]) == MatchArgument(argv[current])
    requires MatchArgument(argv[current]).Some? && !MatchArgument(argv[current]).value.grouping
    requires MatchArgument(argv[current]).value.argName in env.options && One(env, st, argv, current).Good?
    ensures StandsAt(env, st, argv, current, item)
  {
    var desc := MatchArgument(argv[current]).value;
    MatchedLong(argv[current]);
    var u, how := Use(desc.argName, desc.value), Attached;
    if !desc.setValue {
      u, how := CheckedIs(env, st, argv, current, desc.argName);
    }
    item := Long(u, how);
    WordStandsBack(argv, current, argv[current], u, how);
    assert Arguments(item)[0] == argv[current];
  }

  lemma GroupItem(env: Env, st: State, argv: seq<string>, current: nat) returns (item: Item)
    requires Legal(env, st) && current < |argv| && env.split(argv[current]) == MatchArgument(argv[current])
    requires MatchArgument(argv[current]).Some? && MatchArgument(argv[current]).value.grouping
    requires One(env, st, argv, current).Good?
    ensures StandsAt(env, st, argv, current, item)
  {
    var s := MatchArgument(argv[current]).value.argName;
    MatchedGroup(argv[current]);
    var before, use := GroupParts(env, st, argv, current, s, 0);
    assert s[0..] == s;
    match use
    case None =>
      item := Letters(s);
      StandsOne(argv, current);
    case Some((u, how)) =>
      item := Short(before, u, how);
      WordStandsBack(argv, current, argv[current], u, how);
  }

  lemma PlainItem(env: Env, st: State, argv: seq<string>, current: nat) returns (item: Item)
    requires Legal(env, st) && current < |argv| && env.split(argv[current]) == MatchArgument(argv[current])
    requires MatchArgument(argv[current]).None? && argv[current] != "--" && One(env, st, argv, current).Good?
    ensures StandsAt(env, st, argv, current, item)
  {
    var i := Target(env, st.sequential, st.next);
    StandsOne(argv, current);
    item := if i == |env.positional| then Left(argv[current]) else Bare(Use(env.positional[i], argv[current]));
  }

  /** Whatever one turn of the main loop reads is an item. */
  lemma OneIsItem(env: Env, st: State, argv: seq<string>, current: nat) returns (item: Item)
    requires Legal(env, st) && current < |argv| && env.split(argv[current]) == MatchArgument(argv[current])
    requires argv[current] != "--" && One(env, st, argv, current).Good?
    ensures StandsAt(env, st, argv, current, item)
  {
    var matched := MatchArgument(argv[current]);
    if matched.None? {
      item := PlainItem(env, st, argv, current);
    } else if matched.value.grouping {
      item := GroupItem(env, st, argv, current);
    } else if matched.value.argName in env.options {
      item := LongIs(env, st, argv, current);
    } else {
      MatchedLong(argv[current]);
      StandsOne(argv, current);
      item := Left(argv[current]);
    }
  }

  // ----- whole command lines -----

  function Flat<T>(parts: seq<seq<T>>): seq<T> {
    if parts == [] then [] else parts[0] + Flat(parts[1..])
  }

  /** The arguments of each item. */
  function Parts(items: seq<Item>): (parts: seq<seq<string>>)
    ensures |parts| == |items|
  {
    seq(|items|, i requires 0 <= i < |items| => Arguments(items[i]))
  }

  /** The arguments of all the items, one after another. */
  function Line(items: seq<Item>): seq<string> {
    Flat(Parts(items))
  }

  ghost predicate WritesAt(env: Env, st: State, item: Item, next: State) {
    Known(env.options, st.sequential) && st.next <= |env.positional|
    && Writable(env, st, item) && next == After(env, st, item)
  }

  /** `states` are the states before and after each item, in which it can be written, from `st` on. */
  ghost predicate Writes(env: Env, st: State, items: seq<Item>, states: seq<State>) {
    |states| == |items| + 1 && states[0] == st
    && forall i | 0 <= i < |items| :: WritesAt(env, states[i], items[i], states[i + 1])
  }

  /** The line stands in `argv` from `current` on, and what follows is the end or a "--", which is
      passed. */
  ghost predicate LineStands(argv: seq<string>, current: nat, line: seq<string>, pos: nat, dashes: bool) {
    var end := current + |line|;
    StandAt(argv, current, line)
    && if dashes then end < |argv| && argv[end] == "--" && pos == end + 1 else end == |argv| == pos
  }

  // where the parts of a line stand

  lemma StandAtSplits<T>(argv: seq<T>, current: nat, a: seq<T>, b: seq<T>)
    ensures StandAt(argv, current, a + b) <==> StandAt(argv, current, a) && StandAt(argv, current + |a|, b)
  {
    if current + |a + b| <= |argv| {
      var whole := argv[current..current + |a + b|];
      assert whole[..|a|] == argv[current..current + |a|];
      assert whole[|a|..] == argv[current + |a|..current + |a| + |b|];
      assert whole == whole[..|a|] + whole[|a|..];
      assert (a + b)[..|a|] == a && (a + b)[|a|..] == b;
    }
  }

  /** Part `i` stands at `places[i]`, and the next one right after it. */
  ghost predicate PartsStand<T>(argv: seq<T>, parts: seq<seq<T>>, places: seq<nat>) {
    |places| == |parts| + 1
    && forall i | 0 <= i < |parts| :: StandAt(argv, places[i], parts[i]) && places[i + 1] == places[i] + |parts[i]|
  }

  lemma StandAtJoins<T>(argv: seq<T>, current: nat, a: seq<T>, b: seq<T>, end: nat, whole: seq<T>)
    requires StandAt(argv, current, a) && StandAt(argv, current + |a|, b) && end == current + |a| + |b|
    requires whole == a + b
    ensures StandAt(argv, current, whole) && end == current + |whole|
  {
    StandAtSplits(argv, current, a, b);
  }

  lemma PartsRest<T>(argv: seq<T>, parts: seq<seq<T>>, places: seq<nat>)
    requires PartsStand(argv, parts, places) && parts != []
    ensures StandAt(argv, places[0], parts[0]) && places[1] == places[0] + |parts[0]| <= |argv|
    ensures PartsStand(argv, parts[1..], places[1..])
  {
    assert StandAt(argv, places[0], parts[0]) && places[0 + 1] == places[0] + |parts[0]|;
    forall i | 0 <= i < |parts[1..]|
      ensures StandAt(argv, places[1..][i], parts[1..][i]) && places[1..][i + 1] == places[1..][i] + |parts[1..][i]|
    {
      assert StandAt(argv, places[i + 1], parts[i + 1]) && places[i + 1 + 1] == places[i + 1] + |parts[i + 1]|;
    }
  }

  lemma {:induction false} PartsMakeLine<T>(argv: seq<T>, parts: seq<seq<T>>, places: seq<nat>)
    requires PartsStand(argv, parts, places) && places[0] <= |argv|
    ensures StandAt(argv, places[0], Flat(parts)) && places[|parts|] == places[0] + |Flat(parts)|
    decreases |parts|
  {
    if parts == [] {
      assert argv[places[0]..places[0]] == [];
    } else {
      PartsRest(argv, parts, places);
      PartsMakeLine(argv, parts[1..], places[1..]);
      StandAtJoins(argv, places[0], parts[0], Flat(parts[1..]), places[|parts|], Flat(parts));
    }
  }

  lemma {:induction false} LineMakesParts<T>(argv: seq<T>, parts: seq<seq<T>>, current: nat) returns (places: seq<nat>)
    requires StandAt(argv, current, Flat(parts))
    ensures PartsStand(argv, parts, places)
    ensures places[0] == current && places[|parts|] == current + |Flat(parts)|
    decreases |parts|
  {
    if parts == [] {
      places := [current];
    } else {
      StandAtSplits(argv, current, parts[0], Flat(parts[1..]));
      var rest := LineMakesParts(argv, parts[1..], current + |parts[0]|);
      places := [current] + rest;
    }
  }

  // the main loop, one turn at a time

  /** One turn of the main loop, from a state and a position to the next. */
  ghost predicate IsTurn(env: Env, argv: seq<string>, st: State, current: nat, st': State, next: nat) {
    Legal(env, st) && current < |argv| && argv[current] != "--" && One(env, st, argv, current) == Good((st', next))
  }

  ghost predicate IsTrace(env: Env, argv: seq<string>, states: seq<State>, places: seq<nat>) {
    |states| == |places| > 0
    && forall i | 0 < i < |states| :: IsTurn(env, argv, states[i - 1], places[i - 1], states[i], places[i])
  }

  lemma TurnHead(env: Env, argv: seq<string>, st: State, current: nat, st': State, next: nat)
    requires IsTurn(env, argv, st, current, st', next)
    ensures Legal(env, st') && current < next <= |argv|
    ensures Head(env, st, argv, current) == Head(env, st', argv, next)
  {
    OneLegal(env, st, argv, current);
  }

  /** The turns of a trace lead from its first state to its last. */
  lemma {:induction false} TraceHead(env: Env, argv: seq<string>, states: seq<State>, places: seq<nat>)
    requires IsTrace(env, argv, states, places) && Legal(env, states[0]) && places[0] <= |argv|
    ensures var n := |states| - 1;
            Legal(env, states[n]) && places[n] <= |argv|
            && Head(env, states[0], argv, places[0]) == Head(env, states[n], argv, places[n])
    decreases |states|
  {
    if |states| == 1 {
    } else {
      assert IsTurn(env, argv, states[1 - 1], places[1 - 1], states[1], places[1]);
      TurnHead(env, argv, states[0], places[0], states[1], places[1]);
      TraceHead(env, argv, states[1..], places[1..]);
    }
  }

  lemma TraceCons(env: Env, argv: seq<string>, st: State, current: nat, states: seq<State>, places: seq<nat>)
    requires IsTrace(env, argv, states, places) && IsTurn(env, argv, st, current, states[0], places[0])
    ensures IsTrace(env, argv, [st] + states, [current] + places)
  {
  }

  /** Every run of the main loop leaves a trace, up to the end or the "--". */
  lemma {:induction false} HeadTrace(env: Env, argv: seq<string>, st: State, current: nat)
    returns (states: seq<State>, places: seq<nat>)
    requires Legal(env, st) && current <= |argv| && Head(env, st, argv, current).Good?
    ensures IsTrace(env, argv, states, places) && states[0] == st && places[0] == current
    ensures places[|places| - 1] <= |argv|
    ensures places[|places| - 1] < |argv| ==> argv[places[|places| - 1]] == "--"
    decreases |argv| - current
  {
    if current == |argv| || argv[current] == "--" {
      states, places := [st], [current];
    } else {
      var r := One(env, st, argv, current);
      TurnHead(env, argv, st, current, r.value.0, r.value.1);
      var states', places' := HeadTrace(env, argv, r.value.0, r.value.1);
      TraceCons(env, argv, st, current, states', places');
      states, places := [st] + states', [current] + places';
    }
  }

  // turns and items

  lemma ItemTurn(env: Env, argv: seq<string>, st: State, current: nat, item: Item, st': State)
    requires Legal(env, st) && WritesAt(env, st, item, st') && StandAt(argv, current, Arguments(item))
    requires forall a :: env.split(a) == MatchArgument(a)
    ensures IsTurn(env, argv, st, current, st', current + |Arguments(item)|)
  {
    ItemReads(env, st, argv, current, item);
    NotDashes(env, st, argv, current, item);
  }

  lemma TurnItem(env: Env, argv: seq<string>, st: State, current: nat, st': State, next: nat) returns (item: Item)
    requires IsTurn(env, argv, st, current, st', next) && forall a :: env.split(a) == MatchArgument(a)
    ensures WritesAt(env, st, item, st')
    ensures StandAt(argv, current, Arguments(item)) && next == current + |Arguments(item)|
  {
    item := OneIsItem(env, st, argv, current);
    ItemReads(env, st, argv, current, item);
  }

  // a written line is a trace

  lemma UseLegal(env: Env, st: State, u: Use)
    requires Legal(env, st) && u.name in env.options
    ensures Legal(env, AfterUse(env, st, u))
  {
    EssentialRegistered(env.options, u.name);
  }

  lemma {:induction false} LettersLegal(env: Env, st: State, letters: string)
    requires Legal(env, st)
    ensures Legal(env, AfterLetters(env, st, letters)) && AfterLetters(env, st, letters).next == st.next
    decreases |letters|
  {
    if letters == "" {
    } else {
      if [letters[0]] in env.options {
        UseLegal(env, st, Use([letters[0]], env.options[[letters[0]]].implicitValue));
      }
      LettersLegal(env, AfterLetter(env, st, letters[0]), letters[1..]);
    }
  }

  lemma AfterLegal(env: Env, st: State, item: Item)
    requires Legal(env, st) && Writable(env, st, item)
    ensures Legal(env, After(env, st, item))
  {
    match item
    case Long(u, _) => UseLegal(env, st, u);
    case Short(before, u, _) =>
      LettersLegal(env, st, before);
      UseLegal(env, AfterLetters(env, st, before), u);
    case Letters(letters) => LettersLegal(env, st, letters);
    case Bare(u) => UseLegal(env, st, u);
    case Left(_) =>
  }

  lemma {:induction false} StatesLegal(env: Env, st: State, items: seq<Item>, states: seq<State>, i: nat)
    requires Legal(env, st) && Writes(env, st, items, states) && i <= |items|
    ensures Legal(env, states[i])
  {
    if i == 0 {
    } else {
      StatesLegal(env, st, items, states, i - 1);
      assert WritesAt(env, states[i - 1], items[i - 1], states[i - 1 + 1]);
      AfterLegal(env, states[i - 1], items[i - 1]);
    }
  }

  ghost predicate LegallyWritesAt(env: Env, st: State, item: Item, next: State) {
    Legal(env, st) && WritesAt(env, st, item, next)
  }

  /** As `Writes`, with every state a legal one. */
  ghost predicate LegallyWrites(env: Env, items: seq<Item>, states: seq<State>) {
    |states| == |items| + 1
    && forall i | 0 <= i < |items| :: LegallyWritesAt(env, states[i], items[i], states[i + 1])
  }

  lemma WritesLegally(env: Env, st: State, items: seq<Item>, states: seq<State>)
    requires Legal(env, st) && Writes(env, st, items, states)
    ensures LegallyWrites(env, items, states)
  {
    forall i | 0 <= i < |items|
      ensures LegallyWritesAt(env, states[i], items[i], states[i + 1])
    {
      StatesLegal(env, st, items, states, i);
      assert WritesAt(env, states[i], items[i], states[i + 1]);
    }
  }

  lemma LegalTurn(env: Env, argv: seq<string>, st: State, from: nat, item: Item, args: seq<string>, st': State, to: nat)
    requires LegallyWritesAt(env, st, item, st') && forall a :: env.split(a) == MatchArgument(a)
    requires args == Arguments(item) && StandAt(argv, from, args) && to == from + |args|
    ensures IsTurn(env, argv, st, from, st', to)
  {
    ItemTurn(env, argv, st, from, item, st');
  }

  lemma WrittenTrace(env: Env, argv: seq<string>, items: seq<Item>, states: seq<State>, places: seq<nat>)
    requires LegallyWrites(env, items, states) && PartsStand(argv, Parts(items), places)
    requires forall a :: env.split(a) == MatchArgument(a)
    ensures IsTrace(env, argv, states, places)
  {
    forall i | 0 < i < |states|
      ensures IsTurn(env, argv, states[i - 1], places[i - 1], states[i], places[i])
    {
      var j := i - 1;
      assert LegallyWritesAt(env, states[j], items[j], states[j + 1]);
      assert StandAt(argv, places[j], Parts(items)[j]);
      LegalTurn(env, argv, states[j], places[j], items[j], Parts(items)[j], states[j + 1], places[j + 1]);
    }
  }

  lemma HeadEnds(env: Env, argv: seq<string>, st: State, current: nat, pos: nat, dashes: bool)
    requires Legal(env, st) && (current == |argv| || (current < |argv| && argv[current] == "--"))
    ensures Head(env, st, argv, current) == Good((st, pos, dashes))
            <==> if dashes then current < |argv| && pos == current + 1 else current == |argv| == pos
  {
  }

  /** The items stand in `argv` from `current` on and are written in `states`, up to the end of the loop
      at `pos`. */
  ghost predicate Reads(env: Env, argv: seq<string>, st: State, current: nat, items: seq<Item>,
                        states: seq<State>, pos: nat, dashes: bool) {
    Writes(env, st, items, states) && LineStands(argv, current, Line(items), pos, dashes)
  }

  /** A line of items is read, turn by turn. */
  lemma ItemsRead(env: Env, argv: seq<string>, st: State, current: nat, items: seq<Item>, states: seq<State>,
                  pos: nat, dashes: bool)
    requires Legal(env, st) && current <= |argv| && Reads(env, argv, st, current, items, states, pos, dashes)
    requires forall a :: env.split(a) == MatchArgument(a)
    ensures Head(env, st, argv, current) == Good((states[|items|], pos, dashes))
  {
    var places := LineMakesParts(argv, Parts(items), current);
    WritesLegally(env, st, items, states);
    WrittenTrace(env, argv, items, states, places);
    TraceHead(env, argv, states, places);
    HeadEnds(env, argv, states[|items|], places[|items|], pos, dashes);
  }

  // a trace is a written line

  ghost predicate ItemAt(env: Env, argv: seq<string>, st: State, from: nat, item: Item, st': State, to: nat) {
    WritesAt(env, st, item, st') && StandAt(argv, from, Arguments(item)) && to == from + |Arguments(item)|
  }

  lemma {:induction false} TraceItems(env: Env, argv: seq<string>, states: seq<State>, places: seq<nat>, n: nat)
    returns (items: seq<Item>)
    requires IsTrace(env, argv, states, places) && n < |states| && forall a :: env.split(a) == MatchArgument(a)
    ensures |items| == n
    ensures forall i | 0 <= i < n :: ItemAt(env, argv, states[i], places[i], items[i], states[i + 1], places[i + 1])
  {
    if n == 0 {
      items := [];
    } else {
      var before := TraceItems(env, argv, states, places, n - 1);
      assert IsTurn(env, argv, states[n - 1], places[n - 1], states[n], places[n]);
      var item := TurnItem(env, argv, states[n - 1], places[n - 1], states[n], places[n]);
      items := before + [item];
    }
  }

  lemma ItemsWrite(env: Env, argv: seq<string>, states: seq<State>, places: seq<nat>, items: seq<Item>)
    requires |states| == |places| == |items| + 1
    requires forall i | 0 <= i < |items| ::
               ItemAt(env, argv, states[i], places[i], items[i], states[i + 1], places[i + 1])
    ensures Writes(env, states[0], items, states) && PartsStand(argv, Parts(items), places)
  {
    forall i | 0 <= i < |items|
      ensures WritesAt(env, states[i], items[i], states[i + 1])
      ensures StandAt(argv, places[i], Parts(items)[i]) && places[i + 1] == places[i] + |Parts(items)[i]|
    {
      assert ItemAt(env, argv, states[i], places[i], items[i], states[i + 1], places[i + 1]);
    }
  }

  /** Whatever is read is a line of items. */
  lemma HeadItems(env: Env, argv: seq<string>, st: State, current: nat, end: State, pos: nat, dashes: bool)
    returns (items: seq<Item>, states: seq<State>)
    requires Legal(env, st) && current <= |argv| && Head(env, st, argv, current) == Good((end, pos, dashes))
    requires forall a :: env.split(a) == MatchArgument(a)
    ensures Reads(env, argv, st, current, items, states, pos, dashes) && states[|items|] == end
  {
    var places;
    states, places := HeadTrace(env, argv, st, current);
    var n := |states| - 1;
    items := TraceItems(env, argv, states, places, n);
    ItemsWrite(env, argv, states, places, items);
    PartsMakeLine(argv, Parts(items), places);
    TraceHead(env, argv, states, places);
    HeadEndState(env, argv, states[n], places[n], end, pos, dashes);
  }

  lemma HeadEndState(env: Env, argv: seq<string>, st: State, current: nat, end: State, pos: nat, dashes: bool)
    requires Legal(env, st) && (current == |argv| || (current < |argv| && argv[current] == "--"))
    requires Head(env, st, argv, current) == Good((end, pos, dashes))
    ensures st == end
    ensures if dashes then current < |argv| && argv[current] == "--" && pos == current + 1
            else current == |argv| == pos
  {
  }

  // ----- main results -----

  function Start(): State { State([], [], 0) }

  /** The main loop reads a command line to its end, or past a "--", exactly when the line up to there is
      written from items, and then ends in the state that these leave. */
  lemma HeadExactly(env: Env, argv: seq<string>, end: State, pos: nat, dashes: bool)
    requires WellFormed(env.options) && |argv| >= 1 && forall a :: env.split(a) == MatchArgument(a)
    ensures Legal(env, Start())
    ensures Head(env, Start(), argv, 1) == Good((end, pos, dashes))
            <==> exists items, states ::
                   Reads(env, argv, Start(), 1, items, states, pos, dashes) && states[|items|] == end
  {
    if Head(env, Start(), argv, 1) == Good((end, pos, dashes)) {
      var items, states := HeadItems(env, argv, Start(), 1, end, pos, dashes);
    }
    forall items, states | Reads(env, argv, Start(), 1, items, states, pos, dashes) && states[|items|] == end
      ensures Head(env, Start(), argv, 1) == Good((end, pos, dashes))
    {
      ItemsRead(env, argv, Start(), 1, items, states, pos, dashes);
    }
  }

  // the log and the arguments left over

  function LetterEntries(env: Env, letters: string): seq<KeyValue> {
    if letters == "" then [] else
    (if [letters[0]] in env.options then [Entry(env, Use([letters[0]], env.options[[letters[0]]].implicitValue))]
     else [])
    + LetterEntries(env, letters[1..])
  }

  function LettersLeft(env: Env, letters: string): seq<string> {
    if letters == "" then [] else
    (if [letters[0]] in env.options then [] else [['-', letters[0]]]) + LettersLeft(env, letters[1..])
  }

  /** The item's option is registered. */
  predicate Named(env: Env, item: Item) { item.Long? || item.Short? || item.Bare? ==> item.use.name in env.options }

  /** The entries an item makes, in order. */
  function Entries(env: Env, item: Item): seq<KeyValue>
    requires Named(env, item)
  {
    match item
    case Long(u, _) => [Entry(env, u)]
    case Short(before, u, _) => LetterEntries(env, before) + [Entry(env, u)]
    case Letters(letters) => LetterEntries(env, letters)
    case Bare(u) => [Entry(env, u)]
    case Left(_) => []
  }

  /** The arguments an item leaves over, an unknown letter as one of its own. */
  function LeftOver(env: Env, item: Item): seq<string> {
    match item
    case Long(_, _) => []
    case Short(before, _, _) => LettersLeft(env, before)
    case Letters(letters) => LettersLeft(env, letters)
    case Bare(_) => []
    case Left(a) => [a]
  }

  function Log(env: Env, items: seq<Item>): seq<KeyValue>
    requires forall i | 0 <= i < |items| :: Named(env, items[i])
  {
    Flat(seq(|items|, i requires 0 <= i < |items| => Entries(env, items[i])))
  }

  function AllLeftOver(env: Env, items: seq<Item>): seq<string> {
    Flat(seq(|items|, i requires 0 <= i < |items| => LeftOver(env, items[i])))
  }

  lemma {:induction false} AfterLettersIs(env: Env, st: State, letters: string)
    ensures AfterLetters(env, st, letters)
            == State(st.sequential + LetterEntries(env, letters), st.unmatched + LettersLeft(env, letters), st.next)
    decreases |letters|
  {
    if letters == "" {
      assert st.sequential + [] == st.sequential && st.unmatched + [] == st.unmatched;
    } else {
      var c, rest := letters[0], letters[1..];
      AfterLettersIs(env, AfterLetter(env, st, c), rest);
      var e := if [c] in env.options then [Entry(env, Use([c], env.options[[c]].implicitValue))] else [];
      var l := if [c] in env.options then [] else [['-', c]];
      Regroup(st.sequential, e, LetterEntries(env, rest));
      Regroup(st.unmatched, l, LettersLeft(env, rest));
    }
  }

  lemma AfterIs(env: Env, st: State, item: Item, next: State)
    requires WritesAt(env, st, item, next)
    ensures Named(env, item)
    ensures next.sequential == st.sequential + Entries(env, item)
    ensures next.unmatched == st.unmatched + LeftOver(env, item)
  {
    match item
    case Long(u, _) =>
    case Short(before, u, _) =>
      AfterLettersIs(env, st, before);
      Regroup(st.sequential, LetterEntries(env, before), [Entry(env, u)]);
    case Letters(letters) => AfterLettersIs(env, st, letters);
    case Bare(u) =>
    case Left(a) =>
  }

  lemma {:induction false} Accumulates<T>(parts: seq<seq<T>>, sums: seq<seq<T>>)
    requires |sums| == |parts| + 1 && forall i | 0 < i < |sums| :: sums[i] == sums[i - 1] + parts[i - 1]
    ensures sums[|parts|] == sums[0] + Flat(parts)
    decreases |parts|
  {
    if parts == [] {
    } else {
      assert sums[1] == sums[1 - 1] + parts[1 - 1];
      Accumulates(parts[1..], sums[1..]);
      Regroup(sums[0], parts[0], Flat(parts[1..]));
    }
  }

  /** The log at the end is that of the items, and what is left over is what they leave over. */
  lemma WrittenLog(env: Env, st: State, items: seq<Item>, states: seq<State>)
    requires Writes(env, st, items, states)
    ensures forall i | 0 <= i < |items| :: Named(env, items[i])
    ensures states[|items|].sequential == st.sequential + Log(env, items)
    ensures states[|items|].unmatched == st.unmatched + AllLeftOver(env, items)
  {
    forall i | 0 <= i < |items|
      ensures Named(env, items[i])
      ensures states[i + 1].sequential == states[i].sequential + Entries(env, items[i])
      ensures states[i + 1].unmatched == states[i].unmatched + LeftOver(env, items[i])
    {
      assert WritesAt(env, states[i], items[i], states[i + 1]);
      AfterIs(env, states[i], items[i], states[i + 1]);
    }
    Accumulates(seq(|items|, i requires 0 <= i < |items| => Entries(env, items[i])),
                seq(|states|, i requires 0 <= i < |states| => states[i].sequential));
    Accumulates(seq(|items|, i requires 0 <= i < |items| => LeftOver(env, items[i])),
                seq(|states|, i requires 0 <= i < |states| => states[i].unmatched));
  }

  /** Round trip: a command line written from items, whichever form each of them takes, is read back
      entry for entry, with just the arguments left over that no option takes. */
  lemma LogRoundTrip(env: Env, name: string, items: seq<Item>, states: seq<State>)
    requires WellFormed(env.options) && forall a :: env.split(a) == MatchArgument(a)
    requires Writes(env, Start(), items, states)
    ensures forall i | 0 <= i < |items| :: Named(env, items[i])
    ensures var argv, end := [name] + Line(items), states[|items|];
            Legal(env, Start()) && Head(env, Start(), argv, 1) == Good((end, |argv|, false))
            && end.sequential == Log(env, items) && end.unmatched == AllLeftOver(env, items)
  {
    var argv := [name] + Line(items);
    assert argv[1..1 + |Line(items)|] == Line(items);
    ItemsRead(env, argv, Start(), 1, items, states, |argv|, false);
    WrittenLog(env, Start(), items, states);
    assert [] + Log(env, items) == Log(env, items) && [] + AllLeftOver(env, items) == AllLeftOver(env, items);
  }

  // ----- a line for a log -----

  /** An entry that can be written as one argument. */
  predicate Printable(env: Env, e: KeyValue) {
    e.key in env.options && env.options[e.key].Essential() == e.key
    && env.accepts(env.options[e.key], e.value) && IsLine(e.value)
    && if |e.key| == 1 then IsAlnum(e.key[0]) && e.value != "" && !env.options[e.key].hasImplicit
       else IsLongName(e.key)
  }

  function Plain(e: KeyValue): Item {
    if |e.key| == 1 then Short("", Use(e.key, e.value), Attached) else Long(Use(e.key, e.value), Attached)
  }

  lemma PlainWrites(env: Env, log: seq<KeyValue>, i: nat)
    requires i < |log| && forall j | 0 <= j < |log| :: Printable(env, log[j])
    ensures WritesAt(env, State(log[..i], [], 0), Plain(log[i]), State(log[..i + 1], [], 0))
  {
    var e := log[i];
    assert log[..i] + [e] == log[..i + 1];
    if |e.key| == 1 {
      var s := Word("", Use(e.key, e.value), Attached);
      assert s == [e.key[0]] + e.value;
    }
  }

  /** Any log of entries that can be written is what some command line is read as. */
  lemma PrintedLog(env: Env, name: string, log: seq<KeyValue>)
    requires WellFormed(env.options) && forall a :: env.split(a) == MatchArgument(a)
    requires forall j | 0 <= j < |log| :: Printable(env, log[j])
    ensures var argv := [name] + Line(seq(|log|, j requires 0 <= j < |log| => Plain(log[j])));
            Legal(env, Start()) && Head(env, Start(), argv, 1) == Good((State(log, [], 0), |argv|, false))
  {
    var items := seq(|log|, j requires 0 <= j < |log| => Plain(log[j]));
    var states := seq(|log| + 1, j requires 0 <= j <= |log| => State(log[..j], [], 0));
    forall i | 0 <= i < |items|
      ensures WritesAt(env, states[i], items[i], states[i + 1])
    {
      PlainWrites(env, log, i);
    }
    assert log[..0] == [] && log[..|log|] == log;
    LogRoundTrip(env, name, items, states);
  }
}
