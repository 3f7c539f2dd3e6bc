/** What becomes of each argument: positionals, the arguments after "--", and why parsing fails. */
module OptionFlow {
  import opened Wrappers
  import opened OptionParsing
  import opened OptionLaws
  import opened OptionLines

  // ----- positionals -----

  /** A positional is passed over: an option already given that takes one value only. */
  predicate IsSpent(env: Env, sequential: seq<KeyValue>, i: nat)
    requires i < |env.positional| && Known(env.options, sequential)
  {
    env.positional[i] in env.options
    && var d := env.options[env.positional[i]];
       !d.isContainer && Tally(env.options, sequential, d.Hash()) > 0
  }

  /** The target is the first positional that is not passed over. */
  lemma {:induction false} TargetIsFirst(env: Env, sequential: seq<KeyValue>, next: nat, i: nat)
    requires Known(env.options, sequential) && next <= i <= |env.positional|
    ensures Target(env, sequential, next) == i
            <==> (i < |env.positional| ==> !IsSpent(env, sequential, i))
                 && forall j | next <= j < i :: IsSpent(env, sequential, j)
    decreases |env.positional| - next
  {
    if next == |env.positional| {
    } else if Takes(env, sequential, next) {
      assert !IsSpent(env, sequential, next);
    } else if next < i {
      assert IsSpent(env, sequential, next);
      TargetIsFirst(env, sequential, next + 1, i);
    }
  }

  /** A bare argument goes to the first positional not passed over. That is never an option that takes
      one value and has it. */
  lemma PositionalTakes(env: Env, st: State, a: string, i: nat)
    requires Known(env.options, st.sequential) && st.next <= i < |env.positional|
    requires !IsSpent(env, st.sequential, i) && forall j | st.next <= j < i :: IsSpent(env, st.sequential, j)
    ensures var name := env.positional[i];
            if name !in env.options then Positional(env, st, a) == Bad(NoSuchOption)
            else if !env.accepts(env.options[name], a) then Positional(env, st, a) == Bad(BadArgument)
            else
              var d := env.options[name];
              (d.isContainer || Tally(env.options, st.sequential, d.Hash()) == 0)
              && Positional(env, st, a)
                 == Good((State(st.sequential + [KeyValue(d.Essential(), a)], st.unmatched,
                                if d.isContainer then i else i + 1), true))
  {
    TargetIsFirst(env, st.sequential, st.next, i);
  }

  /** It is left over exactly when all of them are passed over. */
  lemma PositionalLeaves(env: Env, st: State, a: string, st': State)
    requires Known(env.options, st.sequential) && st.next <= |env.positional|
    ensures Positional(env, st, a) == Good((st', false))
            <==> (forall j | st.next <= j < |env.positional| :: IsSpent(env, st.sequential, j))
                 && st' == st.(next := |env.positional|)
  {
    TargetIsFirst(env, st.sequential, st.next, |env.positional|);
  }

  // ----- after "--" -----

  function Values(entries: seq<KeyValue>): seq<string> {
    seq(|entries|, i requires 0 <= i < |entries| => entries[i].value)
  }

  /** What a run has added to the log and to the arguments left over. */
  ghost predicate Extends(st: State, end: State, entries: seq<KeyValue>, left: seq<string>) {
    end.sequential == st.sequential + entries && end.unmatched == st.unmatched + left
  }

  lemma ExtendsMore(st: State, next: State, end: State, e: KeyValue, entries: seq<KeyValue>, left: seq<string>)
    requires next.sequential == st.sequential + [e] && next.unmatched == st.unmatched
    requires Extends(next, end, entries, left)
    ensures Extends(st, end, [e] + entries, left) && Values([e] + entries) == [e.value] + Values(entries)
  {
  }

  /** Conservation: the arguments after "--" are, in order, the values of the new entries and then the
      arguments left over, of which there are none unless every positional is passed over. */
  lemma {:induction false} RestConserves(env: Env, st: State, argv: seq<string>, current: nat)
    returns (entries: seq<KeyValue>, left: seq<string>)
    requires Legal(env, st) && current <= |argv| && Rest(env, st, argv, current).Good?
    ensures var end := Rest(env, st, argv, current).value;
            Extends(st, end, entries, left) && Values(entries) + left == argv[current..]
            && Legal(env, end)
            && (left != [] ==> end.next == |env.positional|)
    decreases |argv| - current
  {
    if current == |argv| {
      entries, left := [], [];
    } else {
      PositionalLegal(env, st, argv[current]);
      var (st', taken) := Positional(env, st, argv[current]).value;
      if taken {
        var e := st'.sequential[|st.sequential|];
        entries, left := RestConserves(env, st', argv, current + 1);
        ExtendsMore(st, st', Rest(env, st, argv, current).value, e, entries, left);
        RestValues(argv, current, entries, left);
        entries := [e] + entries;
      } else {
        entries, left := [], argv[current..];
      }
    }
  }

  lemma RestValues(argv: seq<string>, current: nat, entries: seq<KeyValue>, left: seq<string>)
    requires current < |argv| && Values(entries) + left == argv[current + 1..]
    ensures [argv[current]] + Values(entries) + left == argv[current..]
  {
    assert argv[current..] == [argv[current]] + argv[current + 1..];
  }

  /** At most one, or as many as there were. */
  function AtMost(once: nat, before: nat): nat { if before < once then once else before }

  /** Once given, an option that takes one value is not given again by an argument after "--". */
  lemma {:induction false} RestGivesOnce(env: Env, st: State, argv: seq<string>, current: nat, name: string)
    requires Legal(env, st) && NoCollision(env.options) && current <= |argv| && Rest(env, st, argv, current).Good?
    requires name in env.options && !env.options[name].isContainer
    ensures Legal(env, Rest(env, st, argv, current).value)
    ensures var h := env.options[name].Hash();
            Tally(env.options, Rest(env, st, argv, current).value.sequential, h)
            <= AtMost(1, Tally(env.options, st.sequential, h))
    decreases |argv| - current
  {
    if current == |argv| {
    } else {
      PositionalLegal(env, st, argv[current]);
      var (st', taken) := Positional(env, st, argv[current]).value;
      if taken {
        PositionalOnce(env, st, argv[current], name);
        RestGivesOnce(env, st', argv, current + 1, name);
      }
    }
  }

  lemma PositionalOnce(env: Env, st: State, a: string, name: string)
    requires Legal(env, st) && NoCollision(env.options)
    requires name in env.options && !env.options[name].isContainer
    requires Positional(env, st, a).Good? && Positional(env, st, a).value.1
    ensures Legal(env, Positional(env, st, a).value.0)
    ensures var h := env.options[name].Hash();
            Tally(env.options, Positional(env, st, a).value.0.sequential, h)
            <= AtMost(1, Tally(env.options, st.sequential, h))
  {
    var d := env.options[env.positional[Target(env, st.sequential, st.next)]];
    EssentialRegistered(env.options, env.positional[Target(env, st.sequential, st.next)]);
    TallyAppend(env.options, st.sequential, KeyValue(d.Essential(), a), env.options[name].Hash());
    PositionalLegal(env, st, a);
  }

  // ----- failures -----

  /** Why an argument cannot be read. */
  ghost predicate Because(env: Env, argv: seq<string>, current: nat, f: Failure)
    requires current < |argv|
  {
    var a := argv[current];
    match f
    case InvalidSyntax => MatchArgument(a).None? && |a| >= 2 && a[0] == '-' && !env.allowUnrecognised
    case NoSuchOption =>
      (MatchArgument(a).None? && exists i :: 0 <= i < |env.positional| && env.positional[i] !in env.options)
      || (MatchArgument(a).Some? && !env.allowUnrecognised
          && var desc := MatchArgument(a).value;
             if desc.grouping then exists i :: 0 <= i < |desc.argName| && [desc.argName[i]] !in env.options
             else desc.argName !in env.options)
    case MissingArgument =>
      current + 1 == |argv| && MatchArgument(a).Some? && !MatchArgument(a).value.setValue
      && exists name :: name in env.options && !env.options[name].hasImplicit
    case BadArgument => exists name, v :: name in env.options && !env.accepts(env.options[name], v)
  }

  lemma CheckedFails(env: Env, st: State, argv: seq<string>, current: nat, name: string)
    requires current < |argv| && name in env.options && Checked(env, st, argv, current, env.options[name]).Bad?
    ensures match Checked(env, st, argv, current, env.options[name]).failure
            case MissingArgument => current + 1 == |argv| && !env.options[name].hasImplicit
            case BadArgument => exists v :: !env.accepts(env.options[name], v)
            case _ => false
  {
    var d := env.options[name];
    if d.hasImplicit {
      assert !env.accepts(d, d.implicitValue);
    } else if current + 1 < |argv| {
      assert !env.accepts(d, argv[current + 1]);
    }
  }

  lemma {:induction false} GroupFails(env: Env, st: State, argv: seq<string>, current: nat, s: string, i: nat)
    requires current < |argv| && i <= |s| && Group(env, st, argv, current, s, i).Bad?
    ensures match Group(env, st, argv, current, s, i).failure
            case NoSuchOption => !env.allowUnrecognised && exists j :: 0 <= j < |s| && [s[j]] !in env.options
            case MissingArgument =>
              current + 1 == |argv| && exists name :: name in env.options && !env.options[name].hasImplicit
            case BadArgument => exists name, v :: name in env.options && !env.accepts(env.options[name], v)
            case _ => false
    decreases |s| - i
  {
    var name := [s[i]];
    if name !in env.options {
      if env.allowUnrecognised {
        GroupFails(env, AfterLetter(env, st, s[i]), argv, current, s, i + 1);
      }
    } else if i + 1 == |s| {
      CheckedFails(env, st, argv, current, name);
    } else if env.options[name].hasImplicit && env.accepts(env.options[name], env.options[name].implicitValue) {
      GroupFails(env, AfterLetter(env, st, s[i]), argv, current, s, i + 1);
    } else {
      assert exists v :: !env.accepts(env.options[name], v);
    }
  }

  /** Each failure has its reason in the argument that it is reported for. */
  lemma OneFails(env: Env, st: State, argv: seq<string>, current: nat)
    requires Legal(env, st) && current < |argv| && env.split(argv[current]) == MatchArgument(argv[current])
    requires One(env, st, argv, current).Bad?
    ensures Because(env, argv, current, One(env, st, argv, current).failure)
  {
    var matched := MatchArgument(argv[current]);
    if matched.None? {
      var i := Target(env, st.sequential, st.next);
      if One(env, st, argv, current).failure == BadArgument {
        assert !env.accepts(env.options[env.positional[i]], argv[current]);
      }
    } else if matched.value.grouping {
      GroupFails(env, st, argv, current, matched.value.argName, 0);
    } else {
      MatchedLong(argv[current]);
      if matched.value.argName in env.options && !matched.value.setValue {
        CheckedFails(env, st, argv, current, matched.value.argName);
      }
    }
  }

  /** A run that fails has read items up to an argument that cannot be read, for a reason of its own. */
  lemma {:induction false} HeadFails(env: Env, argv: seq<string>, st: State, current: nat)
    returns (states: seq<State>, places: seq<nat>)
    requires Legal(env, st) && current <= |argv| && Head(env, st, argv, current).Bad?
    requires forall a :: env.split(a) == MatchArgument(a)
    ensures IsTrace(env, argv, states, places) && states[0] == st && places[0] == current
    ensures var n := |states| - 1;
            places[n] < |argv| && argv[places[n]] != "--" && Legal(env, states[n])
            && One(env, states[n], argv, places[n]) == Bad(Head(env, st, argv, current).failure)
            && Because(env, argv, places[n], Head(env, st, argv, current).failure)
    decreases |argv| - current
  {
    var r := One(env, st, argv, current);
    if r.Bad? {
      OneFails(env, st, argv, current);
      states, places := [st], [current];
    } else {
      TurnHead(env, argv, st, current, r.value.0, r.value.1);
      var states', places' := HeadFails(env, argv, r.value.0, r.value.1);
      TraceCons(env, argv, st, current, states', places');
      states, places := [st] + states', [current] + places';
    }
  }
}
