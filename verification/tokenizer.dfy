/** `token_iterator`: the driver that turns a tokenizer function into a run of tokens. */
module Tokenizer {
  import opened TokenStep
  import EscapedList
  import CharSeparatorModel
  import OffsetSeparatorModel

  /** A tokenizer function as the iterator holds it, by value: configuration and state. */
  datatype Functor =
    | Escaped(ecfg: EscapedList.Config, last: bool)
    | Chars(ccfg: CharSeparatorModel.Config, outputDone: bool)
    | Offsets(ocfg: OffsetSeparatorModel.Config, current: nat)
  {
    predicate Valid() { Offsets? ==> OffsetSeparatorModel.Valid(ocfg, current) }
  }

  function Call(f: Functor, s: string): (Step, Functor)
    requires f.Valid()
  {
    match f
    case Escaped(cfg, last) =>
      var (step, last') := EscapedList.Call(cfg, last, s);
      (step, Escaped(cfg, last'))
    case Chars(cfg, done) =>
      var (step, done') := CharSeparatorModel.Call(cfg, done, s);
      (step, Chars(cfg, done'))
    case Offsets(cfg, current) =>
      var (step, current') := OffsetSeparatorModel.Call(cfg, current, s);
      (step, Offsets(cfg, current'))
  }

  function Reset(f: Functor): Functor {
    match f
    case Escaped(cfg, _) => Escaped(cfg, false)
    case Chars(_, _) => f
    case Offsets(cfg, _) => Offsets(cfg, 0)
  }

  // ----- why runs end -----

  /** The first positive offset from index `i` on, or the number of offsets. */
  function NextPositive(offsets: seq<int>, i: nat): (j: nat)
    requires i <= |offsets|
    ensures i <= j <= |offsets|
    ensures j < |offsets| ==> offsets[j] > 0
    ensures forall x | i <= x < j :: offsets[x] <= 0
    decreases |offsets| - i
  {
    if i == |offsets| || offsets[i] > 0 then i else NextPositive(offsets, i + 1)
  }

  /** How many calls pass nothing before the next one that passes a character, wrapping around. */
  function Idle(offsets: seq<int>, current: nat): nat
    requires current <= |offsets|
  {
    var j := NextPositive(offsets, current);
    if j < |offsets| then j - current else |offsets| - current + NextPositive(offsets, 0)
  }

  /** A functor whose runs end: an offset separator that wraps needs a positive offset. */
  predicate Productive(f: Functor) {
    f.Valid() && (f.Offsets? && f.ocfg.wrap ==> exists i | 0 <= i < |f.ocfg.offsets| :: f.ocfg.offsets[i] > 0)
  }

  /** Falls at every token. */
  function Measure(f: Functor, s: string): nat
    requires f.Valid()
  {
    match f
    case Escaped(_, last) => 2 * |s| + if last then 1 else 0
    case Chars(_, done) => 2 * |s| + if done then 0 else 1
    case Offsets(cfg, current) =>
      if cfg.wrap then |s| * (|cfg.offsets| + 1) + Idle(cfg.offsets, current) else |cfg.offsets| - current
  }

  lemma ScaleDown(a: nat, b: nat, m: nat)
    requires a < b
    ensures a * m + m <= b * m
  {
    assert (a + 1) * m <= b * m;
  }

  lemma OffsetsFall(cfg: OffsetSeparatorModel.Config, current: nat, s: string)
    requires OffsetSeparatorModel.Valid(cfg, current) && cfg.wrap
    requires exists i | 0 <= i < |cfg.offsets| :: cfg.offsets[i] > 0
    requires OffsetSeparatorModel.Call(cfg, current, s).0.Token?
    ensures var (step, current') := OffsetSeparatorModel.Call(cfg, current, s);
            step.taken <= |s| && current' <= |cfg.offsets|
            && Measure(Offsets(cfg, current'), s[step.taken..]) < Measure(Offsets(cfg, current), s)
  {
    var (step, current') := OffsetSeparatorModel.Call(cfg, current, s);
    var n := |cfg.offsets|;
    if step.taken > 0 {
      ScaleDown(|s| - step.taken, |s|, n + 1);
      var k :| 0 <= k < n && cfg.offsets[k] > 0;
      assert NextPositive(cfg.offsets, 0) < n;
    }
  }

  /** Every token of a productive functor lies within the text ahead and lowers the measure. */
  lemma CallFalls(f: Functor, s: string)
    requires Productive(f) && Call(f, s).0.Token?
    ensures var (step, f') := Call(f, s);
            step.taken <= |s| && Productive(f') && Measure(f', s[step.taken..]) < Measure(f, s)
  {
    match f
    case Escaped(cfg, last) =>
    case Chars(cfg, done) =>
    case Offsets(cfg, current) =>
      if cfg.wrap {
        OffsetsFall(cfg, current, s);
      }
  }

  /** `n` calls in a row, as long as they yield tokens. */
  function Calls(f: Functor, s: string, n: nat): (tokens: seq<string>)
    requires f.Valid()
    decreases n
  {
    if n == 0 then [] else
    match Call(f, s)
    case (Token(taken, tok), f') =>
      if taken <= |s| && f'.Valid() then [tok] + Calls(f', s[taken..], n - 1) else []
    case _ => []
  }

  /** Otherwise, on a text that is not empty, calls yield empty tokens for ever. */
  lemma {:induction false} Unproductive(f: Functor, s: string, n: nat)
    requires f.Valid() && !Productive(f) && s != ""
    ensures Calls(f, s, n) == seq(n, i => "")
    decreases n
  {
    if n == 0 {
    } else {
      var (step, f') := Call(f, s);
      assert step == Token(0, "") && s[0..] == s;
      Unproductive(f', s, n - 1);
    }
  }

  /** One offset of zero that wraps around, on any text that is not empty. */
  lemma ZeroOffset(s: string, n: nat)
    requires s != ""
    ensures Calls(Offsets(OffsetSeparatorModel.Config([0], true, true), 0), s, n) == seq(n, i => "")
  {
    var f := Offsets(OffsetSeparatorModel.Config([0], true, true), 0);
    assert f.ocfg.offsets[0] == 0;
    assert !Productive(f);
    Unproductive(f, s, n);
  }

  // ----- runs -----

  datatype Run = Finished(tokens: seq<string>) | Threw(tokens: seq<string>)

  function Cons(tok: string, run: Run): Run {
    run.(tokens := [tok] + run.tokens)
  }

  /** The tokens from here on. */
  function Drain(f: Functor, s: string): Run
    requires Productive(f)
    decreases Measure(f, s)
  {
    match Call(f, s)
    case (Token(taken, tok), f') => CallFalls(f, s); Cons(tok, Drain(f', s[taken..]))
    case (Stop(_), _) => Finished([])
    case (Throw, _) => Threw([])
  }

  /** The functor as a run leaves it. */
  function Spent(f: Functor, s: string): (f': Functor)
    requires Productive(f)
    ensures Productive(f')
    decreases Measure(f, s)
  {
    match Call(f, s)
    case (Token(taken, _), next) => CallFalls(f, s); Spent(next, s[taken..])
    case (_, next) => next
  }

  /** The tokens of a whole text: an iterator over no characters is at the end at once. */
  function Tokens(f: Functor, text: string): Run
    requires Productive(f)
  {
    if text == "" then Finished([]) else Drain(Reset(f), text)
  }

  /** Runs the separator object's `operator()` on a copy of the functor. */
  method Invoke(f: Functor, text: string, begin: nat, assigns: bool, held: string) returns (step: Step, f': Functor)
    requires f.Valid() && begin <= |text|
    ensures f'.Valid() && (step, f') == Call(f, text[begin..])
  {
    match f
    case Escaped(cfg, last) =>
      var separator := new EscapedList.EscapedListSeparator(cfg, last);
      step := separator.Apply(text, begin);
      f' := Escaped(cfg, separator.last);
    case Chars(cfg, done) =>
      var separator := new CharSeparatorModel.CharSeparator(cfg, done);
      step := separator.Apply(text, begin, assigns, held);
      f' := Chars(cfg, separator.outputDone);
    case Offsets(cfg, current) =>
      var separator := new OffsetSeparatorModel.OffsetSeparator(cfg, current);
      step := separator.Apply(text, begin, assigns, held);
      f' := Offsets(cfg, separator.current);
  }

  /** Runs the separator object's `reset` on a copy of the functor. */
  method Restart(f: Functor) returns (f': Functor)
    requires f.Valid()
    ensures f' == Reset(f)
  {
    match f
    case Escaped(cfg, last) =>
      var separator := new EscapedList.EscapedListSeparator(cfg, last);
      separator.Reset();
      f' := Escaped(cfg, separator.last);
    case Chars(cfg, done) =>
      var separator := new CharSeparatorModel.CharSeparator(cfg, done);
      separator.Reset();
      f' := Chars(cfg, separator.outputDone);
    case Offsets(cfg, current) =>
      var separator := new OffsetSeparatorModel.OffsetSeparator(cfg, current);
      separator.Reset();
      f' := Offsets(cfg, separator.current);
  }

  lemma StepBound(f: Functor, s: string)
    requires f.Valid()
    ensures var (step, _) := Call(f, s); !step.Throw? ==> step.taken <= |s|
  {
  }

  class TokenIterator {
    const text: string
    const assigns: bool  // false for an input iterator
    var f: Functor
    var begin: nat
    var valid: bool
    var tok: string

    /** The tokens still to come, the current one included. */
    ghost function Ahead(): Run
      requires Valid()
      reads this
    {
      if valid then Cons(tok, Drain(f, text[begin..])) else Finished([])
    }

    ghost predicate Valid()
      reads this
    {
      begin <= |text| && Productive(f)
    }

    constructor (f: Functor, text: string, assigns: bool)
      requires Productive(f)
      ensures Valid() && this.text == text && this.assigns == assigns
      ensures !valid && begin == 0 && this.f == f
    {
      this.text, this.assigns := text, assigns;
      this.f, begin, valid, tok := f, 0, false, "";
    }

    /** `initialize`; `threw` tells that the separator threw. */
    method Initialize() returns (threw: bool)
      requires Valid() && !valid && begin == 0
      modifies this
      ensures Valid()
      ensures threw ==> Tokens(old(f), text) == Threw([])
      ensures !threw ==> Tokens(old(f), text) == Ahead()
    {
      threw := false;
      assert text[0..] == text;
      f := Restart(f);
      if begin != |text| {
        threw := Advance();
      }
    }

    /** `increment`. */
    method Increment() returns (threw: bool)
      requires Valid() && valid
      modifies this
      ensures Valid()
      ensures threw ==> old(Ahead()) == Threw([old(tok)])
      ensures !threw ==> old(Ahead()) == Cons(old(tok), Ahead())
      ensures !threw && valid ==> Measure(f, text[begin..]) < Measure(old(f), text[old(begin)..])
    {
      threw := Advance();
    }

    method Advance() returns (threw: bool)
      requires Valid()
      modifies this
      ensures Valid()
      ensures threw ==> Drain(old(f), text[old(begin)..]) == Threw([])
      ensures !threw ==> Drain(old(f), text[old(begin)..]) == Ahead()
      ensures !threw && valid ==>
        Measure(f, text[begin..]) < Measure(old(f), text[old(begin)..])
    {
      var step, next := Invoke(f, text, begin, assigns, tok);
      ghost var s := text[begin..];
      StepBound(f, s);
      match step
      case Throw =>
        threw := true;
      case Stop(taken) =>
        StopKeepsProductive(f, s);
        f, begin, valid, threw := next, begin + taken, false, false;
      case Token(taken, t) =>
        CallFalls(f, s);
        assert s[taken..] == text[begin + taken..];
        f, begin, tok, valid, threw := next, begin + taken, t, true, false;
    }
  }

  lemma StopKeepsProductive(f: Functor, s: string)
    requires Productive(f) && Call(f, s).0.Stop?
    ensures Productive(Call(f, s).1)
  {
  }

  /** A run with tokens already collected put before it. */
  function After(tokens: seq<string>, run: Run): Run {
    run.(tokens := tokens + run.tokens)
  }

  lemma AfterCons(tokens: seq<string>, tok: string, run: Run)
    ensures After(tokens, Cons(tok, run)) == After(tokens + [tok], run)
    ensures After([], run) == run
  {
    assert tokens + ([tok] + run.tokens) == (tokens + [tok]) + run.tokens;
    assert [] + run.tokens == run.tokens;
  }

  /** Iterating from begin to end collects exactly the tokens of the text. */
  method Collect(f: Functor, text: string, assigns: bool) returns (run: Run)
    requires Productive(f)
    ensures run == Tokens(f, text)
  {
    var it := new TokenIterator(f, text, assigns);
    var tokens := [];
    ghost var all := Tokens(f, text);
    var threw := it.Initialize();
    if threw {
      return Threw([]);
    }
    AfterCons([], "", it.Ahead());
    while it.valid
      invariant it.Valid() && fresh(it) && it.text == text
      invariant all == After(tokens, it.Ahead())
      decreases it.valid, if it.valid then Measure(it.f, text[it.begin..]) else 0
    {
      ghost var before := tokens;
      tokens := tokens + [it.tok];
      AfterCons(before, it.tok, Threw([]));
      threw := it.Increment();
      if threw {
        return Threw(tokens);
      }
      AfterCons(before, tokens[|before|], it.Ahead());
    }
    run := Finished(tokens);
  }
}
