/** `char_separator`: dropped and kept delimiter characters, with either empty-token policy. */
module CharSeparatorModel {
  import opened TokenStep

  datatype Config = Config(dropped: string, kept: string, useSpace: bool, usePunct: bool, keepEmpty: bool)

  /** `isspace` and `ispunct` in the "C" locale. */
  predicate IsSpace(ch: char) { ch == ' ' || 9 as char <= ch <= 13 as char }

  predicate IsPunct(ch: char) {
    33 as char <= ch <= 126 as char && !('0' <= ch <= '9') && !('A' <= ch <= 'Z') && !('a' <= ch <= 'z')
  }

  predicate IsKept(cfg: Config, ch: char) {
    if cfg.kept != "" then ch in cfg.kept else cfg.usePunct && IsPunct(ch)
  }

  predicate IsDropped(cfg: Config, ch: char) {
    if cfg.dropped != "" then ch in cfg.dropped else cfg.useSpace && IsSpace(ch)
  }

  predicate IsDelimiter(cfg: Config, ch: char) { IsKept(cfg, ch) || IsDropped(cfg, ch) }

  /** The length of the longest prefix without delimiters. */
  function PlainRun(cfg: Config, s: string): (n: nat)
    ensures n <= |s|
    ensures forall i | 0 <= i < n :: !IsDelimiter(cfg, s[i])
    ensures n < |s| ==> IsDelimiter(cfg, s[n])
  {
    if s == "" || IsDelimiter(cfg, s[0]) then 0 else 1 + PlainRun(cfg, s[1..])
  }

  /** The length of the longest prefix of dropped delimiters. */
  function DroppedRun(cfg: Config, s: string): (n: nat)
    ensures n <= |s|
    ensures forall i | 0 <= i < n :: IsDropped(cfg, s[i])
    ensures n < |s| ==> !IsDropped(cfg, s[n])
  {
    if s == "" || !IsDropped(cfg, s[0]) then 0 else 1 + DroppedRun(cfg, s[1..])
  }

  lemma PlainRunUnique(cfg: Config, s: string, n: nat)
    requires n <= |s| && forall i | 0 <= i < n :: !IsDelimiter(cfg, s[i])
    requires n < |s| ==> IsDelimiter(cfg, s[n])
    ensures PlainRun(cfg, s) == n
  {
  }

  lemma DroppedRunUnique(cfg: Config, s: string, n: nat)
    requires n <= |s| && forall i | 0 <= i < n :: IsDropped(cfg, s[i])
    requires n < |s| ==> !IsDropped(cfg, s[n])
    ensures DroppedRun(cfg, s) == n
  {
  }

  /** A call under `drop_empty_tokens`. */
  function CallDrop(cfg: Config, s: string): (step: Step)
    ensures step.Token? ==> 0 < step.taken <= |s|
    ensures !step.Throw?
  {
    var i := DroppedRun(cfg, s);
    if i == |s| then Stop(i)
    else if IsKept(cfg, s[i]) then Token(i + 1, [s[i]])
    else
      var n := PlainRun(cfg, s[i..]);
      Token(i + n, s[i..][..n])
  }

  /** A call under `keep_empty_tokens`: its outcome and the new value of `m_output_done`. */
  function CallKeep(cfg: Config, done: bool, s: string): (r: (Step, bool))
    ensures r.0.Token? ==> r.0.taken <= |s| && (r.0.taken > 0 || (!done && r.1))
    ensures !r.0.Throw?
  {
    if s == "" then (if done then Stop(0) else Token(0, ""), true)
    else if IsKept(cfg, s[0]) then
      if done then (Token(1, [s[0]]), false) else (Token(0, ""), true)
    else if !done && IsDropped(cfg, s[0]) then (Token(0, ""), true)
    else
      var i := if IsDropped(cfg, s[0]) then 1 else 0;
      var n := PlainRun(cfg, s[i..]);
      (Token(i + n, s[i..][..n]), true)
  }

  function Call(cfg: Config, done: bool, s: string): (Step, bool) {
    if cfg.keepEmpty then CallKeep(cfg, done, s) else (CallDrop(cfg, s), done)
  }

  /** The calls again, by positions in the whole text. */
  lemma DropAt(cfg: Config, text: string, start: nat, begin: nat)
    requires start <= begin <= |text| && begin == start + DroppedRun(cfg, text[start..])
    ensures begin == |text| ==> CallDrop(cfg, text[start..]) == Stop(begin - start)
    ensures begin < |text| && IsKept(cfg, text[begin]) ==>
      CallDrop(cfg, text[start..]) == Token(begin + 1 - start, [text[begin]])
    ensures begin < |text| && !IsKept(cfg, text[begin]) ==>
      var n := PlainRun(cfg, text[begin..]);
      CallDrop(cfg, text[start..]) == Token(begin + n - start, text[begin..][..n])
  {
    var s, i := text[start..], begin - start;
    assert s[i..] == text[begin..];
    assert begin < |text| ==> s[i] == text[begin];
  }

  lemma KeepAt(cfg: Config, done: bool, text: string, start: nat)
    requires start < |text| && !(IsKept(cfg, text[start]) || (!done && IsDropped(cfg, text[start])))
    ensures var begin := if IsDropped(cfg, text[start]) then start + 1 else start;
            var n := PlainRun(cfg, text[begin..]);
            CallKeep(cfg, done, text[start..]) == (Token(begin + n - start, text[begin..][..n]), true)
  {
    var s, i := text[start..], if IsDropped(cfg, text[start]) then 1 else 0;
    assert s[i..] == text[start + i..];
  }

  class CharSeparator {
    const cfg: Config
    var outputDone: bool

    constructor (cfg: Config, outputDone: bool)
      ensures this.cfg == cfg && this.outputDone == outputDone
    {
      this.cfg, this.outputDone := cfg, outputDone;
    }

    /** `reset` does nothing: `m_output_done` keeps its value. */
    method Reset() {
    }

    /** The loop that passes dropped delimiters. */
    method PassDropped(text: string, start: nat) returns (next: nat)
      requires start <= |text|
      ensures next == start + DroppedRun(cfg, text[start..])
    {
      next := start;
      while next != |text| && IsDropped(cfg, text[next])
        invariant start <= next <= |text|
        invariant forall i | 0 <= i < next - start :: IsDropped(cfg, text[start..][i])
        decreases |text| - next
      {
        next := next + 1;
      }
      DroppedRunUnique(cfg, text[start..], next - start);
    }

    /** The loop that passes characters up to a delimiter, with the token it leaves: appended one by
        one on an input iterator, assigned from the range on any other. */
    method PassPlain(text: string, start: nat, assigns: bool, held: string) returns (next: nat, tok: string)
      requires start <= |text|
      requires !assigns ==> held == ""
      ensures next == start + PlainRun(cfg, text[start..])
      ensures tok == text[start..next] == text[start..][..PlainRun(cfg, text[start..])]
    {
      next, tok := start, held;
      while next != |text| && !IsDropped(cfg, text[next]) && !IsKept(cfg, text[next])
        invariant start <= next <= |text|
        invariant forall i | 0 <= i < next - start :: !IsDelimiter(cfg, text[start..][i])
        invariant tok == if assigns then held else text[start..next]
        decreases |text| - next
      {
        if !assigns {
          tok := tok + [text[next]];
        }
        next := next + 1;
      }
      if assigns {
        tok := text[start..next];
      }
      PlainRunUnique(cfg, text[start..], next - start);
    }

    /** `operator()`. On an input iterator (`assigns` false) the token is cleared and built by
        appending; on any other (`assigns` true) it is assigned once from the range passed. `held` is
        what the token variable held before. A token returned is the same either way. */
    method Apply(text: string, start: nat, assigns: bool, held: string) returns (step: Step)
      requires start <= |text|
      modifies this
      ensures (step, outputDone) == Call(cfg, old(outputDone), text[start..])
    {
      var tok := if assigns then held else "";
      if cfg.keepEmpty {
        step := ApplyKeep(text, start, assigns, tok);
      } else {
        step := ApplyDrop(text, start, assigns, tok);
      }
    }

    /** `operator()` under `drop_empty_tokens`. */
    method ApplyDrop(text: string, start: nat, assigns: bool, held: string) returns (step: Step)
      requires start <= |text| && (!assigns ==> held == "")
      ensures step == CallDrop(cfg, text[start..])
    {
      var next := PassDropped(text, start);
      var begin, tok := next, held;
      DropAt(cfg, text, start, begin);
      if next == |text| {
        return Stop(next - start);
      }
      if IsKept(cfg, text[next]) {
        if !assigns {
          tok := tok + [text[next]];
        }
        next := next + 1;
        if assigns {
          tok := text[begin..next];
        }
      } else {
        next, tok := PassPlain(text, next, assigns, tok);
      }
      return Token(next - start, tok);
    }

    /** `operator()` under `keep_empty_tokens`. */
    method ApplyKeep(text: string, start: nat, assigns: bool, held: string) returns (step: Step)
      requires start <= |text| && (!assigns ==> held == "")
      modifies this
      ensures (step, outputDone) == CallKeep(cfg, old(outputDone), text[start..])
    {
      var next, begin, tok := start, start, held;
      assert text[start..start] == "";
      assert start < |text| ==> text[start..start + 1] == "" + [text[start]] == [text[start]];
      if next == |text| {
        assert text[begin..next] == text[start..] == "";
        if !outputDone {
          outputDone := true;
          tok := if assigns then text[begin..next] else tok;
          return Token(0, tok);
        }
        return Stop(0);
      }
      if IsKept(cfg, text[next]) {
        if !outputDone {
          outputDone := true;
        } else {
          tok := if assigns then tok else tok + [text[next]];
          next := next + 1;
          outputDone := false;
        }
        tok := if assigns then text[begin..next] else tok;
      } else if !outputDone && IsDropped(cfg, text[next]) {
        outputDone := true;
        tok := if assigns then text[begin..next] else tok;
      } else {
        KeepAt(cfg, outputDone, text, start);
        if IsDropped(cfg, text[next]) {
          next := next + 1;
          begin := next;
        }
        next, tok := PassPlain(text, next, assigns, tok);
        outputDone := true;
      }
      return Token(next - start, tok);
    }
  }
}
