/** `offset_separator`: tokens of given lengths, one after another. */
module OffsetSeparatorModel {
  import opened TokenStep

  datatype Config = Config(offsets: seq<int>, wrap: bool, partial: bool)

  /** The constructor leaves at least one offset, as `operator()` asserts, and the index stays in range. */
  predicate Valid(cfg: Config, current: nat) { cfg.offsets != [] && current <= |cfg.offsets| }

  /** How many characters an offset passes in a text of length `n`. */
  function Passed(c: int, n: nat): nat { if c <= 0 then 0 else if c < n then c else n }

  /** A call: its outcome and the new value of `current_offset_`. */
  function Call(cfg: Config, current: nat, s: string): (Step, nat)
    requires Valid(cfg, current)
  {
    if s == "" then (Stop(0), current)
    else if current == |cfg.offsets| && !cfg.wrap then (Stop(0), current)
    else
      var at := if current == |cfg.offsets| then 0 else current;
      var c := cfg.offsets[at];
      var n := Passed(c, |s|);
      if !cfg.partial && n < c - 1 then (Stop(n), at) else (Token(n, s[..n]), at + 1)
  }

  /** Refusing partial tokens is off by one: a call that comes out short of its offset still returns
      what it has exactly when partial tokens are allowed or just one character is missing. */
  lemma PartialReturned(cfg: Config, current: nat, s: string)
    requires Valid(cfg, current) && s != "" && (current < |cfg.offsets| || cfg.wrap)
    requires |s| < cfg.offsets[if current == |cfg.offsets| then 0 else current]
    ensures Call(cfg, current, s).0.Token?
            <==> cfg.partial || |s| == cfg.offsets[if current == |cfg.offsets| then 0 else current] - 1
  {
  }

  /** Two characters for an offset of three, with partial tokens refused. */
  lemma PartialSlips()
    ensures Call(Config([3], false, false), 0, "ab") == (Token(2, "ab"), 1)
  {
    var s := "ab";
    assert s[..2] == s;
  }

  class OffsetSeparator {
    const cfg: Config
    var current: nat

    constructor (cfg: Config, current: nat)
      requires Valid(cfg, current)
      ensures this.cfg == cfg && this.current == current
    {
      this.cfg, this.current := cfg, current;
    }

    method Reset()
      modifies this
      ensures current == 0
    {
      current := 0;
    }

    /** `operator()`; `assigns` and `held` as for `CharSeparator.Apply`. */
    method Apply(text: string, start: nat, assigns: bool, held: string) returns (step: Step)
      requires start <= |text| && Valid(cfg, current)
      modifies this
      ensures Valid(cfg, current)
      ensures (step, current) == Call(cfg, old(current), text[start..])
    {
      var tok := if assigns then held else "";
      var next := start;
      if next == |text| {
        return Stop(0);
      }
      if current == |cfg.offsets| {
        if cfg.wrap {
          current := 0;
        } else {
          return Stop(0);
        }
      }
      var c := cfg.offsets[current];
      var i := 0;
      while i < c
        invariant 0 <= i && (i <= c || i == 0) && next == start + i <= |text|
        invariant tok == if assigns then held else text[start..next]
        decreases c - i
      {
        if next == |text| {
          break;
        }
        if !assigns {
          tok := tok + [text[next]];
        }
        next := next + 1;
        i := i + 1;
      }
      if assigns {
        tok := text[start..next];
      }
      assert tok == text[start..][..i];
      if !cfg.partial {
        if i < c - 1 {
          return Stop(i);
        }
      }
      current := current + 1;
      return Token(i, tok);
    }
  }
}
