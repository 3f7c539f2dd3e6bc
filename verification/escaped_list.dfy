/** `escaped_list_separator`: fields with escapes and quotes between separators. */
module EscapedList {
  import opened TokenStep

  /** The characters that escape, separate and quote. */
  datatype Config = Config(escape: string, c: string, quote: string)

  /** The character an escape sequence stands for. */
  predicate CanEscape(cfg: Config, code: char) {
    code == 'n' || code in cfg.quote || code in cfg.c || code in cfg.escape
  }

  function EscapeMeaning(code: char): char { if code == 'n' then '\n' else code }

  /** A field read up to a separator (`ended` by it, and past it) or the end of the text. */
  datatype Scanned = Field(taken: nat, tok: string, ended: bool) | BadEscape

  function Prepend(taken: nat, tok: string, rest: Scanned): Scanned {
    match rest
    case BadEscape => BadEscape
    case Field(n, t, ended) => Field(taken + n, tok + t, ended)
  }

  function Scan(cfg: Config, s: string, inQuote: bool): (r: Scanned)
    ensures r.Field? ==> r.taken <= |s| && (s != "" ==> r.taken > 0)
    decreases |s|
  {
    if s == "" then Field(0, "", false)
    else if s[0] in cfg.escape then
      if |s| == 1 || !CanEscape(cfg, s[1]) then BadEscape
      else Prepend(2, [EscapeMeaning(s[1])], Scan(cfg, s[2..], inQuote))
    else if s[0] in cfg.c then
      if inQuote then Prepend(1, [s[0]], Scan(cfg, s[1..], inQuote)) else Field(1, "", true)
    else if s[0] in cfg.quote then Prepend(1, "", Scan(cfg, s[1..], !inQuote))
    else Prepend(1, [s[0]], Scan(cfg, s[1..], inQuote))
  }

  /** One call: its outcome and the new value of `last_`. */
  function Call(cfg: Config, last: bool, s: string): (Step, bool) {
    if s == "" then (if last then Token(0, "") else Stop(0), false)
    else
      match Scan(cfg, s, false)
      case BadEscape => (Throw, false)
      case Field(taken, tok, ended) => (Token(taken, tok), ended)
  }

  lemma PrependTwice(a: nat, x: string, b: nat, y: string, r: Scanned)
    ensures Prepend(a, x, Prepend(b, y, r)) == Prepend(a + b, x + y, r)
  {
  }

  /** Reading of a field begun at `start` has passed the characters before `next` and built `tok`. */
  ghost predicate Reading(cfg: Config, text: string, start: nat, next: nat, tok: string, inQuote: bool) {
    start <= next <= |text|
    && Scan(cfg, text[start..], false) == Prepend(next - start, tok, Scan(cfg, text[next..], inQuote))
  }

  /** One turn of the reading loop. */
  lemma ReadingTurn(cfg: Config, text: string, start: nat, next: nat, tok: string, inQuote: bool)
    requires Reading(cfg, text, start, next, tok, inQuote) && next < |text|
    ensures var ch := text[next];
            if ch in cfg.escape then
              if next + 1 == |text| || !CanEscape(cfg, text[next + 1]) then Scan(cfg, text[start..], false) == BadEscape
              else Reading(cfg, text, start, next + 2, tok + [EscapeMeaning(text[next + 1])], inQuote)
            else if ch in cfg.c && !inQuote then Scan(cfg, text[start..], false) == Field(next + 1 - start, tok, true)
            else if ch !in cfg.c && ch in cfg.quote then Reading(cfg, text, start, next + 1, tok, !inQuote)
            else Reading(cfg, text, start, next + 1, tok + [ch], inQuote)
  {
    var s, ch := text[next..], text[next];
    assert s[0] == ch && s[1..] == text[next + 1..];
    var n := next - start;
    if ch in cfg.escape {
      if next + 1 < |text| && CanEscape(cfg, text[next + 1]) {
        assert s[2..] == text[next + 2..] && s[1] == text[next + 1];
        PrependTwice(n, tok, 2, [EscapeMeaning(s[1])], Scan(cfg, s[2..], inQuote));
      }
    } else if ch in cfg.c && !inQuote {
      assert tok + "" == tok;
    } else if ch !in cfg.c && ch in cfg.quote {
      PrependTwice(n, tok, 1, "", Scan(cfg, s[1..], !inQuote));
      assert tok + "" == tok;
    } else {
      PrependTwice(n, tok, 1, [ch], Scan(cfg, s[1..], inQuote));
    }
  }

  lemma ReadingStart(cfg: Config, text: string, start: nat)
    requires start <= |text|
    ensures Reading(cfg, text, start, start, "", false)
  {
    var r := Scan(cfg, text[start..], false);
    assert r.Field? ==> "" + r.tok == r.tok;
  }

  lemma ReadingEnd(cfg: Config, text: string, start: nat, tok: string, inQuote: bool)
    requires Reading(cfg, text, start, |text|, tok, inQuote)
    ensures Scan(cfg, text[start..], false) == Field(|text| - start, tok, false)
  {
    assert text[|text|..] == "" && tok + "" == tok;
  }

  class EscapedListSeparator {
    const cfg: Config
    var last: bool

    constructor (cfg: Config, last: bool)
      ensures this.cfg == cfg && this.last == last
    {
      this.cfg, this.last := cfg, last;
    }

    method Reset()
      modifies this
      ensures !last
    {
      last := false;
    }

    /** `operator()`: `next` is advanced through the text while `tok` is built. */
    method Apply(text: string, start: nat) returns (step: Step)
      requires start <= |text|
      modifies this
      ensures (step, last) == Call(cfg, old(last), text[start..])
    {
      var inQuote := false;
      var tok := "";
      var next := start;
      if next == |text| {
        if last {
          last := false;
          return Token(0, "");
        }
        return Stop(0);
      }
      last := false;
      ReadingStart(cfg, text, start);
      while next != |text|
        invariant next <= |text| && !last && Reading(cfg, text, start, next, tok, inQuote)
        decreases |text| - next
      {
        var ch := text[next];
        ReadingTurn(cfg, text, start, next, tok, inQuote);
        if ch in cfg.escape {
          next := next + 1;
          if next == |text| || !CanEscape(cfg, text[next]) {
            return Throw;
          }
          tok := tok + [EscapeMeaning(text[next])];
        } else if ch in cfg.c {
          if !inQuote {
            next := next + 1;
            last := true;
            return Token(next - start, tok);
          }
          tok := tok + [ch];
        } else if ch in cfg.quote {
          inQuote := !inQuote;
        } else {
          tok := tok + [ch];
        }
        next := next + 1;
      }
      ReadingEnd(cfg, text, start, tok, inQuote);
      return Token(next - start, tok);
    }
  }
}
