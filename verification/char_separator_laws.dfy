/** Whole runs of `char_separator`. */
module CharSeparatorLaws {
  import opened Wrappers
  import opened TokenStep
  import opened CharSeparatorModel
  import opened Tokenizer

  /** A delimiter that is dropped under `keep_empty_tokens`, where kept delimiters are tried first. */
  predicate Vanishes(cfg: Config, ch: char) { IsDropped(cfg, ch) && !IsKept(cfg, ch) }

  function CountKept(cfg: Config, s: string): nat {
    if s == "" then 0 else (if IsKept(cfg, s[0]) then 1 else 0) + CountKept(cfg, s[1..])
  }

  function CountVanishing(cfg: Config, s: string): nat {
    if s == "" then 0 else (if Vanishes(cfg, s[0]) then 1 else 0) + CountVanishing(cfg, s[1..])
  }

  function WithoutVanishing(cfg: Config, s: string): string {
    if s == "" then "" else (if Vanishes(cfg, s[0]) then "" else [s[0]]) + WithoutVanishing(cfg, s[1..])
  }

  function WithoutDropped(cfg: Config, s: string): string {
    if s == "" then "" else (if IsDropped(cfg, s[0]) then "" else [s[0]]) + WithoutDropped(cfg, s[1..])
  }

  /** A run of plain characters counts nothing and loses nothing. */
  lemma {:induction false} PlainPrefix(cfg: Config, s: string, n: nat)
    requires n <= |s| && forall i | 0 <= i < n :: !IsDelimiter(cfg, s[i])
    ensures CountKept(cfg, s) == CountKept(cfg, s[n..])
    ensures CountVanishing(cfg, s) == CountVanishing(cfg, s[n..])
    ensures WithoutVanishing(cfg, s) == s[..n] + WithoutVanishing(cfg, s[n..])
    ensures WithoutDropped(cfg, s) == s[..n] + WithoutDropped(cfg, s[n..])
  {
    if n == 0 {
      assert s[0..] == s;
    } else {
      PlainPrefix(cfg, s[1..], n - 1);
      assert s[1..][n - 1..] == s[n..];
      assert [s[0]] + s[1..][..n - 1] == s[..n];
    }
  }

  lemma {:induction false} DroppedPrefix(cfg: Config, s: string, n: nat)
    requires n <= |s| && forall i | 0 <= i < n :: IsDropped(cfg, s[i])
    ensures WithoutDropped(cfg, s) == WithoutDropped(cfg, s[n..])
  {
    if n == 0 {
      assert s[0..] == s;
    } else {
      DroppedPrefix(cfg, s[1..], n - 1);
      assert s[1..][n - 1..] == s[n..];
    }
  }

  // ----- runs of this separator alone -----

  /** The tokens from here on under `keep_empty_tokens`. */
  function KeepTokens(cfg: Config, done: bool, s: string): seq<string>
    decreases |s|, if done then 0 else 1
  {
    var (step, done') := CallKeep(cfg, done, s);
    if step.Token? then [step.tok] + KeepTokens(cfg, done', s[step.taken..]) else []
  }

  /** The tokens from here on under `drop_empty_tokens`. */
  function DropTokens(cfg: Config, s: string): seq<string>
    decreases |s|
  {
    var step := CallDrop(cfg, s);
    if step.Token? then [step.tok] + DropTokens(cfg, s[step.taken..]) else []
  }

  lemma {:induction false} KeepDrain(cfg: Config, done: bool, s: string)
    requires cfg.keepEmpty
    ensures Drain(Chars(cfg, done), s) == Finished(KeepTokens(cfg, done, s))
    decreases |s|, if done then 0 else 1
  {
    var (step, done') := CallKeep(cfg, done, s);
    assert Tokenizer.Call(Chars(cfg, done), s) == (step, Chars(cfg, done'));
    if !step.Token? {
    } else {
      KeepDrain(cfg, done', s[step.taken..]);
    }
  }

  lemma {:induction false} DropDrain(cfg: Config, done: bool, s: string)
    requires !cfg.keepEmpty
    ensures Drain(Chars(cfg, done), s) == Finished(DropTokens(cfg, s))
    decreases |s|
  {
    var step := CallDrop(cfg, s);
    assert Tokenizer.Call(Chars(cfg, done), s) == (step, Chars(cfg, done));
    if !step.Token? {
    } else {
      DropDrain(cfg, done, s[step.taken..]);
    }
  }

  // ----- conservation -----

  /** With output done, a delimiter or the end comes next: so it is all through a run. */
  predicate Aligned(cfg: Config, done: bool, s: string) {
    done ==> s == "" || IsDelimiter(cfg, s[0])
  }

  /** What one token under `keep_empty_tokens` takes off the counts and the text. */
  lemma KeepStep(cfg: Config, done: bool, s: string)
    requires Aligned(cfg, done, s) && CallKeep(cfg, done, s).0.Token?
    ensures var (step, done') := CallKeep(cfg, done, s);
            var rest := s[step.taken..];
            Aligned(cfg, done', rest)
            && WithoutVanishing(cfg, s) == step.tok + WithoutVanishing(cfg, rest)
            && (if done then 0 else 1) + CountVanishing(cfg, s) + 2 * CountKept(cfg, s)
               == 1 + (if done' then 0 else 1) + CountVanishing(cfg, rest) + 2 * CountKept(cfg, rest)
  {
    var (step, done') := CallKeep(cfg, done, s);
    assert s[0..] == s;
    if step.taken > 0 && !IsKept(cfg, s[0]) {
      var t := if IsDropped(cfg, s[0]) then s[1..] else s;
      var n := PlainRun(cfg, t);
      PlainPrefix(cfg, t, n);
      assert t[n..] == s[step.taken..];
    }
  }

  /** What a run under `keep_empty_tokens` yields from any point of it. */
  lemma {:induction false} KeepRun(cfg: Config, done: bool, s: string)
    requires Aligned(cfg, done, s)
    ensures |KeepTokens(cfg, done, s)|
            == (if done then 0 else 1) + CountVanishing(cfg, s) + 2 * CountKept(cfg, s)
    ensures Concat(KeepTokens(cfg, done, s)) == WithoutVanishing(cfg, s)
    decreases |s|, if done then 0 else 1
  {
    var (step, done') := CallKeep(cfg, done, s);
    if !step.Token? {
    } else {
      KeepStep(cfg, done, s);
      KeepRun(cfg, done', s[step.taken..]);
    }
  }

  /** Conservation under `keep_empty_tokens`: on a text that is not empty a fresh separator yields one
      token more than its dropped delimiters and twice its kept ones, on the empty text none, and the
      tokens put together are the text without the dropped delimiters. A delimiter in both sets counts
      as kept. */
  lemma KeepConserves(cfg: Config, text: string)
    requires cfg.keepEmpty
    ensures var run := Tokens(Chars(cfg, false), text);
            run.Finished?
            && |run.tokens| == (if text == "" then 0 else 1 + CountVanishing(cfg, text) + 2 * CountKept(cfg, text))
            && Concat(run.tokens) == WithoutVanishing(cfg, text)
  {
    KeepDrain(cfg, false, text);
    KeepRun(cfg, false, text);
  }

  /** A finished run leaves `m_output_done` set. */
  lemma {:induction false} SpentIsDone(cfg: Config, done: bool, s: string)
    requires cfg.keepEmpty
    ensures Spent(Chars(cfg, done), s) == Chars(cfg, true)
    decreases |s|, if done then 0 else 1
  {
    var (step, done') := CallKeep(cfg, done, s);
    assert Tokenizer.Call(Chars(cfg, done), s) == (step, Chars(cfg, done'));
    if !step.Token? {
    } else {
      SpentIsDone(cfg, done', s[step.taken..]);
    }
  }

  /** `reset` leaves `m_output_done` as it is: used again after a run on any text, a separator loses
      the empty token before a delimiter the new text begins with, and only that. */
  lemma ReusedSeparator(cfg: Config, first: string, text: string)
    requires cfg.keepEmpty && text != ""
    ensures var again := Tokens(Spent(Chars(cfg, false), first), text);
            Tokens(Chars(cfg, false), text) == if IsDelimiter(cfg, text[0]) then Cons("", again) else again
  {
    SpentIsDone(cfg, false, first);
    assert text[0..] == text;
    KeepDrain(cfg, false, text);
    KeepDrain(cfg, true, text);
  }

  /** A comma before one letter, on a fresh comma separator and on one used before. */
  lemma ReuseShows(first: string)
    ensures var cfg := Config(",", "", false, false, true);
            Tokens(Chars(cfg, false), ",a") == Finished(["", "a"])
            && Tokens(Spent(Chars(cfg, false), first), ",a") == Finished(["a"])
  {
    var cfg, text := Config(",", "", false, false, true), ",a";
    ReusedSeparator(cfg, first, text);
    SpentIsDone(cfg, false, first);
    KeepDrain(cfg, true, text);
    var rest := text[1..];
    assert rest == "a" && !IsDelimiter(cfg, rest[0]) && rest[1..] == "";
    assert PlainRun(cfg, rest) == 1 && rest[..1] == "a";
    assert CallKeep(cfg, true, text) == (Token(2, "a"), true);
    assert text[2..] == "";
    assert KeepTokens(cfg, true, "") == [];
    assert KeepTokens(cfg, true, text) == ["a"] + [];
  }

  lemma {:induction false} DropRun(cfg: Config, s: string)
    ensures Concat(DropTokens(cfg, s)) == WithoutDropped(cfg, s) && "" !in DropTokens(cfg, s)
    decreases |s|
  {
    var i := DroppedRun(cfg, s);
    DroppedPrefix(cfg, s, i);
    var step := CallDrop(cfg, s);
    if !step.Token? {
    } else {
      var t := s[i..];
      var n := if IsKept(cfg, s[i]) then 1 else PlainRun(cfg, t);
      if !IsKept(cfg, s[i]) {
        PlainPrefix(cfg, t, n);
      }
      assert t[n..] == s[step.taken..];
      DropRun(cfg, s[step.taken..]);
    }
  }

  /** Conservation under `drop_empty_tokens`, where dropped delimiters are passed first: the tokens put
      together are the text without them, and none is empty. */
  lemma DropConserves(cfg: Config, stale: bool, text: string)
    requires !cfg.keepEmpty
    ensures var run := Tokens(Chars(cfg, stale), text);
            run.Finished? && Concat(run.tokens) == WithoutDropped(cfg, text) && "" !in run.tokens
  {
    DropDrain(cfg, stale, text);
    DropRun(cfg, text);
  }

  // ----- which tokens -----

  /** The token that a delimiter makes: none unless it is kept. One in both sets is kept unless
      `droppedFirst`. */
  function Own(cfg: Config, droppedFirst: bool, ch: char): seq<string> {
    if IsKept(cfg, ch) && !(droppedFirst && IsDropped(cfg, ch)) then [[ch]] else []
  }

  /** The text cut at every delimiter, with the tokens the delimiters make between the pieces. */
  function Cut(cfg: Config, droppedFirst: bool, s: string): seq<string>
    decreases |s|
  {
    var n := PlainRun(cfg, s);
    if n == |s| then [s]
    else [s[..n]] + (Own(cfg, droppedFirst, s[n]) + Cut(cfg, droppedFirst, s[n + 1..]))
  }

  /** A run under `keep_empty_tokens` goes on from a piece to the delimiter after it. */
  lemma KeepPiece(cfg: Config, s: string)
    ensures var n := PlainRun(cfg, s);
            KeepTokens(cfg, false, s) == [s[..n]] + KeepTokens(cfg, true, s[n..])
  {
    assert s[0..] == s;
  }

  lemma KeepAtKept(cfg: Config, s: string)
    requires s != "" && IsKept(cfg, s[0])
    ensures KeepTokens(cfg, true, s) == [[s[0]]] + KeepTokens(cfg, false, s[1..])
  {
  }

  lemma KeepAtDropped(cfg: Config, s: string)
    requires s != "" && IsDropped(cfg, s[0]) && !IsKept(cfg, s[0])
    ensures KeepTokens(cfg, true, s) == KeepTokens(cfg, false, s[1..])
  {
    var t := s[1..];
    var n := PlainRun(cfg, t);
    KeepPiece(cfg, t);
    assert CallKeep(cfg, true, s) == (Token(1 + n, t[..n]), true);
    assert t[n..] == s[1 + n..];
  }

  /** And from there past the delimiter. */
  lemma KeepDelimiter(cfg: Config, s: string, n: nat)
    requires n < |s| && IsDelimiter(cfg, s[n])
    ensures KeepTokens(cfg, true, s[n..]) == Own(cfg, false, s[n]) + KeepTokens(cfg, false, s[n + 1..])
  {
    assert s[n..][0] == s[n] && s[n..][1..] == s[n + 1..];
    if IsKept(cfg, s[n]) {
      KeepAtKept(cfg, s[n..]);
    } else {
      KeepAtDropped(cfg, s[n..]);
      assert [] + KeepTokens(cfg, false, s[n + 1..]) == KeepTokens(cfg, false, s[n + 1..]);
    }
  }

  lemma KeepEnd(cfg: Config, s: string)
    requires PlainRun(cfg, s) == |s|
    ensures KeepTokens(cfg, false, s) == [s]
  {
    KeepPiece(cfg, s);
    assert s[|s|..] == "" && s[..|s|] == s && KeepTokens(cfg, true, "") == [];
  }

  lemma KeepCutStep(cfg: Config, s: string)
    requires PlainRun(cfg, s) < |s|
    ensures var n := PlainRun(cfg, s);
            KeepTokens(cfg, false, s)
            == [s[..n]] + (Own(cfg, false, s[n]) + KeepTokens(cfg, false, s[n + 1..]))
  {
    KeepPiece(cfg, s);
    KeepDelimiter(cfg, s, PlainRun(cfg, s));
  }

  /** One piece and one delimiter are taken off the text. */
  predicate CutsAt(cfg: Config, df: bool, tokens: string -> seq<string>, s: string) {
    var n := PlainRun(cfg, s);
    tokens(s) == if n == |s| then [s] else [s[..n]] + (Own(cfg, df, s[n]) + tokens(s[n + 1..]))
  }

  /** Whatever does that everywhere cuts the text. */
  lemma {:induction false} CutUnique(cfg: Config, df: bool, tokens: string -> seq<string>, s: string)
    requires forall t :: CutsAt(cfg, df, tokens, t)
    ensures tokens(s) == Cut(cfg, df, s)
    decreases |s|
  {
    var n := PlainRun(cfg, s);
    assert CutsAt(cfg, df, tokens, s);
    if n == |s| {
    } else {
      CutUnique(cfg, df, tokens, s[n + 1..]);
    }
  }

  lemma KeepCuts(cfg: Config, s: string)
    ensures KeepTokens(cfg, false, s) == Cut(cfg, false, s)
  {
    var tokens := (t: string) => KeepTokens(cfg, false, t);
    forall t
      ensures CutsAt(cfg, false, tokens, t)
    {
      if PlainRun(cfg, t) == |t| {
        KeepEnd(cfg, t);
      } else {
        KeepCutStep(cfg, t);
      }
    }
    CutUnique(cfg, false, tokens, s);
  }

  /** Under `keep_empty_tokens` the tokens of a text are what it is cut into. */
  lemma KeepIsCut(cfg: Config, text: string)
    requires cfg.keepEmpty
    ensures Tokens(Chars(cfg, false), text) == Finished(if text == "" then [] else Cut(cfg, false, text))
  {
    KeepDrain(cfg, false, text);
    KeepCuts(cfg, text);
  }

  function IfAny(tok: string): seq<string> { if tok == "" then [] else [tok] }

  function NonEmpty(tokens: seq<string>): seq<string> {
    if tokens == [] then [] else IfAny(tokens[0]) + NonEmpty(tokens[1..])
  }

  lemma NonEmptyCons(tok: string, rest: seq<string>)
    ensures NonEmpty([tok] + rest) == IfAny(tok) + NonEmpty(rest)
  {
    assert ([tok] + rest)[1..] == rest;
  }

  lemma {:induction false} NonEmptyConcat(a: seq<string>, b: seq<string>)
    ensures NonEmpty(a + b) == NonEmpty(a) + NonEmpty(b)
  {
    if a == [] {
      assert a + b == b && [] + NonEmpty(b) == NonEmpty(b);
    } else {
      NonEmptyConcat(a[1..], b);
      assert a + b == [a[0]] + (a[1..] + b);
      NonEmptyCons(a[0], a[1..] + b);
      Regroup(IfAny(a[0]), NonEmpty(a[1..]), NonEmpty(b));
    }
  }

  lemma NonEmptyOne(tok: string)
    ensures NonEmpty([tok]) == IfAny(tok)
  {
    assert [tok][1..] == [];
  }

  /** Passing one dropped delimiter first changes nothing under `drop_empty_tokens`. */
  lemma DropSkips(cfg: Config, s: string)
    requires s != "" && IsDropped(cfg, s[0])
    ensures DropTokens(cfg, s) == DropTokens(cfg, s[1..])
  {
    var rest := s[1..];
    var i := DroppedRun(cfg, rest);
    assert DroppedRun(cfg, s) == 1 + i;
    assert s[1 + i..] == rest[i..];
    var a, b := CallDrop(cfg, s), CallDrop(cfg, rest);
    assert a.taken == b.taken + 1;
    assert a.Token? ==> a.tok == b.tok && s[a.taken..] == rest[b.taken..];
  }

  /** A text that begins with a plain character, under `drop_empty_tokens`. */
  lemma DropPlain(cfg: Config, s: string)
    requires s != "" && !IsDelimiter(cfg, s[0])
    ensures var n := PlainRun(cfg, s); n > 0 && DropTokens(cfg, s) == [s[..n]] + DropTokens(cfg, s[n..])
  {
    assert DroppedRun(cfg, s) == 0 && s[0..] == s;
    assert CallDrop(cfg, s) == Token(PlainRun(cfg, s), s[..PlainRun(cfg, s)]);
  }

  lemma NoPiece(cfg: Config, s: string)
    requires PlainRun(cfg, s) == 0
    ensures IfAny(s[..0]) + DropTokens(cfg, s[0..]) == DropTokens(cfg, s)
  {
    assert s[0..] == s && s[..0] == "";
  }

  /** A run under `drop_empty_tokens` skips an empty piece. */
  lemma DropPiece(cfg: Config, s: string)
    ensures var n := PlainRun(cfg, s); DropTokens(cfg, s) == IfAny(s[..n]) + DropTokens(cfg, s[n..])
  {
    if PlainRun(cfg, s) > 0 {
      DropPlain(cfg, s);
    } else {
      NoPiece(cfg, s);
    }
  }

  lemma DropDelimiter(cfg: Config, s: string, n: nat)
    requires n < |s| && IsDelimiter(cfg, s[n])
    ensures DropTokens(cfg, s[n..]) == NonEmpty(Own(cfg, true, s[n])) + DropTokens(cfg, s[n + 1..])
  {
    var t := s[n..];
    assert t[0] == s[n] && t[1..] == s[n + 1..];
    NonEmptyOne([s[n]]);
    if IsDropped(cfg, s[n]) {
      DropSkips(cfg, t);
    } else {
      assert DroppedRun(cfg, t) == 0;
    }
  }

  lemma DropEnd(cfg: Config, s: string)
    requires PlainRun(cfg, s) == |s|
    ensures DropTokens(cfg, s) == IfAny(s)
  {
    DropPiece(cfg, s);
    assert s[|s|..] == "" && s[..|s|] == s && DroppedRun(cfg, "") == 0 && DropTokens(cfg, "") == [];
  }

  lemma DropCutStep(cfg: Config, s: string)
    requires PlainRun(cfg, s) < |s|
    ensures var n := PlainRun(cfg, s);
            DropTokens(cfg, s)
            == IfAny(s[..n]) + (NonEmpty(Own(cfg, true, s[n])) + DropTokens(cfg, s[n + 1..]))
  {
    DropPiece(cfg, s);
    DropDelimiter(cfg, s, PlainRun(cfg, s));
  }

  lemma NonEmptyParts(piece: string, own: seq<string>, rest: seq<string>)
    ensures NonEmpty([piece] + (own + rest)) == IfAny(piece) + (NonEmpty(own) + NonEmpty(rest))
  {
    NonEmptyCons(piece, own + rest);
    NonEmptyConcat(own, rest);
  }

  predicate CutsNonEmptyAt(cfg: Config, df: bool, tokens: string -> seq<string>, s: string) {
    var n := PlainRun(cfg, s);
    tokens(s) == if n == |s| then IfAny(s) else IfAny(s[..n]) + (NonEmpty(Own(cfg, df, s[n])) + tokens(s[n + 1..]))
  }

  /** As `CutUnique`, leaving empty pieces out. */
  lemma {:induction false} CutNonEmptyUnique(cfg: Config, df: bool, tokens: string -> seq<string>, s: string)
    requires forall t :: CutsNonEmptyAt(cfg, df, tokens, t)
    ensures tokens(s) == NonEmpty(Cut(cfg, df, s))
    decreases |s|
  {
    var n := PlainRun(cfg, s);
    assert CutsNonEmptyAt(cfg, df, tokens, s);
    if n == |s| {
      NonEmptyOne(s);
    } else {
      CutNonEmptyUnique(cfg, df, tokens, s[n + 1..]);
      NonEmptyParts(s[..n], Own(cfg, df, s[n]), Cut(cfg, df, s[n + 1..]));
    }
  }

  lemma DropCuts(cfg: Config, s: string)
    ensures DropTokens(cfg, s) == NonEmpty(Cut(cfg, true, s))
  {
    var tokens := (t: string) => DropTokens(cfg, t);
    forall t
      ensures CutsNonEmptyAt(cfg, true, tokens, t)
    {
      if PlainRun(cfg, t) == |t| {
        DropEnd(cfg, t);
      } else {
        DropCutStep(cfg, t);
      }
    }
    CutNonEmptyUnique(cfg, true, tokens, s);
  }

  /** Under `drop_empty_tokens` they are those pieces that are not empty. */
  lemma DropIsCut(cfg: Config, stale: bool, text: string)
    requires !cfg.keepEmpty
    ensures Tokens(Chars(cfg, stale), text) == Finished(NonEmpty(Cut(cfg, true, text)))
  {
    DropDrain(cfg, stale, text);
    DropCuts(cfg, text);
    if text == "" {
      assert NonEmpty([""]) == [];
    }
  }

  ghost predicate DisjointSets(cfg: Config) { forall ch :: !(IsKept(cfg, ch) && IsDropped(cfg, ch)) }

  lemma {:induction false} CutDisjoint(cfg: Config, s: string)
    requires DisjointSets(cfg)
    ensures Cut(cfg, true, s) == Cut(cfg, false, s)
    decreases |s|
  {
    var n := PlainRun(cfg, s);
    if n == |s| {
    } else {
      assert Own(cfg, true, s[n]) == Own(cfg, false, s[n]);
      CutDisjoint(cfg, s[n + 1..]);
    }
  }

  lemma {:induction false} PolicyIgnored(a: Config, b: Config, s: string)
    requires b == a.(keepEmpty := false)
    ensures DropTokens(a, s) == DropTokens(b, s)
    decreases |s|
  {
    DroppedRunUnique(b, s, DroppedRun(a, s));
    var t := s[DroppedRun(a, s)..];
    PlainRunUnique(b, t, PlainRun(a, t));
    var step := CallDrop(a, s);
    assert step == CallDrop(b, s);
    if !step.Token? {
    } else {
      PolicyIgnored(a, b, s[step.taken..]);
    }
  }

  /** With disjoint delimiter sets, dropping empty tokens is keeping them and leaving them out. */
  lemma DropIsKeepWithoutEmpty(cfg: Config, text: string)
    requires cfg.keepEmpty && DisjointSets(cfg)
    ensures var run := Tokens(Chars(cfg, false), text);
            run.Finished?
            && Tokens(Chars(cfg.(keepEmpty := false), false), text) == Finished(NonEmpty(run.tokens))
  {
    KeepDrain(cfg, false, text);
    DropDrain(cfg.(keepEmpty := false), false, text);
    KeepCuts(cfg, text);
    CutDisjoint(cfg, text);
    DropCuts(cfg, text);
    PolicyIgnored(cfg, cfg.(keepEmpty := false), text);
  }

  /** The characters that delimit when no delimiters are given. */
  lemma DefaultDelimiters(cfg: Config, ch: char)
    requires cfg.dropped == "" && cfg.kept == "" && cfg.useSpace && cfg.usePunct
    ensures IsDropped(cfg, ch) <==> ch in [' ', '\t', '\n', 11 as char, 12 as char, '\r']
    ensures IsKept(cfg, ch) <==> ch in "!\"#$%&'()*+,-./" + ":;<=>?@" + "[\\]^_`" + "{|}~"
  {
    CharacterBlock('!', '/', "!\"#$%&'()*+,-./", ch);
    CharacterBlock(':', '@', ":;<=>?@", ch);
    CharacterBlock('[', '`', "[\\]^_`", ch);
    CharacterBlock('{', '~', "{|}~", ch);
  }
}
