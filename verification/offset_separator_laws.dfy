/** Whole runs of `offset_separator`. */
module OffsetSeparatorLaws {
  import opened TokenStep
  import opened OffsetSeparatorModel
  import opened Tokenizer
  import opened NumberTheory

  /** The offset that governs token `i` of a run begun at offset `current`. */
  function Governing(cfg: Config, current: nat, i: nat): int
    requires Valid(cfg, current)
  {
    cfg.offsets[(current + i) % |cfg.offsets|]
  }

  lemma {:induction false} GoverningNext(cfg: Config, current: nat, at: nat, i: nat)
    requires Valid(cfg, current)
    requires at == (if current == |cfg.offsets| then 0 else current)
    ensures Governing(cfg, at + 1, i) == Governing(cfg, current, i + 1)
    ensures Governing(cfg, current, 0) == cfg.offsets[at]
  {
    var n := |cfg.offsets|;
    if current == n {
      Cycle(i + 1, n);
      Cycle(0, n);
    } else {
      Cycle(current, n);
    }
  }

  lemma Cycle(x: nat, n: nat)
    requires n > 0
    ensures (n + x) % n == x % n && (x < n ==> x % n == x)
  {
    var a, b := (n + x) / n - 1 - x / n, x % n - (n + x) % n;
    assert a * n == b by {
      assert n + x == (n + x) / n * n + (n + x) % n;
      assert x == x / n * n + x % n;
      assert ((n + x) / n - 1 - x / n) * n == (n + x) / n * n - n - x / n * n;
    }
    MulSmall(a, n, b);
  }

  // ----- how far a run gets -----

  /** How many characters `k` offsets from `current` on ask for. */
  function Asked(cfg: Config, current: nat, k: nat): nat
    requires Valid(cfg, current)
    decreases k
  {
    if k == 0 then 0 else
    Asked(cfg, current, k - 1) + (if Governing(cfg, current, k - 1) < 0 then 0 else Governing(cfg, current, k - 1))
  }

  lemma {:induction false} AskedNext(cfg: Config, current: nat, at: nat, k: nat)
    requires Valid(cfg, current)
    requires at == (if current == |cfg.offsets| then 0 else current)
    ensures Asked(cfg, current, k + 1)
            == (if cfg.offsets[at] < 0 then 0 else cfg.offsets[at]) + Asked(cfg, at + 1, k)
    decreases k
  {
    if k == 0 {
      GoverningNext(cfg, current, at, 0);
    } else {
      AskedNext(cfg, current, at, k - 1);
      GoverningNext(cfg, current, at, k - 1);
    }
  }

  /** No token follows the first `k` in a text of length `n`: it is used up, the offsets are and do not
      wrap, or partial tokens are refused and more than one character of the next is missing. */
  predicate Ends(cfg: Config, current: nat, n: nat, k: nat)
    requires Valid(cfg, current)
  {
    var asked := Asked(cfg, current, k);
    asked >= n || (!cfg.wrap && current + k >= |cfg.offsets|)
    || (!cfg.partial && n - asked < Governing(cfg, current, k) - 1)
  }

  function Min(a: nat, b: nat): nat { if a < b then a else b }

  lemma EndsNext(cfg: Config, current: nat, at: nat, n: nat, k: nat)
    requires Valid(cfg, current) && (current < |cfg.offsets| || cfg.wrap)
    requires at == (if current == |cfg.offsets| then 0 else current)
    ensures var p := Passed(cfg.offsets[at], n);
            (Ends(cfg, current, n, k + 1) <==> Ends(cfg, at + 1, n - p, k))
            && Min(Asked(cfg, current, k + 1), n) == p + Min(Asked(cfg, at + 1, k), n - p)
  {
    AskedNext(cfg, current, at, k);
    GoverningNext(cfg, current, at, k);
  }

  /** Just as many tokens as it takes to end, which put together are as much of the text as their
      offsets ask for. */
  ghost predicate Conserves(cfg: Config, current: nat, s: string, run: Run)
    requires Valid(cfg, current)
  {
    var k := |run.tokens|;
    run.Finished?
    && Ends(cfg, current, |s|, k) && (forall i | 0 <= i < k :: !Ends(cfg, current, |s|, i))
    && Concat(run.tokens) == s[..Min(Asked(cfg, current, k), |s|)]
  }

  lemma ConservesNothing(cfg: Config, current: nat, s: string)
    requires Valid(cfg, current) && Ends(cfg, current, |s|, 0)
    ensures Conserves(cfg, current, s, Finished([]))
  {
    assert s[..0] == "";
  }

  lemma ConservesOneMore(cfg: Config, current: nat, at: nat, s: string, more: Run)
    requires Valid(cfg, current) && (current < |cfg.offsets| || cfg.wrap)
    requires at == (if current == |cfg.offsets| then 0 else current)
    requires !Ends(cfg, current, |s|, 0)
    requires Conserves(cfg, at + 1, s[Passed(cfg.offsets[at], |s|)..], more)
    ensures Conserves(cfg, current, s, Cons(s[..Passed(cfg.offsets[at], |s|)], more))
  {
    var p := Passed(cfg.offsets[at], |s|);
    var run, k, rest := Cons(s[..p], more), |more.tokens|, s[p..];
    EndsNext(cfg, current, at, |s|, k);
    forall i | 0 <= i < k + 1
      ensures !Ends(cfg, current, |s|, i)
    {
      if i > 0 {
        EndsNext(cfg, current, at, |s|, i - 1);
      }
    }
    assert run.tokens[1..] == more.tokens;
    ConsPrefix(s, p, Min(Asked(cfg, at + 1, k), |rest|));
  }

  lemma ConsPrefix(s: string, n: nat, m: nat)
    requires n + m <= |s|
    ensures s[..n] + s[n..][..m] == s[..n + m]
  {
  }

  /** A call yields a token unless the run ends here. */
  lemma CallEnds(cfg: Config, current: nat, s: string)
    requires Valid(cfg, current)
    ensures var (step, current') := OffsetSeparatorModel.Call(cfg, current, s);
            var at := if current == |cfg.offsets| then 0 else current;
            if Ends(cfg, current, |s|, 0) then step.Stop?
            else (current < |cfg.offsets| || cfg.wrap) && current' == at + 1
                 && step == Token(Passed(cfg.offsets[at], |s|), s[..Passed(cfg.offsets[at], |s|)])
  {
    GoverningNext(cfg, current, if current == |cfg.offsets| then 0 else current, 0);
  }

  /** Conservation: a run yields just as many tokens as it takes to end, and put together they are as
      much of the text as their offsets ask for; all of it when offsets wrap and partial tokens are
      allowed. */
  lemma {:induction false} OffsetsConserve(cfg: Config, current: nat, s: string)
    requires Productive(Offsets(cfg, current))
    ensures var run := Drain(Offsets(cfg, current), s);
            Conserves(cfg, current, s, run) && (cfg.wrap && cfg.partial ==> Concat(run.tokens) == s)
    decreases Measure(Offsets(cfg, current), s)
  {
    var f := Offsets(cfg, current);
    var (step, current') := OffsetSeparatorModel.Call(cfg, current, s);
    CallEnds(cfg, current, s);
    if !step.Token? {
      ConservesNothing(cfg, current, s);
    } else {
      CallFalls(f, s);
      OffsetsConserve(cfg, current', s[step.taken..]);
      ConservesOneMore(cfg, current, current' - 1, s, Drain(Offsets(cfg, current'), s[step.taken..]));
    }
  }

  // ----- how long the tokens are -----

  /** Token `i` has the length of its offset, or is the last one of the text and shorter; refused partial
      tokens make even that one at most a single character shorter. */
  ghost predicate LengthAt(cfg: Config, s: string, tokens: seq<string>, i: nat, c: int)
    requires i < |tokens|
  {
    |tokens[i]| == (if c < 0 then 0 else c)
    || (i == |tokens| - 1 && |tokens[i]| < c && Concat(tokens) == s && (cfg.partial || |tokens[i]| == c - 1))
  }

  lemma LengthLater(cfg: Config, current: nat, at: nat, s: string, n: nat, tokens: seq<string>, i: nat)
    requires Valid(cfg, current) && at == (if current == |cfg.offsets| then 0 else current) < |cfg.offsets|
    requires n <= |s| && i < |tokens| && LengthAt(cfg, s[n..], tokens, i, Governing(cfg, at + 1, i))
    ensures LengthAt(cfg, s, [s[..n]] + tokens, i + 1, Governing(cfg, current, i + 1))
  {
    GoverningNext(cfg, current, at, i);
    assert ([s[..n]] + tokens)[1..] == tokens;
    assert s[..n] + s[n..] == s;
  }

  lemma LengthFirst(cfg: Config, current: nat, at: nat, s: string, more: seq<string>)
    requires Valid(cfg, current) && at == (if current == |cfg.offsets| then 0 else current) < |cfg.offsets|
    requires !Ends(cfg, current, |s|, 0)
    requires s[Passed(cfg.offsets[at], |s|)..] == "" ==> more == []
    ensures LengthAt(cfg, s, [s[..Passed(cfg.offsets[at], |s|)]] + more, 0, Governing(cfg, current, 0))
  {
    GoverningNext(cfg, current, at, 0);
    var n := Passed(cfg.offsets[at], |s|);
    if n < cfg.offsets[at] {
      assert s[..n] == s && [s] + more == [s] && [s][1..] == [];
    }
  }

  lemma DrainNothing(cfg: Config, current: nat)
    requires Productive(Offsets(cfg, current))
    ensures Drain(Offsets(cfg, current), "") == Finished([])
  {
  }

  /** Every token of a run has the length of its offset, except perhaps the last one of the text. */
  lemma {:induction false} OffsetsLengths(cfg: Config, current: nat, s: string, i: nat)
    requires Productive(Offsets(cfg, current)) && i < |Drain(Offsets(cfg, current), s).tokens|
    ensures LengthAt(cfg, s, Drain(Offsets(cfg, current), s).tokens, i, Governing(cfg, current, i))
    decreases Measure(Offsets(cfg, current), s)
  {
    var (step, current') := OffsetSeparatorModel.Call(cfg, current, s);
    CallEnds(cfg, current, s);
    CallFalls(Offsets(cfg, current), s);
    var at, rest := current' - 1, s[step.taken..];
    var more := Drain(Offsets(cfg, current'), rest).tokens;
    assert Drain(Offsets(cfg, current), s).tokens == [step.tok] + more;
    if i == 0 {
      if rest == "" {
        DrainNothing(cfg, current');
      }
      LengthFirst(cfg, current, at, s, more);
    } else {
      OffsetsLengths(cfg, current', rest, i - 1);
      LengthLater(cfg, current, at, s, step.taken, more, i - 1);
    }
  }

  // ----- whole texts -----

  /** Conservation of a whole text: whatever the state of the separator it is given, a run begins at the
      first offset. */
  lemma TextConserves(cfg: Config, stale: nat, text: string)
    requires Productive(Offsets(cfg, stale))
    ensures var run := Tokens(Offsets(cfg, stale), text);
            Conserves(cfg, 0, text, run) && (cfg.wrap && cfg.partial ==> Concat(run.tokens) == text)
  {
    OffsetsConserve(cfg, 0, text);
  }

  /** And the `i`th token of a text has the length of offset `i`, counted around, but for the last. */
  lemma TextLengths(cfg: Config, stale: nat, text: string, i: nat)
    requires Productive(Offsets(cfg, stale)) && i < |Tokens(Offsets(cfg, stale), text).tokens|
    ensures LengthAt(cfg, text, Tokens(Offsets(cfg, stale), text).tokens, i, cfg.offsets[i % |cfg.offsets|])
  {
    OffsetsLengths(cfg, 0, text, i);
  }
}
