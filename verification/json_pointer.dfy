/** JSON Pointers as the text that carries them: escaping, splitting, array indices, checked access. */
module JsonPointer {
  import opened Wrappers
  import opened JsonValue
  import opened Decimals

  // ----- escaping (RFC 6901, section 4) -----

  /** `s` with every occurrence of `f`, found left to right, replaced by `t`. */
  function ReplaceAll(s: string, f: string, t: string): string
    requires f != []
    decreases |s|
  {
    if |s| < |f| then s
    else if s[..|f|] == f then t + ReplaceAll(s[|f|..], f, t)
    else [s[0]] + ReplaceAll(s[1..], f, t)
  }

  function Escape(s: string): string {
    ReplaceAll(ReplaceAll(s, "~", "~0"), "/", "~1")
  }

  function Unescape(s: string): string {
    ReplaceAll(ReplaceAll(s, "~1", "/"), "~0", "~")
  }

  /** Escaping one character at a time: what the two replacement passes amount to. */
  function EscapeEach(s: string): string {
    if s == [] then []
    else (if s[0] == '~' then "~0" else if s[0] == '/' then "~1" else [s[0]]) + EscapeEach(s[1..])
  }

  /** `EscapeEach` for `~` alone: the text halfway through either two-pass rewriting. */
  function EscapeTildes(s: string): string {
    if s == [] then [] else (if s[0] == '~' then "~0" else [s[0]]) + EscapeTildes(s[1..])
  }

  lemma {:induction false} ReplaceAllStep(s: string, c: char, rest: string, f: string, t: string)
    requires f != [] && s == [c] + rest
    requires c != f[0] || (|f| > 1 && (rest == [] || rest[0] != f[1]))
    ensures ReplaceAll(s, f, t) == [c] + ReplaceAll(rest, f, t)
  {
    assert s[1..] == rest;
    assert |f| <= |s| ==> s[..|f|][0] == c && (|f| > 1 ==> s[..|f|][1] == rest[0]);
  }

  lemma {:induction false} ReplaceAllMatch(s: string, rest: string, f: string, t: string)
    requires f != [] && s == f + rest
    ensures ReplaceAll(s, f, t) == t + ReplaceAll(rest, f, t)
  {
    assert s[..|f|] == f && s[|f|..] == rest;
  }

  lemma {:induction false} EscapeIsEscapeEach(s: string)
    ensures ReplaceAll(s, "~", "~0") == EscapeTildes(s)
    ensures Escape(s) == EscapeEach(s)
  {
    if s == [] {
    } else {
      var rest := s[1..];
      var mid := EscapeTildes(rest);
      EscapeIsEscapeEach(rest);
      if s[0] == '~' {
        ReplaceAllMatch(s, rest, "~", "~0");
        ReplaceAllStep("~0" + mid, '~', "0" + mid, "/", "~1");
        ReplaceAllStep("0" + mid, '0', mid, "/", "~1");
      } else {
        ReplaceAllStep(s, s[0], rest, "~", "~0");
        if s[0] == '/' {
          ReplaceAllMatch([s[0]] + mid, mid, "/", "~1");
        } else {
          ReplaceAllStep([s[0]] + mid, s[0], mid, "/", "~1");
        }
      }
    }
  }

  lemma UnescapeTilde(full: string, mid: string)
    ensures ReplaceAll("~0" + full, "~1", "/") == "~0" + ReplaceAll(full, "~1", "/")
    ensures ReplaceAll("~0" + mid, "~0", "~") == "~" + ReplaceAll(mid, "~0", "~")
  {
    ReplaceAllStep("~0" + full, '~', "0" + full, "~1", "/");
    ReplaceAllStep("0" + full, '0', full, "~1", "/");
    ReplaceAllMatch("~0" + mid, mid, "~0", "~");
  }

  lemma UnescapeOther(c: char, full: string, mid: string)
    requires c != '~'
    ensures ReplaceAll([c] + full, "~1", "/") == [c] + ReplaceAll(full, "~1", "/")
    ensures ReplaceAll([c] + mid, "~0", "~") == [c] + ReplaceAll(mid, "~0", "~")
  {
    ReplaceAllStep([c] + full, c, full, "~1", "/");
    ReplaceAllStep([c] + mid, c, mid, "~0", "~");
  }

  lemma {:induction false} UnescapeEach(s: string)
    ensures ReplaceAll(EscapeEach(s), "~1", "/") == EscapeTildes(s)
    ensures ReplaceAll(EscapeTildes(s), "~0", "~") == s
  {
    if s == [] {
    } else {
      var rest := s[1..];
      var full, mid := EscapeEach(rest), EscapeTildes(rest);
      UnescapeEach(rest);
      assert s == [s[0]] + rest;
      if s[0] == '~' {
        UnescapeTilde(full, mid);
      } else {
        UnescapeOther(s[0], full, mid);
        if s[0] == '/' {
          ReplaceAllMatch("~1" + full, full, "~1", "/");
        }
      }
    }
  }

  /** Unescaping undoes escaping, for every key. */
  lemma UnescapeEscape(s: string)
    ensures Unescape(Escape(s)) == s
  {
    EscapeIsEscapeEach(s);
    UnescapeEach(s);
  }

  // ----- splitting a pointer's text into reference tokens -----

  /** Every `~` is followed by `0` or `1`. */
  predicate WellEscaped(s: string) {
    forall i | 0 <= i < |s| && s[i] == '~' :: i + 1 < |s| && (s[i + 1] == '0' || s[i + 1] == '1')
  }

  /** The pieces of `s` between slashes. */
  function SplitSlashes(s: string): (pieces: seq<string>)
    ensures |pieces| > 0
  {
    if s == [] then [[]]
    else
      var rest := SplitSlashes(s[1..]);
      if s[0] == '/' then [[]] + rest else [[s[0]] + rest[0]] + rest[1..]
  }

  function UnescapeTokens(pieces: seq<string>): Result<seq<string>> {
    if pieces == [] then Ok([])
    else if !WellEscaped(pieces[0]) then Err(Exception(108))
    else
      var rest :- UnescapeTokens(pieces[1..]);
      Ok([Unescape(pieces[0])] + rest)
  }

  /** The reference tokens of a pointer text. */
  function Split(path: string): Result<seq<string>> {
    if path == [] then Ok([])
    else if path[0] != '/' then Err(Exception(107))
    else UnescapeTokens(SplitSlashes(path[1..]))
  }

  /** The text of a token sequence. */
  function ToText(tokens: seq<string>): string {
    if tokens == [] then [] else ToText(tokens[..|tokens| - 1]) + "/" + Escape(tokens[|tokens| - 1])
  }

  lemma {:induction false} EscapedIsClean(s: string)
    ensures WellEscaped(Escape(s)) && '/' !in Escape(s)
  {
    EscapeIsEscapeEach(s);
    if s == [] {
    } else {
      EscapedIsClean(s[1..]);
      EscapeIsEscapeEach(s[1..]);
      var head := if s[0] == '~' then "~0" else if s[0] == '/' then "~1" else [s[0]];
      var tail := EscapeEach(s[1..]);
      assert EscapeEach(s) == head + tail;
      forall i | 0 <= i < |head + tail| && (head + tail)[i] == '~'
        ensures i + 1 < |head + tail| && ((head + tail)[i + 1] == '0' || (head + tail)[i + 1] == '1')
      {
        if i >= |head| {
          assert tail[i - |head|] == '~';
        }
      }
    }
  }

  lemma {:induction false} SplitSlashesPiece(s: string)
    requires '/' !in s
    ensures SplitSlashes(s) == [s]
  {
    if s == [] {
    } else {
      SplitSlashesPiece(s[1..]);
      assert s == [s[0]] + s[1..];
    }
  }

  lemma {:induction false} SplitSlashesAppend(a: string, b: string)
    requires '/' !in b
    ensures SplitSlashes(a + "/" + b) == SplitSlashes(a) + [b]
  {
    var s := a + "/" + b;
    if a == [] {
      assert s[1..] == b;
      SplitSlashesPiece(b);
    } else {
      SplitSlashesAppend(a[1..], b);
      assert s[1..] == a[1..] + "/" + b;
    }
  }

  lemma {:induction false} UnescapeTokensAppend(pieces: seq<string>, last: string)
    requires UnescapeTokens(pieces).Ok? && WellEscaped(last)
    ensures UnescapeTokens(pieces + [last]) == Ok(UnescapeTokens(pieces).value + [Unescape(last)])
  {
    var whole := pieces + [last];
    if pieces == [] {
      assert whole[0] == last && whole[1..] == [];
      assert UnescapeTokens(pieces).value + [Unescape(last)] == UnescapeTokens(whole).value;
    } else {
      assert whole[1..] == pieces[1..] + [last] && whole[0] == pieces[0];
      UnescapeTokensAppend(pieces[1..], last);
      var first, rest := [Unescape(pieces[0])], UnescapeTokens(pieces[1..]).value;
      assert first + (rest + [Unescape(last)]) == (first + rest) + [Unescape(last)];
    }
  }

  /** Appending "/" and an escaped key to a pointer's text appends that key to its tokens. */
  lemma SplitAppend(path: string, key: string)
    requires Split(path).Ok?
    ensures Split(path + "/" + Escape(key)) == Ok(Split(path).value + [key])
  {
    var last := Escape(key);
    var whole := path + "/" + last;
    EscapedIsClean(key);
    UnescapeEscape(key);
    if path == [] {
      assert whole[1..] == last;
      SplitSlashesPiece(last);
      UnescapeTokensAppend([], last);
      assert [] + [last] == [last];
    } else {
      assert whole[1..] == path[1..] + "/" + last;
      SplitSlashesAppend(path[1..], last);
      UnescapeTokensAppend(SplitSlashes(path[1..]), last);
    }
  }

  /** Reading back a printed pointer gives the tokens printed. */
  lemma {:induction false} SplitToText(tokens: seq<string>)
    ensures Split(ToText(tokens)) == Ok(tokens)
  {
    if tokens == [] {
    } else {
      var init, last := tokens[..|tokens| - 1], tokens[|tokens| - 1];
      SplitToText(init);
      SplitAppend(ToText(init), last);
      assert tokens == init + [last];
    }
  }

  lemma {:induction false} ToTextCons(key: string, tokens: seq<string>)
    ensures ToText([key] + tokens) == "/" + Escape(key) + ToText(tokens)
  {
    if tokens == [] {
      assert [key][..0] == [];
    } else {
      var init, last := tokens[..|tokens| - 1], tokens[|tokens| - 1];
      ToTextCons(key, init);
      assert ([key] + tokens)[..|tokens|] == [key] + init && ([key] + tokens)[|tokens|] == last;
      Regroup("/" + Escape(key), ToText(init), "/" + Escape(last));
      Regroup(ToText(init), "/", Escape(last));
      Regroup("/" + Escape(key) + ToText(init), "/", Escape(last));
    }
  }

  // ----- array indices -----

  /** The index a token denotes inside an array, with the range checks of a 64-bit `size_type`. */
  function ArrayIndex(token: string): Result<nat> {
    if |token| > 1 && token[0] == '0' then Err(Exception(106))
    else if |token| > 1 && !('1' <= token[0] <= '9') then Err(Exception(109))
    else if token == [] || (exists c | c in token :: !IsDigit(c)) || DecimalValue(token) > SIZE_MAX then
      Err(Exception(404))
    else if DecimalValue(token) >= SIZE_MAX then Err(Exception(410))
    else Ok(DecimalValue(token))
  }

  /** A token is an array index exactly when it is the decimal text of a number below the
      largest `size_type`: no two tokens name the same element. */
  lemma ArrayIndexCanonical(token: string, n: nat)
    ensures ArrayIndex(token) == Ok(n) <==> token == Decimal(n) && n < SIZE_MAX
  {
    if ArrayIndex(token) == Ok(n) {
      DecimalOfDecimalValue(token);
    }
    if token == Decimal(n) && n < SIZE_MAX {
      DecimalValueOfDecimal(n);
      assert token[0] in token && IsDigit(token[0]);
    }
  }

  lemma {:induction false} EscapePlain(s: string)
    requires '~' !in s && '/' !in s
    ensures EscapeEach(s) == s
  {
    if s == [] {
    } else {
      EscapePlain(s[1..]);
      assert s == [s[0]] + s[1..];
    }
  }

  /** Index tokens and "-" need no escaping. */
  lemma PlainTokens(n: nat)
    ensures Escape(Decimal(n)) == Decimal(n) && Escape("-") == "-"
  {
    assert !IsDigit('~') && !IsDigit('/');
    EscapePlain(Decimal(n));
    EscapeIsEscapeEach(Decimal(n));
    EscapePlain("-");
    EscapeIsEscapeEach("-");
  }

  // ----- checked access -----

  /** One step of checked access: the child that `token` names. */
  function Child(j: Json, token: string): Result<Json> {
    match j
    case Obj(members) => if token in members then Ok(members[token]) else Err(Exception(403))
    case Arr(elems) =>
      if token == "-" then Err(Exception(402))
      else
        var idx :- ArrayIndex(token);
        if idx < |elems| then Ok(elems[idx]) else Err(Exception(401))
    case _ => Err(Exception(404))
  }

  /** The value a token sequence points to, or the exception `at` throws. */
  function At(j: Json, tokens: seq<string>): Result<Json> {
    if tokens == [] then Ok(j)
    else
      var child :- Child(j, tokens[0]);
      At(child, tokens[1..])
  }

  function PutChild(j: Json, token: string, v: Json): Json
    requires Child(j, token).Ok?
  {
    match j
    case Obj(members) => Obj(members[token := v])
    case Arr(elems) => Arr(elems[ArrayIndex(token).value := v])
  }

  /** Writing through the reference that `at` returns. */
  function Put(j: Json, tokens: seq<string>, v: Json): Json
    requires At(j, tokens).Ok?
  {
    if tokens == [] then v
    else PutChild(j, tokens[0], Put(Child(j, tokens[0]).value, tokens[1..], v))
  }

  lemma PutChildLaws(j: Json, token: string, v: Json, w: Json)
    requires Child(j, token).Ok?
    ensures Child(PutChild(j, token, v), token) == Ok(v)
    ensures PutChild(PutChild(j, token, v), token, w) == PutChild(j, token, w)
    ensures PutChild(j, token, Child(j, token).value) == j
  {
  }

  lemma {:induction false} PutLaws(j: Json, tokens: seq<string>, v: Json, w: Json)
    requires At(j, tokens).Ok?
    ensures At(Put(j, tokens, v), tokens) == Ok(v)
    ensures Put(Put(j, tokens, v), tokens, w) == Put(j, tokens, w)
    ensures Put(j, tokens, At(j, tokens).value) == j
    decreases tokens
  {
    if tokens == [] {
    } else {
      var child := Child(j, tokens[0]).value;
      PutLaws(child, tokens[1..], v, w);
      PutChildLaws(j, tokens[0], Put(child, tokens[1..], v), Put(child, tokens[1..], w));
    }
  }

  lemma {:induction false} AtConcat(j: Json, a: seq<string>, b: seq<string>)
    requires At(j, a).Ok?
    ensures At(j, a + b) == At(At(j, a).value, b)
    ensures At(j, a + b).Ok? ==> forall v :: Put(j, a + b, v) == Put(j, a, Put(At(j, a).value, b, v))
    decreases a
  {
    if a == [] {
      assert a + b == b;
    } else {
      assert (a + b)[1..] == a[1..] + b;
      AtConcat(Child(j, a[0]).value, a[1..], b);
    }
  }

  lemma {:induction false} AtPrefix(j: Json, a: seq<string>, b: seq<string>)
    requires At(j, a + b).Ok?
    ensures At(j, a).Ok?
    decreases a
  {
    if a == [] {
    } else {
      assert (a + b)[1..] == a[1..] + b;
      AtPrefix(Child(j, a[0]).value, a[1..], b);
    }
  }
}
