/** Pointer texts and tokens are in one-to-one correspondence; what a token finds, and what it does not. */
module JsonPointerLaws {
  import opened Wrappers
  import opened Decimals
  import opened JsonValue
  import opened JsonPointer

  // ----- escaping undoes unescaping -----

  lemma UnescapeTildeHead(p: string)
    requires |p| >= 2 && p[0] == '~' && (p[1] == '0' || p[1] == '1')
    ensures Unescape(p) == [if p[1] == '0' then '~' else '/'] + Unescape(p[2..])
  {
    var rest := p[2..];
    var half := ReplaceAll(rest, "~1", "/");
    if p[1] == '1' {
      assert p == "~1" + rest;
      ReplaceAllMatch(p, rest, "~1", "/");
      ReplaceAllStep("/" + half, '/', half, "~0", "~");
    } else {
      assert p == "~0" + rest && p[1..] == "0" + rest;
      ReplaceAllStep(p, '~', "0" + rest, "~1", "/");
      ReplaceAllStep("0" + rest, '0', rest, "~1", "/");
      assert "~0" + half == ['~'] + (['0'] + half);
      ReplaceAllMatch("~0" + half, half, "~0", "~");
    }
  }

  lemma UnescapePlainHead(p: string)
    requires p != "" && p[0] != '~'
    ensures Unescape(p) == [p[0]] + Unescape(p[1..])
  {
    var half := ReplaceAll(p[1..], "~1", "/");
    ReplaceAllStep(p, p[0], p[1..], "~1", "/");
    ReplaceAllStep([p[0]] + half, p[0], half, "~0", "~");
  }

  lemma EscapeHead(c: char, s: string)
    ensures Escape([c] + s) == (if c == '~' then "~0" else if c == '/' then "~1" else [c]) + Escape(s)
  {
    EscapeIsEscapeEach([c] + s);
    EscapeIsEscapeEach(s);
    assert ([c] + s)[1..] == s;
  }

  /** Escaping undoes unescaping, on every text that is one piece of a pointer. */
  lemma {:induction false} EscapeUnescape(p: string)
    requires WellEscaped(p) && '/' !in p
    ensures Escape(Unescape(p)) == p
    decreases |p|
  {
    if p == "" {
      EscapeIsEscapeEach("");
    } else if p[0] == '~' {
      var rest := p[2..];
      assert WellEscaped(rest) by {
        assert forall i | 0 <= i < |rest| :: rest[i] == p[i + 2];
      }
      UnescapeTildeHead(p);
      EscapeHead(if p[1] == '0' then '~' else '/', Unescape(rest));
      EscapeUnescape(rest);
      assert p == [p[0], p[1]] + rest;
    } else {
      var rest := p[1..];
      assert WellEscaped(rest) by {
        assert forall i | 0 <= i < |rest| :: rest[i] == p[i + 1];
      }
      assert p[0] != '/' by {
        assert p[0] in p;
      }
      UnescapePlainHead(p);
      EscapeHead(p[0], Unescape(rest));
      EscapeUnescape(rest);
      assert p == [p[0]] + rest;
    }
  }

  // ----- splitting -----

  /** The pieces, each behind a slash. */
  function Slashed(pieces: seq<string>): string {
    if pieces == [] then "" else "/" + (pieces[0] + Slashed(pieces[1..]))
  }

  lemma SlashedGrows(c: char, rest: seq<string>, t: string)
    requires rest != [] && Slashed(rest) == "/" + t
    ensures Slashed([[c] + rest[0]] + rest[1..]) == "/" + ([c] + t)
  {
    var tail := Slashed(rest[1..]);
    assert ([[c] + rest[0]] + rest[1..])[1..] == rest[1..];
    AfterSlash(rest[0] + tail, t);
    Regroup([c], rest[0], tail);
  }

  lemma AfterSlash(a: string, b: string)
    requires "/" + a == "/" + b
    ensures a == b
  {
    assert ("/" + a)[1..] == a && ("/" + b)[1..] == b;
  }

  lemma {:induction false} SlashedSplit(s: string)
    ensures Slashed(SplitSlashes(s)) == "/" + s
  {
    if s == "" {
      assert [""][1..] == [];
    } else {
      var rest := SplitSlashes(s[1..]);
      SlashedSplit(s[1..]);
      assert s == [s[0]] + s[1..];
      if s[0] == '/' {
        assert ([""] + rest)[1..] == rest;
      } else {
        SlashedGrows(s[0], rest, s[1..]);
      }
    }
  }

  lemma {:induction false} PiecesClean(s: string)
    ensures forall i | 0 <= i < |SplitSlashes(s)| :: '/' !in SplitSlashes(s)[i]
  {
    if s == "" {
    } else {
      PiecesClean(s[1..]);
    }
  }

  lemma {:induction false} TokensText(pieces: seq<string>)
    requires UnescapeTokens(pieces).Ok? && forall i | 0 <= i < |pieces| :: '/' !in pieces[i]
    ensures ToText(UnescapeTokens(pieces).value) == Slashed(pieces)
  {
    if pieces == [] {
    } else {
      TokensText(pieces[1..]);
      ToTextCons(Unescape(pieces[0]), UnescapeTokens(pieces[1..]).value);
      EscapeUnescape(pieces[0]);
      Regroup("/", pieces[0], Slashed(pieces[1..]));
    }
  }

  /** A text is a pointer with those tokens exactly when it is the one text they are printed as. */
  lemma SplitCanonical(text: string, tokens: seq<string>)
    ensures Split(text) == Ok(tokens) <==> ToText(tokens) == text
  {
    SplitToText(tokens);
    if Split(text) == Ok(tokens) && text != "" {
      SlashedSplit(text[1..]);
      PiecesClean(text[1..]);
      TokensText(SplitSlashes(text[1..]));
      assert text == "/" + text[1..];
    }
  }

  lemma {:induction false} UnescapeTokensFails(pieces: seq<string>)
    requires UnescapeTokens(pieces).Err?
    ensures UnescapeTokens(pieces).error == Exception(108)
  {
    if !WellEscaped(pieces[0]) {
    } else {
      UnescapeTokensFails(pieces[1..]);
    }
  }

  /** A text that is no pointer either lacks its first slash or has a stray tilde. */
  lemma SplitFails(text: string)
    requires Split(text).Err?
    ensures text != "" && Split(text).error == Exception(if text[0] != '/' then 107 else 108)
  {
    if text[0] == '/' {
      UnescapeTokensFails(SplitSlashes(text[1..]));
    }
  }

  // ----- children -----

  /** What checked access finds: a member by its key, an element by the decimal text of its index. */
  lemma ChildFinds(j: Json, token: string, v: Json)
    ensures Child(j, token) == Ok(v)
            <==> (j.Obj? && token in j.members && v == j.members[token])
                 || (j.Arr? && exists i | 0 <= i < |j.elems| && i < SIZE_MAX :: token == Decimal(i) && v == j.elems[i])
  {
    if j.Arr? {
      if Child(j, token) == Ok(v) {
        ArrayIndexCanonical(token, ArrayIndex(token).value);
      }
      forall i: nat | i < |j.elems| && i < SIZE_MAX && token == Decimal(i)
        ensures Child(j, token) == Ok(j.elems[i])
      {
        ArrayIndexCanonical(token, i);
        assert token[0] in token && !IsDigit('-');
      }
    }
  }

  /** The exceptions the documentation lists for pointers, each on a small case. */
  lemma DocumentedErrors()
    ensures Split("a") == Err(Exception(107)) && Split("/~2") == Err(Exception(108))
    ensures At(Arr([Null]), ["01"]) == Err(Exception(106)) && At(Arr([Null]), ["a1"]) == Err(Exception(109))
    ensures At(Arr([Null]), ["1"]) == Err(Exception(401)) && At(Arr([Null]), ["-"]) == Err(Exception(402))
    ensures At(Obj(map[]), ["a"]) == Err(Exception(403))
    ensures At(Num(1), ["a"]) == Err(Exception(404)) && At(Arr([Null]), ["1a"]) == Err(Exception(404))
  {
    assert "/~2"[1..] == "~2" && '~' == "~2"[0];
    SplitSlashesPiece("~2");
    assert Decimal(1) == "1";
    ArrayIndexCanonical("1", 1);
    assert 'a' in "1a" by {
      assert "1a"[1] == 'a';
    }
    assert !IsDigit('a');
  }
}
