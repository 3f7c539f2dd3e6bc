/** What an escaped list is: exactly the texts `escaped_list_separator` accepts, and what they mean. */
module EscapedListLaws {
  import opened TokenStep
  import opened EscapedList
  import opened Tokenizer

  /** The parts a field is written with. */
  datatype Piece = Plain(ch: char) | Escape(lead: char, code: char) | Quote(mark: char)

  function PieceText(p: Piece): string {
    match p
    case Plain(ch) => [ch]
    case Escape(lead, code) => [lead, code]
    case Quote(mark) => [mark]
  }

  function PieceMeaning(p: Piece): string {
    match p
    case Plain(ch) => [ch]
    case Escape(_, code) => [EscapeMeaning(code)]
    case Quote(_) => ""
  }

  function Text(ps: seq<Piece>): string {
    if ps == [] then "" else PieceText(ps[0]) + Text(ps[1..])
  }

  function Meaning(ps: seq<Piece>): string {
    if ps == [] then "" else PieceMeaning(ps[0]) + Meaning(ps[1..])
  }

  function Toggled(p: Piece, inQuote: bool): bool { if p.Quote? then !inQuote else inQuote }

  function InQuoteAfter(ps: seq<Piece>, inQuote: bool): bool {
    if ps == [] then inQuote else InQuoteAfter(ps[1..], Toggled(ps[0], inQuote))
  }

  /** A piece that reads as what it is: plain characters are not special where they stand. */
  predicate Fits(cfg: Config, p: Piece, inQuote: bool) {
    match p
    case Plain(ch) => ch !in cfg.escape && if ch in cfg.c then inQuote else ch !in cfg.quote
    case Escape(lead, code) => lead in cfg.escape && CanEscape(cfg, code)
    case Quote(mark) => mark in cfg.quote && mark !in cfg.c && mark !in cfg.escape
  }

  predicate Readable(cfg: Config, ps: seq<Piece>, inQuote: bool) {
    ps == [] || (Fits(cfg, ps[0], inQuote) && Readable(cfg, ps[1..], Toggled(ps[0], inQuote)))
  }

  // ----- one field -----

  lemma ScanPiece(cfg: Config, p: Piece, inQuote: bool, rest: string)
    requires Fits(cfg, p, inQuote)
    ensures Scan(cfg, PieceText(p) + rest, inQuote)
            == Prepend(|PieceText(p)|, PieceMeaning(p), Scan(cfg, rest, Toggled(p, inQuote)))
  {
    var s := PieceText(p) + rest;
    assert s[|PieceText(p)|..] == rest;
  }

  /** Scanning printed pieces reads back their meaning and goes on with what follows. */
  lemma {:induction false} ScanText(cfg: Config, ps: seq<Piece>, inQuote: bool, rest: string)
    requires Readable(cfg, ps, inQuote)
    ensures Scan(cfg, Text(ps) + rest, inQuote)
            == Prepend(|Text(ps)|, Meaning(ps), Scan(cfg, rest, InQuoteAfter(ps, inQuote)))
  {
    if ps == [] {
      assert "" + rest == rest;
      var r := Scan(cfg, rest, inQuote);
      assert r.Field? ==> "" + r.tok == r.tok;
    } else {
      var p, tail := ps[0], ps[1..];
      var q := Toggled(p, inQuote);
      assert Text(ps) + rest == PieceText(p) + (Text(tail) + rest);
      ScanPiece(cfg, p, inQuote, Text(tail) + rest);
      ScanText(cfg, tail, q, rest);
      PrependTwice(|PieceText(p)|, PieceMeaning(p), |Text(tail)|, Meaning(tail),
                   Scan(cfg, rest, InQuoteAfter(tail, q)));
    }
  }

  /** Pieces for a text the scanner accepts, up to the separator that ends the field. */
  predicate Parses(cfg: Config, ps: seq<Piece>, inQuote: bool, s: string, r: Scanned) {
    r.Field? && r.taken <= |s| && Readable(cfg, ps, inQuote) && Meaning(ps) == r.tok
    && if r.ended then
         r.taken > 0 && s[..r.taken] == Text(ps) + [s[r.taken - 1]] && !InQuoteAfter(ps, inQuote)
         && s[r.taken - 1] in cfg.c && s[r.taken - 1] !in cfg.escape
       else r.taken == |s| && s == Text(ps)
  }

  lemma PieceCons(cfg: Config, p: Piece, ps: seq<Piece>, inQuote: bool)
    ensures Text([p] + ps) == PieceText(p) + Text(ps) && Meaning([p] + ps) == PieceMeaning(p) + Meaning(ps)
    ensures InQuoteAfter([p] + ps, inQuote) == InQuoteAfter(ps, Toggled(p, inQuote))
    ensures Readable(cfg, [p] + ps, inQuote) <==> Fits(cfg, p, inQuote) && Readable(cfg, ps, Toggled(p, inQuote))
  {
    assert ([p] + ps)[1..] == ps;
  }

  lemma ParsesMore(cfg: Config, p: Piece, ps: seq<Piece>, inQuote: bool, s: string, rest: string, r: Scanned)
    requires Fits(cfg, p, inQuote) && s == PieceText(p) + rest
    requires Parses(cfg, ps, Toggled(p, inQuote), rest, r)
    ensures Parses(cfg, [p] + ps, inQuote, s, Prepend(|PieceText(p)|, PieceMeaning(p), r))
  {
    PieceCons(cfg, p, ps, inQuote);
    if r.ended {
      SplitAfter(PieceText(p), Text(ps), rest, r.taken);
    }
  }

  lemma SplitAfter(a: string, b: string, rest: string, n: nat)
    requires 0 < n <= |rest| && rest[..n] == b + [rest[n - 1]]
    ensures (a + rest)[..|a| + n] == a + b + [(a + rest)[|a| + n - 1]]
  {
    assert (a + rest)[..|a| + n] == a + rest[..n];
  }

  /** Whatever the scanner accepts was printed from some pieces. */
  lemma {:induction false} ScanParses(cfg: Config, s: string, inQuote: bool) returns (ps: seq<Piece>)
    requires Scan(cfg, s, inQuote).Field?
    ensures Parses(cfg, ps, inQuote, s, Scan(cfg, s, inQuote))
    decreases |s|
  {
    if s == "" {
      ps := [];
    } else if s[0] in cfg.escape {
      var tail := ScanParses(cfg, s[2..], inQuote);
      ParsesMore(cfg, Escape(s[0], s[1]), tail, inQuote, s, s[2..], Scan(cfg, s[2..], inQuote));
      ps := [Escape(s[0], s[1])] + tail;
    } else if s[0] in cfg.c && !inQuote {
      ps := [];
      assert s[..1] == [s[0]];
    } else {
      var p := if s[0] !in cfg.c && s[0] in cfg.quote then Quote(s[0]) else Plain(s[0]);
      var q := Toggled(p, inQuote);
      var tail := ScanParses(cfg, s[1..], q);
      ParsesMore(cfg, p, tail, inQuote, s, s[1..], Scan(cfg, s[1..], q));
      ps := [p] + tail;
    }
  }

  // ----- lists -----

  /** Fields and the separators between them. */
  datatype List = List(fields: seq<seq<Piece>>, seps: seq<char>)

  predicate WellFormed(cfg: Config, l: List) {
    |l.fields| == |l.seps| + 1
    && (forall i | 0 <= i < |l.fields| :: Readable(cfg, l.fields[i], false))
    && (forall i | 0 <= i < |l.seps| :: !InQuoteAfter(l.fields[i], false))
    && (forall i | 0 <= i < |l.seps| :: l.seps[i] in cfg.c && l.seps[i] !in cfg.escape)
  }

  function Tail(l: List): List
    requires l.fields != [] && l.seps != []
  {
    List(l.fields[1..], l.seps[1..])
  }

  function ListText(l: List): string
    requires |l.fields| == |l.seps| + 1
    decreases |l.seps|
  {
    if l.seps == [] then Text(l.fields[0]) else Text(l.fields[0]) + [l.seps[0]] + ListText(Tail(l))
  }

  function Meanings(fields: seq<seq<Piece>>): seq<string> {
    if fields == [] then [] else [Meaning(fields[0])] + Meanings(fields[1..])
  }

  lemma DrainLast(cfg: Config, last: bool, ps: seq<Piece>)
    requires Readable(cfg, ps, false) && (Text(ps) != "" || last)
    ensures Drain(Escaped(cfg, last), Text(ps)) == Finished([Meaning(ps)])
  {
    var s := Text(ps);
    ScanText(cfg, ps, false, "");
    assert s + "" == s && Meaning(ps) + "" == Meaning(ps);
    if s == "" {
      assert Meaning(ps) == "" by { EmptyText(ps); }
    }
    assert s[|s|..] == "";
    assert Drain(Escaped(cfg, false), "") == Finished([]);
  }

  lemma EmptyText(ps: seq<Piece>)
    requires Text(ps) == ""
    ensures ps == []
  {
  }

  lemma DrainNext(cfg: Config, last: bool, ps: seq<Piece>, sep: char, rest: string)
    requires Readable(cfg, ps, false) && !InQuoteAfter(ps, false) && sep in cfg.c && sep !in cfg.escape
    ensures Drain(Escaped(cfg, last), Text(ps) + [sep] + rest)
            == Cons(Meaning(ps), Drain(Escaped(cfg, true), rest))
  {
    var s := Text(ps) + [sep] + rest;
    assert s == Text(ps) + ([sep] + rest);
    ScanText(cfg, ps, false, [sep] + rest);
    assert Meaning(ps) + "" == Meaning(ps);
    assert Scan(cfg, s, false) == Field(|Text(ps)| + 1, Meaning(ps), true);
    assert s[|Text(ps)| + 1..] == rest;
  }

  lemma {:induction false} DrainList(cfg: Config, last: bool, l: List)
    requires WellFormed(cfg, l) && (ListText(l) != "" || last)
    ensures Drain(Escaped(cfg, last), ListText(l)) == Finished(Meanings(l.fields))
    decreases |l.seps|
  {
    if l.seps == [] {
      assert l.fields[1..] == [];
      DrainLast(cfg, last, l.fields[0]);
      assert [Meaning(l.fields[0])] + [] == [Meaning(l.fields[0])];
    } else {
      DrainNext(cfg, last, l.fields[0], l.seps[0], ListText(Tail(l)));
      DrainList(cfg, true, Tail(l));
    }
  }

  lemma DrainScans(cfg: Config, last: bool, s: string)
    requires s != "" && Drain(Escaped(cfg, last), s).Finished?
    ensures var r := Scan(cfg, s, false);
            r.Field? && Drain(Escaped(cfg, last), s) == Cons(r.tok, Drain(Escaped(cfg, r.ended), s[r.taken..]))
  {
  }

  lemma DrainNothing(cfg: Config)
    ensures Drain(Escaped(cfg, false), "") == Finished([])
  {
  }

  /** A field that ends in a separator, put before a list. */
  lemma ListPrepend(cfg: Config, ps: seq<Piece>, s: string, r: Scanned, tail: List)
    requires Parses(cfg, ps, false, s, r) && r.ended
    requires WellFormed(cfg, tail) && ListText(tail) == s[r.taken..]
    ensures var l := List([ps] + tail.fields, [s[r.taken - 1]] + tail.seps);
            WellFormed(cfg, l) && ListText(l) == s && Meanings(l.fields) == [r.tok] + Meanings(tail.fields)
  {
    var l := List([ps] + tail.fields, [s[r.taken - 1]] + tail.seps);
    assert Tail(l) == tail;
    assert s == s[..r.taken] + s[r.taken..];
  }

  lemma ListSingle(cfg: Config, ps: seq<Piece>)
    requires Readable(cfg, ps, false)
    ensures var l := List([ps], []);
            WellFormed(cfg, l) && ListText(l) == Text(ps) && Meanings(l.fields) == [Meaning(ps)]
  {
    assert [ps][1..] == [];
  }

  lemma {:induction false} DrainParses(cfg: Config, last: bool, s: string) returns (l: List)
    requires Drain(Escaped(cfg, last), s).Finished? && (s != "" || last)
    ensures WellFormed(cfg, l) && ListText(l) == s
    ensures Meanings(l.fields) == Drain(Escaped(cfg, last), s).tokens
    decreases |s|
  {
    DrainNothing(cfg);
    if s == "" {
      ListSingle(cfg, []);
      l := List([[]], []);
    } else {
      DrainScans(cfg, last, s);
      var r := Scan(cfg, s, false);
      var ps := ScanParses(cfg, s, false);
      if r.ended {
        var tail := DrainParses(cfg, true, s[r.taken..]);
        ListPrepend(cfg, ps, s, r, tail);
        l := List([ps] + tail.fields, [s[r.taken - 1]] + tail.seps);
      } else {
        ListSingle(cfg, ps);
        l := List([ps], []);
      }
    }
  }

  /** A text that is not empty is tokenized without an exception into `tokens` exactly when it is a
      well-formed escaped list with those meanings. */
  lemma AcceptsExactly(cfg: Config, stale: bool, text: string, tokens: seq<string>)
    requires text != ""
    ensures Tokens(Escaped(cfg, stale), text) == Finished(tokens)
            <==> exists l :: WellFormed(cfg, l) && ListText(l) == text && Meanings(l.fields) == tokens
  {
    if Tokens(Escaped(cfg, stale), text) == Finished(tokens) {
      var l := DrainParses(cfg, false, text);
    }
    forall l | WellFormed(cfg, l) && ListText(l) == text && Meanings(l.fields) == tokens
      ensures Tokens(Escaped(cfg, stale), text) == Finished(tokens)
    {
      DrainList(cfg, false, l);
    }
  }

  // ----- printing strings -----

  /** The characters a printer uses, one of each kind, and whether it writes newlines as escapes. */
  datatype Printer = Printer(escape: char, sep: char, mark: char, newlines: bool)

  /** Each is what it is for, no two the same, and `n` is left to mean a newline. */
  predicate Suits(cfg: Config, pr: Printer) {
    pr.escape in cfg.escape
    && pr.sep in cfg.c && pr.sep !in cfg.escape
    && pr.mark in cfg.quote && pr.mark !in cfg.escape && pr.mark !in cfg.c
    && 'n' !in cfg.escape && 'n' !in cfg.c && 'n' !in cfg.quote
  }

  predicate IsSpecial(cfg: Config, ch: char, quoted: bool) {
    ch in cfg.escape || ch in cfg.quote || (ch in cfg.c && !quoted)
  }

  function CharPiece(cfg: Config, pr: Printer, ch: char, quoted: bool): Piece {
    if pr.newlines && ch == '\n' then Escape(pr.escape, 'n')
    else if IsSpecial(cfg, ch, quoted) then Escape(pr.escape, ch)
    else Plain(ch)
  }

  lemma CharReads(cfg: Config, pr: Printer, ch: char, quoted: bool)
    requires Suits(cfg, pr)
    ensures var p := CharPiece(cfg, pr, ch, quoted);
            Fits(cfg, p, quoted) && PieceMeaning(p) == [ch] && Toggled(p, quoted) == quoted
  {
  }

  function Body(cfg: Config, pr: Printer, field: string, quoted: bool): seq<Piece> {
    if field == "" then [] else
    [CharPiece(cfg, pr, field[0], quoted)] + Body(cfg, pr, field[1..], quoted)
  }

  function FieldPieces(cfg: Config, pr: Printer, field: string, quoted: bool): seq<Piece> {
    if quoted then [Quote(pr.mark)] + Body(cfg, pr, field, true) + [Quote(pr.mark)] else Body(cfg, pr, field, false)
  }

  lemma {:induction false} BodyReads(cfg: Config, pr: Printer, field: string, quoted: bool, after: seq<Piece>)
    requires Suits(cfg, pr) && Readable(cfg, after, quoted)
    ensures Readable(cfg, Body(cfg, pr, field, quoted) + after, quoted)
    ensures Meaning(Body(cfg, pr, field, quoted) + after) == field + Meaning(after)
    ensures InQuoteAfter(Body(cfg, pr, field, quoted) + after, quoted) == InQuoteAfter(after, quoted)
  {
    var ps := Body(cfg, pr, field, quoted) + after;
    if field == "" {
      assert ps == after && "" + Meaning(after) == Meaning(after);
    } else {
      BodyReads(cfg, pr, field[1..], quoted, after);
      CharReads(cfg, pr, field[0], quoted);
      assert ps[0] == CharPiece(cfg, pr, field[0], quoted);
      assert ps[1..] == Body(cfg, pr, field[1..], quoted) + after;
      assert field + Meaning(after) == [field[0]] + (field[1..] + Meaning(after));
    }
  }

  lemma FieldReads(cfg: Config, pr: Printer, field: string, quoted: bool)
    requires Suits(cfg, pr)
    ensures Readable(cfg, FieldPieces(cfg, pr, field, quoted), false)
    ensures Meaning(FieldPieces(cfg, pr, field, quoted)) == field
    ensures !InQuoteAfter(FieldPieces(cfg, pr, field, quoted), false)
  {
    if quoted {
      var close := [Quote(pr.mark)];
      var body := Body(cfg, pr, field, true);
      assert close[1..] == [];
      BodyReads(cfg, pr, field, true, close);
      var ps := FieldPieces(cfg, pr, field, true);
      assert ps == [Quote(pr.mark)] + (body + close);
      assert ps[1..] == body + close;
      assert field + "" == field && "" + field == field;
    } else {
      BodyReads(cfg, pr, field, false, []);
      assert Body(cfg, pr, field, false) + [] == Body(cfg, pr, field, false) && field + "" == field;
    }
  }

  /** The list a printer writes: `quoted[i]` says whether to quote field `i`. */
  function Printed(cfg: Config, pr: Printer, fields: seq<string>, quoted: seq<bool>): List
    requires |fields| == |quoted| > 0
  {
    List(seq(|fields|, i requires 0 <= i < |fields| => FieldPieces(cfg, pr, fields[i], quoted[i])),
         seq(|fields| - 1, i => pr.sep))
  }

  lemma {:induction false} MeaningsAt(fields: seq<seq<Piece>>)
    ensures |Meanings(fields)| == |fields|
    ensures forall i | 0 <= i < |fields| :: Meanings(fields)[i] == Meaning(fields[i])
  {
    if fields == [] {
    } else {
      MeaningsAt(fields[1..]);
    }
  }

  /** Round trip: tokenizing a printed list gives back its fields, quoted or escaped as it may be, with
      newlines as they are or as escapes, exactly when the printed text is not empty. */
  lemma RoundTrip(cfg: Config, stale: bool, pr: Printer, fields: seq<string>, quoted: seq<bool>)
    requires Suits(cfg, pr) && |fields| == |quoted| > 0
    ensures Tokens(Escaped(cfg, stale), ListText(Printed(cfg, pr, fields, quoted))) == Finished(fields)
            <==> ListText(Printed(cfg, pr, fields, quoted)) != ""
  {
    var l := Printed(cfg, pr, fields, quoted);
    forall i | 0 <= i < |fields|
      ensures Readable(cfg, l.fields[i], false) && !InQuoteAfter(l.fields[i], false)
              && Meaning(l.fields[i]) == fields[i]
    {
      FieldReads(cfg, pr, fields[i], quoted[i]);
    }
    MeaningsAt(l.fields);
    assert Meanings(l.fields) == fields;
    if ListText(l) != "" {
      DrainList(cfg, false, l);
    }
  }

  /** The one printed text that is empty: a single empty field without quotes. */
  lemma PrintedEmpty(cfg: Config, pr: Printer, fields: seq<string>, quoted: seq<bool>)
    requires |fields| == |quoted| > 0
    ensures ListText(Printed(cfg, pr, fields, quoted)) == "" <==> fields == [""] && quoted == [false]
  {
    var l := Printed(cfg, pr, fields, quoted);
    if |fields| == 1 {
      var ps := FieldPieces(cfg, pr, fields[0], quoted[0]);
      assert l.fields[0] == ps;
      if Text(ps) == "" {
        EmptyText(ps);
      }
    }
  }
}
