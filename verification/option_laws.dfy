/** The syntax of one argument, in either build. */
module OptionLaws {
  import opened Wrappers
  import opened OptionParsing
  import opened IntegerParser

  predicate IsWordChar(ch: char) { IsAlnum(ch) || ch == '-' || ch == '_' }

  predicate IsNameChar(ch: char) { IsWordChar(ch) || ch == '.' }

  /** What `.*` matches: no line terminators. */
  predicate IsLine(s: string) { '\n' !in s && '\r' !in s }

  /** The position of the first `=`, or the length. */
  function EqualsAt(s: string): (i: nat)
    ensures i <= |s| && (i < |s| ==> s[i] == '=') && forall j | 0 <= j < i :: s[j] != '='
  {
    if s == "" || s[0] == '=' then 0 else 1 + EqualsAt(s[1..])
  }

  lemma EqualsAtUnique(s: string, i: nat)
    requires i < |s| && s[i] == '=' && forall j | 0 <= j < i :: s[j] != '='
    ensures EqualsAt(s) == i
  {
  }

  predicate IsLongName(s: string) { |s| >= 2 && IsAlnum(s[0]) && forall i | 0 < i < |s| :: IsNameChar(s[i]) }

  /** `ParseArgument`: matching `--([[:alnum:]][-_[:alnum:]\.]+)(=(.*))?|-([[:alnum:]].*)`. */
  function MatchArgument(arg: string): Option<ArguDesc> {
    if "--" <= arg then
      var rest := arg[2..];
      var i := EqualsAt(rest);
      if !IsLongName(rest[..i]) then None
      else if i == |rest| then Some(ArguDesc(rest, false, false, ""))
      else if IsLine(rest[i + 1..]) then Some(ArguDesc(rest[..i], false, true, rest[i + 1..]))
      else None
    else if |arg| >= 2 && arg[0] == '-' && IsAlnum(arg[1]) && IsLine(arg[2..]) then
      Some(ArguDesc(arg[1..], true, false, ""))
    else None
  }

  // ----- the version without regular expressions -----

  /** What that version matches: no `.` in a long name, only letters and digits after a single `-`. */
  function MatchByHand(arg: string): Option<ArguDesc> {
    if "--" <= arg then
      var rest := arg[2..];
      var i := EqualsAt(rest);
      if i < 2 || !IsAlnum(rest[0]) || exists j | 0 <= j < i :: !IsWordChar(rest[j]) then None
      else if i == |rest| then Some(ArguDesc(rest, false, false, ""))
      else Some(ArguDesc(rest[..i], false, true, rest[i + 1..]))
    else if |arg| >= 2 && arg[0] == '-' && forall j | 0 < j < |arg| :: IsAlnum(arg[j]) then
      Some(ArguDesc(arg[1..], true, false, ""))
    else None
  }

  method ParseArgumentByHand(arg: string) returns (r: Option<ArguDesc>)
    ensures r == MatchByHand(arg)
  {
    var name := "";
    if "--" <= arg {
      ghost var rest := arg[2..];
      var pos := 2;
      if pos < |arg| && IsAlnum(arg[pos]) {
        name := name + [arg[pos]];
        pos := pos + 1;
        while pos < |arg| && IsWordChar(arg[pos])
          invariant 3 <= pos <= |arg| && name == rest[..pos - 2]
          invariant forall j | 0 <= j < pos - 2 :: IsWordChar(rest[j])
        {
          name := name + [arg[pos]];
          pos := pos + 1;
        }
        assert pos < |arg| ==> rest[pos - 2] == arg[pos];
        if |name| > 1 {
          if pos < |arg| && arg[pos] == '=' {
            EqualsAtUnique(rest, pos - 2);
            return Some(ArguDesc(name, false, true, arg[pos + 1..]));
          } else if pos == |arg| {
            assert rest[..pos - 2] == rest;
            return Some(ArguDesc(name, false, false, ""));
          }
        }
      }
      r := None;
    } else if "-" <= arg {
      var pos := 1;
      while pos < |arg| && IsAlnum(arg[pos])
        invariant 1 <= pos <= |arg| && name == arg[1..pos]
        invariant forall j | 0 < j < pos :: IsAlnum(arg[j])
      {
        name := name + [arg[pos]];
        pos := pos + 1;
      }
      assert pos == |arg| ==> name == arg[1..];
      r := if name != "" && pos == |arg| then Some(ArguDesc(name, true, false, "")) else None;
    } else {
      r := None;
    }
  }

  /** What the two versions have to share: a long name has a `.` exactly when its value is broken over
      lines, and a one-line argument after a single `-` is all letters and digits if it starts so. */
  predicate Shared(arg: string) {
    if "--" <= arg then
      var rest := arg[2..];
      var i := EqualsAt(rest);
      IsLongName(rest[..i]) ==> ('.' in rest[..i] <==> i < |rest| && !IsLine(rest[i + 1..]))
    else
      |arg| >= 2 && arg[0] == '-' && IsAlnum(arg[1]) && IsLine(arg[2..]) ==> forall j | 0 < j < |arg| :: IsAlnum(arg[j])
  }

  /** The two builds of the library agree on an argument exactly when it is `Shared`. */
  lemma ArgumentBuildsAgree(arg: string)
    ensures MatchArgument(arg) == MatchByHand(arg) <==> Shared(arg)
  {
    if "--" <= arg {
      var rest := arg[2..];
      var i := EqualsAt(rest);
      var name := rest[..i];
      assert forall j | 0 <= j < i :: name[j] == rest[j];
      if IsLongName(name) && '.' !in name {
        assert forall j | 0 <= j < i :: name[j] in name && IsWordChar(rest[j]);
      } else if '.' in name {
        var j :| 0 <= j < i && name[j] == '.';
        assert !IsWordChar(rest[j]);
      }
    } else if |arg| >= 2 && arg[0] == '-' && forall j | 0 < j < |arg| :: IsAlnum(arg[j]) {
      assert forall c | c in arg[2..] :: IsAlnum(c);
    }
  }

  /** A file name written directly after a short option, or a `.` in a long name, is what they differ on. */
  lemma ArgumentBuildsDiffer()
    ensures MatchArgument("-oa.q") == Some(ArguDesc("oa.q", true, false, "")) && MatchByHand("-oa.q") == None
    ensures MatchArgument("--a.b") == Some(ArguDesc("a.b", false, false, "")) && MatchByHand("--a.b") == None
  {
    var short, long := "-oa.q", "--a.b";
    assert short[1..] == "oa.q" && short[2..] == "a.q";
    assert short[1] == 'o' && !("--" <= short) && !IsAlnum(short[3]);
    var rest := long[2..];
    assert rest == "a.b" && "--" <= long;
    assert EqualsAt(rest) == 3 && rest[..3] == rest;
    assert IsLongName(rest) && !IsWordChar(rest[1]);
  }

  /** A short group does not go over a line break. */
  lemma GroupsAreLines()
    ensures MatchArgument("-a\n") == None && MatchArgument("-a\r") == None
  {
    assert "-a\n"[2..] == "\n" && '\n' == "\n"[0] && "-a\r"[2..] == "\r" && '\r' == "\r"[0];
  }
}
