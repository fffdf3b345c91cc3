/** The replacement command that is printed for a deprecated one, and what a
    shell reads when it is pasted back. */
module Shell {
  import opened Options

  // ---- the reader: word splitting and quoting, section 2.2 of POSIX.1-2017 XCU ----

  predicate Blank(c: char)
  {
    c == ' ' || c == '\t'
  }

  /** The characters the printer takes for special. Any other one, a newline or
      a semicolon too, is ordinary to the reader below. */
  predicate Special(c: char)
  {
    Blank(c) || c == '\'' || c == '"' || c == '\\' || c == '$' || c == '`'
  }

  ghost predicate PlainWord(s: string)
  {
    s != "" && forall c :: c in s ==> !Special(c)
  }

  function SoFar(word: Option<string>): string
  {
    if word.Some? then word.value else ""
  }

  /** The words of s, the first of them begun with `word`; None where the reader
      has no answer: an open quote, a final backslash, or an expansion. */
  function LexFrom(s: string, word: Option<string>, quoted: bool): Option<seq<string>>
    decreases |s|
  {
    if s == "" then
      if quoted then None else Some(if word.Some? then [word.value] else [])
    else if quoted then
      if s[0] == '\'' then LexFrom(s[1..], Some(SoFar(word)), false)
      else LexFrom(s[1..], Some(SoFar(word) + [s[0]]), true)
    else if Blank(s[0]) then
      var rest := LexFrom(s[1..], None, false);
      if rest.Some? && word.Some? then Some([word.value] + rest.value) else rest
    else if s[0] == '\'' then LexFrom(s[1..], Some(SoFar(word)), true)
    else if s[0] == '\\' then
      if |s| == 1 then None
      else if s[1] == '\n' then LexFrom(s[2..], word, false)
      else LexFrom(s[2..], Some(SoFar(word) + [s[1]]), false)
    else if Special(s[0]) then None
    else LexFrom(s[1..], Some(SoFar(word) + [s[0]]), false)
  }

  function Lex(s: string): Option<seq<string>>
  {
    LexFrom(s, None, false)
  }

  // ---- shellQuote ----

  /** Each single quote closed, escaped and opened again. */
  function EscapeQuotes(s: string): string
  {
    if s == "" then ""
    else (if s[0] == '\'' then "'\\''" else [s[0]]) + EscapeQuotes(s[1..])
  }

  function ShellQuote(s: string): string
  {
    if s != "" && forall c :: c in s ==> !Special(c) then s
    else "'" + EscapeQuotes(s) + "'"
  }

  lemma OrdinaryReads(c: char, word: Option<string>, rest: string)
    requires !Special(c)
    ensures LexFrom([c] + rest, word, false) == LexFrom(rest, Some(SoFar(word) + [c]), false)
  {
  }

  lemma {:induction false} PlainReads(s: string, word: Option<string>, rest: string)
    requires s != "" && forall c :: c in s ==> !Special(c)
    ensures LexFrom(s + rest, word, false) == LexFrom(rest, Some(SoFar(word) + s), false)
    decreases |s|
  {
    var next := Some(SoFar(word) + [s[0]]);
    assert s + rest == [s[0]] + (s[1..] + rest);
    OrdinaryReads(s[0], word, s[1..] + rest);
    if |s| == 1 {
      assert s[1..] + rest == rest && s == [s[0]];
    } else {
      PlainReads(s[1..], next, rest);
      assert SoFar(next) + s[1..] == SoFar(word) + s;
    }
  }

  lemma {:induction false} EscapedReads(s: string, w: string, rest: string)
    ensures LexFrom(EscapeQuotes(s) + rest, Some(w), true) == LexFrom(rest, Some(w + s), true)
    decreases |s|
  {
    if s == "" {
      assert EscapeQuotes(s) + rest == rest && w + s == w;
    } else {
      var t := EscapeQuotes(s[1..]) + rest;
      EscapedReads(s[1..], w + [s[0]], rest);
      assert w + [s[0]] + s[1..] == w + s;
      if s[0] == '\'' {
        EscapedQuoteReads(w, t);
        assert EscapeQuotes(s) + rest == "'\\''" + t;
      } else {
        assert EscapeQuotes(s) + rest == [s[0]] + t && ([s[0]] + t)[1..] == t;
      }
    }
  }

  lemma EscapedQuoteReads(w: string, t: string)
    ensures LexFrom("'\\''" + t, Some(w), true) == LexFrom(t, Some(w + "'"), true)
  {
    var s, s1, s2 := "'\\''" + t, "\\''" + t, "'" + t;
    assert s[1..] == s1 && s1[2..] == s2 && s2[1..] == t;
    assert LexFrom(s, Some(w), true) == LexFrom(s1, Some(w), false);
    assert [s1[1]] == "'" && LexFrom(s1, Some(w), false) == LexFrom(s2, Some(w + "'"), false);
  }

  lemma QuoteOpens(s: string, word: Option<string>)
    ensures LexFrom("'" + s, word, false) == LexFrom(s, Some(SoFar(word)), true)
    ensures LexFrom("'" + s, Some(SoFar(word)), true) == LexFrom(s, Some(SoFar(word)), false)
  {
  }

  lemma EnclosedReads(v: string, rest: string)
    ensures LexFrom("'" + (EscapeQuotes(v) + ("'" + rest)), None, false) == LexFrom(rest, Some(v), false)
  {
    QuoteOpens(EscapeQuotes(v) + ("'" + rest), None);
    EscapedReads(v, "", "'" + rest);
    assert "" + v == v;
    QuoteOpens(rest, Some(v));
  }

  /** What ShellQuote prints is read back as the one word it was given,
      whatever the word and whatever follows. */
  lemma QuotedReads(v: string, rest: string)
    ensures LexFrom(ShellQuote(v) + rest, None, false) == LexFrom(rest, Some(v), false)
  {
    if ShellQuote(v) == "'" + EscapeQuotes(v) + "'" {
      EnclosedReads(v, rest);
      assert ShellQuote(v) + rest == "'" + (EscapeQuotes(v) + ("'" + rest));
    } else {
      PlainReads(v, None, rest);
      assert "" + v == v;
    }
  }

  lemma ShellQuoteIsOneWord(v: string)
    ensures Lex(ShellQuote(v)) == Some([v])
  {
    QuotedReads(v, "");
    assert ShellQuote(v) + "" == ShellQuote(v);
  }

  lemma {:induction false} EscapedIsNoShorter(s: string)
    ensures |s| <= |EscapeQuotes(s)|
  {
    if s != "" {
      EscapedIsNoShorter(s[1..]);
    }
  }

  /** Only what needs it is quoted. */
  lemma QuotedOnlyIfNeeded(v: string)
    ensures ShellQuote(v) == v <==> v != "" && forall c :: c in v ==> c !in [' ', '\t', '"', '\'', '\\', '$', '`']
  {
    EscapedIsNoShorter(v);
  }

  // ---- buildReplacementCommand ----

  datatype Replacement = Replacement(
    provider: string, key: string, connection: string, template: string,
    rotation: string, graceSeconds: int, deliverTarget: string, displayName: string,
    env: string, project: bool, workspace: bool)

  /** An argument the command is meant to carry, and whether it is quoted in print. */
  datatype Argument = Bare(value: string) | Quoted(value: string)

  function Print(a: Argument): string
  {
    if a.Quoted? then ShellQuote(a.value) else a.value
  }

  function Printed(args: seq<Argument>): seq<string>
  {
    seq(|args|, i requires 0 <= i < |args| => Print(args[i]))
  }

  function Values(args: seq<Argument>): seq<string>
  {
    seq(|args|, i requires 0 <= i < |args| => args[i].value)
  }

  function Join(parts: seq<string>): string
  {
    if parts == [] then ""
    else if |parts| == 1 then parts[0]
    else parts[0] + " " + Join(parts[1..])
  }

  predicate IsSpace(c: char)
  {
    || '\t' <= c <= '\r' || c == ' ' || c == '\U{0085}' || c == '\U{00A0}' || c == '\U{1680}'
    || '\U{2000}' <= c <= '\U{200A}' || c == '\U{2028}' || c == '\U{2029}' || c == '\U{202F}'
    || c == '\U{205F}' || c == '\U{3000}'
  }

  /** Nothing is left once surrounding white space is trimmed. */
  predicate TrimsToNothing(s: string)
  {
    forall c :: c in s ==> IsSpace(c)
  }

  function Itoa(n: nat): (s: string)
    ensures s != "" && forall c :: c in s ==> '0' <= c <= '9'
  {
    (if n < 10 then "" else Itoa(n / 10)) + [(n % 10 + '0' as int) as char]
  }

  function Atoi(s: string): int
  {
    if s == "" then 0 else 10 * Atoi(s[..|s| - 1]) + (s[|s| - 1] as int - '0' as int)
  }

  lemma {:induction false} ItoaReadsBack(n: nat)
    ensures Atoi(Itoa(n)) == n
  {
    var before := if n < 10 then "" else Itoa(n / 10);
    assert Itoa(n)[..|Itoa(n)| - 1] == before;
    if n >= 10 {
      ItoaReadsBack(n / 10);
    }
  }

  function Option2(flag: string, value: string): seq<Argument>
  {
    if value == "" then [] else [Bare(flag), Quoted(value)]
  }

  function Scope(spec: Replacement): seq<Argument>
  {
    if !TrimsToNothing(spec.env) then [Bare("--env"), Bare(spec.env)]
    else if spec.project then [Bare("--project")]
    else if spec.workspace then [Bare("--shared")]
    else []
  }

  lemma PrintedJoins(a: seq<Argument>, b: seq<Argument>, parts: seq<string>)
    requires |parts| == |b| && forall i :: 0 <= i < |b| ==> parts[i] == Print(b[i])
    ensures Printed(a + b) == Printed(a) + parts
  {
  }

  method Flagged(parts0: seq<string>, ghost args: seq<Argument>, flag: string, value: string) returns (parts: seq<string>)
    requires parts0 == Printed(args)
    ensures parts == Printed(args + Option2(flag, value))
  {
    parts := parts0;
    assert args + [] == args;
    if value != "" {
      parts := parts + [flag, ShellQuote(value)];
      PrintedJoins(args, Option2(flag, value), [flag, ShellQuote(value)]);
    }
  }

  function Fixed(spec: Replacement): seq<Argument>
  {
    [Bare("orun"), Bare("integrations"), Bare(spec.provider), Bare("secret"), Bare("create"), Bare(spec.key),
     Bare("--connection"), Bare(spec.connection), Bare("--template"), Bare(spec.template),
     Bare("--mode"), Bare("rotated")]
  }

  function Grace(seconds: int): seq<Argument>
  {
    if seconds > 0 then [Bare("--grace-seconds"), Bare(Itoa(seconds))] else []
  }

  /** What the command should pass on. */
  function Arguments(spec: Replacement): seq<Argument>
  {
    Fixed(spec) + Option2("--rotation", spec.rotation) + Grace(spec.graceSeconds)
    + Option2("--deliver-target", spec.deliverTarget) + Option2("--display-name", spec.displayName) + Scope(spec)
  }

  method BuildReplacementCommand(spec: Replacement) returns (command: string)
    ensures command == Join(Printed(Arguments(spec)))
  {
    var parts := [
      "orun", "integrations", spec.provider, "secret", "create", spec.key,
      "--connection", spec.connection,
      "--template", spec.template,
      "--mode", "rotated"];
    ghost var args := Fixed(spec);
    assert parts == Printed(args);
    parts := Flagged(parts, args, "--rotation", spec.rotation);
    args := args + Option2("--rotation", spec.rotation);
    PrintedJoins(args, Grace(spec.graceSeconds), Printed(Grace(spec.graceSeconds)));
    if spec.graceSeconds > 0 {
      parts := parts + ["--grace-seconds", Itoa(spec.graceSeconds)];
    }
    assert args + [] == args;
    args := args + Grace(spec.graceSeconds);
    assert parts == Printed(args);
    parts := Flagged(parts, args, "--deliver-target", spec.deliverTarget);
    args := args + Option2("--deliver-target", spec.deliverTarget);
    parts := Flagged(parts, args, "--display-name", spec.displayName);
    args := args + Option2("--display-name", spec.displayName);
    assert parts == Printed(args);
    PrintedJoins(args, Scope(spec), Printed(Scope(spec)));
    assert args + Scope(spec) == Arguments(spec) && parts + [] == parts;
    ghost var scope := Printed(Scope(spec));
    if !TrimsToNothing(spec.env) {
      assert scope == ["--env", spec.env];
      parts := parts + ["--env", spec.env];
    } else if spec.project {
      assert scope == ["--project"];
      parts := parts + ["--project"];
    } else if spec.workspace {
      assert scope == ["--shared"];
      parts := parts + ["--shared"];
    }
    command := Join(parts);
  }

  // ---- reading the command back ----

  ghost predicate PrintsPlain(a: Argument)
  {
    a.Quoted? || PlainWord(a.value)
  }

  lemma ArgumentReads(a: Argument, rest: string)
    requires PrintsPlain(a)
    ensures LexFrom(Print(a) + rest, None, false) == LexFrom(rest, Some(a.value), false)
  {
    if a.Quoted? {
      QuotedReads(a.value, rest);
    } else {
      PlainReads(a.value, None, rest);
      assert "" + a.value == a.value;
    }
  }

  lemma WordThenRest(a: Argument, rest: string)
    requires PrintsPlain(a) && Lex(rest).Some?
    ensures Lex(Print(a) + " " + rest) == Some([a.value] + Lex(rest).value)
  {
    var s := " " + rest;
    assert s[1..] == rest;
    ArgumentReads(a, s);
    assert Print(a) + " " + rest == Print(a) + s;
  }

  lemma {:induction false} JoinReads(args: seq<Argument>)
    requires forall a :: a in args ==> PrintsPlain(a)
    ensures Lex(Join(Printed(args))) == Some(Values(args))
  {
    if args == [] {
      assert Printed(args) == [] && Values(args) == [];
    } else if |args| == 1 {
      ArgumentReads(args[0], "");
      assert Print(args[0]) + "" == Join(Printed(args)) && Values(args) == [args[0].value];
    } else {
      JoinReads(args[1..]);
      assert Printed(args)[1..] == Printed(args[1..]) && Values(args) == [args[0].value] + Values(args[1..]);
      WordThenRest(args[0], Join(Printed(args[1..])));
    }
  }

  ghost predicate PlainFields(spec: Replacement)
  {
    && PlainWord(spec.provider) && PlainWord(spec.key) && PlainWord(spec.connection) && PlainWord(spec.template)
    && (TrimsToNothing(spec.env) || PlainWord(spec.env))
  }

  lemma CommandWordsArePlain()
    ensures PlainWord("orun") && PlainWord("integrations") && PlainWord("secret") && PlainWord("create")
  {
  }

  lemma FixedFlagsArePlain()
    ensures PlainWord("--connection") && PlainWord("--template") && PlainWord("--mode") && PlainWord("rotated")
  {
  }

  lemma QuotedFlagsArePlain()
    ensures PlainWord("--rotation") && PlainWord("--deliver-target") && PlainWord("--display-name")
  {
  }

  lemma ScopeFlagsArePlain()
    ensures PlainWord("--env") && PlainWord("--project") && PlainWord("--shared") && PlainWord("--grace-seconds")
  {
  }

  lemma FixedPlain(spec: Replacement, i: nat)
    requires PlainFields(spec) && i < 12
    ensures PrintsPlain(Fixed(spec)[i])
  {
    CommandWordsArePlain();
    FixedFlagsArePlain();
  }

  lemma ItoaIsPlain(n: nat)
    ensures PlainWord(Itoa(n))
  {
  }

  lemma GracePlain(seconds: int, a: Argument)
    requires a in Grace(seconds)
    ensures PrintsPlain(a)
  {
    ScopeFlagsArePlain();
    assert Grace(seconds) == [Bare("--grace-seconds"), Bare(Itoa(seconds))];
    ItoaIsPlain(seconds);
  }

  lemma ScopePlain(spec: Replacement, a: Argument)
    requires PlainFields(spec) && a in Scope(spec)
    ensures PrintsPlain(a)
  {
    ScopeFlagsArePlain();
  }

  /** A flag with its quoted value; a plain value prints as it is. */
  lemma OptionPlain(flag: string, value: string, a: Argument)
    requires a in Option2(flag, value)
    ensures PlainWord(flag) ==> PrintsPlain(a)
    ensures PlainWord(value) ==> Print(a) == a.value
  {
  }

  lemma OptionsPlain(spec: Replacement, a: Argument)
    requires a in Option2("--rotation", spec.rotation)
      || a in Option2("--deliver-target", spec.deliverTarget) || a in Option2("--display-name", spec.displayName)
    ensures PrintsPlain(a)
  {
    QuotedFlagsArePlain();
    if a in Option2("--rotation", spec.rotation) {
      OptionPlain("--rotation", spec.rotation, a);
    } else if a in Option2("--deliver-target", spec.deliverTarget) {
      OptionPlain("--deliver-target", spec.deliverTarget, a);
    } else {
      OptionPlain("--display-name", spec.displayName, a);
    }
  }

  /** A pasted command passes on exactly the intended arguments, whatever the
      quoted fields hold, when the unquoted ones are plain words. */
  lemma CommandSurvives(spec: Replacement)
    requires PlainFields(spec)
    ensures Lex(Join(Printed(Arguments(spec)))) == Some(Values(Arguments(spec)))
  {
    forall a | a in Arguments(spec)
      ensures PrintsPlain(a)
    {
      if a in Fixed(spec) {
        var i :| 0 <= i < 12 && Fixed(spec)[i] == a;
        FixedPlain(spec, i);
      } else if a in Grace(spec.graceSeconds) {
        GracePlain(spec.graceSeconds, a);
      } else if a in Scope(spec) {
        ScopePlain(spec, a);
      } else {
        OptionsPlain(spec, a);
      }
    }
    JoinReads(Arguments(spec));
  }

  /** The grace period comes back as the number it was given as. */
  lemma GraceComesBack(spec: Replacement) returns (i: nat)
    requires PlainFields(spec) && spec.graceSeconds > 0
    ensures var words := Lex(Join(Printed(Arguments(spec))));
      words.Some? && i + 1 < |words.value| && words.value[i] == "--grace-seconds" && Atoi(words.value[i + 1]) == spec.graceSeconds
  {
    CommandSurvives(spec);
    ItoaReadsBack(spec.graceSeconds);
    i := |Fixed(spec) + Option2("--rotation", spec.rotation)|;
    var args := Arguments(spec);
    assert args[i] == Grace(spec.graceSeconds)[0] && args[i + 1] == Grace(spec.graceSeconds)[1];
  }

  // ---- exactly which commands survive ----

  /** The characters of the words, and one separator for each. */
  function Size(words: seq<string>): nat
  {
    if words == [] then 0 else |words[0]| + 1 + Size(words[1..])
  }

  /** However a reading stands before s, it gains at most b from it. */
  ghost predicate Bounded(s: string, b: int)
  {
    forall word, quoted {:trigger LexFrom(s, word, quoted)} ::
      LexFrom(s, word, quoted).Some? ==> Size(LexFrom(s, word, quoted).value) <= |SoFar(word)| + b
  }

  /** Also when a backslash before s takes its first character. */
  ghost predicate Strong(s: string, b: int)
  {
    Bounded(s, b) && (s != "" ==> Bounded(s[1..], b))
  }

  lemma NothingGained()
    ensures Strong("", 1)
  {
  }

  lemma WordFirst(w: string, rest: seq<string>)
    ensures Size([w] + rest) == |w| + 1 + Size(rest)
  {
    assert ([w] + rest)[1..] == rest;
  }

  /** A character adds at most itself. */
  lemma OneCharacter(c: char, s: string, b: int, word: Option<string>, quoted: bool)
    requires Strong(s, b) && LexFrom([c] + s, word, quoted).Some?
    ensures Size(LexFrom([c] + s, word, quoted).value) <= |SoFar(word)| + b + 1
  {
    var t := [c] + s;
    assert t[1..] == s;
    if !quoted && Blank(c) {
      if word.Some? {
        WordFirst(word.value, LexFrom(s, None, false).value);
      }
    } else if !quoted && c == '\\' && s != "" {
      assert t[2..] == s[1..];
    }
  }

  lemma Character(c: char, s: string, b: int)
    requires Strong(s, b)
    ensures Strong([c] + s, b + 1)
  {
    forall word, quoted | LexFrom([c] + s, word, quoted).Some?
      ensures Size(LexFrom([c] + s, word, quoted).value) <= |SoFar(word)| + b + 1
    {
      OneCharacter(c, s, b, word, quoted);
    }
    assert ([c] + s)[1..] == s;
  }

  /** A single quote adds nothing. */
  lemma QuoteMark(s: string, b: int)
    requires Strong(s, b)
    ensures Strong("'" + s, b)
  {
    assert ("'" + s)[1..] == s;
  }

  lemma {:induction false} Characters(v: string, s: string, b: int)
    requires Strong(s, b)
    ensures Strong(v + s, b + |v|)
  {
    if v == "" {
      assert v + s == s;
    } else {
      Characters(v[1..], s, b);
      Character(v[0], v[1..] + s, b + |v| - 1);
      assert v + s == [v[0]] + (v[1..] + s);
    }
  }

  lemma EscapedMark(s: string, b: int)
    requires Strong(s, b)
    ensures Strong("'\\''" + s, b + 1)
  {
    QuoteMark(s, b);
    QuoteMark("'" + s, b);
    Character('\\', "'" + ("'" + s), b);
    assert ['\\'] + ("'" + ("'" + s)) == "\\''" + s;
    QuoteMark("\\''" + s, b + 1);
    assert "'" + ("\\''" + s) == "'\\''" + s;
  }

  lemma {:induction false} Escaped(v: string, s: string, b: int)
    requires Strong(s, b)
    ensures Strong(EscapeQuotes(v) + s, b + |v|)
  {
    if v == "" {
      assert EscapeQuotes(v) + s == s;
    } else {
      var t := EscapeQuotes(v[1..]) + s;
      Escaped(v[1..], s, b);
      if v[0] == '\'' {
        EscapedMark(t, b + |v| - 1);
        assert EscapeQuotes(v) + s == "'\\''" + t;
      } else {
        Character(v[0], t, b + |v| - 1);
        assert EscapeQuotes(v) + s == [v[0]] + t;
      }
    }
  }

  /** A printed argument adds at most its value, quoted or not. */
  lemma PrintedArgument(a: Argument, s: string, b: int)
    requires Strong(s, b)
    ensures Strong(Print(a) + s, b + |a.value|)
  {
    if a.Bare? || Print(a) == a.value {
      Characters(a.value, s, b);
    } else {
      QuoteMark(s, b);
      Escaped(a.value, "'" + s, b);
      QuoteMark(EscapeQuotes(a.value) + ("'" + s), b + |a.value|);
      assert Print(a) + s == "'" + (EscapeQuotes(a.value) + ("'" + s));
    }
  }

  /** What follows a printed argument: nothing, or a blank and more. */
  ghost predicate Following(s: string, b: int)
  {
    if s == "" then b == 1 else s[0] == ' ' && Strong(s[1..], b - 1)
  }

  lemma FollowingIsStrong(s: string, b: int)
    requires Following(s, b)
    ensures Strong(s, b)
  {
    if s == "" {
      NothingGained();
    } else {
      Character(' ', s[1..], b - 1);
      assert s == [' '] + s[1..];
    }
  }

  function After(args: seq<Argument>): string
  {
    if args == [] then "" else " " + Join(Printed(args))
  }

  lemma JoinCons(first: string, rest: seq<string>)
    ensures Join([first] + rest) == first + if rest == [] then "" else " " + Join(rest)
  {
    assert ([first] + rest)[1..] == rest;
    if rest != [] {
      assert first + " " + Join(rest) == first + (" " + Join(rest));
    }
  }

  lemma HeadFirst(args: seq<Argument>)
    requires args != []
    ensures Printed(args) == [Print(args[0])] + Printed(args[1..])
    ensures Values(args) == [args[0].value] + Values(args[1..])
  {
    forall i | 0 <= i < |args|
      ensures Printed(args)[i] == ([Print(args[0])] + Printed(args[1..]))[i]
      ensures Values(args)[i] == ([args[0].value] + Values(args[1..]))[i]
    {
      assert i > 0 ==> args[i] == args[1..][i - 1];
    }
  }

  lemma JoinOne(args: seq<Argument>)
    requires args != []
    ensures Join(Printed(args)) == Print(args[0]) + After(args[1..])
    ensures Values(args) == [args[0].value] + Values(args[1..])
  {
    HeadFirst(args);
    JoinCons(Print(args[0]), Printed(args[1..]));
  }

  /** A print never reads back as more than its values. */
  lemma {:induction false} AfterBounded(args: seq<Argument>)
    ensures Following(After(args), 1 + Size(Values(args)))
  {
    if args != [] {
      AfterBounded(args[1..]);
      FollowingIsStrong(After(args[1..]), 1 + Size(Values(args[1..])));
      PrintedArgument(args[0], After(args[1..]), 1 + Size(Values(args[1..])));
      JoinOne(args);
      WordFirst(args[0].value, Values(args[1..]));
      assert After(args)[1..] == Join(Printed(args));
    }
  }

  /** A word with a special character in it, read up to there. */
  lemma {:induction false} UpToSpecial(p: string) returns (x: string, c: char, y: string)
    requires p != "" && !PlainWord(p)
    ensures p == x + [c] + y && Special(c) && forall k :: k in x ==> !Special(k)
  {
    if Special(p[0]) {
      x, c, y := "", p[0], p[1..];
    } else {
      x, c, y := UpToSpecial(p[1..]);
      x := [p[0]] + x;
      assert p == [p[0]] + p[1..];
    }
  }

  /** The reading just before a special character: the word so far, if any. */
  function Begun(x: string): Option<string>
  {
    if x == "" then None else Some(x)
  }

  lemma QuoteLoses(x: string, t: string, b: int)
    requires Bounded(t, b) && LexFrom("'" + t, Begun(x), false).Some?
    ensures Size(LexFrom("'" + t, Begun(x), false).value) <= |x| + b
  {
    QuoteOpens(t, Begun(x));
    assert LexFrom("'" + t, Begun(x), false) == LexFrom(t, Some(x), true);
  }

  lemma BlankLoses(x: string, c: char, t: string, b: int)
    requires Blank(c) && Bounded(t, b) && LexFrom([c] + t, Begun(x), false).Some?
    ensures var words := LexFrom([c] + t, Begun(x), false).value;
      if x == "" then Size(words) <= b else words != [] && words[0] == x
  {
    assert ([c] + t)[1..] == t;
    assert LexFrom(t, None, false).Some?;
  }

  lemma BackslashLoses(x: string, t: string, b: int)
    requires t != "" && Bounded(t[1..], b) && LexFrom("\\" + t, Begun(x), false).Some?
    ensures Size(LexFrom("\\" + t, Begun(x), false).value) <= |x| + 1 + b
  {
    var s := "\\" + t;
    assert s[1] == t[0] && s[2..] == t[1..];
    if t[0] == '\n' {
      assert LexFrom(s, Begun(x), false) == LexFrom(t[1..], Begun(x), false);
    } else {
      assert LexFrom(s, Begun(x), false) == LexFrom(t[1..], Some(x + [t[0]]), false);
    }
  }

  lemma BackslashEats(x: string, y: string, s: string, b: int)
    requires Following(s, b) && LexFrom("\\" + (y + s), Begun(x), false).Some?
    ensures Size(LexFrom("\\" + (y + s), Begun(x), false).value) <= |x| + |y| + b
  {
    var t := y + s;
    if y != "" {
      FollowingIsStrong(s, b);
      Characters(y[1..], s, b);
      assert t[1..] == y[1..] + s;
      BackslashLoses(x, t, b + |y| - 1);
    } else {
      assert t == s;
      if s != "" {
        BackslashLoses(x, t, b - 1);
      }
    }
  }

  /** The special character is lost: what follows cannot make up for it. */
  lemma SpecialLoses(x: string, c: char, y: string, s: string, b: int)
    requires Special(c) && Following(s, b) && LexFrom([c] + (y + s), Begun(x), false).Some?
    ensures var words := LexFrom([c] + (y + s), Begun(x), false).value;
      Size(words) <= |x| + |y| + b || (words != [] && words[0] == x)
  {
    FollowingIsStrong(s, b);
    Characters(y, s, b);
    if c == '\'' {
      QuoteLoses(x, y + s, b + |y|);
    } else if Blank(c) {
      BlankLoses(x, c, y + s, b + |y|);
    } else if c == '\\' {
      BackslashEats(x, y, s, b);
    }
  }

  lemma NothingPrinted(s: string, b: int, rest: seq<string>)
    requires Following(s, b) && b == 1 + Size(rest)
    ensures Lex(s) != Some([""] + rest)
  {
    WordFirst("", rest);
    if s != "" {
      assert Lex(s) == Lex(s[1..]) && Bounded(s[1..], b - 1);
    }
  }

  /** A bare word that is not plain does not come back. */
  lemma NotPlainIsLost(p: string, s: string, b: int, rest: seq<string>)
    requires p != "" && !PlainWord(p) && Following(s, b) && b == 1 + Size(rest)
    ensures Lex(p + s) != Some([p] + rest)
  {
    WordFirst(p, rest);
    var x, c, y := UpToSpecial(p);
    var t := [c] + (y + s);
    assert p + s == x + t;
    assert Lex(p + s) == LexFrom(t, Begun(x), false) by {
      if x != "" {
        PlainReads(x, None, t);
        assert "" + x == x;
      } else {
        assert x + t == t;
      }
    }
    if Lex(p + s).Some? {
      SpecialLoses(x, c, y, s, b);
    }
  }

  lemma FirstIsPlain(args: seq<Argument>)
    requires args != [] && Lex(Join(Printed(args))) == Some(Values(args))
    ensures PrintsPlain(args[0])
  {
    if !PrintsPlain(args[0]) {
      var s, rest := After(args[1..]), Values(args[1..]);
      JoinOne(args);
      AfterBounded(args[1..]);
      if args[0].value == "" {
        assert Print(args[0]) + s == s;
        NothingPrinted(s, 1 + Size(rest), rest);
      } else {
        NotPlainIsLost(args[0].value, s, 1 + Size(rest), rest);
      }
    }
  }

  lemma {:induction false} SurvivorsArePlain(args: seq<Argument>)
    requires Lex(Join(Printed(args))) == Some(Values(args))
    ensures forall a :: a in args ==> PrintsPlain(a)
  {
    if args != [] {
      FirstIsPlain(args);
      if |args| > 1 {
        FirstComesBack(args);
        SurvivorsArePlain(args[1..]);
      }
      assert args == [args[0]] + args[1..];
    }
  }

  /** A list of arguments, printed and read back, is itself exactly when every
      bare one is plain. */
  lemma ArgumentsSurviveIff(args: seq<Argument>)
    ensures Lex(Join(Printed(args))) == Some(Values(args)) <==> forall a :: a in args ==> PrintsPlain(a)
  {
    if forall a :: a in args ==> PrintsPlain(a) {
      JoinReads(args);
    }
    if Lex(Join(Printed(args))) == Some(Values(args)) {
      SurvivorsArePlain(args);
    }
  }

  lemma FirstComesBack(args: seq<Argument>)
    requires args != [] && PrintsPlain(args[0]) && |args| > 1
    requires Lex(Join(Printed(args))) == Some(Values(args))
    ensures Lex(Join(Printed(args[1..]))) == Some(Values(args[1..]))
  {
    JoinOne(args);
    var rest := Join(Printed(args[1..]));
    ArgumentReads(args[0], After(args[1..]));
    assert After(args[1..])[1..] == rest;
    assert ([args[0].value] + Lex(rest).value)[1..] == Lex(rest).value;
    assert ([args[0].value] + Values(args[1..]))[1..] == Values(args[1..]);
  }

  ghost predicate AllPlain(words: seq<string>)
  {
    forall w :: w in words ==> PlainWord(w)
  }

  /** Words printed as they are read back as themselves exactly when each is
      plain: not empty, and free of every character the quoting tests for. */
  lemma BareWordsSurviveIffPlain(words: seq<string>)
    ensures Lex(Join(words)) == Some(words) <==> AllPlain(words)
  {
    var args := seq(|words|, i requires 0 <= i < |words| => Bare(words[i]));
    assert Printed(args) == words && Values(args) == words;
    ArgumentsSurviveIff(args);
    forall i | 0 <= i < |words|
      ensures PrintsPlain(args[i]) <==> PlainWord(words[i])
    {
    }
  }

  /** Whatever its quoted fields hold, the pasted command passes on exactly the
      intended arguments if and only if its unquoted fields are plain words: one
      blank or quote in them and it means something else. */
  lemma CommandSurvivesIffPlain(spec: Replacement)
    ensures Lex(Join(Printed(Arguments(spec)))) == Some(Values(Arguments(spec))) <==> PlainFields(spec)
  {
    if PlainFields(spec) {
      CommandSurvives(spec);
    } else {
      ArgumentsSurviveIff(Arguments(spec));
      FieldsAreBare(spec);
    }
  }

  lemma FieldsAreBare(spec: Replacement)
    ensures var args := Arguments(spec);
      && Bare(spec.provider) in args && Bare(spec.key) in args
      && Bare(spec.connection) in args && Bare(spec.template) in args
      && (TrimsToNothing(spec.env) || Bare(spec.env) in args)
  {
    var args := Arguments(spec);
    assert args[2] == Bare(spec.provider) && args[5] == Bare(spec.key);
    assert args[7] == Bare(spec.connection) && args[9] == Bare(spec.template);
    if !TrimsToNothing(spec.env) {
      assert args[|args| - 1] == Bare(spec.env);
    }
  }
}
