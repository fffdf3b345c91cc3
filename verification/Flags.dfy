/** The flags of the integrations command, and what the printed replacement
    command sets when it is pasted back. */
module Flags {
  import opened Options
  import opened Shell

  /** The variables the command's flags are bound to. */
  datatype Settings = Settings(
    connection: string, template: string, mode: string, rotation: string, graceSeconds: int,
    deliverTarget: string, displayName: string, env: string, project: bool, shared: bool)

  const DEFAULTS := Settings("", "", "brokered", "", 0, "", "", "", false, false)

  predicate Digits(s: string)
  {
    s != "" && forall c :: c in s ==> '0' <= c <= '9'
  }

  /** A flag that takes a value, with the word after it. */
  function Set(p: Settings, flag: string, v: string): Option<Settings>
  {
    if flag == "--connection" then Some(p.(connection := v))
    else if flag == "--template" then Some(p.(template := v))
    else if flag == "--mode" then Some(p.(mode := v))
    else if flag == "--rotation" then Some(p.(rotation := v))
    else if flag == "--grace-seconds" then if Digits(v) then Some(p.(graceSeconds := Atoi(v))) else None
    else if flag == "--deliver-target" then Some(p.(deliverTarget := v))
    else if flag == "--display-name" then Some(p.(displayName := v))
    else if flag == "--env" then Some(p.(env := v))
    else None
  }

  /** What a list of flags sets; None for a word that is not one of them, a
      missing value, or one that is not a number where a number is needed. */
  function Parse(words: seq<string>, p: Settings): Option<Settings>
  {
    if words == [] then Some(p)
    else if words[0] == "--project" then Parse(words[1..], p.(project := true))
    else if words[0] == "--shared" then Parse(words[1..], p.(shared := true))
    else if |words| == 1 || Set(p, words[0], words[1]).None? then None
    else Parse(words[2..], Set(p, words[0], words[1]).value)
  }

  lemma ParseNext(flag: string, v: string, rest: seq<string>, p: Settings)
    requires flag != "--project" && flag != "--shared" && Set(p, flag, v).Some?
    ensures Parse([flag, v] + rest, p) == Parse(rest, Set(p, flag, v).value)
  {
    assert ([flag, v] + rest)[2..] == rest;
  }

  lemma ParseOption(flag: string, v: string, rest: seq<string>, p: Settings)
    requires flag != "--project" && flag != "--shared" && Set(p, flag, v).Some?
    ensures Parse(Values(Option2(flag, v)) + rest, p) == Parse(rest, if v == "" then p else Set(p, flag, v).value)
  {
    if v == "" {
      assert Values(Option2(flag, v)) + rest == rest;
    } else {
      assert Values(Option2(flag, v)) == [flag, v];
      ParseNext(flag, v, rest, p);
    }
  }

  lemma ParseFixed(spec: Replacement, rest: seq<string>)
    ensures Parse(Values(Fixed(spec))[6..] + rest, DEFAULTS) ==
      Parse(rest, DEFAULTS.(connection := spec.connection, template := spec.template, mode := "rotated"))
  {
    var a, b := ["--connection", spec.connection], ["--template", spec.template];
    var c := ["--mode", "rotated"];
    assert Values(Fixed(spec))[6..] + rest == a + (b + (c + rest));
    ParseNext("--connection", spec.connection, b + (c + rest), DEFAULTS);
    var p := DEFAULTS.(connection := spec.connection);
    ParseNext("--template", spec.template, c + rest, p);
    ParseNext("--mode", "rotated", rest, p.(template := spec.template));
  }

  lemma ParseGrace(seconds: int, rest: seq<string>, p: Settings)
    requires p.graceSeconds == 0
    ensures Parse(Values(Grace(seconds)) + rest, p) == Parse(rest, p.(graceSeconds := if seconds > 0 then seconds else 0))
  {
    if seconds > 0 {
      ItoaReadsBack(seconds);
      assert Values(Grace(seconds)) == ["--grace-seconds", Itoa(seconds)];
      ParseNext("--grace-seconds", Itoa(seconds), rest, p);
    } else {
      assert Values(Grace(seconds)) + rest == rest;
    }
  }

  lemma ParseScope(spec: Replacement, p: Settings)
    requires p.env == "" && !p.project && !p.shared
    ensures Parse(Values(Scope(spec)), p) == Some(
      if !TrimsToNothing(spec.env) then p.(env := spec.env)
      else if spec.project then p.(project := true)
      else if spec.workspace then p.(shared := true)
      else p)
  {
    if !TrimsToNothing(spec.env) {
      assert Values(Scope(spec)) == ["--env", spec.env] + [];
      ParseNext("--env", spec.env, [], p);
    } else if spec.project {
      assert Values(Scope(spec)) == ["--project"];
    } else if spec.workspace {
      assert Values(Scope(spec)) == ["--shared"];
    }
  }

  lemma ParseQuoted(spec: Replacement, rest: seq<string>, p: Settings)
    requires p.deliverTarget == "" && p.displayName == ""
    ensures Parse(Values(Option2("--deliver-target", spec.deliverTarget)) + (Values(Option2("--display-name", spec.displayName)) + rest), p)
      == Parse(rest, p.(deliverTarget := spec.deliverTarget, displayName := spec.displayName))
  {
    var more := Values(Option2("--display-name", spec.displayName)) + rest;
    ParseOption("--deliver-target", spec.deliverTarget, more, p);
    ParseOption("--display-name", spec.displayName, rest, p.(deliverTarget := spec.deliverTarget));
  }

  /** The values after the fixed part of the command. */
  function Rest(spec: Replacement): seq<string>
  {
    Values(Option2("--rotation", spec.rotation)) + (Values(Grace(spec.graceSeconds)) + Quoteds(spec))
  }

  function Quoteds(spec: Replacement): seq<string>
  {
    Values(Option2("--deliver-target", spec.deliverTarget))
    + (Values(Option2("--display-name", spec.displayName)) + Values(Scope(spec)))
  }

  lemma ValuesOfSix(a: seq<Argument>, b: seq<Argument>, c: seq<Argument>, d: seq<Argument>, e: seq<Argument>, f: seq<Argument>)
    ensures Values(a + b + c + d + e + f) == Values(a) + (Values(b) + (Values(c) + (Values(d) + (Values(e) + Values(f)))))
  {
  }

  lemma ValuesOfArguments(spec: Replacement)
    ensures Values(Arguments(spec)) == Values(Fixed(spec)) + Rest(spec)
  {
    ValuesOfSix(Fixed(spec), Option2("--rotation", spec.rotation), Grace(spec.graceSeconds),
      Option2("--deliver-target", spec.deliverTarget), Option2("--display-name", spec.displayName), Scope(spec));
  }

  /** What the command says to set, when its unquoted fields are plain. */
  ghost function Meant(spec: Replacement): Settings
  {
    Settings(spec.connection, spec.template, "rotated", spec.rotation,
      if spec.graceSeconds > 0 then spec.graceSeconds else 0,
      spec.deliverTarget, spec.displayName,
      if TrimsToNothing(spec.env) then "" else spec.env,
      TrimsToNothing(spec.env) && spec.project,
      TrimsToNothing(spec.env) && !spec.project && spec.workspace)
  }

  lemma RestComesBack(spec: Replacement)
    ensures Parse(Rest(spec), DEFAULTS.(connection := spec.connection, template := spec.template, mode := "rotated"))
      == Some(Meant(spec))
  {
    var p := DEFAULTS.(connection := spec.connection, template := spec.template, mode := "rotated");
    ParseOption("--rotation", spec.rotation, Values(Grace(spec.graceSeconds)) + Quoteds(spec), p);
    p := p.(rotation := spec.rotation);
    ParseGrace(spec.graceSeconds, Quoteds(spec), p);
    p := p.(graceSeconds := if spec.graceSeconds > 0 then spec.graceSeconds else 0);
    ParseQuoted(spec, Values(Scope(spec)), p);
    ParseScope(spec, p.(deliverTarget := spec.deliverTarget, displayName := spec.displayName));
  }

  lemma AfterFixed(spec: Replacement, words: seq<string>)
    requires words == Values(Fixed(spec)) + Rest(spec)
    ensures |words| >= 6 && words[..6] == ["orun", "integrations", spec.provider, "secret", "create", spec.key]
    ensures words[6..] == Values(Fixed(spec))[6..] + Rest(spec)
  {
  }

  /** Pasting the replacement command back asks for the same provider and key,
      and its flags set exactly the fields it was printed for, in rotated mode:
      an environment wins over the project, and the project over the workspace. */
  lemma FieldsComeBack(spec: Replacement)
    requires PlainFields(spec)
    ensures var words := Lex(Join(Printed(Arguments(spec))));
      && words.Some? && |words.value| >= 6
      && words.value[..6] == ["orun", "integrations", spec.provider, "secret", "create", spec.key]
      && Parse(words.value[6..], DEFAULTS) == Some(Meant(spec))
  {
    CommandSurvives(spec);
    ValuesOfArguments(spec);
    AfterFixed(spec, Values(Arguments(spec)));
    ParseFixed(spec, Rest(spec));
    RestComesBack(spec);
  }
}
