/** The pure rules TravisYmlStats applies to a request's parsed build
    configuration and to its event payload: the language classification, the
    language-version lists, the flattened command list with its whole-word
    scans, the reported GitHub language and `normalize_string`. */
module ConfigRules {
  import opened RubyValues
  import StringSort

  /** A parsed .travis.yml: a Ruby hash with string keys. */
  type Config = map<string, Value>

  /** `LANGUAGE_VERSION_KEYS`. */
  const LanguageVersionKeys: seq<string> :=
    ["ghc", "go", "jdk", "node_js", "otp_release", "perl", "php", "python", "ruby", "rvm", "scala"]

  /** The configuration keys `commands` reads, in the order it reads them. */
  const CommandPhases: seq<string> :=
    ["before_install", "install", "before_script", "script",
     "after_success", "after_failure", "before_deploy", "after_deploy"]

  /** `hash[key]`: nil when the key is absent. */
  function Lookup(h: map<string, Value>, key: string): Value {
    if key in h then h[key] else Nil
  }

  // ----- language -----

  /** `travis_yml_language`. */
  function TravisYmlLanguage(config: Config): (r: string)
    ensures Lookup(config, "language").Str? ==> r == Lookup(config, "language").s
    ensures Lookup(config, "language").Nil? ==> r == "default"
    ensures !Lookup(config, "language").Str? && !Lookup(config, "language").Nil? ==> r == "invalid"
  {
    match Lookup(config, "language")
    case Str(s) => s
    case Nil => "default"
    case _ => "invalid"
  }

  // ----- language versions -----

  /** `Array(v)` for the two types the version rule accepts. */
  function ArrayOf(v: Value): seq<Value>
    requires v.Str? || v.Arr?
  {
    if v.Str? then [v] else v.items
  }

  /** `map(&:to_s)`. */
  function ToSAll(vs: seq<Value>): (r: seq<string>)
    ensures |r| == |vs| && forall i :: 0 <= i < |vs| ==> r[i] == ToS(vs[i])
  {
    seq(|vs|, i requires 0 <= i < |vs| => ToS(vs[i]))
  }

  /** What `set_language_version` records for a present version key:
      `Array(v).map(&:to_s).sort` for a String or an Array, else `["invalid"]`. */
  function VersionList(v: Value): (r: seq<string>)
    ensures v.Str? || v.Arr? ==>
      StringSort.Sorted(r) && multiset(r) == multiset(ToSAll(ArrayOf(v))) && |r| == |ArrayOf(v)|
    ensures v.Str? ==> r == [v.s]
    ensures !v.Str? && !v.Arr? ==> r == ["invalid"]
  {
    if v.Str? || v.Arr? then StringSort.Sort(ToSAll(ArrayOf(v))) else ["invalid"]
  }

  /** The Ruby array of strings stored in the payload. */
  function StrValues(ss: seq<string>): (r: seq<Value>)
    ensures |r| == |ss| && forall i :: 0 <= i < |ss| ==> r[i] == Str(ss[i])
  {
    seq(|ss|, i requires 0 <= i < |ss| => Str(ss[i]))
  }

  /** Two version entries are the same list exactly when the sorted
      stringified elements agree: the list depends on the elements and not on
      their order in the configuration. */
  lemma VersionListOrderFree(a: seq<Value>, b: seq<Value>)
    requires multiset(ToSAll(a)) == multiset(ToSAll(b))
    ensures VersionList(Arr(a)) == VersionList(Arr(b))
  {
    StringSort.SortedUnique(VersionList(Arr(a)), VersionList(Arr(b)));
  }

  /** Any sorted arrangement of the stringified elements is the version list. */
  lemma VersionListIs(items: seq<Value>, expected: seq<string>)
    requires StringSort.Sorted(expected) && multiset(expected) == multiset(ToSAll(items))
    ensures VersionList(Arr(items)) == expected
  {
    StringSort.SortedUnique(VersionList(Arr(items)), expected);
  }

  // ----- commands -----

  /** `Array#flatten`: nested arrays are spliced in, recursively. */
  function Flatten(vs: seq<Value>): seq<Value>
    decreases vs
  {
    if vs == [] then []
    else
      var head := vs[0];
      (if head.Arr? then Flatten(head.items) else [head]) + Flatten(vs[1..])
  }

  /** `Array#compact`: the nils are dropped. */
  function Compact(vs: seq<Value>): (r: seq<Value>)
    ensures forall x :: x in r <==> x in vs && !x.Nil?
    ensures |r| <= |vs|
  {
    if vs == [] then []
    else (if vs[0].Nil? then [] else [vs[0]]) + Compact(vs[1..])
  }

  /** The values of the given configuration keys, nil for the absent ones. */
  function PhaseValues(config: Config, phases: seq<string>): (r: seq<Value>)
    ensures |r| == |phases| && forall i :: 0 <= i < |phases| ==> r[i] == Lookup(config, phases[i])
  {
    if phases == [] then [] else [Lookup(config, phases[0])] + PhaseValues(config, phases[1..])
  }

  /** `commands`: the command phases, flattened into one list without nils. */
  function Commands(config: Config): (r: seq<Value>)
    ensures forall x :: x in r ==> !x.Arr? && !x.Nil?
  {
    FlattenNoArrays(PhaseValues(config, CommandPhases));
    Compact(Flatten(PhaseValues(config, CommandPhases)))
  }

  /** The commands one phase value contributes. */
  function CommandsOf(v: Value): seq<Value> {
    Compact(Flatten([v]))
  }

  function ConcatPhases(config: Config, phases: seq<string>): seq<Value> {
    if phases == [] then [] else CommandsOf(Lookup(config, phases[0])) + ConcatPhases(config, phases[1..])
  }

  /** `flatten` leaves no array in its result. */
  lemma {:induction false} FlattenNoArrays(vs: seq<Value>)
    ensures forall x :: x in Flatten(vs) ==> !x.Arr?
    decreases vs
  {
    if vs != [] {
      if vs[0].Arr? {
        FlattenNoArrays(vs[0].items);
      }
      FlattenNoArrays(vs[1..]);
    }
  }

  lemma {:induction false} FlattenAppend(a: seq<Value>, b: seq<Value>)
    ensures Flatten(a + b) == Flatten(a) + Flatten(b)
    decreases |a|
  {
    if a != [] {
      var x, t := a[0], a[1..];
      assert a == [x] + t && a + b == [x] + (t + b);
      FlattenCons(x, t);
      FlattenCons(x, t + b);
      FlattenAppend(t, b);
    } else {
      assert a + b == b;
    }
  }

  lemma FlattenCons(x: Value, t: seq<Value>)
    ensures Flatten([x] + t) == (if x.Arr? then Flatten(x.items) else [x]) + Flatten(t)
  {
    assert ([x] + t)[0] == x && ([x] + t)[1..] == t;
  }

  lemma {:induction false} CompactAppend(a: seq<Value>, b: seq<Value>)
    ensures Compact(a + b) == Compact(a) + Compact(b)
    decreases |a|
  {
    if a != [] {
      assert (a + b)[0] == a[0] && (a + b)[1..] == a[1..] + b;
      CompactAppend(a[1..], b);
    } else {
      assert a + b == b;
    }
  }

  lemma {:induction false} ConcatPhasesIsCommands(config: Config, phases: seq<string>)
    ensures Compact(Flatten(PhaseValues(config, phases))) == ConcatPhases(config, phases)
    decreases |phases|
  {
    if phases != [] {
      var vs := PhaseValues(config, phases);
      assert vs == [vs[0]] + PhaseValues(config, phases[1..]);
      FlattenAppend([vs[0]], PhaseValues(config, phases[1..]));
      CompactAppend(Flatten([vs[0]]), Flatten(PhaseValues(config, phases[1..])));
      ConcatPhasesIsCommands(config, phases[1..]);
    }
  }

  /** The command list is the commands of each phase, in the fixed phase order. */
  lemma CommandsInPhaseOrder(config: Config)
    ensures Commands(config) ==
      CommandsOf(Lookup(config, "before_install")) + (CommandsOf(Lookup(config, "install")) +
      (CommandsOf(Lookup(config, "before_script")) + (CommandsOf(Lookup(config, "script")) +
      (CommandsOf(Lookup(config, "after_success")) + (CommandsOf(Lookup(config, "after_failure")) +
      (CommandsOf(Lookup(config, "before_deploy")) + CommandsOf(Lookup(config, "after_deploy"))))))))
  {
    ConcatPhasesIsCommands(config, CommandPhases);
    ConcatEight(config, CommandPhases);
  }

  lemma ConcatEight(config: Config, p: seq<string>)
    requires |p| == 8
    ensures ConcatPhases(config, p) ==
      CommandsOf(Lookup(config, p[0])) + (CommandsOf(Lookup(config, p[1])) +
      (CommandsOf(Lookup(config, p[2])) + (CommandsOf(Lookup(config, p[3])) +
      (CommandsOf(Lookup(config, p[4])) + (CommandsOf(Lookup(config, p[5])) +
      (CommandsOf(Lookup(config, p[6])) + CommandsOf(Lookup(config, p[7]))))))))
  {
    assert p[0..] == p && p[8..] == [];
    ConcatPhasesStep(config, p, 7);
    assert ConcatPhases(config, p[7..]) == CommandsOf(Lookup(config, p[7]));
    ConcatPhasesStep(config, p, 6);
    ConcatPhasesStep(config, p, 5);
    ConcatPhasesStep(config, p, 4);
    ConcatPhasesStep(config, p, 3);
    ConcatPhasesStep(config, p, 2);
    ConcatPhasesStep(config, p, 1);
    ConcatPhasesStep(config, p, 0);
  }

  lemma ConcatPhasesStep(config: Config, p: seq<string>, k: nat)
    requires k < |p|
    ensures ConcatPhases(config, p[k..]) == CommandsOf(Lookup(config, p[k])) + ConcatPhases(config, p[k + 1..])
  {
    assert p[k..][0] == p[k] && p[k..][1..] == p[k + 1..];
  }

  /** `x` is a non-array value somewhere inside `v`, at any depth of nesting. */
  predicate Occurs(x: Value, v: Value)
    decreases v
  {
    if v.Arr? then exists j :: 0 <= j < |v.items| && Occurs(x, v.items[j]) else x == v
  }

  lemma {:induction false} FlattenMembers(vs: seq<Value>, x: Value)
    ensures x in Flatten(vs) <==> exists i :: 0 <= i < |vs| && Occurs(x, vs[i])
    decreases vs
  {
    if vs != [] {
      FlattenMembers(vs[1..], x);
      if vs[0].Arr? {
        FlattenMembers(vs[0].items, x);
      }
      if exists i :: 0 <= i < |vs| && Occurs(x, vs[i]) {
        var i :| 0 <= i < |vs| && Occurs(x, vs[i]);
        if i > 0 { assert vs[1..][i - 1] == vs[i]; }
      }
      if exists i :: 0 <= i < |vs| - 1 && Occurs(x, vs[1..][i]) {
        var i :| 0 <= i < |vs| - 1 && Occurs(x, vs[1..][i]);
        assert vs[i + 1] == vs[1..][i];
      }
    }
  }

  /** A phase contributes exactly the non-nil values found at any depth inside it. */
  lemma CommandsOfMembers(v: Value, x: Value)
    ensures x in CommandsOf(v) <==> Occurs(x, v) && !x.Nil?
  {
    FlattenMembers([v], x);
  }

  /** A phase given as one command contributes just that command. */
  lemma CommandsOfString(s: string)
    ensures CommandsOf(Str(s)) == [Str(s)]
  {
    assert [Str(s)][1..] == [];
    assert Flatten([Str(s)]) == [Str(s)] + Flatten([]);
    assert Compact([Str(s)]) == [Str(s)] + Compact([]);
  }

  /** An absent or nil phase contributes nothing. */
  lemma CommandsOfNil()
    ensures CommandsOf(Nil) == []
  {
    assert [Nil][1..] == [];
    assert Flatten([Nil]) == [Nil] + Flatten([]);
  }

  /** A configuration without any command phase has no commands. */
  lemma NoPhasesNoCommands(config: Config)
    requires forall p :: p in CommandPhases ==> Lookup(config, p).Nil?
    ensures Commands(config) == []
  {
    CommandsInPhaseOrder(config);
    assert [Nil][1..] == [];
  }

  // ----- whole-word scan -----

  /** A character `\w` matches (ASCII). */
  predicate IsWordChar(c: char) {
    ('a' <= c <= 'z') || ('A' <= c <= 'Z') || ('0' <= c <= '9') || c == '_'
  }

  /** `\b` at position i: word characters on exactly one side. */
  predicate WordBoundary(s: string, i: int)
    requires 0 <= i <= |s|
  {
    (i > 0 && IsWordChar(s[i - 1])) != (i < |s| && IsWordChar(s[i]))
  }

  /** `/\bw\b/` matches `s` at index i. */
  predicate MatchesAt(s: string, w: string, i: int) {
    0 <= i && i + |w| <= |s| && s[i..i + |w|] == w && WordBoundary(s, i) && WordBoundary(s, i + |w|)
  }

  predicate ContainsWord(s: string, w: string) {
    exists i :: 0 <= i <= |s| && MatchesAt(s, w, i)
  }

  /** The leftmost match at or after `from`, as the regex engine scans. */
  function FirstMatch(s: string, w: string, from: nat): (r: Option<nat>)
    ensures r.Some? ==> from <= r.value && MatchesAt(s, w, r.value)
    ensures r.Some? ==> forall j :: from <= j < r.value ==> !MatchesAt(s, w, j)
    ensures r.None? ==> forall j :: from <= j ==> !MatchesAt(s, w, j)
    decreases |s| - from
  {
    if from + |w| > |s| then None
    else if MatchesAt(s, w, from) then Some(from)
    else FirstMatch(s, w, from + 1)
  }

  /** `command =~ /\bw\b/`: the index of the first match; a non-String
      command never matches. */
  function RegexIndex(command: Value, w: string): (r: Option<nat>)
    ensures r.Some? <==> MatchText(command).Some? && ContainsWord(MatchText(command).value, w)
  {
    match MatchText(command)
    case Some(text) => FirstMatch(text, w, 0)
    case None => None
  }

  /** The text `=~` matches against: a String's own text, a Symbol's name
      (`Symbol#=~` matches its name); any other value never matches. */
  function MatchText(v: Value): Option<string> {
    match v
    case Str(s) => Some(s)
    case Sym(name) => Some(name)
    case _ => None
  }

  /** `commands.any? { |command| command =~ /\bw\b/ }`. */
  function AnyMatch(commands: seq<Value>, w: string): (b: bool)
    ensures b <==> exists i :: 0 <= i < |commands| && MatchText(commands[i]).Some? && ContainsWord(MatchText(commands[i]).value, w)
  {
    if commands == [] then false
    else if RegexIndex(commands[0], w).Some? then true
    else
      var b := AnyMatch(commands[1..], w);
      assert forall i :: 1 <= i < |commands| ==> commands[i] == commands[1..][i - 1];
      b
  }

  /** `uses_sudo`. */
  function UsesSudo(config: Config): (b: bool)
    ensures b <==> exists c :: c in Commands(config) && MatchText(c).Some? && ContainsWord(MatchText(c).value, "sudo")
  {
    AnyMatch(Commands(config), "sudo")
  }

  /** `uses_apt_get`. */
  function UsesAptGet(config: Config): (b: bool)
    ensures b <==> exists c :: c in Commands(config) && MatchText(c).Some? && ContainsWord(MatchText(c).value, "apt-get")
  {
    AnyMatch(Commands(config), "apt-get")
  }

  /** For a word that starts and ends with a word character, `\bw\b` means:
      no word character right before it and none right after it. */
  lemma WholeWord(s: string, w: string, i: int)
    requires |w| > 0 && IsWordChar(w[0]) && IsWordChar(w[|w| - 1])
    requires 0 <= i && i + |w| <= |s| && s[i..i + |w|] == w
    ensures MatchesAt(s, w, i) <==>
      (i == 0 || !IsWordChar(s[i - 1])) && (i + |w| == |s| || !IsWordChar(s[i + |w|]))
  {
    assert s[i] == w[0] && s[i + |w| - 1] == w[|w| - 1];
  }

  /** `sudo` inside a longer word is not a match: a `script` of
      `["pseudo ls", "cat sudoers"]` does not use sudo. */
  lemma SudoInsideWords()
    ensures !UsesSudo(map["script" := Arr([Str("pseudo ls"), Str("cat sudoers")])])
  {
    var script := [Str("pseudo ls"), Str("cat sudoers")];
    ScriptOnlyCommands(map["script" := Arr(script)], script);
    NoSudoIn("pseudo ls");
    NoSudoIn("cat sudoers");
  }

  lemma NoSudoIn(s: string)
    requires s == "pseudo ls" || s == "cat sudoers"
    ensures !ContainsWord(s, "sudo")
  {
    forall i | 0 <= i <= |s| ensures !MatchesAt(s, "sudo", i) {
      if s == "pseudo ls" && i == 2 {
        assert !WordBoundary(s, 2);
      } else if s == "cat sudoers" && i == 4 {
        assert !WordBoundary(s, 8);
      }
    }
  }

  /** A `script` of `["sudo apt-get update"]` uses both sudo and apt-get. */
  lemma SudoAptGetScript()
    ensures UsesSudo(map["script" := Arr([Str("sudo apt-get update")])])
    ensures UsesAptGet(map["script" := Arr([Str("sudo apt-get update")])])
  {
    var s := "sudo apt-get update";
    var config := map["script" := Arr([Str(s)])];
    ScriptOnlyCommands(config, [Str(s)]);
    SudoAptGetWords(s);
    assert Str(s) in Commands(config) && MatchText(Str(s)) == Some(s);
  }

  lemma SudoAptGetWords(s: string)
    requires s == "sudo apt-get update"
    ensures ContainsWord(s, "sudo") && ContainsWord(s, "apt-get")
  {
    assert MatchesAt(s, "sudo", 0) by { assert s[0..4] == "sudo"; }
    assert MatchesAt(s, "apt-get", 5) by { assert s[5..12] == "apt-get"; }
  }

  /** A configuration whose only command phase is a `script` list of commands. */
  lemma ScriptOnlyCommands(config: Config, script: seq<Value>)
    requires config == map["script" := Arr(script)]
    requires forall x :: x in script ==> !x.Arr? && !x.Nil?
    ensures Commands(config) == script
  {
    CommandsOfNil();
    CommandsOfFlatList(script);
    var n := CommandsOf(Nil);
    assert Lookup(config, "before_install") == Nil && Lookup(config, "install") == Nil;
    assert Lookup(config, "before_script") == Nil && Lookup(config, "script") == Arr(script);
    assert Lookup(config, "after_success") == Nil && Lookup(config, "after_failure") == Nil;
    assert Lookup(config, "before_deploy") == Nil && Lookup(config, "after_deploy") == Nil;
    CommandsInPhaseOrder(config);
    assert Commands(config) == n + (n + (n + (script + (n + (n + (n + n))))));
  }

  /** An array of plain commands contributes itself. */
  lemma CommandsOfFlatList(script: seq<Value>)
    requires forall x :: x in script ==> !x.Arr? && !x.Nil?
    ensures CommandsOf(Arr(script)) == script
  {
    assert [Arr(script)][1..] == [];
    assert Flatten([Arr(script)]) == Flatten(script) + Flatten([]);
    FlattenFlat(script);
    assert Flatten([]) == [];
    assert Flatten([Arr(script)]) == script;
    CompactNoNil(script);
  }

  lemma {:induction false} FlattenFlat(vs: seq<Value>)
    requires forall x :: x in vs ==> !x.Arr?
    ensures Flatten(vs) == vs
    decreases |vs|
  {
    if vs != [] {
      FlattenFlat(vs[1..]);
      assert vs == [vs[0]] + vs[1..];
    }
  }

  lemma {:induction false} CompactNoNil(vs: seq<Value>)
    requires forall x :: x in vs ==> !x.Nil?
    ensures Compact(vs) == vs
    decreases |vs|
  {
    if vs != [] {
      CompactNoNil(vs[1..]);
      assert vs == [vs[0]] + vs[1..];
    }
  }

  /** A configuration with no command phases uses neither sudo nor apt-get. */
  lemma NoPhasesNoPrivilegedCommands(config: Config)
    requires forall p :: p in CommandPhases ==> Lookup(config, p).Nil?
    ensures !UsesSudo(config) && !UsesAptGet(config)
  {
    NoPhasesNoCommands(config);
  }

  // ----- GitHub language -----

  /** `string[substring]` finds `t` inside `s`. */
  predicate Includes(s: string, t: string) {
    exists i :: 0 <= i <= |s| && SubstringAt(s, t, i)
  }

  predicate SubstringAt(s: string, t: string, i: int) {
    0 <= i && i + |t| <= |s| && s[i..i + |t|] == t
  }

  /** `payload.fetch("repository", {})["language"]`: a missing repository
      reads as an empty hash; a hash gives its "language" entry or nil; a
      String or a Symbol gives "language" if its text contains it
      (`String#[]`, `Symbol#[]`); nil,
      true, false and floats raise NoMethodError; integers and arrays raise
      TypeError. */
  function GithubLanguage(payload: map<string, Value>): (r: Result<Value>)
    ensures "repository" !in payload ==> r == Ok(Nil)
    ensures "repository" in payload && payload["repository"].Hash? ==>
      r == Ok(Lookup(payload["repository"].entries, "language"))
    ensures r.Err? <==> "repository" in payload && !payload["repository"].Hash? && MatchText(payload["repository"]).None?
  {
    if "repository" !in payload then Ok(Nil)
    else match payload["repository"]
      case Hash(m) => Ok(Lookup(m, "language"))
      case Str(s) => Ok(if Includes(s, "language") then Str("language") else Nil)
      case Sym(name) => Ok(if Includes(name, "language") then Str("language") else Nil)
      case Int(_) => Err(TypeError)
      case Arr(_) => Err(TypeError)
      case _ => Err(NoMethodError)
  }

  // ----- normalize_string -----

  /** The characters `[A-Za-z0-9.:\-_]` keeps. */
  predicate Allowed(c: char) {
    ('A' <= c <= 'Z') || ('a' <= c <= 'z') || ('0' <= c <= '9') || c == '.' || c == ':' || c == '-' || c == '_'
  }

  /** The characters `normalize_string` can return. */
  predicate NormalChar(c: char) {
    ('a' <= c <= 'z') || ('0' <= c <= '9') || c == '.' || c == ':' || c == '-' || c == '_'
  }

  function LowerChar(c: char): char {
    if 'A' <= c <= 'Z' then (c as int + 32) as char else c
  }

  /** `downcase`, on ASCII letters. */
  function Downcase(s: string): (r: string)
    ensures |r| == |s| && forall i :: 0 <= i < |s| ==> r[i] == LowerChar(s[i])
  {
    seq(|s|, i requires 0 <= i < |s| => LowerChar(s[i]))
  }

  /** `gsub("#", "-sharp")`. */
  function ReplaceSharp(s: string): string {
    if s == [] then []
    else (if s[0] == '#' then "-sharp" else [s[0]]) + ReplaceSharp(s[1..])
  }

  /** `gsub(/[^A-Za-z0-9.:\-_]/, "")`. */
  function KeepAllowed(s: string): string {
    if s == [] then []
    else (if Allowed(s[0]) then [s[0]] else []) + KeepAllowed(s[1..])
  }

  /** `normalize_string`: the result holds only lower-case letters, digits
      and `.:-_`, so in particular no `#`. */
  function NormalizeString(s: string): (r: string)
    ensures forall i :: 0 <= i < |r| ==> NormalChar(r[i])
  {
    var lower := Downcase(s);
    var sharp := ReplaceSharp(lower);
    var r := KeepAllowed(sharp);
    ReplaceSharpChars(lower);
    KeepAllowedChars(sharp);
    forall i | 0 <= i < |r| ensures NormalChar(r[i]) {
      assert r[i] in sharp;
      if r[i] in lower {
        var j :| 0 <= j < |lower| && lower[j] == r[i];
      }
    }
    r
  }

  /** `gsub("#", "-sharp")` leaves no `#`, and every character it returns
      comes from the input or from `-sharp`. */
  lemma {:induction false} ReplaceSharpChars(s: string)
    ensures forall i :: 0 <= i < |ReplaceSharp(s)| ==>
      ReplaceSharp(s)[i] != '#' && (ReplaceSharp(s)[i] in s || ReplaceSharp(s)[i] in "-sharp")
    decreases |s|
  {
    if s != [] {
      ReplaceSharpChars(s[1..]);
      var head := if s[0] == '#' then "-sharp" else [s[0]];
      forall i | 0 <= i < |ReplaceSharp(s)|
        ensures ReplaceSharp(s)[i] != '#' && (ReplaceSharp(s)[i] in s || ReplaceSharp(s)[i] in "-sharp")
      {
        if i >= |head| {
          assert ReplaceSharp(s)[i] == ReplaceSharp(s[1..])[i - |head|];
          assert ReplaceSharp(s)[i] in s[1..] ==> ReplaceSharp(s)[i] in s;
        }
      }
    }
  }

  /** Removing the disallowed characters leaves only allowed characters of the input. */
  lemma {:induction false} KeepAllowedChars(s: string)
    ensures forall i :: 0 <= i < |KeepAllowed(s)| ==> Allowed(KeepAllowed(s)[i]) && KeepAllowed(s)[i] in s
    decreases |s|
  {
    if s != [] {
      KeepAllowedChars(s[1..]);
      var head := if Allowed(s[0]) then [s[0]] else [];
      forall i | 0 <= i < |KeepAllowed(s)|
        ensures Allowed(KeepAllowed(s)[i]) && KeepAllowed(s)[i] in s
      {
        if i >= |head| {
          assert KeepAllowed(s)[i] == KeepAllowed(s[1..])[i - |head|];
          assert KeepAllowed(s)[i] in s[1..] ==> KeepAllowed(s)[i] in s;
        }
      }
    }
  }

  /** What one character of the input becomes. */
  function NormalizeChar(c: char): string {
    if c == '#' then "-sharp" else if Allowed(LowerChar(c)) then [LowerChar(c)] else []
  }

  lemma {:induction false} ReplaceSharpAppend(a: string, b: string)
    ensures ReplaceSharp(a + b) == ReplaceSharp(a) + ReplaceSharp(b)
    decreases |a|
  {
    if a != [] {
      assert (a + b)[0] == a[0] && (a + b)[1..] == a[1..] + b;
      ReplaceSharpAppend(a[1..], b);
    } else {
      assert a + b == b;
    }
  }

  lemma {:induction false} KeepAllowedAppend(a: string, b: string)
    ensures KeepAllowed(a + b) == KeepAllowed(a) + KeepAllowed(b)
    decreases |a|
  {
    if a != [] {
      assert (a + b)[0] == a[0] && (a + b)[1..] == a[1..] + b;
      KeepAllowedAppend(a[1..], b);
    } else {
      assert a + b == b;
    }
  }

  /** The input is normalised character by character: each `#` becomes
      `-sharp`, a letter is lower-cased and kept, another allowed character is
      kept, and everything else is dropped. */
  lemma NormalizeAppend(a: string, b: string)
    ensures NormalizeString(a + b) == NormalizeString(a) + NormalizeString(b)
  {
    assert Downcase(a + b) == Downcase(a) + Downcase(b);
    ReplaceSharpAppend(Downcase(a), Downcase(b));
    KeepAllowedAppend(ReplaceSharp(Downcase(a)), ReplaceSharp(Downcase(b)));
  }

  lemma NormalizeOneChar(c: char)
    ensures NormalizeString([c]) == NormalizeChar(c)
  {
    assert Downcase([c]) == [LowerChar(c)];
    assert [LowerChar(c)][1..] == [];
    if c == '#' {
      var t := "-sharp";
      assert ReplaceSharp([LowerChar(c)]) == t;
      assert KeepAllowed(t) == [t[0]] + KeepAllowed(t[1..]);
      assert KeepAllowed(t[1..]) == [t[1]] + KeepAllowed(t[2..]);
      assert KeepAllowed(t[2..]) == [t[2]] + KeepAllowed(t[3..]);
      assert KeepAllowed(t[3..]) == [t[3]] + KeepAllowed(t[4..]);
      assert KeepAllowed(t[4..]) == [t[4]] + KeepAllowed(t[5..]);
      assert KeepAllowed(t[5..]) == [t[5]] + KeepAllowed(t[6..]);
      assert t[6..] == [];
    }
  }

  lemma {:induction false} NormalizeKeepsNormal(s: string)
    requires forall i :: 0 <= i < |s| ==> NormalChar(s[i])
    ensures NormalizeString(s) == s
    decreases |s|
  {
    if s != [] {
      assert s == [s[0]] + s[1..];
      NormalizeAppend([s[0]], s[1..]);
      NormalizeOneChar(s[0]);
      NormalizeKeepsNormal(s[1..]);
    } else {
      assert NormalizeString(s) == [];
    }
  }

  /** Normalising twice gives the same as normalising once. */
  lemma NormalizeIdempotent(s: string)
    ensures NormalizeString(NormalizeString(s)) == NormalizeString(s)
  {
    NormalizeKeepsNormal(NormalizeString(s));
  }

  /** `"C#"` is normalised to `"c-sharp"`. */
  lemma NormalizeCSharp()
    ensures NormalizeString("C#") == "c-sharp"
  {
    NormalizeTwoChars('C', '#');
    assert NormalizeChar('C') == "c";
  }

  lemma NormalizeTwoChars(a: char, b: char)
    ensures NormalizeString([a, b]) == NormalizeChar(a) + NormalizeChar(b)
  {
    assert [a, b] == [a] + [b];
    NormalizeAppend([a], [b]);
    NormalizeOneChar(a);
    NormalizeOneChar(b);
  }

}
