/** `Travis::TravisYmlStats`: builds the analytics payload of one request from
    its build configuration and its event payload, then hands the payload to
    a publisher once. The payload is a nested hash held in a field and written
    through `set`; the setters run in a fixed order. */
module Travis {
  import opened RubyValues
  import opened NestedHash
  import opened ConfigRules
  import StringSort

  /** What the statistics read from a request. */
  datatype Request = Request(repositoryId: Value, config: Config, payload: map<string, Value>)

  /** A publisher with `perform_async` (in production a background job that
      forwards the payload to the analytics service); this one records every
      payload it is handed. */
  class Publisher {
    var received: seq<Hsh>

    constructor ()
      ensures received == []
    {
      received := [];
    }

    method PerformAsync(payload: Hsh)
      modifies this
      ensures received == old(received) + [payload]
    {
      received := received + [payload];
    }
  }

  // ----- the payload store_stats builds -----

  /** The array of strings stored under `language_version.<key>`. */
  function VersionValue(v: Value): Value {
    Arr(StrValues(VersionList(v)))
  }

  /** The `language_version` entries for the keys of `keys` that the configuration has. */
  function VersionEntries(config: Config, keys: seq<string>): Hsh {
    map k | k in keys && k in config :: Leaf(VersionValue(config[k]))
  }

  /** The `language_version` sub-hash, present only when it has an entry. */
  function VersionPart(config: Config, keys: seq<string>): Hsh {
    if VersionEntries(config, keys) == map[] then map[]
    else map["language_version" := Node(VersionEntries(config, keys))]
  }

  /** The payload after `set_basic_info` and `set :language`. */
  function BasicPayload(r: Request): Hsh {
    map["repository_id" := Leaf(r.repositoryId), "language" := Leaf(Str(TravisYmlLanguage(r.config)))]
  }

  /** The finished payload, given the value `github_language` returned. */
  function StatsPayload(r: Request, githubLanguage: Value): Hsh {
    (BasicPayload(r)["github_language" := Leaf(githubLanguage)] + VersionPart(r.config, LanguageVersionKeys))
      ["uses_sudo" := Leaf(Bool(UsesSudo(r.config)))]
      ["uses_apt_get" := Leaf(Bool(UsesAptGet(r.config)))]
  }

  lemma VersionEntriesStep(config: Config, keys: seq<string>, i: nat)
    requires i < |keys|
    ensures VersionEntries(config, keys[..i + 1]) ==
      if keys[i] in config then VersionEntries(config, keys[..i])[keys[i] := Leaf(VersionValue(config[keys[i]]))]
      else VersionEntries(config, keys[..i])
  {
    assert keys[..i + 1] == keys[..i] + [keys[i]];
  }

  /** Setting `[:language_version, key]` for the next present key extends the sub-hash. */
  lemma AssignVersion(base: Hsh, config: Config, keys: seq<string>, i: nat)
    requires "language_version" !in base && i < |keys| && keys[i] in config
    ensures AssignIn(base + VersionPart(config, keys[..i]), ["language_version", keys[i]], VersionValue(config[keys[i]]))
      == Some(base + VersionPart(config, keys[..i + 1]))
  {
    var k := keys[i];
    var x := VersionValue(config[k]);
    var h := base + VersionPart(config, keys[..i]);
    var before := VersionEntries(config, keys[..i]);
    DescendVersionPart(base, config, keys[..i]);
    AssignPair(h, "language_version", k, x);
    VersionEntriesStep(config, keys, i);
    var after := before[k := Leaf(x)];
    assert VersionPart(config, keys[..i + 1]) == map["language_version" := Node(after)] by {
      assert k in after;
    }
    ReplaceVersionPart(base, VersionPart(config, keys[..i]), after);
  }

  lemma ReplaceVersionPart(base: Hsh, part: Hsh, e: Hsh)
    requires part.Keys <= {"language_version"}
    ensures (base + part)["language_version" := Node(e)] == base + map["language_version" := Node(e)]
  {
  }

  /** Walking into `language_version` reaches the entries built so far. */
  lemma DescendVersionPart(base: Hsh, config: Config, keys: seq<string>)
    requires "language_version" !in base
    ensures Descend(base + VersionPart(config, keys), "language_version") == Some(VersionEntries(config, keys))
  {
  }

  /** `set [a, k], x` stores `x` under `k` in the hash the walk reaches at `a`. */
  lemma AssignPair(h: Hsh, a: Key, k: Key, x: Value)
    requires Descend(h, a).Some?
    ensures AssignIn(h, [a, k], x) == Some(h[a := Node(Descend(h, a).value[k := Leaf(x)])])
  {
    assert [a, k][1..] == [k];
  }

  // ----- what the finished payload holds -----

  /** The payload has exactly the five fixed keys, plus `language_version`
      when the configuration has at least one version key, and each fixed key
      holds the value its rule gives. */
  lemma StatsPayloadShape(r: Request, gh: Value)
    ensures StatsPayload(r, gh).Keys ==
      {"repository_id", "language", "github_language", "uses_sudo", "uses_apt_get"} +
      (if exists k :: k in LanguageVersionKeys && k in r.config then {"language_version"} else {})
    ensures Get(StatsPayload(r, gh), ["repository_id"]) == Some(Leaf(r.repositoryId))
    ensures Get(StatsPayload(r, gh), ["language"]) == Some(Leaf(Str(TravisYmlLanguage(r.config))))
    ensures Get(StatsPayload(r, gh), ["github_language"]) == Some(Leaf(gh))
    ensures Get(StatsPayload(r, gh), ["uses_sudo"]) == Some(Leaf(Bool(UsesSudo(r.config))))
    ensures Get(StatsPayload(r, gh), ["uses_apt_get"]) == Some(Leaf(Bool(UsesAptGet(r.config))))
  {
    VersionPartKeys(r.config);
    StatsPayloadFixed(r, gh);
  }

  lemma VersionPartKeys(config: Config)
    ensures VersionPart(config, LanguageVersionKeys).Keys ==
      if exists k :: k in LanguageVersionKeys && k in config then {"language_version"} else {}
  {
    var e := VersionEntries(config, LanguageVersionKeys);
    if exists k :: k in LanguageVersionKeys && k in config {
      var k :| k in LanguageVersionKeys && k in config;
      assert k in e;
    } else {
      assert e == map[];
    }
  }

  lemma StatsPayloadFixed(r: Request, gh: Value)
    ensures Get(StatsPayload(r, gh), ["repository_id"]) == Some(Leaf(r.repositoryId))
    ensures Get(StatsPayload(r, gh), ["language"]) == Some(Leaf(Str(TravisYmlLanguage(r.config))))
    ensures Get(StatsPayload(r, gh), ["github_language"]) == Some(Leaf(gh))
    ensures Get(StatsPayload(r, gh), ["uses_sudo"]) == Some(Leaf(Bool(UsesSudo(r.config))))
    ensures Get(StatsPayload(r, gh), ["uses_apt_get"]) == Some(Leaf(Bool(UsesAptGet(r.config))))
  {
    var p := StatsPayload(r, gh);
    var v := VersionPart(r.config, LanguageVersionKeys);
    assert v.Keys <= {"language_version"};
    GetSingle(p, "repository_id");
    GetSingle(p, "language");
    GetSingle(p, "github_language");
    GetSingle(p, "uses_sudo");
    GetSingle(p, "uses_apt_get");
  }

  /** `language_version.<k>` exists exactly for the version keys the
      configuration has, and holds that key's version list. */
  lemma LanguageVersionSparse(r: Request, gh: Value, k: string)
    ensures Get(StatsPayload(r, gh), ["language_version", k]).Some? <==>
      k in LanguageVersionKeys && k in r.config
    ensures k in LanguageVersionKeys && k in r.config ==>
      Get(StatsPayload(r, gh), ["language_version", k]) == Some(Leaf(VersionValue(r.config[k])))
  {
    var p := StatsPayload(r, gh);
    var e := VersionEntries(r.config, LanguageVersionKeys);
    var path := ["language_version", k];
    GetCons(p, path);
    assert path[1..] == [k];
    assert k in e <==> k in LanguageVersionKeys && k in r.config;
    if "language_version" in p {
      assert e != map[];
      assert p["language_version"] == Node(e);
      GetSingle(e, k);
      assert Get(p, path) == Get(e, [k]);
      assert k in e <==> k in LanguageVersionKeys && k in r.config;
    } else {
      assert Get(p, path) == None;
      assert e == map[];
    }
  }

  /** Only the eleven version keys, and only those the configuration has,
      appear under `language_version`. */
  lemma OnlyVersionKeysRecorded(r: Request, gh: Value)
    requires "language_version" in StatsPayload(r, gh)
    ensures StatsPayload(r, gh)["language_version"].Node?
    ensures forall k :: k in StatsPayload(r, gh)["language_version"].children ==>
      k in r.config &&
      k in {"ghc", "go", "jdk", "node_js", "otp_release", "perl", "php", "python", "ruby", "rvm", "scala"}
  {
    StatsPayloadVersions(r, gh);
    VersionEntriesKeys(r.config);
  }

  lemma StatsPayloadVersions(r: Request, gh: Value)
    requires "language_version" in StatsPayload(r, gh)
    ensures StatsPayload(r, gh)["language_version"] == Node(VersionEntries(r.config, LanguageVersionKeys))
  {
    assert VersionEntries(r.config, LanguageVersionKeys) != map[];
  }

  lemma VersionEntriesKeys(config: Config)
    ensures forall k :: k in VersionEntries(config, LanguageVersionKeys) ==>
      k in config &&
      k in {"ghc", "go", "jdk", "node_js", "otp_release", "perl", "php", "python", "ruby", "rvm", "scala"}
  {
  }

  /** `ruby: ["2.0", "1.9"]` is recorded as `["1.9", "2.0"]`. */
  lemma RubyVersionsSorted()
    ensures VersionList(Arr([Str("2.0"), Str("1.9")])) == ["1.9", "2.0"]
  {
    TwoVersions("2.0", "1.9");
  }

  lemma TwoVersions(x: string, y: string)
    requires StringSort.Le(y, x)
    ensures VersionList(Arr([Str(x), Str(y)])) == [y, x]
  {
    var strings := ToSAll([Str(x), Str(y)]);
    assert strings == [x, y];
    VersionListIs([Str(x), Str(y)], [y, x]);
  }

  // ----- the object -----

  class TravisYmlStats {
    const request: Request
    const publisher: Publisher
    var keenPayload: Hsh

    constructor (request: Request, publisher: Publisher)
      ensures this.request == request && this.publisher == publisher
      ensures keenPayload == map[]
    {
      this.request := request;
      this.publisher := publisher;
      keenPayload := map[];
    }

    /** `set(path, value)`. The walk keeps its position as the path prefix
        already followed, where Ruby keeps a reference `hsh` to that hash;
        `ok` is false where Ruby raises, and then nothing has changed. */
    method Set(path: seq<Key>, value: Value) returns (ok: bool)
      modifies this
      ensures ok == AssignIn(old(keenPayload), path, value).Some?
      ensures keenPayload == if ok then AssignIn(old(keenPayload), path, value).value else old(keenPayload)
    {
      if |path| == 0 {
        return false;
      }
      var i := 0;
      while i < |path| - 1
        invariant i <= |path| - 1
        invariant NodeAt(keenPayload, path[..i])
        invariant AssignIn(keenPayload, path, value) == AssignIn(old(keenPayload), path, value)
        invariant keenPayload == old(keenPayload) || Get(keenPayload, path[..i]) == Some(Node(map[]))
      {
        var key := path[i];
        var hsh := Sub(keenPayload, path[..i]);
        assert path[..i + 1] == path[..i] + [key];
        GetSnoc(keenPayload, path[..i], key);
        if key !in hsh || (hsh[key].Leaf? && !Truthy(hsh[key].value)) {
          VivifyKeepsAssign(keenPayload, path, i, value);
          PutAtGet(keenPayload, path[..i], key, Node(map[]));
          keenPayload := PutAt(keenPayload, path[..i], key, Node(map[]));
        } else if hsh[key].Leaf? {
          AssignBlocked(keenPayload, path, i, value);
          return false;
        }
        i := i + 1;
      }
      AssignAtNode(keenPayload, path, value);
      keenPayload := PutAt(keenPayload, path[..i], path[i], Leaf(value));
      ok := true;
    }

    method SetBasicInfo()
      modifies this
      ensures keenPayload == old(keenPayload)["repository_id" := Leaf(request.repositoryId)]
    {
      var _ := Set(["repository_id"], request.repositoryId);
    }

    /** `set_language`: the GitHub language is read after `language` is set,
        so a failing read leaves `language` set and `github_language` unset. */
    method SetLanguage() returns (outcome: Outcome)
      modifies this
      ensures var lang := old(keenPayload)["language" := Leaf(Str(TravisYmlLanguage(request.config)))];
        match GithubLanguage(request.payload)
        case Ok(gh) => outcome == Pass && keenPayload == lang["github_language" := Leaf(gh)]
        case Err(e) => outcome == Fail(e) && keenPayload == lang
    {
      var _ := Set(["language"], Str(TravisYmlLanguage(request.config)));
      var gh := GithubLanguage(request.payload);
      if gh.Err? {
        return Fail(gh.error);
      }
      var _ := Set(["github_language"], gh.value);
      outcome := Pass;
    }

    /** `set_language_version`. */
    method SetLanguageVersion()
      requires "language_version" !in keenPayload
      modifies this
      ensures keenPayload == old(keenPayload) + VersionPart(request.config, LanguageVersionKeys)
    {
      var keys := LanguageVersionKeys;
      var config := request.config;
      ghost var base := keenPayload;
      assert keys[..0] == [];
      assert VersionEntries(config, keys[..0]) == map[];
      for i := 0 to |keys|
        invariant keenPayload == base + VersionPart(config, keys[..i])
      {
        var key := keys[i];
        if key in config {
          var v := config[key];
          var versions: Value;
          if v.Str? || v.Arr? {
            versions := Arr(StrValues(StringSort.Sort(ToSAll(ArrayOf(v)))));
          } else {
            versions := Arr([Str("invalid")]);
            assert StrValues(["invalid"]) == [Str("invalid")];
          }
          assert versions == VersionValue(v);
          AssignVersion(base, config, keys, i);
          var _ := Set(["language_version", key], versions);
        } else {
          VersionEntriesStep(config, keys, i);
        }
      }
      assert keys[..|keys|] == keys;
    }

    method SetUsesSudo()
      modifies this
      ensures keenPayload == old(keenPayload)["uses_sudo" := Leaf(Bool(UsesSudo(request.config)))]
    {
      var commands := Commands(request.config);
      var _ := Set(["uses_sudo"], Bool(AnyMatch(commands, "sudo")));
    }

    method SetUsesAptGet()
      modifies this
      ensures keenPayload == old(keenPayload)["uses_apt_get" := Leaf(Bool(UsesAptGet(request.config)))]
    {
      var commands := Commands(request.config);
      var _ := Set(["uses_apt_get"], Bool(AnyMatch(commands, "apt-get")));
    }

    /** `store_stats`: runs the setters in order and, when they all succeed,
        hands the finished payload to the publisher exactly once. */
    method StoreStats() returns (outcome: Outcome)
      requires keenPayload == map[]
      modifies this, publisher
      ensures match GithubLanguage(request.payload)
        case Ok(gh) =>
          outcome == Pass && keenPayload == StatsPayload(request, gh) &&
          publisher.received == old(publisher.received) + [StatsPayload(request, gh)]
        case Err(e) =>
          outcome == Fail(e) && keenPayload == BasicPayload(request) &&
          publisher.received == old(publisher.received)
    {
      SetBasicInfo();
      outcome := SetLanguage();
      if outcome.Fail? {
        return;
      }
      SetLanguageVersion();
      SetUsesSudo();
      SetUsesAptGet();
      publisher.PerformAsync(keenPayload);
    }
  }

  /** `TravisYmlStats.store_stats(request, publisher)`: a fresh object per request. */
  method StoreStats(request: Request, publisher: Publisher) returns (outcome: Outcome)
    modifies publisher
    ensures match GithubLanguage(request.payload)
      case Ok(gh) =>
        outcome == Pass && publisher.received == old(publisher.received) + [StatsPayload(request, gh)]
      case Err(e) =>
        outcome == Fail(e) && publisher.received == old(publisher.received)
  {
    var stats := new TravisYmlStats(request, publisher);
    outcome := stats.StoreStats();
  }
}
