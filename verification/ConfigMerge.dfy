/** Merging the configuration layers: settings, user overrides, environment overrides. */
module ConfigMerge {
  import opened Prelude
  import opened ConfigText
  import opened ConfigParser

  type Config = map<string, Tree>

  /** Two mappings are merged key by key; anything else is replaced. */
  function MergeTree(base: Tree, override: Tree): Tree {
    if base.Node? && override.Node? then
      Node(map k | k in base.entries.Keys + override.entries.Keys ::
             if k !in override.entries then base.entries[k]
             else if k !in base.entries then override.entries[k]
             else MergeTree(base.entries[k], override.entries[k]))
    else override
  }

  function DeepMerge(base: Config, override: Config): Config {
    MergeTree(Node(base), Node(override)).entries
  }

  /** One key of a merge. */
  function MergedValue(base: Config, key: string, value: Tree): Tree {
    if key in base && base[key].Node? && value.Node? then Node(DeepMerge(base[key].entries, value.entries)) else value
  }

  lemma MergeByKey(base: Config, override: Config)
    ensures DeepMerge(base, override).Keys == base.Keys + override.Keys
    ensures forall k :: k in override ==> DeepMerge(base, override)[k] == MergedValue(base, k, override[k])
    ensures forall k :: k in base && k !in override ==> DeepMerge(base, override)[k] == base[k]
  {
    forall k | k in override && k in base
      ensures MergeTree(base[k], override[k]) == MergedValue(base, k, override[k])
    {}
  }

  lemma MergedByKey(base: Config, override: Config, merged: Config)
    requires MergedSoFar(base, override, {}, merged)
    ensures merged == DeepMerge(base, override)
  {
    hide DeepMerge;
    hide MergedValue;
    MergeByKey(base, override);
  }

  /** The body of the merge loop: recursion where both sides are mappings. */
  method MergeValue(base: Config, key: string, value: Tree) returns (r: Tree)
    ensures r == MergedValue(base, key, value)
    decreases value, 2
  {
    hide DeepMerge;
    r := value;
    if key in base && base[key].Node? && value.Node? {
      var inner := DeepMergeLoop(base[key].entries, value.entries);
      r := Node(inner);
    }
  }

  /** What the merge loop has done: every key of `override` except the pending ones is merged. */
  ghost predicate MergedSoFar(base: Config, override: Config, pending: set<string>, merged: Config) {
    && pending <= override.Keys
    && merged.Keys == base.Keys + (override.Keys - pending)
    && (forall k :: k in override && k !in pending ==> merged[k] == MergedValue(base, k, override[k]))
    && (forall k :: k in base && (k !in override || k in pending) ==> merged[k] == base[k])
  }

  lemma MergeNothingYet(base: Config, override: Config)
    ensures MergedSoFar(base, override, override.Keys, base)
  {
    assert base.Keys == base.Keys + (override.Keys - override.Keys);
  }

  lemma PendingIsUntouched(base: Config, override: Config, pending: set<string>, merged: Config, key: string)
    requires MergedSoFar(base, override, pending, merged) && key in pending
    ensures key in override
    ensures MergedValue(merged, key, override[key]) == MergedValue(base, key, override[key])
  {
    hide DeepMerge;
  }

  lemma MergeOneMore(base: Config, override: Config, pending: set<string>, merged: Config, key: string, value: Tree)
    requires MergedSoFar(base, override, pending, merged) && key in pending && key in override
    requires value == MergedValue(merged, key, override[key])
    ensures MergedSoFar(base, override, pending - {key}, merged[key := value])
  {
    PendingIsUntouched(base, override, pending, merged, key);
    hide DeepMerge;
    hide MergedValue;
  }

  method DeepMergeLoop(base: Config, override: Config) returns (merged: Config)
    ensures merged == DeepMerge(base, override)
    decreases Node(override), 1
  {
    hide DeepMerge;
    hide MergeTree;
    hide MergedValue;
    hide MergedSoFar;
    assert MergedSoFar(base, override, override.Keys, base) by { MergeNothingYet(base, override); }
    merged := base;
    var pending := override.Keys;
    while pending != {}
      invariant MergedSoFar(base, override, pending, merged)
      decreases |pending|
    {
      var key :| key in pending;
      assert key in override by { PendingIsUntouched(base, override, pending, merged, key); }
      var value := MergeValue(merged, key, override[key]);
      MergeOneMore(base, override, pending, merged, key, value);
      merged := merged[key := value];
      pending := pending - {key};
    }
    MergedByKey(base, override, merged);
  }

  // ----- algebra -----

  lemma {:induction false} MergeIdempotent(a: Tree)
    ensures MergeTree(a, a) == a
  {
    if a.Node? {
      forall k | k in a.entries ensures MergeTree(a.entries[k], a.entries[k]) == a.entries[k] {
        MergeIdempotent(a.entries[k]);
      }
      assert MergeTree(a, a).entries == a.entries;
    }
  }

  lemma MergeIdentity(a: Config)
    ensures DeepMerge(map[], a) == a && DeepMerge(a, map[]) == a
  {}

  /** Every key of `a` is in `c`, and where both are mappings the same holds inside. */
  ghost predicate Covered(a: Tree, c: Tree) {
    a.Node? && c.Node? ==>
      forall k :: k in a.entries ==> k in c.entries && Covered(a.entries[k], c.entries[k])
  }

  lemma {:induction false} CoveredIffAbsorbed(a: Tree, c: Tree)
    ensures MergeTree(a, c) == c <==> Covered(a, c)
  {
    if a.Node? && c.Node? {
      var merged := MergeTree(a, c).entries;
      forall k | k in a.entries && k in c.entries
        ensures merged[k] == c.entries[k] <==> Covered(a.entries[k], c.entries[k])
      {
        CoveredIffAbsorbed(a.entries[k], c.entries[k]);
      }
      if Covered(a, c) {
        assert merged.Keys == c.entries.Keys;
        assert merged == c.entries;
      }
      if merged == c.entries {
        forall k | k in a.entries ensures k in c.entries && Covered(a.entries[k], c.entries[k]) {
          assert k in merged;
        }
      }
    }
  }

  /**
   Somewhere a mapping of `a` is hidden by a scalar of `b` under which `c` has a
   mapping again, and that mapping does not repeat every key that was hidden.
   */
  ghost predicate Clash(a: Tree, b: Tree, c: Tree) {
    a.Node? && c.Node? &&
    if b.Node? then
      exists k :: k in a.entries && k in b.entries && k in c.entries && Clash(a.entries[k], b.entries[k], c.entries[k])
    else !Covered(a, c)
  }

  /** Merging three layers is associative exactly when no such clash occurs. */
  lemma {:induction false} AssociativeIffNoClash(a: Tree, b: Tree, c: Tree)
    ensures MergeTree(MergeTree(a, b), c) == MergeTree(a, MergeTree(b, c)) <==> !Clash(a, b, c)
  {
    if a.Node? && b.Node? && c.Node? {
      var left, right := MergeTree(MergeTree(a, b), c).entries, MergeTree(a, MergeTree(b, c)).entries;
      assert left.Keys == right.Keys;
      forall k | k in a.entries && k in b.entries && k in c.entries
        ensures left[k] == right[k] <==> !Clash(a.entries[k], b.entries[k], c.entries[k])
      {
        AssociativeIffNoClash(a.entries[k], b.entries[k], c.entries[k]);
      }
      assert forall k :: k in left && !(k in a.entries && k in b.entries && k in c.entries) ==> left[k] == right[k];
      if !Clash(a, b, c) { assert left == right; }
    } else if a.Node? && c.Node? {
      CoveredIffAbsorbed(a, c);
    }
  }

  /** A setting block replaced by a scalar and then by another block: the grouping matters. */
  lemma AssociativityFails()
    ensures var a := map["market" := Node(map["providers" := Leaf(Text("x"))])];
      var b, c := map["market" := Leaf(Null)], map["market" := Node(map[])];
      DeepMerge(DeepMerge(a, b), c) != DeepMerge(a, DeepMerge(b, c))
  {
    var inner := Node(map["providers" := Leaf(Text("x"))]);
    assert "providers" in inner.entries;
    assert !Covered(inner, Node(map[]));
    var a, b, c := map["market" := inner], map["market" := Leaf(Null)], map["market" := Node(map[])];
    assert Clash(a["market"], b["market"], c["market"]);
    AssociativeIffNoClash(Node(a), Node(b), Node(c));
  }

  // ----- environment overrides -----

  datatype EnvName = EnvName(name: string, section: string, key: string)

  const ENVIRONMENT: seq<EnvName> := [
    EnvName("ONECOOL_OS_APP_NAME", "app", "name"),
    EnvName("ONECOOL_OS_APP_VERSION", "app", "version"),
    EnvName("ONECOOL_OS_TIMEZONE", "app", "timezone"),
    EnvName("ONECOOL_OS_LANGUAGE", "app", "language"),
    EnvName("ONECOOL_OS_DATABASE_PATH", "database", "path"),
    EnvName("ONECOOL_OS_DB_PATH", "database", "path"),
    EnvName("ONECOOL_OS_DATA_DIR", "paths", "data_dir"),
    EnvName("ONECOOL_OS_CACHE_DIR", "paths", "cache_dir"),
    EnvName("ONECOOL_OS_LOGS_DIR", "paths", "logs_dir"),
    EnvName("ONECOOL_OS_EXPORTS_DIR", "paths", "exports_dir"),
    EnvName("ONECOOL_OS_DEBUG", "runtime", "debug"),
    EnvName("ONECOOL_OS_ENVIRONMENT", "runtime", "environment"),
    EnvName("ONECOOL_OS_LOG_LEVEL", "logging", "level")]

  /** Overrides collected from the names listed, later names last. */
  function Overrides(names: seq<EnvName>, env: map<string, string>): map<string, map<string, Scalar>> {
    if names == [] then map[]
    else
      var earlier, last := Overrides(names[..|names| - 1], env), names[|names| - 1];
      if last.name !in env then earlier
      else
        var section := if last.section in earlier then earlier[last.section] else map[];
        earlier[last.section := section[last.key := ParseScalar(env[last.name])]]
  }

  function AsTree(section: map<string, Scalar>): Tree { Node(map k | k in section :: Leaf(section[k])) }

  function AsConfig(overrides: map<string, map<string, Scalar>>): Config {
    map s | s in overrides :: AsTree(overrides[s])
  }

  method EnvironmentOverrides(names: seq<EnvName>, env: map<string, string>) returns (overrides: map<string, map<string, Scalar>>)
    ensures overrides == Overrides(names, env)
  {
    overrides := map[];
    for i := 0 to |names|
      invariant overrides == Overrides(names[..i], env)
    {
      assert names[..i + 1][..i] == names[..i];
      if names[i].name in env {
        if names[i].section !in overrides { overrides := overrides[names[i].section := map[]]; }
        var section := overrides[names[i].section];
        overrides := overrides[names[i].section := section[names[i].key := ParseScalar(env[names[i].name])]];
      }
    }
    assert names[..|names|] == names;
  }

  /** The configuration the loader builds from its three layers. */
  function Load(settings: Config, user: Config, env: map<string, string>): Config {
    DeepMerge(DeepMerge(settings, user), AsConfig(Overrides(ENVIRONMENT, env)))
  }

  /** The last name set for a (section, key) pair decides its override; nothing else appears. */
  lemma {:induction false} LastNameWins(names: seq<EnvName>, env: map<string, string>, i: nat)
    requires i < |names| && names[i].name in env
    requires forall j :: i < j < |names| && names[j].name in env ==> (names[j].section, names[j].key) != (names[i].section, names[i].key)
    ensures names[i].section in Overrides(names, env) && names[i].key in Overrides(names, env)[names[i].section]
    ensures Overrides(names, env)[names[i].section][names[i].key] == ParseScalar(env[names[i].name])
  {
    hide ParseScalar;
    if i < |names| - 1 {
      var front := names[..|names| - 1];
      assert front[i] == names[i];
      LastNameWins(front, env, i);
    }
  }

  lemma {:induction false} OnlyListedNames(names: seq<EnvName>, env: map<string, string>, section: string, key: string)
    requires forall j :: 0 <= j < |names| && names[j].name in env ==> (names[j].section, names[j].key) != (section, key)
    ensures section in Overrides(names, env) ==> key !in Overrides(names, env)[section]
  {
    hide ParseScalar;
    if names != [] { OnlyListedNames(names[..|names| - 1], env, section, key); }
  }

  lemma OverrideWins(base: Config, override: Config, section: string, key: string)
    requires section in override && override[section].Node? && key in override[section].entries
    requires override[section].entries[key].Leaf?
    ensures var final := DeepMerge(base, override);
      && section in final && final[section].Node? && key in final[section].entries
      && final[section].entries[key] == override[section].entries[key]
  {
    MergeByKey(base, override);
    if section in base && base[section].Node? { MergeByKey(base[section].entries, override[section].entries); }
  }

  lemma BaseStays(base: Config, override: Config, section: string, key: string)
    requires section in base && base[section].Node? && key in base[section].entries
    requires section in override ==> override[section].Node? && key !in override[section].entries
    ensures var final := DeepMerge(base, override);
      && section in final && final[section].Node? && key in final[section].entries
      && final[section].entries[key] == base[section].entries[key]
  {
    MergeByKey(base, override);
    if section in override { MergeByKey(base[section].entries, override[section].entries); }
  }

  /** Every environment setting wins in the final configuration, whatever the files say. */
  lemma EnvironmentWins(settings: Config, user: Config, env: map<string, string>, i: nat)
    requires i < |ENVIRONMENT| && ENVIRONMENT[i].name in env
    requires forall j :: i < j < |ENVIRONMENT| && ENVIRONMENT[j].name in env ==>
      (ENVIRONMENT[j].section, ENVIRONMENT[j].key) != (ENVIRONMENT[i].section, ENVIRONMENT[i].key)
    ensures var final, e := Load(settings, user, env), ENVIRONMENT[i];
      && e.section in final && final[e.section].Node? && e.key in final[e.section].entries
      && final[e.section].entries[e.key] == Leaf(ParseScalar(env[e.name]))
  {
    hide ParseScalar;
    hide Overrides;
    hide DeepMerge;
    LastNameWins(ENVIRONMENT, env, i);
    OverrideWins(DeepMerge(settings, user), AsConfig(Overrides(ENVIRONMENT, env)), ENVIRONMENT[i].section, ENVIRONMENT[i].key);
  }

  /** Settings no environment variable names come from the files, a user file overriding the settings file. */
  lemma FilesDecideTheRest(settings: Config, user: Config, env: map<string, string>, section: string, key: string)
    requires forall j :: 0 <= j < |ENVIRONMENT| && ENVIRONMENT[j].name in env ==>
      (ENVIRONMENT[j].section, ENVIRONMENT[j].key) != (section, key)
    requires var files := DeepMerge(settings, user);
      section in files && files[section].Node? && key in files[section].entries
    ensures var final, files := Load(settings, user, env), DeepMerge(settings, user);
      && section in final && final[section].Node? && key in final[section].entries
      && final[section].entries[key] == files[section].entries[key]
  {
    hide ParseScalar;
    hide Overrides;
    hide DeepMerge;
    OnlyListedNames(ENVIRONMENT, env, section, key);
    BaseStays(DeepMerge(settings, user), AsConfig(Overrides(ENVIRONMENT, env)), section, key);
  }

  /** What a configuration holds for one setting, if anything. */
  function At(c: Config, section: string, key: string): (r: Option<Tree>) {
    if section in c && c[section].Node? && key in c[section].entries then Some(c[section].entries[key]) else None
  }

  /** A scalar the user file sets stands, unless an environment variable sets the same key. */
  lemma UserFileWins(settings: Config, user: Config, env: map<string, string>, section: string, key: string)
    requires forall j :: 0 <= j < |ENVIRONMENT| && ENVIRONMENT[j].name in env ==>
      (ENVIRONMENT[j].section, ENVIRONMENT[j].key) != (section, key)
    requires At(user, section, key).Some? && At(user, section, key).value.Leaf?
    ensures At(Load(settings, user, env), section, key) == At(user, section, key)
  {
    hide ParseScalar;
    hide Overrides;
    hide DeepMerge;
    OverrideWins(settings, user, section, key);
    FilesDecideTheRest(settings, user, env, section, key);
  }

  /** A settings scalar stands when neither the user file's section nor the environment speaks of it. */
  lemma SettingsStand(settings: Config, user: Config, env: map<string, string>, section: string, key: string)
    requires forall j :: 0 <= j < |ENVIRONMENT| && ENVIRONMENT[j].name in env ==>
      (ENVIRONMENT[j].section, ENVIRONMENT[j].key) != (section, key)
    requires At(settings, section, key).Some?
    requires section in user ==> user[section].Node? && key !in user[section].entries
    ensures At(Load(settings, user, env), section, key) == At(settings, section, key)
  {
    hide ParseScalar;
    hide Overrides;
    hide DeepMerge;
    BaseStays(settings, user, section, key);
    FilesDecideTheRest(settings, user, env, section, key);
  }

  /** The database path has two variables, of which the shorter name decides. */
  lemma DatabasePath(settings: Config, user: Config, env: map<string, string>)
    ensures var final := At(Load(settings, user, env), "database", "path");
      && ("ONECOOL_OS_DB_PATH" in env ==> final == Some(Leaf(ParseScalar(env["ONECOOL_OS_DB_PATH"]))))
      && ("ONECOOL_OS_DB_PATH" !in env && "ONECOOL_OS_DATABASE_PATH" in env ==>
            final == Some(Leaf(ParseScalar(env["ONECOOL_OS_DATABASE_PATH"]))))
  {
    hide ParseScalar;
    hide Load;
    if "ONECOOL_OS_DB_PATH" in env {
      EnvironmentWins(settings, user, env, 5);
    } else if "ONECOOL_OS_DATABASE_PATH" in env {
      EnvironmentWins(settings, user, env, 4);
    }
  }

  /** Every other variable has a setting of its own. */
  lemma OneNamePerSetting(i: nat, j: nat)
    requires i < j < |ENVIRONMENT|
    ensures ENVIRONMENT[i].name != ENVIRONMENT[j].name
    ensures (ENVIRONMENT[i].section, ENVIRONMENT[i].key) == (ENVIRONMENT[j].section, ENVIRONMENT[j].key) <==>
      ENVIRONMENT[i].name == "ONECOOL_OS_DATABASE_PATH" && ENVIRONMENT[j].name == "ONECOOL_OS_DB_PATH"
  {}
}
