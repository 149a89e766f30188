/** `mergeConfig` of mitm.js (lines 66-78) and the exported configuration (line 80):
    overrides are deep-merged into a copy of the defaults, plain objects key by key
    and every other value by replacement. */
module ConfigMerge {
  import opened Wrappers
  import CliArgs

  /** A JSON-compatible JavaScript value. */
  datatype Conf =
    | CNull
    | CBool(b: bool)
    | CNum(n: int)
    | CStr(s: string)
    | CArr(items: seq<Conf>)
    | CObj(fields: map<string, Conf>)

  /** The merge throws: a property is assigned on a value that is not a plain
      object. */
  datatype MergeError = NotAnObject

  /** JavaScript truthiness: `null`, `false`, `0` and `''` are falsy. */
  predicate Truthy(v: Conf) {
    match v
    case CNull => false
    case CBool(b) => b
    case CNum(n) => n != 0
    case CStr(s) => s != ""
    case _ => true
  }

  /** `result[key] || {}`. */
  function Base(fields: map<string, Conf>, key: string): (r: Conf)
    ensures Truthy(r) || r == CObj(map[])
  {
    if key in fields && Truthy(fields[key]) then fields[key] else CObj(map[])
  }

  /** The new value of `result[key]` for an override key (line 71 or line 73). */
  function MergeKey(fields: map<string, Conf>, overrides: map<string, Conf>, key: string): Result<Conf, MergeError>
    requires key in overrides
    decreases CObj(overrides), 0
  {
    if overrides[key].CObj? then Merged(Base(fields, key), overrides[key].fields)
    else Ok(overrides[key])
  }

  /** The fields of `target` after the override keys in `done` were assigned. */
  function Partial(fields: map<string, Conf>, overrides: map<string, Conf>, done: set<string>): map<string, Conf>
    requires done <= overrides.Keys
    requires forall k :: k in done ==> MergeKey(fields, overrides, k).Ok?
    decreases CObj(overrides), 1
  {
    map k | k in fields.Keys + done :: if k in done then MergeKey(fields, overrides, k).value else fields[k]
  }

  /** What `mergeConfig(target, overrides)` returns. The deep copy of line 67
      keeps the value of `target`; with no override key the loop does not run, and
      otherwise every assignment needs `target` to be a plain object. */
  function Merged(target: Conf, overrides: map<string, Conf>): Result<Conf, MergeError>
    decreases CObj(overrides), 2
  {
    if overrides == map[] then Ok(target)
    else if !target.CObj? then Err(NotAnObject)
    else if exists k :: k in overrides && MergeKey(target.fields, overrides, k).Err? then Err(NotAnObject)
    else Ok(CObj(Partial(target.fields, overrides, overrides.Keys)))
  }

  /** Lines 66-78: the `for...in` loop visits the override keys in some order and
      assigns each into the copy. */
  method MergeConfig(defaults: Conf, overrides: map<string, Conf>) returns (r: Result<Conf, MergeError>)
    ensures r == Merged(defaults, overrides)
    decreases CObj(overrides)
  {
    var result := defaults;
    var keys := overrides.Keys;
    ghost var done: set<string> := {};
    while keys != {}
      invariant keys !! done && keys + done == overrides.Keys
      invariant done == {} ==> result == defaults
      invariant done != {} ==> defaults.CObj? && result.CObj?
      invariant defaults.CObj? ==> forall k :: k in done ==> MergeKey(defaults.fields, overrides, k).Ok?
      invariant done != {} ==> result.fields == Partial(defaults.fields, overrides, done)
      decreases keys
    {
      var key :| key in keys;
      if !result.CObj? {
        // Assigning a property of a primitive throws in strict mode.
        assert done == {} && overrides != map[];
        return Err(NotAnObject);
      }
      assert defaults.CObj? && key !in done;
      assert done == {} ==> result.fields == defaults.fields;
      var value := overrides[key];
      var newValue: Conf;
      if value.CObj? {
        var base := if key in result.fields && Truthy(result.fields[key]) then result.fields[key] else CObj(map[]);
        assert base == Base(defaults.fields, key);
        assert CObj(value.fields) == value;
        var sub := MergeConfig(base, value.fields);
        if sub.Err? {
          assert MergeKey(defaults.fields, overrides, key).Err?;
          return Err(NotAnObject);
        }
        newValue := sub.value;
      } else {
        newValue := value;
      }
      assert newValue == MergeKey(defaults.fields, overrides, key).value;
      result := CObj(result.fields[key := newValue]);
      keys := keys - {key};
      done := done + {key};
    }
    assert done == overrides.Keys;
    return Ok(result);
  }

  // ---------------------------------------------------------------------------
  // Properties
  // ---------------------------------------------------------------------------

  /** A successful merge into an object is an object whose keys are the keys of
      the defaults and of the overrides; default keys without an override keep
      their value, and overrides that are not plain objects replace it. */
  lemma MergeShape(target: Conf, overrides: map<string, Conf>)
    requires target.CObj? && Merged(target, overrides).Ok?
    ensures var r := Merged(target, overrides).value;
            && r.CObj?
            && r.fields.Keys == target.fields.Keys + overrides.Keys
            && (forall k :: k in target.fields && k !in overrides ==> r.fields[k] == target.fields[k])
            && (forall k :: k in overrides && !overrides[k].CObj? ==> r.fields[k] == overrides[k])
  {
  }

  /** A plain-object override is merged into the default value, so the default's
      own keys that it does not mention survive. */
  lemma NestedMergeKeepsSiblings(target: Conf, overrides: map<string, Conf>, key: string)
    requires target.CObj? && Merged(target, overrides).Ok?
    requires key in overrides && overrides[key].CObj?
    requires key in target.fields && target.fields[key].CObj?
    ensures Merged(target, overrides).value.CObj? && key in Merged(target, overrides).value.fields
    ensures var inner := Merged(target, overrides).value.fields[key];
            && inner.CObj?
            && (forall k :: k in target.fields[key].fields && k !in overrides[key].fields ==>
                  k in inner.fields && inner.fields[k] == target.fields[key].fields[k])
  {
    MergeShape(target, overrides);
    var t := target.fields[key];
    assert Base(target.fields, key) == t;
    assert MergeKey(target.fields, overrides, key).Ok?;
    MergeShape(t, overrides[key].fields);
  }

  /** Every key of the overrides must be assignable: a merge of a non-empty
      override into a value that is not a plain object throws. */
  lemma MergeIntoNonObject(target: Conf, overrides: map<string, Conf>)
    requires !target.CObj? && overrides != map[]
    ensures Merged(target, overrides) == Err(NotAnObject)
  {
  }

  /** Overrides without nested objects replace the default values key by key:
      the result is the map union, overrides winning. */
  lemma ScalarOverrides(fields: map<string, Conf>, overrides: map<string, Conf>)
    requires forall k :: k in overrides ==> !overrides[k].CObj?
    ensures Merged(CObj(fields), overrides) == Ok(CObj(fields + overrides))
  {
    if overrides != map[] {
      assert forall k :: k in overrides ==> MergeKey(fields, overrides, k) == Ok(overrides[k]);
      var p := Partial(fields, overrides, overrides.Keys);
      assert p.Keys == (fields + overrides).Keys;
      assert forall k :: k in p ==> p[k] == (fields + overrides)[k];
      assert p == fields + overrides;
    } else {
      assert fields + overrides == fields;
    }
  }

  /** Merging a configuration into itself gives it back. */
  lemma {:induction false} MergeSelf(target: Conf)
    requires target.CObj?
    ensures Merged(target, target.fields) == Ok(target)
    decreases target
  {
    var f := target.fields;
    if f != map[] {
      forall k | k in f
        ensures MergeKey(f, f, k) == Ok(f[k])
      {
        if f[k].CObj? {
          assert Base(f, k) == f[k];
          MergeSelf(f[k]);
        }
      }
      var p := Partial(f, f, f.Keys);
      assert p.Keys == f.Keys;
      assert forall k :: k in p ==> p[k] == f[k];
      assert p == f;
    }
  }

  // ---------------------------------------------------------------------------
  // The exported configuration (lines 23-63 and 80)
  // ---------------------------------------------------------------------------

  const DefaultConfig: Conf := CObj(map[
    "local" := CBool(false),
    "debug" := CBool(true),
    "container" := CObj(map[
      "ipAddress" := CStr("172.20.0.2"),
      "name" := CStr("CT101"),
      "mountPath" := CObj(map[
        "prefix" := CStr("/var/snap/lxd/common/mntns/var/snap/lxd/common/lxd/storage-pools/default/containers/"),
        "suffix" := CStr("rootfs")])]),
    "logging" := CObj(map[
      "streamOutput" := CStr("/root/MITM_data/sessions"),
      "loginAttempts" := CStr("/root/MITM_data/login_attempts"),
      "logins" := CStr("/root/MITM_data/logins")]),
    "server" := CObj(map[
      "maxAttemptsPerConnection" := CNum(6),
      "listenIP" := CStr("0.0.0.0"),
      "listenPort" := CNum(10000),
      "identifier" := CStr("SSH-2.0-OpenSSH_6.6.1p1 Ubuntu-2ubuntu2"),
      "bannerFile" := CStr("")]),
    "autoAccess" := CObj(map[
      "enabled" := CBool(true),
      "cacheSize" := CNum(5000),
      "barrier" := CObj(map[
        "normalDist" := CObj(map[
          "enabled" := CBool(false),
          "mean" := CNum(6),
          "standardDeviation" := CNum(1)]),
        "fixed" := CObj(map[
          "enabled" := CBool(true),
          "upperLimit" := CBool(true),
          "attempts" := CNum(3)])])])])

  /** A parsed command-line value as a configuration value. */
  function Lift(v: CliArgs.Value): (c: Conf)
    ensures !c.CObj?
  {
    match v
    case Bool(b) => CBool(b)
    case Num(n) => CNum(n)
    case Str(s) => CStr(s)
  }

  function LiftAll(config: CliArgs.Config): (r: map<string, Conf>)
    ensures r.Keys == config.Keys
    ensures forall k :: k in r ==> r[k] == Lift(config[k])
  {
    map k | k in config :: Lift(config[k])
  }

  /** `module.exports = mergeConfig(defaultConfig, config)`. */
  method ExportedConfig(args: seq<string>) returns (r: Result<Conf, MergeError>)
    ensures r == Ok(CObj(DefaultConfig.fields + LiftAll(CliArgs.Parse(args))))
  {
    var config := CliArgs.ParseArgs(args);
    r := MergeConfig(DefaultConfig, LiftAll(config));
    ScalarOverrides(DefaultConfig.fields, LiftAll(config));
  }

  /** The command line only produces scalars, so the exported configuration is
      the defaults with some top-level keys replaced as a whole: a nested default
      is either kept intact or replaced by a scalar. */
  lemma ExportReplacesTopLevel(args: seq<string>, key: string)
    requires key in DefaultConfig.fields
    ensures var config := CliArgs.Parse(args);
            var r := Merged(DefaultConfig, LiftAll(config));
            r.Ok? && r.value.CObj? && key in r.value.fields
    ensures var config := CliArgs.Parse(args);
            var r := Merged(DefaultConfig, LiftAll(config));
            && (key !in config ==> r.value.fields[key] == DefaultConfig.fields[key])
            && (key in config ==> r.value.fields[key] == Lift(config[key]))
  {
    ScalarOverrides(DefaultConfig.fields, LiftAll(CliArgs.Parse(args)));
  }
}
