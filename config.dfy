/** The configuration stack of the deployment: every line of the `.env` file
    becomes either a plain SSM parameter (an environment variable of the
    bot) or a reference to a secure SSM parameter, which is first created
    from the line's value when it does not exist yet. Local POSTGRES
    settings are skipped. The SSM service is a store of named values; the
    CDK constructs are handles recorded under their construct ids. */
module Config {
  import opened Wrappers
  import opened PyStr

  datatype ConfigError =
    | MalformedLine(line: string)  // `key, value = ...` does not unpack into two
    | ClientFault(name: string)    // `get_parameter` failed other than ParameterNotFound
    | DuplicateConstruct(id: string) // CDK refuses a second child with the same id

  /** `ssm.StringParameter(self, id, parameter_name=..., string_value=...)`. */
  datatype Param = Param(constructId: string, parameterName: string, value: string)

  /** `ssm.StringParameter.from_secure_string_parameter_attributes(self, id,
      parameter_name=id)`: a reference to an existing secure parameter. */
  datatype SecretRef = SecretRef(parameterName: string)

  /** The state the loop builds: the two dictionaries, the construct ids
      taken in the stack, and the values stored in SSM. */
  datatype Env = Env(
    envVars: map<string, Param>,
    secrets: map<string, SecretRef>,
    constructIds: set<string>,
    stored: map<string, string>)

  /** The state reached and the error that stopped the loop, if any. */
  datatype Run = Run(env: Env, error: Option<ConfigError>)

  // ---------------------------------------------------------------------------
  // One line
  // ---------------------------------------------------------------------------

  /** `key, value = line.strip().split("=")`: exactly one "=" after
      stripping, otherwise the unpacking raises. */
  function ParseLine(line: string): (r: Result<(string, string), ConfigError>)
    ensures r.Success? <==> multiset(Strip(line))['='] == 1
    ensures r.Failure? ==> r.error == MalformedLine(line)
    ensures r.Success? ==>
              && r.value.0 + "=" + r.value.1 == Strip(line)
              && '=' !in r.value.0 && '=' !in r.value.1
  {
    var parts := Split(Strip(line), '=');
    if |parts| == 2 then
      assert Join(parts, "=") == parts[0] + "=" + parts[1];
      Success((parts[0], parts[1]))
    else Failure(MalformedLine(line))
  }

  /** A blank line cannot be unpacked. */
  lemma BlankLineFails(line: string)
    requires forall m :: 0 <= m < |line| ==> IsSpace(line[m])
    ensures ParseLine(line).Failure?
  {
    assert Strip(line) == [];
  }

  /** A value that itself holds "=" cannot be unpacked either. */
  lemma {:induction false} ValueWithEqualsFails(line: string, key: string, value: string)
    requires Strip(line) == key + "=" + value && '=' in value
    ensures ParseLine(line).Failure?
  {
    var s := Strip(line);
    assert s == key + "=" + value;
    assert multiset(s) == multiset(key) + multiset("=") + multiset(value);
    assert multiset(value)['='] >= 1;
  }

  /** `f"{app_name}SSMSecret{key.replace('SECRET__', '')}"`. */
  function SecretParamName(app: string, key: string): string
  {
    app + "SSMSecret" + Replace(key, "SECRET__", "")
  }

  /** `f"{app_name}SSMParam{key}"`, the construct id of a plain parameter. */
  function ParamId(app: string, key: string): string
  {
    app + "SSMParam" + key
  }

  /** `check_param_exists(name)` against SSM holding `stored`, where a
      lookup of a name in `failing` raises an error other than
      ParameterNotFound. */
  function CheckParamExists(stored: map<string, string>, failing: set<string>, name: string): (r: Result<bool, ConfigError>)
    ensures r.Failure? <==> name in failing
    ensures r.Failure? ==> r.error == ClientFault(name)
    ensures r.Success? ==> (r.value <==> name in stored)
  {
    if name in failing then Failure(ClientFault(name)) else Success(name in stored)
  }

  /** One pass of the loop body (lines 28-46). A secret's value is written
      before its handle is made, so a duplicate construct id stops the loop
      after the write. */
  function Process(app: string, failing: set<string>, env: Env, line: string): Run
  {
    match ParseLine(line)
    case Failure(e) => Run(env, Some(e))
    case Success((key, value)) =>
      if Contains(key, "POSTGRES") then Run(env, None)
      else if StartsWith(line, "SECRET__") then
        var name := SecretParamName(app, key);
        match CheckParamExists(env.stored, failing, name)
        case Failure(e) => Run(env, Some(e))
        case Success(found) =>
          var stored := if found then env.stored else env.stored[name := value];
          if name in env.constructIds then Run(env.(stored := stored), Some(DuplicateConstruct(name)))
          else Run(Env(env.envVars, env.secrets[key := SecretRef(name)], env.constructIds + {name}, stored), None)
      else
        var id := ParamId(app, key);
        if id in env.constructIds then Run(env, Some(DuplicateConstruct(id)))
        else Run(Env(env.envVars[key := Param(id, key, value)], env.secrets, env.constructIds + {id}, env.stored), None)
  }

  /** The loop over the file's lines, stopping at the first error. */
  function Load(app: string, failing: set<string>, env: Env, lines: seq<string>): Run
  {
    if lines == [] then Run(env, None)
    else
      var r := Load(app, failing, env, lines[..|lines| - 1]);
      if r.error.Some? then r else Process(app, failing, r.env, lines[|lines| - 1])
  }

  // ---------------------------------------------------------------------------
  // What one line does
  // ---------------------------------------------------------------------------

  /** A line whose key names POSTGRES changes nothing. */
  lemma PostgresLineSkipped(app: string, failing: set<string>, env: Env, line: string)
    requires ParseLine(line).Success? && Contains(ParseLine(line).value.0, "POSTGRES")
    ensures Process(app, failing, env, line) == Run(env, None)
  {
  }

  /** A line whose raw text starts with "SECRET__" becomes a secret under
      its full key, referring to the derived SSM name, which then holds a
      value; the environment variables are untouched. */
  lemma SecretLine(app: string, failing: set<string>, env: Env, line: string)
    requires ParseLine(line).Success?
    requires !Contains(ParseLine(line).value.0, "POSTGRES") && StartsWith(line, "SECRET__")
    requires Process(app, failing, env, line).error.None?
    ensures var key := ParseLine(line).value.0;
            var name := SecretParamName(app, key);
            var value := ParseLine(line).value.1;
            var env' := Process(app, failing, env, line).env;
            && env'.secrets == env.secrets[key := SecretRef(name)]
            && env'.envVars == env.envVars
            && env'.stored == (if name in env.stored then env.stored else env.stored[name := value])
            && env'.constructIds == env.constructIds + {name}
            && name in env'.stored
  {
  }

  /** A secret whose SSM lookup fails other than by ParameterNotFound stops
      the loop with that error before anything is written or recorded. */
  lemma SecretLookupFaults(app: string, failing: set<string>, env: Env, line: string)
    requires ParseLine(line).Success?
    requires !Contains(ParseLine(line).value.0, "POSTGRES") && StartsWith(line, "SECRET__")
    requires SecretParamName(app, ParseLine(line).value.0) in failing
    ensures Process(app, failing, env, line) ==
              Run(env, Some(ClientFault(SecretParamName(app, ParseLine(line).value.0))))
  {
  }

  /** Every other kept line becomes an environment variable: a parameter
      named by the bare key, holding the line's value; the secrets are
      untouched and SSM is not written. */
  lemma PlainLine(app: string, failing: set<string>, env: Env, line: string)
    requires ParseLine(line).Success?
    requires !Contains(ParseLine(line).value.0, "POSTGRES") && !StartsWith(line, "SECRET__")
    requires Process(app, failing, env, line).error.None?
    ensures var (key, value) := ParseLine(line).value;
            var env' := Process(app, failing, env, line).env;
            && env'.envVars == env.envVars[key := Param(ParamId(app, key), key, value)]
            && env'.secrets == env.secrets
            && env'.stored == env.stored
  {
  }

  /** The prefix test reads the raw line, so a line indented before its
      "SECRET__" key is stored as an environment variable under that key
      (for instance "  SECRET__X=v"). */
  lemma IndentedSecretIsEnvVar(app: string, failing: set<string>, env: Env, line: string)
    requires |line| > 0 && IsSpace(line[0])
    requires ParseLine(line).Success? && StartsWith(ParseLine(line).value.0, "SECRET__")
    requires !Contains(ParseLine(line).value.0, "POSTGRES")
    requires ParamId(app, ParseLine(line).value.0) !in env.constructIds
    ensures Process(app, failing, env, line).error.None?
    ensures var (key, value) := ParseLine(line).value;
            Process(app, failing, env, line).env.envVars ==
              env.envVars[key := Param(ParamId(app, key), key, value)]
    ensures Process(app, failing, env, line).env.secrets == env.secrets
  {
    assert !StartsWith(line, "SECRET__") by {
      assert "SECRET__"[0] == 'S';
    }
  }

  /** `replace` drops every "SECRET__" in the key, not only the prefix:
      "SECRET__A_SECRET__B" is named after "A_B". */
  lemma ReplaceDropsEveryPrefix(app: string, a: string, b: string)
    requires 'S' !in a && 'S' !in b
    ensures SecretParamName(app, "SECRET__" + a + "SECRET__" + b) == app + "SSMSecret" + a + b
  {
    var p := "SECRET__";
    assert p + a + p + b == p + (a + (p + b));
    ReplaceAtStart(p, a + (p + b), "");
    ReplaceSkipsHead(a, p + b, p, "");
    ReplaceAtStart(p, b, "");
    assert b == b + [];
    ReplaceSkipsHead(b, [], p, "");
  }

  /** For a key that is "SECRET__" followed by a name without another
      "SECRET__", the SSM name is the app name, "SSMSecret" and that name. */
  lemma SecretNameOfPrefixedKey(app: string, rest: string)
    requires !Contains(rest, "SECRET__")
    ensures SecretParamName(app, "SECRET__" + rest) == app + "SSMSecret" + rest
  {
    var key := "SECRET__" + rest;
    assert SubstringAt(key, "SECRET__", 0);
    assert key[8..] == rest;
    ReplaceAbsent(rest, "SECRET__", "");
  }

  // ---------------------------------------------------------------------------
  // What the whole file does
  // ---------------------------------------------------------------------------

  /** After an error the remaining lines are not read. */
  lemma {:induction false} LoadStopsAtError(app: string, failing: set<string>, env: Env, lines: seq<string>, i: nat)
    requires i <= |lines| && Load(app, failing, env, lines[..i]).error.Some?
    ensures Load(app, failing, env, lines) == Load(app, failing, env, lines[..i])
    decreases |lines| - i
  {
    if i < |lines| {
      assert lines[..i + 1][..i] == lines[..i];
      LoadStopsAtError(app, failing, env, lines, i + 1);
    } else {
      assert lines[..i] == lines;
    }
  }

  /** What the loop keeps true of its state: no POSTGRES key is recorded
      and every secret refers to a parameter SSM holds. */
  predicate Valid(env: Env) {
    && (forall k :: k in env.envVars ==> !Contains(k, "POSTGRES"))
    && (forall k :: k in env.secrets ==> !Contains(k, "POSTGRES"))
    && (forall k :: k in env.secrets ==> env.secrets[k].parameterName in env.stored)
  }

  /** Every value SSM held is still there, unchanged. */
  predicate NoOverwrite(stored: map<string, string>, stored': map<string, string>) {
    forall n :: n in stored ==> n in stored' && stored'[n] == stored[n]
  }

  lemma SecretLineKeeps(app: string, failing: set<string>, env: Env, line: string)
    requires Valid(env)
    requires ParseLine(line).Success? && StartsWith(line, "SECRET__")
    ensures Valid(Process(app, failing, env, line).env)
    ensures NoOverwrite(env.stored, Process(app, failing, env, line).env.stored)
  {
    var (key, value) := ParseLine(line).value;
    var r := Process(app, failing, env, line);
    if Contains(key, "POSTGRES") {
      assert r.env == env;
    } else {
      var name := SecretParamName(app, key);
      var found := CheckParamExists(env.stored, failing, name);
      if found.Failure? {
        assert r.env == env;
      } else {
        var stored := if found.value then env.stored else env.stored[name := value];
        assert name in stored;
        assert NoOverwrite(env.stored, stored);
        if name in env.constructIds {
          assert r.env == env.(stored := stored);
        } else {
          var env' := Env(env.envVars, env.secrets[key := SecretRef(name)], env.constructIds + {name}, stored);
          assert Valid(env');
          assert r.env == env';
        }
      }
    }
  }

  lemma PlainLineKeeps(app: string, failing: set<string>, env: Env, line: string)
    requires Valid(env)
    requires ParseLine(line).Success? && !StartsWith(line, "SECRET__")
    ensures Valid(Process(app, failing, env, line).env)
    ensures Process(app, failing, env, line).env.stored == env.stored
  {
    var (key, value) := ParseLine(line).value;
    var r := Process(app, failing, env, line);
    var id := ParamId(app, key);
    if Contains(key, "POSTGRES") || id in env.constructIds {
      assert r.env == env;
    } else {
      var env' := Env(env.envVars[key := Param(id, key, value)], env.secrets, env.constructIds + {id}, env.stored);
      assert Valid(env');
      assert r.env == env';
    }
  }

  /** One line keeps the state valid and overwrites nothing in SSM. */
  lemma ProcessKeeps(app: string, failing: set<string>, env: Env, line: string)
    requires Valid(env)
    ensures Valid(Process(app, failing, env, line).env)
    ensures NoOverwrite(env.stored, Process(app, failing, env, line).env.stored)
  {
    if ParseLine(line).Success? {
      if StartsWith(line, "SECRET__") {
        SecretLineKeeps(app, failing, env, line);
      } else {
        PlainLineKeeps(app, failing, env, line);
      }
    }
  }

  /** The whole file, even when it stops at an error: POSTGRES keys are
      never recorded, every secret refers to a parameter present in SSM,
      and nothing already in SSM is overwritten. */
  lemma {:induction false} LoadKeeps(app: string, failing: set<string>, env: Env, lines: seq<string>)
    requires Valid(env)
    ensures Valid(Load(app, failing, env, lines).env)
    ensures NoOverwrite(env.stored, Load(app, failing, env, lines).env.stored)
  {
    if lines != [] {
      var n := |lines| - 1;
      LoadKeeps(app, failing, env, lines[..n]);
      var r := Load(app, failing, env, lines[..n]);
      if r.error.None? {
        ProcessKeeps(app, failing, r.env, lines[n]);
      }
    }
  }

  /** The stack starts valid. */
  lemma EmptyValid(stored: map<string, string>)
    ensures Valid(Env(map[], map[], {}, stored))
  {
  }

  // ---------------------------------------------------------------------------
  // SSM and the stack
  // ---------------------------------------------------------------------------

  /** The SSM parameters of the account. */
  class ParameterStore {
    var values: map<string, string>
    /** Names whose lookup raises an error other than ParameterNotFound. */
    const failing: set<string>

    constructor (values: map<string, string>, failing: set<string>)
      ensures this.values == values && this.failing == failing
    {
      this.values := values;
      this.failing := failing;
    }

    /** `create_ssm_secret`: `put_parameter` of a SecureString. */
    method PutSecureString(name: string, value: string)
      modifies this
      ensures values == old(values)[name := value]
    {
      values := values[name := value];
    }
  }

  class ConfigStack {
    const appName: string
    var envVars: map<string, Param>
    var secrets: map<string, SecretRef>
    var constructIds: set<string>

    /** The start of `__init__`: both dictionaries empty. */
    constructor (appName: string)
      ensures this.appName == appName
      ensures envVars == map[] && secrets == map[] && constructIds == {}
    {
      this.appName := appName;
      envVars := map[];
      secrets := map[];
      constructIds := {};
    }

    function State(store: ParameterStore): Env
      reads this, store
    {
      Env(envVars, secrets, constructIds, store.values)
    }

    /** Lines 27-46: every line of the file in order; the result is the
      error that stopped the loop, if any. */
    method LoadEnvFile(lines: seq<string>, store: ParameterStore) returns (error: Option<ConfigError>)
      modifies this, store
      ensures Run(State(store), error) == Load(appName, store.failing, old(State(store)), lines)
    {
      ghost var env0 := State(store);
      error := None;
      var i := 0;
      while i < |lines| && error.None?
        invariant 0 <= i <= |lines|
        invariant Run(State(store), error) == Load(appName, store.failing, env0, lines[..i])
      {
        assert lines[..i + 1][..i] == lines[..i];
        error := ProcessLine(lines[i], store);
        i := i + 1;
      }
      if i < |lines| {
        LoadStopsAtError(appName, store.failing, env0, lines, i);
      } else {
        assert lines[..i] == lines;
      }
    }

    /** Lines 28-46 for one line. */
    method ProcessLine(line: string, store: ParameterStore) returns (error: Option<ConfigError>)
      modifies this, store
      ensures Run(State(store), error) == Process(appName, store.failing, old(State(store)), line)
    {
      var parsed := ParseLine(line);
      if parsed.Failure? {
        return Some(parsed.error);
      }
      var (key, value) := parsed.value;
      if Contains(key, "POSTGRES") {
        return None;
      }
      var paramName := SecretParamName(appName, key);
      if StartsWith(line, "SECRET__") {
        var found := CheckParamExists(store.values, store.failing, paramName);
        if found.Failure? {
          return Some(found.error);
        }
        if !found.value {
          store.PutSecureString(paramName, value);
        }
        if paramName in constructIds {
          return Some(DuplicateConstruct(paramName));
        }
        constructIds := constructIds + {paramName};
        secrets := secrets[key := SecretRef(paramName)];
      } else {
        var id := ParamId(appName, key);
        if id in constructIds {
          return Some(DuplicateConstruct(id));
        }
        constructIds := constructIds + {id};
        envVars := envVars[key := Param(id, key, value)];
      }
      error := None;
    }
  }
}
