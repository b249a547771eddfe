/**
 * The start-up check both monitors run before anything else: the three
 * settings they cannot work without must be present and non-empty, or the
 * process logs the missing names and exits before a monitor is built.
 */
module Config {
  /** The environment: variable name to value. */
  type Env = map<string, string>

  /** The settings both monitors require, in the order they are listed. */
  const Required: seq<string> := ["TELEGRAM_TOKEN", "CHAT_ID", "SELLER_USERNAME"]

  /** `not os.getenv(name)`: the variable is absent or set to the empty
      string. */
  predicate Unset(env: Env, name: string)
  {
    name !in env || env[name] == ""
  }

  /** `missing_vars`: the names of `names`, in order, that are unset. */
  function MissingVars(names: seq<string>, env: Env): (m: seq<string>)
    ensures |m| <= |names|
    ensures forall x :: x in m <==> x in names && Unset(env, x)
  {
    if names == [] then []
    else (if Unset(env, names[0]) then [names[0]] else []) + MissingVars(names[1..], env)
  }

  /** The check keeps the listing order: checking two lists one after the
      other reports the first list's missing names, then the second's. */
  lemma {:induction false} MissingVarsAppend(a: seq<string>, b: seq<string>, env: Env)
    ensures MissingVars(a + b, env) == MissingVars(a, env) + MissingVars(b, env)
  {
    if a == [] {
      assert a + b == b;
    } else {
      assert (a + b)[0] == a[0];
      assert (a + b)[1..] == a[1..] + b;
      MissingVarsAppend(a[1..], b, env);
    }
  }

  /** What the entry point decides: exit, after logging the missing names,
      or go on to build and run the monitor. */
  datatype Decision = Abort(missing: seq<string>) | Start

  function Launch(env: Env): (d: Decision)
    ensures d.Start? <==> forall x :: x in Required ==> !Unset(env, x)
    ensures d.Abort? ==> d.missing != [] && forall x :: x in d.missing <==> x in Required && Unset(env, x)
  {
    var missing := MissingVars(Required, env);
    if missing != [] then assert missing[0] in missing; Abort(missing) else Start
  }

  /** An empty value counts as missing, exactly like an absent one. */
  lemma EmptyTokenAborts(env: Env)
    requires "TELEGRAM_TOKEN" in env && env["TELEGRAM_TOKEN"] == ""
    ensures Launch(env) == Abort(MissingVars(Required, env))
    ensures MissingVars(Required, env)[0] == "TELEGRAM_TOKEN"
  {
    assert Unset(env, Required[0]);
    assert MissingVars(Required, env) == ["TELEGRAM_TOKEN"] + MissingVars(Required[1..], env);
  }
}
