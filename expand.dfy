/** `expand_variables`: `{{ name }}` placeholders resolved through the alias table
    and the environment, then the whole result coerced by `to_native_type`. */
module Expansion {
  import opened Text
  import opened Values
  import opened Coerce

  /** `VARIABLE_MAPPING`: logical names that stand for environment variables. */
  const Aliases: map<string, string> := map[
    "server.build.default.port" := "SERVER_PORT",
    "server.build.default.ip" := "SERVER_IP",
    "server.memory" := "SERVER_MEMORY",
    "server.uuid" := "P_SERVER_UUID",
    "server.location" := "P_SERVER_LOCATION"
  ]

  /** `VARIABLE_MAPPING.get(placeholder) or placeholder` */
  function EnvName(placeholder: string): string {
    GetOr(Aliases, placeholder)
  }

  /** `table.get(key) or key` for a table whose values are all non-empty. */
  function GetOr(table: map<string, string>, key: string): string {
    if key in table then table[key] else key
  }

  /** The callback `repl`: the trimmed name is resolved, and an unset variable leaves
      the whole matched text in place. */
  function Resolve(inner: string, whole: string, env: map<string, string>): string {
    var name := EnvName(Strip(inner));
    if name in env then env[name] else whole
  }

  /** The first `}` at or after `i`, or the end of `s`. */
  function CloseAt(s: string, i: nat): (j: nat)
    requires i <= |s|
    ensures i <= j <= |s|
    decreases |s| - i
  {
    if i == |s| || s[i] == '}' then i else CloseAt(s, i + 1)
  }

  lemma {:induction false} CloseAtSpec(s: string, i: nat)
    requires i <= |s|
    ensures var j := CloseAt(s, i);
      (j < |s| ==> s[j] == '}') && forall k :: i <= k < j ==> s[k] != '}'
    decreases |s| - i
  {
    if i < |s| && s[i] != '}' {
      CloseAtSpec(s, i + 1);
    }
  }

  /** Length of the match of `\{\{([^}]+)\}\}` at the start of `s`, or 0 when it does
      not match there. The run `[^}]+` is maximal, so it ends at the first `}`. */
  function MatchLen(s: string): (m: nat)
    ensures m == 0 || 5 <= m <= |s|
  {
    if |s| >= 2 && s[..2] == "{{" then
      var j := CloseAt(s, 2);
      if j > 2 && j + 1 < |s| && s[j + 1] == '}' then j + 2 else 0
    else 0
  }

  /** `re.sub(r"\{\{([^}]+)\}\}", repl, s)`: one left-to-right pass; text produced by a
      substitution is never scanned again. */
  function Subst(s: string, env: map<string, string>): string
    decreases |s|
  {
    if s == [] then []
    else
      var m := MatchLen(s);
      if m > 0 then Resolve(s[2..m - 2], s[..m], env) + Subst(s[m..], env)
      else [s[0]] + Subst(s[1..], env)
  }

  /** A match is `{{`, a non-empty run without `}`, and `}}`. */
  lemma MatchLenShape(s: string)
    ensures var m := MatchLen(s);
      m > 0 ==> s[..2] == "{{" && s[m - 2..m] == "}}" && forall k :: 2 <= k < m - 2 ==> s[k] != '}'
  {
    if |s| >= 2 {
      CloseAtSpec(s, 2);
    }
  }

  /** A placeholder with a non-empty name free of `}` matches in full. */
  lemma MatchPlaceholder(name: string, rest: string)
    requires name != [] && '}' !in name
    ensures MatchLen("{{" + name + "}}" + rest) == |name| + 4
  {
    var s := "{{" + name + "}}" + rest;
    assert s[..2] == "{{";
    assert forall k :: 2 <= k < |name| + 2 ==> s[k] == name[k - 2];
    CloseAtSpec(s, 2);
    assert s[|name| + 2] == '}' && s[|name| + 3] == '}';
  }

  lemma NoMatchWithoutBrace(s: string)
    requires s != [] && s[0] != '{'
    ensures MatchLen(s) == 0
  {
    assert |s| >= 2 ==> s[..2][0] == s[0];
  }

  lemma SubstFirstChar(s: string, env: map<string, string>)
    requires s != [] && MatchLen(s) == 0
    ensures Subst(s, env) == [s[0]] + Subst(s[1..], env)
  {
  }

  /** Text with no `{` is copied, and scanning resumes right after it. */
  lemma {:induction false} SubstLiteral(lit: string, t: string, env: map<string, string>)
    requires '{' !in lit
    ensures Subst(lit + t, env) == lit + Subst(t, env)
    decreases |lit|
  {
    if lit != [] {
      var s := lit + t;
      ConcatHead(lit, t);
      NoMatchWithoutBrace(s);
      SubstFirstChar(s, env);
      assert '{' !in lit[1..] by {
        assert forall c :: c in lit[1..] ==> c in lit;
      }
      SubstLiteral(lit[1..], t, env);
      ConsConcat(lit, Subst(t, env));
    } else {
      assert lit + t == t;
    }
  }

  /** A string without `{` holds no placeholder and is left as it is. */
  lemma SubstNoBrace(s: string, env: map<string, string>)
    requires '{' !in s
    ensures Subst(s, env) == s
  {
    SubstLiteral(s, [], env);
    assert s + [] == s;
  }

  /** `{{name}}` is replaced by the variable its trimmed name resolves to (through the
      alias table first), or kept verbatim when that variable is unset. */
  lemma SubstPlaceholder(name: string, rest: string, env: map<string, string>)
    requires name != [] && '}' !in name
    ensures var n := EnvName(Strip(name));
      Subst("{{" + name + "}}" + rest, env)
      == (if n in env then env[n] else "{{" + name + "}}") + Subst(rest, env)
  {
    MatchPlaceholder(name, rest);
    PlaceholderLayout(name, rest);
    SubstMatch("{{" + name + "}}" + rest, env);
  }

  /** Where the parts of `{{name}}rest` sit. */
  lemma PlaceholderLayout(name: string, rest: string)
    ensures var s := "{{" + name + "}}" + rest;
      var m := |name| + 4;
      s[2..m - 2] == name && s[..m] == "{{" + name + "}}" && s[m..] == rest
  {
    var s := "{{" + name + "}}" + rest;
    var m := |name| + 4;
    assert s[2..m - 2] == name;
    assert s[..m] == "{{" + name + "}}";
    assert s[m..] == rest;
  }

  lemma SubstMatch(s: string, env: map<string, string>)
    requires MatchLen(s) > 0
    ensures var m := MatchLen(s);
      Subst(s, env) == Resolve(s[2..m - 2], s[..m], env) + Subst(s[m..], env)
  {
  }

  /** With no variable set, every placeholder stays as written. */
  lemma {:induction false} SubstUnsetEnv(s: string)
    ensures Subst(s, map[]) == s
    decreases |s|
  {
    if s != [] {
      var m := MatchLen(s);
      if m > 0 {
        SubstMatch(s, map[]);
        SubstUnsetEnv(s[m..]);
        TakeDrop(s, m);
      } else {
        SubstFirstChar(s, map[]);
        SubstUnsetEnv(s[1..]);
        HeadTail(s);
      }
    }
  }

  /** `expand_variables(value)`: strings are substituted and then coerced as a whole;
      dicts keep their keys in order and lists their length, with every member
      expanded; other values are returned unchanged. */
  function Expand(v: Value, env: map<string, string>): (r: Value)
    ensures v.Str? ==> r == ToNative(Str(Subst(v.s, env)))
    ensures v.Map? ==> r.Map? && Keys(r.entries) == Keys(v.entries)
    ensures v.Map? ==> forall i :: 0 <= i < |v.entries| ==> r.entries[i].1 == Expand(v.entries[i].1, env)
    ensures v.List? ==> r.List? && |r.items| == |v.items|
    ensures v.List? ==> forall i :: 0 <= i < |v.items| ==> r.items[i] == Expand(v.items[i], env)
    ensures !v.Str? && !v.Map? && !v.List? ==> r == v
    decreases v
  {
    match v
    case Str(s) => ToNative(Str(Subst(s, env)))
    case Map(es) => Map(seq(|es|, i requires 0 <= i < |es| => (es[i].0, Expand(es[i].1, env))))
    case List(items) => List(seq(|items|, i requires 0 <= i < |items| => Expand(items[i], env)))
    case _ => v
  }

  /** Expansion keeps every dict a proper dict (distinct keys). */
  lemma {:induction false} ExpandWellFormed(v: Value, env: map<string, string>)
    requires WellFormed(v)
    ensures WellFormed(Expand(v, env))
    decreases v
  {
    var r := Expand(v, env);
    match v
    case Map(es) =>
      forall i | 0 <= i < |es| ensures WellFormed(r.entries[i].1) {
        ExpandWellFormed(es[i].1, env);
      }
      forall i, j | 0 <= i < j < |es| ensures r.entries[i].0 != r.entries[j].0 {
        assert Keys(r.entries)[i] == es[i].0 && Keys(r.entries)[j] == es[j].0;
      }
    case List(items) =>
      forall i | 0 <= i < |items| ensures WellFormed(r.items[i]) {
        ExpandWellFormed(items[i], env);
      }
    case _ =>
  }

  /** No `{` in any string of the value: nothing a placeholder could match. */
  predicate BraceFree(v: Value) {
    match v
    case Str(s) => '{' !in s
    case List(items) => forall i :: 0 <= i < |items| ==> BraceFree(items[i])
    case Map(es) => forall i :: 0 <= i < |es| ==> BraceFree(es[i].1)
    case _ => true
  }

  /** A value without placeholders expands the same way under every environment:
      only the coercion of its strings applies. */
  lemma {:induction false} ExpandEnvIndependent(v: Value, env1: map<string, string>, env2: map<string, string>)
    requires BraceFree(v)
    ensures Expand(v, env1) == Expand(v, env2)
    decreases v
  {
    match v
    case Str(s) =>
      SubstNoBrace(s, env1);
      SubstNoBrace(s, env2);
    case Map(es) =>
      forall i | 0 <= i < |es| ensures Expand(es[i].1, env1) == Expand(es[i].1, env2) {
        ExpandEnvIndependent(es[i].1, env1, env2);
      }
      assert Expand(v, env1).entries == Expand(v, env2).entries;
    case List(items) =>
      forall i | 0 <= i < |items| ensures Expand(items[i], env1) == Expand(items[i], env2) {
        ExpandEnvIndependent(items[i], env1, env2);
      }
      assert Expand(v, env1).items == Expand(v, env2).items;
    case _ =>
  }

  /** A string that is exactly one placeholder becomes the resolved value, or stays. */
  lemma SubstWhole(name: string, env: map<string, string>)
    requires name != [] && '}' !in name
    ensures Subst("{{" + name + "}}", env) == Resolve(name, "{{" + name + "}}", env)
  {
    SubstPlaceholder(name, "", env);
    assert "{{" + name + "}}" + "" == "{{" + name + "}}";
  }

  /** When the whole string is one placeholder, the coercion sees exactly the
      variable's value; an unset variable leaves the placeholder as a string. */
  lemma ExpandWholePlaceholder(name: string, env: map<string, string>)
    requires name != [] && '}' !in name
    ensures var n := EnvName(Strip(name));
      Expand(Str("{{" + name + "}}"), env)
      == if n in env then ToNative(Str(env[n])) else Str("{{" + name + "}}")
  {
    SubstWhole(name, env);
    var w := "{{" + name + "}}";
    assert Lower(w)[0] == '{';
  }

  /** Text holding an `=` before the rest keeps the result a string, whatever the
      variables hold: coercion applies to the whole string, never to a part. */
  lemma ExpandEmbedded(prefix: string, t: string, env: map<string, string>)
    requires '{' !in prefix && '=' in prefix
    ensures Expand(Str(prefix + t), env) == Str(prefix + Subst(t, env))
  {
    SubstLiteral(prefix, t, env);
    ToNativeKeepsText(prefix + Subst(t, env), IndexOf(prefix, '='));
  }

  /** The alias table maps the logical port name to `SERVER_PORT`. */
  lemma PortAlias()
    ensures EnvName(Strip("server.build.default.port")) == "SERVER_PORT"
  {
    StripStripped("server.build.default.port");
  }

  /** A stripped, unaliased name that is set resolves to the variable's value. */
  lemma SubstWholeSet(name: string, env: map<string, string>)
    requires name != [] && '}' !in name && IsStripped(name)
    requires name !in Aliases && name in env
    ensures Subst("{{" + name + "}}", env) == env[name]
  {
    SubstWhole(name, env);
    StripStripped(name);
  }

  lemma SubstWholePort(env: map<string, string>)
    requires "SERVER_PORT" in env && env["SERVER_PORT"] == "25565"
    ensures Subst("{{SERVER_PORT}}", env) == "25565"
  {
    PortName();
    SubstWholeSet("SERVER_PORT", env);
    PortPlaceholder();
  }

  lemma PortName()
    ensures '}' !in "SERVER_PORT" && IsStripped("SERVER_PORT") && "SERVER_PORT" !in Aliases
  {
  }

  lemma PortPlaceholder()
    ensures "{{" + "SERVER_PORT" + "}}" == "{{SERVER_PORT}}"
  {
  }

  /** A value that is only the placeholder becomes an integer. */
  lemma ExpandWholePort(env: map<string, string>)
    requires "SERVER_PORT" in env && env["SERVER_PORT"] == "25565"
    ensures Expand(Str("{{SERVER_PORT}}"), env) == Int(25565)
  {
    SubstWholePort(env);
    ToNativePort();
  }

  lemma SubstSinglePass(env: map<string, string>)
    requires "A" in env && env["A"] == "{{B}}"
    ensures Subst("{{A}}", env) == "{{B}}"
  {
    AName();
    SubstWholeSet("A", env);
    APlaceholder();
  }

  lemma AName()
    ensures '}' !in "A" && IsStripped("A") && "A" !in Aliases
  {
  }

  lemma APlaceholder()
    ensures "{{" + "A" + "}}" == "{{A}}"
  {
  }

  /** Text produced by a substitution is not scanned again. */
  lemma ExpandSinglePass(env: map<string, string>)
    requires "A" in env && env["A"] == "{{B}}"
    ensures Expand(Str("{{A}}"), env) == Str("{{B}}")
  {
    SubstSinglePass(env);
    assert Lower("{{B}}")[0] == '{';
  }

  // ---- `str(expand_variables(v))` for the line-based rewriters ----

  /** Expansion turns a scalar into a scalar. */
  lemma ExpandScalar(v: Value, env: map<string, string>)
    requires IsScalar(v)
    ensures IsScalar(Expand(v, env))
  {
  }

  /** `str(expand_variables(v))` for a scalar rule value: the text the properties and
      the generic rewriters write. */
  function ExpandedText(v: Value, env: map<string, string>): (t: string)
    requires IsScalar(v)
    ensures !v.Str? ==> t == PyStr(v)
  {
    ExpandScalar(v, env);
    PyStr(Expand(v, env))
  }

  /** Coercion shows through in the written text: `"true"` is written `True` and
      `"007"` is written `7`. */
  lemma ExpandedTextCoerces(env: map<string, string>)
    ensures ExpandedText(Str("true"), env) == "True"
    ensures ExpandedText(Str("007"), env) == "7"
  {
    ExpandTrue(env);
    ExpandSeven(env);
    assert DecimalString(7) == "7";
  }

  lemma ExpandTrue(env: map<string, string>)
    ensures Expand(Str("true"), env) == Bool(true)
  {
    SubstNoBrace("true", env);
    assert Lower("true") == "true";
  }

  lemma ExpandSeven(env: map<string, string>)
    ensures Expand(Str("007"), env) == Int(7)
  {
    SubstNoBrace("007", env);
    ToNativeLeadingZeros();
  }
}
