/** The rule loop of `patch_yaml_file`: every rule's value is expanded and written at
    its path, in rule order, into the loaded document (`{}` when the file is missing). */
module YamlPatch {
  import opened Text
  import opened Values
  import opened Paths
  import opened Nested
  import opened Expansion

  /** The document after applying `rules` in order; the first write that raises
      stops the run. */
  function ApplyYamlRules(doc: Value, rules: seq<(string, Value)>, env: map<string, string>): Result<Value>
    decreases |rules|
  {
    if rules == [] then Ok(doc)
    else
      var before := ApplyYamlRules(doc, rules[..|rules| - 1], env);
      var (path, raw) := rules[|rules| - 1];
      if before.Err? then before else SetPath(before.value, path, Expand(raw, env))
  }

  /** Reading a document at a textual path. */
  function GetPath(v: Value, path: string): Option<Value> {
    Get(v, Segments(SplitPath(path)))
  }

  /** The document the loop starts from: the loaded one, or `{}` for a missing file. */
  function Initial(existing: Option<Value>): (d: Value)
    ensures existing.None? ==> d == Map([])
    ensures existing.Some? ==> d == existing.value
  {
    if existing.None? then Map([]) else existing.value
  }

  /** `for match, replace_with in rules.items(): set_nested_value(data, match,
      expand_variables(replace_with))`, starting from the loaded document. */
  method PatchYaml(existing: Option<Value>, rules: seq<(string, Value)>, env: map<string, string>)
    returns (r: Result<Value>)
    ensures r == ApplyYamlRules(Initial(existing), rules, env)
  {
    var doc := Initial(existing);
    var data := doc;
    var i := 0;
    while i < |rules|
      invariant i <= |rules|
      invariant ApplyYamlRules(doc, rules[..i], env) == Ok(data)
    {
      var next := SetPath(data, rules[i].0, Expand(rules[i].1, env));
      ApplyStep(doc, rules, i, env, data);
      if next.Err? {
        return next;
      }
      data := next.value;
      i := i + 1;
    }
    assert rules[..i] == rules;
    r := Ok(data);
  }

  /** One more rule is one more write on the document so far; a write that raises
      is the outcome of the whole run. */
  lemma ApplyStep(doc: Value, rules: seq<(string, Value)>, i: nat, env: map<string, string>, data: Value)
    requires i < |rules| && ApplyYamlRules(doc, rules[..i], env) == Ok(data)
    ensures var next := SetPath(data, rules[i].0, Expand(rules[i].1, env));
      && ApplyYamlRules(doc, rules[..i + 1], env) == next
      && (next.Err? ==> ApplyYamlRules(doc, rules, env) == next)
  {
    TakeTake(rules, i);
    if SetPath(data, rules[i].0, Expand(rules[i].1, env)).Err? {
      ErrSticks(doc, rules, i + 1, env);
    }
  }

  /** Once a rule raises, the run ends with that exception whatever rules follow. */
  lemma {:induction false} ErrSticks(doc: Value, rules: seq<(string, Value)>, n: nat, env: map<string, string>)
    requires n <= |rules| && ApplyYamlRules(doc, rules[..n], env).Err?
    ensures ApplyYamlRules(doc, rules, env) == ApplyYamlRules(doc, rules[..n], env)
    decreases |rules| - n
  {
    if n < |rules| {
      TakeTake(rules, n);
      ErrSticks(doc, rules, n + 1, env);
    } else {
      assert rules[..n] == rules;
    }
  }

  /** After a successful run, the last rule's path reads back its expanded value. */
  lemma LastRuleReadsBack(doc: Value, rules: seq<(string, Value)>, env: map<string, string>)
    requires rules != [] && ApplyYamlRules(doc, rules, env).Ok?
    ensures var (path, raw) := rules[|rules| - 1];
      GetPath(ApplyYamlRules(doc, rules, env).value, path) == Some(Expand(raw, env))
  {
    var before := ApplyYamlRules(doc, rules[..|rules| - 1], env).value;
    var (path, raw) := rules[|rules| - 1];
    SetGet(before, Segments(SplitPath(path)), Expand(raw, env));
  }

  /** A later rule on the same path overrides an earlier one, wherever it stood; the
      two paths need only parse to the same segments (`a[1]` and `a[01]`, say), as
      keys of one rules dict are distinct texts. */
  lemma SamePathLaterWins(doc: Value, rules: seq<(string, Value)>, p1: string, p2: string, v1: Value, v2: Value,
                          env: map<string, string>)
    requires Segments(SplitPath(p1)) == Segments(SplitPath(p2))
    requires ApplyYamlRules(doc, rules + [(p1, v1)], env).Ok?
    ensures ApplyYamlRules(doc, rules + [(p1, v1), (p2, v2)], env)
         == ApplyYamlRules(doc, rules + [(p2, v2)], env)
  {
    var one := rules + [(p1, v1)];
    var two := rules + [(p1, v1), (p2, v2)];
    var alt := rules + [(p2, v2)];
    assert two[..|two| - 1] == one;
    assert one[..|one| - 1] == rules && alt[..|alt| - 1] == rules;
    var d := ApplyYamlRules(doc, rules, env).value;
    SetTwice(d, Segments(SplitPath(p1)), Expand(v1, env), Expand(v2, env));
  }

  /** Rules never break a document's dicts: well-formed values give a well-formed result. */
  lemma {:induction false} ApplyKeepsWellFormed(doc: Value, rules: seq<(string, Value)>, env: map<string, string>)
    requires WellFormed(doc) && forall i :: 0 <= i < |rules| ==> WellFormed(rules[i].1)
    requires ApplyYamlRules(doc, rules, env).Ok?
    ensures WellFormed(ApplyYamlRules(doc, rules, env).value)
    decreases |rules|
  {
    if rules != [] {
      var init := rules[..|rules| - 1];
      ApplyKeepsWellFormed(doc, init, env);
      var (path, raw) := rules[|rules| - 1];
      ExpandWellFormed(raw, env);
      SetWellFormed(ApplyYamlRules(doc, init, env).value, Segments(SplitPath(path)), Expand(raw, env));
    }
  }

  /** A missing file or a loaded dict never makes a run of key-only paths raise. */
  lemma {:induction false} KeyPathsNeverRaise(doc: Value, rules: seq<(string, Value)>, env: map<string, string>)
    requires doc.Map?
    requires forall i :: 0 <= i < |rules| ==> '[' !in rules[i].0
    ensures ApplyYamlRules(doc, rules, env).Ok?
    decreases |rules|
  {
    if rules != [] {
      var init := rules[..|rules| - 1];
      KeyPathsNeverRaise(doc, init, env);
      var (path, raw) := rules[|rules| - 1];
      var segs := Segments(SplitPath(path));
      SplitJoin(path);
      forall i | 0 <= i < |segs| ensures segs[i].Key? {
        PieceInJoin(SplitPath(path), i);
        ParseKey(SplitPath(path)[i]);
      }
      var d := ApplyYamlRules(doc, init, env).value;
      KeysOnlyDescendable(d, segs);
      SetOkIff(d, segs, Expand(raw, env));
    }
  }
}
