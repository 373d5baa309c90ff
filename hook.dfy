/** `main`: every entry of the configuration's `files` dict names a file under the
    working directory and how to patch it; entries without a parser or without rules,
    and entries naming an unknown parser, are skipped.

    The file system is a map from full paths to the text of the files. Loading and
    dumping YAML are the parameters `load` and `dump`. */
module Hook {
  import opened Text
  import opened Values
  import opened FileText
  import YamlPatch
  import PropertiesPatch
  import GenericPatch

  /** `WORKING_DIR`. */
  const WorkingDir: string := "/home/container"

  type Files = map<string, string>

  /** `os.path.join(WORKING_DIR, file_path)`: an absolute path replaces the directory. */
  function FullPath(p: string): string {
    if |p| > 0 && p[0] == '/' then p else WorkingDir + "/" + p
  }

  /** A relative path lands inside the working directory and can be read back from
      the full path; an absolute one is used as given. */
  lemma FullPathSpec(p: string)
    ensures |p| > 0 && p[0] == '/' ==> FullPath(p) == p
    ensures !(|p| > 0 && p[0] == '/') ==>
      StartsWith(FullPath(p), "/home/container/") && FullPath(p)[16..] == p
  {
    if !(|p| > 0 && p[0] == '/') {
      assert FullPath(p)[..16] == "/home/container/";
    }
  }

  /** Two relative paths never land on the same file unless they are equal. */
  lemma FullPathInjective(p: string, q: string)
    requires !(|p| > 0 && p[0] == '/') && !(|q| > 0 && q[0] == '/')
    ensures FullPath(p) == FullPath(q) ==> p == q
  {
    FullPathSpec(p);
    FullPathSpec(q);
  }

  /** What `main` does with one entry. */
  datatype Action =
    | Skip
    | Yaml(rules: seq<(string, Value)>)
    | Properties(rules: seq<(string, Value)>)
    | Generic(rules: seq<(string, Value)>)

  /** `d.get(k, default)`. */
  function Field(es: seq<(string, Value)>, k: string, default: Value): (v: Value)
    ensures k !in Keys(es) ==> v == default
  {
    var found := Lookup(es, k);
    if found.Some? then found.value else default
  }

  /** The dispatch on `parser`, together with the exceptions Python raises on the way:
      `.get` on an entry that is not a dict, `.items()` on rules that are not a dict. */
  function Classify(instr: Value): Result<Action> {
    if !instr.Map? then Err("AttributeError: object has no attribute 'get'")
    else
      var parser := Field(instr.entries, "parser", Null);
      var find := Field(instr.entries, "find", Map([]));
      if !Truthy(parser) || !Truthy(find) then Ok(Skip)
      else if parser !in {Str("yaml"), Str("yml"), Str("properties"), Str("file")} then Ok(Skip)
      else if !find.Map? then Err("AttributeError: object has no attribute 'items'")
      else if parser == Str("properties") then Ok(Properties(find.entries))
      else if parser == Str("file") then Ok(Generic(find.entries))
      else Ok(Yaml(find.entries))
  }

  /** An entry without a parser, without rules or with empty rules is skipped. */
  lemma ClassifySkipsUnset(instr: Value)
    requires instr.Map?
    requires "parser" !in Keys(instr.entries) || "find" !in Keys(instr.entries)
             || Field(instr.entries, "find", Map([])) == Map([])
    ensures Classify(instr) == Ok(Skip)
  {
  }

  /** A parser name other than the four known ones is skipped, whatever the rules are. */
  lemma ClassifySkipsUnknown(instr: Value, name: string)
    requires instr.Map? && Field(instr.entries, "parser", Null) == Str(name)
    requires name !in ["yaml", "yml", "properties", "file"]
    ensures Classify(instr) == Ok(Skip)
  {
  }

  /** A known parser with a non-empty dict of rules patches with exactly that dict, and
      both YAML spellings select the same patcher. */
  lemma ClassifyKnown(es: seq<(string, Value)>, rules: seq<(string, Value)>)
    requires Field(es, "find", Map([])) == Map(rules) && rules != []
    ensures Field(es, "parser", Null) in {Str("yaml"), Str("yml")} ==> Classify(Map(es)) == Ok(Yaml(rules))
    ensures Field(es, "parser", Null) == Str("properties") ==> Classify(Map(es)) == Ok(Properties(rules))
    ensures Field(es, "parser", Null) == Str("file") ==> Classify(Map(es)) == Ok(Generic(rules))
  {
  }

  /** Classification raises only on an entry that is not a dict or on a known parser
      whose rules are truthy but not a dict. */
  lemma ClassifyRaises(instr: Value)
    ensures Classify(instr).Err? <==>
      (|| !instr.Map?
       || (&& Truthy(Field(instr.entries, "find", Map([])))
           && !Field(instr.entries, "find", Map([])).Map?
           && Field(instr.entries, "parser", Null) in {Str("yaml"), Str("yml"), Str("properties"), Str("file")}))
  {
  }

  /** The rules of the line-based patchers render their values with `str()`; the model
      covers scalar values, in a dict without repeated keys. */
  ghost predicate Modelled(instr: Value) {
    var c := Classify(instr);
    (c.Ok? && (c.value.Properties? || c.value.Generic?)) ==>
      GenericPatch.AllScalar(c.value.rules) && NoDupKeys(c.value.rules)
  }

  lemma KeysOrder(rules: seq<(string, Value)>)
    requires NoDupKeys(rules)
    ensures GenericPatch.IsOrderOf(Keys(rules), rules)
  {
  }

  /** What `open` finds at `full`. */
  function Existing(fs: Files, full: string): (file: Option<string>)
    ensures file.Some? <==> full in fs
  {
    if full in fs then Some(fs[full]) else None
  }

  /** The files after one entry of the loop. The generic patcher tries and appends keys
      in the rules' own order. */
  function Step(fs: Files, entry: (string, Value), env: map<string, string>,
                load: string -> Value, dump: Value -> string): Result<Files>
    requires Modelled(entry.1)
  {
    var full := FullPath(entry.0);
    var file := Existing(fs, full);
    var c := Classify(entry.1);
    if c.Err? then Err(c.error)
    else if c.value.Skip? then Ok(fs)
    else if c.value.Yaml? then
      var doc := YamlPatch.ApplyYamlRules(YamlPatch.Initial(if file.Some? then Some(load(file.value)) else None),
                                          c.value.rules, env);
      if doc.Err? then Err(doc.error) else Ok(fs[full := dump(doc.value)])
    else if c.value.Properties? then
      Ok(fs[full := PropertiesPatch.PatchedProperties(file, c.value.rules, env)])
    else
      KeysOrder(c.value.rules);
      Ok(fs[full := GenericPatch.GenericTextAsWritten(file, c.value.rules, Keys(c.value.rules), Keys(c.value.rules), env)])
  }

  /** How `main` ends: every entry done, or an exception. Either way the files are as
      the entries that completed left them, since each patcher writes its file before
      the next entry runs. */
  datatype RunResult = Done(fs: Files) | Raised(fs: Files, error: string)

  /** The loop over the entries in order; the first exception ends the run, and what
      the entries before it wrote stays written. */
  function Run(fs: Files, files: seq<(string, Value)>, env: map<string, string>,
               load: string -> Value, dump: Value -> string): RunResult
    requires forall i :: 0 <= i < |files| ==> Modelled(files[i].1)
    decreases |files|
  {
    if files == [] then Done(fs)
    else
      var before := Run(fs, files[..|files| - 1], env, load, dump);
      if before.Raised? then before
      else
        var s := Step(before.fs, files[|files| - 1], env, load, dump);
        if s.Err? then Raised(before.fs, s.error) else Done(s.value)
  }

  /** Every entry of the configuration is one the model covers. */
  ghost predicate ConfigModelled(config: Value) {
    config.Map? && Field(config.entries, "files", Map([])).Map? ==>
      var files := Field(config.entries, "files", Map([])).entries;
      forall i :: 0 <= i < |files| ==> Modelled(files[i].1)
  }

  /** `main` after the configuration is loaded. */
  function Outcome(config: Value, fs: Files, env: map<string, string>,
                load: string -> Value, dump: Value -> string): RunResult
    requires ConfigModelled(config)
  {
    if !config.Map? then Raised(fs, "AttributeError: object has no attribute 'get'")
    else
      var files := Field(config.entries, "files", Map([]));
      if !files.Map? then Raised(fs, "AttributeError: object has no attribute 'items'")
      else Run(fs, files.entries, env, load, dump)
  }

  /** One entry: the dispatch and the call to the chosen patcher. */
  method PatchFile(fs: Files, entry: (string, Value), env: map<string, string>,
                   load: string -> Value, dump: Value -> string)
    returns (r: Result<Files>)
    requires Modelled(entry.1)
    ensures r == Step(fs, entry, env, load, dump)
  {
    var full := FullPath(entry.0);
    var file := Existing(fs, full);
    var c := Classify(entry.1);
    if c.Err? {
      return Err(c.error);
    }
    match c.value
    case Skip =>
      r := Ok(fs);
    case Yaml(rules) =>
      var doc := YamlPatch.PatchYaml(if file.Some? then Some(load(file.value)) else None, rules, env);
      if doc.Err? {
        r := Err(doc.error);
      } else {
        r := Ok(fs[full := dump(doc.value)]);
      }
    case Properties(rules) =>
      var out := PropertiesPatch.PatchProperties(file, rules, env);
      r := Ok(fs[full := out]);
    case Generic(rules) =>
      KeysOrder(rules);
      var out := GenericPatch.PatchGeneric(file, rules, Keys(rules), Keys(rules), env);
      r := Ok(fs[full := Join(out)]);
  }

  /** The loop of `main` over `config.get("files", {}).items()`. */
  method RunHook(config: Value, fs: Files, env: map<string, string>,
                 load: string -> Value, dump: Value -> string)
    returns (r: RunResult)
    requires ConfigModelled(config)
    ensures r == Outcome(config, fs, env, load, dump)
  {
    if !config.Map? {
      return Raised(fs, "AttributeError: object has no attribute 'get'");
    }
    var files := Field(config.entries, "files", Map([]));
    if !files.Map? {
      return Raised(fs, "AttributeError: object has no attribute 'items'");
    }
    var entries := files.entries;
    var cur := fs;
    var i := 0;
    while i < |entries|
      invariant 0 <= i <= |entries|
      invariant Run(fs, entries[..i], env, load, dump) == Done(cur)
    {
      RunStep(fs, entries, i, env, load, dump);
      var next := PatchFile(cur, entries[i], env, load, dump);
      if next.Err? {
        r := Raised(cur, next.error);
        RunErrSticks(fs, entries, i + 1, env, load, dump);
        return;
      }
      cur := next.value;
      i := i + 1;
    }
    assert entries[..i] == entries;
    r := Done(cur);
  }

  lemma RunStep(fs: Files, files: seq<(string, Value)>, i: nat, env: map<string, string>,
                load: string -> Value, dump: Value -> string)
    requires i < |files| && forall j :: 0 <= j < |files| ==> Modelled(files[j].1)
    requires Run(fs, files[..i], env, load, dump).Done?
    ensures var before := Run(fs, files[..i], env, load, dump).fs;
      var s := Step(before, files[i], env, load, dump);
      Run(fs, files[..i + 1], env, load, dump) == if s.Err? then Raised(before, s.error) else Done(s.value)
  {
    TakeTake(files, i);
  }

  /** Once an entry raises, no later entry runs and the run ends with that exception. */
  lemma {:induction false} RunErrSticks(fs: Files, files: seq<(string, Value)>, n: nat, env: map<string, string>,
                                        load: string -> Value, dump: Value -> string)
    requires n <= |files| && forall i :: 0 <= i < |files| ==> Modelled(files[i].1)
    requires Run(fs, files[..n], env, load, dump).Raised?
    ensures Run(fs, files, env, load, dump) == Run(fs, files[..n], env, load, dump)
    decreases |files| - n
  {
    if n < |files| {
      TakeTake(files, n);
      RunErrSticks(fs, files, n + 1, env, load, dump);
    } else {
      assert files[..n] == files;
    }
  }

  /** One entry writes at most its own full path: every other file is left as it was. */
  lemma StepFrame(fs: Files, entry: (string, Value), env: map<string, string>,
                  load: string -> Value, dump: Value -> string, p: string)
    requires Modelled(entry.1) && Step(fs, entry, env, load, dump).Ok? && p != FullPath(entry.0)
    ensures var after := Step(fs, entry, env, load, dump).value;
      (p in after <==> p in fs) && (p in fs ==> after[p] == fs[p])
  {
  }

  /** A skipped entry leaves every file as it was. */
  lemma SkipUnchanged(fs: Files, entry: (string, Value), env: map<string, string>,
                      load: string -> Value, dump: Value -> string)
    requires Modelled(entry.1) && Classify(entry.1) == Ok(Skip)
    ensures Step(fs, entry, env, load, dump) == Ok(fs)
  {
  }

  /** A file that no entry names is left as it was, whether the run completes or
      raises. */
  lemma {:induction false} RunFrame(fs: Files, files: seq<(string, Value)>, env: map<string, string>,
                                    load: string -> Value, dump: Value -> string, p: string)
    requires forall i :: 0 <= i < |files| ==> Modelled(files[i].1)
    requires forall i :: 0 <= i < |files| ==> FullPath(files[i].0) != p
    ensures var after := Run(fs, files, env, load, dump).fs;
      (p in after <==> p in fs) && (p in fs ==> after[p] == fs[p])
    decreases |files|
  {
    if files != [] {
      var init := files[..|files| - 1];
      assert forall i :: 0 <= i < |init| ==> init[i] == files[i];
      RunFrame(fs, init, env, load, dump, p);
      var before := Run(fs, init, env, load, dump);
      if before.Done? && Step(before.fs, files[|files| - 1], env, load, dump).Ok? {
        StepFrame(before.fs, files[|files| - 1], env, load, dump, p);
      }
    }
  }

  /** A run that raises leaves the files as the entries before the raising one left
      them: the raising entry writes nothing, not even its own file. */
  lemma {:induction false} RaisedAfter(fs: Files, files: seq<(string, Value)>, env: map<string, string>,
                                       load: string -> Value, dump: Value -> string)
    requires forall i :: 0 <= i < |files| ==> Modelled(files[i].1)
    requires Run(fs, files, env, load, dump).Raised?
    ensures var r := Run(fs, files, env, load, dump);
      exists n :: 0 <= n < |files| && Run(fs, files[..n], env, load, dump) == Done(r.fs)
        && Step(r.fs, files[n], env, load, dump) == Err(r.error)
    decreases |files|, 1
  {
    if Run(fs, files[..|files| - 1], env, load, dump).Raised? {
      RaisedEarlier(fs, files, env, load, dump);
    } else {
      RaisedLast(fs, files, env, load, dump);
    }
  }

  /** The run raised before the last entry: the earlier entry that raised is the one. */
  lemma {:induction false} RaisedEarlier(fs: Files, files: seq<(string, Value)>, env: map<string, string>,
      load: string -> Value, dump: Value -> string)
    requires forall i :: 0 <= i < |files| ==> Modelled(files[i].1)
    requires Run(fs, files, env, load, dump).Raised?
    requires Run(fs, files[..|files| - 1], env, load, dump).Raised?
    ensures var r := Run(fs, files, env, load, dump);
      exists n :: 0 <= n < |files| && Run(fs, files[..n], env, load, dump) == Done(r.fs)
        && Step(r.fs, files[n], env, load, dump) == Err(r.error)
    decreases |files|, 0
  {
    var n := |files| - 1;
    var init := files[..n];
    forall i | 0 <= i < |init| ensures Modelled(init[i].1) {
      TakePrefix(files, n, i);
    }
    RunErrSticks(fs, files, n, env, load, dump);
    RaisedAfter(fs, init, env, load, dump);
    var r := Run(fs, init, env, load, dump);
    var m :| 0 <= m < |init| && Run(fs, init[..m], env, load, dump) == Done(r.fs)
      && Step(r.fs, init[m], env, load, dump) == Err(r.error);
    TakePrefix(files, n, m);
    assert Run(fs, files, env, load, dump) == r;
    assert Run(fs, files[..m], env, load, dump) == Done(r.fs) && Step(r.fs, files[m], env, load, dump) == Err(r.error);
  }

  /** The run completed every entry but the last, which raised. */
  lemma RaisedLast(fs: Files, files: seq<(string, Value)>, env: map<string, string>,
      load: string -> Value, dump: Value -> string)
    requires forall i :: 0 <= i < |files| ==> Modelled(files[i].1)
    requires Run(fs, files, env, load, dump).Raised?
    requires Run(fs, files[..|files| - 1], env, load, dump).Done?
    ensures var r := Run(fs, files, env, load, dump);
      exists n :: 0 <= n < |files| && Run(fs, files[..n], env, load, dump) == Done(r.fs)
        && Step(r.fs, files[n], env, load, dump) == Err(r.error)
  {
    var n := |files| - 1;
    RunStep(fs, files, n, env, load, dump);
    assert files[..n + 1] == files;
  }

  /** A properties entry writes the patched table of what its file held before. */
  lemma PropertiesStep(fs: Files, path: string, es: seq<(string, Value)>, rules: seq<(string, Value)>,
                       env: map<string, string>, load: string -> Value, dump: Value -> string)
    requires Field(es, "parser", Null) == Str("properties") && Field(es, "find", Map([])) == Map(rules) && rules != []
    requires GenericPatch.AllScalar(rules) && NoDupKeys(rules)
    ensures Modelled(Map(es))
    ensures Step(fs, (path, Map(es)), env, load, dump)
         == Ok(fs[FullPath(path) := PropertiesPatch.PatchedProperties(Existing(fs, FullPath(path)), rules, env)])
  {
    ClassifyKnown(es, rules);
  }
}
