/** The rule loop of `patch_properties_file`: the existing `key=value` lines are read
    into an insertion-ordered table, every rule sets its key to the text of its
    expanded value, and the table is written back one `key=value` line per entry. */
module PropertiesPatch {
  import opened Text
  import opened Values
  import opened Expansion
  import opened FileText

  type Table = seq<(string, string)>

  /** One line of the existing file: blank lines, lines starting with `#` and lines
      without `=` are dropped; the others split at the first `=`, key and value stripped. */
  function ParseLine(line: string): Option<(string, string)> {
    var st := Strip(line);
    if st != [] && !StartsWith(st, "#") && '=' in st then
      var i := IndexOf(st, '=');
      Some((Strip(st[..i]), Strip(st[i + 1..])))
    else None
  }

  /** `props[key.strip()] = value.strip()` for every kept line, in file order. */
  function ParseTable(lines: seq<string>): Table
    decreases |lines|
  {
    if lines == [] then []
    else
      var t := ParseTable(lines[..|lines| - 1]);
      match ParseLine(lines[|lines| - 1])
      case None => t
      case Some((k, v)) => Put(t, k, v)
  }

  /** Each rule's key with `str(expand_variables(value))`, in rule order. */
  function RuleTexts(rules: seq<(string, Value)>, env: map<string, string>): (r: Table)
    requires forall i :: 0 <= i < |rules| ==> IsScalar(rules[i].1)
    ensures |r| == |rules| && forall i :: 0 <= i < |rules| ==> r[i] == (rules[i].0, ExpandedText(rules[i].1, env))
  {
    seq(|rules|, i requires 0 <= i < |rules| => (rules[i].0, ExpandedText(rules[i].1, env)))
  }

  /** `props[key] = text` for every pair, in order. */
  function SetAll(t: Table, sets: Table): Table
    decreases |sets|
  {
    if sets == [] then t
    else Put(SetAll(t, sets[..|sets| - 1]), sets[|sets| - 1].0, sets[|sets| - 1].1)
  }

  /** One output line per entry, in table order. */
  function Render(t: Table): (out: seq<string>)
    ensures |out| == |t| && forall i :: 0 <= i < |t| ==> out[i] == RenderEntry(t[i])
    decreases |t|
  {
    if t == [] then [] else [RenderEntry(t[0])] + Render(t[1..])
  }

  /** `f"{key}={value}\n"` */
  function RenderEntry(e: (string, string)): string {
    e.0 + "=" + e.1 + "\n"
  }

  /** The text `patch_properties_file` writes, as a function of the existing file. */
  function PatchedProperties(file: Option<string>, rules: seq<(string, Value)>, env: map<string, string>): string
    requires forall i :: 0 <= i < |rules| ==> IsScalar(rules[i].1)
  {
    Join(Render(SetAll(ParseTable(FileLines(file)), RuleTexts(rules, env))))
  }

  /** The two loops over the table and the writing loop of `patch_properties_file`. */
  method PatchProperties(file: Option<string>, rules: seq<(string, Value)>, env: map<string, string>)
    returns (out: string)
    requires forall i :: 0 <= i < |rules| ==> IsScalar(rules[i].1)
    ensures out == PatchedProperties(file, rules, env)
  {
    var lines := FileLines(file);
    var props: Table := [];
    var i := 0;
    while i < |lines|
      invariant 0 <= i <= |lines|
      invariant props == ParseTable(lines[..i])
    {
      ParseTableStep(lines, i);
      var parsed := ParseLine(lines[i]);
      if parsed.Some? {
        props := Put(props, parsed.value.0, parsed.value.1);
      }
      i := i + 1;
    }
    assert lines[..i] == lines;
    ghost var texts := RuleTexts(rules, env);
    var j := 0;
    while j < |rules|
      invariant 0 <= j <= |rules|
      invariant props == SetAll(ParseTable(lines), texts[..j])
    {
      SetAllStep(ParseTable(lines), texts, j);
      props := Put(props, rules[j].0, ExpandedText(rules[j].1, env));
      j := j + 1;
    }
    assert texts[..j] == texts;
    out := [];
    var n := 0;
    while n < |props|
      invariant 0 <= n <= |props|
      invariant out == Join(Render(props[..n]))
    {
      RenderAppend(props[..n], props[n]);
      TakeSnoc(props, n);
      JoinSnoc(Render(props[..n]), RenderEntry(props[n]));
      out := out + RenderEntry(props[n]);
      n := n + 1;
    }
    assert props[..n] == props;
  }

  lemma ParseTableStep(lines: seq<string>, i: nat)
    requires i < |lines|
    ensures ParseTable(lines[..i + 1]) == match ParseLine(lines[i])
      case None => ParseTable(lines[..i])
      case Some((k, v)) => Put(ParseTable(lines[..i]), k, v)
  {
    TakeTake(lines, i);
  }

  lemma SetAllStep(t: Table, sets: Table, j: nat)
    requires j < |sets|
    ensures SetAll(t, sets[..j + 1]) == Put(SetAll(t, sets[..j]), sets[j].0, sets[j].1)
  {
    TakeTake(sets, j);
  }

  lemma {:induction false} RenderAppend(t: Table, e: (string, string))
    ensures Render(t + [e]) == Render(t) + [RenderEntry(e)]
    decreases |t|
  {
    if t != [] {
      assert (t + [e])[1..] == t[1..] + [e];
      RenderAppend(t[1..], e);
    }
  }

  // ---- reading lines ----

  /** A line is dropped exactly when its stripped text is empty, starts with `#`, or
      holds no `=`; a kept line splits at its first `=`, and key and value come out
      stripped, the key without `=` and not starting with `#`; from a line as read,
      neither holds a line break. */
  lemma ParseLineSpec(line: string)
    ensures var st := Strip(line);
      ParseLine(line).None? <==> (st == [] || st[0] == '#' || '=' !in st)
    ensures ParseLine(line).Some? && Line(line) ==> var (k, v) := ParseLine(line).value; Clean(k, v)
  {
    var st := Strip(line);
    StripResult(line);
    if ParseLine(line).Some? && Line(line) {
      LineStrip(line);
      var i := IndexOf(st, '=');
      var pre := st[..i];
      var k := Strip(pre);
      StripResult(pre);
      StripResult(st[i + 1..]);
      TrimStartSpec(pre);
      TrimEndSpec(TrimStart(pre));
      assert forall c :: c in k ==> c in pre;
      assert forall c :: c in pre ==> c in st;
      var rest := st[i + 1..];
      StripWithin(rest);
      assert forall c :: c in rest ==> c in st;
      if k != [] {
        assert pre != [] && !IsSpace(pre[0]);
        assert TrimStart(pre) == pre;
        assert k[0] == st[0];
      }
    }
  }

  /** An entry that reads back as itself from its rendered line: key and value
      stripped and free of line breaks, no `=` in the key, and a key that does not
      start with `#`. */
  predicate Clean(k: string, v: string) {
    && IsStripped(k) && IsStripped(v) && '=' !in k && (k == [] || k[0] != '#')
    && '\n' !in k && '\r' !in k && '\n' !in v && '\r' !in v
  }

  predicate CleanTable(t: Table) {
    forall i :: 0 <= i < |t| ==> Clean(t[i].0, t[i].1)
  }

  /** A clean entry's rendered line parses back to the entry. */
  lemma ParseRendered(k: string, v: string)
    requires Clean(k, v)
    ensures ParseLine(RenderEntry((k, v))) == Some((k, v))
  {
    var line := RenderEntry((k, v));
    var st := k + "=" + v;
    assert line == st + "\n";
    assert IsStripped(st);
    StripPaddedRight(st, "\n");
    assert st[|k|] == '=';
    assert st[..|k|] == k;
    var i := IndexOf(st, '=');
    assert st[..|k|] == k;
    assert i == |k|;
    assert st[i + 1..] == v;
    StripStripped(k);
    StripStripped(v);
  }

  // ---- the table read from the file ----

  /** The keys of the kept lines, in file order, repeats included. */
  function ParsedKeys(lines: seq<string>): seq<string>
    decreases |lines|
  {
    if lines == [] then []
    else
      var ks := ParsedKeys(lines[..|lines| - 1]);
      match ParseLine(lines[|lines| - 1])
      case None => ks
      case Some((k, _)) => ks + [k]
  }

  /** The first occurrence of every element, in order. */
  function Dedup(ks: seq<string>): seq<string>
    decreases |ks|
  {
    if ks == [] then []
    else
      var d := Dedup(ks[..|ks| - 1]);
      if ks[|ks| - 1] in d then d else d + [ks[|ks| - 1]]
  }

  lemma {:induction false} DedupSpec(ks: seq<string>)
    ensures forall i, j :: 0 <= i < j < |Dedup(ks)| ==> Dedup(ks)[i] != Dedup(ks)[j]
    ensures forall k :: k in Dedup(ks) <==> k in ks
    decreases |ks|
  {
    if ks != [] {
      var init := ks[..|ks| - 1];
      DedupSpec(init);
      assert ks == init + [ks[|ks| - 1]];
    }
  }

  /** The value of the last kept line with key `k`. */
  function LastValue(lines: seq<string>, k: string): Option<string>
    decreases |lines|
  {
    if lines == [] then None
    else
      var p := ParseLine(lines[|lines| - 1]);
      if p.Some? && p.value.0 == k then Some(p.value.1) else LastValue(lines[..|lines| - 1], k)
  }

  /** Keys keep the position of their first occurrence, and each holds the value of
      its last occurrence. */
  lemma {:induction false} ParseTableSpec(lines: seq<string>)
    ensures Keys(ParseTable(lines)) == Dedup(ParsedKeys(lines))
    ensures forall k :: Lookup(ParseTable(lines), k) == LastValue(lines, k)
    decreases |lines|
  {
    if lines != [] {
      ParseTableSpec(lines[..|lines| - 1]);
    }
  }

  /** The table read from the lines of a file is clean and has distinct keys. */
  lemma {:induction false} ParseTableClean(lines: seq<string>)
    requires forall i :: 0 <= i < |lines| ==> Line(lines[i])
    ensures CleanTable(ParseTable(lines)) && NoDupKeys(ParseTable(lines))
    decreases |lines|
  {
    if lines != [] {
      var init := lines[..|lines| - 1];
      assert forall i :: 0 <= i < |init| ==> init[i] == lines[i];
      ParseTableClean(init);
      var p := ParseLine(lines[|lines| - 1]);
      if p.Some? {
        var (k, v) := p.value;
        ParseLineSpec(lines[|lines| - 1]);
        PutNoDup(ParseTable(init), k, v);
        PutValuesClean(ParseTable(init), k, v);
      }
    }
  }

  lemma {:induction false} PutValuesClean(t: Table, k: string, v: string)
    requires CleanTable(t) && Clean(k, v)
    ensures CleanTable(Put(t, k, v))
    decreases |t|
  {
    if t != [] && t[0].0 != k {
      PutValuesClean(t[1..], k, v);
      var rest := Put(t[1..], k, v);
      var r := Put(t, k, v);
      assert r == [t[0]] + rest;
      forall i | 0 <= i < |r| ensures Clean(r[i].0, r[i].1) {
        if i > 0 {
          assert r[i] == rest[i - 1];
        }
      }
    }
  }

  /** Writing a clean table with distinct keys and reading it back gives the table. */
  lemma {:induction false} ParseRender(t: Table)
    requires CleanTable(t) && NoDupKeys(t)
    ensures ParseTable(Render(t)) == t
    decreases |t|
  {
    if t != [] {
      var init := t[..|t| - 1];
      var e := t[|t| - 1];
      assert t == init + [e];
      RenderAppend(init, e);
      assert Render(t)[..|t| - 1] == Render(init);
      ParseRender(init);
      ParseRendered(e.0, e.1);
      forall i | 0 <= i < |init| ensures init[i].0 != e.0 {
        assert init[i] == t[i];
      }
      PutAppends(init, e.0, e.1);
    }
  }

  /** The rendered lines of a clean table are lines as `readlines` returns them, so
      the written text reads back as those lines. */
  lemma RenderReadsBack(t: Table)
    requires CleanTable(t)
    ensures LineList(Render(t)) && ReadLines(Join(Render(t))) == Render(t)
  {
    var r := Render(t);
    forall i | 0 <= i < |r| ensures Line(r[i]) && Ended(r[i]) {
      var (k, v) := t[i];
      assert Clean(k, v);
      var body := k + "=" + v;
      assert r[i] == body + "\n";
      assert r[i][..|r[i]| - 1] == body;
      assert forall c :: c in body ==> c in k || c == '=' || c in v;
    }
    ReadJoin(r);
  }

  /** A new key goes at the end. */
  lemma {:induction false} PutAppends(t: Table, k: string, v: string)
    requires forall i :: 0 <= i < |t| ==> t[i].0 != k
    ensures Put(t, k, v) == t + [(k, v)]
    decreases |t|
  {
    if t != [] {
      var rest := t[1..];
      assert forall i :: 0 <= i < |rest| ==> rest[i].0 != k by {
        forall i | 0 <= i < |rest| ensures rest[i].0 != k {
          assert rest[i] == t[i + 1];
        }
      }
      PutAppends(rest, k, v);
      assert t[0].0 != k;
      assert Put(t, k, v) == [t[0]] + Put(rest, k, v);
      ConsSnoc(t, (k, v));
    }
  }

  lemma ConsSnoc<T>(t: seq<T>, e: T)
    requires t != []
    ensures [t[0]] + (t[1..] + [e]) == t + [e]
  {
  }

  // ---- the rules ----

  /** Every set key ends up holding its text; every other key keeps its value. */
  lemma SetAllLookup(t: Table, sets: Table)
    requires NoDupKeys(sets)
    ensures forall i :: 0 <= i < |sets| ==> Lookup(SetAll(t, sets), sets[i].0) == Some(sets[i].1)
    ensures forall k :: k !in Keys(sets) ==> Lookup(SetAll(t, sets), k) == Lookup(t, k)
  {
    SetAllSets(t, sets);
    SetAllOthers(t, sets);
  }

  lemma {:induction false} SetAllSets(t: Table, sets: Table)
    requires NoDupKeys(sets)
    ensures forall i :: 0 <= i < |sets| ==> Lookup(SetAll(t, sets), sets[i].0) == Some(sets[i].1)
    decreases |sets|
  {
    if sets != [] {
      var init := sets[..|sets| - 1];
      var (k, v) := sets[|sets| - 1];
      assert SetAll(t, sets) == Put(SetAll(t, init), k, v);
      NoDupInit(sets);
      SetAllSets(t, init);
      forall i | 0 <= i < |sets| - 1 ensures Lookup(SetAll(t, sets), sets[i].0) == Some(sets[i].1) {
        assert sets[i] == init[i];
        assert sets[i].0 != k;
      }
    }
  }

  lemma {:induction false} SetAllOthers(t: Table, sets: Table)
    ensures forall k :: k !in Keys(sets) ==> Lookup(SetAll(t, sets), k) == Lookup(t, k)
    decreases |sets|
  {
    if sets != [] {
      var init := sets[..|sets| - 1];
      var (k, v) := sets[|sets| - 1];
      assert SetAll(t, sets) == Put(SetAll(t, init), k, v);
      SetAllOthers(t, init);
      KeysInit(sets);
    }
  }

  /** A key missing from the pairs is missing from all but the last and is not the last. */
  lemma KeysInit(sets: Table)
    requires sets != []
    ensures forall k :: k !in Keys(sets) ==> k !in Keys(sets[..|sets| - 1]) && k != sets[|sets| - 1].0
  {
    var init := sets[..|sets| - 1];
    assert Keys(sets) == Keys(init) + [sets[|sets| - 1].0];
  }

  /** The rule keys not already in the table, in rule order. */
  function Unseen(ks: seq<string>, rs: seq<string>): seq<string>
    decreases |rs|
  {
    if rs == [] then []
    else Unseen(ks, rs[..|rs| - 1]) + (if rs[|rs| - 1] in ks then [] else [rs[|rs| - 1]])
  }

  /** Existing keys keep their positions and unseen set keys are appended in order. */
  lemma {:induction false} SetAllKeys(t: Table, sets: Table)
    requires NoDupKeys(sets)
    ensures Keys(SetAll(t, sets)) == Keys(t) + Unseen(Keys(t), Keys(sets))
    decreases |sets|
  {
    if sets != [] {
      var init := sets[..|sets| - 1];
      var k := sets[|sets| - 1].0;
      var kt := Keys(t);
      NoDupInit(sets);
      SetAllKeys(t, init);
      assert Keys(sets)[..|sets| - 1] == Keys(init);
      UnseenSubset(kt, Keys(init));
      KeysAfterPut(SetAll(t, init), kt, Unseen(kt, Keys(init)), Keys(init), k, sets[|sets| - 1].1);
    }
  }

  /** Dropping the last pair keeps the keys distinct, and the last key is not among the others. */
  lemma NoDupInit(sets: Table)
    requires sets != [] && NoDupKeys(sets)
    ensures NoDupKeys(sets[..|sets| - 1])
    ensures sets[|sets| - 1].0 !in Keys(sets[..|sets| - 1])
  {
    var init := sets[..|sets| - 1];
    forall i | 0 <= i < |init| ensures init[i].0 != sets[|sets| - 1].0 {
      assert init[i] == sets[i];
    }
  }

  lemma KeysAfterPut(a: Table, kt: seq<string>, u: seq<string>, ki: seq<string>, k: string, w: string)
    requires Keys(a) == kt + u && (forall x :: x in u ==> x in ki) && k !in ki
    ensures Keys(Put(a, k, w)) == kt + (u + if k in kt then [] else [k])
  {
    if k !in kt {
      assert k !in Keys(a);
      assert kt + (u + [k]) == (kt + u) + [k];
    } else {
      assert u + [] == u;
    }
  }

  lemma {:induction false} UnseenSubset(ks: seq<string>, rs: seq<string>)
    ensures forall k :: k in Unseen(ks, rs) ==> k in rs
    decreases |rs|
  {
    if rs != [] {
      UnseenSubset(ks, rs[..|rs| - 1]);
    }
  }

  /** Setting the same pairs a second time changes nothing. */
  lemma SetAllTwice(t: Table, sets: Table)
    requires NoDupKeys(sets)
    ensures SetAll(SetAll(t, sets), sets) == SetAll(t, sets)
  {
    SetAllLookup(t, sets);
    SetAllSettled(SetAll(t, sets), sets);
  }

  /** Pairs whose keys already hold their texts leave the table as it is. */
  lemma {:induction false} SetAllSettled(t: Table, sets: Table)
    requires forall i :: 0 <= i < |sets| ==> Lookup(t, sets[i].0) == Some(sets[i].1)
    ensures SetAll(t, sets) == t
    decreases |sets|
  {
    if sets != [] {
      var init := sets[..|sets| - 1];
      assert forall i :: 0 <= i < |init| ==> init[i] == sets[i];
      SetAllSettled(t, init);
      PutSame(t, sets[|sets| - 1].0, sets[|sets| - 1].1);
    }
  }

  /** Clean pairs keep a clean table clean. */
  lemma {:induction false} SetAllClean(t: Table, sets: Table)
    requires CleanTable(sets) && CleanTable(t) && NoDupKeys(t)
    ensures CleanTable(SetAll(t, sets)) && NoDupKeys(SetAll(t, sets))
    decreases |sets|
  {
    if sets != [] {
      var init := sets[..|sets| - 1];
      assert forall i :: 0 <= i < |init| ==> init[i] == sets[i];
      SetAllClean(t, init);
      var (k, v) := sets[|sets| - 1];
      PutValuesClean(SetAll(t, init), k, v);
      PutNoDup(SetAll(t, init), k, v);
    }
  }

  lemma RuleTextsKeys(rules: seq<(string, Value)>, env: map<string, string>)
    requires forall i :: 0 <= i < |rules| ==> IsScalar(rules[i].1)
    requires NoDupKeys(rules)
    ensures Keys(RuleTexts(rules, env)) == Keys(rules) && NoDupKeys(RuleTexts(rules, env))
  {
    var texts := RuleTexts(rules, env);
    var a := Keys(texts);
    var b := Keys(rules);
    forall i | 0 <= i < |a| ensures a[i] == b[i] {
      assert texts[i].0 == rules[i].0;
    }
  }

  /** The rules as a dict: each ruled key holds the text of its expanded value, other
      keys keep the value read from the file, the file's keys keep their order, and
      unseen ruled keys follow in rule order. */
  lemma PatchedTable(file: Option<string>, rules: seq<(string, Value)>, env: map<string, string>)
    requires forall i :: 0 <= i < |rules| ==> IsScalar(rules[i].1)
    requires NoDupKeys(rules)
    ensures var t0 := ParseTable(FileLines(file));
      var t := SetAll(t0, RuleTexts(rules, env));
      && (forall i :: 0 <= i < |rules| ==> Lookup(t, rules[i].0) == Some(ExpandedText(rules[i].1, env)))
      && (forall k :: k !in Keys(rules) ==> Lookup(t, k) == LastValue(FileLines(file), k))
      && Keys(t) == Dedup(ParsedKeys(FileLines(file))) + Unseen(Keys(t0), Keys(rules))
      && PatchedProperties(file, rules, env) == Join(Render(t))
  {
    var texts := RuleTexts(rules, env);
    var t0 := ParseTable(FileLines(file));
    RuleTextsKeys(rules, env);
    SetAllLookup(t0, texts);
    SetAllKeys(t0, texts);
    ParseTableSpec(FileLines(file));
    forall i | 0 <= i < |rules| ensures Lookup(SetAll(t0, texts), rules[i].0) == Some(ExpandedText(rules[i].1, env)) {
      assert texts[i] == (rules[i].0, ExpandedText(rules[i].1, env));
    }
  }

  /** Patching a file a second time with the same rules and environment writes the
      same file, when rule keys and value texts are clean. */
  lemma PatchTwice(file: Option<string>, rules: seq<(string, Value)>, env: map<string, string>)
    requires forall i :: 0 <= i < |rules| ==> IsScalar(rules[i].1)
    requires forall i :: 0 <= i < |rules| ==> Clean(rules[i].0, ExpandedText(rules[i].1, env))
    requires NoDupKeys(rules)
    ensures PatchedProperties(Some(PatchedProperties(file, rules, env)), rules, env)
         == PatchedProperties(file, rules, env)
  {
    var texts := RuleTexts(rules, env);
    RuleTextsKeys(rules, env);
    assert CleanTable(texts) by {
      forall i | 0 <= i < |texts| ensures Clean(texts[i].0, texts[i].1) {
        assert texts[i] == (rules[i].0, ExpandedText(rules[i].1, env));
      }
    }
    var lines := FileLines(file);
    if file.Some? {
      ReadLinesShape(file.value);
    }
    var t0 := ParseTable(lines);
    ParseTableClean(lines);
    var t := SetAll(t0, texts);
    SetAllClean(t0, texts);
    RenderReadsBack(t);
    ParseRender(t);
    SetAllTwice(t0, texts);
  }
}
