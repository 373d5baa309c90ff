/** The rule loop of `patch_generic_file`: a line whose stripped text starts with a rule
    key is replaced by that rule's expanded text, every other line is kept as it is,
    and the text of every key that replaced no line is appended.

    The source iterates its rule keys from a `set`, whose order Python does not fix:
    `matchOrder` is the order in which keys are tried against a line, `appendOrder`
    the order in which unmatched keys are appended. Both are parameters, each a listing
    of the rule keys without repeats. */
module GenericPatch {
  import opened Text
  import opened Values
  import opened Expansion
  import opened FileText

  /** Every rule value is one whose `str()` the model renders. */
  ghost predicate AllScalar(rules: seq<(string, Value)>) {
    forall i :: 0 <= i < |rules| ==> IsScalar(rules[i].1)
  }

  /** Every key `order` names is a rule key. */
  ghost predicate KeysIn(order: seq<string>, rules: seq<(string, Value)>) {
    forall k :: k in order ==> k in Keys(rules)
  }

  /** `order` lists every rule key exactly once: an iteration order of the key set. */
  ghost predicate IsOrderOf(order: seq<string>, rules: seq<(string, Value)>) {
    && |order| == |rules|
    && (forall i, j :: 0 <= i < j < |order| ==> order[i] != order[j])
    && (forall k :: k in order <==> k in Keys(rules))
  }

  /** The line written for rule `k`: `str(expand_variables(rules[k])) + "\n"`. */
  function KeyLine(rules: seq<(string, Value)>, k: string, env: map<string, string>): string
    requires AllScalar(rules) && k in Keys(rules)
  {
    var v := Lookup(rules, k).value;
    LookupScalar(rules, k);
    ExpandedText(v, env) + "\n"
  }

  lemma {:induction false} LookupScalar(rules: seq<(string, Value)>, k: string)
    requires AllScalar(rules) && k in Keys(rules)
    ensures IsScalar(Lookup(rules, k).value)
  {
    if rules[0].0 != k {
      LookupScalar(rules[1..], k);
    }
  }

  /** The first key in `order` that `st` starts with. */
  function FirstMatch(st: string, order: seq<string>): (m: Option<string>)
    ensures m.Some? ==> m.value in order && StartsWith(st, m.value)
    ensures m.None? <==> forall i :: 0 <= i < |order| ==> !StartsWith(st, order[i])
  {
    if order == [] then None
    else if StartsWith(st, order[0]) then Some(order[0])
    else FirstMatch(st, order[1..])
  }

  /** A line after the first loop: replaced by the first matching key's line, or kept. */
  function RewriteLine(line: string, rules: seq<(string, Value)>, order: seq<string>, env: map<string, string>): string
    requires AllScalar(rules) && KeysIn(order, rules)
  {
    var m := FirstMatch(Strip(line), order);
    if m.Some? then KeyLine(rules, m.value, env) else line
  }

  function RewriteLines(lines: seq<string>, rules: seq<(string, Value)>, order: seq<string>, env: map<string, string>): (out: seq<string>)
    requires AllScalar(rules) && KeysIn(order, rules)
    ensures |out| == |lines|
    decreases |lines|
  {
    if lines == [] then []
    else RewriteLines(lines[..|lines| - 1], rules, order, env) + [RewriteLine(lines[|lines| - 1], rules, order, env)]
  }

  /** `patched_keys`: the keys that replaced at least one line (only the first match of
      a line is recorded). */
  function MatchedKeys(lines: seq<string>, order: seq<string>): set<string>
    decreases |lines|
  {
    if lines == [] then {}
    else
      var m := FirstMatch(Strip(lines[|lines| - 1]), order);
      MatchedKeys(lines[..|lines| - 1], order) + (if m.Some? then {m.value} else {})
  }

  /** The keys of `keys_to_patch - patched_keys`, in `order`. */
  function Unmatched(order: seq<string>, matched: set<string>): (r: seq<string>)
    ensures forall k :: k in r <==> k in order && k !in matched
    decreases |order|
  {
    if order == [] then []
    else Unmatched(order[..|order| - 1], matched) + (if order[|order| - 1] in matched then [] else [order[|order| - 1]])
  }

  function KeyLines(rules: seq<(string, Value)>, ks: seq<string>, env: map<string, string>): (out: seq<string>)
    requires AllScalar(rules) && KeysIn(ks, rules)
    ensures |out| == |ks| && forall i :: 0 <= i < |ks| ==> out[i] == KeyLine(rules, ks[i], env)
  {
    seq(|ks|, i requires 0 <= i < |ks| => KeyLine(rules, ks[i], env))
  }

  /** The lines with the last one ended by `\n` when it lacks one. */
  function EndLast(ls: seq<string>): (r: seq<string>)
    ensures |r| == |ls|
    ensures forall i :: 0 <= i < |ls| ==>
      r[i] == if i == |ls| - 1 && !Ended(ls[i]) then ls[i] + "\n" else ls[i]
  {
    if ls == [] || Ended(ls[|ls| - 1]) then ls else ls[..|ls| - 1] + [ls[|ls| - 1] + "\n"]
  }

  /** `new_lines` as the source builds it: the rewritten lines, then the unmatched keys'
      lines. When the file's last line has no `\n`, the first appended line is glued
      onto it in the written text (see `GluedLastLine`). */
  function GenericRewriteAsWritten(lines: seq<string>, rules: seq<(string, Value)>, matchOrder: seq<string>,
                                   appendOrder: seq<string>, env: map<string, string>): seq<string>
    requires AllScalar(rules) && KeysIn(matchOrder, rules) && KeysIn(appendOrder, rules)
  {
    RewriteLines(lines, rules, matchOrder, env)
      + KeyLines(rules, Unmatched(appendOrder, MatchedKeys(lines, matchOrder)), env)
  }

  /** The lines `patch_generic_file` writes, corrected: before keys are appended, a last
      line without `\n` is ended, so that every appended line stays a line of its own. */
  function GenericRewrite(lines: seq<string>, rules: seq<(string, Value)>, matchOrder: seq<string>,
                          appendOrder: seq<string>, env: map<string, string>): seq<string>
    requires AllScalar(rules) && KeysIn(matchOrder, rules) && KeysIn(appendOrder, rules)
  {
    var body := RewriteLines(lines, rules, matchOrder, env);
    var pending := Unmatched(appendOrder, MatchedKeys(lines, matchOrder));
    (if pending == [] then body else EndLast(body)) + KeyLines(rules, pending, env)
  }

  /** The text written for a file holding `file` (`None` when it is missing). */
  function GenericText(file: Option<string>, rules: seq<(string, Value)>, matchOrder: seq<string>,
                       appendOrder: seq<string>, env: map<string, string>): string
    requires AllScalar(rules) && KeysIn(matchOrder, rules) && KeysIn(appendOrder, rules)
  {
    Join(GenericRewrite(FileLines(file), rules, matchOrder, appendOrder, env))
  }

  /** The text `patch_generic_file` writes, as the source builds it. */
  function GenericTextAsWritten(file: Option<string>, rules: seq<(string, Value)>, matchOrder: seq<string>,
                                appendOrder: seq<string>, env: map<string, string>): string
    requires AllScalar(rules) && KeysIn(matchOrder, rules) && KeysIn(appendOrder, rules)
  {
    Join(GenericRewriteAsWritten(FileLines(file), rules, matchOrder, appendOrder, env))
  }

  /** The two loops of `patch_generic_file`, the inner one leaving at the first match. */
  method PatchGeneric(file: Option<string>, rules: seq<(string, Value)>, matchOrder: seq<string>,
                      appendOrder: seq<string>, env: map<string, string>)
    returns (out: seq<string>)
    requires AllScalar(rules) && KeysIn(matchOrder, rules) && KeysIn(appendOrder, rules)
    ensures out == GenericRewriteAsWritten(FileLines(file), rules, matchOrder, appendOrder, env)
  {
    var lines := FileLines(file);
    var newLines: seq<string> := [];
    var patched: set<string> := {};
    var i := 0;
    while i < |lines|
      invariant 0 <= i <= |lines|
      invariant newLines == RewriteLines(lines[..i], rules, matchOrder, env)
      invariant patched == MatchedKeys(lines[..i], matchOrder)
    {
      RewriteStep(lines, i, rules, matchOrder, env);
      MatchedStep(lines, i, matchOrder);
      var found := FindMatch(Strip(lines[i]), matchOrder);
      if found.Some? {
        newLines := newLines + [KeyLine(rules, found.value, env)];
        patched := patched + {found.value};
      } else {
        newLines := newLines + [lines[i]];
      }
      i := i + 1;
    }
    assert lines[..i] == lines;
    out := AppendUnmatched(newLines, rules, appendOrder, patched, env);
  }

  lemma GenericRewriteParts(lines: seq<string>, rules: seq<(string, Value)>, matchOrder: seq<string>,
                            appendOrder: seq<string>, env: map<string, string>)
    requires AllScalar(rules) && KeysIn(matchOrder, rules) && KeysIn(appendOrder, rules)
    ensures var body := RewriteLines(lines, rules, matchOrder, env);
      var pending := Unmatched(appendOrder, MatchedKeys(lines, matchOrder));
      GenericRewrite(lines, rules, matchOrder, appendOrder, env)
        == (if pending == [] then body else EndLast(body)) + KeyLines(rules, pending, env)
  {
  }

  /** The inner loop: the keys are tried in order and the first one the stripped line
      starts with is taken (`break`). */
  method FindMatch(stripped: string, matchOrder: seq<string>) returns (found: Option<string>)
    ensures found == FirstMatch(stripped, matchOrder)
  {
    var j := 0;
    while j < |matchOrder|
      invariant 0 <= j <= |matchOrder|
      invariant FirstMatch(stripped, matchOrder) == FirstMatch(stripped, matchOrder[j..])
    {
      var key := matchOrder[j];
      if StartsWith(stripped, key) {
        return Some(key);
      }
      assert matchOrder[j..][1..] == matchOrder[j + 1..];
      j := j + 1;
    }
    return None;
  }

  /** The second loop: `for key in keys_to_patch - patched_keys`, appending each line. */
  method AppendUnmatched(body: seq<string>, rules: seq<(string, Value)>, appendOrder: seq<string>,
                         patched: set<string>, env: map<string, string>)
    returns (out: seq<string>)
    requires AllScalar(rules) && KeysIn(appendOrder, rules)
    ensures out == body + KeyLines(rules, Unmatched(appendOrder, patched), env)
  {
    out := body;
    var n := 0;
    while n < |appendOrder|
      invariant 0 <= n <= |appendOrder|
      invariant KeysIn(Unmatched(appendOrder[..n], patched), rules)
      invariant out == body + KeyLines(rules, Unmatched(appendOrder[..n], patched), env)
    {
      var key := appendOrder[n];
      AppendStep(body, rules, appendOrder, n, patched, env);
      if key !in patched {
        out := out + [KeyLine(rules, key, env)];
      }
      n := n + 1;
    }
    assert appendOrder[..n] == appendOrder;
  }

  /** One more key of the append order adds its line exactly when it is unmatched. */
  lemma AppendStep(body: seq<string>, rules: seq<(string, Value)>, order: seq<string>, n: nat,
                   matched: set<string>, env: map<string, string>)
    requires AllScalar(rules) && KeysIn(order, rules) && n < |order|
    ensures KeysIn(Unmatched(order[..n + 1], matched), rules)
    ensures KeysIn(Unmatched(order[..n], matched), rules)
    ensures order[n] in matched ==>
      body + KeyLines(rules, Unmatched(order[..n + 1], matched), env)
      == body + KeyLines(rules, Unmatched(order[..n], matched), env)
    ensures order[n] !in matched ==>
      body + KeyLines(rules, Unmatched(order[..n + 1], matched), env)
      == body + KeyLines(rules, Unmatched(order[..n], matched), env) + [KeyLine(rules, order[n], env)]
  {
    var init := order[..n];
    TakeTake(order, n);
    assert forall k :: k in order[..n + 1] ==> k in order;
    var u := Unmatched(init, matched);
    if order[n] !in matched {
      KeyLinesSnoc(rules, u, order[n], env);
      AppendAssoc(body, KeyLines(rules, u, env), [KeyLine(rules, order[n], env)]);
    } else {
      assert Unmatched(order[..n + 1], matched) == u;
    }
  }

  lemma KeyLinesSnoc(rules: seq<(string, Value)>, ks: seq<string>, k: string, env: map<string, string>)
    requires AllScalar(rules) && KeysIn(ks, rules) && k in Keys(rules)
    ensures KeysIn(ks + [k], rules)
    ensures KeyLines(rules, ks + [k], env) == KeyLines(rules, ks, env) + [KeyLine(rules, k, env)]
  {
    var a := KeyLines(rules, ks + [k], env);
    var b := KeyLines(rules, ks, env) + [KeyLine(rules, k, env)];
    assert forall i :: 0 <= i < |a| ==> a[i] == b[i];
  }

  lemma RewriteStep(lines: seq<string>, i: nat, rules: seq<(string, Value)>, order: seq<string>, env: map<string, string>)
    requires i < |lines| && AllScalar(rules) && KeysIn(order, rules)
    ensures RewriteLines(lines[..i + 1], rules, order, env)
         == RewriteLines(lines[..i], rules, order, env) + [RewriteLine(lines[i], rules, order, env)]
  {
    TakeTake(lines, i);
  }

  lemma MatchedStep(lines: seq<string>, i: nat, order: seq<string>)
    requires i < |lines|
    ensures var m := FirstMatch(Strip(lines[i]), order);
      MatchedKeys(lines[..i + 1], order) == MatchedKeys(lines[..i], order) + (if m.Some? then {m.value} else {})
  {
    TakeTake(lines, i);
  }

  /** The appended keys: the keys of `order` outside `matched`, each once. */
  lemma {:induction false} UnmatchedSpec(order: seq<string>, matched: set<string>)
    ensures (forall i, j :: 0 <= i < j < |order| ==> order[i] != order[j]) ==>
      forall i, j :: 0 <= i < j < |Unmatched(order, matched)| ==> Unmatched(order, matched)[i] != Unmatched(order, matched)[j]
    decreases |order|
  {
    if order != [] {
      var init := order[..|order| - 1];
      UnmatchedSpec(init, matched);
      assert order == init + [order[|order| - 1]];
    }
  }

  lemma {:induction false} RewriteLinesAt(lines: seq<string>, rules: seq<(string, Value)>, order: seq<string>,
                                          env: map<string, string>)
    requires AllScalar(rules) && KeysIn(order, rules)
    ensures forall i :: 0 <= i < |lines| ==>
      RewriteLines(lines, rules, order, env)[i] == RewriteLine(lines[i], rules, order, env)
    decreases |lines|
  {
    if lines != [] {
      RewriteLinesAt(lines[..|lines| - 1], rules, order, env);
    }
  }

  /** `patched_keys` holds exactly the keys that were some line's first match. */
  lemma MatchedKeysSpec(lines: seq<string>, order: seq<string>)
    ensures forall k :: k in MatchedKeys(lines, order) <==>
      exists i :: 0 <= i < |lines| && FirstMatch(Strip(lines[i]), order) == Some(k)
  {
    forall k ensures k in MatchedKeys(lines, order) <==>
      exists i :: 0 <= i < |lines| && FirstMatch(Strip(lines[i]), order) == Some(k)
    {
      if k in MatchedKeys(lines, order) {
        MatchedKeysSound(lines, order, k);
      }
      if exists i :: 0 <= i < |lines| && FirstMatch(Strip(lines[i]), order) == Some(k) {
        var i :| 0 <= i < |lines| && FirstMatch(Strip(lines[i]), order) == Some(k);
        MatchedKeysComplete(lines, order, i);
      }
    }
  }

  /** Every recorded key was the first match of some line. */
  lemma {:induction false} MatchedKeysSound(lines: seq<string>, order: seq<string>, k: string)
    requires k in MatchedKeys(lines, order)
    ensures exists i :: 0 <= i < |lines| && FirstMatch(Strip(lines[i]), order) == Some(k)
    decreases |lines|
  {
    var init := lines[..|lines| - 1];
    if k in MatchedKeys(init, order) {
      MatchedKeysSound(init, order, k);
      var i :| 0 <= i < |init| && FirstMatch(Strip(init[i]), order) == Some(k);
      assert lines[i] == init[i];
    } else {
      assert FirstMatch(Strip(lines[|lines| - 1]), order) == Some(k);
    }
  }

  /** The first match of every line is recorded. */
  lemma {:induction false} MatchedKeysComplete(lines: seq<string>, order: seq<string>, i: nat)
    requires i < |lines|
    ensures var m := FirstMatch(Strip(lines[i]), order);
      m.Some? ==> m.value in MatchedKeys(lines, order)
    decreases |lines|
  {
    var init := lines[..|lines| - 1];
    if i < |init| {
      assert init[i] == lines[i];
      MatchedKeysComplete(init, order, i);
    }
  }

  /** A line whose stripped text no rule key starts with is written as it was read. */
  lemma LineKept(lines: seq<string>, rules: seq<(string, Value)>, matchOrder: seq<string>,
                 appendOrder: seq<string>, env: map<string, string>, i: nat)
    requires AllScalar(rules) && KeysIn(matchOrder, rules) && KeysIn(appendOrder, rules)
    requires i < |lines| && forall k :: k in Keys(rules) ==> !StartsWith(Strip(lines[i]), k)
    ensures GenericRewriteAsWritten(lines, rules, matchOrder, appendOrder, env)[i] == lines[i]
  {
    AsWrittenAt(lines, rules, matchOrder, appendOrder, env);
    assert FirstMatch(Strip(lines[i]), matchOrder).None?;
  }

  /** A line whose stripped text starts with a rule key is replaced by the line of a rule
      key it starts with, and that key is not appended. */
  lemma LineReplaced(lines: seq<string>, rules: seq<(string, Value)>, matchOrder: seq<string>,
                     appendOrder: seq<string>, env: map<string, string>, i: nat, k: string)
    requires AllScalar(rules) && IsOrderOf(matchOrder, rules) && KeysIn(appendOrder, rules)
    requires i < |lines| && k in Keys(rules) && StartsWith(Strip(lines[i]), k)
    ensures exists k' :: (&& k' in Keys(rules) && StartsWith(Strip(lines[i]), k')
                          && GenericRewriteAsWritten(lines, rules, matchOrder, appendOrder, env)[i] == KeyLine(rules, k', env)
                          && k' !in Unmatched(appendOrder, MatchedKeys(lines, matchOrder)))
  {
    MatchedKeysSpec(lines, matchOrder);
    assert k in matchOrder;
    var m := FirstMatch(Strip(lines[i]), matchOrder);
    assert m.Some?;
    assert m.value in MatchedKeys(lines, matchOrder);
    var w := KeyLine(rules, m.value, env);
    assert RewriteLine(lines[i], rules, matchOrder, env) == w;
    AsWrittenAt(lines, rules, matchOrder, appendOrder, env);
    assert GenericRewriteAsWritten(lines, rules, matchOrder, appendOrder, env)[i] == w;
  }

  /** Where each line the source writes comes from: each line read, rewritten, then the
      appended keys' lines. */
  lemma AsWrittenAt(lines: seq<string>, rules: seq<(string, Value)>, matchOrder: seq<string>,
                    appendOrder: seq<string>, env: map<string, string>)
    requires AllScalar(rules) && KeysIn(matchOrder, rules) && KeysIn(appendOrder, rules)
    ensures var out := GenericRewriteAsWritten(lines, rules, matchOrder, appendOrder, env);
      var pending := Unmatched(appendOrder, MatchedKeys(lines, matchOrder));
      && |out| == |lines| + |pending|
      && out[|lines|..] == KeyLines(rules, pending, env)
      && forall i :: 0 <= i < |lines| ==> out[i] == RewriteLine(lines[i], rules, matchOrder, env)
  {
    RewriteLinesAt(lines, rules, matchOrder, env);
  }

  /** Every rule's line ends with its `\n`. */
  lemma KeyLineEnded(rules: seq<(string, Value)>, k: string, env: map<string, string>)
    requires AllScalar(rules) && k in Keys(rules)
    ensures Ended(KeyLine(rules, k, env))
  {
  }

  /** `|appended| + |patched| == |keys|`: distinct keys split between the two. */
  lemma {:induction false} UnmatchedCount(order: seq<string>, matched: set<string>)
    requires forall i, j :: 0 <= i < j < |order| ==> order[i] != order[j]
    ensures |Unmatched(order, matched)| + |set k | k in order && k in matched| == |order|
    decreases |order|
  {
    if order != [] {
      var init := order[..|order| - 1];
      DistinctInit(order);
      UnmatchedCount(init, matched);
      MatchedCountStep(order, matched);
    }
  }

  lemma DistinctInit(order: seq<string>)
    requires order != [] && forall i, j :: 0 <= i < j < |order| ==> order[i] != order[j]
    ensures var init := order[..|order| - 1];
      && (forall i, j :: 0 <= i < j < |init| ==> init[i] != init[j])
      && order[|order| - 1] !in init
  {
    var init := order[..|order| - 1];
    forall i | 0 <= i < |init| ensures init[i] != order[|order| - 1] {
      assert init[i] == order[i];
    }
  }

  lemma MatchedCountStep(order: seq<string>, matched: set<string>)
    requires order != [] && order[|order| - 1] !in order[..|order| - 1]
    ensures var init, last := order[..|order| - 1], order[|order| - 1];
      |set k | k in order && k in matched|
        == |set k | k in init && k in matched| + (if last in matched then 1 else 0)
  {
    var init, last := order[..|order| - 1], order[|order| - 1];
    var before := set k | k in init && k in matched;
    var after := set k | k in order && k in matched;
    assert order == init + [last];
    assert last !in before;
    if last in matched {
      assert after == before + {last};
    } else {
      assert after == before;
    }
  }

  /** The written file reads back as the existing lines plus one line per key that
      replaced none, when no rule text holds a line break. */
  lemma GenericLength(file: Option<string>, rules: seq<(string, Value)>, matchOrder: seq<string>,
                      appendOrder: seq<string>, env: map<string, string>)
    requires AllScalar(rules) && KeysIn(matchOrder, rules) && IsOrderOf(appendOrder, rules)
    requires LineSafe(rules, env)
    ensures var lines := FileLines(file);
      |ReadLines(GenericText(file, rules, matchOrder, appendOrder, env))|
      == |lines| + |rules| - |MatchedKeys(lines, matchOrder)|
  {
    var lines := FileLines(file);
    GenericReadBack(file, rules, matchOrder, appendOrder, env);
    GenericAt(lines, rules, matchOrder, appendOrder, env);
    PendingCount(lines, rules, matchOrder, appendOrder);
  }

  /** The keys appended are the keys that patched no line. */
  lemma PendingCount(lines: seq<string>, rules: seq<(string, Value)>, matchOrder: seq<string>,
                     appendOrder: seq<string>)
    requires KeysIn(matchOrder, rules) && IsOrderOf(appendOrder, rules)
    ensures |Unmatched(appendOrder, MatchedKeys(lines, matchOrder))| == |rules| - |MatchedKeys(lines, matchOrder)|
  {
    var m := MatchedKeys(lines, matchOrder);
    UnmatchedCount(appendOrder, m);
    MatchedKeysSpec(lines, matchOrder);
    assert forall k :: k in m ==> k in appendOrder;
    SetFromOrder(appendOrder, m);
  }

  lemma SetFromOrder(order: seq<string>, m: set<string>)
    requires forall k :: k in m ==> k in order
    ensures (set k | k in order && k in m) == m
  {
  }

  /** The written file ends with the appended lines, each on a line of its own: one per
      rule key that was no line's first match, each key once; a key that some line
      starts with but that lost to an earlier key is still appended. */
  lemma AppendedOnce(file: Option<string>, rules: seq<(string, Value)>, matchOrder: seq<string>,
                     appendOrder: seq<string>, env: map<string, string>)
    requires AllScalar(rules) && KeysIn(matchOrder, rules) && IsOrderOf(appendOrder, rules)
    requires LineSafe(rules, env)
    ensures var lines := FileLines(file);
      var u := Unmatched(appendOrder, MatchedKeys(lines, matchOrder));
      var read := ReadLines(GenericText(file, rules, matchOrder, appendOrder, env));
      && |lines| <= |read| && read[|lines|..] == KeyLines(rules, u, env)
      && (forall i, j :: 0 <= i < j < |u| ==> u[i] != u[j])
      && forall k :: k in u <==> (k in Keys(rules)
                                  && forall i :: 0 <= i < |lines| ==> FirstMatch(Strip(lines[i]), matchOrder) != Some(k))
  {
    var lines := FileLines(file);
    GenericReadBack(file, rules, matchOrder, appendOrder, env);
    GenericAt(lines, rules, matchOrder, appendOrder, env);
    UnmatchedSpec(appendOrder, MatchedKeys(lines, matchOrder));
    MatchedKeysSpec(lines, matchOrder);
  }

  /** A missing file is created holding the rule lines alone, in append order. */
  lemma MissingFile(rules: seq<(string, Value)>, matchOrder: seq<string>, appendOrder: seq<string>,
                    env: map<string, string>)
    requires AllScalar(rules) && KeysIn(matchOrder, rules) && IsOrderOf(appendOrder, rules)
    ensures GenericText(None, rules, matchOrder, appendOrder, env) == Join(KeyLines(rules, appendOrder, env))
  {
    var none: seq<string> := [];
    assert FileLines(None) == none;
    assert RewriteLines(none, rules, matchOrder, env) == none;
    assert MatchedKeys(none, matchOrder) == {};
    UnmatchedNone(appendOrder);
    assert EndLast(none) == none;
    assert GenericRewrite(none, rules, matchOrder, appendOrder, env) == none + KeyLines(rules, appendOrder, env);
    assert none + KeyLines(rules, appendOrder, env) == KeyLines(rules, appendOrder, env);
  }

  /** The rule of the glued-line example: a line starting with `b=` becomes `b=2`. */
  const GlueRules: seq<(string, Value)> := [("b=", Str("b=2"))]

  /** As written, a file holding `a=1` without a final `\n` gets `b=2` glued onto its
      last line; read again, that line starts with `a`, so a second run appends `b=2`
      once more: the source is not idempotent on such a file. */
  lemma GluedLastLine(env: map<string, string>)
    ensures AllScalar(GlueRules) && KeysIn(["b="], GlueRules)
    ensures var once := Join(GenericRewriteAsWritten(FileLines(Some("a=1")), GlueRules, ["b="], ["b="], env));
      && once == "a=1b=2\n"
      && FileLines(Some(once)) == ["a=1b=2\n"]
      && Join(GenericRewriteAsWritten(FileLines(Some(once)), GlueRules, ["b="], ["b="], env)) == "a=1b=2\nb=2\n"
  {
    GlueTexts();
    GluedLine("a=1", env);
  }

  /** The texts of the glued-line example, spelled out. */
  lemma GlueTexts()
    ensures Line("a=1") && !Ended("a=1")
    ensures "a=1" + "b=2\n" == "a=1b=2\n"
    ensures "a=1b=2\n" + "b=2\n" == "a=1b=2\nb=2\n"
    ensures "a=1" + "\n" + "b=2\n" == "a=1\nb=2\n"
  {
  }

  /** The same for any one-line file starting with `a` and lacking its `\n`. */
  lemma GluedLine(l: string, env: map<string, string>)
    requires Line(l) && !Ended(l) && l[0] == 'a'
    ensures AllScalar(GlueRules) && KeysIn(["b="], GlueRules)
    ensures var once := Join(GenericRewriteAsWritten(FileLines(Some(l)), GlueRules, ["b="], ["b="], env));
      && once == l + "b=2\n"
      && FileLines(Some(once)) == [once]
      && Join(GenericRewriteAsWritten(FileLines(Some(once)), GlueRules, ["b="], ["b="], env)) == once + "b=2\n"
  {
    ReadSingle(l);
    GlueOnce(l, env);
    JoinPair(l, "b=2\n");
    var once := l + "b=2\n";
    GlueLine(l);
    ReadSingle(once);
    GlueOnce(once, env);
    JoinPair(once, "b=2\n");
  }

  /** A line lacking its `\n`, followed by `b=2` and a `\n`, is one line. */
  lemma GlueLine(l: string)
    requires Line(l) && !Ended(l)
    ensures Line(l + "b=2\n") && Ended(l + "b=2\n")
  {
    var once := l + "b=2\n";
    assert l == l[..|l| - 1] + [l[|l| - 1]];
    assert once[..|once| - 1] == l + "b=2";
    assert '\n' !in "b=2" && '\r' !in "b=2\n";
  }

  /** Corrected, the same file gets `b=2` on a line of its own, and a second run writes
      the same text. */
  lemma EndedBeforeAppend(env: map<string, string>)
    ensures AllScalar(GlueRules) && KeysIn(["b="], GlueRules)
    ensures var once := GenericText(Some("a=1"), GlueRules, ["b="], ["b="], env);
      && once == "a=1\nb=2\n"
      && GenericText(Some(once), GlueRules, ["b="], ["b="], env) == once
  {
    GlueTexts();
    EndedLineOnce("a=1", env);
  }

  lemma EndedLineOnce(l: string, env: map<string, string>)
    requires Line(l) && !Ended(l) && l[0] == 'a'
    ensures AllScalar(GlueRules) && KeysIn(["b="], GlueRules)
    ensures var once := GenericText(Some(l), GlueRules, ["b="], ["b="], env);
      && once == l + "\n" + "b=2\n"
      && GenericText(Some(once), GlueRules, ["b="], ["b="], env) == once
  {
    ReadSingle(l);
    GlueOnce(l, env);
    assert EndLast([l]) == [l + "\n"];
    JoinPair(l + "\n", "b=2\n");
    GlueSettled(env);
    GenericIdempotent(Some(l), GlueRules, ["b="], ["b="], env);
  }

  /** The glued-line rule is matched back by its own line, which is a line of its own. */
  lemma GlueSettled(env: map<string, string>)
    ensures AllScalar(GlueRules) && IsOrderOf(["b="], GlueRules)
    ensures SelfMatching(GlueRules, ["b="], env) && LineSafe(GlueRules, env)
  {
    GlueKeyLine(env);
    GlueStrip();
    GlueKeyIsLine();
  }

  lemma GlueStrip()
    ensures FirstMatch(Strip("b=2\n"), ["b="]) == Some("b=")
  {
    StripPaddedRight("b=2", "\n");
    assert "b=2" + "\n" == "b=2\n";
    assert StartsWith("b=2", "b=");
  }

  lemma GlueKeyIsLine()
    ensures Line("b=2\n")
  {
    var l := "b=2\n";
    assert l[..|l| - 1] == "b=2";
  }

  /** One run over a single line starting with `a`: as written and corrected. */
  lemma GlueOnce(l: string, env: map<string, string>)
    requires l != [] && l[0] == 'a'
    ensures AllScalar(GlueRules) && KeysIn(["b="], GlueRules)
    ensures GenericRewriteAsWritten([l], GlueRules, ["b="], ["b="], env) == [l, "b=2\n"]
    ensures GenericRewrite([l], GlueRules, ["b="], ["b="], env) == EndLast([l]) + ["b=2\n"]
  {
    GlueUnmatched(l, env);
    GlueKeyLine(env);
    var pending := Unmatched(["b="], MatchedKeys([l], ["b="]));
    assert KeyLines(GlueRules, pending, env) == ["b=2\n"];
    GenericRewriteParts([l], GlueRules, ["b="], ["b="], env);
    assert [l] + ["b=2\n"] == [l, "b=2\n"];
  }

  lemma GlueKeyLine(env: map<string, string>)
    ensures AllScalar(GlueRules) && KeysIn(["b="], GlueRules)
    ensures Keys(GlueRules) == ["b="] && KeyLine(GlueRules, "b=", env) == "b=2\n"
    ensures KeyLines(GlueRules, ["b="], env) == ["b=2\n"]
  {
    assert Keys(GlueRules) == ["b="];
    assert Lookup(GlueRules, "b=") == Some(Str("b=2"));
    GlueExpanded(env);
  }

  lemma GlueExpanded(env: map<string, string>)
    ensures ExpandedText(Str("b=2"), env) == "b=2"
  {
    ExpandEmbedded("b=2", "", env);
    SubstNoBrace("", env);
    assert "b=2" + "" == "b=2";
  }

  /** A line starting with `a` is kept and leaves `b=` to append. */
  lemma GlueUnmatched(l: string, env: map<string, string>)
    requires l != [] && l[0] == 'a'
    ensures AllScalar(GlueRules) && KeysIn(["b="], GlueRules)
    ensures RewriteLines([l], GlueRules, ["b="], env) == [l]
    ensures Unmatched(["b="], MatchedKeys([l], ["b="])) == ["b="]
  {
    GlueKeyLine(env);
    assert TrimStart(l) == l;
    TrimEndSpec(l);
    var st := Strip(l);
    assert st == [] || st[0] == 'a';
    assert !StartsWith(st, "b=");
    assert FirstMatch(st, ["b="]) == None;
    var none: seq<string> := [];
    assert [l][..0] == none;
    assert MatchedKeys([l], ["b="]) == {};
    UnmatchedNone(["b="]);
  }

  /** A single line reads back as itself. */
  lemma ReadSingle(l: string)
    requires Line(l)
    ensures ReadLines(l) == [l] && FileLines(Some(l)) == [l]
  {
    JoinCons(l, []);
    assert [l] + [] == [l];
    assert Join([l]) == l + [];
    assert l + [] == l;
    assert LineList([l]);
    ReadJoin([l]);
  }

  lemma JoinPair(x: string, y: string)
    ensures Join([x, y]) == x + y
  {
    JoinCons(y, []);
    JoinCons(x, [y]);
    assert [x] + [y] == [x, y];
    assert [y] + [] == [y];
  }

  lemma {:induction false} UnmatchedNone(order: seq<string>)
    ensures Unmatched(order, {}) == order
    decreases |order|
  {
    if order != [] {
      UnmatchedNone(order[..|order| - 1]);
    }
  }

  /** At most one rule key is a prefix of `st`. */
  ghost predicate UniquePrefix(st: string, rules: seq<(string, Value)>) {
    forall k1, k2 :: k1 in Keys(rules) && k2 in Keys(rules) && StartsWith(st, k1) && StartsWith(st, k2) ==> k1 == k2
  }

  lemma FirstMatchSame(st: string, rules: seq<(string, Value)>, o1: seq<string>, o2: seq<string>)
    requires IsOrderOf(o1, rules) && IsOrderOf(o2, rules) && UniquePrefix(st, rules)
    ensures FirstMatch(st, o1) == FirstMatch(st, o2)
  {
    var m1 := FirstMatch(st, o1);
    var m2 := FirstMatch(st, o2);
    if m1.Some? {
      assert m1.value in o2;
      assert m2.Some?;
    }
  }

  lemma {:induction false} SameMatches(lines: seq<string>, rules: seq<(string, Value)>, m1: seq<string>, m2: seq<string>,
                                       env: map<string, string>)
    requires AllScalar(rules) && IsOrderOf(m1, rules) && IsOrderOf(m2, rules)
    requires forall i :: 0 <= i < |lines| ==> UniquePrefix(Strip(lines[i]), rules)
    ensures RewriteLines(lines, rules, m1, env) == RewriteLines(lines, rules, m2, env)
    ensures MatchedKeys(lines, m1) == MatchedKeys(lines, m2)
    decreases |lines|
  {
    if lines != [] {
      var init := lines[..|lines| - 1];
      SameMatches(init, rules, m1, m2, env);
      FirstMatchSame(Strip(lines[|lines| - 1]), rules, m1, m2);
    }
  }

  /** When no line starts with two rule keys, the order keys are tried in does not matter,
      to the source's lines or to the corrected ones. */
  lemma MatchOrderIrrelevant(lines: seq<string>, rules: seq<(string, Value)>, m1: seq<string>, m2: seq<string>,
                             appendOrder: seq<string>, env: map<string, string>)
    requires AllScalar(rules) && IsOrderOf(m1, rules) && IsOrderOf(m2, rules) && KeysIn(appendOrder, rules)
    requires forall i :: 0 <= i < |lines| ==> UniquePrefix(Strip(lines[i]), rules)
    ensures GenericRewriteAsWritten(lines, rules, m1, appendOrder, env)
         == GenericRewriteAsWritten(lines, rules, m2, appendOrder, env)
    ensures GenericRewrite(lines, rules, m1, appendOrder, env) == GenericRewrite(lines, rules, m2, appendOrder, env)
  {
    SameMatches(lines, rules, m1, m2, env);
  }

  /** Every rule's own line is matched back to that rule first. */
  ghost predicate SelfMatching(rules: seq<(string, Value)>, order: seq<string>, env: map<string, string>)
    requires AllScalar(rules)
  {
    forall k :: k in Keys(rules) ==> FirstMatch(Strip(KeyLine(rules, k, env)), order) == Some(k)
  }

  lemma RewriteLineStable(line: string, rules: seq<(string, Value)>, order: seq<string>, env: map<string, string>)
    requires AllScalar(rules) && KeysIn(order, rules) && SelfMatching(rules, order, env)
    ensures FirstMatch(Strip(RewriteLine(line, rules, order, env)), order) == FirstMatch(Strip(line), order)
    ensures RewriteLine(RewriteLine(line, rules, order, env), rules, order, env) == RewriteLine(line, rules, order, env)
  {
  }

  lemma {:induction false} RewriteTwice(lines: seq<string>, rules: seq<(string, Value)>, order: seq<string>,
                                        env: map<string, string>)
    requires AllScalar(rules) && KeysIn(order, rules) && SelfMatching(rules, order, env)
    ensures RewriteLines(RewriteLines(lines, rules, order, env), rules, order, env) == RewriteLines(lines, rules, order, env)
    ensures MatchedKeys(RewriteLines(lines, rules, order, env), order) == MatchedKeys(lines, order)
    decreases |lines|
  {
    if lines != [] {
      var init := lines[..|lines| - 1];
      var last := lines[|lines| - 1];
      RewriteTwice(init, rules, order, env);
      RewriteLineStable(last, rules, order, env);
      var r := RewriteLines(lines, rules, order, env);
      assert r[..|r| - 1] == RewriteLines(init, rules, order, env);
    }
  }

  lemma KeyLineStable(k: string, rules: seq<(string, Value)>, order: seq<string>, env: map<string, string>)
    requires AllScalar(rules) && KeysIn(order, rules) && k in Keys(rules) && SelfMatching(rules, order, env)
    ensures FirstMatch(Strip(KeyLine(rules, k, env)), order) == Some(k)
    ensures RewriteLine(KeyLine(rules, k, env), rules, order, env) == KeyLine(rules, k, env)
  {
  }

  /** Lines each of which is matched first by its key of `ks` record exactly those keys. */
  lemma {:induction false} FixedMatches(xs: seq<string>, ks: seq<string>, order: seq<string>)
    requires |xs| == |ks| && forall i :: 0 <= i < |xs| ==> FirstMatch(Strip(xs[i]), order) == Some(ks[i])
    ensures forall k :: k in MatchedKeys(xs, order) <==> k in ks
    decreases |xs|
  {
    if xs != [] {
      var n := |xs| - 1;
      var xi, ki := xs[..n], ks[..n];
      assert forall i :: 0 <= i < n ==> xi[i] == xs[i] && ki[i] == ks[i];
      FixedMatches(xi, ki, order);
      assert MatchedKeys(xs, order) == MatchedKeys(xi, order) + {ks[n]};
      SplitLast(ks);
    }
  }

  lemma KeyLinesStable(ks: seq<string>, rules: seq<(string, Value)>, order: seq<string>, env: map<string, string>)
    requires AllScalar(rules) && KeysIn(order, rules) && KeysIn(ks, rules) && SelfMatching(rules, order, env)
    ensures RewriteLines(KeyLines(rules, ks, env), rules, order, env) == KeyLines(rules, ks, env)
    ensures forall k :: k in MatchedKeys(KeyLines(rules, ks, env), order) <==> k in ks
  {
    var kl := KeyLines(rules, ks, env);
    forall i | 0 <= i < |kl|
      ensures FirstMatch(Strip(kl[i]), order) == Some(ks[i])
      ensures RewriteLine(kl[i], rules, order, env) == kl[i]
    {
      assert ks[i] in ks;
      KeyLineStable(ks[i], rules, order, env);
    }
    FixedMatches(kl, ks, order);
    RewriteLinesAt(kl, rules, order, env);
  }

  lemma {:induction false} RewriteConcat(x: seq<string>, y: seq<string>, rules: seq<(string, Value)>, order: seq<string>,
                                         env: map<string, string>)
    requires AllScalar(rules) && KeysIn(order, rules)
    ensures RewriteLines(x + y, rules, order, env) == RewriteLines(x, rules, order, env) + RewriteLines(y, rules, order, env)
    ensures MatchedKeys(x + y, order) == MatchedKeys(x, order) + MatchedKeys(y, order)
    decreases |y|
  {
    if y == [] {
      assert x + y == x;
    } else {
      var init := y[..|y| - 1];
      RewriteConcat(x, init, rules, order, env);
      ConcatInit(x, y);
    }
  }

  /** Rewriting the rewritten lines changes nothing, when every rule's line is matched
      back to its own key: the appended keys are all matched the second time. */
  lemma GenericRewriteTwice(lines: seq<string>, rules: seq<(string, Value)>, matchOrder: seq<string>,
                            appendOrder: seq<string>, env: map<string, string>)
    requires AllScalar(rules) && IsOrderOf(matchOrder, rules) && IsOrderOf(appendOrder, rules)
    requires SelfMatching(rules, matchOrder, env)
    ensures var out := GenericRewrite(lines, rules, matchOrder, appendOrder, env);
      GenericRewrite(out, rules, matchOrder, appendOrder, env) == out
  {
    var r1 := RewriteLines(lines, rules, matchOrder, env);
    var m1 := MatchedKeys(lines, matchOrder);
    var u1 := Unmatched(appendOrder, m1);
    var a1 := KeyLines(rules, u1, env);
    var b1 := if u1 == [] then r1 else EndLast(r1);
    var out := b1 + a1;
    assert GenericRewrite(lines, rules, matchOrder, appendOrder, env) == out;
    RewriteTwice(lines, rules, matchOrder, env);
    EndLastStable(r1, rules, matchOrder, env);
    KeyLinesStable(u1, rules, matchOrder, env);
    RewriteConcat(b1, a1, rules, matchOrder, env);
    var m2 := MatchedKeys(out, matchOrder);
    assert forall k :: k in appendOrder ==> k in m2;
    UnmatchedAll(appendOrder, m2);
    GenericSettled(out, rules, matchOrder, appendOrder, env);
  }

  /** Lines the first loop leaves alone and that match every key are written as they are. */
  lemma GenericSettled(lines: seq<string>, rules: seq<(string, Value)>, matchOrder: seq<string>,
                       appendOrder: seq<string>, env: map<string, string>)
    requires AllScalar(rules) && KeysIn(matchOrder, rules) && KeysIn(appendOrder, rules)
    requires RewriteLines(lines, rules, matchOrder, env) == lines
    requires Unmatched(appendOrder, MatchedKeys(lines, matchOrder)) == []
    ensures GenericRewrite(lines, rules, matchOrder, appendOrder, env) == lines
  {
    assert KeyLines(rules, [], env) == [];
    assert lines + [] == lines;
  }

  /** Ending an unmatched last line keeps the rewrite a fixed point: a line that is no
      key's line matched nothing, and its `\n` does not change its stripped text. */
  lemma EndLastStable(r: seq<string>, rules: seq<(string, Value)>, order: seq<string>, env: map<string, string>)
    requires AllScalar(rules) && KeysIn(order, rules)
    requires RewriteLines(r, rules, order, env) == r
    ensures RewriteLines(EndLast(r), rules, order, env) == EndLast(r)
    ensures MatchedKeys(EndLast(r), order) == MatchedKeys(r, order)
  {
    if r != [] && !Ended(r[|r| - 1]) {
      var init := r[..|r| - 1];
      var l := r[|r| - 1];
      var e := EndLast(r);
      assert e == init + [l + "\n"];
      assert e[..|e| - 1] == init;
      assert RewriteLines(init, rules, order, env) == init;
      assert RewriteLine(l, rules, order, env) == l;
      assert FirstMatch(Strip(l), order).None?;
      StripNewline(l);
    }
  }

  /** Every rule's line is a line of its own: no rule text holds a line break. */
  ghost predicate LineSafe(rules: seq<(string, Value)>, env: map<string, string>)
    requires AllScalar(rules)
  {
    forall k :: k in Keys(rules) ==> Line(KeyLine(rules, k, env))
  }

  /** Where each written line comes from: the rewritten lines (the last one ended when
      keys are appended), then the appended keys' lines. */
  lemma GenericAt(lines: seq<string>, rules: seq<(string, Value)>, matchOrder: seq<string>,
                  appendOrder: seq<string>, env: map<string, string>)
    requires AllScalar(rules) && KeysIn(matchOrder, rules) && KeysIn(appendOrder, rules)
    ensures var out := GenericRewrite(lines, rules, matchOrder, appendOrder, env);
      var pending := Unmatched(appendOrder, MatchedKeys(lines, matchOrder));
      && |out| == |lines| + |pending|
      && out[|lines|..] == KeyLines(rules, pending, env)
      && forall i :: 0 <= i < |lines| ==>
           var w := RewriteLine(lines[i], rules, matchOrder, env);
           out[i] == if i == |lines| - 1 && !Ended(w) && pending != [] then w + "\n" else w
  {
    RewriteLinesAt(lines, rules, matchOrder, env);
  }

  /** With line-safe rules, the written lines are lines `readlines` returns again. */
  lemma GenericShape(lines: seq<string>, rules: seq<(string, Value)>, matchOrder: seq<string>,
                     appendOrder: seq<string>, env: map<string, string>)
    requires AllScalar(rules) && KeysIn(matchOrder, rules) && KeysIn(appendOrder, rules)
    requires LineSafe(rules, env) && LineList(lines)
    ensures LineList(GenericRewrite(lines, rules, matchOrder, appendOrder, env))
  {
    var out := GenericRewrite(lines, rules, matchOrder, appendOrder, env);
    GenericAt(lines, rules, matchOrder, appendOrder, env);
    forall i | 0 <= i < |out| ensures Line(out[i]) && (i < |out| - 1 ==> Ended(out[i])) {
      GenericShapeAt(lines, rules, matchOrder, appendOrder, env, i);
    }
  }

  lemma GenericShapeAt(lines: seq<string>, rules: seq<(string, Value)>, matchOrder: seq<string>,
                       appendOrder: seq<string>, env: map<string, string>, i: nat)
    requires AllScalar(rules) && KeysIn(matchOrder, rules) && KeysIn(appendOrder, rules)
    requires LineSafe(rules, env) && LineList(lines)
    requires i < |lines| + |Unmatched(appendOrder, MatchedKeys(lines, matchOrder))|
    ensures var out := GenericRewrite(lines, rules, matchOrder, appendOrder, env);
      |out| == |lines| + |Unmatched(appendOrder, MatchedKeys(lines, matchOrder))|
      && Line(out[i]) && (i < |out| - 1 ==> Ended(out[i]))
  {
    if i < |lines| {
      BodyShapeAt(lines, rules, matchOrder, appendOrder, env, i);
    } else {
      TailShapeAt(lines, rules, matchOrder, appendOrder, env, i);
    }
  }

  lemma BodyShapeAt(lines: seq<string>, rules: seq<(string, Value)>, matchOrder: seq<string>,
                    appendOrder: seq<string>, env: map<string, string>, i: nat)
    requires AllScalar(rules) && KeysIn(matchOrder, rules) && KeysIn(appendOrder, rules)
    requires LineSafe(rules, env) && LineList(lines)
    requires i < |lines| + |Unmatched(appendOrder, MatchedKeys(lines, matchOrder))|
    requires i < |lines|
    ensures var out := GenericRewrite(lines, rules, matchOrder, appendOrder, env);
      |out| == |lines| + |Unmatched(appendOrder, MatchedKeys(lines, matchOrder))|
      && Line(out[i]) && (i < |out| - 1 ==> Ended(out[i]))
  {
    var pending := Unmatched(appendOrder, MatchedKeys(lines, matchOrder));
    GenericAt(lines, rules, matchOrder, appendOrder, env);
    RewrittenShape(lines, rules, matchOrder, env, i, pending != []);
  }

  lemma TailShapeAt(lines: seq<string>, rules: seq<(string, Value)>, matchOrder: seq<string>,
                    appendOrder: seq<string>, env: map<string, string>, i: nat)
    requires AllScalar(rules) && KeysIn(matchOrder, rules) && KeysIn(appendOrder, rules)
    requires LineSafe(rules, env) && LineList(lines)
    requires i < |lines| + |Unmatched(appendOrder, MatchedKeys(lines, matchOrder))|
    requires i >= |lines|
    ensures var out := GenericRewrite(lines, rules, matchOrder, appendOrder, env);
      |out| == |lines| + |Unmatched(appendOrder, MatchedKeys(lines, matchOrder))|
      && Line(out[i]) && (i < |out| - 1 ==> Ended(out[i]))
  {
    var pending := Unmatched(appendOrder, MatchedKeys(lines, matchOrder));
    GenericAt(lines, rules, matchOrder, appendOrder, env);
    var out := GenericRewrite(lines, rules, matchOrder, appendOrder, env);
    assert out[i] == KeyLines(rules, pending, env)[i - |lines|];
    assert pending[i - |lines|] in pending;
    KeyLineEnded(rules, pending[i - |lines|], env);
  }

  /** A rewritten line is a line, ended unless it is the last; and ended too when keys
      follow it. */
  lemma RewrittenShape(lines: seq<string>, rules: seq<(string, Value)>, matchOrder: seq<string>,
                       env: map<string, string>, i: nat, more: bool)
    requires AllScalar(rules) && KeysIn(matchOrder, rules)
    requires LineSafe(rules, env) && LineList(lines) && i < |lines|
    ensures var w := RewriteLine(lines[i], rules, matchOrder, env);
      var v := if i == |lines| - 1 && !Ended(w) && more then w + "\n" else w;
      Line(v) && (i < |lines| - 1 || more ==> Ended(v))
  {
    var w := RewriteLine(lines[i], rules, matchOrder, env);
    var m := FirstMatch(Strip(lines[i]), matchOrder);
    if m.Some? {
      KeyLineEnded(rules, m.value, env);
    }
    assert Line(w) && (i < |lines| - 1 ==> Ended(w));
    if i == |lines| - 1 && !Ended(w) && more {
      EndedLine(w);
    }
  }

  /** Ending a line that lacks its `\n` gives a complete line. */
  lemma EndedLine(w: string)
    requires Line(w) && !Ended(w)
    ensures Line(w + "\n") && Ended(w + "\n")
  {
    assert w[..|w| - 1] + [w[|w| - 1]] == w;
    assert (w + "\n")[..|w|] == w;
  }

  /** The written file reads back as the lines written, when no rule text holds a line
      break. */
  lemma GenericReadBack(file: Option<string>, rules: seq<(string, Value)>, matchOrder: seq<string>,
                        appendOrder: seq<string>, env: map<string, string>)
    requires AllScalar(rules) && KeysIn(matchOrder, rules) && KeysIn(appendOrder, rules)
    requires LineSafe(rules, env)
    ensures ReadLines(GenericText(file, rules, matchOrder, appendOrder, env))
         == GenericRewrite(FileLines(file), rules, matchOrder, appendOrder, env)
  {
    if file.Some? {
      ReadLinesShape(file.value);
    }
    GenericShape(FileLines(file), rules, matchOrder, appendOrder, env);
    ReadJoin(GenericRewrite(FileLines(file), rules, matchOrder, appendOrder, env));
  }

  /** Patching a file twice writes what patching it once wrote, when every rule's line
      is matched back to its own key and holds no line break. */
  lemma GenericIdempotent(file: Option<string>, rules: seq<(string, Value)>, matchOrder: seq<string>,
                          appendOrder: seq<string>, env: map<string, string>)
    requires AllScalar(rules) && IsOrderOf(matchOrder, rules) && IsOrderOf(appendOrder, rules)
    requires SelfMatching(rules, matchOrder, env) && LineSafe(rules, env)
    ensures var out := GenericText(file, rules, matchOrder, appendOrder, env);
      GenericText(Some(out), rules, matchOrder, appendOrder, env) == out
  {
    GenericReadBack(file, rules, matchOrder, appendOrder, env);
    GenericRewriteTwice(FileLines(file), rules, matchOrder, appendOrder, env);
  }

  /** Once every key is matched, nothing is left to append. */
  lemma {:induction false} UnmatchedAll(order: seq<string>, matched: set<string>)
    requires forall k :: k in order ==> k in matched
    ensures Unmatched(order, matched) == []
    decreases |order|
  {
    if order != [] {
      var init := order[..|order| - 1];
      assert forall k :: k in init ==> k in order;
      UnmatchedAll(init, matched);
      assert order[|order| - 1] in order;
    }
  }

  // ---- the source's text against the corrected one ----

  /** The source and the corrected rewrite write the same lines exactly when nothing
      is appended or the last rewritten line already ends with `\n`; this is so for a
      missing or empty file and for one whose last line ends with `\n`. */
  lemma AsWrittenAgrees(lines: seq<string>, rules: seq<(string, Value)>, matchOrder: seq<string>,
                        appendOrder: seq<string>, env: map<string, string>)
    requires AllScalar(rules) && KeysIn(matchOrder, rules) && KeysIn(appendOrder, rules)
    ensures var body := RewriteLines(lines, rules, matchOrder, env);
      var pending := Unmatched(appendOrder, MatchedKeys(lines, matchOrder));
      GenericRewriteAsWritten(lines, rules, matchOrder, appendOrder, env)
        == GenericRewrite(lines, rules, matchOrder, appendOrder, env)
      <==> (pending == [] || body == [] || Ended(body[|body| - 1]))
    ensures lines == [] || Ended(lines[|lines| - 1]) ==>
      GenericRewriteAsWritten(lines, rules, matchOrder, appendOrder, env)
        == GenericRewrite(lines, rules, matchOrder, appendOrder, env)
  {
    var body := RewriteLines(lines, rules, matchOrder, env);
    var pending := Unmatched(appendOrder, MatchedKeys(lines, matchOrder));
    var tail := KeyLines(rules, pending, env);
    GenericRewriteParts(lines, rules, matchOrder, appendOrder, env);
    if pending != [] && body != [] && !Ended(body[|body| - 1]) {
      var n := |body| - 1;
      assert EndLast(body)[n] == body[n] + "\n";
      assert (body + tail)[n] != (EndLast(body) + tail)[n];
    }
    if lines != [] && Ended(lines[|lines| - 1]) {
      var n := |lines| - 1;
      RewriteLinesAt(lines, rules, matchOrder, env);
      var m := FirstMatch(Strip(lines[n]), matchOrder);
      if m.Some? {
        KeyLineEnded(rules, m.value, env);
      }
      assert Ended(body[n]);
    }
  }

  /** On a missing or empty file, or one whose text ends with a line break, the source
      writes the corrected text, so every lemma about `GenericText` holds of it. */
  lemma AsWrittenTextAgrees(file: Option<string>, rules: seq<(string, Value)>, matchOrder: seq<string>,
                            appendOrder: seq<string>, env: map<string, string>)
    requires AllScalar(rules) && KeysIn(matchOrder, rules) && KeysIn(appendOrder, rules)
    requires file.None? || file.value == [] || file.value[|file.value| - 1] in "\r\n"
    ensures GenericTextAsWritten(file, rules, matchOrder, appendOrder, env)
         == GenericText(file, rules, matchOrder, appendOrder, env)
  {
    if file.Some? {
      LastLineEnded(file.value);
    }
    AsWrittenAgrees(FileLines(file), rules, matchOrder, appendOrder, env);
  }

  /** What the source's text reads back as, for any file: the lines written, except that
      when keys are appended after a last line without `\n`, that line and the first
      appended one read back as a single line. */
  lemma AsWrittenReadBack(file: Option<string>, rules: seq<(string, Value)>, matchOrder: seq<string>,
                          appendOrder: seq<string>, env: map<string, string>)
    requires AllScalar(rules) && KeysIn(matchOrder, rules) && KeysIn(appendOrder, rules)
    requires LineSafe(rules, env)
    ensures var lines := FileLines(file);
      var body := RewriteLines(lines, rules, matchOrder, env);
      var tail := KeyLines(rules, Unmatched(appendOrder, MatchedKeys(lines, matchOrder)), env);
      var read := ReadLines(GenericTextAsWritten(file, rules, matchOrder, appendOrder, env));
      if tail != [] && body != [] && !Ended(body[|body| - 1])
      then read == body[..|body| - 1] + [body[|body| - 1] + tail[0]] + tail[1..]
      else read == body + tail
  {
    var lines := FileLines(file);
    var body := RewriteLines(lines, rules, matchOrder, env);
    var pending := Unmatched(appendOrder, MatchedKeys(lines, matchOrder));
    var tail := KeyLines(rules, pending, env);
    AsWrittenAgrees(lines, rules, matchOrder, appendOrder, env);
    if tail != [] && body != [] && !Ended(body[|body| - 1]) {
      if file.Some? {
        ReadLinesShape(file.value);
      }
      GenericShape(lines, rules, matchOrder, appendOrder, env);
      GenericRewriteParts(lines, rules, matchOrder, appendOrder, env);
      forall j | 0 <= j < |tail| ensures Ended(tail[j]) {
        assert pending[j] in pending;
        KeyLineEnded(rules, pending[j], env);
      }
      GluedRead(body, tail);
    } else {
      GenericReadBack(file, rules, matchOrder, appendOrder, env);
      GenericRewriteParts(lines, rules, matchOrder, appendOrder, env);
    }
  }

  /** The source's file read back has the old line count plus the number of keys that
      patched no line, less one when the first appended line is glued onto the last. */
  lemma AsWrittenLength(file: Option<string>, rules: seq<(string, Value)>, matchOrder: seq<string>,
                        appendOrder: seq<string>, env: map<string, string>)
    requires AllScalar(rules) && KeysIn(matchOrder, rules) && IsOrderOf(appendOrder, rules)
    requires LineSafe(rules, env)
    ensures var lines := FileLines(file);
      var body := RewriteLines(lines, rules, matchOrder, env);
      var matched := MatchedKeys(lines, matchOrder);
      var glued := |matched| < |rules| && lines != [] && !Ended(body[|body| - 1]);
      |ReadLines(GenericTextAsWritten(file, rules, matchOrder, appendOrder, env))|
      == |lines| + |rules| - |matched| - (if glued then 1 else 0)
  {
    var lines := FileLines(file);
    AsWrittenReadBack(file, rules, matchOrder, appendOrder, env);
    PendingCount(lines, rules, matchOrder, appendOrder);
  }

  /** Lines that read back as themselves once the last one is ended read back, without
      that `\n`, with the last one and the next joined. */
  lemma GluedRead(body: seq<string>, tail: seq<string>)
    requires tail != [] && body != [] && !Ended(body[|body| - 1])
    requires LineList(EndLast(body) + tail)
    requires forall j :: 0 <= j < |tail| ==> Ended(tail[j])
    ensures ReadLines(Join(body + tail))
         == body[..|body| - 1] + [body[|body| - 1] + tail[0]] + tail[1..]
  {
    var n := |body| - 1;
    GluedShape(body, tail);
    assert body + tail == body[..n] + [body[n]] + ([tail[0]] + tail[1..]);
    ReadGlued(body[..n], body[n], tail[0], tail[1..]);
  }

  lemma GluedShape(body: seq<string>, tail: seq<string>)
    requires tail != [] && body != [] && !Ended(body[|body| - 1])
    requires LineList(EndLast(body) + tail)
    requires forall j :: 0 <= j < |tail| ==> Ended(tail[j])
    ensures LineList(body[..|body| - 1] + [body[|body| - 1] + tail[0]] + tail[1..])
  {
    var n := |body| - 1;
    var x := body[n];
    var t := tail[0];
    var glued := body[..n] + [x + t] + tail[1..];
    var fixed := EndLast(body) + tail;
    assert fixed[n] == x + "\n";
    assert (x + "\n")[..|x|] == x;
    assert fixed[n + 1] == t;
    assert (x + t)[..|x + t| - 1] == x + t[..|t| - 1];
    forall i | 0 <= i < |glued| ensures Line(glued[i]) && (i < |glued| - 1 ==> Ended(glued[i])) {
      if i < n {
        assert glued[i] == fixed[i];
      } else if i > n {
        assert glued[i] == fixed[i + 1] == tail[i - n];
      }
    }
  }
}
