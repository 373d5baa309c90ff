/** Files opened in Python's text mode: reading translates `\r\n` and a lone `\r` to
    `\n` (universal newlines), and `readlines` (or iterating over the file) cuts the
    text after every `\n`; `writelines` and a run of `write` calls write the pieces one
    after the other. A file is its text. */
module FileText {
  import opened Text
  import opened Values

  /** Universal newlines on reading: `\r\n` and a lone `\r` become `\n`. */
  function Universal(s: string): (r: string)
    ensures '\r' !in r
    decreases |s|
  {
    if s == [] then []
    else if s[0] == '\r' then "\n" + Universal(if |s| > 1 && s[1] == '\n' then s[2..] else s[1..])
    else [s[0]] + Universal(s[1..])
  }

  /** The length of the first line: up to and including the first `\n`, or the whole
      text when it holds no `\n`. */
  function LineEnd(s: string): (n: nat)
    requires s != []
    ensures 0 < n <= |s| && '\n' !in s[..n - 1]
    ensures s[n - 1] == '\n' || n == |s|
    decreases |s|
  {
    if s[0] == '\n' || |s| == 1 then 1
    else
      var m := LineEnd(s[1..]);
      assert s[..m] == [s[0]] + s[1..][..m - 1];
      1 + m
  }

  /** `readlines` on translated text: every piece keeps its `\n`; the last piece lacks
      it when the text does not end with one. */
  function SplitLines(s: string): seq<string>
    decreases |s|
  {
    if s == [] then [] else var n := LineEnd(s); [s[..n]] + SplitLines(s[n..])
  }

  /** The lines Python reads from a file holding `text`. */
  function ReadLines(text: string): seq<string> {
    SplitLines(Universal(text))
  }

  /** The lines of a file that may be missing; a missing file reads as no lines. */
  function FileLines(file: Option<string>): (lines: seq<string>)
    ensures file.None? ==> lines == []
    ensures file.Some? ==> lines == ReadLines(file.value)
  {
    if file.None? then [] else ReadLines(file.value)
  }

  /** `f.writelines(lines)`: the text written is the lines one after the other. */
  function Join(ls: seq<string>): string
    decreases |ls|
  {
    if ls == [] then [] else ls[0] + Join(ls[1..])
  }

  /** A piece `readlines` can return: not empty, no `\r`, and `\n` only at its end. */
  predicate Line(l: string) {
    l != [] && '\r' !in l && '\n' !in l[..|l| - 1]
  }

  /** A piece that ends with its `\n`. */
  predicate Ended(l: string) {
    l != [] && l[|l| - 1] == '\n'
  }

  /** A list of lines as `readlines` returns it: every piece a line, each ended except
      perhaps the last. */
  predicate LineList(ls: seq<string>) {
    forall i :: 0 <= i < |ls| ==> Line(ls[i]) && (i < |ls| - 1 ==> Ended(ls[i]))
  }

  /** A line stripped holds no line break. */
  lemma LineStrip(l: string)
    requires Line(l)
    ensures '\n' !in Strip(l) && '\r' !in Strip(l)
  {
    var b := l[..|l| - 1];
    assert l == b + [l[|l| - 1]];
    if Ended(l) {
      assert b + "\n" == l;
      StripNewline(b);
      StripWithin(b);
    } else {
      StripWithin(l);
    }
  }

  /** Text without `\r` is read as it is. */
  lemma {:induction false} UniversalPlain(s: string)
    requires '\r' !in s
    ensures Universal(s) == s
    decreases |s|
  {
    if s != [] {
      assert s[0] in s;
      assert forall c :: c in s[1..] ==> c in s;
      UniversalPlain(s[1..]);
      HeadTail(s);
    }
  }

  /** The lines read from a file are what `readlines` returns. */
  lemma ReadLinesShape(text: string)
    ensures LineList(ReadLines(text))
  {
    SplitShape(Universal(text));
  }

  lemma {:induction false} SplitShape(s: string)
    requires '\r' !in s
    ensures LineList(SplitLines(s))
    decreases |s|
  {
    if s != [] {
      var n := LineEnd(s);
      var rest := s[n..];
      assert forall c :: c in rest ==> c in s;
      assert forall c :: c in s[..n] ==> c in s;
      SplitShape(rest);
      var ls := SplitLines(s);
      assert s[..n][..n - 1] == s[..n - 1];
      assert ls == [s[..n]] + SplitLines(rest);
      forall i | 0 <= i < |ls| ensures Line(ls[i]) && (i < |ls| - 1 ==> Ended(ls[i])) {
        if i > 0 {
          assert ls[i] == SplitLines(rest)[i - 1];
        } else if i < |ls| - 1 {
          assert rest != [];
        }
      }
    }
  }

  /** Writing back the lines read gives the translated text: nothing is lost. */
  lemma {:induction false} JoinSplit(s: string)
    ensures Join(SplitLines(s)) == s
    decreases |s|
  {
    if s != [] {
      var n := LineEnd(s);
      JoinSplit(s[n..]);
      JoinCons(s[..n], SplitLines(s[n..]));
      TakeDrop(s, n);
    }
  }

  lemma JoinCons(l: string, ls: seq<string>)
    ensures Join([l] + ls) == l + Join(ls)
  {
    assert ([l] + ls)[1..] == ls;
  }

  /** Writing lines and reading them back gives the same lines, when they are lines
      `readlines` can return. */
  lemma ReadJoin(ls: seq<string>)
    requires LineList(ls)
    ensures ReadLines(Join(ls)) == ls
  {
    JoinNoReturn(ls);
    UniversalPlain(Join(ls));
    SplitJoin(ls);
  }

  lemma {:induction false} JoinNoReturn(ls: seq<string>)
    requires LineList(ls)
    ensures '\r' !in Join(ls)
    decreases |ls|
  {
    if ls != [] {
      var r := ls[1..];
      assert forall i :: 0 <= i < |r| ==> r[i] == ls[i + 1];
      JoinNoReturn(r);
      assert Line(ls[0]);
    }
  }

  lemma {:induction false} SplitJoin(ls: seq<string>)
    requires LineList(ls)
    ensures SplitLines(Join(ls)) == ls
    decreases |ls|
  {
    if ls != [] {
      var l, r := ls[0], ls[1..];
      assert forall i :: 0 <= i < |r| ==> r[i] == ls[i + 1];
      assert Line(l);
      var s := Join(ls);
      assert s == l + Join(r);
      assert s[..|l|] == l && s[|l|..] == Join(r);
      assert s[..|l| - 1] == l[..|l| - 1];
      if r != [] {
        assert Ended(ls[0]);
      }
      LineEndAt(s, |l|);
      SplitJoin(r);
      HeadTail(ls);
    }
  }

  /** The first line ends at the first `\n`. */
  lemma {:induction false} LineEndAt(s: string, n: nat)
    requires 0 < n <= |s| && '\n' !in s[..n - 1]
    requires s[n - 1] == '\n' || n == |s|
    ensures LineEnd(s) == n
    decreases n
  {
    if n > 1 {
      assert s[0] in s[..n - 1];
      var t := s[..n - 1];
      assert s[1..][..n - 2] == t[1..];
      assert forall c :: c in t[1..] ==> c in t;
      LineEndAt(s[1..], n - 1);
    }
  }

  /** Writing one more line writes its text at the end. */
  lemma {:induction false} JoinSnoc(ls: seq<string>, l: string)
    ensures Join(ls + [l]) == Join(ls) + l
    decreases |ls|
  {
    if ls == [] {
      assert [] + [l] == [l];
      JoinCons(l, []);
    } else {
      assert (ls + [l])[1..] == ls[1..] + [l];
      JoinSnoc(ls[1..], l);
    }
  }

  /** A file's last line read ends with `\n` exactly when its text ends with a line
      break, `\n` or `\r`; only an empty text reads as no lines. */
  lemma LastLineEnded(text: string)
    ensures ReadLines(text) == [] <==> text == []
    ensures text != [] ==>
      var ls := ReadLines(text);
      ls != [] && (Ended(ls[|ls| - 1]) <==> text[|text| - 1] in "\r\n")
  {
    if text != [] {
      UniversalLast(text);
      SplitLinesLast(Universal(text));
    }
  }

  lemma {:induction false} UniversalLast(s: string)
    requires s != []
    ensures var u := Universal(s); u != [] && (u[|u| - 1] == '\n' <==> s[|s| - 1] in "\r\n")
    decreases |s|
  {
    if s[0] == '\r' && |s| > 1 && s[1] == '\n' {
      if |s| > 2 {
        UniversalLast(s[2..]);
      }
    } else if |s| > 1 {
      UniversalLast(s[1..]);
    }
  }

  lemma {:induction false} SplitLinesLast(s: string)
    requires s != []
    ensures var ls := SplitLines(s); ls != [] && (Ended(ls[|ls| - 1]) <==> s[|s| - 1] == '\n')
    decreases |s|
  {
    var n := LineEnd(s);
    var ls := SplitLines(s);
    assert ls == [s[..n]] + SplitLines(s[n..]);
    if n < |s| {
      var rest := SplitLines(s[n..]);
      SplitLinesLast(s[n..]);
      assert ls[|ls| - 1] == rest[|rest| - 1];
      assert s[n..][|s[n..]| - 1] == s[|s| - 1];
    } else {
      assert s[..n] == s;
    }
  }

  /** Writing two runs of lines writes the first run's text, then the second's. */
  lemma {:induction false} JoinAppend(xs: seq<string>, ys: seq<string>)
    ensures Join(xs + ys) == Join(xs) + Join(ys)
    decreases |xs|
  {
    if xs == [] {
      assert [] + ys == ys;
    } else {
      assert (xs + ys)[1..] == xs[1..] + ys;
      JoinAppend(xs[1..], ys);
    }
  }

  /** Writing two lines one after the other writes the same text as writing them as one. */
  lemma JoinGlue(front: seq<string>, x: string, t: string, rest: seq<string>)
    ensures Join(front + [x] + ([t] + rest)) == Join(front + [x + t] + rest)
  {
    assert front + [x + t] + rest == front + ([x + t] + rest);
    JoinAppend(front, [x] + ([t] + rest));
    JoinAppend(front + [x], [t] + rest);
    JoinAppend(front, [x]);
    JoinAppend(front, [x + t] + rest);
    JoinCons(x, []);
    JoinCons(t, rest);
    JoinCons(x + t, rest);
  }

  /** Lines written after a line without `\n` read back with the two joined, when the
      joined lines are lines `readlines` returns. */
  lemma ReadGlued(front: seq<string>, x: string, t: string, rest: seq<string>)
    requires LineList(front + [x + t] + rest)
    ensures ReadLines(Join(front + [x] + ([t] + rest))) == front + [x + t] + rest
  {
    JoinGlue(front, x, t, rest);
    ReadJoin(front + [x + t] + rest);
  }
}
