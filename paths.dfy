/** The rule path of a YAML rule: `re.split(r"\.(?![^\[]*\])", path)` cuts it into
    pieces, and `re.match(r"(\w+)\[(\d+)\]", piece)` tells a list slot from a key. */
module Paths {
  import opened Text

  /** The lookahead `[^\[]*\]` read from the start of `t`: a `]` comes before any `[`. */
  predicate ClosesFirst(t: string)
    decreases |t|
  {
    t != [] && (t[0] == ']' || (t[0] != '[' && ClosesFirst(t[1..])))
  }

  /** The lookahead holds exactly when some `]` in `t` has no `[` before it. */
  lemma {:induction false} ClosesFirstMeaning(t: string)
    ensures ClosesFirst(t) <==> exists j :: 0 <= j < |t| && t[j] == ']' && '[' !in t[..j]
    decreases |t|
  {
    if t == [] {
    } else if t[0] == ']' {
      assert t[..0] == [];
    } else if t[0] == '[' {
      forall j | 0 <= j < |t| && t[j] == ']' ensures '[' in t[..j] {
        assert t[..j][0] == '[';
      }
    } else {
      ClosesFirstMeaning(t[1..]);
      if ClosesFirst(t) {
        var j' :| 0 <= j' < |t[1..]| && t[1..][j'] == ']' && '[' !in t[1..][..j'];
        assert t[..j' + 1] == [t[0]] + t[1..][..j'];
      }
      if exists j :: 0 <= j < |t| && t[j] == ']' && '[' !in t[..j] {
        var j :| 0 <= j < |t| && t[j] == ']' && '[' !in t[..j];
        assert j > 0;
        assert t[..j] == [t[0]] + t[1..][..j - 1];
        assert t[1..][j - 1] == ']';
      }
    }
  }

  /** The dot at `k` is a split point: no `]` closes before the next `[`. */
  predicate IsCut(s: string, k: nat)
    requires k < |s|
  {
    s[k] == '.' && !ClosesFirst(s[k + 1..])
  }

  /** The first split point at or after `from`, or the end of `s`. */
  function FirstCut(s: string, from: nat): (k: nat)
    requires from <= |s|
    ensures from <= k <= |s|
    decreases |s| - from
  {
    if from == |s| || IsCut(s, from) then from else FirstCut(s, from + 1)
  }

  lemma {:induction false} FirstCutSpec(s: string, from: nat)
    requires from <= |s|
    ensures var k := FirstCut(s, from);
      (k < |s| ==> IsCut(s, k)) && forall j :: from <= j < k ==> !IsCut(s, j)
    decreases |s| - from
  {
    if from < |s| && !IsCut(s, from) {
      FirstCutSpec(s, from + 1);
    }
  }

  /** `re.split(r"\.(?![^\[]*\])", s)`: the pieces between the split points. */
  function SplitPath(s: string): (r: seq<string>)
    ensures |r| >= 1
    decreases |s|
  {
    var k := FirstCut(s, 0);
    if k == |s| then [s] else [s[..k]] + SplitPath(s[k + 1..])
  }

  /** `".".join(pieces)` */
  function JoinDots(ps: seq<string>): string
    requires |ps| >= 1
  {
    if |ps| == 1 then ps[0] else ps[0] + "." + JoinDots(ps[1..])
  }

  /** Joining the pieces with dots gives the path back. */
  lemma {:induction false} SplitJoin(s: string)
    ensures JoinDots(SplitPath(s)) == s
    decreases |s|
  {
    var k := FirstCut(s, 0);
    FirstCutSpec(s, 0);
    if k < |s| {
      SplitJoin(s[k + 1..]);
      var r := SplitPath(s);
      assert r[1..] == SplitPath(s[k + 1..]);
      assert s == s[..k] + "." + s[k + 1..];
    }
  }

  /** A dot before a cut whose lookahead holds finds its `]` before the cut. */
  lemma {:induction false} ClosesBeforeCut(t: string, m: nat)
    requires m < |t| && t[m] == '.'
    requires ClosesFirst(t) && !ClosesFirst(t[m + 1..])
    ensures ClosesFirst(t[..m])
    decreases |t|
  {
    if t[0] != ']' {
      assert m > 0;
      assert t[1..][m - 1..] == t[m..];
      assert t[1..][m - 1 + 1..] == t[m + 1..];
      ClosesBeforeCut(t[1..], m - 1);
      assert t[..m][1..] == t[1..][..m - 1];
    }
  }

  /** Every dot left inside a piece is followed, within that piece, by a `]` before
      any `[`: only dots inside brackets survive the split. */
  lemma {:induction false} SplitKeepsBracketedDots(s: string)
    ensures var r := SplitPath(s);
      forall i, j :: 0 <= i < |r| && 0 <= j < |r[i]| && r[i][j] == '.' ==> ClosesFirst(r[i][j + 1..])
    decreases |s|
  {
    var r := SplitPath(s);
    var k := FirstCut(s, 0);
    FirstCutSpec(s, 0);
    forall j | 0 <= j < |r[0]| && r[0][j] == '.' ensures ClosesFirst(r[0][j + 1..]) {
      assert s[j] == '.' && !IsCut(s, j);
      if k < |s| {
        assert s[j + 1..][k - j - 1] == '.';
        assert s[j + 1..][k - j - 1 + 1..] == s[k + 1..];
        ClosesBeforeCut(s[j + 1..], k - j - 1);
        assert s[j + 1..][..k - j - 1] == r[0][j + 1..];
      }
    }
    if k < |s| {
      SplitKeepsBracketedDots(s[k + 1..]);
      assert r[1..] == SplitPath(s[k + 1..]);
      forall i, j | 1 <= i < |r| && 0 <= j < |r[i]| && r[i][j] == '.' ensures ClosesFirst(r[i][j + 1..]) {
        assert r[i] == r[1..][i - 1];
      }
    }
  }

  lemma {:induction false} FirstCutAt(s: string, from: nat, k: nat)
    requires from <= k <= |s| && forall j :: from <= j < k ==> !IsCut(s, j)
    requires k < |s| ==> IsCut(s, k)
    ensures FirstCut(s, from) == k
    decreases k - from
  {
    if from < k {
      FirstCutAt(s, from + 1, k);
    }
  }

  /** A path without dots is one piece. */
  lemma SplitNoDot(s: string)
    requires '.' !in s
    ensures SplitPath(s) == [s]
  {
    FirstCutAt(s, 0, |s|);
  }

  /** A first piece without split points, followed by a dot whose lookahead fails, is
      split off, and the rest is split on its own. */
  lemma SplitAtDot(a: string, b: string)
    requires forall j :: 0 <= j < |a| ==> !IsCut(a + "." + b, j)
    requires !ClosesFirst(b)
    ensures SplitPath(a + "." + b) == [a] + SplitPath(b)
  {
    var s := a + "." + b;
    assert s[|a| + 1..] == b;
    FirstCutAt(s, 0, |a|);
    assert s[..|a|] == a;
  }

  lemma SplitAtPlainDot(a: string, b: string)
    requires '.' !in a && !ClosesFirst(b)
    ensures SplitPath(a + "." + b) == [a] + SplitPath(b)
  {
    var s := a + "." + b;
    forall j | 0 <= j < |a| ensures !IsCut(s, j) {
      assert s[j] == a[j];
    }
    SplitAtDot(a, b);
  }

  lemma SplitExampleTail()
    ensures SplitPath("b[2].c") == ["b[2]", "c"]
  {
    assert !ClosesFirst("c") by {
      assert "c"[1..] == "";
    }
    SplitAtPlainDot("b[2]", "c");
    TailJoin();
    SplitNoDot("c");
  }

  lemma TailJoin()
    ensures "b[2]" + "." + "c" == "b[2].c"
  {
  }

  lemma HeadJoin()
    ensures "a" + "." + "b[2].c" == "a.b[2].c"
  {
  }

  lemma BracketNotClosing()
    ensures !ClosesFirst("b[2].c")
  {
    assert "b[2].c"[1..] == "[2].c";
  }

  /** `a.b[2].c` has three pieces. */
  lemma SplitExample()
    ensures SplitPath("a.b[2].c") == ["a", "b[2]", "c"]
  {
    BracketNotClosing();
    SplitAtPlainDot("a", "b[2].c");
    HeadJoin();
    SplitExampleTail();
  }

  /** The dot in `a[x.y].b` is inside brackets, so only the second dot splits. */
  lemma SplitBracketExample()
    ensures SplitPath("a[x.y].b") == ["a[x.y]", "b"]
  {
    var s := "a[x.y].b";
    assert s == "a[x.y]" + "." + "b";
    assert ClosesFirst(s[4..]) by {
      assert s[4..] == "y].b";
      assert "y].b"[1..] == "].b";
    }
    assert !ClosesFirst("b");
    SplitAtDot("a[x.y]", "b");
    SplitNoDot("b");
  }

  lemma {:induction false} ClosesFirstHasBracket(t: string)
    requires ClosesFirst(t)
    ensures ']' in t
    decreases |t|
  {
    if t[0] != ']' {
      ClosesFirstHasBracket(t[1..]);
    }
  }

  /** A path without brackets is cut at every dot. */
  lemma NoBracketsSplitsEveryDot(s: string)
    requires ']' !in s
    ensures var r := SplitPath(s); forall i :: 0 <= i < |r| ==> '.' !in r[i]
  {
    var r := SplitPath(s);
    SplitKeepsBracketedDots(s);
    SplitJoin(s);
    forall i | 0 <= i < |r| ensures '.' !in r[i] {
      if '.' in r[i] {
        var j :| 0 <= j < |r[i]| && r[i][j] == '.';
        ClosesFirstHasBracket(r[i][j + 1..]);
        PieceInJoin(r, i);
      }
    }
  }

  /** Every piece's characters occur in the joined string. */
  lemma {:induction false} PieceInJoin(r: seq<string>, i: nat)
    requires |r| >= 1 && i < |r|
    ensures forall c :: c in r[i] ==> c in JoinDots(r)
  {
    if |r| > 1 {
      if i > 0 {
        PieceInJoin(r[1..], i - 1);
      }
    }
  }

  // ---- pieces ----

  /** `\w` restricted to ASCII: letters, digits and the underscore. */
  predicate IsWordChar(c: char) {
    'a' <= c <= 'z' || 'A' <= c <= 'Z' || IsDigit(c) || c == '_'
  }

  /** Length of the longest prefix of `s` whose characters satisfy the test. */
  function WordLen(s: string): (n: nat)
    ensures n <= |s|
  {
    if s == [] || !IsWordChar(s[0]) then 0 else 1 + WordLen(s[1..])
  }

  function DigitLen(s: string): (n: nat)
    ensures n <= |s|
  {
    if s == [] || !IsDigit(s[0]) then 0 else 1 + DigitLen(s[1..])
  }

  lemma {:induction false} WordLenSpec(s: string)
    ensures var n := WordLen(s);
      (forall k :: 0 <= k < n ==> IsWordChar(s[k])) && (n < |s| ==> !IsWordChar(s[n]))
  {
    if s != [] && IsWordChar(s[0]) {
      WordLenSpec(s[1..]);
    }
  }

  lemma {:induction false} DigitLenSpec(s: string)
    ensures var n := DigitLen(s);
      (forall k :: 0 <= k < n ==> IsDigit(s[k])) && (n < |s| ==> !IsDigit(s[n]))
  {
    if s != [] && IsDigit(s[0]) {
      DigitLenSpec(s[1..]);
    }
  }

  /** One piece of a path: a dict key, or `name[index]`, a slot of the list under `name`. */
  datatype Segment = Key(name: string) | Slot(name: string, index: nat)

  /** `re.match(r"(\w+)\[(\d+)\]", piece)`: a prefix match, so anything after the `]`
      is ignored; a piece that does not match is a key as a whole. */
  function ParseSegment(p: string): Segment {
    var w := WordLen(p);
    if 0 < w < |p| && p[w] == '[' then
      var d := DigitLen(p[w + 1..]);
      if 0 < d && w + 1 + d < |p| && p[w + 1 + d] == ']' then
        DigitLenSpec(p[w + 1..]);
        Slot(p[..w], DigitsValue(p[w + 1..w + 1 + d]))
      else Key(p)
    else Key(p)
  }

  /** A key is the piece as a whole; a slot's name is a non-empty run of word
      characters, followed in the piece by `[` and digits whose value is the index. */
  lemma ParseSegmentShape(p: string)
    ensures var g := ParseSegment(p);
      && (g.Key? ==> g.name == p)
      && (g.Slot? ==> g.name != [] && StartsWith(p, g.name + "[")
                      && forall k :: 0 <= k < |g.name| ==> IsWordChar(g.name[k]))
  {
    var w := WordLen(p);
    WordLenSpec(p);
    if ParseSegment(p).Slot? {
      assert p[..w + 1] == p[..w] + "[";
    }
  }

  /** The word run is exactly the word characters before the first non-word one. */
  lemma {:induction false} WordLenAt(s: string, n: nat)
    requires n < |s| && !IsWordChar(s[n]) && forall k :: 0 <= k < n ==> IsWordChar(s[k])
    ensures WordLen(s) == n
    decreases n
  {
    if n > 0 {
      WordLenAt(s[1..], n - 1);
    }
  }

  /** The digit run is exactly the digits before the first non-digit. */
  lemma {:induction false} DigitLenAt(s: string, n: nat)
    requires n < |s| && !IsDigit(s[n]) && forall k :: 0 <= k < n ==> IsDigit(s[k])
    ensures DigitLen(s) == n
    decreases n
  {
    if n > 0 {
      DigitLenAt(s[1..], n - 1);
    }
  }

  /** A piece that matches `(\w+)\[(\d+)\]` at its start is the slot of that name
      and number. */
  lemma ParseSegmentSlot(p: string, w: nat, d: nat)
    requires 0 < w && 0 < d && w + 1 + d < |p|
    requires forall k :: 0 <= k < w ==> IsWordChar(p[k])
    requires p[w] == '['
    requires forall k :: w + 1 <= k < w + 1 + d ==> IsDigit(p[k])
    requires p[w + 1 + d] == ']'
    ensures ParseSegment(p) == Slot(p[..w], DigitsValue(p[w + 1..w + 1 + d]))
  {
    WordLenAt(p, w);
    var t := p[w + 1..];
    assert forall k :: 0 <= k <= d ==> t[k] == p[w + 1 + k];
    DigitLenAt(t, d);
  }

  /** A piece without `[` is a key. */
  lemma ParseKey(p: string)
    requires '[' !in p
    ensures ParseSegment(p) == Key(p)
  {
  }
}
