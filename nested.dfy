/** `set_nested_value`: writing a value at a dotted path of the loaded YAML document,
    creating the dicts and lists on the way. The in-place walk down `current_level`
    is modelled as a function from the old document to the new one; a Python
    exception is an `Err`. */
module Nested {
  import opened Text
  import opened Values
  import opened Paths

  /** The dict under `k` when there is one, otherwise a fresh `{}` (what the walk
      descends into after `current_level[key] = {}`). */
  function ChildMap(es: seq<(string, Value)>, k: string): (c: Value)
    ensures c.Map?
  {
    var o := Lookup(es, k);
    if o.Some? && o.value.Map? then o.value else Map([])
  }

  /** The list under `n` when there is one, otherwise `[]`. */
  function ListAt(es: seq<(string, Value)>, n: string): seq<Value> {
    var o := Lookup(es, n);
    if o.Some? && o.value.List? then o.value.items else []
  }

  /** `while len(items) <= index: items.append(filler)` for `index == n - 1`. */
  function Pad(items: seq<Value>, n: nat, filler: Value): (r: seq<Value>)
    ensures |r| == if |items| >= n then |items| else n
    ensures forall j :: 0 <= j < |items| ==> r[j] == items[j]
    ensures forall j :: |items| <= j < |r| ==> r[j] == filler
  {
    if |items| >= n then items else items + seq(n - |items|, _ => filler)
  }

  /** The value the walk descends into from a dict for a non-final segment. */
  function Next(es: seq<(string, Value)>, g: Segment): (c: Value) {
    match g
    case Key(k) => ChildMap(es, k)
    case Slot(n, i) => Pad(ListAt(es, n), i + 1, Map([]))[i]
  }

  /** `set_nested_value(data, path, x)` on the parsed path. A level that is not a dict
      raises; a non-final key descends into its dict (a non-dict is replaced by `{}`);
      a non-final slot pads the list with `{}` and descends into the element; a final
      slot pads with `None` and assigns; a final key assigns. */
  function Set(v: Value, segs: seq<Segment>, x: Value): (r: Result<Value>)
    requires |segs| > 0
    ensures r.Ok? ==> r.value.Map?
    decreases |segs|
  {
    if !v.Map? then Err("TypeError: the level reached is not a dict")
    else
      var es := v.entries;
      match segs[0]
      case Key(k) =>
        if |segs| == 1 then Ok(Map(Put(es, k, x)))
        else
          var r := Set(Next(es, segs[0]), segs[1..], x);
          if r.Err? then r else Ok(Map(Put(es, k, r.value)))
      case Slot(n, i) =>
        if |segs| == 1 then Ok(Map(Put(es, n, List(Pad(ListAt(es, n), i + 1, Null)[i := x]))))
        else
          var items := Pad(ListAt(es, n), i + 1, Map([]));
          var r := Set(items[i], segs[1..], x);
          if r.Err? then r else Ok(Map(Put(es, n, List(items[i := r.value]))))
  }

  /** `set_nested_value` on the textual path. */
  function SetPath(v: Value, path: string, x: Value): Result<Value> {
    Set(v, Segments(SplitPath(path)), x)
  }

  function Segments(pieces: seq<string>): (segs: seq<Segment>)
    ensures |segs| == |pieces| && forall i :: 0 <= i < |pieces| ==> segs[i] == ParseSegment(pieces[i])
  {
    seq(|pieces|, i requires 0 <= i < |pieces| => ParseSegment(pieces[i]))
  }

  /** Reading a path: `d[k]` for a key, `d[n][i]` for a slot; `None` when a level is
      missing, of the wrong kind, or the index is out of range. */
  function Get(v: Value, segs: seq<Segment>): Option<Value>
    requires |segs| > 0
    decreases |segs|
  {
    if !v.Map? then None
    else
      var here := Here(v.entries, segs[0]);
      if |segs| == 1 || here.None? then here else Get(here.value, segs[1..])
  }

  function Here(es: seq<(string, Value)>, g: Segment): Option<Value> {
    match g
    case Key(k) => Lookup(es, k)
    case Slot(n, i) =>
      var l := ListAt(es, n);
      if i < |l| then Some(l[i]) else None
  }

  /** The walk never raises: the level is a dict and, below it, so is every level the
      walk reaches. Only an existing list element can be a non-dict there. */
  predicate Descendable(v: Value, segs: seq<Segment>)
    requires |segs| > 0
    decreases |segs|
  {
    v.Map? && (|segs| > 1 ==> Descendable(Next(v.entries, segs[0]), segs[1..]))
  }

  /** The write succeeds exactly when the root is a dict and every existing list
      element the path descends through is a dict. */
  lemma {:induction false} SetOkIff(v: Value, segs: seq<Segment>, x: Value)
    requires |segs| > 0
    ensures Set(v, segs, x).Ok? <==> Descendable(v, segs)
    decreases |segs|
  {
    if v.Map? && |segs| > 1 {
      SetOkIff(Next(v.entries, segs[0]), segs[1..], x);
    }
  }

  /** Nothing below a fresh `{}` can make the walk raise. */
  lemma {:induction false} FreshDescendable(segs: seq<Segment>)
    requires |segs| > 0
    ensures Descendable(Map([]), segs)
    decreases |segs|
  {
    if |segs| > 1 {
      assert Next([], segs[0]) == Map([]);
      FreshDescendable(segs[1..]);
    }
  }

  /** Writing under a dict that holds only dicts along the way never raises when no
      slot is involved. */
  lemma {:induction false} KeysOnlyDescendable(v: Value, segs: seq<Segment>)
    requires v.Map? && |segs| > 0 && forall i :: 0 <= i < |segs| ==> segs[i].Key?
    ensures Descendable(v, segs)
    decreases |segs|
  {
    if |segs| > 1 {
      KeysOnlyDescendable(Next(v.entries, segs[0]), segs[1..]);
    }
  }

  /** Read-back: after a successful write, the path holds the written value. */
  lemma {:induction false} SetGet(v: Value, segs: seq<Segment>, x: Value)
    requires |segs| > 0 && Set(v, segs, x).Ok?
    ensures Get(Set(v, segs, x).value, segs) == Some(x)
    decreases |segs|
  {
    if |segs| > 1 {
      SetGet(Next(v.entries, segs[0]), segs[1..], x);
    }
  }

  lemma {:induction false} GetFresh(segs: seq<Segment>)
    requires |segs| > 0
    ensures Get(Map([]), segs) == None
  {
  }

  /** A write changes only the entry under the first segment's name. */
  lemma SetOthers(v: Value, segs: seq<Segment>, x: Value)
    requires |segs| > 0 && Set(v, segs, x).Ok?
    ensures forall k :: k != segs[0].name ==> Lookup(Set(v, segs, x).value.entries, k) == Lookup(v.entries, k)
  {
  }

  /** Below the first segment, the write continues into what the walk descended into. */
  lemma NextAfterSet(v: Value, segs: seq<Segment>, x: Value)
    requires |segs| > 1 && Set(v, segs, x).Ok?
    ensures Set(Next(v.entries, segs[0]), segs[1..], x).Ok?
    ensures Next(Set(v, segs, x).value.entries, segs[0]) == Set(Next(v.entries, segs[0]), segs[1..], x).value
  {
  }

  /** Reading below a dict goes through what the walk would descend into: a missing or
      wrong-kind level reads like a fresh `{}`. */
  lemma GetViaNext(v: Value, other: seq<Segment>)
    requires v.Map? && |other| > 1
    ensures Get(v, other) == Get(Next(v.entries, other[0]), other[1..])
  {
    GetFresh(other[1..]);
  }

  lemma SetFrameHead(v: Value, segs: seq<Segment>, x: Value, other: seq<Segment>)
    requires |segs| > 0 && Set(v, segs, x).Ok? && |other| > 0
    requires segs[0].name != other[0].name
    ensures Get(Set(v, segs, x).value, other) == Get(v, other)
  {
    var r := Set(v, segs, x).value;
    SetOthers(v, segs, x);
    assert Here(r.entries, other[0]) == Here(v.entries, other[0]);
  }

  /** Frame: a path that follows the written path exactly for `d` segments and then
      names a different key (or list) reads the same before and after the write, at
      every level of the walk. */
  lemma {:induction false} SetFrame(v: Value, segs: seq<Segment>, x: Value, other: seq<Segment>, d: nat)
    requires |segs| > 0 && Set(v, segs, x).Ok?
    requires d < |segs| && d < |other| && forall e :: 0 <= e < d ==> segs[e] == other[e]
    requires segs[d].name != other[d].name
    ensures Get(Set(v, segs, x).value, other) == Get(v, other)
    decreases d
  {
    if d == 0 {
      SetFrameHead(v, segs, x, other);
    } else {
      var r := Set(v, segs, x).value;
      assert segs[0] == other[0];
      var c := Next(v.entries, segs[0]);
      NextAfterSet(v, segs, x);
      SetFrame(c, segs[1..], x, other[1..], d - 1);
      GetViaNext(r, other);
      GetViaNext(v, other);
    }
  }

  /** Frame for sibling elements: a path that follows the written path for `d`
      segments and then names another index of the same list reads the same before and
      after the write, except that an index that was out of range and now lies in the
      padding reads as the filler (`None` when the slot is the written path's last
      segment, `{}` otherwise). */
  lemma {:induction false} SetFrameSlot(v: Value, segs: seq<Segment>, x: Value, other: seq<Segment>, d: nat)
    requires |segs| > 0 && Set(v, segs, x).Ok?
    requires d < |segs| && d < |other| && forall e :: 0 <= e < d ==> segs[e] == other[e]
    requires segs[d].Slot? && other[d].Slot? && segs[d].name == other[d].name
    requires segs[d].index != other[d].index
    ensures var after := Get(Set(v, segs, x).value, other);
      || after == Get(v, other)
      || (&& |other| == d + 1 && Get(v, other) == None
          && after == Some(if |segs| == d + 1 then Null else Map([])))
    decreases d
  {
    if d == 0 {
      SetFrameSlotHead(v, segs, x, other);
    } else {
      var r := Set(v, segs, x).value;
      assert segs[0] == other[0];
      var c := Next(v.entries, segs[0]);
      NextAfterSet(v, segs, x);
      var c2 := Set(c, segs[1..], x).value;
      forall e | 0 <= e < d - 1 ensures segs[1..][e] == other[1..][e] {
        assert segs[e + 1] == other[e + 1];
      }
      SetFrameSlot(c, segs[1..], x, other[1..], d - 1);
      GetViaNext(r, other);
      GetViaNext(v, other);
      assert Get(r, other) == Get(c2, other[1..]);
      assert Get(v, other) == Get(c, other[1..]);
    }
  }

  lemma SetFrameSlotHead(v: Value, segs: seq<Segment>, x: Value, other: seq<Segment>)
    requires |segs| > 0 && Set(v, segs, x).Ok? && |other| > 0
    requires segs[0].Slot? && other[0].Slot? && segs[0].name == other[0].name
    requires segs[0].index != other[0].index
    ensures var after := Get(Set(v, segs, x).value, other);
      || after == Get(v, other)
      || (&& |other| == 1 && Get(v, other) == None
          && after == Some(if |segs| == 1 then Null else Map([])))
  {
    var r := Set(v, segs, x).value;
    var n, j := other[0].name, other[0].index;
    var prev := ListAt(v.entries, n);
    SetSlotShape(v, segs, x);
    var l := ListAt(r.entries, n);
    var filler := if |segs| == 1 then Null else Map([]);
    if j < |prev| {
      assert Here(r.entries, other[0]) == Here(v.entries, other[0]);
    } else {
      assert Here(v.entries, other[0]) == None;
      if j < |l| {
        assert Here(r.entries, other[0]) == Some(filler);
        if |other| > 1 {
          GetFresh(other[1..]);
        }
      }
    }
  }

  /** A list slot write: the list under the name has length `max(old, i + 1)`, keeps
      its other existing elements, and is padded with `None` when the slot is the last
      segment and with `{}` otherwise; a non-list under the name counts as `[]`. */
  lemma SetSlotShape(v: Value, segs: seq<Segment>, x: Value)
    requires |segs| > 0 && segs[0].Slot? && Set(v, segs, x).Ok?
    ensures var n, i := segs[0].name, segs[0].index;
      var prev := ListAt(v.entries, n);
      var got := Lookup(Set(v, segs, x).value.entries, n);
      && got.Some? && got.value.List?
      && var l := got.value.items;
      && |l| == (if |prev| > i then |prev| else i + 1)
      && (forall j :: 0 <= j < |prev| && j != i ==> l[j] == prev[j])
      && (forall j :: |prev| <= j < |l| && j != i ==> l[j] == if |segs| == 1 then Null else Map([]))
      && (|segs| == 1 ==> l[i] == x)
  {
  }

  /** A non-final key holds a dict afterwards; when it held no dict before, the new dict
      holds exactly the next segment's name. */
  lemma SetKeyShape(v: Value, segs: seq<Segment>, x: Value)
    requires |segs| > 1 && segs[0].Key? && Set(v, segs, x).Ok?
    ensures var k := segs[0].name;
      var got := Lookup(Set(v, segs, x).value.entries, k);
      && got.Some? && got.value.Map?
      && (!(Lookup(v.entries, k).Some? && Lookup(v.entries, k).value.Map?) ==>
            Keys(got.value.entries) == [segs[1].name])
  {
    var k := segs[0].name;
    if !(Lookup(v.entries, k).Some? && Lookup(v.entries, k).value.Map?) {
      FreshKeys(segs[1..], x);
    }
  }

  /** A write into a fresh `{}` creates exactly the first name. */
  lemma FreshKeys(segs: seq<Segment>, x: Value)
    requires |segs| > 0
    ensures Set(Map([]), segs, x).Ok? && Keys(Set(Map([]), segs, x).value.entries) == [segs[0].name]
  {
    FreshDescendable(segs);
    SetOkIff(Map([]), segs, x);
  }

  /** Later rules on the same path win: writing twice is writing the second value. */
  lemma {:induction false} SetTwice(v: Value, segs: seq<Segment>, x1: Value, x2: Value)
    requires |segs| > 0 && Set(v, segs, x1).Ok?
    ensures Set(Set(v, segs, x1).value, segs, x2) == Set(v, segs, x2)
    decreases |segs|, 1
  {
    match segs[0]
    case Key(k) => SetKeyTwice(v, k, segs, x1, x2);
    case Slot(n, i) => SetSlotTwice(v, n, i, segs, x1, x2);
  }

  lemma {:induction false} SetKeyTwice(v: Value, k: string, segs: seq<Segment>, x1: Value, x2: Value)
    requires |segs| > 0 && segs[0] == Key(k) && Set(v, segs, x1).Ok?
    ensures Set(Set(v, segs, x1).value, segs, x2) == Set(v, segs, x2)
    decreases |segs|, 0
  {
    var es := v.entries;
    var r1 := Set(v, segs, x1).value;
    if |segs| == 1 {
      PutPut(es, k, x1, x2);
    } else {
      var c := Next(es, segs[0]);
      var c1 := Set(c, segs[1..], x1).value;
      assert Next(r1.entries, segs[0]) == c1;
      SetTwice(c, segs[1..], x1, x2);
      if Set(c, segs[1..], x2).Ok? {
        PutPut(es, k, c1, Set(c, segs[1..], x2).value);
      }
    }
  }

  lemma {:induction false} SetSlotTwice(v: Value, n: string, i: nat, segs: seq<Segment>, x1: Value, x2: Value)
    requires |segs| > 0 && segs[0] == Slot(n, i) && Set(v, segs, x1).Ok?
    ensures Set(Set(v, segs, x1).value, segs, x2) == Set(v, segs, x2)
    decreases |segs|, 0
  {
    if |segs| == 1 {
      SetLeafTwice(v, n, i, segs, x1, x2);
    } else {
      var es := v.entries;
      var r1 := Set(v, segs, x1).value;
      var items := Pad(ListAt(es, n), i + 1, Map([]));
      var c1 := Set(items[i], segs[1..], x1).value;
      var l1 := items[i := c1];
      assert ListAt(r1.entries, n) == l1;
      assert Pad(l1, i + 1, Map([])) == l1;
      SetTwice(items[i], segs[1..], x1, x2);
      if Set(items[i], segs[1..], x2).Ok? {
        var c2 := Set(items[i], segs[1..], x2).value;
        assert l1[i := c2] == items[i := c2];
        PutPut(es, n, List(l1), List(l1[i := c2]));
      }
    }
  }

  /** A slot as the last segment: the second write lands on the padded list of the first. */
  lemma SetLeafTwice(v: Value, n: string, i: nat, segs: seq<Segment>, x1: Value, x2: Value)
    requires segs == [Slot(n, i)] && Set(v, segs, x1).Ok?
    ensures Set(Set(v, segs, x1).value, segs, x2) == Set(v, segs, x2)
  {
    var es := v.entries;
    var r1 := Set(v, segs, x1).value;
    var l1 := Pad(ListAt(es, n), i + 1, Null)[i := x1];
    assert ListAt(r1.entries, n) == l1;
    assert Pad(l1, i + 1, Null) == l1;
    assert l1[i := x2] == Pad(ListAt(es, n), i + 1, Null)[i := x2];
    PutPut(es, n, List(l1), List(l1[i := x2]));
  }

  /** A write keeps every dict a proper dict when the written value is one. */
  lemma {:induction false} SetWellFormed(v: Value, segs: seq<Segment>, x: Value)
    requires |segs| > 0 && WellFormed(v) && WellFormed(x) && Set(v, segs, x).Ok?
    ensures WellFormed(Set(v, segs, x).value)
    decreases |segs|, 1
  {
    match segs[0]
    case Key(k) => SetKeyWellFormed(v, k, segs, x);
    case Slot(n, i) => SetSlotWellFormed(v, n, i, segs, x);
  }

  lemma {:induction false} SetKeyWellFormed(v: Value, k: string, segs: seq<Segment>, x: Value)
    requires |segs| > 0 && segs[0] == Key(k)
    requires WellFormed(v) && WellFormed(x) && Set(v, segs, x).Ok?
    ensures WellFormed(Set(v, segs, x).value)
    decreases |segs|, 0
  {
    var es := v.entries;
    if |segs| == 1 {
      assert Set(v, segs, x) == Ok(Map(Put(es, k, x)));
      PutWellFormed(es, k, x);
    } else {
      var c := Set(Next(es, segs[0]), segs[1..], x);
      assert Set(v, segs, x) == Ok(Map(Put(es, k, c.value)));
      NextWellFormed(es, segs[0]);
      SetWellFormed(Next(es, segs[0]), segs[1..], x);
      PutWellFormed(es, k, c.value);
    }
  }

  lemma {:induction false} SetSlotWellFormed(v: Value, n: string, i: nat, segs: seq<Segment>, x: Value)
    requires |segs| > 0 && segs[0] == Slot(n, i)
    requires WellFormed(v) && WellFormed(x) && Set(v, segs, x).Ok?
    ensures WellFormed(Set(v, segs, x).value)
    decreases |segs|, 0
  {
    var es := v.entries;
    ListAtWellFormed(es, n);
    if |segs| == 1 {
      var l := Pad(ListAt(es, n), i + 1, Null);
      assert Set(v, segs, x) == Ok(Map(Put(es, n, List(l[i := x]))));
      ListWellFormed(l, i, x);
      PutWellFormed(es, n, List(l[i := x]));
    } else {
      var items := Pad(ListAt(es, n), i + 1, Map([]));
      var c := Set(items[i], segs[1..], x);
      assert Set(v, segs, x) == Ok(Map(Put(es, n, List(items[i := c.value]))));
      assert WellFormed(items[i]);
      SetWellFormed(items[i], segs[1..], x);
      ListWellFormed(items, i, c.value);
      PutWellFormed(es, n, List(items[i := c.value]));
    }
  }

  lemma PutWellFormed(es: seq<(string, Value)>, k: string, nv: Value)
    requires WellFormed(Map(es)) && WellFormed(nv)
    ensures WellFormed(Map(Put(es, k, nv)))
  {
    PutNoDup(es, k, nv);
    PutValues(es, k, nv, WellFormed);
  }

  lemma ListWellFormed(l: seq<Value>, i: nat, y: Value)
    requires i < |l| && WellFormed(y) && forall j :: 0 <= j < |l| ==> WellFormed(l[j])
    ensures WellFormed(List(l[i := y]))
  {
  }

  lemma ListAtWellFormed(es: seq<(string, Value)>, n: string)
    requires forall i :: 0 <= i < |es| ==> WellFormed(es[i].1)
    ensures forall j :: 0 <= j < |ListAt(es, n)| ==> WellFormed(ListAt(es, n)[j])
  {
    LookupWellFormed(es, n);
  }

  lemma NextWellFormed(es: seq<(string, Value)>, g: Segment)
    requires forall i :: 0 <= i < |es| ==> WellFormed(es[i].1)
    ensures WellFormed(Next(es, g))
  {
    LookupWellFormed(es, g.name);
    ListAtWellFormed(es, g.name);
  }

  lemma {:induction false} LookupWellFormed(es: seq<(string, Value)>, k: string)
    requires forall i :: 0 <= i < |es| ==> WellFormed(es[i].1)
    ensures Lookup(es, k).Some? ==> WellFormed(Lookup(es, k).value)
  {
    if es != [] && es[0].0 != k {
      LookupWellFormed(es[1..], k);
    }
  }

  /** A slot past the end of a missing list: `a[2]` on `{}` gives `a = [None, None, x]`. */
  lemma PadExample(x: Value)
    ensures SetPath(Map([]), "a[2]", x) == Ok(Map([("a", List([Null, Null, x]))]))
  {
    var segs := Segments(SplitPath("a[2]"));
    SlotPathExample();
    PadEmpty();
    assert ListAt([], "a") == [];
    var l := [Null, Null, Null][2 := x];
    assert l == [Null, Null, x];
    assert Set(Map([]), segs, x) == Ok(Map(Put([], "a", List(l))));
  }

  lemma SlotPathExample()
    ensures Segments(SplitPath("a[2]")) == [Slot("a", 2)]
  {
    SplitNoDot("a[2]");
    SlotPieceExample();
  }

  lemma SlotPieceExample()
    ensures ParseSegment("a[2]") == Slot("a", 2)
  {
    SlotPieceLayout();
    ParseSegmentSlot("a[2]", 1, 1);
    DigitsTwo();
  }

  lemma SlotPieceLayout()
    ensures var p := "a[2]";
      && IsWordChar(p[0]) && p[1] == '[' && IsDigit(p[2]) && p[3] == ']'
      && p[..1] == "a" && p[2..3] == "2"
  {
  }

  lemma DigitsTwo()
    ensures DigitsValue("2") == 2
  {
    assert "2"[..0] == "";
  }

  lemma PadEmpty()
    ensures Pad([], 3, Null) == [Null, Null, Null]
  {
  }

}
