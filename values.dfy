/** The Python values the hook handles (JSON rule values and the loaded YAML
    document), and the insertion-ordered `dict` operations it relies on. */
module Values {
  import opened Text

  datatype Option<T> = None | Some(value: T)

  /** A computation that either yields a value or raises (the hook does not catch
      its exceptions, so a raise ends the whole run). */
  datatype Result<T> = Ok(value: T) | Err(error: string)

  /** A Python object as the hook sees it: `None`, `bool`, `int`, `str`, `list`,
      or `dict` with string keys kept in insertion order. */
  datatype Value =
    | Null
    | Bool(b: bool)
    | Int(i: int)
    | Str(s: string)
    | List(items: seq<Value>)
    | Map(entries: seq<(string, Value)>)

  /** The keys of an ordered dict, in iteration order. */
  function Keys<V>(es: seq<(string, V)>): (ks: seq<string>)
    ensures |ks| == |es| && forall i :: 0 <= i < |es| ==> ks[i] == es[i].0
  {
    if es == [] then [] else [es[0].0] + Keys(es[1..])
  }

  /** Python dicts never hold a key twice. */
  predicate NoDupKeys<V>(es: seq<(string, V)>) {
    forall i, j :: 0 <= i < j < |es| ==> es[i].0 != es[j].0
  }

  /** `d.get(k)`: the value stored under `k`, if any. */
  function Lookup<V>(es: seq<(string, V)>, k: string): (r: Option<V>)
    ensures r.None? <==> k !in Keys(es)
  {
    if es == [] then None else if es[0].0 == k then Some(es[0].1) else Lookup(es[1..], k)
  }

  /** `d[k] = v`: an existing key keeps its position and takes the new value, a new
      key goes at the end; every other key keeps its value. */
  function Put<V>(es: seq<(string, V)>, k: string, v: V): (r: seq<(string, V)>)
    ensures Lookup(r, k) == Some(v)
    ensures forall k' :: k' != k ==> Lookup(r, k') == Lookup(es, k')
    ensures Keys(r) == if k in Keys(es) then Keys(es) else Keys(es) + [k]
  {
    if es == [] then [(k, v)]
    else if es[0].0 == k then
      var r := [(k, v)] + es[1..];
      assert r[1..] == es[1..];
      r
    else
      var rest := Put(es[1..], k, v);
      var r := [es[0]] + rest;
      assert r[1..] == rest;
      assert Keys(es) == [es[0].0] + Keys(es[1..]);
      r
  }

  lemma PutNoDup<V>(es: seq<(string, V)>, k: string, v: V)
    requires NoDupKeys(es)
    ensures NoDupKeys(Put(es, k, v))
  {
    var r := Put(es, k, v);
    var ks := Keys(r);
    if k in Keys(es) {
      assert Keys(r) == Keys(es);
    } else {
      assert Keys(r) == Keys(es) + [k];
    }
    forall i, j | 0 <= i < j < |r| ensures r[i].0 != r[j].0 {
      assert ks[i] == r[i].0 && ks[j] == r[j].0;
    }
  }

  lemma KeysOfNoDup<V>(es: seq<(string, V)>, i: nat)
    requires NoDupKeys(es) && i < |es|
    ensures Lookup(es, es[i].0) == Some(es[i].1)
  {
    if i > 0 {
      KeysOfNoDup(es[1..], i - 1);
    }
  }

  /** Assigning the same key twice leaves only the second assignment. */
  lemma {:induction false} PutPut<V>(es: seq<(string, V)>, k: string, a: V, b: V)
    ensures Put(Put(es, k, a), k, b) == Put(es, k, b)
  {
    if es != [] && es[0].0 != k {
      PutPut(es[1..], k, a, b);
      var r := Put(es, k, a);
      assert r[0] == es[0] && r[1..] == Put(es[1..], k, a);
    }
  }

  /** Storing the value a key already holds changes nothing. */
  lemma {:induction false} PutSame<V>(es: seq<(string, V)>, k: string, v: V)
    requires Lookup(es, k) == Some(v)
    ensures Put(es, k, v) == es
  {
    if es[0].0 != k {
      PutSame(es[1..], k, v);
    }
  }

  /** Every value stored after `d[k] = v` is `v` or was stored before. */
  lemma {:induction false} PutValues<V>(es: seq<(string, V)>, k: string, v: V, P: V -> bool)
    requires forall i :: 0 <= i < |es| ==> P(es[i].1)
    requires P(v)
    ensures var r := Put(es, k, v); forall i :: 0 <= i < |r| ==> P(r[i].1)
  {
    if es != [] && es[0].0 != k {
      PutValues(es[1..], k, v, P);
      var r := Put(es, k, v);
      assert r[1..] == Put(es[1..], k, v);
      forall i | 0 <= i < |r| ensures P(r[i].1) {
        if i > 0 {
          assert r[i] == r[1..][i - 1];
        }
      }
    }
  }

  /** Every dict inside the value has distinct keys, as a Python dict must. */
  predicate WellFormed(v: Value) {
    match v
    case List(items) => forall i :: 0 <= i < |items| ==> WellFormed(items[i])
    case Map(es) => NoDupKeys(es) && forall i :: 0 <= i < |es| ==> WellFormed(es[i].1)
    case _ => true
  }

  /** Values whose `str()` the model renders: everything but lists and dicts. */
  predicate IsScalar(v: Value) {
    !v.List? && !v.Map?
  }

  /** `str(v)` for a scalar. */
  function PyStr(v: Value): (r: string)
    requires IsScalar(v)
    ensures v.Str? ==> r == v.s
  {
    match v
    case Null => "None"
    case Bool(b) => if b then "True" else "False"
    case Int(i) => IntString(i)
    case Str(s) => s
  }

  /** Python truthiness (`not x` is its negation). */
  predicate Truthy(v: Value) {
    match v
    case Null => false
    case Bool(b) => b
    case Int(i) => i != 0
    case Str(s) => s != ""
    case List(items) => items != []
    case Map(es) => es != []
  }
}
