/** The JSON-like values the crosswalks produce: Python dicts (insertion-ordered
    key/value entries), lists, strings, integers, booleans and `None`. */
module Json {
  import opened Wrappers

  datatype Value =
    | JNull
    | JBool(b: bool)
    | JInt(i: int)
    | JStr(s: string)
    | JList(items: seq<Value>)
    | JDict(entries: seq<Entry>)

  datatype Entry = Entry(key: string, val: Value)

  /** The keys of a dict, in insertion order. */
  function Keys(es: seq<Entry>): (ks: seq<string>)
    ensures |ks| == |es|
    ensures forall i :: 0 <= i < |es| ==> ks[i] == es[i].key
  {
    seq(|es|, i requires 0 <= i < |es| => es[i].key)
  }

  /** `d.get(key)`: the value stored under the first entry with that key. */
  function Get(es: seq<Entry>, key: string): (r: Option<Value>)
    ensures r.None? <==> key !in Keys(es)
    decreases |es|
  {
    if es == [] then None
    else if es[0].key == key then Some(es[0].val)
    else Get(es[1..], key)
  }

  /** The value under the first entry carrying a key. */
  lemma {:induction false} GetFirst(es: seq<Entry>, i: int)
    requires 0 <= i < |es|
    requires forall j :: 0 <= j < i ==> es[j].key != es[i].key
    ensures Get(es, es[i].key) == Some(es[i].val)
    decreases i
  {
    if i > 0 {
      GetFirst(es[1..], i - 1);
    }
  }

  /** A Python `str | None` as a JSON value. */
  function OptStr(o: Option<string>): Value {
    match o
    case Some(s) => JStr(s)
    case None => JNull
  }

  /** A Python `int | None` as a JSON value. */
  function OptInt(o: Option<int>): Value {
    match o
    case Some(i) => JInt(i)
    case None => JNull
  }

  function Strs(xs: seq<string>): (r: seq<Value>)
    ensures |r| == |xs|
    ensures forall i :: 0 <= i < |xs| ==> r[i] == JStr(xs[i])
  {
    seq(|xs|, i requires 0 <= i < |xs| => JStr(xs[i]))
  }
}
