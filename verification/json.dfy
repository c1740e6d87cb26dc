/** JSON-like answer values and the insertion-ordered objects that hold them.

    Answers in the questionnaire are `null`, a string, a list of option ids or
    free strings, or a list of records (the rows of a repeatable question).
    An absent key stands for JavaScript `undefined` / Python's missing key. */
module Json {

  datatype Option<+T> = None | Some(value: T)

  /** One element of an answer list: a plain string, or a record whose fields are strings. */
  datatype Item = Atom(s: string) | Rec(fields: map<string, string>)

  datatype Value = Null | Str(s: string) | List(items: seq<Item>)

  /** The text JavaScript produces when an item is converted to a string
      (by `join`, a template literal, or use as a property key). */
  function JsString(it: Item): string
  {
    match it
    case Atom(s) => s
    case Rec(_) => "[object Object]"
  }

  /** JavaScript `Boolean(v)`: an empty string and null are falsy, every array is truthy. */
  predicate JsTruthy(v: Option<Value>)
  {
    match v
    case None => false
    case Some(Null) => false
    case Some(Str(s)) => s != ""
    case Some(List(_)) => true
  }

  /** Python truthiness: None, "" and [] are falsy. */
  predicate PyTruthy(v: Option<Value>)
  {
    match v
    case None => false
    case Some(Null) => false
    case Some(Str(s)) => s != ""
    case Some(List(items)) => items != []
  }

  lemma PyTruthyImpliesJsTruthy(v: Option<Value>)
    ensures PyTruthy(v) ==> JsTruthy(v)
    ensures JsTruthy(v) && !PyTruthy(v) <==> v == Some(List([]))
  {
  }

  function Keys(o: seq<(string, Value)>): set<string>
  {
    if |o| == 0 then {} else {o[0].0} + Keys(o[1..])
  }

  /** The keys of a non-empty list: its first key and the keys of the rest. */
  lemma KeysCons(o: seq<(string, Value)>)
    requires |o| > 0
    ensures Keys(o) == {o[0].0} + Keys(o[1..])
  {
  }

  predicate DistinctKeys(o: seq<(string, Value)>)
  {
    |o| == 0 || (o[0].0 !in Keys(o[1..]) && DistinctKeys(o[1..]))
  }

  /** A JavaScript object or Python dict: entries in insertion order, keys distinct. */
  type Obj = o: seq<(string, Value)> | DistinctKeys(o) witness []

  /** The entries after the first: an object again. */
  function Rest(o: Obj): (r: Obj)
    requires |o| > 0
    ensures r == o[1..] && |r| == |o| - 1
  {
    o[1..]
  }

  /** Property lookup; `None` is an absent key. */
  function Get(o: seq<(string, Value)>, k: string): (r: Option<Value>)
    ensures r.Some? <==> k in Keys(o)
  {
    if |o| == 0 then None
    else if o[0].0 == k then Some(o[0].1)
    else Get(o[1..], k)
  }

  lemma {:induction false} KeysIndex(o: seq<(string, Value)>, i: nat)
    requires i < |o|
    ensures o[i].0 in Keys(o)
  {
    if i > 0 {
      assert o[1..][i - 1] == o[i];
      KeysIndex(o[1..], i - 1);
    }
  }

  /** In an object, every entry is what a lookup of its key returns. */
  lemma {:induction false} GetDistinct(o: Obj, i: nat)
    requires i < |o|
    ensures Get(o, o[i].0) == Some(o[i].1)
  {
    if i > 0 {
      var tail := Rest(o);
      assert tail[i - 1] == o[i];
      GetDistinct(tail, i - 1);
      KeysIndex(tail, i - 1);
    }
  }

  /** `o[k] = v`: an existing key keeps its position, a new key goes last. */
  function Set(o: Obj, k: string, v: Value): (r: Obj)
    ensures Get(r, k) == Some(v)
    ensures forall k' | k' != k :: Get(r, k') == Get(o, k')
    ensures Keys(r) == Keys(o) + {k}
    ensures k in Keys(o) ==> |r| == |o|
    ensures k !in Keys(o) ==> r == o + [(k, v)]
  {
    if |o| == 0 then
      var r := [(k, v)];
      assert r[1..] == [];
      r
    else if o[0].0 == k then
      var r := [(k, v)] + o[1..];
      assert r[1..] == o[1..];
      r
    else
      var tail := Rest(o);
      var rest := Set(tail, k, v);
      var r := [o[0]] + rest;
      assert r[0] == o[0] && r[1..] == rest;
      assert o == [o[0]] + tail;
      r
  }
}
