/**
 JavaScript plain objects used as dictionaries: string keys, each at most
 once, enumerated by `Object.keys` in insertion order.  Assigning to a key
 that is already present replaces its value in place; assigning to a new key
 appends it at the end.
 */
module JsObjects {

  datatype Option<+T> = None | Some(value: T)

  /** No key occurs twice. */
  predicate DistinctKeys<V>(entries: seq<(string, V)>)
  {
    forall i, j :: 0 <= i < j < |entries| ==> entries[i].0 != entries[j].0
  }

  /** A JavaScript object: its own enumerable properties in insertion order. */
  type Object<V> = entries: seq<(string, V)> | DistinctKeys(entries) witness []

  /** `Object.keys(o)`. */
  function Keys<V>(o: seq<(string, V)>): (ks: seq<string>)
    ensures |ks| == |o|
    ensures forall i :: 0 <= i < |o| ==> ks[i] == o[i].0
  {
    seq(|o|, i requires 0 <= i < |o| => o[i].0)
  }

  /** `o[k]`; `None` stands for `undefined`, a key the object does not have. */
  function Get<V>(o: seq<(string, V)>, k: string): (r: Option<V>)
    ensures r.None? <==> k !in Keys(o)
  {
    if o == [] then None
    else if o[0].0 == k then Some(o[0].1)
    else Get(o[1..], k)
  }

  /** Reading the key stored at position `i` yields the value stored there. */
  lemma {:induction false} GetAt<V>(o: Object<V>, i: nat)
    requires i < |o|
    ensures Get(o, o[i].0) == Some(o[i].1)
  {
    if i > 0 {
      assert o[0].0 != o[i].0;
      GetAt(o[1..], i - 1);
    }
  }

  /** Prepending an entry whose key is new keeps the keys distinct. */
  lemma ConsDistinct<V>(e: (string, V), rest: Object<V>)
    requires e.0 !in Keys(rest)
    ensures DistinctKeys([e] + rest)
  {
    forall i, j | 0 <= i < j < |[e] + rest|
      ensures ([e] + rest)[i].0 != ([e] + rest)[j].0
    {
      if i == 0 {
        assert ([e] + rest)[j].0 == Keys(rest)[j - 1];
      }
    }
  }

  /** Keys and lookups of an object with one more entry in front. */
  lemma Cons<V>(e: (string, V), rest: seq<(string, V)>)
    ensures Keys([e] + rest) == [e.0] + Keys(rest)
    ensures forall k :: Get([e] + rest, k) == if e.0 == k then Some(e.1) else Get(rest, k)
  {
    assert ([e] + rest)[1..] == rest;
  }

  /** The entries after the first have distinct keys, none of them the first key. */
  lemma FirstKeyUnique<V>(o: Object<V>)
    requires o != []
    ensures DistinctKeys(o[1..])
    ensures o[0].0 !in Keys(o[1..])
  {
    forall j | 0 <= j < |o[1..]| ensures Keys(o[1..])[j] != o[0].0 {
      assert o[j + 1].0 != o[0].0;
    }
  }

  /** `o[k] = v`. */
  function Put<V>(o: Object<V>, k: string, v: V): (r: Object<V>)
    ensures Keys(r) == if k in Keys(o) then Keys(o) else Keys(o) + [k]
    ensures forall k' :: Get(r, k') == if k' == k then Some(v) else Get(o, k')
  {
    if o == [] then
      Cons((k, v), []);
      [(k, v)]
    else
      FirstKeyUnique(o);
      var tail: Object<V> := o[1..];
      Cons(o[0], tail);
      assert o == [o[0]] + tail;
      if o[0].0 == k then
        ConsDistinct((k, v), tail);
        Cons((k, v), tail);
        [(k, v)] + tail
      else
        var rest := Put(tail, k, v);
        ConsDistinct(o[0], rest);
        Cons(o[0], rest);
        [o[0]] + rest
  }

  /** Assignment keeps every key in its place and adds at most the assigned one. */
  lemma PutKeys<V>(o: Object<V>, k: string, v: V)
    ensures Keys(o) <= Keys(Put(o, k, v))
    ensures forall x :: x in Keys(Put(o, k, v)) <==> x in Keys(o) || x == k
  {
  }
}
