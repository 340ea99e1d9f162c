/** A JavaScript object used as a dictionary with non-numeric string keys:
    keys keep their first insertion position, and assigning to an existing
    key replaces its value in place. */
module JsObject {
  import opened Wrappers

  type Object<V> = seq<(string, V)>

  /** `Object.keys(o)`, in insertion order. */
  function Keys<V>(o: Object<V>): (ks: seq<string>)
    ensures |ks| == |o|
  {
    if |o| == 0 then [] else [o[0].0] + Keys(o[1..])
  }

  /** No key occurs twice. */
  predicate UniqueKeys<V>(o: Object<V>) {
    |o| == 0 || (o[0].0 !in Keys(o[1..]) && UniqueKeys(o[1..]))
  }

  /** `o[k]`, with `undefined` as `None`. */
  function Lookup<V>(o: Object<V>, k: string): (r: Option<V>)
    ensures r.None? <==> k !in Keys(o)
  {
    if |o| == 0 then None
    else if o[0].0 == k then Some(o[0].1)
    else Lookup(o[1..], k)
  }

  /** `o[k] = v`: the key reads back `v`, every other key is unchanged, and the
      key order only grows by `k` at the end when `k` is new. */
  function Put<V>(o: Object<V>, k: string, v: V): (r: Object<V>)
    requires UniqueKeys(o)
    ensures UniqueKeys(r)
    ensures Lookup(r, k) == Some(v)
    ensures forall k' :: k' != k ==> Lookup(r, k') == Lookup(o, k')
    ensures Keys(r) == if k in Keys(o) then Keys(o) else Keys(o) + [k]
  {
    if |o| == 0 then [(k, v)]
    else if o[0].0 == k then [(k, v)] + o[1..]
    else
      var rest := Put(o[1..], k, v);
      var r := [o[0]] + rest;
      assert r[1..] == rest;
      r
  }

  /** `Object.values(o)` (or a `Map`'s `values()`), in key order. */
  function Values<V>(o: Object<V>): (vs: seq<V>)
    ensures |vs| == |o|
  {
    if |o| == 0 then [] else [o[0].1] + Values(o[1..])
  }

  /** Every value that a key reads is listed by `Values`. */
  lemma {:induction false} LookupInValues<V>(o: Object<V>, k: string)
    requires Lookup(o, k).Some?
    ensures Lookup(o, k).value in Values(o)
  {
    if o[0].0 != k {
      LookupInValues(o[1..], k);
    }
  }
}
