/**
 * Request bodies and document fields as JSON values. A body keeps its keys in
 * insertion order, the order `Object.keys` enumerates them in.
 */
module Json {
  import opened Wrappers

  datatype Value =
    | Text(s: string)
    | Number(n: int)
    | Flag(b: bool)
    | ObjectId(id: nat)
    | TextList(items: seq<string>)
    | Binary(bytes: seq<bv8>)

  /** A parsed request body: key/value pairs in insertion order. */
  type Body = seq<(string, Value)>

  /** `Object.keys(body)`. */
  function Keys(body: Body): (ks: seq<string>)
    ensures |ks| == |body| && forall i :: 0 <= i < |body| ==> ks[i] == body[i].0
  {
    seq(|body|, i requires 0 <= i < |body| => body[i].0)
  }

  /** A JavaScript object never holds a key twice. */
  ghost predicate DistinctKeys(body: Body) {
    forall i, j :: 0 <= i < j < |body| ==> body[i].0 != body[j].0
  }

  /** `body[key]`, or None when the key is absent. */
  function Lookup(body: Body, key: string): (r: Option<Value>)
    ensures r.None? <==> key !in Keys(body)
    ensures r.Some? ==> (key, r.value) in body
  {
    if body == [] then None
    else if body[0].0 == key then Some(body[0].1)
    else
      assert Keys(body) == [body[0].0] + Keys(body[1..]);
      Lookup(body[1..], key)
  }

  /** Every key that is not the first one is looked up in the rest of the body. */
  lemma LookupTail(body: Body, key: string)
    requires body != [] && body[0].0 != key
    ensures Lookup(body, key) == Lookup(body[1..], key)
  {
  }

  /** In a body without repeated keys the first key does not occur again. */
  lemma {:induction false} FirstKeyNotInTail(body: Body)
    requires body != [] && DistinctKeys(body)
    ensures DistinctKeys(body[1..])
    ensures Lookup(body[1..], body[0].0) == None
  {
    var k := body[0].0;
    assert forall i :: 0 <= i < |body| - 1 ==> Keys(body[1..])[i] != k by {
      forall i | 0 <= i < |body| - 1 ensures Keys(body[1..])[i] != k {
        assert body[1..][i] == body[i + 1];
      }
    }
  }

  /** `keys.every(k => allowed.includes(k))`: the allow-list test of both update handlers. */
  function Every(keys: seq<string>, allowed: seq<string>): (r: bool)
    ensures r <==> forall k :: k in keys ==> k in allowed
  {
    if keys == [] then true
    else keys[0] in allowed && Every(keys[1..], allowed)
  }

  /** The body with `key` removed, keeping the order of the other pairs. */
  function Without(body: Body, key: string): (r: Body)
    ensures key !in Keys(r)
    ensures forall k :: k != key ==> Lookup(r, k) == Lookup(body, k)
    ensures DistinctKeys(body) ==> DistinctKeys(r)
  {
    if body == [] then []
    else if body[0].0 == key then Without(body[1..], key)
    else
      var rest := Without(body[1..], key);
      assert Keys([body[0]] + rest) == [body[0].0] + Keys(rest);
      assert DistinctKeys(body) ==> DistinctKeys([body[0]] + rest) by {
        if DistinctKeys(body) {
          FirstKeyNotInTail(body);
          assert body[0].0 !in Keys(rest);
        }
      }
      [body[0]] + rest
  }

  /** `{...body, key: v}`: the spread body with `key` forced to `v`. */
  function Override(body: Body, key: string, v: Value): (r: Body)
    ensures Lookup(r, key) == Some(v)
    ensures forall k :: k != key ==> Lookup(r, k) == Lookup(body, k)
    ensures DistinctKeys(body) ==> DistinctKeys(r)
  {
    var rest := Without(body, key);
    LookupAppend(rest, key, v);
    rest + [(key, v)]
  }

  /** Appending a fresh key changes no other lookup. */
  lemma {:induction false} LookupAppend(body: Body, key: string, v: Value)
    requires key !in Keys(body)
    ensures Lookup(body + [(key, v)], key) == Some(v)
    ensures forall k :: k != key ==> Lookup(body + [(key, v)], k) == Lookup(body, k)
    ensures DistinctKeys(body) ==> DistinctKeys(body + [(key, v)])
  {
    if body != [] {
      assert (body + [(key, v)])[1..] == body[1..] + [(key, v)];
      assert Keys(body) == [body[0].0] + Keys(body[1..]);
      LookupAppend(body[1..], key, v);
    }
  }
}
