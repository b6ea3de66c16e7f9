/**
 * A JavaScript plain object used as a dictionary: string keys mapped to
 * values, enumerated (by `Object.keys`) in the order the keys were first
 * inserted. Assigning to an existing key replaces its value and keeps its
 * place.
 */
module Dict {

  datatype Dict<V> = Dict(keys: seq<string>, vals: map<string, V>) {

    /** Keys are listed once each, and exactly the mapped ones are listed. */
    ghost predicate Valid() {
      (forall i, j :: 0 <= i < j < |keys| ==> keys[i] != keys[j]) &&
      (forall k :: k in vals <==> k in keys)
    }

    /** `obj[k] = v`: a new key goes to the end of the enumeration order. */
    function Put(k: string, v: V): Dict<V> {
      if k in vals then Dict(keys, vals[k := v]) else Dict(keys + [k], vals[k := v])
    }

    /** `Object.keys(obj).map(k => obj[k])`. */
    function Values(): seq<V>
      decreases |keys|
    {
      if keys == [] then []
      else (if keys[0] in vals then [vals[keys[0]]] else []) + Dict(keys[1..], vals).Values()
    }
  }

  /** `{}`. */
  function Empty<V>(): Dict<V> {
    Dict([], map[])
  }

  lemma EmptyValid<V>()
    ensures Empty<V>().Valid() && Empty<V>().Values() == []
  {}

  /** Writing a key keeps the dictionary well formed, appends only a new key, and changes only that key's value. */
  lemma PutValid<V>(d: Dict<V>, k: string, v: V)
    requires d.Valid()
    ensures d.Put(k, v).Valid()
    ensures d.Put(k, v).vals == d.vals[k := v]
    ensures k in d.keys ==> d.Put(k, v).keys == d.keys
    ensures k !in d.keys ==> d.Put(k, v).keys == d.keys + [k]
  {}

  /** The values of a well-formed dictionary, one per key, in key order. */
  lemma {:induction false} ValuesInOrder<V>(d: Dict<V>)
    requires d.Valid()
    ensures |d.Values()| == |d.keys|
    ensures forall i :: 0 <= i < |d.keys| ==> d.Values()[i] == d.vals[d.keys[i]]
    decreases |d.keys|
  {
    if d.keys != [] {
      var tail := d.keys[1..];
      var rest := Dict(tail, d.vals - {d.keys[0]});
      RestValid(d);
      ValuesInOrder(rest);
      ValuesCons(d);
      forall i | 0 <= i < |d.keys|
        ensures d.Values()[i] == d.vals[d.keys[i]]
      {
        if i > 0 {
          assert d.keys[i] == tail[i - 1];
        }
      }
    }
  }

  /** Dropping the first key (and its value) leaves a well-formed dictionary. */
  lemma RestValid<V>(d: Dict<V>)
    requires d.Valid() && d.keys != []
    ensures Dict(d.keys[1..], d.vals - {d.keys[0]}).Valid()
  {
    var tail := d.keys[1..];
    forall k ensures k in d.vals - {d.keys[0]} <==> k in tail {
      if k in tail {
        var j :| 0 <= j < |tail| && tail[j] == k;
        assert d.keys[j + 1] == k;
      }
    }
  }

  /** The values start with the first key's value, followed by those of the rest. */
  lemma ValuesCons<V>(d: Dict<V>)
    requires d.Valid() && d.keys != []
    ensures d.Values() == [d.vals[d.keys[0]]] + Dict(d.keys[1..], d.vals - {d.keys[0]}).Values()
  {
    ValuesIgnoreUnlisted(d.keys[1..], d.vals, d.vals - {d.keys[0]});
  }

  lemma {:induction false} ValuesIgnoreUnlisted<V>(keys: seq<string>, a: map<string, V>, b: map<string, V>)
    requires forall k :: k in keys ==> (k in a <==> k in b) && (k in a ==> a[k] == b[k])
    ensures Dict(keys, a).Values() == Dict(keys, b).Values()
    decreases |keys|
  {
    if keys != [] {
      ValuesIgnoreUnlisted(keys[1..], a, b);
    }
  }
}
