/**
 * The local-storage keys of the search index. A namespace lets several
 * sites on one origin keep separate indexes; a falsy namespace (undefined,
 * null or the empty string, all written `""` here) selects the bare key.
 */
module StorageKeys {

  const ExpireKey: string := "docsify.search.expires"
  const IndexKey: string := "docsify.search.index"

  /** `key` alone for no namespace, else `key + "/" + namespace`. */
  function Namespaced(key: string, namespace: string): (r: string)
    ensures namespace == "" ==> r == key
    ensures namespace != "" ==>
      |r| == |key| + 1 + |namespace| && r[..|key|] == key && r[|key|] == '/' && r[|key| + 1..] == namespace
  {
    if namespace == "" then key else key + "/" + namespace
  }

  function ResolveExpireKey(namespace: string): (r: string)
    ensures namespace == "" ==> r == ExpireKey
    ensures namespace != "" ==> r == ExpireKey + "/" + namespace
  {
    Namespaced(ExpireKey, namespace)
  }

  function ResolveIndexKey(namespace: string): (r: string)
    ensures namespace == "" ==> r == IndexKey
    ensures namespace != "" ==> r == IndexKey + "/" + namespace
  {
    Namespaced(IndexKey, namespace)
  }

  /** Different namespaces never share a key. */
  lemma NamespacedInjective(key: string, a: string, b: string)
    requires Namespaced(key, a) == Namespaced(key, b)
    ensures a == b
  {
    var ra, rb := Namespaced(key, a), Namespaced(key, b);
    if a != "" && b != "" {
      assert a == ra[|key| + 1..] == rb[|key| + 1..] == b;
    }
  }

  lemma ResolveKeysInjective(a: string, b: string)
    ensures ResolveExpireKey(a) == ResolveExpireKey(b) <==> a == b
    ensures ResolveIndexKey(a) == ResolveIndexKey(b) <==> a == b
  {
    if ResolveExpireKey(a) == ResolveExpireKey(b) {
      NamespacedInjective(ExpireKey, a, b);
    }
    if ResolveIndexKey(a) == ResolveIndexKey(b) {
      NamespacedInjective(IndexKey, a, b);
    }
  }

  /** The expiry stamp and the index itself never overwrite each other, whatever the namespaces. */
  lemma ExpireAndIndexApart(a: string, b: string)
    ensures ResolveExpireKey(a) != ResolveIndexKey(b)
  {
    var e, i := ResolveExpireKey(a), ResolveIndexKey(b);
    assert e[15] == ExpireKey[15] == 'e';
    assert i[15] == IndexKey[15] == 'i';
  }
}
