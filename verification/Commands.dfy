/** The two commands of the replicated store, and what they do to a map of records. */
module Commands {

  import opened Wrappers

  datatype Cmd<V> = Put(key: string, value: V) | Delete(key: string)

  function Write<V>(store: map<string, V>, c: Cmd<V>): map<string, V> {
    match c
    case Put(k, v) => store[k := v]
    case Delete(k) => store - {k}
  }

  function At<V>(store: map<string, V>, k: string): Option<V> {
    if k in store then Some(store[k]) else None
  }

  lemma SameRecords<V(!new)>(a: map<string, V>, b: map<string, V>)
    requires forall k :: At(a, k) == At(b, k)
    ensures a == b
  {
    assert forall k :: k in a <==> At(a, k).Some?;
    assert forall k :: k in b <==> At(b, k).Some?;
    assert forall k :: k in a ==> At(a, k) == Some(a[k]) && At(b, k) == Some(b[k]);
  }
}
