/** JavaScript's `Map`: entries in insertion order, at most one per key. */
module JsMaps {
  import opened Results

  datatype Entry<K, V> = Entry(key: K, value: V)

  type JsMap<K, V> = seq<Entry<K, V>>

  function Keys<K, V>(m: JsMap<K, V>): set<K>
  {
    if m == [] then {} else {m[0].key} + Keys(m[1..])
  }

  ghost predicate Distinct<K, V>(m: JsMap<K, V>)
  {
    m == [] || (m[0].key !in Keys(m[1..]) && Distinct(m[1..]))
  }

  function Get<K(==), V>(m: JsMap<K, V>, k: K): Option<V>
  {
    if m == [] then None else if m[0].key == k then Some(m[0].value) else Get(m[1..], k)
  }

  /** An existing key keeps its position; a new one goes last. */
  function Set<K(==), V>(m: JsMap<K, V>, k: K, v: V): JsMap<K, V>
  {
    if m == [] then [Entry(k, v)]
    else if m[0].key == k then [Entry(k, v)] + m[1..]
    else [m[0]] + Set(m[1..], k, v)
  }

  function Delete<K(==), V>(m: JsMap<K, V>, k: K): JsMap<K, V>
  {
    if m == [] then [] else if m[0].key == k then m[1..] else [m[0]] + Delete(m[1..], k)
  }

  lemma {:induction false} GetSet<K, V>(m: JsMap<K, V>, k: K, v: V, k': K)
    ensures Get(Set(m, k, v), k') == if k == k' then Some(v) else Get(m, k')
  {
    if m != [] && m[0].key != k { GetSet(m[1..], k, v, k'); }
  }

  lemma {:induction false} GetNone<K, V>(m: JsMap<K, V>, k: K)
    ensures Get(m, k).None? <==> k !in Keys(m)
  {
    if m != [] { GetNone(m[1..], k); }
  }

  lemma {:induction false} SetKeepsDistinct<K, V>(m: JsMap<K, V>, k: K, v: V)
    requires Distinct(m)
    ensures Distinct(Set(m, k, v)) && Keys(Set(m, k, v)) == Keys(m) + {k}
    ensures k in Keys(m) ==> |Set(m, k, v)| == |m|
    ensures k !in Keys(m) ==> Set(m, k, v) == m + [Entry(k, v)]
  {
    if m != [] {
      SetKeepsDistinct(m[1..], k, v);
      assert Set(m, k, v)[1..] == if m[0].key == k then m[1..] else Set(m[1..], k, v);
    }
  }

  /** Setting a key that is there overwrites its entry in place. */
  lemma {:induction false} SetInPlace<K, V>(m: JsMap<K, V>, k: K, v: V, i: nat)
    requires i < |m| && m[i].key == k && Distinct(m)
    ensures Set(m, k, v) == m[i := Entry(k, v)]
  {
    if i > 0 {
      KeyIsIn(m[1..], i - 1);
      SetInPlace(m[1..], k, v, i - 1);
      assert m == [m[0]] + m[1..];
    }
  }

  lemma {:induction false} KeyIsIn<K, V>(m: JsMap<K, V>, i: nat)
    requires i < |m|
    ensures m[i].key in Keys(m)
  {
    if i > 0 { KeyIsIn(m[1..], i - 1); }
  }

  lemma {:induction false} DeleteKeepsDistinct<K, V>(m: JsMap<K, V>, k: K)
    requires Distinct(m)
    ensures Distinct(Delete(m, k)) && Keys(Delete(m, k)) == Keys(m) - {k}
  {
    if m != [] {
      DeleteKeepsDistinct(m[1..], k);
      if m[0].key != k { assert Delete(m, k)[1..] == Delete(m[1..], k); }
    }
  }

  lemma {:induction false} GetDelete<K, V>(m: JsMap<K, V>, k: K, k': K)
    requires Distinct(m)
    ensures Get(Delete(m, k), k') == if k == k' then None else Get(m, k')
  {
    if m != [] {
      if m[0].key == k { GetNone(m[1..], k); } else { GetDelete(m[1..], k, k'); }
    }
  }

  /** Adding a fresh key and deleting it again restores the map, order included. */
  lemma {:induction false} DeleteUndoesSet<K, V>(m: JsMap<K, V>, k: K, v: V)
    requires Get(m, k).None?
    ensures Delete(Set(m, k, v), k) == m
  {
    if m != [] { DeleteUndoesSet(m[1..], k, v); }
  }
}
