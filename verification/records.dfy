/**
 * JavaScript objects used as dictionaries (`meta.keep`, `meta.sha1`, the
 * parsed form data): own properties kept in insertion order, each key at most once. Iterating with `for (const key in record)`
 * visits the entries front to back; assigning `record[key] = value`
 * overwrites an existing property in place or appends a new one.
 */
module Records {
  import opened Wrappers

  /** One own property. */
  datatype Entry<K, V> = Entry(key: K, value: V)

  /** The own properties of an object, in iteration order. */
  type Record<K, V> = seq<Entry<K, V>>

  /** No key appears twice: true of every object the program builds. */
  predicate UniqueKeys<K(==), V>(r: Record<K, V>) {
    forall i, j :: 0 <= i < j < |r| ==> r[i].key != r[j].key
  }

  /** No value appears twice. */
  predicate UniqueValues<K, V(==)>(r: Record<K, V>) {
    forall i, j :: 0 <= i < j < |r| ==> r[i].value != r[j].value
  }

  function Keys<K(==), V>(r: Record<K, V>): set<K> {
    set i | 0 <= i < |r| :: r[i].key
  }

  function Values<K, V(==)>(r: Record<K, V>): set<V> {
    set i | 0 <= i < |r| :: r[i].value
  }

  /** Position of the first entry at or after `from` whose key is `k`. */
  function KeyIndex<K(==), V>(r: Record<K, V>, k: K, from: nat): (o: Option<nat>)
    ensures o.Some? ==> from <= o.value < |r| && r[o.value].key == k
    ensures forall j :: from <= j < |r| && r[j].key == k ==> o.Some? && o.value <= j
    decreases |r| - from
  {
    if from >= |r| then None
    else if r[from].key == k then Some(from)
    else KeyIndex(r, k, from + 1)
  }

  /** Position of the first entry at or after `from` whose value is `v`. */
  function ValueIndex<K, V(==)>(r: Record<K, V>, v: V, from: nat): (o: Option<nat>)
    ensures o.Some? ==> from <= o.value < |r| && r[o.value].value == v
    ensures forall j :: from <= j < |r| && r[j].value == v ==> o.Some? && o.value <= j
    decreases |r| - from
  {
    if from >= |r| then None
    else if r[from].value == v then Some(from)
    else ValueIndex(r, v, from + 1)
  }

  /** `record[k]`: the value stored under `k`, nothing when `k` is not a key. */
  function Get<K(==), V>(r: Record<K, V>, k: K): (o: Option<V>)
    ensures o.None? <==> k !in Keys(r)
    ensures o.Some? ==> Entry(k, o.value) in r
    ensures UniqueKeys(r) ==> forall i :: 0 <= i < |r| && r[i].key == k ==> o == Some(r[i].value)
  {
    match KeyIndex(r, k, 0)
    case None => None
    case Some(i) => Some(r[i].value)
  }

  /**
   * `record[k] = v`: afterwards `k` holds `v` and every other key holds what
   * it held before; an existing key keeps its place, a new key goes last.
   */
  function Set<K(==, !new), V>(r: Record<K, V>, k: K, v: V): (r': Record<K, V>)
    ensures Get(r', k) == Some(v)
    ensures forall k' :: k' != k ==> Get(r', k') == Get(r, k')
    ensures Keys(r') == Keys(r) + {k}
    ensures UniqueKeys(r) ==> UniqueKeys(r')
    ensures k in Keys(r) ==> |r'| == |r| && forall i :: 0 <= i < |r| ==> r'[i].key == r[i].key
    ensures k !in Keys(r) ==> r' == r + [Entry(k, v)]
    ensures forall e :: e in r' ==> e == Entry(k, v) || e in r
    ensures Values(r') <= Values(r) + {v}
  {
    SetKeepsOtherKeys(r, k, v);
    match KeyIndex(r, k, 0)
    case Some(i) => r[i := Entry(k, v)]
    case None => r + [Entry(k, v)]
  }

  /** The proof obligations of `Set`, one key at a time. */
  lemma SetKeepsOtherKeys<K(!new), V>(r: Record<K, V>, k: K, v: V)
    ensures var r' := match KeyIndex(r, k, 0)
                      case Some(i) => r[i := Entry(k, v)]
                      case None => r + [Entry(k, v)];
            && Get(r', k) == Some(v)
            && (forall k' :: k' != k ==> Get(r', k') == Get(r, k'))
            && Keys(r') == Keys(r) + {k}
  {
    match KeyIndex(r, k, 0)
    case Some(i) =>
      var r' := r[i := Entry(k, v)];
      assert forall j :: 0 <= j < |r| ==> r'[j].key == r[j].key;
      assert Keys(r') == Keys(r) + {k};
      forall k' ensures Get(r', k') == (if k' == k then Some(v) else Get(r, k')) {
        SameKeysSameIndex(r, r', k');
      }
    case None =>
      var r' := r + [Entry(k, v)];
      assert r'[|r|].key == k;
      assert forall j :: 0 <= j < |r| ==> r'[j] == r[j];
      assert Keys(r') == Keys(r) + {k};
      assert KeyIndex(r', k, 0) == Some(|r|);
      forall k' | k' != k ensures Get(r', k') == Get(r, k') {
        match KeyIndex(r, k', 0)
        case None =>
        case Some(j) => assert KeyIndex(r', k', 0) == Some(j);
      }
  }

  /** Two records with the same key sequence find every key at the same place. */
  lemma SameKeysSameIndex<K, V>(r: Record<K, V>, r': Record<K, V>, k: K)
    requires |r| == |r'|
    requires forall j :: 0 <= j < |r| ==> r'[j].key == r[j].key
    ensures KeyIndex(r', k, 0) == KeyIndex(r, k, 0)
  {
    match KeyIndex(r, k, 0)
    case None =>
    case Some(i) => assert KeyIndex(r', k, 0) == Some(i);
  }

  /**
   * `by_value(record, v)`: the key of the first entry, in iteration order,
   * whose value is `v`; nothing when no value equals `v`.
   */
  function ByValue<K, V(==)>(r: Record<K, V>, v: V): (o: Option<K>)
    ensures o.None? <==> v !in Values(r)
    ensures o.Some? ==>
      exists i :: 0 <= i < |r| && r[i] == Entry(o.value, v) && forall j :: 0 <= j < i ==> r[j].value != v
  {
    match ValueIndex(r, v, 0)
    case None => None
    case Some(i) => Some(r[i].key)
  }

  /** With unique keys, the key `ByValue` reports does hold that value. */
  lemma ByValueIsLookup<K, V>(r: Record<K, V>, v: V)
    requires UniqueKeys(r)
    requires ByValue(r, v).Some?
    ensures Get(r, ByValue(r, v).value) == Some(v)
  {
    var k := ByValue(r, v).value;
    assert Entry(k, v) in r;
  }

  /**
   * When keys and values are both unique the record is a bijection, and
   * `ByValue` is exactly its inverse.
   */
  lemma ByValueInvertsGet<K, V>(r: Record<K, V>, k: K, v: V)
    requires UniqueKeys(r) && UniqueValues(r)
    ensures ByValue(r, v) == Some(k) <==> Get(r, k) == Some(v)
  {
    if Get(r, k) == Some(v) {
      var i :| 0 <= i < |r| && r[i] == Entry(k, v);
      var b := ByValue(r, v);
      assert v in Values(r);
      var i' :| 0 <= i' < |r| && r[i'] == Entry(b.value, v);
      assert i == i';
    }
    if ByValue(r, v) == Some(k) {
      ByValueIsLookup(r, v);
    }
  }
}
