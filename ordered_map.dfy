/** The semantics of a JavaScript `Map`: entries kept in insertion order,
    `set` on a present key overwrites its value where it stands, `set` on a
    new key appends it, `delete` cuts the entry out, and iteration
    (`values()`, `entries()`) follows that order. Every map the chat server
    builds has distinct keys (`DistinctKeys`), which `Set` and `Delete` keep. */
module OrderedMap {
  import opened Common

  datatype Entry<K, V> = Entry(key: K, val: V)

  /** `Array.from(map.keys())` */
  function Keys<K, V>(m: seq<Entry<K, V>>): seq<K>
  {
    seq(|m|, i requires 0 <= i < |m| => m[i].key)
  }

  /** `Array.from(map.values())` */
  function Values<K, V>(m: seq<Entry<K, V>>): seq<V>
  {
    seq(|m|, i requires 0 <= i < |m| => m[i].val)
  }

  predicate DistinctKeys<K(==), V>(m: seq<Entry<K, V>>)
  {
    forall i, j :: 0 <= i < j < |m| ==> m[i].key != m[j].key
  }

  /** The position of the first entry whose key is `k`, if any. */
  function Find<K(==), V>(m: seq<Entry<K, V>>, k: K): (r: Option<nat>)
    ensures r.Some? ==> r.value < |m| && m[r.value].key == k
    ensures forall i :: 0 <= i < |m| && (r.None? || i < r.value) ==> m[i].key != k
  {
    if m == [] then None
    else if m[0].key == k then Some(0)
    else match Find(m[1..], k)
      case None => None
      case Some(i) => Some(i + 1)
  }

  /** `map.get(k)` */
  function Get<K(==), V>(m: seq<Entry<K, V>>, k: K): (r: Option<V>)
    ensures r.None? <==> forall i :: 0 <= i < |m| ==> m[i].key != k
    ensures DistinctKeys(m) ==> forall i :: 0 <= i < |m| && m[i].key == k ==> r == Some(m[i].val)
  {
    match Find(m, k)
    case None => None
    case Some(i) => Some(m[i].val)
  }

  /** `map.set(k, v)` */
  function Set<K(==,!new), V>(m: seq<Entry<K, V>>, k: K, v: V): (r: seq<Entry<K, V>>)
    ensures Get(r, k) == Some(v)
    ensures forall k' :: k' != k ==> Get(r, k') == Get(m, k')
    ensures DistinctKeys(m) ==> DistinctKeys(r)
    ensures Keys(r) == if Get(m, k).Some? then Keys(m) else Keys(m) + [k]
  {
    match Find(m, k)
    case Some(i) =>
      var r := m[i := Entry(k, v)];
      FindExtend(m, r, k);
      forall k' | k' != k ensures Get(r, k') == Get(m, k') { FindExtend(m, r, k'); }
      r
    case None =>
      var r := m + [Entry(k, v)];
      FindExtend(m, r, k);
      assert r[|m|].key == k;
      forall k' | k' != k ensures Get(r, k') == Get(m, k') { FindExtend(m, r, k'); }
      r
  }

  /** `map.delete(k)` */
  function Delete<K(==,!new), V>(m: seq<Entry<K, V>>, k: K): (r: seq<Entry<K, V>>)
    ensures |r| == if Get(m, k).Some? then |m| - 1 else |m|
    ensures forall e :: e in r ==> e in m
    ensures DistinctKeys(m) ==> DistinctKeys(r) && Get(r, k).None?
    ensures DistinctKeys(m) ==> forall k' :: k' != k ==> Get(r, k') == Get(m, k')
  {
    match Find(m, k)
    case None => m
    case Some(i) =>
      var r := m[..i] + m[i + 1..];
      assert forall j :: 0 <= j < |r| ==> r[j] == if j < i then m[j] else m[j + 1];
      if DistinctKeys(m) then CutKeepsOthers(m, i); r else r
  }

  /** In a map with distinct keys, `get` finds exactly the entries present. */
  lemma GetIsMembership<K, V>(m: seq<Entry<K, V>>, k: K, v: V)
    requires DistinctKeys(m)
    ensures Get(m, k) == Some(v) <==> Entry(k, v) in m
  {
    if Entry(k, v) in m {
      var i :| 0 <= i < |m| && m[i] == Entry(k, v);
      assert m[i].key == k;
    }
  }

  /** Cutting out position `i` of a map with distinct keys leaves every other
      key's value as it was. */
  lemma CutKeepsOthers<K, V>(m: seq<Entry<K, V>>, i: nat)
    requires DistinctKeys(m) && i < |m|
    ensures DistinctKeys(m[..i] + m[i + 1..])
    ensures forall k' :: k' != m[i].key ==> Get(m[..i] + m[i + 1..], k') == Get(m, k')
  {
    var r := m[..i] + m[i + 1..];
    assert forall j :: 0 <= j < |r| ==> r[j] == if j < i then m[j] else m[j + 1];
    forall k' | k' != m[i].key ensures Get(r, k') == Get(m, k') {
      match Get(m, k')
      case None =>
      case Some(w) =>
        GetIsMembership(m, k', w);
        var a :| 0 <= a < |m| && m[a] == Entry(k', w);
        assert r[if a < i then a else a - 1] == m[a];
        GetIsMembership(r, k', w);
    }
  }

  /** In a map with distinct keys, the entry at `i` is the one `k` finds. */
  lemma FindAt<K, V>(m: seq<Entry<K, V>>, i: nat)
    requires DistinctKeys(m) && i < |m|
    ensures Find(m, m[i].key) == Some(i)
  {
  }

  /** If `r` agrees with `m` on the keys of `m`'s positions, a key found in `m`
      is found at the same position in `r`, and one absent from `m` can only be
      found in `r` past `m`'s end. */
  lemma FindExtend<K, V>(m: seq<Entry<K, V>>, r: seq<Entry<K, V>>, k: K)
    requires |m| <= |r|
    requires forall i :: 0 <= i < |m| ==> r[i].key == m[i].key
    ensures Find(m, k).Some? ==> Find(r, k) == Find(m, k)
    ensures Find(m, k).None? ==> Find(r, k).None? || Find(r, k).value >= |m|
  {
    match Find(m, k)
    case Some(a) =>
      assert r[a].key == k;
    case None =>
  }

  /** Two maps with the same keys in the same order find a key at the same
      position, whatever their values. */
  lemma {:induction false} FindByKeys<K, V, W>(m: seq<Entry<K, V>>, r: seq<Entry<K, W>>, k: K)
    requires Keys(m) == Keys(r)
    ensures Find(m, k) == Find(r, k)
    decreases |m|
  {
    assert |m| == |Keys(m)| == |r|;
    if m != [] {
      assert m[0].key == Keys(m)[0] == r[0].key;
      assert Keys(m[1..]) == Keys(m)[1..] == Keys(r)[1..] == Keys(r[1..]);
      FindByKeys(m[1..], r[1..], k);
    }
  }

  /** `set` on a key not present appends the entry at the end. */
  lemma SetAbsent<K(!new), V>(m: seq<Entry<K, V>>, k: K, v: V)
    requires Find(m, k).None?
    ensures Set(m, k, v) == m + [Entry(k, v)]
  {
  }

  /** `set` of the value a key already holds changes nothing. */
  lemma SetPresent<K(!new), V>(m: seq<Entry<K, V>>, k: K, v: V)
    requires Get(m, k) == Some(v)
    ensures Set(m, k, v) == m
  {
    var i := Find(m, k).value;
    assert m[i := Entry(k, v)] == m;
  }
}
