/** A map that remembers the order in which its keys were put in, as the program's `Map` does. */
module OrderedMap {

  datatype OMap<K(==), V> = OMap(keys: seq<K>, at: map<K, V>) {
    predicate Valid() {
      && (forall i, j :: 0 <= i < j < |keys| ==> keys[i] != keys[j])
      && (forall k :: k in keys ==> k in at)
      && (forall k :: k in at ==> k in keys)
    }

    /** A new key goes to the end, an old one keeps its place. */
    function Set(k: K, v: V): OMap<K, V> {
      OMap(if k in at then keys else keys + [k], at[k := v])
    }

    function Delete(k: K): OMap<K, V> {
      OMap(Without(keys, k), at - {k})
    }

    /** Deleted and put in again: now the newest. */
    function Touch(k: K): OMap<K, V>
      requires k in at
    {
      Delete(k).Set(k, at[k])
    }
  }

  function Empty<K(==), V>(): OMap<K, V> {
    OMap([], map[])
  }

  function Without<K(==)>(keys: seq<K>, k: K): seq<K> {
    if keys == [] then []
    else if keys[0] == k then Without(keys[1..], k)
    else [keys[0]] + Without(keys[1..], k)
  }

  predicate Distinct<K(==)>(keys: seq<K>) {
    forall i, j :: 0 <= i < j < |keys| ==> keys[i] != keys[j]
  }

  lemma {:induction false} WithoutKeeps<K>(keys: seq<K>, k: K)
    ensures forall x :: x in Without(keys, k) <==> x in keys && x != k
    ensures Distinct(keys) ==> Distinct(Without(keys, k))
    ensures k !in keys ==> Without(keys, k) == keys
  {
    if keys != [] {
      WithoutKeeps(keys[1..], k);
      assert keys == [keys[0]] + keys[1..];
      var rest := Without(keys[1..], k);
      if Distinct(keys) && keys[0] != k {
        assert Distinct(keys[1..]);
        assert forall j :: 0 <= j < |rest| ==> rest[j] in rest;
        assert forall j :: 1 <= j < |keys| ==> keys[0] != keys[j];
      }
    }
  }

  lemma SetValid<K, V>(m: OMap<K, V>, k: K, v: V)
    requires m.Valid()
    ensures m.Set(k, v).Valid()
  {
    var n := m.Set(k, v);
    if k !in m.at {
      assert forall i :: 0 <= i < |m.keys| ==> m.keys[i] in m.keys;
    }
  }

  /** Setting an old key changes no place, a new one stands behind all others. */
  lemma SetPlaces<K, V>(m: OMap<K, V>, k: K, v: V)
    requires m.Valid()
    ensures var keys := m.Set(k, v).keys;
            if k in m.keys then keys == m.keys else |keys| == |m.keys| + 1 && keys[|m.keys|] == k && m.keys <= keys
  {
    assert k !in m.at ==> (m.keys + [k])[..|m.keys|] == m.keys;
  }

  lemma DeleteValid<K, V>(m: OMap<K, V>, k: K)
    requires m.Valid()
    ensures m.Delete(k).Valid()
  {
    WithoutKeeps(m.keys, k);
    assert Distinct(m.keys);
    assert Distinct(m.Delete(k).keys);
  }

  lemma TouchValid<K, V>(m: OMap<K, V>, k: K)
    requires m.Valid() && k in m.at
    ensures m.Touch(k).Valid() && m.Touch(k).at == m.at
    ensures m.Touch(k).keys == Without(m.keys, k) + [k]
  {
    DeleteValid(m, k);
    SetValid(m.Delete(k), k, m.at[k]);
  }

  /** The oldest key deleted: the others stay as they are. */
  lemma DeleteOldest<K, V>(m: OMap<K, V>)
    requires m.Valid() && m.keys != []
    ensures m.Delete(m.keys[0]).keys == m.keys[1..]
  {
    var k := m.keys[0];
    assert k !in m.keys[1..];
    WithoutKeeps(m.keys[1..], k);
  }

  /** A valid map has as many keys in order as it has entries. */
  lemma {:induction false} KeysCount<K, V>(m: OMap<K, V>)
    requires m.Valid()
    ensures |m.keys| == |m.at|
    decreases |m.keys|
  {
    hide Without;
    if m.keys == [] {
      assert m.at == map[];
    } else {
      var k := m.keys[0];
      assert k in m.keys;
      DeleteValid(m, k);
      DeleteOldest(m);
      KeysCount(m.Delete(k));
      assert m.at.Keys == (m.at - {k}).Keys + {k};
    }
  }

  lemma {:induction false} WithoutMiddle<K>(a: seq<K>, k: K, b: seq<K>)
    requires k !in a && k !in b
    ensures Without(a + [k] + b, k) == a + b
    decreases |a|
  {
    var all := a + [k] + b;
    if a == [] {
      assert all[1..] == b;
      WithoutKeeps(b, k);
    } else {
      assert all[1..] == a[1..] + [k] + b;
      WithoutMiddle(a[1..], k, b);
    }
  }

  // ---- walking over the keys and dropping some entries ----

  /** Of the first `i` keys, the entries for which `gone` holds have been dropped. */
  ghost predicate DroppedTo<K, V>(before: OMap<K, V>, after: OMap<K, V>, i: nat, gone: V -> bool) {
    && i <= |before.keys|
    && (forall k :: k in after.at ==> k in before.at && after.at[k] == before.at[k])
    && (forall k :: k in before.at && k !in after.at ==> gone(before.at[k]))
    && (forall j :: 0 <= j < i && before.keys[j] in after.at ==> !gone(after.at[before.keys[j]]))
  }

  lemma NoneDropped<K, V>(m: OMap<K, V>, gone: V -> bool)
    ensures DroppedTo(m, m, 0, gone)
  {
  }

  lemma DropNext<K, V>(before: OMap<K, V>, after: OMap<K, V>, i: nat, gone: V -> bool)
    requires DroppedTo(before, after, i, gone) && i < |before.keys|
    ensures var k := before.keys[i];
            if k in after.at && gone(after.at[k]) then DroppedTo(before, after.Delete(k), i + 1, gone)
            else DroppedTo(before, after, i + 1, gone)
  {
    hide Without;
  }

  lemma AllDropped<K, V>(before: OMap<K, V>, after: OMap<K, V>, gone: V -> bool)
    requires before.Valid() && DroppedTo(before, after, |before.keys|, gone)
    ensures forall k :: k in after.at ==> k in before.at && !gone(before.at[k]) && after.at[k] == before.at[k]
    ensures forall k :: k in before.at && !gone(before.at[k]) ==> k in after.at
  {
    forall k | k in after.at ensures !gone(before.at[k]) {
      KeyListed(before, k);
    }
  }

  lemma KeyListed<K, V>(m: OMap<K, V>, k: K)
    requires m.Valid() && k in m.at
    ensures k in m.keys
  {
  }

  lemma DeleteOne<K, V>(m: OMap<K, V>, k: K)
    requires k in m.at
    ensures |m.Delete(k).at| == |m.at| - 1
  {
    assert m.at.Keys == m.Delete(k).at.Keys + {k};
  }
}
