/**
 * Python's insertion-ordered `dict` (and `OrderedDict`): a sequence of
 * key/value entries. Assigning to a present key updates its entry in place;
 * assigning to a new key appends; `pop` removes the entry.
 */
module OrderedMaps {

  type OMap<K(==), V> = seq<(K, V)>

  /** `list(m.keys())`. */
  function Keys<K(==, !new), V>(m: OMap<K, V>): (ks: seq<K>)
    ensures |ks| == |m|
  {
    seq(|m|, i requires 0 <= i < |m| => m[i].0)
  }

  /** `list(m.values())`. */
  function Values<K(==, !new), V>(m: OMap<K, V>): (vs: seq<V>)
    ensures |vs| == |m|
  {
    seq(|m|, i requires 0 <= i < |m| => m[i].1)
  }

  /** No key occurs twice, as in every Python dict. */
  predicate Valid<K(==, !new), V>(m: OMap<K, V>) {
    forall i, j :: 0 <= i < j < |m| ==> m[i].0 != m[j].0
  }

  /** `k in m`. */
  predicate Contains<K(==, !new), V>(m: OMap<K, V>, k: K) {
    exists i :: 0 <= i < |m| && m[i].0 == k
  }

  lemma ContainsTail<K(!new), V>(m: OMap<K, V>, k: K)
    requires Contains(m, k) && m[0].0 != k
    ensures Contains(m[1..], k)
  {
    var i :| 0 <= i < |m| && m[i].0 == k;
    assert m[1..][i - 1] == m[i];
  }

  /** Position of the first entry for `k`. */
  function IndexOf<K(==, !new), V>(m: OMap<K, V>, k: K): (i: nat)
    requires Contains(m, k)
    ensures i < |m| && m[i].0 == k
  {
    if m[0].0 == k then 0
    else
      ContainsTail(m, k);
      1 + IndexOf(m[1..], k)
  }

  /** `m[k]`. */
  function Get<K(==, !new), V>(m: OMap<K, V>, k: K): V
    requires Contains(m, k)
  {
    m[IndexOf(m, k)].1
  }

  /** `m[k] = v`. */
  function Put<K(==, !new), V>(m: OMap<K, V>, k: K, v: V): (r: OMap<K, V>)
    ensures Valid(m) ==> Valid(r)
  {
    if Contains(m, k) then m[IndexOf(m, k) := (k, v)] else m + [(k, v)]
  }

  /** `m.pop(k, None)`: drops the entry for `k`, if there is one. */
  function Remove<K(==, !new), V>(m: OMap<K, V>, k: K): (r: OMap<K, V>)
    ensures Valid(m) ==> Valid(r)
  {
    if Contains(m, k) then
      var i := IndexOf(m, k);
      m[..i] + m[i + 1..]
    else
      m
  }

  /** `k in m` is `k in m.keys()`. */
  lemma ContainsIffInKeys<K(!new), V>(m: OMap<K, V>, k: K)
    ensures Contains(m, k) <==> k in Keys(m)
  {
    if k in Keys(m) {
      var i :| 0 <= i < |m| && Keys(m)[i] == k;
      assert m[i].0 == k;
    }
    if Contains(m, k) {
      var i := IndexOf(m, k);
      assert Keys(m)[i] == k;
    }
  }

  lemma KeysSnoc<K(!new), V>(m: OMap<K, V>)
    requires m != []
    ensures Keys(m) == Keys(m[..|m| - 1]) + [m[|m| - 1].0]
  {
  }

  /** In a valid map the entry for `k` is the only one. */
  lemma IndexOfUnique<K(!new), V>(m: OMap<K, V>, k: K, i: nat)
    requires Valid(m) && i < |m| && m[i].0 == k
    ensures Contains(m, k) && IndexOf(m, k) == i
  {
  }

  /** After `m[k] = v`: `k` maps to `v`, a new key goes last, other keys are untouched. */
  lemma PutFacts<K(!new), V>(m: OMap<K, V>, k: K, v: V)
    requires Valid(m)
    ensures var r := Put(m, k, v);
      && Keys(r) == (if Contains(m, k) then Keys(m) else Keys(m) + [k])
      && Contains(r, k) && Get(r, k) == v
      && (forall k' :: k' != k ==> (Contains(r, k') <==> Contains(m, k')))
      && (forall k' :: k' != k && Contains(m, k') ==> Get(r, k') == Get(m, k'))
  {
    var r := Put(m, k, v);
    if Contains(m, k) {
      var i := IndexOf(m, k);
      assert Keys(r) == Keys(m);
      IndexOfUnique(r, k, i);
      forall k' | k' != k
        ensures Contains(r, k') <==> Contains(m, k')
      {
        if Contains(m, k') {
          var j := IndexOf(m, k');
          assert r[j] == m[j];
        }
        if Contains(r, k') {
          var j := IndexOf(r, k');
          assert r[j] == m[j];
        }
      }
      forall k' | k' != k && Contains(m, k')
        ensures Get(r, k') == Get(m, k')
      {
        var j := IndexOf(m, k');
        assert r[j] == m[j];
        IndexOfUnique(r, k', j);
      }
    } else {
      assert Keys(r) == Keys(m) + [k];
      IndexOfUnique(r, k, |m|);
      forall k' | k' != k
        ensures Contains(r, k') <==> Contains(m, k')
      {
        if Contains(m, k') {
          var j := IndexOf(m, k');
          assert r[j] == m[j];
        }
        if Contains(r, k') {
          var j := IndexOf(r, k');
          assert j < |m| && r[j] == m[j];
        }
      }
      forall k' | k' != k && Contains(m, k')
        ensures Get(r, k') == Get(m, k')
      {
        var j := IndexOf(m, k');
        assert r[j] == m[j];
        IndexOfUnique(r, k', j);
      }
    }
  }

  /** After `m.pop(k)`: `k` is gone, one entry fewer if it was there, other keys are untouched. */
  lemma RemoveFacts<K(!new), V>(m: OMap<K, V>, k: K)
    requires Valid(m)
    ensures var r := Remove(m, k);
      && !Contains(r, k)
      && (forall k' :: k' != k ==> (Contains(r, k') <==> Contains(m, k')))
      && (forall k' :: k' != k && Contains(m, k') ==> Get(r, k') == Get(m, k'))
      && (Contains(m, k) ==> |r| == |m| - 1)
      && (!Contains(m, k) ==> r == m)
  {
    if Contains(m, k) {
      var i := IndexOf(m, k);
      assert Remove(m, k) == m[..i] + m[i + 1..];
      forall k' ensures k' != k ==> (Contains(m[..i] + m[i + 1..], k') <==> Contains(m, k')) {
        if k' != k {
          CutKeeps(m, i, k');
        }
      }
      forall k' | k' != k && Contains(m, k')
        ensures Get(m[..i] + m[i + 1..], k') == Get(m, k')
      {
        CutKeeps(m, i, k');
      }
      CutDrops(m, i);
    }
  }

  /** Cutting out the entry at `i` drops its key from a valid map. */
  lemma CutDrops<K(!new), V>(m: OMap<K, V>, i: nat)
    requires Valid(m) && i < |m|
    ensures !Contains(m[..i] + m[i + 1..], m[i].0)
  {
    var r := m[..i] + m[i + 1..];
    if Contains(r, m[i].0) {
      var j := IndexOf(r, m[i].0);
      RemovedAt(m, i, j);
      assert false;
    }
  }

  /** Cutting out the entry at `i` leaves every other key and its value. */
  lemma CutKeeps<K(!new), V>(m: OMap<K, V>, i: nat, k': K)
    requires Valid(m) && i < |m| && k' != m[i].0
    ensures Contains(m[..i] + m[i + 1..], k') <==> Contains(m, k')
    ensures Contains(m, k') ==> Get(m[..i] + m[i + 1..], k') == Get(m, k')
  {
    var r := m[..i] + m[i + 1..];
    if Contains(m, k') {
      var j := IndexOf(m, k');
      var j' := if j < i then j else j - 1;
      RemovedAt(m, i, j');
      IndexOfUnique(r, k', j');
    }
    if Contains(r, k') {
      var j := IndexOf(r, k');
      RemovedAt(m, i, j);
    }
  }

  /** Where the entries of `m` land once the one at `i` is cut out. */
  lemma RemovedAt<K, V>(m: OMap<K, V>, i: nat, j: nat)
    requires i < |m| && j < |m| - 1
    ensures (m[..i] + m[i + 1..])[j] == m[if j < i then j else j + 1]
  {
  }

  /** Appending a new key and removing it again restores the map. */
  lemma RemoveAfterAppend<K(!new), V>(m: OMap<K, V>, k: K, v: V)
    requires Valid(m) && !Contains(m, k)
    ensures Remove(Put(m, k, v), k) == m
  {
    assert Put(m, k, v) == m + [(k, v)];
    IndexOfUnique(m + [(k, v)], k, |m|);
    assert (m + [(k, v)])[..|m|] == m;
  }
}
