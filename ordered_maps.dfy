/** Python's `dict` where its insertion order matters: a list of (key, value)
    entries with pairwise distinct keys. Assigning to a present key keeps its
    position; assigning to a new key appends it; removing drops the entry. */
module OrderedMaps {

  type OrderedMap<K, V> = seq<(K, V)>

  predicate DistinctKeys<K(==), V>(m: OrderedMap<K, V>)
  {
    forall i, j :: 0 <= i < j < |m| ==> m[i].0 != m[j].0
  }

  function Keys<K, V>(m: OrderedMap<K, V>): set<K>
  {
    set i | 0 <= i < |m| :: m[i].0
  }

  /** The position of key `k`. */
  function IndexOf<K(==), V>(m: OrderedMap<K, V>, k: K): (i: nat)
    requires k in Keys(m)
    ensures i < |m| && m[i].0 == k
    ensures forall j :: 0 <= j < i ==> m[j].0 != k
  {
    if m[0].0 == k then 0 else
      assert k in Keys(m[1..]) by {
        var i :| 0 <= i < |m| && m[i].0 == k;
        assert m[1..][i - 1].0 == k;
      }
      1 + IndexOf(m[1..], k)
  }

  /** The first position holding `k` is the one `IndexOf` finds. */
  lemma {:induction false} IndexOfAt<K, V>(m: OrderedMap<K, V>, k: K, i: nat)
    requires i < |m| && m[i].0 == k
    requires forall j :: 0 <= j < i ==> m[j].0 != k
    ensures IndexOf(m, k) == i
  {
    if i > 0 {
      assert m[1..][i - 1].0 == k;
      IndexOfAt(m[1..], k, i - 1);
    }
  }

  /** `m[k]`. */
  function Get<K(==), V>(m: OrderedMap<K, V>, k: K): V
    requires k in Keys(m)
  {
    m[IndexOf(m, k)].1
  }

  /** In a dictionary every entry is what its key looks up. */
  lemma GetAt<K, V>(m: OrderedMap<K, V>, i: nat)
    requires DistinctKeys(m) && i < |m|
    ensures Get(m, m[i].0) == m[i].1
  {
    IndexOfAt(m, m[i].0, i);
  }

  lemma SetProperties<K, V>(m: OrderedMap<K, V>, k: K, v: V, r: OrderedMap<K, V>)
    requires r == if k in Keys(m) then m[IndexOf(m, k) := (k, v)] else m + [(k, v)]
    ensures Keys(r) == Keys(m) + {k}
    ensures k in Keys(r) && Get(r, k) == v
    ensures forall k' :: k' in Keys(m) && k' != k ==> Get(r, k') == Get(m, k')
    ensures DistinctKeys(m) ==> DistinctKeys(r)
  {
    var i := if k in Keys(m) then IndexOf(m, k) else |m|;
    assert r[i] == (k, v);
    assert forall j :: 0 <= j < |m| && j != i ==> r[j] == m[j];
    assert forall j :: 0 <= j < i ==> r[j].0 != k;
    IndexOfAt(r, k, i);
    forall k' | k' in Keys(m) && k' != k
      ensures Get(r, k') == Get(m, k')
    {
      var j := IndexOf(m, k');
      IndexOfAt(r, k', j);
    }
    forall x | x in Keys(m) ensures x in Keys(r) {
      var j :| 0 <= j < |m| && m[j].0 == x;
      assert r[j].0 == x;
    }
  }

  /** `m[k] = v`, as a new value. */
  function Set<K(==), V>(m: OrderedMap<K, V>, k: K, v: V): (r: OrderedMap<K, V>)
    ensures Keys(r) == Keys(m) + {k}
    ensures Get(r, k) == v
    ensures forall k' :: k' in Keys(m) && k' != k ==> Get(r, k') == Get(m, k')
    ensures k in Keys(m) ==> |r| == |m| && r[IndexOf(m, k)] == (k, v)
    ensures k !in Keys(m) ==> r == m + [(k, v)]
    ensures DistinctKeys(m) ==> DistinctKeys(r)
  {
    var r := if k in Keys(m) then m[IndexOf(m, k) := (k, v)] else m + [(k, v)];
    SetProperties(m, k, v, r);
    r
  }

  /** `m` without the entries whose key is `k`; the others keep their order. */
  function Remove<K(==), V>(m: OrderedMap<K, V>, k: K): (r: OrderedMap<K, V>)
    ensures |r| <= |m|
  {
    if |m| == 0 then []
    else (if m[0].0 == k then [] else [m[0]]) + Remove(m[1..], k)
  }

  lemma {:induction false} RemoveKeys<K, V>(m: OrderedMap<K, V>, k: K)
    ensures Keys(Remove(m, k)) == Keys(m) - {k}
  {
    if |m| > 0 {
      var tail := Remove(m[1..], k);
      var r := Remove(m, k);
      RemoveKeys(m[1..], k);
      var head := if m[0].0 == k then [] else [m[0]];
      assert r == head + tail;
      assert Keys(m) == {m[0].0} + Keys(m[1..]) by {
        forall x | x in Keys(m) ensures x in {m[0].0} + Keys(m[1..]) {
          var j :| 0 <= j < |m| && m[j].0 == x;
          if j > 0 { assert m[1..][j - 1].0 == x; }
        }
      }
      assert Keys(r) == Keys(head) + Keys(tail) by {
        forall x | x in Keys(r) ensures x in Keys(head) + Keys(tail) {
          var j :| 0 <= j < |r| && r[j].0 == x;
          if j >= |head| { assert tail[j - |head|].0 == x; } else { assert head[j].0 == x; }
        }
        forall x | x in Keys(tail) ensures x in Keys(r) {
          var j :| 0 <= j < |tail| && tail[j].0 == x;
          assert r[j + |head|].0 == x;
        }
        forall x | x in Keys(head) ensures x in Keys(r) {
          var j :| 0 <= j < |head| && head[j].0 == x;
          assert r[j].0 == x;
        }
      }
      assert Keys(head) == if m[0].0 == k then {} else {m[0].0} by {
        if m[0].0 != k { assert head[0].0 == m[0].0; }
      }
    }
  }

  lemma {:induction false} RemoveGet<K, V>(m: OrderedMap<K, V>, k: K, k': K)
    requires k' in Keys(Remove(m, k))
    ensures k' in Keys(m) && Get(Remove(m, k), k') == Get(m, k')
  {
    RemoveKeys(m, k);
    var tail := Remove(m[1..], k);
    var r := Remove(m, k);
    var head := if m[0].0 == k then [] else [m[0]];
    assert r == head + tail;
    if m[0].0 == k' {
      IndexOfAt(r, k', 0);
      IndexOfAt(m, k', 0);
    } else {
      RemoveKeys(m[1..], k);
      assert k' in Keys(tail) by {
        var j :| 0 <= j < |r| && r[j].0 == k';
        assert tail[j - |head|].0 == k';
      }
      RemoveGet(m[1..], k, k');
      var j := IndexOf(tail, k');
      var jm := IndexOf(m[1..], k');
      IndexOfAt(r, k', j + |head|);
      IndexOfAt(m, k', jm + 1);
    }
  }

  lemma {:induction false} RemoveDistinct<K, V>(m: OrderedMap<K, V>, k: K)
    requires DistinctKeys(m)
    ensures DistinctKeys(Remove(m, k))
  {
    if |m| > 0 {
      var tail := Remove(m[1..], k);
      var r := Remove(m, k);
      assert DistinctKeys(m[1..]);
      RemoveDistinct(m[1..], k);
      if m[0].0 != k {
        RemoveKeys(m[1..], k);
        assert m[0].0 !in Keys(m[1..]);
        assert r == [m[0]] + tail;
        forall i, j | 0 <= i < j < |r| ensures r[i].0 != r[j].0 {
          if i == 0 {
            assert r[j].0 == tail[j - 1].0;
            assert r[j].0 in Keys(tail);
          } else {
            assert r[i].0 == tail[i - 1].0 && r[j].0 == tail[j - 1].0;
          }
        }
      }
    }
  }

  lemma RemoveProperties<K, V>(m: OrderedMap<K, V>, k: K)
    ensures Keys(Remove(m, k)) == Keys(m) - {k}
    ensures forall k' :: k' in Keys(Remove(m, k)) ==> Get(Remove(m, k), k') == Get(m, k')
    ensures DistinctKeys(m) ==> DistinctKeys(Remove(m, k))
  {
    RemoveKeys(m, k);
    forall k' | k' in Keys(Remove(m, k)) ensures Get(Remove(m, k), k') == Get(m, k') {
      RemoveGet(m, k, k');
    }
    if DistinctKeys(m) { RemoveDistinct(m, k); }
  }

  /** Removing an absent key changes nothing. */
  lemma {:induction false} RemoveAbsent<K, V>(m: OrderedMap<K, V>, k: K)
    requires k !in Keys(m)
    ensures Remove(m, k) == m
  {
    if |m| > 0 {
      assert m[0].0 in Keys(m);
      assert k !in Keys(m[1..]) by {
        forall x | x in Keys(m[1..]) ensures x in Keys(m) {
          var j :| 0 <= j < |m[1..]| && m[1..][j].0 == x;
          assert m[j + 1].0 == x;
        }
      }
      RemoveAbsent(m[1..], k);
    }
  }

  /** In a dictionary, removing a key drops exactly its entry and keeps the
      others in their order. */
  lemma {:induction false} RemoveAt<K, V>(m: OrderedMap<K, V>, k: K)
    requires DistinctKeys(m) && k in Keys(m)
    ensures Remove(m, k) == m[..IndexOf(m, k)] + m[IndexOf(m, k) + 1..]
  {
    var tail := m[1..];
    if m[0].0 == k {
      assert k !in Keys(tail) by {
        forall x | x in Keys(tail) ensures x != k {
          var j :| 0 <= j < |tail| && tail[j].0 == x;
          assert m[j + 1].0 == x;
        }
      }
      RemoveAbsent(tail, k);
    } else {
      assert k in Keys(tail) by {
        var j :| 0 <= j < |m| && m[j].0 == k;
        assert tail[j - 1].0 == k;
      }
      assert DistinctKeys(tail);
      var i := IndexOf(tail, k);
      IndexOfAt(m, k, i + 1);
      RemoveAt(tail, k);
      assert m[..i + 1] == [m[0]] + tail[..i];
      assert m[i + 2..] == tail[i + 1..];
    }
  }

  /** `m.pop(k)` for its effect on `m`. */
  function Pop<K(==), V>(m: OrderedMap<K, V>, k: K): (r: OrderedMap<K, V>)
    ensures Keys(r) == Keys(m) - {k}
    ensures forall k' :: k' in Keys(r) ==> Get(r, k') == Get(m, k')
    ensures DistinctKeys(m) ==> DistinctKeys(r)
    ensures DistinctKeys(m) && k in Keys(m) ==> r == m[..IndexOf(m, k)] + m[IndexOf(m, k) + 1..]
  {
    RemoveProperties(m, k);
    assert DistinctKeys(m) && k in Keys(m) ==> Remove(m, k) == m[..IndexOf(m, k)] + m[IndexOf(m, k) + 1..] by {
      if DistinctKeys(m) && k in Keys(m) { RemoveAt(m, k); }
    }
    Remove(m, k)
  }
}
