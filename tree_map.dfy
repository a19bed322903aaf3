/**
 A TreeMap keyed by addresses, as the sequence of its entries in the order its entry set
 yields them: strictly ascending keys, so every key occurs once.
 */
module TreeMap {

  datatype Entry<V> = Entry(key: int, value: V)

  ghost predicate Ordered<V>(m: seq<Entry<V>>) {
    forall i, j :: 0 <= i < j < |m| ==> m[i].key < m[j].key
  }

  /** Two entries of an ordered map with the same key are the same entry. */
  lemma KeysAreUnique<V>(m: seq<Entry<V>>, e: Entry<V>, f: Entry<V>)
    requires Ordered(m) && e in m && f in m && e.key == f.key
    ensures e == f
  {
    var i :| 0 <= i < |m| && m[i] == e;
    var j :| 0 <= j < |m| && m[j] == f;
    assert i == j;
  }

  /** An entry below every key of an ordered map can go in front of it. */
  lemma OrderedCons<V>(x: Entry<V>, m: seq<Entry<V>>)
    requires Ordered(m)
    requires forall e :: e in m ==> x.key < e.key
    ensures Ordered([x] + m)
  {
    forall i, j | 0 <= i < j < |[x] + m| ensures ([x] + m)[i].key < ([x] + m)[j].key {
      assert m[j - 1] in m;
    }
  }

  /**
   TreeMap.put: afterwards `k` maps to `v`, every other entry is kept, nothing else is
   added, and the entries stay in ascending key order.
   */
  function Put<V(==)>(m: seq<Entry<V>>, k: int, v: V): (r: seq<Entry<V>>)
    requires Ordered(m)
    ensures Ordered(r)
    ensures Entry(k, v) in r
    ensures forall e :: e in r && e.key != k ==> e in m
    ensures forall e :: e in m && e.key != k ==> e in r
  {
    if m == [] then [Entry(k, v)]
    else if k < m[0].key then [Entry(k, v)] + m
    else if k == m[0].key then [Entry(k, v)] + m[1..]
    else
      var rest := Put(m[1..], k, v);
      assert Ordered([m[0]] + rest) by {
        forall e | e in rest ensures m[0].key < e.key {
          if e.key != k {
            var j :| 0 <= j < |m[1..]| && m[1..][j] == e;
            assert m[j + 1] == e;
          }
        }
        OrderedCons(m[0], rest);
      }
      [m[0]] + rest
  }

  /** Putting a key above every key present appends it: the ordered-insertion fast path. */
  lemma {:induction false} PutAbove<V>(m: seq<Entry<V>>, k: int, v: V)
    requires Ordered(m)
    requires forall e :: e in m ==> e.key < k
    ensures Put(m, k, v) == m + [Entry(k, v)]
  {
    if m != [] {
      assert m[0] in m;
      forall e | e in m[1..] ensures e.key < k {
        assert e in m;
      }
      PutAbove(m[1..], k, v);
      assert [m[0]] + (m[1..] + [Entry(k, v)]) == m + [Entry(k, v)];
    }
  }
}
