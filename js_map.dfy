/** A JavaScript `Map` as the sequence of its entries in insertion order, with distinct keys.
    `set` on a present key replaces the value where it stands; on a new key it appends;
    `delete` removes the entry and keeps the order of the rest. */
module JsMap {

  datatype Entry<K, V> = Entry(key: K, value: V)

  type Map<K, V> = seq<Entry<K, V>>

  /** No key occurs twice. */
  predicate Wf<K(==), V>(m: Map<K, V>) {
    forall i, j | 0 <= i < j < |m| :: m[i].key != m[j].key
  }

  /** `m.has(k)` */
  predicate Has<K(==), V>(m: Map<K, V>, k: K) {
    exists i | 0 <= i < |m| :: m[i].key == k
  }

  /** The position of the first entry with key `k`, or -1. */
  function IndexOf<K(==), V>(m: Map<K, V>, k: K): (i: int)
    ensures -1 <= i < |m|
    ensures 0 <= i ==> m[i].key == k && forall j | 0 <= j < i :: m[j].key != k
    ensures i < 0 <==> !Has(m, k)
  {
    if |m| == 0 then -1
    else if m[0].key == k then 0
    else
      var i := IndexOf(m[1..], k);
      assert forall j | 1 <= j < |m| :: m[j] == m[1..][j - 1];
      if i < 0 then -1 else i + 1
  }

  /** `m.get(k)` for a present key. */
  function Get<K(==), V>(m: Map<K, V>, k: K): (v: V)
    requires Has(m, k)
    ensures exists i | 0 <= i < |m| :: m[i].key == k && m[i].value == v
  {
    m[IndexOf(m, k)].value
  }

  /** `m.set(k, v)` */
  function Set<K(==), V>(m: Map<K, V>, k: K, v: V): (r: Map<K, V>)
    requires Wf(m)
    ensures Wf(r)
    ensures Has(m, k) ==> |r| == |m| && forall i | 0 <= i < |m| :: r[i] == if m[i].key == k then Entry(k, v) else m[i]
    ensures !Has(m, k) ==> r == m + [Entry(k, v)]
  {
    var i := IndexOf(m, k);
    if i < 0 then m + [Entry(k, v)] else m[i := Entry(k, v)]
  }

  /** `m.delete(k)` */
  function Delete<K(==), V>(m: Map<K, V>, k: K): (r: Map<K, V>)
    requires Wf(m)
    ensures Wf(r) && !Has(r, k)
    ensures forall i | 0 <= i < |r| :: r[i] in m && r[i].key != k
    ensures forall i | 0 <= i < |m| && m[i].key != k :: m[i] in r
    ensures !Has(m, k) ==> r == m
    ensures Has(m, k) ==> |r| == |m| - 1 && exists i | 0 <= i < |m| :: m[i].key == k && r == m[..i] + m[i + 1..]
  {
    var i := IndexOf(m, k);
    if i < 0 then m
    else
      var r := m[..i] + m[i + 1..];
      assert forall j | 0 <= j < |r| :: r[j] == if j < i then m[j] else m[j + 1];
      r
  }

  /** After `set(k, v)`, `get(k)` is `v` and every other key keeps its presence and its value. */
  lemma SetSemantics<K, V>(m: Map<K, V>, k: K, v: V)
    requires Wf(m)
    ensures Has(Set(m, k, v), k) && Get(Set(m, k, v), k) == v
    ensures forall k' | k' != k :: Has(Set(m, k, v), k') == Has(m, k')
    ensures forall k' | k' != k && Has(m, k') :: Get(Set(m, k, v), k') == Get(m, k')
  {
    var r := Set(m, k, v);
    if Has(m, k) {
      var i := IndexOf(m, k);
      assert r[i].key == k;
      forall k' | k' != k && Has(m, k') ensures Get(r, k') == Get(m, k') {
        var j := IndexOf(m, k');
        assert r[j] == m[j];
        assert IndexOf(r, k') == j;
      }
      forall k' | k' != k ensures Has(r, k') == Has(m, k') {
        if Has(r, k') { var j := IndexOf(r, k'); assert m[j].key == k'; }
        if Has(m, k') { var j := IndexOf(m, k'); assert r[j].key == k'; }
      }
    } else {
      assert r[|m|].key == k;
      forall k' | k' != k && Has(m, k') ensures Has(r, k') && Get(r, k') == Get(m, k') {
        var j := IndexOf(m, k');
        assert r[j] == m[j];
        assert IndexOf(r, k') == j;
      }
      forall k' | k' != k ensures Has(r, k') == Has(m, k') {
        if Has(r, k') { var j := IndexOf(r, k'); assert j < |m| && m[j].key == k'; }
        if Has(m, k') { var j := IndexOf(m, k'); assert r[j].key == k'; }
      }
    }
  }

  /** The last write wins: a second `set` on the same key erases every trace of the first. */
  lemma SetTwice<K, V>(m: Map<K, V>, k: K, v1: V, v2: V)
    requires Wf(m)
    ensures Set(Set(m, k, v1), k, v2) == Set(m, k, v2)
  {
    var r1 := Set(m, k, v1);
    if Has(m, k) {
      var i := IndexOf(m, k);
      assert r1[i].key == k;
    } else {
      assert r1[|m|].key == k;
    }
    assert Has(r1, k);
  }

  /** Deleting the entry that stands between `a` and `b` leaves exactly `a + b`. */
  lemma DeleteAt<K, V>(a: Map<K, V>, e: Entry<K, V>, b: Map<K, V>)
    requires Wf(a + [e] + b)
    ensures Delete(a + [e] + b, e.key) == a + b
  {
    var m := a + [e] + b;
    assert m[|a|] == e;
    assert Has(m, e.key);
    assert IndexOf(m, e.key) == |a|;
    assert m[..|a|] == a && m[|a| + 1..] == b;
  }

  /** Deleting the key of `s[i]` from `p + s[i..]` leaves `p + s[i + 1..]`. */
  lemma DeleteNext<K, V>(p: Map<K, V>, s: Map<K, V>, i: nat)
    requires i < |s| && Wf(p + s[i..])
    ensures Delete(p + s[i..], s[i].key) == p + s[i + 1..]
  {
    assert p + s[i..] == p + [s[i]] + s[i + 1..] by {
      assert s[i..] == [s[i]] + s[i + 1..];
    }
    DeleteAt(p, s[i], s[i + 1..]);
  }

  /** Two maps with distinct keys and no key in common concatenate to one with distinct keys. */
  lemma WfConcat<K, V>(a: Map<K, V>, b: Map<K, V>)
    requires Wf(a) && Wf(b)
    requires forall i, j | 0 <= i < |a| && 0 <= j < |b| :: a[i].key != b[j].key
    ensures Wf(a + b)
  {
    forall i, j | 0 <= i < j < |a + b| ensures (a + b)[i].key != (a + b)[j].key {
      if j < |a| {
      } else if i < |a| {
        assert (a + b)[j] == b[j - |a|];
      } else {
        assert (a + b)[j] == b[j - |a|] && (a + b)[i] == b[i - |a|];
      }
    }
  }
}
