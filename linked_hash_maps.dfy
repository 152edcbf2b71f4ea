/** An insertion-ordered map, as `java.util.LinkedHashMap` keeps it in its
    default insertion-order mode: a sequence of entries with pairwise distinct
    keys, oldest first. Putting an existing key replaces its value where it
    stands; putting a new key appends it; removing drops the entry. */
module LinkedHashMaps {
  import opened Results

  datatype Entry<K, V> = Entry(key: K, value: V)

  /** The representation invariant: no key occurs twice. */
  predicate DistinctKeys<K(==), V>(m: seq<Entry<K, V>>) {
    forall i, j :: 0 <= i < j < |m| ==> m[i].key != m[j].key
  }

  /** `containsKey`. */
  predicate HasKey<K(==), V>(m: seq<Entry<K, V>>, k: K) {
    exists i :: 0 <= i < |m| && m[i].key == k
  }

  /** `a` is `b` with some elements left out, the rest in the same order. */
  ghost predicate Subsequence<T>(a: seq<T>, b: seq<T>)
    decreases |b|
  {
    a == [] || (b != [] && ((a[0] == b[0] && Subsequence(a[1..], b[1..])) || Subsequence(a, b[1..])))
  }

  /** `values.toList()`: one value per entry, in insertion order. */
  function Values<K, V>(m: seq<Entry<K, V>>): (vs: seq<V>)
    ensures |vs| == |m|
    ensures forall i :: 0 <= i < |m| ==> vs[i] == m[i].value
  {
    if m == [] then [] else [m[0].value] + Values(m[1..])
  }

  /** `get`: the value stored under `k`, or None (Kotlin's null) when absent. */
  function Get<K(==), V>(m: seq<Entry<K, V>>, k: K): (r: Option<V>)
    ensures r.None? <==> !HasKey(m, k)
    ensures r.Some? ==> exists i :: 0 <= i < |m| && m[i] == Entry(k, r.value)
  {
    if m == [] then None
    else if m[0].key == k then Some(m[0].value)
    else
      var r := Get(m[1..], k);
      assert r.Some? ==> exists i :: 1 <= i < |m| && m[i] == Entry(k, r.value) by {
        if r.Some? {
          var i :| 0 <= i < |m[1..]| && m[1..][i] == Entry(k, r.value);
          assert m[i + 1] == Entry(k, r.value);
        }
      }
      r
  }

  /** `put(k, v)`: an existing key keeps its position and takes the new value;
      a new key goes to the end. */
  function Put<K(==), V>(m: seq<Entry<K, V>>, k: K, v: V): (r: seq<Entry<K, V>>)
    requires DistinctKeys(m)
    ensures DistinctKeys(r)
    ensures HasKey(m, k) ==>
      |r| == |m| && forall i :: 0 <= i < |m| ==> r[i] == if m[i].key == k then Entry(k, v) else m[i]
    ensures !HasKey(m, k) ==> r == m + [Entry(k, v)]
  {
    if m == [] then [Entry(k, v)]
    else if m[0].key == k then [Entry(k, v)] + m[1..]
    else
      assert HasKey(m, k) <==> HasKey(m[1..], k) by {
        if HasKey(m, k) {
          var i :| 0 <= i < |m| && m[i].key == k;
          assert m[1..][i - 1].key == k;
        }
      }
      [m[0]] + Put(m[1..], k, v)
  }

  /** The position of the first entry with key `k`. */
  function IndexOf<K(==), V>(m: seq<Entry<K, V>>, k: K): (i: nat)
    requires HasKey(m, k)
    ensures i < |m| && m[i].key == k
    ensures forall j :: 0 <= j < i ==> m[j].key != k
  {
    if m[0].key == k then 0
    else
      assert HasKey(m[1..], k) by {
        var i :| 0 <= i < |m| && m[i].key == k;
        assert m[1..][i - 1].key == k;
      }
      1 + IndexOf(m[1..], k)
  }

  /** `remove(k)`: drops the entry for `k`; RemoveAt and RemoveKeepsDistinct
      state what is left. */
  function Remove<K(==), V>(m: seq<Entry<K, V>>, k: K): (r: seq<Entry<K, V>>)
    ensures |r| <= |m|
    ensures !HasKey(m, k) ==> r == m
  {
    if m == [] then []
    else if m[0].key == k then m[1..]
    else
      assert !HasKey(m, k) ==> !HasKey(m[1..], k) by {
        if HasKey(m[1..], k) {
          var i :| 0 <= i < |m[1..]| && m[1..][i].key == k;
          assert m[i + 1].key == k;
        }
      }
      [m[0]] + Remove(m[1..], k)
  }

  /** Removing a present key cuts out exactly its entry; the others keep
      their order. */
  lemma {:induction false} RemoveAt<K, V>(m: seq<Entry<K, V>>, k: K)
    requires HasKey(m, k)
    ensures Remove(m, k) == m[..IndexOf(m, k)] + m[IndexOf(m, k) + 1..]
  {
    if m[0].key != k {
      assert HasKey(m[1..], k) by {
        var i :| 0 <= i < |m| && m[i].key == k;
        assert m[1..][i - 1].key == k;
      }
      RemoveAt(m[1..], k);
      var j := IndexOf(m[1..], k);
      assert IndexOf(m, k) == j + 1;
      assert [m[0]] + m[1..][..j] == m[..j + 1];
      assert m[1..][j + 1..] == m[j + 2..];
    }
  }

  /** Every entry left after a removal was there before, under another key. */
  lemma {:induction false} RemoveSubset<K, V>(m: seq<Entry<K, V>>, k: K)
    requires DistinctKeys(m)
    ensures forall i :: 0 <= i < |Remove(m, k)| ==> Remove(m, k)[i] in m && Remove(m, k)[i].key != k
  {
    if m != [] && m[0].key != k {
      RemoveSubset(m[1..], k);
    }
  }

  /** Removal keeps the keys distinct. */
  lemma {:induction false} RemoveKeepsDistinct<K, V>(m: seq<Entry<K, V>>, k: K)
    requires DistinctKeys(m)
    ensures DistinctKeys(Remove(m, k))
  {
    if m != [] && m[0].key != k {
      RemoveKeepsDistinct(m[1..], k);
      RemoveSubset(m[1..], k);
      var r := Remove(m[1..], k);
      forall x | 0 <= x < |r| ensures r[x].key != m[0].key {
        assert r[x] in m[1..];
      }
    }
  }

  /** `filterValues(p)`: FilterMembers, FilterSubsequence and
      FilterKeepsDistinct state what it keeps. */
  function FilterValues<K, V>(m: seq<Entry<K, V>>, p: V -> bool): (r: seq<Entry<K, V>>)
    ensures |r| <= |m|
  {
    if m == [] then []
    else if p(m[0].value) then [m[0]] + FilterValues(m[1..], p)
    else FilterValues(m[1..], p)
  }

  /** Filtering keeps exactly the entries whose value satisfies `p`. */
  lemma {:induction false} FilterMembers<K, V>(m: seq<Entry<K, V>>, p: V -> bool)
    ensures forall i :: 0 <= i < |FilterValues(m, p)| ==>
      FilterValues(m, p)[i] in m && p(FilterValues(m, p)[i].value)
    ensures forall i :: 0 <= i < |m| && p(m[i].value) ==> m[i] in FilterValues(m, p)
  {
    if m != [] {
      FilterMembers(m[1..], p);
      var rest := FilterValues(m[1..], p);
      var r := FilterValues(m, p);
      forall i | 0 <= i < |r| ensures r[i] in m && p(r[i].value) {
        if p(m[0].value) && i == 0 {
        } else {
          var k := if p(m[0].value) then i - 1 else i;
          assert r[i] == rest[k];
          assert rest[k] in m[1..];
        }
      }
      forall i | 0 <= i < |m| && p(m[i].value) ensures m[i] in r {
        if i > 0 {
          assert m[i] == m[1..][i - 1];
          assert m[i] in rest;
        }
      }
    }
  }

  /** Filtering keeps the surviving entries in their original relative order. */
  lemma {:induction false} FilterSubsequence<K, V>(m: seq<Entry<K, V>>, p: V -> bool)
    ensures Subsequence(FilterValues(m, p), m)
  {
    if m != [] {
      FilterSubsequence(m[1..], p);
      if p(m[0].value) {
        var r := FilterValues(m, p);
        assert r[0] == m[0] && r[1..] == FilterValues(m[1..], p);
      }
    }
  }

  /** Filtering keeps the keys distinct. */
  lemma FilterKeepsDistinct<K, V>(m: seq<Entry<K, V>>, p: V -> bool)
    requires DistinctKeys(m)
    ensures DistinctKeys(FilterValues(m, p))
  {
    var r := FilterValues(m, p);
    FilterSubsequence(m, p);
    SubsequenceKeepsDistinct(r, m);
  }

  /** A subsequence of a map with distinct keys has distinct keys. */
  lemma {:induction false} SubsequenceKeepsDistinct<K, V>(a: seq<Entry<K, V>>, b: seq<Entry<K, V>>)
    requires Subsequence(a, b) && DistinctKeys(b)
    ensures DistinctKeys(a)
    ensures forall i :: 0 <= i < |a| ==> a[i] in b
    decreases |b|
  {
    if a != [] {
      if a[0] == b[0] && Subsequence(a[1..], b[1..]) {
        SubsequenceKeepsDistinct(a[1..], b[1..]);
        forall i | 0 <= i < |a| ensures a[i] in b {
          if i > 0 { assert a[i] == a[1..][i - 1]; }
        }
        forall j | 1 <= j < |a| ensures a[j].key != a[0].key {
          assert a[j] == a[1..][j - 1];
          var k :| 0 <= k < |b[1..]| && b[1..][k] == a[j];
          assert b[k + 1] == a[j];
        }
      } else {
        SubsequenceKeepsDistinct(a, b[1..]);
      }
    }
  }

  /** With distinct keys, looking up an entry's key finds that entry's value. */
  lemma GetAt<K, V>(m: seq<Entry<K, V>>, i: nat)
    requires DistinctKeys(m) && i < |m|
    ensures Get(m, m[i].key) == Some(m[i].value)
  {
    assert HasKey(m, m[i].key);
  }

  /** After `put(k, v)`, `k` maps to `v` and every other key to what it did before. */
  lemma PutGet<K, V>(m: seq<Entry<K, V>>, k: K, v: V, k': K)
    requires DistinctKeys(m)
    ensures Get(Put(m, k, v), k') == if k' == k then Some(v) else Get(m, k')
  {
    var r := Put(m, k, v);
    if k' == k {
      var i := if HasKey(m, k) then IndexOf(m, k) else |m|;
      GetAt(r, i);
    } else if HasKey(m, k') {
      var i := IndexOf(m, k');
      GetAt(m, i);
      GetAt(r, i);
    } else {
      forall j | 0 <= j < |r| ensures r[j].key != k' {
        assert r[j].key == k || (j < |m| && r[j].key == m[j].key);
      }
    }
  }

  /** Putting the same entry twice is the same as putting it once. */
  lemma PutIdempotent<K, V>(m: seq<Entry<K, V>>, k: K, v: V)
    requires DistinctKeys(m)
    ensures Put(Put(m, k, v), k, v) == Put(m, k, v)
  {
    var r := Put(m, k, v);
    assert HasKey(r, k) by {
      var i := if HasKey(m, k) then IndexOf(m, k) else |m|;
      assert r[i].key == k;
    }
  }

  /** After `remove(k)`, `k` is absent and every other key maps to what it did before. */
  lemma RemoveGet<K, V>(m: seq<Entry<K, V>>, k: K, k': K)
    requires DistinctKeys(m)
    ensures Get(Remove(m, k), k') == if k' == k then None else Get(m, k')
  {
    var r := Remove(m, k);
    RemoveSubset(m, k);
    RemoveKeepsDistinct(m, k);
    if k' == k {
      assert !HasKey(r, k);
    } else if HasKey(m, k') {
      var i := IndexOf(m, k');
      GetAt(m, i);
      if HasKey(m, k) {
        RemoveAt(m, k);
        var d := IndexOf(m, k);
        var j := if i < d then i else i - 1;
        assert r[j] == m[i];
        GetAt(r, j);
      } else {
        GetAt(r, i);
      }
    } else {
      forall j | 0 <= j < |r| ensures r[j].key != k' {
        assert r[j] in m;
      }
    }
  }

  /** After `filterValues(p)`, a key keeps its value when the value satisfies
      `p` and is absent otherwise. */
  lemma FilterGet<K, V>(m: seq<Entry<K, V>>, p: V -> bool, k: K)
    requires DistinctKeys(m)
    ensures Get(FilterValues(m, p), k) == match Get(m, k)
      case Some(v) => if p(v) then Some(v) else None
      case None => None
  {
    var r := FilterValues(m, p);
    FilterMembers(m, p);
    FilterKeepsDistinct(m, p);
    if HasKey(m, k) {
      var i := IndexOf(m, k);
      GetAt(m, i);
      if p(m[i].value) {
        var j :| 0 <= j < |r| && r[j] == m[i];
        GetAt(r, j);
      } else {
        forall j | 0 <= j < |r| ensures r[j].key != k {
          var i' :| 0 <= i' < |m| && m[i'] == r[j];
          assert m[i'].key == k ==> i' == i;
        }
      }
    } else {
      forall j | 0 <= j < |r| ensures r[j].key != k {
        assert r[j] in m;
      }
    }
  }
}
