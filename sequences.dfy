/** Generic operations over sequences of keyed records: the `findIndex` and
    `filter` steps the store performs on its persisted arrays, and the facts
    about them that the store's contracts rely on. A record's key is given by
    a projection function (its id, its course id, its catalog code). */
module Sequences {

  datatype Option<T> = None | Some(value: T)

  function Max(a: nat, b: nat): nat { if a < b then b else a }

  /** Index of the first element whose key is `k`, or None when there is none. */
  function FindIndex<T, K(==)>(s: seq<T>, key: T -> K, k: K): (r: Option<nat>)
    ensures r.Some? ==> r.value < |s| && key(s[r.value]) == k
    ensures r.Some? ==> forall j :: 0 <= j < r.value ==> key(s[j]) != k
    ensures r.None? <==> forall j :: 0 <= j < |s| ==> key(s[j]) != k
  {
    if s == [] then None
    else if key(s[0]) == k then Some(0)
    else
      match FindIndex(s[1..], key, k)
      case None => None
      case Some(i) =>
        assert forall j :: 1 <= j < i + 1 ==> s[j] == s[1..][j - 1];
        Some(i + 1)
  }

  /** The elements whose key is in `ks`, in their original order. */
  function Keep<T, K(==)>(s: seq<T>, key: T -> K, ks: set<K>): (r: seq<T>)
    ensures |r| <= |s|
    ensures forall j :: 0 <= j < |r| ==> r[j] in s && key(r[j]) in ks
    ensures forall j :: 0 <= j < |s| && key(s[j]) in ks ==> s[j] in r
  {
    if s == [] then []
    else if key(s[0]) in ks then [s[0]] + Keep(s[1..], key, ks)
    else Keep(s[1..], key, ks)
  }

  /** The elements whose key is not in `ks`, in their original order. */
  function Drop<T, K(==)>(s: seq<T>, key: T -> K, ks: set<K>): (r: seq<T>)
    ensures |r| <= |s|
    ensures forall j :: 0 <= j < |r| ==> r[j] in s && key(r[j]) !in ks
    ensures forall j :: 0 <= j < |s| && key(s[j]) !in ks ==> s[j] in r
  {
    if s == [] then []
    else if key(s[0]) in ks then Drop(s[1..], key, ks)
    else [s[0]] + Drop(s[1..], key, ks)
  }

  /** One more than the largest key of `s`, or 0 when it is empty. */
  function Bound<T>(s: seq<T>, key: T -> nat): nat {
    if s == [] then 0 else Max(Bound(s[..|s| - 1], key), key(s[|s| - 1]) + 1)
  }

  /** The bound lies above every key. */
  lemma {:induction false} BoundAbove<T>(s: seq<T>, key: T -> nat)
    ensures forall j :: 0 <= j < |s| ==> key(s[j]) < Bound(s, key)
  {
    if s != [] {
      var init := s[..|s| - 1];
      BoundAbove(init, key);
      assert forall j :: 0 <= j < |s| - 1 ==> init[j] == s[j];
    }
  }

  /** The bound is the least number above every key. */
  lemma {:induction false} BoundLeast<T>(s: seq<T>, key: T -> nat, n: nat)
    requires forall j :: 0 <= j < |s| ==> key(s[j]) < n
    ensures Bound(s, key) <= n
  {
    if s != [] {
      var init := s[..|s| - 1];
      assert forall j :: 0 <= j < |s| - 1 ==> init[j] == s[j];
      BoundLeast(init, key, n);
    }
  }

  /** Every key of `s` lies below `n`. */
  ghost predicate AllBelow<T>(s: seq<T>, key: T -> nat, n: nat) {
    forall j :: 0 <= j < |s| ==> key(s[j]) < n
  }

  lemma AllBelowAppend<T>(s: seq<T>, x: T, key: T -> nat, n: nat)
    requires AllBelow(s, key, n) && key(x) < n
    ensures AllBelow(s + [x], key, n)
  {
    assert forall j :: 0 <= j < |s| ==> (s + [x])[j] == s[j];
  }

  /** Dropping elements (selected by any projection) keeps the keys of the rest below `n`. */
  lemma AllBelowDrop<T, L>(s: seq<T>, key: T -> nat, select: T -> L, ks: set<L>, n: nat)
    requires AllBelow(s, key, n)
    ensures AllBelow(Drop(s, select, ks), key, n)
  {
    var d := Drop(s, select, ks);
    forall j | 0 <= j < |d| ensures key(d[j]) < n {
      var m :| 0 <= m < |s| && s[m] == d[j];
    }
  }

  /** No two elements of `s` share a key. */
  ghost predicate UniqueKeys<T, K>(s: seq<T>, key: T -> K) {
    forall i, j :: 0 <= i < j < |s| ==> key(s[i]) != key(s[j])
  }

  /** Keeping distributes over concatenation: the order of what survives is
      the order of the input. */
  lemma {:induction false} KeepAppend<T, K>(a: seq<T>, b: seq<T>, key: T -> K, ks: set<K>)
    ensures Keep(a + b, key, ks) == Keep(a, key, ks) + Keep(b, key, ks)
  {
    if a == [] {
      assert a + b == b;
    } else {
      assert (a + b)[1..] == a[1..] + b;
      KeepAppend(a[1..], b, key, ks);
    }
  }

  /** Keeping from a single element. */
  lemma KeepSingleton<T, K>(x: T, key: T -> K, ks: set<K>)
    ensures Keep([x], key, ks) == if key(x) in ks then [x] else []
  {
    assert [x][1..] == [];
  }

  /** An element whose key is not kept is skipped wherever it stands. */
  lemma KeepSkip<T, K>(a: seq<T>, x: T, b: seq<T>, key: T -> K, ks: set<K>)
    requires key(x) !in ks
    ensures Keep(a + [x] + b, key, ks) == Keep(a + b, key, ks)
  {
    KeepAppend(a + [x], b, key, ks);
    KeepAppend(a, [x], key, ks);
    KeepAppend(a, b, key, ks);
    KeepSingleton(x, key, ks);
    assert Keep(a, key, ks) + [] == Keep(a, key, ks);
  }

  /** Dropping distributes over concatenation: the order of what survives is
      the order of the input. */
  lemma {:induction false} DropAppend<T, K>(a: seq<T>, b: seq<T>, key: T -> K, ks: set<K>)
    ensures Drop(a + b, key, ks) == Drop(a, key, ks) + Drop(b, key, ks)
  {
    if a == [] {
      assert a + b == b;
    } else {
      assert (a + b)[1..] == a[1..] + b;
      DropAppend(a[1..], b, key, ks);
    }
  }

  /** Keep and Drop split a sequence: together they hold every element exactly
      as often as the input does. */
  lemma {:induction false} KeepDropPartition<T, K>(s: seq<T>, key: T -> K, ks: set<K>)
    ensures multiset(Keep(s, key, ks)) + multiset(Drop(s, key, ks)) == multiset(s)
  {
    if s != [] {
      KeepDropPartition(s[1..], key, ks);
      assert s == [s[0]] + s[1..];
    }
  }

  /** Dropping keys that no element carries changes nothing. */
  lemma {:induction false} DropNone<T, K>(s: seq<T>, key: T -> K, ks: set<K>)
    requires forall j :: 0 <= j < |s| ==> key(s[j]) !in ks
    ensures Drop(s, key, ks) == s
  {
    if s != [] {
      DropNone(s[1..], key, ks);
      assert s == [s[0]] + s[1..];
    }
  }

  /** Dropping every key the elements carry leaves nothing. */
  lemma {:induction false} DropAll<T, K>(s: seq<T>, key: T -> K, ks: set<K>)
    requires forall j :: 0 <= j < |s| ==> key(s[j]) in ks
    ensures Drop(s, key, ks) == []
  {
    if s != [] {
      DropAll(s[1..], key, ks);
    }
  }

  /** Dropping elements (selected by any projection `select`) keeps the keys of
      the rest distinct. */
  lemma {:induction false} UniqueDrop<T, K, L>(s: seq<T>, key: T -> K, select: T -> L, ks: set<L>)
    requires UniqueKeys(s, key)
    ensures UniqueKeys(Drop(s, select, ks), key)
  {
    if s != [] {
      var t := s[1..];
      assert UniqueKeys(t, key) by {
        forall i, j | 0 <= i < j < |t| ensures key(t[i]) != key(t[j]) {
          assert t[i] == s[i + 1] && t[j] == s[j + 1];
        }
      }
      UniqueDrop(t, key, select, ks);
      var d := Drop(t, select, ks);
      if select(s[0]) !in ks {
        forall j | 0 <= j < |d| ensures key(s[0]) != key(d[j]) {
          var m :| 0 <= m < |t| && t[m] == d[j];
          assert t[m] == s[m + 1];
        }
        var r := [s[0]] + d;
        forall i, j | 0 <= i < j < |r| ensures key(r[i]) != key(r[j]) {
          if i == 0 {
            assert r[j] == d[j - 1];
          } else {
            assert r[i] == d[i - 1] && r[j] == d[j - 1];
          }
        }
      }
    }
  }

  /** Appending an element with a key no element carries keeps the keys distinct. */
  lemma UniqueAppendFresh<T, K>(s: seq<T>, x: T, key: T -> K)
    requires UniqueKeys(s, key)
    requires forall j :: 0 <= j < |s| ==> key(s[j]) != key(x)
    ensures UniqueKeys(s + [x], key)
  {
    var r := s + [x];
    forall i, j | 0 <= i < j < |r| ensures key(r[i]) != key(r[j]) {
      assert r[i] == s[i];
      if j < |s| { assert r[j] == s[j]; }
    }
  }

  /** Overwriting an element by one with the same key keeps the keys distinct. */
  lemma UniqueUpdate<T, K>(s: seq<T>, i: nat, x: T, key: T -> K)
    requires UniqueKeys(s, key)
    requires i < |s| && key(s[i]) == key(x)
    ensures UniqueKeys(s[i := x], key)
  {
    var r := s[i := x];
    forall a, b | 0 <= a < b < |r| ensures key(r[a]) != key(r[b]) {
      assert key(r[a]) == key(s[a]) && key(r[b]) == key(s[b]);
    }
  }

  /** With distinct keys, the first match for a key is the only element carrying it. */
  lemma FindUnique<T, K>(s: seq<T>, key: T -> K, i: nat)
    requires UniqueKeys(s, key)
    requires i < |s|
    ensures FindIndex(s, key, key(s[i])) == Some(i)
  {
  }

  /** An element appended with a key not yet present is found again at the end. */
  lemma FindAppendFresh<T, K>(s: seq<T>, x: T, key: T -> K)
    requires forall j :: 0 <= j < |s| ==> key(s[j]) != key(x)
    ensures FindIndex(s + [x], key, key(x)) == Some(|s|)
  {
    assert (s + [x])[|s|] == x;
    assert forall j :: 0 <= j < |s| ==> (s + [x])[j] == s[j];
  }
}
