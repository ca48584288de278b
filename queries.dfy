/**
 * The linear scans the directory is built from: `std::find_if` (first match
 * in sequence order), the filtering loops that copy matching records in
 * order, and key uniqueness over a collection.
 */
module Queries {
  import opened Wrappers

  /** The index of the first element whose key is `k` (`std::find_if`). */
  function FirstIndex<T, K(==)>(s: seq<T>, key: T -> K, k: K): (r: Option<nat>)
    ensures r.Some? ==> r.value < |s| && key(s[r.value]) == k
    ensures r.Some? ==> forall j :: 0 <= j < r.value ==> key(s[j]) != k
    ensures r.None? ==> forall j :: 0 <= j < |s| ==> key(s[j]) != k
  {
    if s == [] then None
    else if key(s[0]) == k then Some(0)
    else match FirstIndex(s[1..], key, k)
      case None => None
      case Some(i) => Some(i + 1)
  }

  /** The elements whose key is `k`, in their original order. */
  function Filter<T, K(==)>(s: seq<T>, key: T -> K, k: K): seq<T>
  {
    if s == [] then [] else (if key(s[0]) == k then [s[0]] else []) + Filter(s[1..], key, k)
  }

  /** Filtering distributes over concatenation, so the result keeps the original order. */
  lemma {:induction false} FilterConcat<T, K>(a: seq<T>, b: seq<T>, key: T -> K, k: K)
    ensures Filter(a + b, key, k) == Filter(a, key, k) + Filter(b, key, k)
  {
    if a == [] {
      assert a + b == b;
    } else {
      var head := if key(a[0]) == k then [a[0]] else [];
      assert (a + b)[0] == a[0] && (a + b)[1..] == a[1..] + b;
      assert Filter(a + b, key, k) == head + Filter(a[1..] + b, key, k);
      FilterConcat(a[1..], b, key, k);
      assert Filter(a, key, k) == head + Filter(a[1..], key, k);
    }
  }

  /** Exactly the elements whose key is `k` appear in the filtered sequence. */
  lemma {:induction false} FilterMembers<T, K>(s: seq<T>, key: T -> K, k: K, x: T)
    ensures x in Filter(s, key, k) <==> x in s && key(x) == k
  {
    if s != [] {
      FilterMembers(s[1..], key, k, x);
      assert s == [s[0]] + s[1..];
    }
  }

  /** The filtering loop of the directory's queries. */
  method Collect<T, K(==)>(s: seq<T>, key: T -> K, k: K) returns (r: seq<T>)
    ensures r == Filter(s, key, k)
  {
    r := [];
    var i := 0;
    while i < |s|
      invariant 0 <= i <= |s|
      invariant r == Filter(s[..i], key, k)
    {
      assert s[..i + 1] == s[..i] + [s[i]];
      FilterConcat(s[..i], [s[i]], key, k);
      if key(s[i]) == k {
        r := r + [s[i]];
      }
      i := i + 1;
    }
    assert s[..|s|] == s;
  }

  /** No two elements share a key. */
  predicate UniqueKeys<T, K(==)>(s: seq<T>, key: T -> K)
  {
    forall i, j :: 0 <= i < j < |s| ==> key(s[i]) != key(s[j])
  }

  /** Appending an element whose key is not present keeps the keys unique. */
  lemma AppendFreshKeepsUnique<T, K>(s: seq<T>, key: T -> K, x: T)
    requires UniqueKeys(s, key) && FirstIndex(s, key, key(x)).None?
    ensures UniqueKeys(s + [x], key)
  {
    var t := s + [x];
    forall i, j | 0 <= i < j < |t| ensures key(t[i]) != key(t[j]) {
      if j == |s| {
        assert t[i] == s[i];
      } else {
        assert t[i] == s[i] && t[j] == s[j];
      }
    }
  }

  /** Removing one element keeps the keys unique and leaves the others in order. */
  lemma RemoveKeepsUnique<T, K>(s: seq<T>, key: T -> K, i: nat)
    requires UniqueKeys(s, key) && i < |s|
    ensures UniqueKeys(s[..i] + s[i + 1..], key)
  {
    var t := s[..i] + s[i + 1..];
    forall a, b | 0 <= a < b < |t| ensures key(t[a]) != key(t[b]) {
      var a', b' := if a < i then a else a + 1, if b < i then b else b + 1;
      assert t[a] == s[a'] && t[b] == s[b'];
    }
  }

  /** With unique keys, removing the element with key `k` leaves no element with that key. */
  lemma RemoveLeavesNoMatch<T, K>(s: seq<T>, key: T -> K, i: nat)
    requires UniqueKeys(s, key) && i < |s|
    ensures FirstIndex(s[..i] + s[i + 1..], key, key(s[i])).None?
  {
    var t := s[..i] + s[i + 1..];
    forall a | 0 <= a < |t| ensures key(t[a]) != key(s[i]) {
      if a < i {
        assert t[a] == s[a];
      } else {
        assert t[a] == s[a + 1];
      }
    }
  }

  /** Changing an element without changing its key keeps the keys unique. */
  lemma UpdateKeepsUnique<T, K>(s: seq<T>, key: T -> K, i: nat, x: T)
    requires UniqueKeys(s, key) && i < |s| && key(x) == key(s[i])
    ensures UniqueKeys(s[i := x], key)
  {
    var t := s[i := x];
    forall a, b | 0 <= a < b < |t| ensures key(t[a]) != key(t[b]) {
      assert key(t[a]) == key(s[a]) && key(t[b]) == key(s[b]);
    }
  }

  /** Appending an element changes the first match only when there was none before. */
  lemma {:induction false} FirstIndexAppend<T, K>(s: seq<T>, key: T -> K, k: K, x: T)
    ensures FirstIndex(s + [x], key, k) ==
      if FirstIndex(s, key, k).Some? then FirstIndex(s, key, k)
      else if key(x) == k then Some(|s|) else None
  {
    if s == [] {
      assert s + [x] == [x] && [x][1..] == [];
    } else {
      assert (s + [x])[0] == s[0] && (s + [x])[1..] == s[1..] + [x];
      if key(s[0]) != k {
        FirstIndexAppend(s[1..], key, k, x);
      }
    }
  }

  /** Removing an element whose key is not `k` leaves the elements with key `k` as they were. */
  lemma FilterRemoveOther<T, K>(s: seq<T>, key: T -> K, k: K, i: nat)
    requires i < |s| && key(s[i]) != k
    ensures Filter(s[..i] + s[i + 1..], key, k) == Filter(s, key, k)
  {
    var a, x, b := s[..i], s[i], s[i + 1..];
    assert s == a + ([x] + b);
    FilterConcat(a, [x] + b, key, k);
    FilterConcat([x], b, key, k);
    FilterConcat(a, b, key, k);
    FilterSingleton(x, key, k);
  }

  lemma FilterSingleton<T, K>(x: T, key: T -> K, k: K)
    ensures Filter([x], key, k) == if key(x) == k then [x] else []
  {
    assert [x][1..] == [];
  }

  /** The key of every element, in order (the loops that collect the existing ids). */
  function KeysOf<T, K>(s: seq<T>, key: T -> K): (ks: seq<K>)
    ensures |ks| == |s| && forall i :: 0 <= i < |s| ==> ks[i] == key(s[i])
  {
    if s == [] then [] else KeysOf(s[..|s| - 1], key) + [key(s[|s| - 1])]
  }

  /** A key occurs among the keys exactly when the search for it succeeds. */
  lemma KeysOfFinds<T, K>(s: seq<T>, key: T -> K, k: K)
    ensures k in KeysOf(s, key) <==> FirstIndex(s, key, k).Some?
  {
    if FirstIndex(s, key, k).Some? {
      assert KeysOf(s, key)[FirstIndex(s, key, k).value] == k;
    }
  }

  method Keys<T, K>(s: seq<T>, key: T -> K) returns (ks: seq<K>)
    ensures ks == KeysOf(s, key)
  {
    ks := [];
    var i := 0;
    while i < |s|
      invariant 0 <= i <= |s|
      invariant ks == KeysOf(s[..i], key)
    {
      assert s[..i + 1][..i] == s[..i];
      ks := ks + [key(s[i])];
      i := i + 1;
    }
    assert s[..|s|] == s;
  }
}
