/** Distance ranking as `/nearby` and `/recommended` do it: `Array.prototype.sort` with the
    comparator `distA - distB`, where a place without coordinates has distance Infinity.
    The sort is stable (section 23.1.3.30 of ECMA-262), and a NaN comparator result
    (Infinity - Infinity) counts as +0, so such places compare equal to one another. */
module Ranking {
  import opened Seqs

  /** The comparator's view of a place: a finite distance in km, or Infinity. */
  datatype Dist = Finite(km: real) | Infinity

  /** The sign of `a - b` as the sort reads it; Infinity - Infinity is NaN, read as 0. */
  function Compare(a: Dist, b: Dist): (r: int)
    ensures -1 <= r <= 1
    ensures r == 0 <==> a == b
  {
    if a.Infinity? then (if b.Infinity? then 0 else 1)
    else if b.Infinity? then -1
    else if a.km < b.km then -1
    else if a.km == b.km then 0
    else 1
  }

  /** Finite distances compare by value, equal only when equal, and every finite distance
      is smaller than Infinity. */
  lemma CompareMeaning(a: Dist, b: Dist)
    ensures Compare(a, b) == 0 <==> a == b
    ensures a.Finite? && b.Infinity? ==> Compare(a, b) < 0
    ensures a.Finite? && b.Finite? ==> (Compare(a, b) <= 0 <==> a.km <= b.km)
  {
  }

  /** The comparator is consistent in the sense of ECMA-262: antisymmetric and transitive,
      so a stable sort with it has exactly one possible result. */
  lemma CompareIsConsistent(a: Dist, b: Dist, c: Dist)
    ensures Compare(a, b) < 0 <==> Compare(b, a) > 0
    ensures Compare(a, b) <= 0 && Compare(b, c) <= 0 ==> Compare(a, c) <= 0
    ensures Compare(a, b) < 0 && Compare(b, c) <= 0 ==> Compare(a, c) < 0
  {
  }

  ghost predicate SortedBy<T>(s: seq<T>, key: T -> Dist) {
    forall i, j :: 0 <= i < j < |s| ==> Compare(key(s[i]), key(s[j])) <= 0
  }

  /** Inserts `x` in front of the first element of `t` that is not smaller than it. */
  function Insert<T>(t: seq<T>, x: T, key: T -> Dist): (r: seq<T>)
    ensures |r| == |t| + 1
  {
    if t == [] then [x]
    else if Compare(key(t[0]), key(x)) >= 0 then [x] + t
    else [t[0]] + Insert(t[1..], x, key)
  }

  lemma {:induction false} InsertPermutes<T>(t: seq<T>, x: T, key: T -> Dist)
    ensures multiset(Insert(t, x, key)) == multiset(t) + multiset{x}
  {
    if t != [] && Compare(key(t[0]), key(x)) < 0 {
      InsertPermutes(t[1..], x, key);
      assert t == [t[0]] + t[1..];
    }
  }

  /** The stable sort of `s` by `key`: the head is inserted into the sorted tail in front of
      every element with an equal key, so equal keys keep their input order. */
  function StableSort<T>(s: seq<T>, key: T -> Dist): (r: seq<T>)
    ensures |r| == |s|
  {
    if s == [] then []
    else Insert(StableSort(s[1..], key), s[0], key)
  }

  /** The sort is a permutation: nothing is lost or duplicated. */
  lemma {:induction false} StableSortPermutes<T>(s: seq<T>, key: T -> Dist)
    ensures multiset(StableSort(s, key)) == multiset(s)
  {
    if s != [] {
      StableSortPermutes(s[1..], key);
      InsertPermutes(StableSort(s[1..], key), s[0], key);
      assert s == [s[0]] + s[1..];
    }
  }

  /** Selects the elements whose key is exactly `k`. */
  function HasKey<T>(key: T -> Dist, k: Dist): T -> bool {
    e => key(e) == k
  }

  lemma {:induction false} InsertSorted<T>(t: seq<T>, x: T, key: T -> Dist)
    requires SortedBy(t, key)
    ensures SortedBy(Insert(t, x, key), key)
  {
    if t != [] && Compare(key(t[0]), key(x)) < 0 {
      InsertSorted(t[1..], x, key);
      var r := Insert(t[1..], x, key);
      InsertPermutes(t[1..], x, key);
      forall i | 0 <= i < |r| ensures Compare(key(t[0]), key(r[i])) <= 0 {
        assert r[i] in multiset(t[1..]) + multiset{x};
      }
    } else if t != [] {
      forall i | 0 <= i < |t| ensures Compare(key(x), key(t[i])) <= 0 {
        CompareIsConsistent(key(x), key(t[0]), key(t[i]));
      }
    }
  }

  /** The result of StableSort is ordered by the comparator. */
  lemma {:induction false} StableSortSorted<T>(s: seq<T>, key: T -> Dist)
    ensures SortedBy(StableSort(s, key), key)
  {
    if s != [] {
      StableSortSorted(s[1..], key);
      InsertSorted(StableSort(s[1..], key), s[0], key);
    }
  }

  lemma {:induction false} InsertStable<T>(t: seq<T>, x: T, key: T -> Dist, k: Dist)
    ensures Filter(Insert(t, x, key), HasKey(key, k)) == Filter([x], HasKey(key, k)) + Filter(t, HasKey(key, k))
  {
    var f := HasKey(key, k);
    if t == [] {
      assert [x] + t == [x];
    } else if Compare(key(t[0]), key(x)) >= 0 {
      FilterAppend([x], t, f);
    } else {
      InsertStable(t[1..], x, key, k);
      FilterAppend([t[0]], Insert(t[1..], x, key), f);
      FilterAppend([t[0]], t[1..], f);
      assert [t[0]] + t[1..] == t;
    }
  }

  /** Stability: the elements sharing any one key come out in their input order. */
  lemma {:induction false} StableSortStable<T>(s: seq<T>, key: T -> Dist, k: Dist)
    ensures Filter(StableSort(s, key), HasKey(key, k)) == Filter(s, HasKey(key, k))
  {
    if s != [] {
      StableSortStable(s[1..], key, k);
      InsertStable(StableSort(s[1..], key), s[0], key, k);
      FilterAppend([s[0]], s[1..], HasKey(key, k));
      assert [s[0]] + s[1..] == s;
    }
  }

  /** Insert puts `x` right before the first element that is not smaller than it. */
  lemma {:induction false} InsertAt<T>(t: seq<T>, p: nat, x: T, key: T -> Dist)
    requires p <= |t|
    requires forall k :: 0 <= k < p ==> Compare(key(t[k]), key(x)) < 0
    requires p < |t| ==> Compare(key(t[p]), key(x)) >= 0
    ensures Insert(t, x, key) == t[..p] + [x] + t[p..]
  {
    if p > 0 {
      var tail := t[1..];
      assert Compare(key(t[0]), key(x)) < 0;
      forall k | 0 <= k < p - 1 ensures Compare(key(tail[k]), key(x)) < 0 {
        assert tail[k] == t[k + 1];
      }
      assert p - 1 < |tail| ==> tail[p - 1] == t[p];
      InsertAt(tail, p - 1, x, key);
      assert tail[..p - 1] == t[1..p];
      assert tail[p - 1..] == t[p..];
      assert t[..p] == [t[0]] + t[1..p];
    }
  }

  /** The array contents the shifting loop of InsertInPlace leaves behind are the insertion. */
  lemma ShiftedIsInsert<T>(b: seq<T>, o: seq<T>, i: nat, j: nat, x: T, key: T -> Dist)
    requires |b| == |o| && i <= j < |b|
    requires forall k :: 0 <= k < i ==> b[k] == o[k]
    requires forall k :: i <= k < j ==> b[k] == o[k + 1] && Compare(key(o[k + 1]), key(x)) < 0
    requires b[j] == x
    requires forall k :: j < k < |b| ==> b[k] == o[k]
    requires j + 1 < |o| ==> Compare(key(o[j + 1]), key(x)) >= 0
    ensures b[i..] == Insert(o[i + 1..], x, key)
    ensures b[..i] == o[..i]
  {
    var t := o[i + 1..];
    forall k | 0 <= k < j - i ensures Compare(key(t[k]), key(x)) < 0 {
      assert b[i + k] == o[i + k + 1] == t[k];
    }
    assert j - i < |t| ==> t[j - i] == o[j + 1];
    InsertAt(t, j - i, x, key);
    assert b[i..] == t[..j - i] + [x] + t[j - i..];
  }

  /** One step of the in-place sort: moves `a[i]` right past every smaller element of the
      already sorted suffix `a[i + 1..]`. */
  method InsertInPlace<T>(a: array<T>, i: nat, key: T -> Dist)
    requires i < a.Length
    modifies a
    ensures a[i..] == Insert(old(a[i + 1..]), old(a[i]), key)
    ensures a[..i] == old(a[..i])
  {
    var x := a[i];
    ghost var o := a[..];
    var j := i;
    while j + 1 < a.Length && Compare(key(a[j + 1]), key(x)) < 0
      invariant i <= j < a.Length
      invariant forall k :: 0 <= k < i ==> a[k] == o[k]
      invariant forall k :: i <= k < j ==> a[k] == o[k + 1] && Compare(key(o[k + 1]), key(x)) < 0
      invariant forall k :: j < k < a.Length ==> a[k] == o[k]
    {
      assert a[j + 1] == o[j + 1];
      a[j] := a[j + 1];
      j := j + 1;
    }
    ghost var shifted := a[..];
    a[j] := x;
    ghost var b := shifted[j := x];
    assert a[..] == b;
    forall k | i <= k < j ensures b[k] == o[k + 1] && Compare(key(o[k + 1]), key(x)) < 0 {
      assert b[k] == shifted[k];
    }
    ShiftedIsInsert(b, o, i, j, x, key);
  }

  /** `a.sort(cmp)` in place, as an insertion sort that grows a sorted suffix. */
  method SortInPlace<T>(a: array<T>, key: T -> Dist)
    modifies a
    ensures a[..] == StableSort(old(a[..]), key)
  {
    ghost var s := a[..];
    var i := a.Length;
    while i > 0
      invariant 0 <= i <= a.Length
      invariant a[i..] == StableSort(s[i..], key)
      invariant a[..i] == s[..i]
    {
      i := i - 1;
      ghost var suffix := s[i..];
      assert suffix[1..] == s[i + 1..];
      assert a[i] == s[i] == suffix[0];
      assert a[i + 1..] == StableSort(suffix[1..], key);
      InsertInPlace(a, i, key);
      assert a[..i] == s[..i];
    }
    assert s[0..] == s;
  }
}
