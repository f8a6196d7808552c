/**
 * Generic queries over a table held as a sequence of rows: the first row
 * satisfying a condition, all rows satisfying it, how many do, and a sort
 * by an integer key (the ORDER BY of a derived query).
 */
module Seqs {
  import opened Entities

  /** Index of the first row satisfying `p`, if any. */
  function FindIndex<T>(s: seq<T>, p: T -> bool): (r: Option<nat>)
    ensures r.Some? ==> r.value < |s| && p(s[r.value])
    ensures r.Some? ==> forall i :: 0 <= i < r.value ==> !p(s[i])
    ensures r.None? ==> forall i :: 0 <= i < |s| ==> !p(s[i])
  {
    if s == [] then None
    else if p(s[0]) then Some(0)
    else
      var t := FindIndex(s[1..], p);
      if t.Some? then Some(t.value + 1) else None
  }

  /** The first row satisfying `p`, if any. */
  function Find<T(!new)>(s: seq<T>, p: T -> bool): (r: Option<T>)
    ensures r.Some? ==> r.value in s && p(r.value)
    ensures r.None? <==> forall x :: x in s ==> !p(x)
  {
    var i := FindIndex(s, p);
    if i.Some? then Some(s[i.value]) else None
  }

  /** The rows satisfying `p`, in table order. */
  function Filter<T(!new)>(s: seq<T>, p: T -> bool): (r: seq<T>)
    ensures |r| <= |s|
    ensures forall x :: x in r <==> x in s && p(x)
    ensures forall i :: 0 <= i < |r| ==> p(r[i])
    ensures forall x :: multiset(r)[x] == if p(x) then multiset(s)[x] else 0
  {
    if s == [] then []
    else
      assert s == [s[0]] + s[1..];
      if p(s[0]) then [s[0]] + Filter(s[1..], p)
      else Filter(s[1..], p)
  }

  /** Number of rows satisfying `p`. */
  function Count<T>(s: seq<T>, p: T -> bool): (n: nat)
    ensures n <= |s|
    ensures n == 0 <==> forall i :: 0 <= i < |s| ==> !p(s[i])
  {
    if s == [] then 0
    else (if p(s[0]) then 1 else 0) + Count(s[1..], p)
  }

  /** Counting the rows satisfying `p` is the length of their filter. */
  lemma {:induction false} CountIsFilterLength<T(!new)>(s: seq<T>, p: T -> bool)
    ensures Count(s, p) == |Filter(s, p)|
  {
    if s != [] {
      CountIsFilterLength(s[1..], p);
    }
  }

  /** `s` is ordered by non-decreasing `key`. */
  ghost predicate SortedBy<T>(s: seq<T>, key: T -> int)
  {
    forall i, j :: 0 <= i < j < |s| ==> key(s[i]) <= key(s[j])
  }

  /** Inserts `x` into `s` before the first row whose key is not smaller. */
  function Insert<T>(x: T, s: seq<T>, key: T -> int): (r: seq<T>)
    ensures multiset(r) == multiset(s) + multiset{x}
    ensures SortedBy(s, key) ==> SortedBy(r, key)
  {
    if s == [] then [x]
    else if key(x) <= key(s[0]) then [x] + s
    else
      var t := Insert(x, s[1..], key);
      assert s == [s[0]] + s[1..];
      InsertHead(s[0], x, s[1..], t, key);
      [s[0]] + t
  }

  /** The head of a sorted sequence stays in front when `x` goes behind it. */
  lemma InsertHead<T>(h: T, x: T, s: seq<T>, t: seq<T>, key: T -> int)
    requires key(h) < key(x)
    requires multiset(t) == multiset(s) + multiset{x}
    requires SortedBy(s, key) ==> SortedBy(t, key)
    ensures SortedBy([h] + s, key) ==> SortedBy([h] + t, key)
  {
    var hs := [h] + s;
    if SortedBy(hs, key) {
      assert SortedBy(s, key) by {
        forall i, j | 0 <= i < j < |s| ensures key(s[i]) <= key(s[j]) {
          assert s[i] == hs[i + 1] && s[j] == hs[j + 1];
        }
      }
      forall k | 0 <= k < |t| ensures key(h) <= key(t[k]) {
        assert t[k] in multiset(t);
        if t[k] != x {
          assert t[k] in multiset(s);
          var m :| 0 <= m < |s| && s[m] == t[k];
          assert hs[0] == h && hs[m + 1] == s[m];
          assert key(hs[0]) <= key(hs[m + 1]);
        }
      }
      var r := [h] + t;
      forall i, j | 0 <= i < j < |r| ensures key(r[i]) <= key(r[j]) {
        if i > 0 { assert r[i] == t[i - 1] && r[j] == t[j - 1]; }
        else { assert r[i] == h && r[j] == t[j - 1]; }
      }
    }
  }

  /** The rows of `s` reordered by non-decreasing `key` (insertion sort). */
  function SortBy<T>(s: seq<T>, key: T -> int): (r: seq<T>)
    ensures multiset(r) == multiset(s)
    ensures |r| == |s|
    ensures SortedBy(r, key)
  {
    if s == [] then []
    else
      assert s == [s[0]] + s[1..];
      Insert(s[0], SortBy(s[1..], key), key)
  }

  /** Sorting keeps exactly the rows it was given. */
  lemma SortByKeepsRows<T>(s: seq<T>, key: T -> int, x: T)
    ensures x in SortBy(s, key) <==> x in s
  {
    assert x in SortBy(s, key) <==> x in multiset(SortBy(s, key));
    assert x in s <==> x in multiset(s);
  }
}
