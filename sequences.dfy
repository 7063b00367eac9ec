/** The two query shapes the routes ask of the database: selecting the
    documents that satisfy a condition (`find({ ... })`, `deleteMany`), and
    ordering them newest first (`sort({ createdAt: -1 })`). Documents with
    equal timestamps come out in the order an insertion sort leaves them;
    the database promises no particular order for such ties. */
module Sequences {

  /** The elements of `s` that satisfy `keep`, in their order in `s`. */
  function Filter<T(!new)>(s: seq<T>, keep: T -> bool): (r: seq<T>)
    ensures |r| <= |s|
    ensures forall k :: 0 <= k < |r| ==> keep(r[k])
  {
    if s == [] then []
    else
      var init := s[..|s| - 1];
      assert s == init + [s[|s| - 1]];
      Filter(init, keep) + if keep(s[|s| - 1]) then [s[|s| - 1]] else []
  }

  /** Filtering keeps every occurrence of a kept element and drops every
      occurrence of the others. */
  lemma {:induction false} FilterCounts<T(!new)>(s: seq<T>, keep: T -> bool, x: T)
    ensures multiset(Filter(s, keep))[x] == if keep(x) then multiset(s)[x] else 0
  {
    if s != [] {
      var init := s[..|s| - 1];
      assert s == init + [s[|s| - 1]];
      FilterCounts(init, keep, x);
    }
  }

  /** An element is in the filtered sequence exactly when it is in `s` and
      satisfies `keep`. */
  lemma FilterMembers<T(!new)>(s: seq<T>, keep: T -> bool, x: T)
    ensures x in Filter(s, keep) <==> x in s && keep(x)
  {
    FilterCounts(s, keep, x);
    assert x in Filter(s, keep) <==> multiset(Filter(s, keep))[x] > 0;
    assert x in s <==> multiset(s)[x] > 0;
  }

  /** Filtering after appending one element filters the element on its own. */
  lemma FilterAppend<T(!new)>(s: seq<T>, x: T, keep: T -> bool)
    ensures Filter(s + [x], keep) == Filter(s, keep) + if keep(x) then [x] else []
  {
    assert (s + [x])[..|s|] == s;
  }

  /** A filter that keeps every element keeps the sequence whole. */
  lemma {:induction false} FilterKeepsAll<T(!new)>(s: seq<T>, keep: T -> bool)
    requires forall k :: 0 <= k < |s| ==> keep(s[k])
    ensures Filter(s, keep) == s
  {
    if s != [] {
      var init := s[..|s| - 1];
      assert forall k :: 0 <= k < |init| ==> init[k] == s[k];
      FilterKeepsAll(init, keep);
      assert keep(s[|s| - 1]);
      assert Filter(s, keep) == Filter(init, keep) + [s[|s| - 1]];
      assert s == init + [s[|s| - 1]];
    }
  }

  /** Filtering twice with conditions that never both hold leaves nothing. */
  lemma {:induction false} FilterDisjoint<T(!new)>(s: seq<T>, keep: T -> bool, other: T -> bool)
    requires forall k :: 0 <= k < |s| ==> !(keep(s[k]) && other(s[k]))
    ensures Filter(Filter(s, keep), other) == []
  {
    if s != [] {
      var init := s[..|s| - 1];
      assert forall k :: 0 <= k < |init| ==> init[k] == s[k];
      var x := s[|s| - 1];
      FilterDisjoint(init, keep, other);
      assert Filter(s, keep) == Filter(init, keep) + if keep(x) then [x] else [];
      if keep(x) {
        assert !other(x);
        FilterAppend(Filter(init, keep), x, other);
        assert Filter(Filter(init, keep) + [x], other) == Filter(Filter(init, keep), other);
        assert Filter(s, keep) == Filter(init, keep) + [x];
      } else {
        assert Filter(s, keep) == Filter(init, keep) + [];
        assert Filter(init, keep) + [] == Filter(init, keep);
      }
    }
  }

  /** Filtering twice with the second condition implied by the first is
      filtering once with the first. */
  lemma {:induction false} FilterImplied<T(!new)>(s: seq<T>, keep: T -> bool, other: T -> bool)
    requires forall k :: 0 <= k < |s| ==> keep(s[k]) ==> other(s[k])
    ensures Filter(Filter(s, other), keep) == Filter(s, keep)
  {
    if s != [] {
      var init := s[..|s| - 1];
      assert forall k :: 0 <= k < |init| ==> init[k] == s[k];
      var x := s[|s| - 1];
      FilterImplied(init, keep, other);
      assert Filter(s, other) == Filter(init, other) + if other(x) then [x] else [];
      assert Filter(s, keep) == Filter(init, keep) + if keep(x) then [x] else [];
      if other(x) {
        FilterAppend(Filter(init, other), x, keep);
      } else {
        assert !keep(x);
        assert Filter(init, other) + [] == Filter(init, other);
        assert Filter(init, keep) + [] == Filter(init, keep);
      }
    }
  }

  /** `s` is ordered newest first: the key never increases along `s`. */
  predicate NewestFirst<T>(s: seq<T>, key: T -> int) {
    forall i, j :: 0 <= i < j < |s| ==> key(s[i]) >= key(s[j])
  }

  /** `x` inserted in front of the first element of `s` that is not newer. */
  function InsertNewest<T>(x: T, s: seq<T>, key: T -> int): seq<T> {
    if s == [] || key(x) >= key(s[0]) then [x] + s
    else [s[0]] + InsertNewest(x, s[1..], key)
  }

  /** Inserting adds `x` and keeps every element of `s`. */
  lemma {:induction false} InsertNewestCounts<T>(x: T, s: seq<T>, key: T -> int)
    ensures multiset(InsertNewest(x, s, key)) == multiset(s) + multiset{x}
    ensures |InsertNewest(x, s, key)| == |s| + 1
  {
    if s != [] && key(x) < key(s[0]) {
      InsertNewestCounts(x, s[1..], key);
      assert s == [s[0]] + s[1..];
    }
  }

  /** Inserting into a newest-first sequence leaves it newest first. */
  lemma {:induction false} InsertNewestOrdered<T>(x: T, s: seq<T>, key: T -> int)
    requires NewestFirst(s, key)
    ensures NewestFirst(InsertNewest(x, s, key), key)
  {
    if s == [] || key(x) >= key(s[0]) {
      var r := [x] + s;
      forall i, j | 0 <= i < j < |r| ensures key(r[i]) >= key(r[j]) {
        if i > 0 {
          assert r[i] == s[i - 1] && r[j] == s[j - 1];
        } else {
          assert r[j] == s[j - 1];
        }
      }
    } else {
      var tail := s[1..];
      var rest := InsertNewest(x, tail, key);
      assert NewestFirst(tail, key) by {
        forall i, j | 0 <= i < j < |tail| ensures key(tail[i]) >= key(tail[j]) {
          assert tail[i] == s[i + 1] && tail[j] == s[j + 1];
        }
      }
      InsertNewestOrdered(x, tail, key);
      InsertNewestCounts(x, tail, key);
      forall k | 0 <= k < |rest| ensures key(s[0]) >= key(rest[k]) {
        assert rest[k] in multiset(tail) + multiset{x};
        if rest[k] != x {
          assert rest[k] in tail;
          var j :| 0 <= j < |tail| && tail[j] == rest[k];
          assert tail[j] == s[j + 1];
        }
      }
      var r := [s[0]] + rest;
      forall i, j | 0 <= i < j < |r| ensures key(r[i]) >= key(r[j]) {
        if i > 0 {
          assert r[i] == rest[i - 1] && r[j] == rest[j - 1];
        } else {
          assert r[j] == rest[j - 1];
        }
      }
    }
  }

  /** An element strictly newer than every other element heads a
      newest-first sequence. */
  lemma NewestFirstHead<T>(s: seq<T>, key: T -> int, x: T)
    requires NewestFirst(s, key) && x in s
    requires forall y :: y in s && y != x ==> key(y) < key(x)
    ensures s[0] == x
  {
    var j :| 0 <= j < |s| && s[j] == x;
  }

  /** The elements of `s`, newest first: ordered, and a permutation of `s`. */
  function SortNewest<T>(s: seq<T>, key: T -> int): (r: seq<T>)
    ensures NewestFirst(r, key)
    ensures multiset(r) == multiset(s)
    ensures |r| == |s|
  {
    if s == [] then
      []
    else
      var sorted := SortNewest(s[1..], key);
      InsertNewestOrdered(s[0], sorted, key);
      InsertNewestCounts(s[0], sorted, key);
      assert s == [s[0]] + s[1..];
      InsertNewest(s[0], sorted, key)
  }

  /** Sorting keeps exactly the elements of `s`. */
  lemma SortNewestMembers<T>(s: seq<T>, key: T -> int, x: T)
    ensures x in SortNewest(s, key) <==> x in s
  {
    var r := SortNewest(s, key);
    assert x in r <==> x in multiset(r);
    assert x in s <==> x in multiset(s);
  }

  /** A window of a newest-first sequence is newest first, and whatever
      precedes the window is at least as new as anything from it on. */
  lemma {:induction false} WindowNewestFirst<T>(s: seq<T>, key: T -> int, lo: nat, hi: nat)
    requires NewestFirst(s, key)
    requires lo <= hi <= |s|
    ensures NewestFirst(s[lo..hi], key)
    ensures forall i, j :: 0 <= i < lo <= j < |s| ==> key(s[i]) >= key(s[j])
  {
    var w := s[lo..hi];
    forall i, j | 0 <= i < j < |w| ensures key(w[i]) >= key(w[j]) {
      assert w[i] == s[lo + i] && w[j] == s[lo + j];
    }
  }

  /** The smaller of two integers. */
  function Min(a: int, b: int): int {
    if a <= b then a else b
  }

  /** `skip(skip).limit(n)`: the at most `n` elements after the first
      `skip`; nothing when `skip` reaches past the end. */
  function Window<T>(s: seq<T>, skip: nat, n: nat): (w: seq<T>)
    ensures |w| == if skip >= |s| then 0 else Min(n, |s| - skip)
    ensures forall k :: 0 <= k < |w| ==> w[k] == s[skip + k]
  {
    if skip >= |s| then [] else s[skip..skip + Min(n, |s| - skip)]
  }

  /** Two adjacent windows together form the window of their joint length. */
  lemma AdjacentWindows<T>(s: seq<T>, skip: nat, n: nat, m: nat)
    ensures Window(s, skip, n) + Window(s, skip + n, m) == Window(s, skip, n + m)
  {
    var a := Window(s, skip, n);
    var b := Window(s, skip + n, m);
    var w := Window(s, skip, n + m);
    assert |a + b| == |w|;
    forall k | 0 <= k < |w| ensures (a + b)[k] == w[k] {
      if k < |a| {
        assert (a + b)[k] == a[k];
      } else {
        assert (a + b)[k] == b[k - |a|];
      }
    }
  }
}
