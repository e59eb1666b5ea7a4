/** Sorting of float values and counting by a predicate: the groundwork for
    the column median. */
module Sorting {

  predicate Sorted(s: seq<real>) {
    forall i, j :: 0 <= i < j < |s| ==> s[i] <= s[j]
  }

  function Insert(x: real, s: seq<real>): (r: seq<real>)
    requires Sorted(s)
    ensures |r| == |s| + 1
    ensures Sorted(r)
    ensures multiset(r) == multiset(s) + multiset{x}
    ensures forall k :: 0 <= k < |r| ==> r[k] == x || r[k] in s
  {
    if |s| == 0 || x <= s[0] then [x] + s
    else
      var rest := Insert(x, s[1..]);
      assert forall k :: 0 <= k < |rest| ==> s[0] <= rest[k] by {
        forall k | 0 <= k < |rest|
          ensures s[0] <= rest[k]
        {
          if rest[k] != x {
            var j :| 0 <= j < |s[1..]| && s[1..][j] == rest[k];
            assert s[j + 1] == rest[k];
          }
        }
      }
      assert s == [s[0]] + s[1..];
      [s[0]] + rest
  }

  /** Insertion sort: an ascending permutation of `s`. */
  function Sort(s: seq<real>): (r: seq<real>)
    ensures |r| == |s|
    ensures Sorted(r)
    ensures multiset(r) == multiset(s)
  {
    if |s| == 0 then []
    else
      assert s == [s[0]] + s[1..];
      Insert(s[0], Sort(s[1..]))
  }

  lemma SortedHeadIsLeast(a: seq<real>, x: real)
    requires Sorted(a) && x in multiset(a)
    ensures |a| > 0 && a[0] <= x
  {
    assert x in a;
  }

  lemma SortedTail(a: seq<real>)
    requires Sorted(a) && |a| > 0
    ensures Sorted(a[1..])
    ensures multiset(a[1..]) == multiset(a) - multiset{a[0]}
  {
    assert a == [a[0]] + a[1..];
  }

  /** A multiset has one ascending arrangement: two sorted sequences with
      the same elements are equal. */
  lemma {:induction false} SortedUnique(a: seq<real>, b: seq<real>)
    requires Sorted(a) && Sorted(b) && multiset(a) == multiset(b)
    ensures a == b
    decreases |a|
  {
    if |a| == 0 {
      assert |multiset(b)| == 0;
    } else {
      SortedHeadIsLeast(b, a[0]);
      SortedHeadIsLeast(a, b[0]);
      SortedTail(a);
      SortedTail(b);
      assert a[0] == b[0];
      assert multiset(a[1..]) == multiset(b[1..]);
      SortedUnique(a[1..], b[1..]);
      assert a == [a[0]] + a[1..];
      assert b == [b[0]] + b[1..];
    }
  }

  /** How many elements of `s` satisfy `P`. */
  function Count(s: seq<real>, P: real -> bool): (n: nat)
    ensures n <= |s|
  {
    if |s| == 0 then 0 else (if P(s[0]) then 1 else 0) + Count(s[1..], P)
  }

  lemma {:induction false} CountAppend(a: seq<real>, b: seq<real>, P: real -> bool)
    ensures Count(a + b, P) == Count(a, P) + Count(b, P)
  {
    if |a| > 0 {
      assert (a + b)[1..] == a[1..] + b;
      CountAppend(a[1..], b, P);
    } else {
      assert a + b == b;
    }
  }

  lemma {:induction false} CountAll(s: seq<real>, P: real -> bool)
    requires forall i :: 0 <= i < |s| ==> P(s[i])
    ensures Count(s, P) == |s|
  {
    if |s| > 0 {
      CountAll(s[1..], P);
    }
  }

  lemma {:induction false} CountInsert(x: real, s: seq<real>, P: real -> bool)
    requires Sorted(s)
    ensures Count(Insert(x, s), P) == Count(s, P) + (if P(x) then 1 else 0)
  {
    if |s| == 0 || x <= s[0] {
      assert Insert(x, s)[1..] == s;
    } else {
      assert Insert(x, s)[1..] == Insert(x, s[1..]);
      CountInsert(x, s[1..], P);
    }
  }

  /** Sorting does not change how many elements satisfy a predicate. */
  lemma {:induction false} CountSort(s: seq<real>, P: real -> bool)
    ensures Count(Sort(s), P) == Count(s, P)
  {
    if |s| > 0 {
      CountSort(s[1..], P);
      CountInsert(s[0], Sort(s[1..]), P);
    }
  }
}
