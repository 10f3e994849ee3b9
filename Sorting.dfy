/**
 * Stable sorting by a total preorder `le` (`le(a, b)`: `a` may come before `b`).
 * Both sorts the core uses are stable: Python's `list.sort(key=...)` and
 * JavaScript's `Array.prototype.sort`. `Sort` is the reference insertion sort;
 * any stable sort yields the same sequence, which is characterised by
 * `Sorted`, the multiset of elements and `ClassOf` (the order among
 * equivalent elements).
 */
module Sorting {

  ghost predicate TotalPreorder<T(!new)>(le: (T, T) -> bool)
  {
    && (forall a, b :: le(a, b) || le(b, a))
    && (forall a, b, c :: le(a, b) && le(b, c) ==> le(a, c))
  }

  predicate Sorted<T>(s: seq<T>, le: (T, T) -> bool)
  {
    forall i, j :: 0 <= i < j < |s| ==> le(s[i], s[j])
  }

  predicate Equivalent<T>(le: (T, T) -> bool, a: T, b: T)
  {
    le(a, b) && le(b, a)
  }

  /** The elements of `s` equivalent to `y`, in their order in `s`. */
  function ClassOf<T>(s: seq<T>, y: T, le: (T, T) -> bool): seq<T>
  {
    if s == [] then []
    else (if Equivalent(le, s[0], y) then [s[0]] else []) + ClassOf(s[1..], y, le)
  }

  /** Puts `x` after every element of the sorted `s` that is not above it. */
  function Insert<T>(x: T, s: seq<T>, le: (T, T) -> bool): seq<T>
  {
    if s == [] then [x]
    else if le(s[0], x) then [s[0]] + Insert(x, s[1..], le)
    else [x] + s
  }

  /** Insertion sort, taking the elements from left to right. */
  function Sort<T>(s: seq<T>, le: (T, T) -> bool): seq<T>
  {
    if s == [] then [] else Insert(s[|s| - 1], Sort(s[..|s| - 1], le), le)
  }

  /** Sorting rearranges: the same elements, as often as before. */
  lemma {:induction false} SortPermutes<T>(s: seq<T>, le: (T, T) -> bool)
    ensures multiset(Sort(s, le)) == multiset(s)
  {
    if s != [] {
      SortPermutes(s[..|s| - 1], le);
      InsertPermutes(s[|s| - 1], Sort(s[..|s| - 1], le), le);
      assert s == s[..|s| - 1] + [s[|s| - 1]];
    }
  }

  /** Under a total preorder the result is sorted. */
  lemma {:induction false} SortSorted<T(!new)>(s: seq<T>, le: (T, T) -> bool)
    requires TotalPreorder(le)
    ensures Sorted(Sort(s, le), le)
  {
    if s != [] {
      SortSorted(s[..|s| - 1], le);
      InsertSorted(s[|s| - 1], Sort(s[..|s| - 1], le), le);
    }
  }

  /** A sequence that is already sorted is left as it is. */
  lemma {:induction false} SortOfSorted<T>(s: seq<T>, le: (T, T) -> bool)
    requires Sorted(s, le)
    ensures Sort(s, le) == s
  {
    if s != [] {
      var init, x := s[..|s| - 1], s[|s| - 1];
      assert Sorted(init, le);
      SortOfSorted(init, le);
      forall y | y in init ensures le(y, x) {
        var k :| 0 <= k < |init| && init[k] == y;
        assert s[k] == y;
      }
      InsertAtEnd(x, init, le);
      assert s == init + [x];
    }
  }

  /** An element no smaller than every element goes last. */
  lemma {:induction false} InsertAtEnd<T>(x: T, s: seq<T>, le: (T, T) -> bool)
    requires forall y :: y in s ==> le(y, x)
    ensures Insert(x, s, le) == s + [x]
  {
    if s != [] {
      assert s[0] in s;
      forall y | y in s[1..] ensures le(y, x) {
        assert y in s;
      }
      InsertAtEnd(x, s[1..], le);
      assert s == [s[0]] + s[1..];
    }
  }

  lemma {:induction false} InsertPermutes<T>(x: T, s: seq<T>, le: (T, T) -> bool)
    ensures multiset(Insert(x, s, le)) == multiset(s) + multiset{x}
  {
    if s != [] {
      assert s == [s[0]] + s[1..];
      if le(s[0], x) {
        InsertPermutes(x, s[1..], le);
      }
    }
  }

  lemma {:induction false} InsertSorted<T(!new)>(x: T, s: seq<T>, le: (T, T) -> bool)
    requires TotalPreorder(le) && Sorted(s, le)
    ensures Sorted(Insert(x, s, le), le)
  {
    if s == [] {
    } else if le(s[0], x) {
      InsertSorted(x, s[1..], le);
      InsertPermutes(x, s[1..], le);
      var t := Insert(x, s[1..], le);
      assert s == [s[0]] + s[1..];
      forall j | 0 < j < |[s[0]] + t| ensures le(s[0], ([s[0]] + t)[j]) {
        var e := t[j - 1];
        assert e in multiset(t);
        if e != x {
          assert e in multiset(s[1..]);
          var m :| 0 <= m < |s[1..]| && s[1..][m] == e;
          assert s[m + 1] == e;
        }
      }
    } else {
      assert s == [s[0]] + s[1..];
      forall j | 0 <= j < |s| ensures le(x, s[j]) {
        if j > 0 { assert le(s[0], s[j]); }
      }
    }
  }

  lemma {:induction false} ClassOfConcat<T>(a: seq<T>, b: seq<T>, y: T, le: (T, T) -> bool)
    ensures ClassOf(a + b, y, le) == ClassOf(a, y, le) + ClassOf(b, y, le)
  {
    if a == [] {
      assert a + b == b;
    } else {
      var h := if Equivalent(le, a[0], y) then [a[0]] else [];
      assert (a + b)[0] == a[0] && (a + b)[1..] == a[1..] + b;
      assert ClassOf(a + b, y, le) == h + ClassOf(a[1..] + b, y, le);
      ClassOfConcat(a[1..], b, y, le);
      assert h + (ClassOf(a[1..], y, le) + ClassOf(b, y, le)) == (h + ClassOf(a[1..], y, le)) + ClassOf(b, y, le);
    }
  }

  /** No element of `s` sorts at or below `x`, so none shares `x`'s class. */
  lemma {:induction false} ClassOfAbove<T(!new)>(x: T, s: seq<T>, y: T, le: (T, T) -> bool)
    requires TotalPreorder(le) && Equivalent(le, x, y)
    requires forall j :: 0 <= j < |s| ==> !le(s[j], x)
    ensures ClassOf(s, y, le) == []
  {
    if s != [] {
      ClassOfAbove(x, s[1..], y, le);
    }
  }

  lemma {:induction false} InsertClass<T(!new)>(x: T, s: seq<T>, y: T, le: (T, T) -> bool)
    requires TotalPreorder(le) && Sorted(s, le)
    ensures ClassOf(Insert(x, s, le), y, le) == ClassOf(s, y, le) + (if Equivalent(le, x, y) then [x] else [])
  {
    if s == [] {
    } else if le(s[0], x) {
      var h := if Equivalent(le, s[0], y) then [s[0]] else [];
      var t := Insert(x, s[1..], le);
      InsertClass(x, s[1..], y, le);
      assert ([s[0]] + t)[0] == s[0] && ([s[0]] + t)[1..] == t;
      assert ClassOf(Insert(x, s, le), y, le) == h + ClassOf(t, y, le);
      assert ClassOf(s, y, le) == h + ClassOf(s[1..], y, le);
    } else {
      InsertClassFront(x, s, y, le);
    }
  }

  /** `x` sorts strictly below the head of `s`, so it goes in front and precedes its whole class. */
  lemma InsertClassFront<T(!new)>(x: T, s: seq<T>, y: T, le: (T, T) -> bool)
    requires TotalPreorder(le) && Sorted(s, le) && s != [] && !le(s[0], x)
    ensures ClassOf([x] + s, y, le) == ClassOf(s, y, le) + (if Equivalent(le, x, y) then [x] else [])
  {
    assert ([x] + s)[1..] == s;
    if Equivalent(le, x, y) {
      forall j | 0 <= j < |s| ensures !le(s[j], x) {
        assert j == 0 || le(s[0], s[j]);
      }
      ClassOfAbove(x, s, y, le);
    }
  }

  /** Stability: sorting keeps the relative order of equivalent elements. */
  lemma {:induction false} SortStable<T(!new)>(s: seq<T>, y: T, le: (T, T) -> bool)
    requires TotalPreorder(le)
    ensures ClassOf(Sort(s, le), y, le) == ClassOf(s, y, le)
  {
    if s != [] {
      var init, x := s[..|s| - 1], s[|s| - 1];
      SortStable(init, y, le);
      SortSorted(init, le);
      InsertClass(x, Sort(init, le), y, le);
      assert s == init + [x];
      ClassOfConcat(init, [x], y, le);
    }
  }
}
