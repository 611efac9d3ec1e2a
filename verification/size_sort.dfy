/** The final step of lab2com: a stable sort of the communities by descending size,
    as Python's `sorted(..., reverse=True, key=len)` performs it. Python's sort is
    stable also when `reverse=True`: items with equal keys keep their input order.
    The model sorts by insertion; `StableSortUnique` shows that every stable sort by
    descending size yields the same list, so the choice of algorithm does not matter. */
module SizeSort {
  import opened Seqs

  /** Sizes never increase from left to right. */
  predicate SortedBySize(s: seq<set<int>>) {
    forall i, j :: 0 <= i < j < |s| ==> |s[i]| >= |s[j]|
  }

  /** The elements of `s` that have exactly `n` members, in their order in `s`. */
  function OfSize(s: seq<set<int>>, n: nat): seq<set<int>> {
    if |s| == 0 then []
    else (if |s[0]| == n then [s[0]] else []) + OfSize(s[1..], n)
  }

  /** Total number of members over all elements of `s`. */
  function SumSizes(s: seq<set<int>>): nat {
    if |s| == 0 then 0 else |s[0]| + SumSizes(s[1..])
  }

  /** Appending `x` adds its size to the total. */
  lemma {:induction false} SumSizesAppend(s: seq<set<int>>, x: set<int>)
    ensures SumSizes(s + [x]) == SumSizes(s) + |x|
  {
    if |s| > 0 {
      SumSizesAppend(s[1..], x);
      assert (s + [x])[1..] == s[1..] + [x];
    }
  }

  /** Replacing one element changes the total by the difference in size. */
  lemma {:induction false} SumSizesUpdate(s: seq<set<int>>, i: int, x: set<int>)
    requires 0 <= i < |s|
    ensures SumSizes(s[i := x]) == SumSizes(s) - |s[i]| + |x|
  {
    if i > 0 {
      SumSizesUpdate(s[1..], i - 1, x);
      assert s[i := x][1..] == s[1..][i - 1 := x];
    } else {
      assert s[i := x][1..] == s[1..];
    }
  }

  /** Puts `x` in front of the first element of `t` that is no larger than it,
      so `x` precedes every element of `t` of the same size. */
  function Insert(x: set<int>, t: seq<set<int>>): (r: seq<set<int>>)
    ensures multiset(r) == multiset(t) + multiset{x}
  {
    if |t| == 0 then [x]
    else if |t[0]| > |x| then
      assert t == [t[0]] + t[1..];
      [t[0]] + Insert(x, t[1..])
    else
      [x] + t
  }

  /** The size class of a list with a known head. */
  lemma OfSizeCons(y: set<int>, s: seq<set<int>>, n: nat)
    ensures OfSize([y] + s, n) == (if |y| == n then [y] else []) + OfSize(s, n)
  {
  }

  /** Within each size class, the inserted element goes before the elements of `t`. */
  lemma {:induction false} InsertOfSize(x: set<int>, t: seq<set<int>>, n: nat)
    ensures OfSize(Insert(x, t), n) == (if |x| == n then [x] else []) + OfSize(t, n)
  {
    if |t| == 0 {
      OfSizeCons(x, [], n);
      assert [x] + [] == [x];
    } else if |t[0]| > |x| {
      var rest := Insert(x, t[1..]);
      var tail := OfSize(t[1..], n);
      assert Insert(x, t) == [t[0]] + rest;
      InsertOfSize(x, t[1..], n);
      OfSizeCons(t[0], rest, n);
      OfSizeCons(t[0], t[1..], n);
      assert t == [t[0]] + t[1..];
      if |x| == n {
        assert OfSize(rest, n) == [x] + tail;
        assert OfSize(t, n) == tail;
      } else if |t[0]| == n {
        assert OfSize(rest, n) == tail;
        assert OfSize(t, n) == [t[0]] + tail;
      } else {
        assert OfSize(rest, n) == tail;
        assert OfSize(t, n) == tail;
      }
    } else {
      OfSizeCons(x, t, n);
    }
  }

  /** An element of `Insert(x, t)` is `x` or an element of `t`. */
  lemma InsertMember(x: set<int>, t: seq<set<int>>, y: set<int>)
    requires y in Insert(x, t)
    ensures y == x || y in t
  {
  }

  /** A head no smaller than anything after it extends a sorted list. */
  lemma SortedCons(h: set<int>, t: seq<set<int>>)
    requires SortedBySize(t)
    requires forall y :: y in t ==> |y| <= |h|
    ensures SortedBySize([h] + t)
  {
  }

  /** Inserting into a list sorted by size keeps it sorted. */
  lemma {:induction false} InsertSorted(x: set<int>, t: seq<set<int>>)
    requires SortedBySize(t)
    ensures SortedBySize(Insert(x, t))
  {
    if |t| > 0 && |t[0]| > |x| {
      var rest := Insert(x, t[1..]);
      assert SortedBySize(t[1..]) by {
        forall i, j | 0 <= i < j < |t[1..]| ensures |t[1..][i]| >= |t[1..][j]| {
          assert t[1..][i] == t[i + 1] && t[1..][j] == t[j + 1];
        }
      }
      InsertSorted(x, t[1..]);
      forall y | y in rest ensures |y| <= |t[0]| {
        InsertMember(x, t[1..], y);
        if y != x {
          var j :| 0 <= j < |t[1..]| && t[1..][j] == y;
          assert t[j + 1] == y;
        }
      }
      SortedCons(t[0], rest);
    } else if |t| > 0 {
      forall y | y in t ensures |y| <= |x| {
        var j :| 0 <= j < |t| && t[j] == y;
      }
      SortedCons(x, t);
    }
  }

  /** Inserting a fresh element into a duplicate-free list keeps it duplicate-free. */
  lemma {:induction false} InsertDistinct(x: set<int>, t: seq<set<int>>)
    requires Distinct(t)
    requires x !in t
    ensures Distinct(Insert(x, t))
  {
    if |t| == 0 {
    } else if |t[0]| > |x| {
      DistinctTail(t);
      InsertDistinct(x, t[1..]);
      var rest := Insert(x, t[1..]);
      assert t[0] !in multiset(rest);
      DistinctCons(t[0], rest);
    } else {
      DistinctCons(x, t);
    }
  }

  /** Inserting `x` adds exactly its size to the total. */
  lemma {:induction false} InsertSumSizes(x: set<int>, t: seq<set<int>>)
    ensures SumSizes(Insert(x, t)) == |x| + SumSizes(t)
  {
    if |t| > 0 && |t[0]| > |x| {
      InsertSumSizes(x, t[1..]);
      assert ([t[0]] + Insert(x, t[1..]))[1..] == Insert(x, t[1..]);
    } else {
      assert ([x] + t)[1..] == t;
    }
  }

  /** Sort by descending size: a permutation of `s` whose sizes never increase.
      `SortBySizeStable` adds that the elements of each size keep their order in `s`. */
  function SortBySize(s: seq<set<int>>): (r: seq<set<int>>)
    ensures multiset(r) == multiset(s)
    ensures |r| == |s|
    ensures SortedBySize(r)
  {
    if |s| == 0 then []
    else
      var rest := SortBySize(s[1..]);
      assert s == [s[0]] + s[1..];
      InsertSorted(s[0], rest);
      Insert(s[0], rest)
  }

  /** The sort is stable: the elements of each size keep their order in `s`. */
  lemma {:induction false} SortBySizeStable(s: seq<set<int>>)
    ensures forall n :: OfSize(SortBySize(s), n) == OfSize(s, n)
  {
    if |s| > 0 {
      SortBySizeStable(s[1..]);
      var rest := SortBySize(s[1..]);
      assert s == [s[0]] + s[1..];
      forall n ensures OfSize(SortBySize(s), n) == OfSize(s, n) {
        InsertOfSize(s[0], rest, n);
        OfSizeCons(s[0], s[1..], n);
      }
    }
  }

  /** Any stable sort by descending size returns exactly `SortBySize(s)`: a list sorted
      by size whose size classes are those of `s` is the model's result. */
  lemma StableSortIsSortBySize(s: seq<set<int>>, b: seq<set<int>>)
    requires SortedBySize(b)
    requires forall n :: OfSize(b, n) == OfSize(s, n)
    ensures b == SortBySize(s)
  {
    SortBySizeStable(s);
    StableSortUnique(SortBySize(s), b);
  }

  /** Sorting keeps the total number of members. */
  lemma {:induction false} SortBySizeSumSizes(s: seq<set<int>>)
    ensures SumSizes(SortBySize(s)) == SumSizes(s)
  {
    if |s| > 0 {
      SortBySizeSumSizes(s[1..]);
      InsertSumSizes(s[0], SortBySize(s[1..]));
    }
  }

  /** Sorting a duplicate-free list gives a duplicate-free list. */
  lemma {:induction false} SortBySizeDistinct(s: seq<set<int>>)
    requires Distinct(s)
    ensures Distinct(SortBySize(s))
  {
    if |s| > 0 {
      var rest := SortBySize(s[1..]);
      DistinctTail(s);
      SortBySizeDistinct(s[1..]);
      assert s[0] !in multiset(rest);
      InsertDistinct(s[0], rest);
    }
  }

  /** A list sorted by descending size is determined by its size classes: two such
      lists whose elements of every size appear in the same order are equal. Hence any
      stable descending sort of `s` returns `SortBySize(s)`. */
  lemma {:induction false} StableSortUnique(a: seq<set<int>>, b: seq<set<int>>)
    requires SortedBySize(a) && SortedBySize(b)
    requires forall n :: OfSize(a, n) == OfSize(b, n)
    ensures a == b
    decreases |a|
  {
    if |a| == 0 {
      OfSizeOfHead(b);
    } else {
      var m := |a[0]|;
      assert OfSize(a, m)[0] == a[0];
      assert OfSize(b, m) != [];
      assert |b[0]| == m by {
        OfSizeMember(b, m, a[0]);
        OfSizeMember(a, |b[0]|, b[0]);
        var i :| 0 <= i < |b| && b[i] == a[0];
        var j :| 0 <= j < |a| && a[j] == b[0];
        assert |b[0]| >= |b[i]|;
        assert |a[0]| >= |a[j]|;
      }
      assert OfSize(b, m)[0] == b[0];
      forall n ensures OfSize(a[1..], n) == OfSize(b[1..], n) {
        var head := if m == n then [a[0]] else [];
        assert OfSize(a, n) == head + OfSize(a[1..], n);
        assert OfSize(b, n) == head + OfSize(b[1..], n);
        assert OfSize(a[1..], n) == OfSize(a, n)[|head|..];
        assert OfSize(b[1..], n) == OfSize(b, n)[|head|..];
      }
      StableSortUnique(a[1..], b[1..]);
      assert a == [a[0]] + a[1..];
      assert b == [b[0]] + b[1..];
    }
  }

  /** The head of a non-empty list lies in its own size class. */
  lemma OfSizeOfHead(s: seq<set<int>>)
    ensures |s| > 0 ==> OfSize(s, |s[0]|) != []
  {
  }

  /** An element of a size class occurs in the list and has that size. */
  lemma {:induction false} OfSizeMember(s: seq<set<int>>, n: nat, x: set<int>)
    requires x in OfSize(s, n)
    ensures |x| == n
    ensures exists i :: 0 <= i < |s| && s[i] == x
  {
    if |s| > 0 {
      if |s[0]| == n && x == s[0] {
        assert s[0] == x;
      } else {
        OfSizeMember(s[1..], n, x);
        var i :| 0 <= i < |s[1..]| && s[1..][i] == x;
        assert s[i + 1] == x;
      }
    }
  }
}
