/** Small facts about sequences shared by the grouping and sorting modules:
    duplicate-freedom and the position of the first element that lies in a set. */
module Seqs {

  /** No element occurs twice in `s`. */
  predicate Distinct<T(==)>(s: seq<T>) {
    forall i, j :: 0 <= i < j < |s| ==> s[i] != s[j]
  }

  /** The position of the first element of `s` that lies in `c`, or `|s|` when none does.
      With `c == {v}` this is the index of the first occurrence of `v`. */
  function FirstPos<T(==)>(s: seq<T>, c: set<T>): (p: nat)
    ensures p <= |s|
    ensures p < |s| ==> s[p] in c
    ensures forall b :: 0 <= b < p ==> s[b] !in c
  {
    if |s| == 0 then 0
    else if s[0] in c then 0
    else 1 + FirstPos(s[1..], c)
  }

  /** The three facts in FirstPos's contract pin the position down. */
  lemma FirstPosUnique<T>(s: seq<T>, c: set<T>, p: nat)
    requires p <= |s|
    requires p < |s| ==> s[p] in c
    requires forall b :: 0 <= b < p ==> s[b] !in c
    ensures FirstPos(s, c) == p
  {
  }

  /** Appending an element leaves an earlier hit alone; otherwise the new element decides. */
  lemma FirstPosAppend<T>(s: seq<T>, x: T, c: set<T>)
    ensures FirstPos(s + [x], c) ==
      if FirstPos(s, c) < |s| then FirstPos(s, c)
      else if x in c then |s| else |s| + 1
  {
    var t := s + [x];
    var p := FirstPos(s, c);
    if p < |s| {
      assert t[p] == s[p];
      FirstPosUnique(t, c, p);
    } else if x in c {
      assert t[|s|] == x;
      FirstPosUnique(t, c, |s|);
    } else {
      assert forall b :: 0 <= b < |t| ==> t[b] !in c by {
        forall b | 0 <= b < |t| ensures t[b] !in c {
          if b < |s| { assert t[b] == s[b]; }
        }
      }
      FirstPosUnique(t, c, |t|);
    }
  }

  /** In a duplicate-free sequence, the first occurrence of `s[j]` is at `j`. */
  lemma FirstPosDistinct<T>(s: seq<T>, j: int)
    requires Distinct(s)
    requires 0 <= j < |s|
    ensures FirstPos(s, {s[j]}) == j
  {
  }

  /** A duplicate-free sequence has as many elements as the set of its elements. */
  lemma {:induction false} DistinctCard<T>(s: seq<T>)
    requires Distinct(s)
    ensures |set x | x in s| == |s|
  {
    if |s| > 0 {
      var tail := s[1..];
      DistinctTail(s);
      DistinctCard(tail);
      assert (set x | x in s) == {s[0]} + (set x | x in tail) by {
        assert s == [s[0]] + tail;
      }
      assert (set x | x in tail) * {s[0]} == {};
    }
  }

  /** Dropping the head of a duplicate-free sequence keeps it duplicate-free, and the head
      does not occur again. */
  lemma DistinctTail<T>(s: seq<T>)
    requires Distinct(s)
    requires |s| > 0
    ensures Distinct(s[1..])
    ensures s[0] !in s[1..]
  {
  }

  /** Putting a fresh element in front of a duplicate-free sequence keeps it duplicate-free. */
  lemma DistinctCons<T>(x: T, s: seq<T>)
    requires Distinct(s)
    requires x !in s
    ensures Distinct([x] + s)
  {
  }
}
