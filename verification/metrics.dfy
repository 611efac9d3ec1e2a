/** `lab2com` of metrics.py: turns a node-to-label assignment into the list of
    communities (sets of nodes sharing a label), largest first.

    The argument is a dict of node -> label items, a one-dimensional array whose
    k-th entry is node k's label, or anything else, which raises a TypeError. */
module Metrics {
  import opened Seqs
  import opened SizeSort
  import opened Grouping

  /** The argument of lab2com, told apart by its exact Python type. `Dict` lists the
      dict's items in iteration order; `Other` is every other value, including
      subclasses of dict, since the source compares `type(labels)` for equality. */
  datatype Input<L> = Dict(items: seq<(int, L)>) | Array(labels: seq<L>) | Other

  datatype Error = TypeError(message: string)

  datatype Result<T> = Ok(value: T) | Err(error: Error)

  const WrongTypeMessage := "The argument should be a dictionary or a NumPy array."

  /** Group the nodes by label, then sort the groups stably by descending size.
      Labels are hashable here: the TypeError that Python raises when hashing an
      unhashable label, or when iterating a 0-d array, has no counterpart. */
  function Lab2Com<L(==,!new)>(input: Input<L>): (r: Result<seq<set<int>>>)
    ensures r.Err? <==> input.Other?
    ensures input.Other? ==> r == Err(TypeError(WrongTypeMessage))
    ensures r.Ok? ==> SortedBySize(r.value)
  {
    match input
    case Dict(items) => Ok(SortBySize(Groups(GroupItems(items))))
    case Array(labels) => Ok(SortBySize(Groups(GroupArray(labels))))
    case Other => Err(TypeError(WrongTypeMessage))
  }

  // ---------------------------------------------------------------------------
  // The promised result, stated without reference to how it is computed
  // ---------------------------------------------------------------------------

  /** One community per distinct label, holding exactly the nodes with that label. */
  function CommunitySet<L(==)>(items: seq<(int, L)>): set<set<int>> {
    set u | u in LabelSeq(items) :: Members(items, u)
  }

  /** `c1` is listed before `c2`: it is larger, or it is as large and one of its nodes
      comes before every node of `c2` in the input. */
  predicate Before(nodes: seq<int>, c1: set<int>, c2: set<int>) {
    |c1| > |c2| || (|c1| == |c2| && FirstPos(nodes, c1) < FirstPos(nodes, c2))
  }

  predicate Ordered(nodes: seq<int>, s: seq<set<int>>) {
    forall i, j :: 0 <= i < j < |s| ==> Before(nodes, s[i], s[j])
  }

  /** `r` lists exactly the communities of `items`, largest first, ties broken by
      which community's first node comes earlier. */
  ghost predicate IsCommunityList<L>(items: seq<(int, L)>, r: seq<set<int>>) {
    && (forall c :: c in r <==> c in CommunitySet(items))
    && Ordered(Nodes(items), r)
  }

  /** Some community of `r` holds node `k`. */
  predicate InSome(r: seq<set<int>>, k: int) {
    exists i :: 0 <= i < |r| && k in r[i]
  }

  /** Some community of `r` holds both `k1` and `k2`. */
  predicate Together(r: seq<set<int>>, k1: int, k2: int) {
    exists i :: 0 <= i < |r| && k1 in r[i] && k2 in r[i]
  }

  /** Nodes `k1` and `k2` both occur in `items`, with equal labels. */
  predicate SameLabel<L(==)>(items: seq<(int, L)>, k1: int, k2: int) {
    exists a, b :: 0 <= a < |items| && 0 <= b < |items|
      && items[a].0 == k1 && items[b].0 == k2 && items[a].1 == items[b].1
  }

  // ---------------------------------------------------------------------------
  // Facts about Members
  // ---------------------------------------------------------------------------

  /** With distinct keys, a node lies in the members of its own label only. */
  lemma MembersDisjoint<L>(items: seq<(int, L)>, u: L, w: L)
    requires DistinctKeys(items)
    requires u != w
    ensures Members(items, u) !! Members(items, w)
  {
    forall k | k in Members(items, u) ensures k !in Members(items, w) {
      var a :| 0 <= a < |items| && items[a].1 == u && items[a].0 == k;
      KeyDeterminesItem(items, a);
    }
  }

  /** With distinct keys, the item holding a key is the only one. */
  lemma KeyDeterminesItem<L>(items: seq<(int, L)>, a: int)
    requires DistinctKeys(items)
    requires 0 <= a < |items|
    ensures forall b :: 0 <= b < |items| && items[b].0 == items[a].0 ==> b == a
  {
    forall b | 0 <= b < |items| && items[b].0 == items[a].0 ensures b == a {
      assert Nodes(items)[a] == Nodes(items)[b];
    }
  }

  /** The first node of a community is the node where its label first occurs. */
  lemma MembersFirstPos<L>(items: seq<(int, L)>, u: L)
    requires DistinctKeys(items)
    requires u in LabelSeq(items)
    ensures FirstPos(Nodes(items), Members(items, u)) == FirstPos(LabelSeq(items), {u})
  {
    var nodes := Nodes(items);
    var f := FirstPos(LabelSeq(items), {u});
    assert LabelSeq(items)[f] == u;
    assert nodes[f] in Members(items, u);
    forall b | 0 <= b < f ensures nodes[b] !in Members(items, u) {
      assert LabelSeq(items)[b] !in {u};
      KeyDeterminesItem(items, b);
    }
    FirstPosUnique(nodes, Members(items, u), f);
  }

  // ---------------------------------------------------------------------------
  // The grouping dict, before sorting
  // ---------------------------------------------------------------------------

  /** Each entry of the dict holds exactly the nodes carrying its label. */
  lemma GroupEntry<L(!new)>(items: seq<(int, L)>, j: int)
    requires 0 <= j < |GroupItems(items)|
    ensures GroupItems(items)[j].1 == Members(items, GroupItems(items)[j].0)
  {
    var t := GroupItems(items);
    assert Labels(t)[j] == t[j].0;
    FirstPosDistinct(Labels(t), j);
    assert Get(t, t[j].0) == t[j].1;
  }

  /** Every value of the dict is a community. */
  lemma GroupIsCommunity<L(!new)>(items: seq<(int, L)>, j: int)
    requires 0 <= j < |GroupItems(items)|
    ensures Groups(GroupItems(items))[j] in CommunitySet(items)
  {
    var t := GroupItems(items);
    GroupEntry(items, j);
    assert Labels(t)[j] == t[j].0;
    assert t[j].0 in LabelSeq(items);
  }

  /** Every community is a value of the dict. */
  lemma CommunityIsGroup<L(!new)>(items: seq<(int, L)>, u: L)
    requires u in LabelSeq(items)
    ensures Members(items, u) in Groups(GroupItems(items))
  {
    var t := GroupItems(items);
    assert u in Labels(t);
    var j :| 0 <= j < |Labels(t)| && Labels(t)[j] == u;
    GroupEntry(items, j);
    assert Groups(t)[j] == t[j].1;
  }

  /** The dict's values are exactly the communities. */
  lemma GroupsAreCommunities<L(!new)>(items: seq<(int, L)>)
    ensures forall c :: c in Groups(GroupItems(items)) <==> c in CommunitySet(items)
  {
    var g := Groups(GroupItems(items));
    forall c | c in g ensures c in CommunitySet(items) {
      var j :| 0 <= j < |g| && g[j] == c;
      GroupIsCommunity(items, j);
    }
    forall c | c in CommunitySet(items) ensures c in g {
      var u :| u in LabelSeq(items) && c == Members(items, u);
      CommunityIsGroup(items, u);
    }
  }

  /** With distinct keys, a value's first node is where its label first occurs. */
  lemma GroupFirstNode<L(!new)>(items: seq<(int, L)>, j: int)
    requires DistinctKeys(items)
    requires 0 <= j < |GroupItems(items)|
    ensures FirstPos(Nodes(items), Groups(GroupItems(items))[j]) ==
      FirstPos(LabelSeq(items), {GroupItems(items)[j].0})
  {
    var t := GroupItems(items);
    GroupEntry(items, j);
    assert Labels(t)[j] == t[j].0;
    MembersFirstPos(items, t[j].0);
  }

  /** With distinct keys, the dict's values are in order of their first node. */
  lemma GroupsFirstNodes<L(!new)>(items: seq<(int, L)>)
    requires DistinctKeys(items)
    ensures FirstNodesIncrease(Nodes(items), Groups(GroupItems(items)))
  {
    var t := GroupItems(items);
    forall i, j | 0 <= i < j < |t|
      ensures FirstPos(Nodes(items), Groups(t)[i]) < FirstPos(Nodes(items), Groups(t)[j])
    {
      GroupFirstNode(items, i);
      GroupFirstNode(items, j);
    }
  }

  /** Adding a node that is not yet stored under its label grows the total by one. */
  lemma AddSize<L(!new)>(t: Table<L>, k: int, v: L)
    requires k !in Get(t, v)
    ensures SumSizes(Groups(Add(t, k, v))) == SumSizes(Groups(t)) + 1
  {
    var i := FirstPos(Labels(t), {v});
    if i < |t| {
      assert Groups(Add(t, k, v)) == Groups(t)[i := t[i].1 + {k}];
      SumSizesUpdate(Groups(t), i, t[i].1 + {k});
    } else {
      assert Groups(Add(t, k, v)) == Groups(t) + [{k}];
      SumSizesAppend(Groups(t), {k});
    }
  }

  /** With distinct keys each item adds one new node to one community, so the
      community sizes add up to the number of items. */
  lemma {:induction false} GroupsSize<L(!new)>(items: seq<(int, L)>)
    requires DistinctKeys(items)
    ensures SumSizes(Groups(GroupItems(items))) == |items|
  {
    if |items| > 0 {
      var n := |items| - 1;
      var pre := items[..n];
      assert DistinctKeys(pre) by {
        assert Nodes(pre) == Nodes(items)[..n];
      }
      GroupsSize(pre);
      var k, v := items[n].0, items[n].1;
      forall a | 0 <= a < |pre| ensures pre[a].0 != k {
        assert Nodes(items)[a] == pre[a].0 && Nodes(items)[n] == k;
      }
      AddSize(GroupItems(pre), k, v);
    }
  }

  // ---------------------------------------------------------------------------
  // Sorting the values of the dict
  // ---------------------------------------------------------------------------

  /** Inserting a community whose first node precedes those of all others keeps the
      list ordered. */
  lemma {:induction false} InsertOrdered(nodes: seq<int>, x: set<int>, t: seq<set<int>>)
    requires Ordered(nodes, t)
    requires forall y :: y in t ==> FirstPos(nodes, x) < FirstPos(nodes, y)
    ensures Ordered(nodes, Insert(x, t))
  {
    if |t| > 0 && |t[0]| > |x| {
      var rest := Insert(x, t[1..]);
      assert Ordered(nodes, t[1..]) by {
        forall i, j | 0 <= i < j < |t[1..]| ensures Before(nodes, t[1..][i], t[1..][j]) {
          assert t[1..][i] == t[i + 1] && t[1..][j] == t[j + 1];
        }
      }
      forall y | y in t[1..] ensures FirstPos(nodes, x) < FirstPos(nodes, y) {
        assert y in t;
      }
      InsertOrdered(nodes, x, t[1..]);
      forall y | y in rest ensures Before(nodes, t[0], y) {
        InsertMember(x, t[1..], y);
        if y != x {
          var j :| 0 <= j < |t[1..]| && t[1..][j] == y;
          assert t[j + 1] == y;
        }
      }
      var r := [t[0]] + rest;
      forall i, j | 0 <= i < j < |r| ensures Before(nodes, r[i], r[j]) {
        assert r[j] == rest[j - 1];
        if i > 0 { assert r[i] == rest[i - 1]; }
      }
    } else if |t| > 0 {
      var r := [x] + t;
      forall i, j | 0 <= i < j < |r| ensures Before(nodes, r[i], r[j]) {
        assert r[j] == t[j - 1];
        if i > 0 {
          assert r[i] == t[i - 1];
        } else {
          assert t[j - 1] in t;
        }
      }
    }
  }

  /** The first nodes of the elements of `s` occur in increasing input order. */
  predicate FirstNodesIncrease(nodes: seq<int>, s: seq<set<int>>) {
    forall i, j :: 0 <= i < j < |s| ==> FirstPos(nodes, s[i]) < FirstPos(nodes, s[j])
  }

  /** The head of such a list has the earliest first node, and its tail keeps the
      property. */
  lemma FirstNodesIncreaseTail(nodes: seq<int>, s: seq<set<int>>)
    requires FirstNodesIncrease(nodes, s)
    requires |s| > 0
    ensures FirstNodesIncrease(nodes, s[1..])
    ensures forall y :: y in s[1..] ==> FirstPos(nodes, s[0]) < FirstPos(nodes, y)
  {
  }

  /** Stable sorting by size of a list whose first nodes increase gives a list ordered by
      size first and by first node among equals. */
  lemma {:induction false} SortOrdered(nodes: seq<int>, s: seq<set<int>>)
    requires FirstNodesIncrease(nodes, s)
    ensures Ordered(nodes, SortBySize(s))
  {
    if |s| > 0 {
      FirstNodesIncreaseTail(nodes, s);
      SortOrdered(nodes, s[1..]);
      var rest := SortBySize(s[1..]);
      forall y | y in rest ensures FirstPos(nodes, s[0]) < FirstPos(nodes, y) {
        assert y in multiset(rest);
        assert y in s[1..];
      }
      InsertOrdered(nodes, s[0], rest);
    }
  }

  /** Only one list is ordered and holds a given set of communities. */
  lemma {:induction false} OrderedUnique(nodes: seq<int>, a: seq<set<int>>, b: seq<set<int>>)
    requires Ordered(nodes, a) && Ordered(nodes, b)
    requires forall c :: c in a <==> c in b
    ensures a == b
    decreases |a|
  {
    assert |b| > 0 ==> b[0] in b;
    if |a| > 0 {
      assert a[0] in b;
      var p :| 0 <= p < |b| && b[p] == a[0];
      assert b[0] in a;
      var q :| 0 <= q < |a| && a[q] == b[0];
      assert a[0] == b[0];
      forall c ensures c in a[1..] <==> c in b[1..] {
        OrderedTail(nodes, a, c);
        OrderedTail(nodes, b, c);
      }
      OrderedUnique(nodes, a[1..], b[1..]);
      assert a == [a[0]] + a[1..];
      assert b == [b[0]] + b[1..];
    }
  }

  /** In an ordered list the head does not occur again, so the tail holds the rest. */
  lemma OrderedTail(nodes: seq<int>, a: seq<set<int>>, c: set<int>)
    requires Ordered(nodes, a)
    requires |a| > 0
    ensures c in a[1..] <==> c in a && c != a[0]
  {
  }

  /** An ordered list has no duplicates. */
  lemma OrderedDistinct(nodes: seq<int>, s: seq<set<int>>)
    requires Ordered(nodes, s)
    ensures Distinct(s)
  {
  }

  // ---------------------------------------------------------------------------
  // lab2com on a dict
  // ---------------------------------------------------------------------------

  /** lab2com returns the promised list: the communities, largest first, ties in the
      order their labels were first met. */
  lemma Lab2ComIsCommunityList<L(!new)>(items: seq<(int, L)>)
    requires DistinctKeys(items)
    ensures Lab2Com(Dict(items)).Ok?
    ensures IsCommunityList(items, Lab2Com(Dict(items)).value)
  {
    var t := GroupItems(items);
    var r := Lab2Com(Dict(items)).value;
    GroupsAreCommunities(items);
    GroupsFirstNodes(items);
    forall c ensures c in r <==> c in CommunitySet(items) {
      assert c in r <==> c in multiset(r);
      assert c in Groups(t) <==> c in multiset(Groups(t));
    }
    SortOrdered(Nodes(items), Groups(t));
  }

  /** ... and it is the only list that keeps that promise. */
  lemma Lab2ComOnlyCommunityList<L(!new)>(items: seq<(int, L)>, r: seq<set<int>>)
    requires DistinctKeys(items)
    requires IsCommunityList(items, r)
    ensures Lab2Com(Dict(items)) == Ok(r)
  {
    var out := Lab2Com(Dict(items)).value;
    Lab2ComIsCommunityList(items);
    OrderedUnique(Nodes(items), out, r);
  }

  /** In a list meeting the specification, every community is non-empty. */
  lemma ListNonEmpty<L>(items: seq<(int, L)>, r: seq<set<int>>)
    requires IsCommunityList(items, r)
    ensures forall i :: 0 <= i < |r| ==> r[i] != {}
  {
    forall i | 0 <= i < |r| ensures r[i] != {} {
      assert r[i] in CommunitySet(items);
      var u :| u in LabelSeq(items) && r[i] == Members(items, u);
      var a :| 0 <= a < |items| && LabelSeq(items)[a] == u;
      assert items[a].0 in Members(items, u);
    }
  }

  /** In a list meeting the specification, no two communities share a node. */
  lemma ListDisjoint<L>(items: seq<(int, L)>, r: seq<set<int>>)
    requires DistinctKeys(items)
    requires IsCommunityList(items, r)
    ensures forall i, j :: 0 <= i < j < |r| ==> r[i] !! r[j]
  {
    OrderedDistinct(Nodes(items), r);
    forall i, j | 0 <= i < j < |r| ensures r[i] !! r[j] {
      assert r[i] in CommunitySet(items) && r[j] in CommunitySet(items);
      var u :| u in LabelSeq(items) && r[i] == Members(items, u);
      var w :| w in LabelSeq(items) && r[j] == Members(items, w);
      MembersDisjoint(items, u, w);
    }
  }

  /** In a list meeting the specification, the communities together hold exactly the
      keys. */
  lemma ListCovers<L>(items: seq<(int, L)>, r: seq<set<int>>)
    requires IsCommunityList(items, r)
    ensures forall k :: k in Nodes(items) <==> InSome(r, k)
  {
    forall k | k in Nodes(items) ensures InSome(r, k) {
      var a :| 0 <= a < |items| && Nodes(items)[a] == k;
      var c := Members(items, items[a].1);
      assert LabelSeq(items)[a] == items[a].1;
      assert c in CommunitySet(items);
      assert k in c;
      var i :| 0 <= i < |r| && r[i] == c;
    }
    forall k | InSome(r, k) ensures k in Nodes(items) {
      var i :| 0 <= i < |r| && k in r[i];
      assert r[i] in CommunitySet(items);
      var u :| u in LabelSeq(items) && r[i] == Members(items, u);
      var a :| 0 <= a < |items| && items[a].1 == u && items[a].0 == k;
      assert Nodes(items)[a] == k;
    }
  }

  /** In a list meeting the specification, two nodes share a community exactly when
      they carry the same label. */
  lemma ListSameCommunity<L>(items: seq<(int, L)>, r: seq<set<int>>, k1: int, k2: int)
    requires IsCommunityList(items, r)
    ensures Together(r, k1, k2) <==> SameLabel(items, k1, k2)
  {
    if Together(r, k1, k2) {
      var i :| 0 <= i < |r| && k1 in r[i] && k2 in r[i];
      assert r[i] in CommunitySet(items);
      var u :| u in LabelSeq(items) && r[i] == Members(items, u);
      var a :| 0 <= a < |items| && items[a].1 == u && items[a].0 == k1;
      var b :| 0 <= b < |items| && items[b].1 == u && items[b].0 == k2;
    }
    if SameLabel(items, k1, k2) {
      var a, b :| 0 <= a < |items| && 0 <= b < |items|
        && items[a].0 == k1 && items[b].0 == k2 && items[a].1 == items[b].1;
      var c := Members(items, items[a].1);
      assert LabelSeq(items)[a] == items[a].1;
      assert c in CommunitySet(items);
      assert k1 in c && k2 in c;
      var i :| 0 <= i < |r| && r[i] == c;
    }
  }

  /** Every community returned for a dict is non-empty. */
  lemma Lab2ComNonEmpty<L(!new)>(items: seq<(int, L)>)
    requires DistinctKeys(items)
    ensures Lab2Com(Dict(items)).Ok?
    ensures var r := Lab2Com(Dict(items)).value;
      forall i :: 0 <= i < |r| ==> r[i] != {}
  {
    Lab2ComIsCommunityList(items);
    ListNonEmpty(items, Lab2Com(Dict(items)).value);
  }

  /** No two communities returned for a dict share a node. */
  lemma Lab2ComDisjoint<L(!new)>(items: seq<(int, L)>)
    requires DistinctKeys(items)
    ensures Lab2Com(Dict(items)).Ok?
    ensures var r := Lab2Com(Dict(items)).value;
      forall i, j :: 0 <= i < j < |r| ==> r[i] !! r[j]
  {
    Lab2ComIsCommunityList(items);
    ListDisjoint(items, Lab2Com(Dict(items)).value);
  }

  /** The communities returned for a dict together hold exactly its keys. */
  lemma Lab2ComCovers<L(!new)>(items: seq<(int, L)>)
    requires DistinctKeys(items)
    ensures Lab2Com(Dict(items)).Ok?
    ensures forall k :: k in Nodes(items) <==> InSome(Lab2Com(Dict(items)).value, k)
  {
    Lab2ComIsCommunityList(items);
    ListCovers(items, Lab2Com(Dict(items)).value);
  }

  /** Two nodes share a community exactly when they carry the same label. */
  lemma Lab2ComSameCommunity<L(!new)>(items: seq<(int, L)>, k1: int, k2: int)
    requires DistinctKeys(items)
    ensures Lab2Com(Dict(items)).Ok?
    ensures Together(Lab2Com(Dict(items)).value, k1, k2) <==> SameLabel(items, k1, k2)
  {
    Lab2ComIsCommunityList(items);
    ListSameCommunity(items, Lab2Com(Dict(items)).value, k1, k2);
  }

  /** There is one community per distinct label. */
  lemma Lab2ComCount<L(!new)>(items: seq<(int, L)>)
    ensures Lab2Com(Dict(items)).Ok?
    ensures |Lab2Com(Dict(items)).value| == |set u | u in LabelSeq(items)|
  {
    var t := GroupItems(items);
    DistinctCard(Labels(t));
    assert (set u | u in Labels(t)) == (set u | u in LabelSeq(items));
  }

  /** The sizes of the communities returned for a dict add up to its number of items. */
  lemma Lab2ComSizes<L(!new)>(items: seq<(int, L)>)
    requires DistinctKeys(items)
    ensures Lab2Com(Dict(items)).Ok?
    ensures SumSizes(Lab2Com(Dict(items)).value) == |items|
  {
    var t := GroupItems(items);
    SortBySizeSumSizes(Groups(t));
    GroupsSize(items);
  }

  /** In a list meeting the specification, of two communities of equal size the one
      whose first node comes earlier is listed first. */
  lemma ListTies<L>(items: seq<(int, L)>, r: seq<set<int>>)
    requires IsCommunityList(items, r)
    ensures forall i, j :: 0 <= i < j < |r| && |r[i]| == |r[j]| ==>
      FirstPos(Nodes(items), r[i]) < FirstPos(Nodes(items), r[j])
  {
  }

  /** Communities of equal size appear in the order in which their labels were first met. */
  lemma Lab2ComTies<L(!new)>(items: seq<(int, L)>)
    requires DistinctKeys(items)
    ensures Lab2Com(Dict(items)).Ok?
    ensures var r := Lab2Com(Dict(items)).value;
      forall i, j :: 0 <= i < j < |r| && |r[i]| == |r[j]| ==>
        FirstPos(Nodes(items), r[i]) < FirstPos(Nodes(items), r[j])
  {
    Lab2ComIsCommunityList(items);
    ListTies(items, Lab2Com(Dict(items)).value);
  }

  // ---------------------------------------------------------------------------
  // lab2com on an array
  // ---------------------------------------------------------------------------

  /** An array gives the same list as the dict `{0: labels[0], 1: labels[1], ...}`
      built in index order. */
  lemma Lab2ComArrayAsDict<L(!new)>(labels: seq<L>)
    ensures Lab2Com(Array(labels)) == Lab2Com(Dict(Enumerate(labels)))
  {
  }

  /** For an array, the communities partition the indices `0 .. |labels| - 1`, there is
      one community per distinct label, and the sizes add up to the array's length. */
  lemma Lab2ComArrayPartition<L(!new)>(labels: seq<L>)
    ensures Lab2Com(Array(labels)).Ok?
    ensures var r := Lab2Com(Array(labels)).value;
      && (forall i :: 0 <= i < |r| ==> r[i] != {})
      && (forall i, j :: 0 <= i < j < |r| ==> r[i] !! r[j])
      && (forall k :: 0 <= k < |labels| <==> InSome(r, k))
      && |r| == |set v | v in labels|
      && SumSizes(r) == |labels|
  {
    var items := Enumerate(labels);
    Lab2ComArrayAsDict(labels);
    EnumerateFacts(labels);
    Lab2ComNonEmpty(items);
    Lab2ComDisjoint(items);
    Lab2ComCovers(items);
    Lab2ComCount(items);
    Lab2ComSizes(items);
    var r := Lab2Com(Array(labels)).value;
    forall k ensures 0 <= k < |labels| <==> InSome(r, k) {
      assert k in Nodes(items) <==> 0 <= k < |labels| by {
        if 0 <= k < |labels| { assert Nodes(items)[k] == k; }
      }
    }
  }

  /** For an array, two indices share a community exactly when their labels are equal. */
  lemma Lab2ComArraySameCommunity<L(!new)>(labels: seq<L>, k1: int, k2: int)
    ensures Lab2Com(Array(labels)).Ok?
    ensures Together(Lab2Com(Array(labels)).value, k1, k2) <==>
      (0 <= k1 < |labels| && 0 <= k2 < |labels| && labels[k1] == labels[k2])
  {
    var items := Enumerate(labels);
    Lab2ComArrayAsDict(labels);
    EnumerateFacts(labels);
    Lab2ComSameCommunity(items, k1, k2);
    if 0 <= k1 < |labels| && 0 <= k2 < |labels| && labels[k1] == labels[k2] {
      assert items[k1].0 == k1 && items[k2].0 == k2;
    }
  }

  /** For an array, communities of equal size are ordered by their smallest index. */
  lemma Lab2ComArrayTies<L(!new)>(labels: seq<L>)
    ensures Lab2Com(Array(labels)).Ok?
    ensures var r := Lab2Com(Array(labels)).value;
      forall i, j :: 0 <= i < j < |r| && |r[i]| == |r[j]| ==>
        exists k :: k in r[i] && forall k' :: k' in r[j] ==> k < k'
  {
    var items := Enumerate(labels);
    Lab2ComArrayAsDict(labels);
    EnumerateFacts(labels);
    Lab2ComTies(items);
    Lab2ComCovers(items);
    var r := Lab2Com(Array(labels)).value;
    var nodes := Nodes(items);
    forall i, j | 0 <= i < j < |r| && |r[i]| == |r[j]|
      ensures exists k :: k in r[i] && forall k' :: k' in r[j] ==> k < k'
    {
      var p := FirstPos(nodes, r[i]);
      var q := FirstPos(nodes, r[j]);
      assert p < q;
      assert nodes[p] == p;
      forall k' | k' in r[j] ensures p < k' {
        assert k' in nodes;
        assert nodes[k'] == k';
      }
      assert p in r[i];
    }
  }
}
