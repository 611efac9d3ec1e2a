/** The grouping loops of lab2com. Both branches walk the input once and keep a
    Python dict `communities` from label to the set of nodes seen with that label:
    `communities[v].add(k)`, or `communities[v] = {k}` when `v` is not yet a key.
    A Python dict iterates in insertion order, so the dict is modelled as a sequence
    of (label, nodes) entries in the order their labels were first added. */
module Grouping {
  import opened Seqs

  /** The insertion-ordered `communities` dict. */
  type Table<L> = seq<(L, set<int>)>

  /** The dict's keys, in insertion order. */
  function Labels<L>(t: Table<L>): seq<L> {
    seq(|t|, j requires 0 <= j < |t| => t[j].0)
  }

  /** The dict's values, in insertion order. */
  function Groups<L>(t: Table<L>): seq<set<int>> {
    seq(|t|, j requires 0 <= j < |t| => t[j].1)
  }

  /** The nodes stored under `v`; empty when `v` is not a key. */
  function Get<L(==)>(t: Table<L>, v: L): set<int> {
    var i := FirstPos(Labels(t), {v});
    if i < |t| then t[i].1 else {}
  }

  /** One step of either loop: `communities[v].add(k)`, falling back to
      `communities[v] = {k}` on the KeyError of a label not seen before.
      Only the entry of `v` changes, and a new label goes to the end. */
  function Add<L(==,!new)>(t: Table<L>, k: int, v: L): (r: Table<L>)
    ensures v in Labels(t) ==> Labels(r) == Labels(t)
    ensures v !in Labels(t) ==> Labels(r) == Labels(t) + [v]
    ensures forall u :: Get(r, u) == if u == v then Get(t, u) + {k} else Get(t, u)
  {
    var i := FirstPos(Labels(t), {v});
    if i < |t| then
      var r := t[i := (v, t[i].1 + {k})];
      assert Labels(r) == Labels(t);
      r
    else
      var r := t + [(v, {k})];
      assert Labels(r) == Labels(t) + [v];
      forall u ensures Get(r, u) == if u == v then Get(t, u) + {k} else Get(t, u) {
        FirstPosAppend(Labels(t), v, {u});
      }
      r
  }

  /** The keys of dict items, in iteration order. */
  function Nodes<L>(items: seq<(int, L)>): seq<int> {
    seq(|items|, a requires 0 <= a < |items| => items[a].0)
  }

  /** The values of dict items, in iteration order. */
  function LabelSeq<L>(items: seq<(int, L)>): seq<L> {
    seq(|items|, a requires 0 <= a < |items| => items[a].1)
  }

  /** The nodes that carry label `v`. */
  function Members<L(==)>(items: seq<(int, L)>, v: L): set<int> {
    set a | 0 <= a < |items| && items[a].1 == v :: items[a].0
  }

  /** A Python dict never holds a key twice. */
  predicate DistinctKeys<L>(items: seq<(int, L)>) {
    Distinct(Nodes(items))
  }

  /** The entries of `t` are ordered by where their labels first occur in `vals`. */
  predicate FirstSeenOrder<L(==)>(vals: seq<L>, t: Table<L>) {
    forall i, j :: 0 <= i < j < |t| ==> FirstPos(vals, {t[i].0}) < FirstPos(vals, {t[j].0})
  }

  /** The dict branch: `for k, v in labels.items()`. The result has one entry per
      distinct label, holding exactly the nodes with that label, and its entries are
      ordered by where each label first occurs. */
  function GroupItems<L(==,!new)>(items: seq<(int, L)>): (t: Table<L>)
    ensures Distinct(Labels(t))
    ensures forall u :: u in Labels(t) <==> u in LabelSeq(items)
    ensures forall u :: Get(t, u) == Members(items, u)
    ensures FirstSeenOrder(LabelSeq(items), t)
  {
    if |items| == 0 then []
    else
      var n := |items| - 1;
      var prev := GroupItems(items[..n]);
      var k, v := items[n].0, items[n].1;
      assert LabelSeq(items) == LabelSeq(items[..n]) + [v];
      MembersSnocAll(items);
      AddDistinct(prev, k, v);
      AddFirstSeenOrder(LabelSeq(items[..n]), prev, k, v);
      Add(prev, k, v)
  }

  /** Adding keeps the labels duplicate-free. */
  lemma AddDistinct<L(!new)>(t: Table<L>, k: int, v: L)
    requires Distinct(Labels(t))
    ensures Distinct(Labels(Add(t, k, v)))
  {
  }

  /** Adding the next item keeps the entries in first-seen order. */
  lemma AddFirstSeenOrder<L(!new)>(vals: seq<L>, t: Table<L>, k: int, v: L)
    requires forall u :: u in Labels(t) <==> u in vals
    requires FirstSeenOrder(vals, t)
    ensures FirstSeenOrder(vals + [v], Add(t, k, v))
  {
    var r := Add(t, k, v);
    forall i, j | 0 <= i < j < |r|
      ensures FirstPos(vals + [v], {r[i].0}) < FirstPos(vals + [v], {r[j].0})
    {
      assert Labels(r)[i] == r[i].0 && Labels(r)[j] == r[j].0;
      assert Labels(t)[i] == r[i].0;
      assert r[i].0 in vals;
      FirstPosAppend(vals, v, {r[i].0});
      FirstPosAppend(vals, v, {r[j].0});
      if j < |t| {
        assert Labels(t)[j] == r[j].0;
      }
    }
  }

  /** `MembersSnoc` for every label at once. */
  lemma MembersSnocAll<L>(items: seq<(int, L)>)
    requires |items| > 0
    ensures var n := |items| - 1;
      forall u :: Members(items, u) ==
        if u == items[n].1 then Members(items[..n], u) + {items[n].0} else Members(items[..n], u)
  {
  }

  /** The last item adds its node to the members of its own label and to no other. */
  lemma MembersSnoc<L>(items: seq<(int, L)>, u: L)
    requires |items| > 0
    ensures var n := |items| - 1;
      Members(items, u) ==
        if u == items[n].1 then Members(items[..n], u) + {items[n].0} else Members(items[..n], u)
  {
  }

  /** The dict whose items are `(0, labels[0]), (1, labels[1]), ...` in that order. */
  function Enumerate<L>(labels: seq<L>): seq<(int, L)> {
    seq(|labels|, k requires 0 <= k < |labels| => (k, labels[k]))
  }

  /** The array branch: `for k, v in enumerate(labels)`, node `k` carrying `labels[k]`.
      Both loops perform the same steps, so the array branch builds the same dict as
      the dict branch run on the enumerated array. */
  function GroupArray<L(==,!new)>(labels: seq<L>): (t: Table<L>)
    ensures t == GroupItems(Enumerate(labels))
  {
    if |labels| == 0 then []
    else
      var n := |labels| - 1;
      assert Enumerate(labels)[..n] == Enumerate(labels[..n]);
      Add(GroupArray(labels[..n]), n, labels[n])
  }

  /** Enumerating an array gives the nodes `0, 1, ..., |labels| - 1`, each with its label. */
  lemma EnumerateFacts<L>(labels: seq<L>)
    ensures DistinctKeys(Enumerate(labels))
    ensures Nodes(Enumerate(labels)) == seq(|labels|, k requires 0 <= k < |labels| => k)
    ensures LabelSeq(Enumerate(labels)) == labels
  {
  }
}
