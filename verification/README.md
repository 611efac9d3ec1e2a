# lab2com: grouping node labels into communities

This project models `lab2com` from `metrics.py` of the cocitation-modularity
utility. The helper takes a partition of a graph's nodes and returns the list of
communities, largest first. The partition is either a dict mapping each node to a
community label, or a one-dimensional NumPy array whose k-th entry is node k's label.
Each community is the set of nodes that share one label.

The function works in two steps:

1. It walks the input once and fills an insertion-ordered dict `communities` from
   label to node set. It calls `communities[v].add(k)`, and on a `KeyError` (a label
   not seen yet) it stores `communities[v] = {k}` instead. The dict branch iterates
   `labels.items()`. The array branch iterates `enumerate(labels)`. Any other
   argument raises `TypeError`.
2. It returns the dict's values sorted with `sorted(..., reverse=True, key=len)`.
   Python's sort is stable, also with `reverse=True`. So communities of equal size
   keep the order in which their labels were first met.

The Dafny files:

- `seqs.dfy` (module `Seqs`): duplicate-freedom and `FirstPos`, the position of the
  first element of a sequence that lies in a given set.
- `size_sort.dfy` (module `SizeSort`): the stable sort by descending size. It is an
  insertion sort. `StableSortIsSortBySize` shows that any stable descending sort gives the
  same list, so it agrees with Python's timsort.
- `grouping.dfy` (module `Grouping`): the insertion-ordered dict (`Table`), the
  add-or-create step (`Add`), the dict loop (`GroupItems`), the array loop
  (`GroupArray`), whose contract says the two loops agree.
- `metrics.dfy` (module `Metrics`): the argument type `Input`, the `TypeError` result,
  `Lab2Com` itself, and the properties of its result.

The result is specified without reference to the algorithm. `CommunitySet(items)`
holds, for each distinct label, the set of nodes carrying that label. `Before`
orders two communities: the larger one comes first, and between equal sizes the one
whose earliest node comes first in the input goes first. `Lab2ComIsCommunityList`
and `Lab2ComOnlyCommunityList` together show that `Lab2Com` returns exactly the one
list that holds those communities in `Before` order.

A Python dict never holds the same key twice. The model lists a dict's items as a
sequence in iteration order, and the lemmas about dicts require `DistinctKeys`.
Labels are of any type with equality. Nodes are integers.

## Model

| member | source | states |
|---|---|---|
| `Grouping.Add` | metrics.py:67-70 | Only the entry of label `v` gains node `k`; a new label is appended after all existing ones, and an existing label keeps its place. |
| `Grouping.GroupItems` | metrics.py:63-70 | The dict built by the loop has one entry per distinct label; each entry holds exactly the nodes with that label; entries are ordered by where each label first occurs. |
| `Grouping.GroupArray` | metrics.py:71-76 | The array loop builds the same dict as the dict loop run on items `(0, labels[0]), (1, labels[1]), …` in that order. |
| `SizeSort.Insert` | metrics.py:81 | Inserting adds exactly the one element to the list's multiset of elements. |
| `SizeSort.InsertOfSize` | metrics.py:81 | Within each size class, the inserted element goes before the existing elements of that size and the others keep their order. |
| `SizeSort.SortBySize` | metrics.py:81 | The result is a permutation of the input, of the same length, and sizes never increase along it. |
| `SizeSort.SortBySizeStable` | metrics.py:81 | The sort is stable: elements of equal size keep their input order. |
| `SizeSort.SortBySizeSumSizes` | metrics.py:81 | Sorting keeps the total number of nodes over all communities. |
| `SizeSort.SortBySizeDistinct` | metrics.py:81 | Sorting a list without repeated communities gives a list without repeated communities. |
| `SizeSort.StableSortUnique` | metrics.py:81 | Two lists sorted by descending size with the same elements of each size, in the same order, are equal. |
| `SizeSort.StableSortIsSortBySize` | metrics.py:81 | Any list sorted by descending size whose equal-size elements appear in the input's order is the model's result, so every stable descending sort (Python's timsort included) agrees with it. |
| `Metrics.Lab2Com` | metrics.py:62-81 | The result is an error exactly for an argument that is neither a dict nor an array (labels assumed hashable), and that error is the TypeError with the source's message; any other result is sorted by non-increasing size. |
| `Metrics.GroupsAreCommunities` | metrics.py:63-70 | A set is a value of the dict exactly when it is the set of nodes carrying one of the labels that occur. |
| `Metrics.GroupsFirstNodes` | metrics.py:63-70 | With distinct keys, the dict's values are in increasing order of their earliest node. |
| `Metrics.GroupsSize` | metrics.py:66-70 | With distinct keys, the community sizes before sorting add up to the number of items. |
| `Metrics.SortOrdered` | metrics.py:81 | Stably sorting communities whose first nodes increase yields the order larger first, then earlier first node. |
| `Metrics.OrderedUnique` | metrics.py:81 | Only one list holds a given set of communities in that order. |
| `Metrics.Lab2ComIsCommunityList` | metrics.py:62-81 | For a dict, the result holds exactly the communities of the distinct labels, larger first, and equal sizes ordered by their earliest node. |
| `Metrics.Lab2ComOnlyCommunityList` | metrics.py:62-81 | Conversely, any list with those communities in that order is the result. |
| `Metrics.Lab2ComNonEmpty` | metrics.py:66-70 | Every returned community is non-empty. |
| `Metrics.Lab2ComDisjoint` | metrics.py:65-70 | Returned communities at different positions share no node. |
| `Metrics.Lab2ComCovers` | metrics.py:65-70 | A node is in some returned community if and only if it is a key of the dict. |
| `Metrics.Lab2ComSameCommunity` | metrics.py:66-70 | Two nodes share a community if and only if both are keys and their labels are equal. |
| `Metrics.Lab2ComCount` | metrics.py:63-81 | There are as many communities as distinct labels. |
| `Metrics.Lab2ComSizes` | metrics.py:63-81 | With distinct keys, the community sizes add up to the number of dict items. |
| `Metrics.Lab2ComTies` | metrics.py:63-81 | Of two communities of equal size, the one whose earliest node comes first in the dict's iteration order is listed first. |
| `Metrics.Lab2ComArrayAsDict` | metrics.py:65-76 | An array gives the same result as the dict `{0: labels[0], 1: labels[1], …}` built in index order. |
| `Metrics.Lab2ComArrayPartition` | metrics.py:71-76 | For an array, the communities are non-empty and pairwise disjoint, together they hold exactly the indices from 0 up to the array length minus one, there is one per distinct label, and their sizes add up to the array's length. |
| `Metrics.Lab2ComArraySameCommunity` | metrics.py:72-76 | For an array, two indices share a community if and only if both are in range and their labels are equal. |
| `Metrics.Lab2ComArrayTies` | metrics.py:71-81 | For an array, of two communities of equal size, the one with the smaller least index is listed first. |

## Left out

- `cocitation_modularity` (metrics.py:12-59): it is floating-point linear algebra on NumPy and SciPy matrices (square roots, sparse diagonal scaling, matrix products, norms and a final float division). None of this can be modelled faithfully without those libraries.
- The division-by-zero masking with `errstate` and `isinf` (metrics.py:44-46): it concerns IEEE float behaviour, not logic.
- The dense/sparse matrix type check of `cocitation_modularity` (metrics.py:31-37): it tests concrete NumPy and SciPy classes. The analogous check in `lab2com` is modelled by the `Input` datatype.
- The unguarded `total_weight == 0` case (metrics.py:57, 59): a float NaN or infinity, not defined behaviour.
- Exact-type dispatch: `type(labels) == dict` rejects dict subclasses such as `OrderedDict`, and `type(labels) == np.ndarray` rejects array subclasses. The model cannot see Python classes. Such values, like lists and scalars, are the `Other` case.
- Dict keys are modelled as integers, and labels only through equality. Python hashing quirks are not modelled: `1`, `1.0` and `True` are one dict key, and NaN labels read from an array do not match each other.
- A multi-dimensional array yields unhashable rows and raises while grouping. The model takes only one-dimensional arrays.
- Dicts with repeated keys cannot exist in Python. The dict lemmas that depend on it require `DistinctKeys`; `Lab2Com` itself accepts any item sequence.
- Metrics.Lab2Com: labels are assumed hashable. In the source, `communities[v]` (metrics.py:68, 74) hashes the label before any `KeyError` can arise, so an unhashable label such as a list raises a `TypeError` that the `except KeyError` does not catch. Iterating a 0-d array (metrics.py:72) also raises a `TypeError`. The model has no unhashable labels and no 0-d arrays, so its only error is the wrong-argument-type one.
