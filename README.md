# Rooted disjoint set

This project models `RootedDisjointSet` from `main.py`. The class is a
dictionary from each key to its parent key, and it is also a union-find
structure:

- **Reading a key** (`__getitem__`, `find_root`) adds the key as its own root
  when it is absent. It then walks the parent pointers to the root and points
  every node on the walked path straight at that root (full path compression).
- **Writing** `self[key] = depends_on` (`__setitem__`, `set_dependent`) finds
  the root of `depends_on`, then the root of `key`. When the two roots differ,
  the root of `key` is pointed at the root of `depends_on`. There is no rank or
  size balancing.
- **`have_same_root`** compares two roots.
- **The constructor** replays a dependency map through union, in the map's
  iteration order.
- **`==`** pairs the keys of two containers by iteration position (`zip`) and
  compares their roots.

The project has four modules:

- `Groups` (`groups.dfy`) is the reference meaning. A *root map* sends every
  key to the root of its group. `Union` and `Replay` are union and
  construction on root maps, with no pointers involved.
- `Forest` (`forest.dfy`) covers parent maps as values:
  - `Ranked` is the invariant: the map is closed and has no cycle except the
    self-loops at roots. It is witnessed by a ghost `rank` that strictly
    increases towards the root.
  - `Root` and `Path` describe the walk from a key to its root.
  - `Compress` is full path compression.
  - Three predicates relate a map before and after an operation.
    `KeepsRoots` and `SameRoots` say that no group changes. `Merged` says that
    one group moves under the root of another.
  - `GroupedAs` ties a parent map to the root map it stands for.
  - `MergedIsUnion` and `UnionIsMerged` prove that `Merged` is exactly `Union`
    on root maps.
- `DisjointSet` (`disjoint_set.dfy`) is the class itself.
  - Fields: `parent: map<K, K>` is the dictionary, `order: seq<K>` is its key
    iteration order (insertion order), and `rank` is ghost.
  - Every method has the same loops and branches as the Python source. Each
    one is proved to keep `Valid()` and to do what its contract states.
  - The lookup loop in `BrutalFindRoot` terminates because the set of keys
    ranked above the cursor shrinks at every step. The compression loop in
    `Flatten` walks the finite ghost path from the key to its root, one node
    per step.
- `Scenarios` (`scenarios.dfy`) holds concrete runs whose outcomes the
  contracts force. One is the x/y/z union chain. Another shows that two
  containers holding the same dictionary compare unequal when their iteration
  orders differ.

Positional equality is order-dependent, and the model keeps that behaviour
exactly as the code does it:

- `{1: 1, 2: 2}` and `{2: 2, 1: 1}` build the same dictionary, every key its
  own root, yet they compare unequal, because the keys are paired by position
  (`Scenarios.InsertionOrderMatters`).
- `{1: 2}` and `{2: 1}` build the same single group, yet they compare unequal,
  because the group's root is `2` in one and `1` in the other
  (`Scenarios.OrderMatters`).
- An empty container compares equal to every container.

## Model

| member | source | states |
|---|---|---|
| Groups.UnionJoins | main.py:65-68 | after a union both keys are present and share the root `depends_on` had before |
| Groups.UnionKeepsJoined | main.py:65-68 | a union never splits a group: two keys that shared a root still share one |
| Groups.UnionWhenJoined | main.py:62-67 | when the two keys already share a root, union leaves every key's root as it was |
| Groups.UnionIdempotent | main.py:62-63 | repeating the same union changes nothing |
| Groups.ReplayStep | main.py:33-34 | replaying one more dependency pair is one more union |
| Groups.ReplayJoins | main.py:32-34 | after replaying a dependency list, both keys of every pair are present and in one group |
| Groups.ReplayChain | main.py:32-34 | replaying `1 -> 2`, `2 -> 3` from empty gives one group rooted at `3` |
| Forest.AboveShrinks | main.py:71-72 | one step towards the root strictly shrinks the set of keys ranked above: the walk terminates |
| Forest.Root | main.py:70-73 | the root reached by following pointers is a key and a self-loop |
| Forest.Path | main.py:52-55 | the walked path starts at the key, ends at its root, and every node on it is a key |
| Forest.PathSteps | main.py:52-55 | each path node's parent is the next node, only the last node is a self-loop, and ranks strictly increase, so no node repeats |
| Forest.RootFixed | main.py:71 | a key is its own root exactly when it is its own parent |
| Forest.RootAlongPath | main.py:52-55 | every node on the path has the same root as the key the walk started from |
| Forest.RedirectAt | main.py:54 | redirecting path nodes adds no key, sends exactly the redirected nodes to the root and leaves every other parent alone |
| Forest.NotYetRedirected | main.py:52-55 | the node the compression loop stands on still holds its original parent |
| Forest.RedirectedToCompress | main.py:52-56 | when the loop meets a self-loop, the nodes redirected so far are the whole path less the root, and the map is the full compression |
| Forest.CompressRanked | main.py:51-56 | compression adds no key and keeps the map closed and acyclic under the same ranks |
| Forest.CompressShape | main.py:51-56 | after compression every node on the path points at the root and every other key keeps its parent |
| Forest.CompressAtRoot | main.py:47-56 | looking up a key that is a root compresses nothing |
| Forest.CompressKeepsRoot | main.py:51-56 | compression keeps the root of every key |
| Forest.CompressSameRoots | main.py:51-56 | compression keeps the forest valid, every key and every root |
| Forest.KeepsRootsTrans | main.py:65 | two lookups in a row keep every root, as each one does |
| Forest.SameRootsTrans | main.py:38-39 | lookups of present keys in a row keep every key and every root |
| Forest.MergedJoins | main.py:65-68 | after a merge, `key` and `depends_on` have the same root: the root `depends_on` had before |
| Forest.MergedWhenJoined | main.py:62-67 | no-op rule: when the two keys already share a root, lookups that keep every root already make the merge |
| Forest.MergedThroughRoots | main.py:65-68 | finding both roots and then merging the root of `key` under the root of `depends_on` merges the two keys' groups |
| Forest.SameRootsIsSameGroups | main.py:51-56 | keeping every key and root is the same as standing for the same grouping, in both directions |
| Forest.MergedIsUnion | main.py:58-68 | a pointer-level merge stands for `Union` on the grouping the forest stood for |
| Forest.UnionIsMerged | main.py:58-68 | conversely, a forest that stands for that `Union` is a merge |
| Forest.LinkRanked | main.py:68 | pointing one root at another keeps the forest closed and acyclic, with only the surviving root's rank raised |
| Forest.LinkRoot | main.py:68 | after the link, every key of the linked root's group has the new root and every other key keeps its root |
| Forest.LinkMerges | main.py:68 | linking root `c` under root `d` is the merge of `c`'s group into `d`'s |
| Forest.VivifyRanked | main.py:49 | adding an absent key as its own parent keeps the forest closed and acyclic |
| Forest.VivifyKeepsRoot | main.py:49 | adding an absent key leaves every other key's root alone |
| Forest.VivifyKeeps | main.py:49 | adding an absent key keeps every root, and the new key is its own root |
| DisjointSet.ElementsAppended | main.py:49 | insert-if-absent adds exactly the looked-up key to the listed keys |
| DisjointSet.ReplayedOrderStep | main.py:33-34 | replaying one more pair appends `depends_on`, then `key`, to the iteration order when they are new |
| DisjointSet.JoinedByReplay | main.py:32-34 | a forest standing for the replay of the dependency list has both keys of every pair in one group |
| DisjointSet.RootsAlongAt | main.py:38-39 | the `i`-th root compared by `==` is the root of the `i`-th key in iteration order |
| DisjointSet.EmptyEqualsAll | main.py:36-40 | pairing stops at the shorter order, so an empty container equals every container |
| DisjointSet.RootedDisjointSet.OrderDistinct | main.py:49 | the iteration order lists every key exactly once |
| DisjointSet.RootedDisjointSet.constructor | main.py:26-34 | the container is valid; its iteration order and grouping are those of replaying the pairs through union in order; every pair ends in one group |
| DisjointSet.RootedDisjointSet.SetAll | main.py:32-34 | applying union to each pair in turn gives the replayed iteration order and the replayed grouping |
| DisjointSet.RootedDisjointSet.BrutalFindRoot | main.py:70-73 | the walk along parent pointers changes nothing and returns the root: a self-loop reached from the start key |
| DisjointSet.RootedDisjointSet.GetItem | main.py:42-56 | see the note after the table |
| DisjointSet.RootedDisjointSet.SetDefault | main.py:47-50 | an absent key becomes its own parent at the end of the iteration order, and every root is kept |
| DisjointSet.RootedDisjointSet.Flatten | main.py:51-55 | the loop leaves exactly the full compression of the walked path; keys, order and roots are unchanged |
| DisjointSet.RootedDisjointSet.FindRoot | main.py:75-81 | the same contract as `GetItem` |
| DisjointSet.RootedDisjointSet.SetItem | main.py:58-68 | see the note after the table |
| DisjointSet.RootedDisjointSet.FindBoth | main.py:65 | finds `depends_on` first, then `key`; returns both pre-call roots, which are still self-loops; adds both keys in that order and keeps every root |
| DisjointSet.RootedDisjointSet.Link | main.py:66-68 | the one pointer write `pc -> pp`; keeps the forest valid; it is the merge of `pc`'s group into `pp`'s |
| DisjointSet.RootedDisjointSet.SetDependent | main.py:91-100 | the same contract as `SetItem` |
| DisjointSet.RootedDisjointSet.HaveSameRoot | main.py:83-89 | true exactly when the two keys' pre-call roots are equal; both keys are added if absent, `key1` first; every root is kept |
| DisjointSet.RootedDisjointSet.Equals | main.py:36-40 | the result is positional equality of the pre-call states over the common prefix of the two iteration orders; both containers keep their keys, order and roots, even when they are the same object |
| DisjointSet.RootedDisjointSet.RootsMatch | main.py:38 | one `zip` step: looks up a key here and a key in the other container, and answers whether their pre-call roots are equal; keys, order and roots of both are kept |
| Scenarios.ChainRoot | main.py:32-34 | built from `{1: 2, 2: 3}`, `find_root(1)` is `3` |
| Scenarios.ChainOfUnions | main.py:58-81 | from empty, with keys 1, 2, 3 for x, y, z: `x` on `y` gives root `y`; `y` on `z` gives root `z` for `x`; `z` on `x` is a no-op, so all three have root `z` |
| Scenarios.UnionInOneGroup | main.py:62-67 | with `1`, `2`, `3` in one group rooted at `3`, making `3` depend on `1` leaves all three with root `3` |
| Scenarios.SameAfterUnion | main.py:83-100 | right after `set_dependent(a, b)`, `have_same_root(a, b)` is true |
| Scenarios.OrderMatters | main.py:36-40 | `{1: 2}` and `{2: 1}` both form the single group `{1, 2}` but compare unequal, because the group's root is `2` in one and `1` in the other |
| Scenarios.OwnRootsEitherOrder | main.py:32-34 | replaying `{1: 1, 2: 2}` and `{2: 2, 1: 1}` gives the same grouping, each key its own root |
| Scenarios.OrderOfOwnRoots | main.py:32-34 | built from `{1: 1, 2: 2}` the keys iterate as `1, 2`; built from `{2: 2, 1: 1}`, as `2, 1` |
| Scenarios.InsertionOrderMatters | main.py:36-40 | two containers with the same grouping and the same roots compare unequal when only their insertion order differs, because `zip` pairs keys by position |

`RootedDisjointSet.GetItem` (and `FindRoot`) states the following:

- The container stays valid.
- The key set grows by exactly `key`, and `key` goes at the end of the
  iteration order if it is new.
- The result is the pre-call root of `key` and is a self-loop.
- Afterwards `key` itself points directly at the result.
- An absent key comes back as itself, and it is the only entry added.
- When `key` was present, every node on its pre-call path points at the root
  afterwards, and every other key keeps its parent.
- Every key keeps its root.

`RootedDisjointSet.SetItem` (and `SetDependent`) states the following:

- The container stays valid.
- `depends_on` is added to the iteration order first, then `key`.
- The groups after the call are the merge: the group of `key` takes the old
  root of `depends_on`, and every third group keeps its root.
- When the roots differed, the old root of `key` now points at the old root of
  `depends_on`.
- Afterwards `key` and `depends_on` share the old root of `depends_on`.
- When they already shared a root, every root is kept.

## Left out

- Inherited `dict` methods that the class does not override are not modelled:
  `get`, `items`, `values`, `pop`, `del`, `update`, `clear` and a raw
  `setdefault` call. They bypass find and union, and several of them can break
  the closed, acyclic invariant.
- The `@overload` stubs and the `TypeVar` are not modelled. The key type is a
  generic `K` with equality. Construction without an argument is construction
  from the empty list of pairs.
- The dependency map is given as its items in iteration order, a sequence of
  pairs. A sequence may repeat a key, which a Python dict cannot, so the model
  covers more inputs than the source accepts.
- The `isinstance` check of `__eq__` is not modelled. The other operand is
  always a `RootedDisjointSet<K>`, so `False` for an object of another type is
  not modelled.
- Hashing, the hash-table layout and the amortized cost of compression are not
  modelled. Only the behaviour of lookups and writes is.
- Keys whose own `__eq__` or `__hash__` is inconsistent are not modelled. Key
  equality is Dafny equality.
- Threads are not modelled. The class has no concurrency.
- The ghost `rank` is not part of the source. It exists only to witness
  acyclicity and termination.
- DisjointSet.RootedDisjointSet.constructor: states the iteration order and
  the grouping after construction, not the exact parent pointers that path
  compression leaves.
- DisjointSet.RootedDisjointSet.SetAll: states the iteration order and the
  grouping after the replay, not the exact parent pointers that path
  compression leaves.
- DisjointSet.RootedDisjointSet.SetItem: states the link, the grouping and the
  order, not the parent pointers that the two lookups' compression leaves on
  other keys.
- DisjointSet.RootedDisjointSet.SetDependent: as for `SetItem`.
- DisjointSet.RootedDisjointSet.FindBoth: states the keys, the order, both
  roots and that every root is kept, not the parent pointers the two lookups'
  compression leaves.
- DisjointSet.RootedDisjointSet.HaveSameRoot: states the answer, the keys, the
  order and the roots, not the parent pointers compression leaves.
- DisjointSet.RootedDisjointSet.Equals: states the answer, the keys, the order
  and the roots of both containers, not the parent pointers compression leaves.
- DisjointSet.RootedDisjointSet.RootsMatch: as for `Equals`.
