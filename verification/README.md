# Merging touching buildings: the grouping core of `mergeTouchingFeatures`

`mergeTouchingFeatures` in `merge.js` takes a GeoJSON FeatureCollection of
building footprints and returns one feature per group of touching buildings.
It hands the collection to TopoJSON, which builds a topology. In a topology
every footprint is a geometry whose rings refer to shared arcs by integer
index. The function then decides which footprints belong together, and
TopoJSON dissolves each group into one geometry.

This project models the deciding part in Dafny and proves what it computes:

- **Union-find** (`makeUF`, module `UnionFind`, file `union_find.dfy`).
  - The parent array is a `seq<nat>` threaded through pure functions.
  - `Find` follows parents to the root and compresses the path it walked.
  - `Union` finds both roots and links the first under the second.
  - A ghost rank, increasing from child to parent, makes `find` terminate and the forest acyclic. `Root` is the reference definition that reads the root without changing anything.
- **Arc extraction** (module `Arcs`, file `arcs.dfy`).
  - A geometry is its `type` tag and its `arcs` array. The array is modelled as a forest of arbitrarily nested arrays with integer leaves.
  - `ArcsArray` picks a Polygon's array, a MultiPolygon's array flattened once, or nothing. `Collect` gathers the integer leaves.
  - `Key(a) = |a|` is `Math.abs(arcIdx)`, exactly as written.
- **The arc index** (module `ArcIndex`, file `arc_index.dfy`).
  - The `Map` from key to geometry list is an insertion-ordered sequence of `Entry(key, indices)` with distinct keys.
  - `Push` appends an index to the list of a key, creating the entry last when the key is absent.
  - `BuildIndex` is the loop over geometries and their references. `Listing` is the list a key must end up with: geometry `g` once per reference of `g` under that key, in ascending order.
- **The union pass** (module `UnionPass`, file `union_pass.dfy`).
  - `UnionAll` unions the first geometry of every entry with each of the others.
  - `Linked` (module `Touching`, file `touching.dfy`) is the relation this computes. Two geometries share a key when each holds a reference with that key. `Linked` is the reflexive-transitive closure of that: some chain of key-sharing geometries joins the two.
  - `RootsAreComponents` proves that, afterwards, two geometries share a root exactly when they are linked.
- **Grouping and output** (modules `Grouping` and `Merge`).
  - `GroupByRoot` files every index under the root `find` gives it, in the same insertion-ordered map.
  - `MergeTouchingFeatures` runs the whole pipeline. It returns no features when there are no geometries. Otherwise it returns one feature per group, with empty properties and the merge of the group's geometries.
  - The groups partition the indices into the classes of `Linked`. Each group is ascending. The groups are ordered by their least member, which is the order in which their roots were first met.

The key `Math.abs(arcIdx)` does not match TopoJSON's arc numbering (section
2.1.5 of the TopoJSON specification). There, a reversed reference to arc `k`
is written `~k = -k-1`, so its key is `k+1`. In general, the forward and the
reversed reference to one arc never share a key. Whether two adjacent polygons
are linked therefore depends on accidental coincidences among the keys of
their other arcs. Four lemmas pin down the consequences:

- `ReversedReferenceKey`: the reversed reference to arc `k` is filed under key `k+1`, the key of the forward reference to arc `k+1`, and not under the key of arc `k`.
- `AdjacentSquaresNotLinked`: the rings `[0, 2]` and `[~0, 3]` share arc 0 in opposite directions. Their keys are {0, 2} and {1, 3}, so they are not linked.
- `AdjacentSquaresLinkedByCoincidence`: the rings `[0, 1]` and `[2, ~0]` also share arc 0 in opposite directions. They are linked anyway, because arc 1 forward and `~0` both have key 1.
- `DistinctArcsLinked`: a polygon on arc 2 and one on arc 1 reversed are linked, though they share no arc.

The model keeps the key as written throughout, since it describes what the
function does.

Three behaviours of the code differ from how the function is commonly
described. The model follows the code in each:

- Arcs are not identified regardless of direction. The key is `Math.abs`, with the consequences above.
- A geometry is listed under a key once per reference, not once per geometry: nothing de-duplicates the lists. A geometry listed more than once causes `union(g, g)` when it is the first listed, and otherwise a repeated `union(first, g)`. Neither changes any root.
- `union(a, b)` is not free when `a` and `b` already share a root. It still calls `find` on both, and `find` compresses paths. So `Union` promises the weaker, true statement: every parent either stays or is redirected to its own root, and no root changes.

## Model

| member | source | states |
|---|---|---|
| UnionFind.Init | merge.js:12 | a fresh forest of size n is valid and every index is its own root, so `find(i) == i` |
| UnionFind.RootRankFree | merge.js:12 | the root a node reaches depends only on the parent array, not on the rank used to show the forest acyclic |
| UnionFind.CompressKeepsRoots | merge.js:12 | redirecting one node straight to its root keeps the forest valid and changes no node's root |
| UnionFind.Find | merge.js:12 | `find(x)` returns the root of `x` (a node that is its own parent); the compressed array is still a valid forest in which every node keeps its root, and each parent either stays or becomes the node's root |
| UnionFind.LinkRoots | merge.js:12 | setting `p[ra] = rb` for distinct roots moves exactly the nodes of `ra`'s tree to `rb` |
| UnionFind.Union | merge.js:12 | after `union(a, b)` the two share a root; nodes of `a`'s set move to `b`'s root and every other node keeps its root; when they already shared a root, parents change only by path compression |
| Arcs.Collect | merge.js:29-34 | the recursive `collect` appends to the accumulator exactly the integer leaves of the items, left to right, at any nesting depth |
| Arcs.ReversedReferenceKey | merge.js:38 | for every arc `k`, `Math.abs` files the reversed reference `~k = -k-1` under key `k+1`, the key of arc `k+1`, and never under the key `k` of the forward reference to the same arc |
| Arcs.LeavesFlat | merge.js:25 | `arcs.flat()` keeps the leaves of a MultiPolygon's arcs and their order |
| Arcs.FlatArcs | merge.js:25-35 | `flatArcs` is the in-order list of integer leaves of a Polygon's or MultiPolygon's arcs, and empty for any other type |
| Arcs.FlatArcsOfPolygon | merge.js:25-35 | for a Polygon, `flatArcs` is the rings' references concatenated in ring order |
| Arcs.FlatArcsOfMultiPolygon | merge.js:25-35 | for a MultiPolygon, `flatArcs` is the references of every ring of every polygon, polygon by polygon |
| ArcIndex.KeyCountPositive | merge.js:36-38 | some reference of a geometry is filed under key `k` exactly when its count under `k` is positive |
| ArcIndex.Push | merge.js:39-40 | pushing `i` under `k` appends `i` to the list of `k`, creating it last if absent, and leaves every other key's list and place unchanged |
| ArcIndex.PushEntries | merge.js:39-40 | entry by entry, a push extends only the entry of `k`; a new key enters as `[k, [i]]` at the end |
| ArcIndex.IndexGeometry | merge.js:36-41 | the inner loop adds one copy of `i` to the list of each key per reference of geometry `i` under that key, and changes nothing else |
| ArcIndex.BuildIndex | merge.js:20-42 | the finished map has distinct keys, no empty list, and under each key the listing of all geometries' reference counts under that key |
| ArcIndex.ListingCount | merge.js:36-41 | a listing names geometry `g` exactly as many times as `g` has references under the key |
| ArcIndex.ListingSorted | merge.js:22-41 | a listing is non-decreasing in geometry index and names only visited geometries |
| ArcIndex.ListingMembers | merge.js:36-41 | a listing names a geometry exactly when that geometry has a reference under the key |
| ArcIndex.IndexContents | merge.js:20-42 | in the finished map, the list of key `k` names each geometry once per reference with `Math.abs` equal to `k`, in non-decreasing order |
| Touching.ShareKeyFromCounts | merge.js:36-40 | two geometries that both have a reference under one key share that key |
| Touching.ShareKeyToCounts | merge.js:36-40 | two geometries that share a key both have a positive count under some key |
| Touching.LinkedSym | merge.js:44-49 | linkage is symmetric |
| Touching.LinkedTrans | merge.js:44-49 | linkage is transitive |
| Touching.WalkLeaves | merge.js:44-49 | a chain of key-sharing geometries that starts inside a set and ends outside it has a step that leaves the set, and the two geometries of that step share a key |
| Touching.IsolatedNotLinked | merge.js:44-49 | a geometry that shares a key with no other geometry is linked to no other geometry |
| Touching.AdjacentSquaresNotLinked | merge.js:37-38 | for the rings `[0, 2]` and `[~0, 3]`, which share arc 0 in opposite directions, the keys are {0, 2} and {1, 3} and the two polygons are not linked |
| Touching.AdjacentSquaresLinkedByCoincidence | merge.js:37-38 | for the rings `[0, 1]` and `[2, ~0]`, which also share arc 0 in opposite directions, arc 1 forward and `~0` both have key 1, so the two polygons are linked |
| Touching.DistinctArcsLinked | merge.js:37-38 | a polygon on arc 2 and one on arc 1 reversed (`~1 = -2`) share no arc, yet both references have key 2, so they are linked |
| UnionPass.UnionLinked | merge.js:47 | a union of two linked geometries only merges sets and keeps every geometry linked to its root |
| UnionPass.InitLinked | merge.js:16 | in a fresh forest every geometry is linked to its root |
| UnionPass.UnionEntry | merge.js:46-48 | the inner union loop leaves all geometries of the entry under one root, only merges sets, and keeps roots linked |
| UnionPass.EntryLinked | merge.js:45-48 | all geometries of one index entry are linked to its first geometry |
| UnionPass.UnionAll | merge.js:45-49 | after the union pass over all entries, the geometries listed under any one key share a root, and every geometry is linked to its root |
| UnionPass.IndexListsKeyHolders | merge.js:36-41 | every geometry listed in the finished map has a reference under the entry's key |
| UnionPass.ShareKeySameRoot | merge.js:44-49 | the per-pair step: after the union pass, a given pair of geometries that share a key are both listed in that key's entry, which the pass joined, so the pair has one root |
| UnionPass.KeysJoinedAfterPass | merge.js:44-49 | the per-pair step lifted to all pairs at once: after the union pass the state satisfies `KeysJoined` (every pair of key-sharing geometries has one root), the single precondition `WalkSameRoot` needs |
| UnionPass.WalkSameRoot | merge.js:44-49 | once any two geometries sharing a key have one root, as after the union pass, every geometry on a chain of key-sharing geometries has the chain's first root |
| UnionPass.RootsAreComponents | merge.js:44-49 | after the union pass, two geometries have the same root if and only if they are linked |
| Grouping.MembersIn | merge.js:53-56 | the list of root `r` after visiting `0..m-1` holds exactly the visited indices whose root is `r` |
| Grouping.MembersSorted | merge.js:53-56 | that list is strictly ascending |
| Grouping.FileUnderRoot | merge.js:54-56 | `find(i)` then `push(i)` files `i` under the root the union pass gave it, whatever compression happened since |
| Grouping.GroupByRoot | merge.js:52-57 | after the grouping loop the keys are distinct roots, each root's list is every index of that root in ascending order, no list is empty, and the groups are ordered by first index |
| Grouping.GroupsPartition | merge.js:52-57 | each group is ascending, holds exactly the indices whose root is its key, and starts with the least of them |
| Merge.Select | merge.js:63 | the geometries passed to `merge` are, position by position, the geometries at the group's indices |
| Merge.BuildFeatures | merge.js:60-72 | the output loop yields one feature per group, in the map's order, with empty properties and the merge of the group's geometries |
| Merge.GroupIsComponent | merge.js:51-57 | in the group holding `y`, the members are exactly the geometries linked to `y` |
| Merge.GroupUnique | merge.js:51-57 | no geometry lies in two groups |
| Merge.GroupCovers | merge.js:51-57 | every geometry lies in some group |
| Merge.GroupsProperties | merge.js:51-57 | the groups partition `0..n-1` into the classes of linkage, each ascending |
| Merge.MergeTouchingFeatures | merge.js:4-75 | with no geometries, no features; otherwise one feature per group with empty properties and the merge of the group's geometries; the groups partition the indices, are ascending, are ordered by first member, and two geometries share a group exactly when linked |

Two functions of the code have no row of their own because they carry no
contract; the rows that state their behaviour are named here.
`Arcs.Flat` is `arcs.flat()` at merge.js:25; `Arcs.LeavesFlat` states that it
keeps the leaves and their order. `Arcs.ArcsArray` is the conditional that
picks `arcsArr` at merge.js:25; `Arcs.FlatArcs` states what it yields for each
geometry type.

## Left out

- `topojson.topology` (merge.js:6-9) is not modelled. It builds the arcs from floating-point coordinates. The model starts from the geometry list it produces: a type tag and nested integer arc references per geometry.
- `topojson.merge` (merge.js:65) is not modelled. It dissolves geometries over floating-point coordinates. It is the parameter `merge`, an arbitrary function of a group's geometries in ascending index order; the topology it also receives is fixed and left implicit.
- The string keys `String(Math.abs(arcIdx))` (merge.js:38) are the naturals `Math.abs(arcIdx)`. `String` is one-to-one on non-negative integers, so the map has the same entries.
- The `Array.isArray(arcsArr)` test (merge.js:28) is not modelled. A geometry's `arcs` is always an array here, so the test always passes. A Polygon or MultiPolygon without an `arcs` array, and non-integer leaves, are outside the model.
- The GeoJSON `type` strings are not modelled. They are the constructors `Feature` and `FeatureCollection`. The empty `properties` object is the empty map.
- The ghost rank has no counterpart in the code. It is a proof device for termination and acyclicity. `RootRankFree` shows that roots do not depend on it.
- The JavaScript call stack is not modelled. A long chain of parents could exhaust it in the recursive `find`.
- Array lengths and indices are unbounded integers. JavaScript's limit of 2^32-1 array elements is not modelled.
- Which index ends up as the root of a group is not stated. It depends on the order of the unions. Only the resulting groups and their order are specified.
- The order of the arc index's keys is not stated beyond their being distinct. A new key is appended, which `Push` states, but the union pass's outcome does not depend on the key order.
- UnionFind.Union: when `a` and `b` already share a root, the contract says that parents change only by path compression, not that nothing changes, because `union` calls `find`, which compresses paths.
