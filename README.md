# R-tree over axis-aligned rectangles, modelled in Dafny

The repository is a dynamic R-tree that indexes moving objects by the
axis-aligned rectangle each one occupies. It appears in two iterations.

**The current version** (`rtree.cpp`, `rtreenode.cpp`) works as follows:

- **Insertion** pads an object's live box by a buffer. It descends into the
  first child whose box contains the padded box, or otherwise into the child
  that needs the least enlargement. It splits an overflowing child with
  Guttman's linear split.
- **Removal** erases the object's leaf container. An underfull level-0 node
  hands its remaining objects back for reinsertion.
- **Bulk loading** uses Sort-Tile-Recursive packing.
- **Search** is a circular range search.
- **Update** rebuilds the tree when some object has left the padded box
  cached for it.

**The draft version** (`rtree/*.cpp`) works over a small integer rectangle
algebra and searches a rectangle instead of a circle.

The model is split into these modules:

| module | file | what it holds |
|---|---|---|
| `Geometry` | `geometry.dfy` | the integer rectangle algebra of `rtree/geometry.cpp`: containment, intersection, union, area, padding, the circle test, and their algebraic laws. Both versions use it. |
| `Nodes` | `nodes.dfy` | the tree as an inductive datatype: `Internal(level, rect, children)` or `Leaf(rect, obj)`, where a leaf container is at level −1. It also holds the child-list edits, the union-of-children box, and the structural invariants (`Leveled`, `Fanout`, `Covered`, `Tight`, `LiveInside`). |
| `Split` | `split.dfy` | seed picking with IEEE-style separation quotients, pick-next, and the linear split loop. |
| `Insertion` | `insert.dfy` | padding, the descent (first containing child, else best fit), the recursive insertion, and root growth. |
| `Removal` | `remove.dfy` | the recursive removal, as a function and as the methods that compute it. |
| `BulkLoad` | `bulkload.dfy` | sorting by box midpoint, slicing, packing, the per-level pass and the loop up to one root. |
| `Search` | `search.dfy` | the recursive range search for a circle or a rectangle query. |
| `Printing` | `print.dfy` | the pre-order text rendering. |
| `Index` | `rtree.dfy` | the index of the current version: a class with `root` and the `objectToBBox` registry, and its operations. |
| `DraftIndex` | `draft.dfy` | the index of the draft version. |

Some parts of the source become parameters:

- Objects are identified by `ObjId`.
- Their live boxes are a `map<ObjId, Rect>` parameter, because objects move
  outside the index.
- All coordinates are integers.

The source's floating computations become integer ones:

- The midpoint comparison in STR compares `x1 + x2` (or `y1 + y2`).
- `ceil(n / M)` becomes an integer ceiling division (`CeilDiv`).
- `ceil(sqrt(g))` becomes the least `s` with `s * s >= g` (`CeilSqrt`).
- The separation quotient of the seed picking is an exact quotient extended
  with the IEEE infinities and NaN for a zero extent.

Every loop in the source becomes a `while` or `for` loop, with two
exceptions: `strSplit`'s copy of one slice into `sliceNodes`
(rtree.cpp:347-350) is the sequence slice `sorted[lo..hi]` (`AddSlice`,
`SliceParents`), and `deleteChildren`'s recursive loop over the children
(rtreenode.cpp:91-93, rtree/rtreenode.cpp:20-22) is not rendered, since the
former descendants are values no longer reachable from the node (see
Nodes.DeleteChildren under "## Left out"). Most loops are proved against a
specification function that gives their exact result:

- the child-box union (`UnionOf`);
- the descent (`IsDescent`);
- the seed scans and pick-next (`IsSeedPair`, `IsPickNext`);
- the split loop (`SplitRest`, which places the pick-next child by the
  strict area comparison);
- the level-0 removal (`RemoveFrom`);
- the reinsertion loop and `bulkInsert`'s container loop (`RegisterAll`,
  `Containers`);
- the indentation loop of `print` (`Spaces`).

The loops of Sort-Tile-Recursive (the slicing, the packing and the level
loop) and `update`'s drift scan are proved against properties instead: an
exact partition of the input into union-boxed parents of bounded size, a
strictly shrinking level count, and "rebuild exactly when some cached box
fails".

The recursive procedures (`insertHelper`, `removeHelper`,
`findIntersections`, `print`) return the updated value of the subtree they
are given. Nodes are values: a parent owns its children.

Where the two versions run the same algorithm, one member models both:

| member | current version | draft version |
|---|---|---|
| `Nodes.DeleteChild` | `rtreenode.cpp` lines 75-83 | `rtree/node.cpp` lines 27-34 and `rtree/rtreenode.cpp` lines 26-33 |
| `Nodes.AddChild` | `rtreenode.cpp` lines 102-104 | `rtree/node.cpp` line 36 and `rtree/rtreenode.cpp` lines 35-37 |
| `Nodes.DeleteChildren` | `rtreenode.cpp` lines 90-95 | `rtree/rtreenode.cpp` lines 19-24 |
| `Split.PickSeeds` | `rtree.cpp` lines 49-108 | `rtree/rtree.cpp` lines 31-90 |
| `Split.PickNext` | `rtree.cpp` lines 120-145 | `rtree/rtree.cpp` lines 92-114 |
| `Split.LinearSplit` | `rtree.cpp` lines 153-188 | `rtree/rtree.cpp` lines 116-146 |
| `Insertion.FindBestBB` | `rtree.cpp` lines 198-217 | `get_enlarged_bb`, `rtree/rtree.cpp` lines 148-166 |
| `Insertion.ChooseSubtree` | `rtree.cpp` lines 234-249 | `rtree/rtree.cpp` lines 177-191 |
| `Insertion.Reattach` | `rtree.cpp` lines 250-256 | `rtree/rtree.cpp` lines 192-197 |
| `Insertion.AppendLeafFacts` | `rtree.cpp` lines 257-262 | `rtree/rtree.cpp` lines 198-203 |
| `Insertion.InsertHelper` | `rtree.cpp` lines 225-264 | `rtree/rtree.cpp` lines 168-205 |
| `Insertion.InsertRoot` | `rtree.cpp` lines 460-471 | `rtree/rtree.cpp` lines 219-228 |
| `Search.FindIntersections` | `rtree.cpp` lines 25-40 (a circle query) | `rtree/rtree.cpp` lines 14-29 (a rectangle query) |
| `Printing.Print` | `rtreenode.cpp` lines 112-127 | `rtree/node.cpp` lines 38-54 and `rtree/rtreenode.cpp` lines 39-54 |

The draft passes its insertion buffer as a plain `int`, so
`DraftIndex.DraftRTree.Insert` takes a signed buffer, 20 by default, and
the draft constructor's limit is 5 by default, as in rtree/rtree.h.

## Model

| member | source | states |
|---|---|---|
| Geometry.EnlargeToContain | rtree/geometry.cpp:18-21 | the union contains both rectangles, and is well formed when the first one is |
| Geometry.EnlargeIsLeast | rtree/geometry.cpp:18-21 | every rectangle containing both arguments contains their union |
| Geometry.EnlargeCommutative | rtree/geometry.cpp:18-21 | the union does not depend on argument order |
| Geometry.EnlargeAssociative | rtree/geometry.cpp:18-21 | the union is associative |
| Geometry.EnlargeIdempotent | rtree/geometry.cpp:18-21 | the union of a rectangle with itself is that rectangle |
| Geometry.EnlargeAbsorbs | rtree/geometry.cpp:18-21 | `a` contains `b` exactly when the union of `a` and `b` is `a` |
| Geometry.ContainsReflexive | rtree/geometry.cpp:10-12 | every rectangle contains itself |
| Geometry.ContainsTransitive | rtree/geometry.cpp:10-12 | containment is transitive |
| Geometry.ContainsAntisymmetric | rtree/geometry.cpp:10-12 | two rectangles that contain each other are equal |
| Geometry.IntersectsSymmetric | rtree/geometry.cpp:14-16 | intersection is symmetric |
| Geometry.TouchingCornersIntersect | rtree/geometry.cpp:14-16 | well-formed rectangles that share only a corner intersect (the intervals are closed) |
| Geometry.TouchingEdgesIntersect | rtree/geometry.cpp:14-16 | well-formed rectangles that share only part of an edge intersect |
| Geometry.ContainsImpliesIntersects | rtree/geometry.cpp:10-16 | a rectangle contains a well-formed one only if it intersects it |
| Geometry.ContainsWithoutIntersect | rtree/geometry.cpp:10-16 | without well-formedness, containment does not imply intersection (a concrete pair) |
| Geometry.IntersectsMonotone | rtree/geometry.cpp:10-16 | a query that meets a box meets every box containing it |
| Geometry.Area | rtree/geometry.cpp:23 | the area is never negative |
| Geometry.AreaMonotone | rtree/geometry.cpp:10-23 | a rectangle has at least the area of any well-formed rectangle inside it |
| Geometry.EnlargeAreaGrows | rtree/geometry.cpp:18-23 | enlarging a well-formed rectangle never decreases its area |
| Geometry.FromOriginSize | rtreenode.cpp:21-24 | the origin-and-size rectangle has the given lower-left corner, width and height |
| Geometry.FromOriginSizeArea | rtreenode.cpp:21-24 | with a non-negative size it is well formed and its area is width times height |
| Geometry.Pad | rtree/rtree.cpp:170-172 | the box grown by `b` on all four sides contains the original when `b >= 0`, and for a well-formed box only then |
| Geometry.IntersectsCircleMonotone | rtree.cpp:25-40 | a circle that meets a well-formed box meets every box containing it |
| Nodes.UnionOf | rtreenode.cpp:43-52 | the union of the children's boxes contains each child's box |
| Nodes.UnionOfIsLeast | rtreenode.cpp:43-52 | every box containing all children's boxes contains their union |
| Nodes.UnionOfWellFormed | rtreenode.cpp:43-52 | the union of well-formed boxes is well formed |
| Nodes.UnionOfPermutation | rtreenode.cpp:43-52 | the union does not depend on the order of the children |
| Nodes.UnionOfAppend | rtreenode.cpp:48-50 | one more child grows the union by exactly its box |
| Nodes.BoundingBoxOf | rtreenode.cpp:46-51 | the accumulating loop computes the union of all children's boxes |
| Nodes.FromChildren | rtreenode.cpp:43-52 | the node has the given level and children, and its box is their union when there is at least one (the empty box otherwise) |
| Nodes.NodeFromOriginSize | rtreenode.cpp:21-24 | the node stores the level, the children and the origin-and-size box |
| Nodes.TightIsCovered | rtreenode.cpp:43-52 | a tree whose boxes are unions of their children's boxes contains every child box |
| Nodes.PathToContains | rtree.cpp:234-249 | a descent path of containing boxes ends in a box the top box contains |
| Nodes.ObjectsOfPermutation | rtreenode.cpp:75-104 | reordering a child list keeps the objects below it |
| Nodes.DeleteChild | rtreenode.cpp:75-83 | only the first child equal to `c` is removed, the rest keep their order, and an absent `c` leaves the node unchanged |
| Nodes.DeleteChildMultiset | rtreenode.cpp:75-83 | deleting a present child removes exactly one copy of it from the multiset of children |
| Nodes.AddChild | rtreenode.cpp:102-104 | `c` is appended at the end, the old children stay in front, and the length grows by one |
| Nodes.AddThenDelete | rtreenode.cpp:75-104 | deleting a freshly added child restores the original child list |
| Nodes.DeleteChildren | rtreenode.cpp:90-95 | the node keeps its level and box, has no children left, and then holds no object below it |
| Split.Quotient | rtree.cpp:91-96 | the separation quotient is exact for a non-zero extent, and the IEEE infinity or NaN (by the sign of the numerator) for a zero extent |
| Split.GreaterCrossMultiply | rtree.cpp:91-99 | for positive extents, the comparison of two separations is a cross-multiplication |
| Split.GreaterIrreflexive | rtree.cpp:99 | no separation exceeds itself, and a NaN separation never wins or loses the comparison |
| Split.MaxLowSide | rtree.cpp:55-62 | the scan returns the first child with the largest low side on the axis |
| Split.MaxLowUnique | rtree.cpp:55-62 | that child is unique |
| Split.MinHighSide | rtree.cpp:64-71 | the scan returns the first child with the least high side on the axis, among all children except the max-low one |
| Split.MinHighUnique | rtree.cpp:64-71 | that child is unique |
| Split.PickSeeds | rtree.cpp:49-108 | two distinct children; the Y pair only when the Y separation is strictly greater, otherwise the X pair |
| Split.SeedPairUnique | rtree.cpp:49-108 | the seed pair is determined by the node |
| Split.PickNext | rtree.cpp:120-145 | the first unassigned child with the largest area difference between the two enlarged half boxes |
| Split.PickNextUnique | rtree.cpp:120-145 | that child is unique |
| Split.PartialStart | rtree.cpp:161-169 | after the seeds are placed, the two halves each hold their seed, boxed by its box, and the assigned set is the two seed positions |
| Split.JoinFirst | rtree.cpp:179-181 | assigning a child to the first half keeps the split partial and the half's box the union of its members |
| Split.JoinSecond | rtree.cpp:182-185 | when the first half's enlarged area is not strictly smaller (ties included), assigning the child to the second half keeps the split partial and that half's box the union of its members |
| Split.PartialDone | rtree.cpp:170 | once every position is assigned, the halves together are a permutation of the children |
| Split.ChosenAll | rtree.cpp:170 | the children at all assigned positions are all the children |
| Split.UnassignedExists | rtree.cpp:170-172 | while fewer positions are assigned than there are children, some child is unassigned |
| Split.LinearSplit | rtree.cpp:153-188 | two halves at the node's level, each non-empty, each boxed by the union of its members, that together are a permutation of the children; the seed pair starts them, and the halves are exactly those of `SplitRest`: the pick-next child joins the first half when its enlarged area is strictly smaller, the second otherwise |
| Split.SplitHalvesSmaller | rtree.cpp:153-188 | each half holds fewer children than the node split |
| Insertion.ContainerRect | rtree.cpp:226-229 | the origin-and-size box built from the live box's lower-left corner minus `b` and its size plus `2b` (in `insertHelper`, and again in `bulkInsert` at rtree.cpp:507-510) is the live box grown by `b` on all four sides (`Pad`) |
| Insertion.IncreaseNonNegative | rtree.cpp:198-217 | enlarging a well-formed child box never costs a negative area |
| Insertion.IncreaseZeroWhenContained | rtree.cpp:198-217 | a child box that already contains the padded box costs nothing |
| Insertion.FindBestBB | rtree.cpp:198-217 | the first child with the strictly least area increase |
| Insertion.BestFitUnique | rtree.cpp:198-217 | the best-fit child is unique |
| Insertion.ChooseSubtree | rtree.cpp:234-249 | the first child whose box contains the padded box, or the best fit when there is none |
| Insertion.FirstContainingUnique | rtree.cpp:234-242 | the first containing child is unique |
| Insertion.DescentPrefersContaining | rtree.cpp:234-249 | when some child contains the padded box, the descent enters a containing child no later than it |
| Insertion.EnteredFacts | rtree.cpp:245-248 | the entered child, enlarged when needed, contains the padded box and its old box, and keeps its objects, level and shape |
| Insertion.AppendLeafFacts | rtree.cpp:257-262 | at level 0 the appended leaf container holding `obj` and the padded box adds exactly `obj`, and keeps the shape |
| Insertion.ReplaceBranch | rtree.cpp:234-249 | a child that does not overflow takes its place again, and the node satisfies the insertion guarantee |
| Insertion.SplitBranch | rtree.cpp:250-256 | an overflowing child is replaced by its two halves at the end of the list, and the node satisfies the insertion guarantee |
| Insertion.HalvesObjects | rtree.cpp:250-256 | the two halves together hold exactly the objects of the split child |
| Insertion.HalvesPath | rtree.cpp:250-256 | a descent path through the split child continues through one of its halves |
| Insertion.Reattach | rtree.cpp:250-256 | exactly when the updated child has more than `M` children, it is replaced by its two linear-split halves at the end of the list, the others keeping their order; otherwise it takes its old position again |
| Insertion.InsertHelper | rtree.cpp:225-264 | the node keeps its level and box; gains exactly `obj`; gains at most one child; stays leveled with children within the limit; gains a containing path to the new container; keeps covering and live boxes; appends at level 0; otherwise descends as `ChooseSubtree` says, and splits the entered child into its linear-split halves exactly when it overflowed |
| Insertion.GrownRootFacts | rtree.cpp:462-469 | the new root one level up has the old root's box and exactly the two halves, and holds the same objects |
| Insertion.GrownRootCoverFacts | rtree.cpp:462-469 | the grown root keeps the covering invariant and the containing path to the new container |
| Insertion.InsertRoot | rtree.cpp:460-471 | the root keeps its box and gains exactly `obj`; exactly when the grown root has more than `M` children, the new root is one level up with exactly its two linear-split halves; otherwise it is the grown root |
| Removal.FirstHolding | rtree.cpp:282-287 | the position of the first leaf container of `obj`, or the length when there is none |
| Removal.FindHolding | rtree.cpp:282-287 | the scan finds that position |
| Removal.FirstHoldingIsFirst | rtree.cpp:282-287 | a holding position with no holding position before it is that position |
| Removal.HandBack | rtree.cpp:290-292 | the handed-back list is the objects of the remaining containers, in order |
| Removal.RemoveAtLevelZero | rtree.cpp:281-295 | the level-0 branch computes the removal function |
| Removal.RemoveHelper | rtree.cpp:277-324 | the recursive procedure computes the removal function at every level |
| Removal.EraseFirstFacts | rtree.cpp:282-287 | erasing removes exactly the first container of `obj` and keeps the rest in order; without a container nothing changes |
| Removal.LevelZeroExact | rtree.cpp:281-295 | at level 0 the kept and the handed-back objects are exactly the old ones less one copy of `obj` |
| Removal.LevelZeroObjects | rtree.cpp:281-295 | at level 0 the kept and handed-back objects are among the old ones, with one copy fewer of a held `obj` |
| Removal.LevelZeroKept | rtree.cpp:289-294 | what a level-0 node keeps or hands back comes from the children left after the erasure |
| Removal.SweepErasedIff | rtree.cpp:300-312 | a child was erased exactly when a non-empty list was handed back, and no more children are kept than there were |
| Removal.SweepLastEntries | rtree.cpp:300-308 | a non-empty handed-back list is that of some child after which no child handed any list back: the last list wins |
| Removal.SweepObjects | rtree.cpp:300-312 | the kept children and the last list hold no more than the old children, and strictly fewer copies of a held `obj` |
| Removal.RemoveObjects | rtree.cpp:277-324 | the removal never adds objects, and strictly loses a held `obj` |
| Removal.RemoveKeepsBox | rtree.cpp:314-320 | a node that hands nothing back keeps its box |
| Removal.RemoveLeveled | rtree.cpp:277-324 | levels stay consistent when no node above level 0 is emptied |
| Removal.RemoveFanout | rtree.cpp:277-324 | a tree within the child limit stays within it |
| Removal.RemoveCovered | rtree.cpp:314-320 | covering is kept, and the new box lies inside the old one |
| Removal.RemoveChildrenCovered | rtree.cpp:277-324 | the subtrees below the root stay covered |
| Removal.RemoveLiveInside | rtree.cpp:277-324 | every container still in the tree still contains its object's live box |
| Removal.RemoveAbsentUnchanged | rtree.cpp:277-324 | removing an absent object from a tree with no underfull level-0 node changes nothing and hands nothing back |
| Removal.RemoveCanLoseObjects | rtree.cpp:300-312 | in a well-formed two-level tree, the removal drops an object that was neither the removed one nor reinserted |
| BulkLoad.CeilDiv | rtree.cpp:341 | the least quotient whose product with the divisor reaches the dividend |
| BulkLoad.CeilSqrt | rtree.cpp:342 | the least `s` whose square reaches `n` |
| BulkLoad.SlicesCover | rtree.cpp:341-343 | the slices together have room for all nodes |
| BulkLoad.InsertByMid | rtree.cpp:335-339 | inserting into the sorted list adds exactly that node |
| BulkLoad.InsertByMidSorted | rtree.cpp:335-339 | inserting into a list sorted by midpoint keeps it sorted |
| BulkLoad.SortByMid | rtree.cpp:335-357 | the result is sorted by midpoint (on X for the whole pass, on Y within a slice) and is a permutation of the input |
| BulkLoad.SliceStartIs | rtree.cpp:348-349 | slice `i` starts at `min(i * nodesPerSlice, n)` |
| BulkLoad.SliceParents | rtree.cpp:346-370 | the parents made for one slice hold exactly its nodes, and the first holds `min(M, size)` |
| BulkLoad.Chunk | rtree.cpp:359-370 | consecutive runs of the slice, in order, each boxed by its union; every run but the last holds exactly `M` nodes and the last between 1 and `M` |
| BulkLoad.AddSlice | rtree.cpp:345-371 | one more slice extends the parents to cover the next prefix of the sorted nodes |
| BulkLoad.Slices | rtree.cpp:345-371 | the parents of all slices hold exactly the sorted nodes |
| BulkLoad.StrSplit | rtree.cpp:332-374 | every input node lies in exactly one parent; each parent holds 1 to `M` nodes with its box their union; a pass over two or more nodes with `M >= 2` yields strictly fewer nodes |
| BulkLoad.ParentsFewer | rtree.cpp:359-370 | there are never more parents than nodes, and strictly fewer when the first parent holds two or more |
| BulkLoad.ObjectsOfChildren | rtree.cpp:332-374 | the parents hold exactly the objects of the nodes they group |
| BulkLoad.ParentsGood | rtree.cpp:332-374 | the parents of a well-formed level form a well-formed level one up |
| BulkLoad.BuildLevel | rtree.cpp:390-395 | one pass keeps the objects and builds a well-formed, non-empty level, with strictly fewer nodes when there were two or more |
| BulkLoad.SortTileRecursive | rtree.cpp:388-402 | a single root with the given box, consistent levels, at most `M` children per node, exactly the input's objects, and tight boxes below the root |
| BulkLoad.TopRoot | rtree.cpp:398-401 | the last remaining parent becomes the root, under the given box |
| Search.HitsMonotone | rtree.cpp:25-40 | a subtree whose box contains a box the query hits is entered |
| Search.FindIntersections | rtree.cpp:25-40 | the reported list gains the search result of the subtree |
| Search.ReportLeaves | rtree.cpp:27-32 | at level 0 the objects whose live box meets the query are reported in child order |
| Search.SearchFrom | rtree.cpp:447-451 | searching from the root reports the search result of the root |
| Search.MatchesExact | rtree.cpp:25-40 | on a covered tree with live boxes inside their containers, the search reports exactly the tree's objects, in traversal order, whose live box meets the query |
| Search.LeafMatchesExact | rtree.cpp:27-32 | at level 0 the report is the hitting objects in child order |
| Search.SubtreeMatchesExact | rtree.cpp:33-38 | pruning the children the query misses loses no hit |
| Search.PrunedHoldsNone | rtree.cpp:34-36 | a subtree whose box the query misses holds no hit |
| Search.MatchesSound | rtree.cpp:25-40 | every reported object is in the tree, at most as often as held, and its live box meets the query |
| Search.LeafMatchesSound | rtree.cpp:27-32 | the same for a level-0 node |
| Search.SubtreeMatchesSound | rtree.cpp:33-38 | the same for a node above level 0 |
| Search.MatchesComplete | rtree.cpp:25-40 | every object of a searchable tree whose live box meets the query is reported |
| Search.HittingSound | rtree.cpp:29 | the filter keeps only objects whose live box meets the query |
| Search.HittingMember | rtree.cpp:29 | the filter keeps every object whose live box meets the query |
| Search.InOrderObjects | rtree.cpp:25-40 | the traversal lists each object of the tree as often as it is held |
| Printing.NatToString | rtree/node.cpp:44-47 | decimal digits with no leading zero |
| Printing.NatToStringRoundTrip | rtree/node.cpp:44-47 | reading the digits back gives the number |
| Printing.Spaces | rtree/node.cpp:40-43 | exactly `k` spaces |
| Printing.Indentation | rtree/node.cpp:40-43 | the loop builds `height - level` spaces, and none when that is negative |
| Printing.NodeInfo | rtree/node.cpp:44-47 | the node's line: the indentation, then `[(x1, y1), (x2, y2)]` and a line break |
| Printing.Print | rtree/node.cpp:38-54 | the node's line followed by the rendering of each child in order |
| Printing.PrintChildren | rtree/node.cpp:49-51 | the renderings of the children, one after the other |
| Printing.RenderIsLines | rtree/node.cpp:38-54 | the rendering is one line per node in pre-order |
| Printing.RenderAllIsLines | rtree/node.cpp:49-51 | the children's renderings are their nodes' lines in pre-order |
| Printing.LineShape | rtree/node.cpp:40-47 | a line starts with exactly `height - level` spaces, followed by `[` |
| Printing.LineBreaks | rtree/node.cpp:44-47 | a line holds exactly one line break |
| Printing.LinesBreaks | rtree/node.cpp:38-54 | the lines of `k` nodes hold exactly `k` line breaks |
| Printing.OneLinePerNode | rtree/node.cpp:38-54 | the rendering of a subtree holds exactly one line break per node |
| Printing.PreOrderSize | rtree/node.cpp:38-54 | the pre-order visits every node of the subtree once |
| Index.Register | rtree.cpp:263 | the key is added, present keys keep their box, and a new key gets the given box |
| Index.RegisterAll | rtree.cpp:481-483 | registering a list adds exactly its objects as keys and never overwrites a box |
| Index.FreshRegistry | rtree.cpp:499-520 | registering every object into an empty registry caches exactly each object's padded box |
| Index.FreshValues | rtree.cpp:503-515 | each key of the fresh registry maps to its object's padded live box |
| Index.ContainersFacts | rtree.cpp:503-515 | one leaf container per object, holding exactly the objects, each inside its padded box |
| Index.ClearBox | rtree.cpp:432-437 | the box `clear` builds equals the original exactly when the original's lower-left corner is the origin |
| Index.RTree.constructor | rtree.cpp:418-427 | an empty level-0 root with the origin-and-size box, an empty registry, and the given limits and buffer (5, 2 and 20 by default, as in rtree.h) |
| Index.RTree.Clear | rtree.cpp:432-437 | an empty level-0 root built from the corners passed as origin and size; the registry is left unchanged |
| Index.RTree.Search | rtree.cpp:447-451 | the circle search result, which is exactly the tree's objects, in order, whose live box meets the circle |
| Index.RTree.Insert | rtree.cpp:460-471 | the tree gains exactly `obj` below the root's unchanged box; the root grows by one level, to exactly the two linear-split halves, exactly when it overflowed, and is otherwise the grown root; the registry gains `obj` unless it is already a key |
| Index.RTree.Remove | rtree.cpp:478-492 | the tree holds what the removal kept plus the reinserted objects, never more than before and strictly fewer copies of a held `obj`; after the reinsertion a root with one child above level 0 is replaced by that child under the root's box; `obj` leaves the registry |
| Index.RTree.Reinsert | rtree.cpp:481-483 | each handed-back object is inserted in turn |
| Index.RTree.CollapseRoot | rtree.cpp:485-489 | a root with one child above level 0 is replaced by that child under the old root's box; otherwise nothing changes |
| Index.RTree.BulkInsert | rtree.cpp:499-520 | the tree holds exactly the given objects with tight boxes, the root's box is kept, and the registry holds exactly their padded boxes |
| Index.RTree.Reconstruct | rtree.cpp:525-532 | the tree is rebuilt from the registry's keys, which the registry keeps, each with a fresh padded box |
| Index.RTree.Update | rtree.cpp:540-550 | the tree is rebuilt once exactly when some cached box no longer contains its object's live box, and otherwise nothing changes |
| Index.KeysInSomeOrder | rtree.cpp:528-530 | each registry key appears exactly once |
| Index.RemovedStillValid | rtree.cpp:277-324 | what the removal leaves is still a well-formed index, and holds no more objects than before |
| Index.CollapseFacts | rtree.cpp:485-489 | the collapsed root is well formed and holds the same objects |
| DraftIndex.DraftRTree.constructor | rtree/rtree.cpp:208-211 | an empty level-0 root with box `(x1, y1, x2, y2)` and the given limit (5 by default) |
| DraftIndex.DraftRTree.Search | rtree/rtree.cpp:213-217 | the rectangle search result, which is exactly the tree's objects, in order, whose live box meets the area |
| DraftIndex.DraftRTree.Insert | rtree/rtree.cpp:219-228 | with the live box padded by the buffer (20 by default), the tree gains exactly `obj` below the root's unchanged box; the root grows by one level, to exactly the two linear-split halves, exactly when it overflowed, and is otherwise the grown root |

## Left out

- **Rendering, motion and the driver.** Every `draw` method; the moving-object
  constructors and `update`; the draft's `main`. These are graphics calls, a
  random number source and console output. The live boxes they produce are
  the `live` parameter.
- **Floating point.**
  - Coordinates, the buffer and the circle radius are integers.
  - The cugl rectangle operations are modelled by their integer meaning.
  - The circle test uses the squared distance from the centre to the nearest
    point of the box.
  - Rounding in the separation quotients is not modelled, only their exact
    values, infinities and NaN.
  - `ceil` and `sqrt` in `strSplit` are exact integer functions.
- **Silent truncations.** The source truncates in three places, and the model
  does not:
  - `int max_diff` in pick-next;
  - `INT32_MAX` as the starting minimum in the best-fit search;
  - the float buffer stored in an `unsigned`.
- **Float formatting.** `Printing.NodeInfo` for the current version writes
  coordinates as integers followed by `.000000`. That is exact only for
  integral coordinates.
- **Memory and identity.**
  - `shared_ptr` and raw-pointer aliasing, `new` and `delete`, and the
    recursive destructor are not modelled.
  - Nodes are values. `DeleteChild` removes the first child equal to `c` by
    value, where the source compares addresses.
  - The insertion descent removes the entered child by its position, which is
    what the address comparison amounts to there.
- Nodes.DeleteChildren: the model empties the node's own list only. The
  former descendants are no longer reachable from the node, so emptying
  their lists has no observable effect in the model.
- **The rect-only and rect-and-level constructors.** `RTreeNode(Rect)`,
  `Node(Rect*)` and `RTreeNode(Rect, level)` store their arguments. So do
  the constructors taking a rect, children and level in all three node
  files. These are the `Internal` and `Leaf` datatype constructors
  themselves.
- **Sorting.** `std::sort` is not stable. `SortByMid` is an insertion sort
  that yields one sorted permutation; the proofs about the bulk load use
  only "sorted and a permutation".
- **Registry order.** `Reconstruct` and `Update` visit the registry in hash
  order. The model takes the keys in an arbitrary order (`KeysInSomeOrder`)
  and tests them in an arbitrary order. The exact shape of the rebuilt tree
  does depend on that order when box midpoints tie (`SortByMid` reverses
  input order on ties, because `InsertByMid` puts a node in front of the
  first node whose midpoint is at least its own, and `std::sort` promises no
  order at all); the contracts
  state only what holds in every order: the objects, the registry, the
  levels, the fanout and the tight boxes.
- Index.RTree.Search and DraftIndex.DraftRTree.Search: they skip level-0
  objects that have no entry in `live`. The exactness clause holds only for a
  tree whose objects all have live boxes inside their containers
  (`Searchable`).
- Removal.RemoveFrom: when a node above level 0 erases every child, the
  source reads a child that does not exist to recompute the box. The model
  keeps the old box there.
- Index.RTree.Remove requires that no node above level 0 is left without
  children (`KeepsChildren`), because the source then reads
  `children[0]` of an empty list. It does not promise to keep every object,
  since the source can lose some (`Removal.RemoveCanLoseObjects`). It
  promises only that no object is added and one copy of `obj` goes.
- Index.RTree.constructor and DraftIndex.DraftRTree.constructor require a
  limit `M` of at least 2. With `M = 1` the source misbehaves: a grown
  root holds two children, more than the limit allows, and
  `sortTileRecursive` never ends on two or more nodes, because every parent
  `strSplit` makes then holds a single node and a pass never shrinks the
  level (rtree.cpp:359-370, 393-396).
- Index.RTree.BulkInsert and Index.RTree.Reconstruct require a non-empty
  input, because `sortTileRecursive` reads `parents[0]`.
- Index.RTree.Insert and Index.RTree.Remove take the live boxes of the
  objects involved from `live`. They require those boxes to be there.
