/**
 * The index of the draft version: integer corners, a rectangular search
 * area, insertion with a buffer given per call, and no registry.
 */
module DraftIndex {
  import opened Geometry
  import opened Nodes
  import opened Insertion
  import opened Search

  class DraftRTree {
    /** The area the index was created for. */
    const bounds: Rect
    const maxPerLevel: nat
    var root: Node

    /** The shape every operation keeps. */
    predicate Valid()
      reads this
    {
      maxPerLevel >= 2 && root.Internal? && Leveled(root) && Fanout(root, maxPerLevel) && ChildrenCovered(root)
    }

    /** An empty index whose root is an empty level-0 node with the given corners. */
    constructor (x1: int, y1: int, x2: int, y2: int, maxPer: nat := 5)
      requires maxPer >= 2
      ensures Valid()
      ensures bounds == Rect(x1, y1, x2, y2) && maxPerLevel == maxPer
      ensures root == Internal(0, Rect(x1, y1, x2, y2), [])
    {
      bounds := Rect(x1, y1, x2, y2);
      maxPerLevel := maxPer;
      root := Internal(0, Rect(x1, y1, x2, y2), []);
    }

    /** The objects whose live box intersects `area`, in the order the search reports them. */
    method Search(area: Rect, live: map<ObjId, Rect>) returns (res: seq<ObjId>)
      ensures res == Matches(root, Area(area), live)
      ensures Valid() && Searchable(root, live) ==> res == Hitting(InOrder(root), Area(area), live)
    {
      res := FindIntersections(root, Area(area), live, []);
      if Valid() && Searchable(root, live) {
        MatchesExact(root, Area(area), live);
      }
    }

    /**
     * Inserts `obj` with its live box grown by `buffer` on every side,
     * splitting an overflowing root under a new root one level up.
     * `grown` is the root after the insertion below it, before any split.
     */
    method Insert(obj: ObjId, live: map<ObjId, Rect>, buffer: int := 20) returns (ghost grown: Node)
      requires Valid() && obj in live
      modifies this
      ensures Valid()
      ensures root.rect == old(root.rect)
      ensures Objects(root) == old(Objects(root)) + multiset{obj}
      ensures PathBelow(root, Leaf(Pad(live[obj], buffer), obj))
      ensures buffer >= 0 && old(LiveInside(root, live)) ==> LiveInside(root, live)
      ensures root.level == old(root.level) || (root.level == old(root.level) + 1 && |root.children| == 2)
      ensures Inserted(old(root), grown, obj, Pad(live[obj], buffer), maxPerLevel, live)
      ensures |grown.children| <= maxPerLevel ==> root == grown
      ensures |grown.children| > maxPerLevel ==>
        root.level == old(root.level) + 1 && |root.children| == 2 &&
        SplitOf(grown, root.children[0], root.children[1])
    {
      var containerRect := Pad(live[obj], buffer);
      root, grown := InsertRoot(root, obj, containerRect, maxPerLevel, live);
    }
  }
}
