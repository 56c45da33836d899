/**
 * The index of the current version: a root node, the configuration it was
 * built with, and a registry caching, for each inserted object, the padded
 * box it was given when it was inserted. Objects' live boxes are passed in
 * as a map from object to box, since objects move independently of
 * the index.
 */
module Index {
  import opened Geometry
  import opened Nodes
  import opened Insertion
  import opened Removal
  import opened BulkLoad
  import opened Search

  // ---------------------------------------------------------------------
  // The registry

  /** Caches `box` for `o`; an object that already has a cached box keeps it. */
  function Register(reg: map<ObjId, Rect>, o: ObjId, box: Rect): (r: map<ObjId, Rect>)
    ensures r.Keys == reg.Keys + {o}
    ensures forall k | k in reg :: r[k] == reg[k]
    ensures o !in reg ==> r[o] == box
  {
    if o in reg then reg else reg[o := box]
  }

  /** Registers each object of `objs` in turn with its padded live box. */
  function RegisterAll(reg: map<ObjId, Rect>, objs: seq<ObjId>, live: map<ObjId, Rect>, b: nat): (r: map<ObjId, Rect>)
    requires forall o | o in objs :: o in live
    ensures r.Keys == reg.Keys + set o | o in objs
    ensures forall k | k in reg :: r[k] == reg[k]
  {
    if objs == [] then reg
    else
      var o := objs[|objs| - 1];
      var front := objs[..|objs| - 1];
      assert forall x | x in front :: x in objs;
      assert objs == front + [o];
      Register(RegisterAll(reg, front, live, b), o, ContainerRect(live[o], b))
  }

  /** Registering into an empty registry caches exactly the padded live box of every object. */
  lemma FreshRegistry(objs: seq<ObjId>, live: map<ObjId, Rect>, b: nat)
    requires forall o | o in objs :: o in live
    ensures RegisterAll(map[], objs, live, b) == map o | o in objs :: ContainerRect(live[o], b)
  {
    var r := RegisterAll(map[], objs, live, b);
    FreshValues(objs, live, b);
    SameMap(r, objs, live, b);
  }

  lemma {:induction false} FreshValues(objs: seq<ObjId>, live: map<ObjId, Rect>, b: nat)
    requires forall o | o in objs :: o in live
    ensures forall k | k in RegisterAll(map[], objs, live, b) :: k in live && RegisterAll(map[], objs, live, b)[k] == ContainerRect(live[k], b)
  {
    if objs != [] {
      var o := objs[|objs| - 1];
      var front := objs[..|objs| - 1];
      assert forall x | x in front :: x in objs;
      FreshValues(front, live, b);
    }
  }

  lemma SameMap(r: map<ObjId, Rect>, objs: seq<ObjId>, live: map<ObjId, Rect>, b: nat)
    requires forall o | o in objs :: o in live
    requires r.Keys == set o | o in objs
    requires forall k | k in r :: r[k] == ContainerRect(live[k], b)
    ensures r == map o | o in objs :: ContainerRect(live[o], b)
  {
  }

  /** Appending one object to the registered prefix registers it on top. */
  lemma RegisterAllStep(reg: map<ObjId, Rect>, objs: seq<ObjId>, i: nat, live: map<ObjId, Rect>, b: nat)
    requires i < |objs| && forall o | o in objs :: o in live
    ensures RegisterAll(reg, objs[..i + 1], live, b) ==
      Register(RegisterAll(reg, objs[..i], live, b), objs[i], ContainerRect(live[objs[i]], b))
  {
    assert objs[..i + 1][..i] == objs[..i];
    assert objs[..i + 1][i] == objs[i];
  }

  lemma MultisetPrefixStep(s: seq<ObjId>, i: nat)
    requires i < |s|
    ensures multiset(s[..i + 1]) == multiset(s[..i]) + multiset{s[i]}
  {
    assert s[..i + 1] == s[..i] + [s[i]];
  }

  /** The leaf containers built for `objs`, each holding its object's padded live box. */
  function Containers(objs: seq<ObjId>, live: map<ObjId, Rect>, b: nat): seq<Node>
    requires forall o | o in objs :: o in live
  {
    if objs == [] then []
    else
      var o := objs[|objs| - 1];
      var front := objs[..|objs| - 1];
      assert forall x | x in front :: x in objs;
      Containers(front, live, b) + [Leaf(ContainerRect(live[o], b), o)]
  }

  /** The containers hold exactly the given objects, each inside its container box. */
  lemma {:induction false} ContainersFacts(objs: seq<ObjId>, live: map<ObjId, Rect>, b: nat)
    requires forall o | o in objs :: o in live
    ensures var cs := Containers(objs, live, b);
      |cs| == |objs| && ObjectsOf(cs) == multiset(objs) &&
      forall c | c in cs :: c.Leaf? && LiveInside(c, live)
  {
    if objs != [] {
      var o := objs[|objs| - 1];
      var front := objs[..|objs| - 1];
      assert forall x | x in front :: x in objs;
      assert objs == front + [o];
      ContainersFacts(front, live, b);
      ObjectsOfConcat(Containers(front, live, b), [Leaf(ContainerRect(live[o], b), o)]);
      ObjectsOfSingleton(Leaf(ContainerRect(live[o], b), o));
    }
  }

  lemma ContainersStep(objs: seq<ObjId>, i: nat, live: map<ObjId, Rect>, b: nat)
    requires i < |objs| && forall o | o in objs :: o in live
    ensures Containers(objs[..i + 1], live, b) ==
      Containers(objs[..i], live, b) + [Leaf(ContainerRect(live[objs[i]], b), objs[i])]
  {
    assert objs[..i + 1][..i] == objs[..i];
  }

  /** Some object's live box has left the box cached for it. */
  predicate Drifted(reg: map<ObjId, Rect>, live: map<ObjId, Rect>) {
    exists o | o in reg :: o in live && !Contains(reg[o], live[o])
  }

  /**
   * The box given to the root by `clear`: the stored corners are passed
   * where an origin and a size are expected, so the box is the original
   * one exactly when its lower-left corner is the origin.
   */
  lemma ClearBox(b: Rect)
    ensures FromOriginSize(b.x1, b.y1, b.x2, b.y2) == b <==> b.x1 == 0 && b.y1 == 0
  {
  }

  // ---------------------------------------------------------------------
  // The index

  class RTree {
    /** The area the index was created for. */
    const bounds: Rect
    const maxPerLevel: nat
    const minPerLevel: nat
    const bufferSize: nat
    var root: Node
    /** The padded box cached for each object when it was inserted. */
    var objectToBBox: map<ObjId, Rect>

    /** The shape every operation keeps. */
    predicate Valid()
      reads this
    {
      maxPerLevel >= 2 && root.Internal? && Leveled(root) && Fanout(root, maxPerLevel) && ChildrenCovered(root)
    }

    /** An empty index whose root is an empty level-0 node with the area as box. */
    constructor (x: int, y: int, width: int, height: int, maxChildren: nat := 5, minChildren: nat := 2, buffer: nat := 20)
      requires maxChildren >= 2
      ensures Valid()
      ensures bounds == FromOriginSize(x, y, width, height)
      ensures root == Internal(0, bounds, []) && objectToBBox == map[]
      ensures maxPerLevel == maxChildren && minPerLevel == minChildren && bufferSize == buffer
    {
      bounds := FromOriginSize(x, y, width, height);
      maxPerLevel := maxChildren;
      minPerLevel := minChildren;
      bufferSize := buffer;
      root := NodeFromOriginSize(x, y, width, height, [], 0);
      objectToBBox := map[];
    }

    /** Replaces the root by an empty level-0 node; the registry is left as it is. */
    method Clear()
      requires Valid()
      modifies this
      ensures Valid()
      ensures root == Internal(0, FromOriginSize(bounds.x1, bounds.y1, bounds.x2, bounds.y2), [])
      ensures Objects(root) == multiset{}
      ensures objectToBBox == old(objectToBBox)
    {
      root := NodeFromOriginSize(bounds.x1, bounds.y1, bounds.x2, bounds.y2, [], 0);
    }

    /** The objects whose live box meets the circle, in the order the search reports them. */
    method Search(cx: int, cy: int, radius: nat, live: map<ObjId, Rect>) returns (res: seq<ObjId>)
      ensures res == Matches(root, Circle(cx, cy, radius), live)
      ensures Valid() && Searchable(root, live) ==> res == Hitting(InOrder(root), Circle(cx, cy, radius), live)
    {
      res := FindIntersections(root, Circle(cx, cy, radius), live, []);
      if Valid() && Searchable(root, live) {
        MatchesExact(root, Circle(cx, cy, radius), live);
      }
    }

    /**
     * Inserts `obj` with its live box padded by the buffer, splitting an
     * overflowing root under a new root one level up, and caches the
     * padded box unless `obj` already has one. `grown` is the root after
     * the insertion below it, before any split.
     */
    method Insert(obj: ObjId, live: map<ObjId, Rect>) returns (ghost grown: Node)
      requires Valid() && obj in live
      modifies this
      ensures Valid()
      ensures root.rect == old(root.rect)
      ensures Objects(root) == old(Objects(root)) + multiset{obj}
      ensures PathBelow(root, Leaf(ContainerRect(live[obj], bufferSize), obj))
      ensures old(LiveInside(root, live)) ==> LiveInside(root, live)
      ensures root.level == old(root.level) || (root.level == old(root.level) + 1 && |root.children| == 2)
      ensures objectToBBox == Register(old(objectToBBox), obj, ContainerRect(live[obj], bufferSize))
      ensures Inserted(old(root), grown, obj, ContainerRect(live[obj], bufferSize), maxPerLevel, live)
      ensures |grown.children| <= maxPerLevel ==> root == grown
      ensures |grown.children| > maxPerLevel ==>
        root.level == old(root.level) + 1 && |root.children| == 2 &&
        SplitOf(grown, root.children[0], root.children[1])
    {
      var containerRect := ContainerRect(live[obj], bufferSize);
      root, grown := InsertRoot(root, obj, containerRect, maxPerLevel, live);
      objectToBBox := Register(objectToBBox, obj, containerRect);
    }

    /**
     * Removes the first container of `obj`, reinserts the objects the
     * removal handed back, collapses a root left with a single child above
     * level 0 into that child (keeping the root's box), and drops `obj`
     * from the registry. Returns the reinserted objects and the root after
     * their reinsertion, before the collapse, for the contract.
     */
    method Remove(obj: ObjId, live: map<ObjId, Rect>) returns (ghost reinserted: seq<ObjId>, ghost mid: Node)
      requires Valid() && KeepsChildren(root, obj, minPerLevel) && ObjectsKnown(root, live)
      modifies this
      ensures Valid()
      ensures reinserted == RemoveFrom(old(root), obj, minPerLevel).entries
      ensures root.rect == RemoveFrom(old(root), obj, minPerLevel).node.rect
      ensures Objects(root) == Objects(RemoveFrom(old(root), obj, minPerLevel).node) + multiset(reinserted)
      ensures Objects(root) <= old(Objects(root))
      ensures obj in old(Objects(root)) ==> Objects(root)[obj] < old(Objects(root))[obj]
      ensures old(LiveInside(root, live)) ==> LiveInside(root, live)
      ensures objectToBBox == RegisterAll(old(objectToBBox), reinserted, live, bufferSize) - {obj}
      ensures mid.Internal? && mid.rect == RemoveFrom(old(root), obj, minPerLevel).node.rect
      ensures Objects(mid) == Objects(RemoveFrom(old(root), obj, minPerLevel).node) + multiset(reinserted)
      ensures |mid.children| == 1 && mid.level > 0 ==> mid.children[0].Internal?
      ensures root == if |mid.children| == 1 && mid.level > 0
        then Internal(mid.children[0].level, mid.rect, mid.children[0].children)
        else mid
    {
      var r, entries := RemoveHelper(root, obj, minPerLevel);
      RemovedStillValid(root, obj, minPerLevel, maxPerLevel, live);
      root := r;
      reinserted := entries;
      Reinsert(entries, live);
      mid := root;
      CollapseRoot(live);
      objectToBBox := objectToBBox - {obj};
    }

    /** The reinsertion loop of `Remove`: inserts each object of `entries` in turn. */
    method Reinsert(entries: seq<ObjId>, live: map<ObjId, Rect>)
      requires Valid() && forall e | e in entries :: e in live
      modifies this
      ensures Valid()
      ensures root.rect == old(root.rect)
      ensures Objects(root) == old(Objects(root)) + multiset(entries)
      ensures old(LiveInside(root, live)) ==> LiveInside(root, live)
      ensures objectToBBox == RegisterAll(old(objectToBBox), entries, live, bufferSize)
    {
      for i := 0 to |entries|
        invariant Valid()
        invariant root.rect == old(root.rect)
        invariant Objects(root) == old(Objects(root)) + multiset(entries[..i])
        invariant old(LiveInside(root, live)) ==> LiveInside(root, live)
        invariant objectToBBox == RegisterAll(old(objectToBBox), entries[..i], live, bufferSize)
      {
        var _ := Insert(entries[i], live);
        RegisterAllStep(old(objectToBBox), entries, i, live, bufferSize);
        MultisetPrefixStep(entries, i);
      }
      assert entries[..|entries|] == entries;
    }

    /** A root left with a single child above level 0 is replaced by that child, under the root's box. */
    method CollapseRoot(live: map<ObjId, Rect>)
      requires Valid()
      modifies this
      ensures Valid()
      ensures root.rect == old(root.rect)
      ensures Objects(root) == old(Objects(root))
      ensures old(LiveInside(root, live)) ==> LiveInside(root, live)
      ensures old(|root.children| == 1 && root.level > 0) ==>
        root.level == old(root.level) - 1 && old(root.children[0].Internal?) &&
        root == Internal(old(root.children[0]).level, old(root.rect), old(root.children[0].children))
      ensures old(|root.children| != 1 || root.level == 0) ==> root == old(root)
      ensures objectToBBox == old(objectToBBox)
    {
      if |root.children| == 1 && root.level > 0 {
        var prevBBox := root.rect;
        CollapseFacts(root, maxPerLevel, live);
        var child := root.children[0];
        root := Internal(child.level, prevBBox, child.children);
      }
    }

    /**
     * Replaces the tree by one bulk-loaded from the leaf containers of
     * `objects`; the new root keeps the old root's box, and the registry
     * is rebuilt from scratch.
     */
    method BulkInsert(objects: seq<ObjId>, live: map<ObjId, Rect>)
      requires Valid() && |objects| > 0 && forall o | o in objects :: o in live
      modifies this
      ensures Valid()
      ensures objectToBBox == map o | o in objects :: ContainerRect(live[o], bufferSize)
      ensures Objects(root) == multiset(objects)
      ensures root.rect == old(root.rect)
      ensures LiveInside(root, live)
      ensures forall c | c in root.children :: Tight(c)
    {
      var nodes: seq<Node> := [];
      objectToBBox := map[];
      for i := 0 to |objects|
        invariant root == old(root)
        invariant nodes == Containers(objects[..i], live, bufferSize)
        invariant objectToBBox == RegisterAll(map[], objects[..i], live, bufferSize)
      {
        var obj := objects[i];
        var containerRect := ContainerRect(live[obj], bufferSize);
        ContainersStep(objects, i, live, bufferSize);
        RegisterAllStep(map[], objects, i, live, bufferSize);
        nodes := nodes + [Leaf(containerRect, obj)];
        objectToBBox := Register(objectToBBox, obj, containerRect);
      }
      assert objects[..|objects|] == objects;
      FreshRegistry(objects, live, bufferSize);
      ContainersFacts(objects, live, bufferSize);
      root := SortTileRecursive(nodes, root.rect, maxPerLevel, live);
    }

    /** Bulk-loads a new tree from the registered objects, taken in an arbitrary order. */
    method Reconstruct(live: map<ObjId, Rect>)
      requires Valid() && |objectToBBox| > 0 && objectToBBox.Keys <= live.Keys
      modifies this
      ensures Valid()
      ensures objectToBBox == map o | o in old(objectToBBox) :: ContainerRect(live[o], bufferSize)
      ensures Objects(root) == multiset(old(objectToBBox).Keys)
      ensures root.rect == old(root.rect)
      ensures LiveInside(root, live)
    {
      var objects := KeysInSomeOrder(objectToBBox.Keys);
      assert forall o | o in objects :: o in live by {
        forall o | o in objects ensures o in live {
          assert o in multiset(objects);
        }
      }
      assert |objects| > 0 by {
        var k :| k in objectToBBox;
        assert k in multiset(objects);
      }
      ghost var keys := objectToBBox.Keys;
      BulkInsert(objects, live);
      assert (set o | o in objects) == keys by {
        forall o ensures o in objects <==> o in keys {
          assert o in objects <==> o in multiset(objects);
        }
      }
    }

    /**
     * Rebuilds the tree, once, when some registered object's live box has
     * left its cached box; otherwise changes nothing.
     */
    method Update(live: map<ObjId, Rect>)
      requires Valid() && objectToBBox.Keys <= live.Keys
      modifies this
      ensures Valid()
      ensures Drifted(old(objectToBBox), live) ==>
        objectToBBox == (map o | o in old(objectToBBox) :: ContainerRect(live[o], bufferSize)) &&
        Objects(root) == multiset(old(objectToBBox).Keys) && root.rect == old(root.rect)
      ensures !Drifted(old(objectToBBox), live) ==> root == old(root) && objectToBBox == old(objectToBBox)
    {
      var keys := objectToBBox.Keys;
      while keys != {}
        invariant keys <= objectToBBox.Keys
        invariant forall o | o in objectToBBox && o !in keys :: Contains(objectToBBox[o], live[o])
        invariant root == old(root) && objectToBBox == old(objectToBBox)
        decreases |keys|
      {
        var o :| o in keys;
        if !Contains(objectToBBox[o], live[o]) {
          Reconstruct(live);
          return;
        }
        keys := keys - {o};
      }
    }
  }

  /** The elements of `s`, each exactly once, in an arbitrary order. */
  method KeysInSomeOrder(s: set<ObjId>) returns (objects: seq<ObjId>)
    ensures multiset(objects) == multiset(s)
  {
    objects := [];
    var rest := s;
    while rest != {}
      invariant rest <= s
      invariant multiset(objects) + multiset(rest) == multiset(s)
      decreases |rest|
    {
      var o :| o in rest;
      assert multiset(rest) == multiset(rest - {o}) + multiset{o};
      objects := objects + [o];
      rest := rest - {o};
    }
  }

  /** What the removal leaves still has the shape of an index, and loses no live box. */
  lemma RemovedStillValid(n: Node, obj: ObjId, minPer: nat, m: nat, live: map<ObjId, Rect>)
    requires n.Internal? && Leveled(n) && Fanout(n, m) && ChildrenCovered(n)
    requires KeepsChildren(n, obj, minPer) && ObjectsKnown(n, live)
    ensures var r := RemoveFrom(n, obj, minPer);
      r.node.Internal? && Leveled(r.node) && Fanout(r.node, m) && ChildrenCovered(r.node) &&
      Objects(r.node) + multiset(r.entries) <= Objects(n) &&
      (obj in Objects(n) ==> (Objects(r.node) + multiset(r.entries))[obj] < Objects(n)[obj]) &&
      (forall e | e in r.entries :: e in live) &&
      (LiveInside(n, live) ==> LiveInside(r.node, live))
  {
    var r := RemoveFrom(n, obj, minPer);
    RemoveLeveled(n, obj, minPer);
    RemoveFanout(n, obj, minPer, m);
    RemoveChildrenCovered(n, obj, minPer);
    RemoveObjects(n, obj, minPer);
    if LiveInside(n, live) {
      RemoveLiveInside(n, obj, minPer, live);
    }
    forall e | e in r.entries ensures e in live {
      assert e in multiset(r.entries);
    }
  }

  /** A root with a single child above level 0 can be replaced by that child under the root's box. */
  lemma CollapseFacts(root: Node, m: nat, live: map<ObjId, Rect>)
    requires root.Internal? && Leveled(root) && Fanout(root, m) && ChildrenCovered(root)
    requires |root.children| == 1 && root.level > 0
    ensures var c := root.children[0]; var r := Internal(c.Level(), root.rect, if c.Internal? then c.children else []);
      c.Internal? && Leveled(r) && Fanout(r, m) && ChildrenCovered(r) && Objects(r) == Objects(root) &&
      (LiveInside(root, live) ==> LiveInside(r, live))
  {
    var c := root.children[0];
    assert c in root.children;
    assert root.children == [c];
    ObjectsOfSingleton(c);
    if LiveInside(root, live) {
      assert LiveInside(c, live);
    }
  }
}
