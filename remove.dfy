/**
 * Removal as the later iteration performs it: every node of the tree is
 * visited. A level-0 node erases the first leaf container holding the
 * object; if it is then left with fewer than the minimum number of
 * children it hands all remaining objects back for reinsertion and keeps
 * no children. A node above level 0 erases every child that handed back
 * objects, keeps only the list handed back last, and recomputes its box
 * from the children that remain whenever it erased one.
 */
module Removal {
  import opened Geometry
  import opened Nodes

  /** The node after removal below it, with the objects it hands back for reinsertion. */
  datatype Removed = Removed(node: Node, entries: seq<ObjId>)

  /**
   * The sweep over the children of a node above level 0: the children
   * kept so far, the objects handed back last, and whether a child was
   * erased (which makes the node recompute its box).
   */
  datatype Swept = Swept(kept: seq<Node>, entries: seq<ObjId>, erased: bool)

  /** `c` is the leaf container of `obj`. */
  predicate Holds(c: Node, obj: ObjId) {
    c.Leaf? && c.obj == obj
  }

  /** Position of the first leaf container of `obj`, or `|cs|` when there is none. */
  function FirstHolding(cs: seq<Node>, obj: ObjId): (i: nat)
    ensures i <= |cs|
    ensures i < |cs| ==> Holds(cs[i], obj)
    ensures forall k :: 0 <= k < i ==> !Holds(cs[k], obj)
  {
    if cs == [] then 0
    else if Holds(cs[0], obj) then 0
    else 1 + FirstHolding(cs[1..], obj)
  }

  /** `cs` without the first leaf container of `obj`. */
  function EraseFirst(cs: seq<Node>, obj: ObjId): seq<Node> {
    var i := FirstHolding(cs, obj);
    if i < |cs| then cs[..i] + cs[i + 1..] else cs
  }

  /** The objects of the leaf containers among `cs`, in order. */
  function LeafObjects(cs: seq<Node>): seq<ObjId> {
    if cs == [] then []
    else LeafObjects(cs[..|cs| - 1]) + (if cs[|cs| - 1].Leaf? then [cs[|cs| - 1].obj] else [])
  }

  /**
   * Removal of `obj` below `n` with minimum fill `minPer`, as a value.
   * A leaf has no children to visit and is returned unchanged. When
   * every child of a node above level 0 is erased the source reads a
   * child that does not exist to recompute the box; the model keeps the
   * old box there.
   */
  function RemoveFrom(n: Node, obj: ObjId, minPer: nat): (r: Removed)
    ensures r.node.Internal? == n.Internal? && r.node.Level() == n.Level()
    decreases n, 1
  {
    match n
    case Leaf(_, _) => Removed(n, [])
    case Internal(level, rect, cs) =>
      if level == 0 then
        var rest := EraseFirst(cs, obj);
        if |rest| < minPer then Removed(n.(children := []), LeafObjects(rest))
        else Removed(n.(children := rest), [])
      else
        var s := Sweep(cs, obj, minPer);
        var box := if s.erased && |s.kept| > 0 then UnionOf(s.kept) else rect;
        Removed(Internal(level, box, s.kept), s.entries)
  }

  /** The sweep of a node above level 0 over the children `cs`, left to right. */
  function Sweep(cs: seq<Node>, obj: ObjId, minPer: nat): Swept
    decreases cs, 0
  {
    if cs == [] then Swept([], [], false)
    else
      var s := Sweep(cs[..|cs| - 1], obj, minPer);
      var r := RemoveFrom(cs[|cs| - 1], obj, minPer);
      if |r.entries| > 0 then Swept(s.kept, r.entries, true)
      else Swept(s.kept + [r.node], s.entries, s.erased)
  }

  // ---------------------------------------------------------------------
  // The removal procedure

  /** The level-0 case: erase the first container of `obj`, and empty the node if it underflows. */
  method RemoveAtLevelZero(n: Node, obj: ObjId, minPer: nat) returns (r: Node, entries: seq<ObjId>)
    requires n.Internal? && n.level == 0
    ensures Removed(r, entries) == RemoveFrom(n, obj, minPer)
  {
    var cs := n.children;
    var i := FindHolding(cs, obj);
    if i < |cs| {
      cs := cs[..i] + cs[i + 1..];
    }
    entries := [];
    if |cs| < minPer {
      entries := HandBack(cs);
      cs := [];
    }
    r := n.(children := cs);
  }

  /** Scans `cs` for the first leaf container of `obj`. */
  method FindHolding(cs: seq<Node>, obj: ObjId) returns (i: nat)
    ensures i == FirstHolding(cs, obj)
  {
    i := 0;
    while i < |cs| && !Holds(cs[i], obj)
      invariant 0 <= i <= |cs|
      invariant forall k :: 0 <= k < i ==> !Holds(cs[k], obj)
    {
      i := i + 1;
    }
    FirstHoldingIsFirst(cs, obj, i);
  }

  /** Collects the objects of the leaf containers among `cs`, in order. */
  method HandBack(cs: seq<Node>) returns (entries: seq<ObjId>)
    ensures entries == LeafObjects(cs)
  {
    entries := [];
    for k := 0 to |cs|
      invariant entries == LeafObjects(cs[..k])
    {
      assert cs[..k + 1][..k] == cs[..k];
      if cs[k].Leaf? {
        entries := entries + [cs[k].obj];
      }
    }
    assert cs[..|cs|] == cs;
  }

  lemma FirstHoldingIsFirst(cs: seq<Node>, obj: ObjId, i: int)
    requires 0 <= i <= |cs|
    requires i < |cs| ==> Holds(cs[i], obj)
    requires forall k :: 0 <= k < i ==> !Holds(cs[k], obj)
    ensures i == FirstHolding(cs, obj)
  {
  }

  /**
   * Removes `obj` below `n` and returns the updated node with the
   * objects to reinsert.
   */
  method RemoveHelper(n: Node, obj: ObjId, minPer: nat) returns (r: Node, entries: seq<ObjId>)
    ensures Removed(r, entries) == RemoveFrom(n, obj, minPer)
    decreases n
  {
    if n.Leaf? {
      return n, [];
    }
    if n.level == 0 {
      r, entries := RemoveAtLevelZero(n, obj, minPer);
      return;
    }
    var cs := n.children;
    var kept: seq<Node> := [];
    var mustResize := false;
    entries := [];
    for k := 0 to |cs|
      invariant Sweep(cs[..k], obj, minPer) == Swept(kept, entries, mustResize)
    {
      assert cs[..k + 1][..k] == cs[..k];
      assert cs[k] in cs;
      var c', e := RemoveHelper(cs[k], obj, minPer);
      if |e| > 0 {
        entries := e;
        mustResize := true;
      } else {
        kept := kept + [c'];
      }
    }
    assert cs[..|cs|] == cs;
    var box := n.rect;
    if mustResize && |kept| > 0 {
      box := kept[0].rect;
      for k := 0 to |kept|
        invariant k == 0 ==> box == kept[0].rect
        invariant k > 0 ==> box == UnionOf(kept[..k])
      {
        if k == 0 {
          EnlargeIdempotent(box);
          assert UnionOf(kept[..1]) == kept[0].rect;
        } else {
          assert kept[..k + 1][..k] == kept[..k];
        }
        box := EnlargeToContain(box, kept[k].rect);
      }
      assert kept[..|kept|] == kept;
    }
    r := Internal(n.level, box, kept);
  }

  // ---------------------------------------------------------------------
  // What removal guarantees

  /** Erasing the first container keeps every other child, in order. */
  lemma EraseFirstFacts(cs: seq<Node>, obj: ObjId)
    ensures multiset(EraseFirst(cs, obj)) <= multiset(cs)
    ensures |EraseFirst(cs, obj)| <= |cs|
    ensures forall x | x in EraseFirst(cs, obj) :: x in cs
    ensures FirstHolding(cs, obj) < |cs| ==>
      ObjectsOf(EraseFirst(cs, obj)) + multiset{obj} == ObjectsOf(cs)
    ensures FirstHolding(cs, obj) == |cs| ==> EraseFirst(cs, obj) == cs
  {
    var i := FirstHolding(cs, obj);
    if i < |cs| {
      var rest := cs[..i] + cs[i + 1..];
      assert EraseFirst(cs, obj) == rest;
      MultisetWithout(cs, i);
      ObjectsOfAt(cs, i);
      ObjectsOfConcat(cs[..i], cs[i + 1..]);
      assert Objects(cs[i]) == multiset{obj};
      forall x | x in rest ensures x in cs {
        assert x in multiset(rest);
      }
    }
  }

  /** On leaf containers only, the handed-back objects are exactly the objects held. */
  lemma {:induction false} LeafObjectsOf(cs: seq<Node>)
    requires forall c | c in cs :: c.Leaf?
    ensures multiset(LeafObjects(cs)) == ObjectsOf(cs)
    decreases |cs|
  {
    if cs != [] {
      var p := cs[..|cs| - 1];
      assert forall c | c in p :: c in cs;
      LeafObjectsOf(p);
    }
  }

  /** Without well-formedness, the objects handed back never exceed those held. */
  lemma {:induction false} LeafObjectsBound(cs: seq<Node>)
    ensures multiset(LeafObjects(cs)) <= ObjectsOf(cs)
    decreases |cs|
  {
    if cs != [] {
      LeafObjectsBound(cs[..|cs| - 1]);
    }
  }

  /** A child is erased exactly when it hands back objects, and only the last list handed back survives. */
  lemma {:induction false} SweepErasedIff(cs: seq<Node>, obj: ObjId, minPer: nat)
    ensures var s := Sweep(cs, obj, minPer); s.erased <==> |s.entries| > 0
    ensures |Sweep(cs, obj, minPer).kept| <= |cs|
    decreases |cs|
  {
    if cs != [] {
      SweepErasedIff(cs[..|cs| - 1], obj, minPer);
    }
  }

  /**
   * The entries a sweep hands back are those of the last child whose
   * removal handed any back: no later child handed any back.
   */
  lemma {:induction false} SweepLastEntries(cs: seq<Node>, obj: ObjId, minPer: nat)
    ensures var s := Sweep(cs, obj, minPer);
      |s.entries| > 0 ==>
        exists j | 0 <= j < |cs| ::
          s.entries == RemoveFrom(cs[j], obj, minPer).entries &&
          forall k | j < k < |cs| :: RemoveFrom(cs[k], obj, minPer).entries == []
    decreases |cs|
  {
    if cs != [] {
      var front := cs[..|cs| - 1];
      var last := RemoveFrom(cs[|cs| - 1], obj, minPer);
      assert Sweep(cs, obj, minPer).entries == if |last.entries| > 0 then last.entries else Sweep(front, obj, minPer).entries;
      SweepLastEntries(front, obj, minPer);
      if |last.entries| == 0 && |Sweep(front, obj, minPer).entries| > 0 {
        var j :| 0 <= j < |front| && Sweep(front, obj, minPer).entries == RemoveFrom(front[j], obj, minPer).entries &&
          forall k | j < k < |front| :: RemoveFrom(front[k], obj, minPer).entries == [];
        assert cs[j] == front[j];
        forall k | j < k < |cs|
          ensures RemoveFrom(cs[k], obj, minPer).entries == []
        {
          if k < |front| {
            assert cs[k] == front[k];
          }
        }
      }
    }
  }


  /** A node that hands back nothing keeps its box. */
  lemma RemoveKeepsBox(n: Node, obj: ObjId, minPer: nat)
    requires RemoveFrom(n, obj, minPer).entries == []
    ensures RemoveFrom(n, obj, minPer).node.rect == n.rect
  {
    if n.Internal? && n.level != 0 {
      SweepErasedIff(n.children, obj, minPer);
    }
  }

  /** Every child kept by the sweep is the result of removal below an original child that handed back nothing. */
  lemma {:induction false} SweepKeptFrom(cs: seq<Node>, obj: ObjId, minPer: nat)
    ensures forall x | x in Sweep(cs, obj, minPer).kept ::
      exists c | c in cs :: x == RemoveFrom(c, obj, minPer).node && RemoveFrom(c, obj, minPer).entries == []
    decreases |cs|
  {
    if cs != [] {
      var p := cs[..|cs| - 1];
      SweepKeptFrom(p, obj, minPer);
      assert forall c | c in p :: c in cs;
      assert cs[|cs| - 1] in cs;
    }
  }

  /**
   * Removal never invents objects: the objects still held plus those
   * handed back are among the objects held before, and when `obj` was
   * held at least one copy of it is gone.
   */
  lemma {:induction false} RemoveObjects(n: Node, obj: ObjId, minPer: nat)
    ensures var r := RemoveFrom(n, obj, minPer);
      Objects(r.node) + multiset(r.entries) <= Objects(n) &&
      (n.Internal? && Leveled(n) && obj in Objects(n) ==>
         (Objects(r.node) + multiset(r.entries))[obj] < Objects(n)[obj])
    decreases n, 1
  {
    match n
    case Leaf(_, _) =>
    case Internal(level, rect, cs) =>
      if level == 0 {
        LevelZeroObjects(n, obj, minPer);
      } else {
        SweepObjects(cs, obj, minPer);
      }
  }

  /** At level 0 what stays and what is handed back come from the children left after the erasure. */
  lemma LevelZeroKept(n: Node, obj: ObjId, minPer: nat)
    requires n.Internal? && n.level == 0
    ensures var r := RemoveFrom(n, obj, minPer);
      Objects(r.node) + multiset(r.entries) <= ObjectsOf(EraseFirst(n.children, obj))
  {
    LeafObjectsBound(EraseFirst(n.children, obj));
  }

  /** Among leaf containers, an object that is held has a container to erase. */
  lemma HeldLeafFound(cs: seq<Node>, obj: ObjId)
    requires forall c | c in cs :: c.Level() == -1 && Leveled(c)
    requires obj in ObjectsOf(cs)
    ensures FirstHolding(cs, obj) < |cs|
  {
    var c := ObjectIn(cs, obj);
    var j :| 0 <= j < |cs| && cs[j] == c;
    assert c.Leaf? && c.obj == obj;
    assert Holds(cs[j], obj);
  }

  /** `RemoveObjects` at level 0, where at most one copy goes and the rest stays or is handed back. */
  lemma LevelZeroObjects(n: Node, obj: ObjId, minPer: nat)
    requires n.Internal? && n.level == 0
    ensures var r := RemoveFrom(n, obj, minPer);
      Objects(r.node) + multiset(r.entries) <= Objects(n) &&
      (Leveled(n) && obj in Objects(n) ==> (Objects(r.node) + multiset(r.entries))[obj] < Objects(n)[obj])
  {
    var cs := n.children;
    var rest := EraseFirst(cs, obj);
    EraseFirstFacts(cs, obj);
    ObjectsOfPermutationBound(rest, cs);
    LevelZeroKept(n, obj, minPer);
    if Leveled(n) && obj in Objects(n) {
      HeldLeafFound(cs, obj);
    }
  }

  /** The sweep's counterpart of `RemoveObjects`. */
  lemma {:induction false} SweepObjects(cs: seq<Node>, obj: ObjId, minPer: nat)
    ensures var s := Sweep(cs, obj, minPer);
      ObjectsOf(s.kept) + multiset(s.entries) <= ObjectsOf(cs) &&
      ((forall c | c in cs :: c.Internal? && Leveled(c)) && obj in ObjectsOf(cs) ==> (ObjectsOf(s.kept) + multiset(s.entries))[obj] < ObjectsOf(cs)[obj])
    decreases cs, 0
  {
    if cs != [] {
      var p := cs[..|cs| - 1];
      var c := cs[|cs| - 1];
      SweepObjects(p, obj, minPer);
      RemoveObjects(c, obj, minPer);
      var s := Sweep(p, obj, minPer);
      var r := RemoveFrom(c, obj, minPer);
      assert forall x | x in p :: x in cs;
      var before := ObjectsOf(s.kept) + multiset(s.entries);
      var mine := Objects(r.node) + multiset(r.entries);
      if |r.entries| == 0 {
        ObjectsOfAppend(s.kept, r.node);
        SumBound(before, mine, ObjectsOf(p), Objects(c), obj);
      } else {
        SumBound(ObjectsOf(s.kept), multiset(r.entries), ObjectsOf(p), Objects(c), obj);
      }
    }
  }

  /** Adding up two bounded multisets; a count strictly below on either side stays strictly below. */
  lemma SumBound(a: multiset<ObjId>, b: multiset<ObjId>, a': multiset<ObjId>, b': multiset<ObjId>, obj: ObjId)
    requires a <= a' && b <= b'
    ensures a + b <= a' + b'
    ensures a[obj] < a'[obj] || b[obj] < b'[obj] ==> (a + b)[obj] < (a' + b')[obj]
  {
  }

  /** A sub-multiset of children holds a sub-multiset of objects. */
  lemma {:induction false} ObjectsOfPermutationBound(a: seq<Node>, b: seq<Node>)
    requires multiset(a) <= multiset(b)
    ensures ObjectsOf(a) <= ObjectsOf(b)
    decreases |b|
  {
    if b != [] {
      var p := b[..|b| - 1];
      var x := b[|b| - 1];
      assert b == p + [x];
      if x in multiset(a) {
        var i :| 0 <= i < |a| && a[i] == x;
        var a' := a[..i] + a[i + 1..];
        assert a == a[..i] + [a[i]] + a[i + 1..];
        assert multiset(a') == multiset(a) - multiset{x};
        assert multiset(a') <= multiset(p);
        ObjectsOfPermutationBound(a', p);
        ObjectsOfAt(a, i);
        ObjectsOfConcat(a[..i], a[i + 1..]);
      } else {
        assert multiset(a) <= multiset(p);
        ObjectsOfPermutationBound(a, p);
      }
    } else {
      assert a == [];
    }
  }

  // ---------------------------------------------------------------------
  // Shape of the tree after removal

  /**
   * No node above level 0 loses all of its children. The source needs
   * this: it recomputes such a node's box from its first child, and a
   * later insertion descends into one of its children.
   */
  ghost predicate KeepsChildren(n: Node, obj: ObjId, minPer: nat) {
    match n
    case Leaf(_, _) => true
    case Internal(level, _, cs) =>
      (level > 0 ==> |Sweep(cs, obj, minPer).kept| > 0) &&
      forall c | c in cs :: KeepsChildren(c, obj, minPer)
  }

  /** Levels stay consistent, provided no node above level 0 is emptied. */
  lemma {:induction false} RemoveLeveled(n: Node, obj: ObjId, minPer: nat)
    requires Leveled(n) && KeepsChildren(n, obj, minPer)
    ensures Leveled(RemoveFrom(n, obj, minPer).node)
    decreases n
  {
    match n
    case Leaf(_, _) =>
    case Internal(level, rect, cs) =>
      if level == 0 {
        EraseFirstFacts(cs, obj);
      } else {
        var s := Sweep(cs, obj, minPer);
        SweepKeptFrom(cs, obj, minPer);
        forall x | x in s.kept ensures x.Level() == level - 1 && Leveled(x) {
          var c :| c in cs && x == RemoveFrom(c, obj, minPer).node && RemoveFrom(c, obj, minPer).entries == [];
          RemoveLeveled(c, obj, minPer);
        }
      }
  }

  /** No node gains children. */
  lemma {:induction false} RemoveFanout(n: Node, obj: ObjId, minPer: nat, m: nat)
    requires Fanout(n, m)
    ensures Fanout(RemoveFrom(n, obj, minPer).node, m)
    decreases n
  {
    match n
    case Leaf(_, _) =>
    case Internal(level, rect, cs) =>
      if level == 0 {
        EraseFirstFacts(cs, obj);
      } else {
        var s := Sweep(cs, obj, minPer);
        SweepKeptFrom(cs, obj, minPer);
        SweepErasedIff(cs, obj, minPer);
        forall x | x in s.kept ensures Fanout(x, m) {
          var c :| c in cs && x == RemoveFrom(c, obj, minPer).node && RemoveFrom(c, obj, minPer).entries == [];
          RemoveFanout(c, obj, minPer, m);
        }
      }
  }

  /**
   * Boxes keep covering their children, and the box of the node itself
   * can only shrink.
   */
  lemma {:induction false} RemoveCovered(n: Node, obj: ObjId, minPer: nat)
    requires Covered(n)
    ensures Covered(RemoveFrom(n, obj, minPer).node)
    ensures Contains(n.rect, RemoveFrom(n, obj, minPer).node.rect)
    decreases n
  {
    match n
    case Leaf(_, _) =>
    case Internal(level, rect, cs) =>
      if level == 0 {
        EraseFirstFacts(cs, obj);
      } else {
        var s := Sweep(cs, obj, minPer);
        SweepKeptFrom(cs, obj, minPer);
        forall x | x in s.kept ensures Covered(x) && Contains(rect, x.rect) {
          var c :| c in cs && x == RemoveFrom(c, obj, minPer).node && RemoveFrom(c, obj, minPer).entries == [];
          RemoveCovered(c, obj, minPer);
          RemoveKeepsBox(c, obj, minPer);
        }
        if s.erased && |s.kept| > 0 {
          UnionOfIsLeast(s.kept, rect);
        }
      }
  }

  /** The subtrees below the node stay covered. */
  lemma RemoveChildrenCovered(n: Node, obj: ObjId, minPer: nat)
    requires ChildrenCovered(n)
    ensures ChildrenCovered(RemoveFrom(n, obj, minPer).node)
  {
    match n
    case Leaf(_, _) =>
    case Internal(level, rect, cs) =>
      if level == 0 {
        EraseFirstFacts(cs, obj);
      } else {
        var s := Sweep(cs, obj, minPer);
        SweepKeptFrom(cs, obj, minPer);
        forall x | x in s.kept ensures Covered(x) {
          var c :| c in cs && x == RemoveFrom(c, obj, minPer).node && RemoveFrom(c, obj, minPer).entries == [];
          RemoveCovered(c, obj, minPer);
        }
      }
  }

  /** Every container still in the tree still contains its object's live box. */
  lemma {:induction false} RemoveLiveInside(n: Node, obj: ObjId, minPer: nat, live: map<ObjId, Rect>)
    requires LiveInside(n, live)
    ensures LiveInside(RemoveFrom(n, obj, minPer).node, live)
    decreases n
  {
    match n
    case Leaf(_, _) =>
    case Internal(level, rect, cs) =>
      if level == 0 {
        EraseFirstFacts(cs, obj);
      } else {
        var s := Sweep(cs, obj, minPer);
        SweepKeptFrom(cs, obj, minPer);
        forall x | x in s.kept ensures LiveInside(x, live) {
          var c :| c in cs && x == RemoveFrom(c, obj, minPer).node && RemoveFrom(c, obj, minPer).entries == [];
          RemoveLiveInside(c, obj, minPer, live);
        }
      }
  }

  // ---------------------------------------------------------------------
  // When nothing is lost, and when something is

  /** Every level-0 node holds at least `minPer` children. */
  ghost predicate MinFill(n: Node, minPer: nat) {
    match n
    case Leaf(_, _) => true
    case Internal(level, _, cs) =>
      (level == 0 ==> |cs| >= minPer) && forall c | c in cs :: MinFill(c, minPer)
  }

  /** Removing an object that is not held from a tree with no underfull level-0 node changes nothing. */
  lemma {:induction false} RemoveAbsentUnchanged(n: Node, obj: ObjId, minPer: nat)
    requires obj !in Objects(n) && MinFill(n, minPer)
    ensures RemoveFrom(n, obj, minPer) == Removed(n, [])
    decreases n, 1
  {
    match n
    case Leaf(_, _) =>
    case Internal(level, rect, cs) =>
      if level == 0 {
        var i := FirstHolding(cs, obj);
        if i < |cs| {
          ObjectsOfContains(cs, cs[i]);
          assert false;
        }
      } else {
        SweepAbsentUnchanged(cs, obj, minPer);
      }
  }

  lemma {:induction false} SweepAbsentUnchanged(cs: seq<Node>, obj: ObjId, minPer: nat)
    requires obj !in ObjectsOf(cs)
    requires forall c | c in cs :: MinFill(c, minPer)
    ensures Sweep(cs, obj, minPer) == Swept(cs, [], false)
    decreases cs, 0
  {
    if cs != [] {
      var p, last := cs[..|cs| - 1], cs[|cs| - 1];
      assert ObjectsOf(cs) == ObjectsOf(p) + Objects(last);
      assert forall c | c in p :: c in cs;
      assert last in cs;
      SweepAbsentUnchanged(p, obj, minPer);
      RemoveAbsentUnchanged(last, obj, minPer);
      FrontLast(cs);
    }
  }

  /**
   * At level 0 nothing is lost: the node keeps or hands back every
   * object it held except one copy of `obj`.
   */
  lemma LevelZeroExact(n: Node, obj: ObjId, minPer: nat)
    requires n.Internal? && n.level == 0 && Leveled(n)
    ensures var r := RemoveFrom(n, obj, minPer);
      Objects(r.node) + multiset(r.entries) == Objects(n) - multiset{obj}
  {
    var cs := n.children;
    var rest := EraseFirst(cs, obj);
    EraseFirstFacts(cs, obj);
    if FirstHolding(cs, obj) == |cs| && obj in ObjectsOf(cs) {
      HeldLeafFound(cs, obj);
    }
    assert ObjectsOf(rest) == ObjectsOf(cs) - multiset{obj};
    var r := RemoveFrom(n, obj, minPer);
    if |rest| < minPer {
      assert forall c | c in rest :: c.Leaf? by {
        forall c | c in rest ensures c.Leaf? {
          assert c in cs && c.Level() == -1 && Leveled(c);
        }
      }
      LeafObjectsOf(rest);
      assert r.node.children == [] && r.entries == LeafObjects(rest);
    } else {
      assert r.node.children == rest && r.entries == [];
    }
  }

  // The three level-0 nodes of the example below.
  const LossA := Internal(0, Rect(0, 0, 1, 1), [Leaf(Rect(0, 0, 1, 1), 1)])
  const LossB := Internal(0, Rect(2, 2, 4, 4), [Leaf(Rect(2, 2, 3, 3), 2), Leaf(Rect(3, 3, 4, 4), 3)])
  const LossC := Internal(0, Rect(5, 5, 7, 7), [Leaf(Rect(5, 5, 6, 6), 4), Leaf(Rect(6, 6, 7, 7), 5)])
  const LossTree := Internal(1, Rect(0, 0, 7, 7), [LossA, LossB, LossC])

  lemma LossChildren()
    ensures RemoveFrom(LossA, 2, 2) == Removed(LossA.(children := []), [1])
    ensures RemoveFrom(LossB, 2, 2) == Removed(LossB.(children := []), [3])
    ensures RemoveFrom(LossC, 2, 2) == Removed(LossC, [])
  {
    assert FirstHolding(LossA.children, 2) == 1;
    assert LeafObjects([Leaf(Rect(0, 0, 1, 1), 1)]) == [1];
    assert FirstHolding(LossB.children, 2) == 0;
    assert EraseFirst(LossB.children, 2) == [Leaf(Rect(3, 3, 4, 4), 3)];
    assert LeafObjects([Leaf(Rect(3, 3, 4, 4), 3)]) == [3];
    assert FirstHolding(LossC.children, 2) == 2;
  }

  /** Every child of the example tree is one of its three level-0 nodes, and those hold only leaf containers. */
  lemma LossMembers()
    ensures forall x | x in LossTree.children :: x == LossA || x == LossB || x == LossC
    ensures forall x | x in LossA.children :: x == Leaf(Rect(0, 0, 1, 1), 1)
    ensures forall x | x in LossB.children :: x == Leaf(Rect(2, 2, 3, 3), 2) || x == Leaf(Rect(3, 3, 4, 4), 3)
    ensures forall x | x in LossC.children :: x == Leaf(Rect(5, 5, 6, 6), 4) || x == Leaf(Rect(6, 6, 7, 7), 5)
  {
  }

  /** The example tree is well formed: consistent levels, covering boxes, at most 5 children per node. */
  lemma LossTreeWellFormed()
    ensures Leveled(LossTree) && Covered(LossTree) && Fanout(LossTree, 5)
  {
    LossMembers();
    assert Leveled(LossA) && Leveled(LossB) && Leveled(LossC);
    LossTreeCovered();
  }

  lemma LossTreeCovered()
    ensures Covered(LossTree) && Fanout(LossTree, 5)
  {
    LossMembers();
    assert Covered(LossA) && Covered(LossB) && Covered(LossC);
    assert Fanout(LossA, 5) && Fanout(LossB, 5) && Fanout(LossC, 5);
  }

  lemma LossSweep()
    ensures RemoveFrom(LossTree, 2, 2) == Removed(Internal(1, LossC.rect, [LossC]), [3])
  {
    var cs := [LossA, LossB, LossC];
    LossSweepTwo();
    assert cs[..2] == [LossA, LossB];
    LossChildren();
    assert Sweep(cs, 2, 2) == Swept([LossC], [3], true);
    assert UnionOf([LossC]) == LossC.rect;
  }

  /** The sweep over the first two children of the example tree empties both and keeps the last list. */
  lemma LossSweepTwo()
    ensures Sweep([LossA, LossB], 2, 2) == Swept([], [3], true)
  {
    LossChildren();
    assert [LossA, LossB][..1] == [LossA] && [LossA][..0] == [];
    assert Sweep([LossA], 2, 2) == Swept([], [1], true);
  }

  lemma LossObjects()
    ensures 1 in Objects(LossTree) && Objects(LossC) == multiset{4, 5}
  {
    var cs := [LossA, LossB, LossC];
    assert ObjectsOf([LossA]) == multiset{1};
    ObjectsOfContains(cs, LossA);
    assert LossC.children[..1] == [Leaf(Rect(5, 5, 6, 6), 4)];
  }

  /**
   * Above level 0 objects can be lost. Removing object 2 from the
   * well-formed level-1 node `LossTree` (see `LossTreeWellFormed`) with
   * fill minimum 2 empties the untouched sibling `LossA`,
   * which holds one object, as well as `LossB`; the list handed back by
   * `LossB` replaces that of `LossA`, so object 1 is neither kept nor
   * reinserted.
   */
  lemma RemoveCanLoseObjects()
    ensures var r := RemoveFrom(LossTree, 2, 2);
      1 in Objects(LossTree) &&
      r == Removed(Internal(1, LossC.rect, [LossC]), [3]) &&
      1 !in Objects(r.node) + multiset(r.entries)
  {
    LossSweep();
    LossObjects();
    ObjectsOfSingleton(LossC);
  }
}
