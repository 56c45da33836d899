/**
 * Tree nodes of the index and the edits made to their child lists.
 *
 * A node is either an internal node at level >= 0 holding a box and an
 * ordered list of children, or a leaf container (level -1) holding the
 * padded box of one object. Level-0 nodes hold leaf containers; a node
 * at level l > 0 holds nodes at level l - 1. Children are owned values:
 * the shared or raw child pointers of the source become a sequence, and
 * a child's pointer identity becomes its position in that sequence.
 */
module Nodes {
  import opened Geometry

  /** Identity of an indexed object (the source holds a pointer to it). */
  type ObjId = nat

  datatype Node =
    | Internal(level: int, rect: Rect, children: seq<Node>)
    | Leaf(rect: Rect, obj: ObjId)
  {
    /** The source gives leaf containers level -1. */
    function Level(): int {
      match this
      case Internal(level, _, _) => level
      case Leaf(_, _) => -1
    }
  }

  /** The default box the 2D library gives a node built without children. */
  const EmptyRect := Rect(0, 0, 0, 0)

  // ---------------------------------------------------------------------
  // Objects stored below a node

  /** The objects held by the leaf containers below `n`, with multiplicity. */
  function Objects(n: Node): multiset<ObjId>
    decreases n, 1
  {
    match n
    case Leaf(_, o) => multiset{o}
    case Internal(_, _, cs) => ObjectsOf(cs)
  }

  function ObjectsOf(cs: seq<Node>): multiset<ObjId>
    decreases cs, 0
  {
    if cs == [] then multiset{} else ObjectsOf(cs[..|cs| - 1]) + Objects(cs[|cs| - 1])
  }

  lemma {:induction false} ObjectsOfConcat(a: seq<Node>, b: seq<Node>)
    ensures ObjectsOf(a + b) == ObjectsOf(a) + ObjectsOf(b)
    decreases |b|
  {
    if b == [] {
      assert a + b == a;
    } else {
      var b' := b[..|b| - 1];
      assert (a + b)[..|a + b| - 1] == a + b';
      assert (a + b)[|a + b| - 1] == b[|b| - 1];
      ObjectsOfConcat(a, b');
    }
  }

  lemma ObjectsOfSingleton(c: Node)
    ensures ObjectsOf([c]) == Objects(c)
  {
    assert [c][..0] == [];
  }

  /** The objects of a list split around position i. */
  lemma ObjectsOfAt(cs: seq<Node>, i: int)
    requires 0 <= i < |cs|
    ensures ObjectsOf(cs) == ObjectsOf(cs[..i]) + Objects(cs[i]) + ObjectsOf(cs[i + 1..])
  {
    var upTo := cs[..i + 1];
    assert cs == upTo + cs[i + 1..];
    assert upTo[..|upTo| - 1] == cs[..i] && upTo[|upTo| - 1] == cs[i];
    assert ObjectsOf(upTo) == ObjectsOf(cs[..i]) + Objects(cs[i]);
    ObjectsOfConcat(upTo, cs[i + 1..]);
  }

  /** Lists holding the same nodes, in any order, hold the same objects. */
  lemma {:induction false} ObjectsOfPermutation(a: seq<Node>, b: seq<Node>)
    requires multiset(a) == multiset(b)
    ensures ObjectsOf(a) == ObjectsOf(b)
    decreases |a|
  {
    if a == [] {
      assert |b| == |multiset(b)| == 0;
    } else {
      var x := a[|a| - 1];
      var a' := a[..|a| - 1];
      assert x in multiset(b);
      var i :| 0 <= i < |b| && b[i] == x;
      var b' := b[..i] + b[i + 1..];
      MultisetWithout(a, |a| - 1);
      MultisetWithout(b, i);
      assert a[|a|..] == [];
      assert a' + a[|a|..] == a';
      ObjectsOfPermutation(a', b');
      ObjectsOfAt(b, i);
      ObjectsOfAt(a, |a| - 1);
      ObjectsOfConcat(b[..i], b[i + 1..]);
    }
  }

  /** Appending a node adds its objects. */
  lemma ObjectsOfAppend(cs: seq<Node>, c: Node)
    ensures ObjectsOf(cs + [c]) == ObjectsOf(cs) + Objects(c)
  {
    assert (cs + [c])[..|cs|] == cs;
  }

  /** A non-empty list is its front followed by its last node. */
  lemma FrontLast(cs: seq<Node>)
    requires cs != []
    ensures cs[..|cs| - 1] + [cs[|cs| - 1]] == cs
  {
  }

  /** Taking out the node at `i` takes one copy of it out of the multiset. */
  lemma MultisetWithout(b: seq<Node>, i: int)
    requires 0 <= i < |b|
    ensures multiset(b[..i] + b[i + 1..]) == multiset(b) - multiset{b[i]}
  {
    assert b == b[..i] + [b[i]] + b[i + 1..];
  }

  /** Replacing the child at i replaces its objects and no others. */
  lemma ObjectsOfUpdate(cs: seq<Node>, i: int, c: Node)
    requires 0 <= i < |cs|
    ensures ObjectsOf(cs[i := c]) + Objects(cs[i]) == ObjectsOf(cs) + Objects(c)
  {
    ObjectsOfAt(cs, i);
    ObjectsOfAt(cs[i := c], i);
    assert cs[i := c][..i] == cs[..i];
    assert cs[i := c][i + 1..] == cs[i + 1..];
  }

  // ---------------------------------------------------------------------
  // Union of the children's boxes

  /**
   * The union of the boxes of a non-empty list, folded from the left
   * starting with the first box, as the source accumulates it.
   */
  function UnionOf(cs: seq<Node>): (r: Rect)
    requires |cs| > 0
    ensures forall c | c in cs :: Contains(r, c.rect)
  {
    if |cs| == 1 then cs[0].rect
    else
      var u := UnionOf(cs[..|cs| - 1]);
      assert forall c | c in cs :: c in cs[..|cs| - 1] || c == cs[|cs| - 1];
      EnlargeToContain(u, cs[|cs| - 1].rect)
  }

  /** The union is the least box containing every child's box. */
  lemma {:induction false} UnionOfIsLeast(cs: seq<Node>, b: Rect)
    requires |cs| > 0
    requires forall c | c in cs :: Contains(b, c.rect)
    ensures Contains(b, UnionOf(cs))
    decreases |cs|
  {
    if |cs| > 1 {
      var p := cs[..|cs| - 1];
      assert forall c | c in p :: c in cs;
      UnionOfIsLeast(p, b);
    }
  }

  lemma {:induction false} UnionOfWellFormed(cs: seq<Node>)
    requires |cs| > 0
    requires forall c | c in cs :: WellFormed(c.rect)
    ensures WellFormed(UnionOf(cs))
    decreases |cs|
  {
    if |cs| > 1 {
      var p := cs[..|cs| - 1];
      assert forall c | c in p :: c in cs;
      UnionOfWellFormed(p);
    }
  }

  /** The union depends only on which boxes are present, not on their order. */
  lemma UnionOfPermutation(a: seq<Node>, b: seq<Node>)
    requires |a| > 0 && multiset(a) == multiset(b)
    ensures |b| > 0 && UnionOf(a) == UnionOf(b)
  {
    assert |b| == |multiset(b)| == |multiset(a)| == |a|;
    forall c | c in b ensures Contains(UnionOf(a), c.rect) {
      assert c in multiset(a);
    }
    forall c | c in a ensures Contains(UnionOf(b), c.rect) {
      assert c in multiset(b);
    }
    UnionOfIsLeast(b, UnionOf(a));
    UnionOfIsLeast(a, UnionOf(b));
    ContainsAntisymmetric(UnionOf(a), UnionOf(b));
  }

  /** The box of a list extended by one node is the old union enlarged by that node's box. */
  lemma UnionOfAppend(cs: seq<Node>, c: Node)
    requires |cs| > 0
    ensures UnionOf(cs + [c]) == EnlargeToContain(UnionOf(cs), c.rect)
  {
    assert (cs + [c])[..|cs|] == cs;
  }

  /**
   * The box accumulation loop of the source: start from the first box
   * and enlarge it by every box of the list, the first one included.
   */
  method BoundingBoxOf(cs: seq<Node>) returns (r: Rect)
    requires |cs| > 0
    ensures r == UnionOf(cs)
  {
    r := cs[0].rect;
    for i := 0 to |cs|
      invariant i == 0 ==> r == cs[0].rect
      invariant i > 0 ==> r == UnionOf(cs[..i])
    {
      if i > 0 {
        assert cs[..i + 1] == cs[..i] + [cs[i]];
        UnionOfAppend(cs[..i], cs[i]);
      } else {
        assert cs[..1] == [cs[0]];
      }
      r := EnlargeToContain(r, cs[i].rect);
    }
    assert cs[..|cs|] == cs;
  }

  // ---------------------------------------------------------------------
  // Constructors

  /**
   * The node built from a lower-left corner, a width, a height, children
   * and a level; the 2D library turns the four numbers into a box.
   */
  function NodeFromOriginSize(x1: int, y1: int, width: int, height: int, children: seq<Node>, level: int): (n: Node)
    ensures n.Internal? && n.level == level && n.children == children
    ensures n.rect.x1 == x1 && n.rect.y1 == y1
    ensures n.rect.x2 - n.rect.x1 == width && n.rect.y2 - n.rect.y1 == height
  {
    Internal(level, FromOriginSize(x1, y1, width, height), children)
  }

  /**
   * The node built from children and a level: its box is the union of
   * the children's boxes, or the library's default box when there are none.
   */
  method FromChildren(children: seq<Node>, level: int) returns (n: Node)
    ensures n.Internal? && n.level == level && n.children == children
    ensures |children| > 0 ==> n.rect == UnionOf(children)
    ensures |children| > 0 ==> forall c | c in children :: Contains(n.rect, c.rect)
    ensures |children| == 0 ==> n.rect == EmptyRect
  {
    var r := EmptyRect;
    if |children| > 0 {
      r := BoundingBoxOf(children);
    }
    n := Internal(level, r, children);
  }

  // ---------------------------------------------------------------------
  // Structural invariants

  /**
   * Levels are consistent: internal levels are non-negative, every child
   * sits exactly one level below its parent (so level-0 nodes hold leaf
   * containers), and nodes above level 0 have at least one child.
   */
  predicate Leveled(n: Node) {
    match n
    case Leaf(_, _) => true
    case Internal(level, _, cs) =>
      level >= 0 && (level > 0 ==> |cs| > 0) &&
      forall c | c in cs :: c.Level() == level - 1 && Leveled(c)
  }

  /** No internal node at or below `n` has more than `m` children. */
  predicate Fanout(n: Node, m: nat) {
    match n
    case Leaf(_, _) => true
    case Internal(_, _, cs) => |cs| <= m && forall c | c in cs :: Fanout(c, m)
  }

  /** Every child of `n` satisfies `Fanout`; `n` itself may hold more. */
  predicate FanoutBelow(n: Node, m: nat) {
    n.Internal? ==> forall c | c in n.children :: Fanout(c, m)
  }

  /** Every internal node at or below `n` contains the boxes of its children. */
  predicate Covered(n: Node) {
    match n
    case Leaf(_, _) => true
    case Internal(_, rect, cs) => forall c | c in cs :: Contains(rect, c.rect) && Covered(c)
  }

  /** Every subtree below `n` is `Covered`; the box of `n` itself is not constrained. */
  predicate ChildrenCovered(n: Node) {
    n.Internal? ==> forall c | c in n.children :: Covered(c)
  }

  /** Every internal node at or below `n` with children has exactly their union as its box. */
  predicate Tight(n: Node) {
    match n
    case Leaf(_, _) => true
    case Internal(_, rect, cs) => (|cs| > 0 ==> rect == UnionOf(cs)) && forall c | c in cs :: Tight(c)
  }

  /** Every leaf container below `n` names a known object whose live box it contains. */
  predicate LiveInside(n: Node, live: map<ObjId, Rect>) {
    match n
    case Leaf(rect, o) => o in live && Contains(rect, live[o])
    case Internal(_, _, cs) => forall c | c in cs :: LiveInside(c, live)
  }

  /** Every object below `n` has a live box. */
  predicate ObjectsKnown(n: Node, live: map<ObjId, Rect>) {
    forall o | o in Objects(n) :: o in live
  }

  /**
   * `leaf` is reached from `n` along a path every node of which
   * contains the box of `leaf`.
   */
  predicate PathTo(n: Node, leaf: Node) {
    n == leaf ||
    (n.Internal? && Contains(n.rect, leaf.rect) &&
     exists c | c in n.children :: PathTo(c, leaf))
  }

  lemma {:induction false} TightIsCovered(n: Node)
    requires Tight(n)
    ensures Covered(n)
    decreases n
  {
    if n.Internal? {
      forall c | c in n.children ensures Contains(n.rect, c.rect) && Covered(c) {
        TightIsCovered(c);
      }
    }
  }

  lemma PathToContains(n: Node, leaf: Node)
    requires PathTo(n, leaf)
    ensures Contains(n.rect, leaf.rect)
  {
  }

  /** In a covered subtree every object's live box lies inside the subtree's box. */
  lemma {:induction false} CoveredLiveInside(n: Node, live: map<ObjId, Rect>, o: ObjId)
    requires Covered(n) && LiveInside(n, live) && o in Objects(n)
    ensures o in live && Contains(n.rect, live[o])
    decreases n
  {
    if n.Internal? {
      var c := ObjectIn(n.children, o);
      CoveredLiveInside(c, live, o);
    }
  }

  /** Some child of a list holds each object of the list. */
  lemma {:induction false} ObjectIn(cs: seq<Node>, o: ObjId) returns (c: Node)
    requires o in ObjectsOf(cs)
    ensures c in cs && o in Objects(c)
    decreases |cs|
  {
    if o in Objects(cs[|cs| - 1]) {
      c := cs[|cs| - 1];
    } else {
      c := ObjectIn(cs[..|cs| - 1], o);
    }
  }

  /** The objects of any child are objects of the list. */
  lemma {:induction false} ObjectsOfContains(cs: seq<Node>, c: Node)
    requires c in cs
    ensures Objects(c) <= ObjectsOf(cs)
    decreases |cs|
  {
    if c != cs[|cs| - 1] {
      ObjectsOfContains(cs[..|cs| - 1], c);
    }
  }

  // ---------------------------------------------------------------------
  // Child-list edits

  /** Position of the first occurrence of `c` in `cs`. */
  function IndexOf(cs: seq<Node>, c: Node): (i: nat)
    requires c in cs
    ensures i < |cs| && cs[i] == c && c !in cs[..i]
  {
    if cs[0] == c then 0
    else
      var j := IndexOf(cs[1..], c);
      assert cs[..j + 1] == [cs[0]] + cs[1..][..j];
      j + 1
  }

  /**
   * Removes the first child equal to `c`, keeping the others in order;
   * does nothing when `c` is not a child.
   */
  method DeleteChild(n: Node, c: Node) returns (r: Node)
    requires n.Internal?
    ensures r.Internal? && r.level == n.level && r.rect == n.rect
    ensures c !in n.children ==> r == n
    ensures c in n.children ==>
      var i := IndexOf(n.children, c);
      r.children == n.children[..i] + n.children[i + 1..]
  {
    var cs := n.children;
    var i := 0;
    while i < |cs| && cs[i] != c
      invariant 0 <= i <= |cs|
      invariant c !in cs[..i]
    {
      assert cs[..i + 1] == cs[..i] + [cs[i]];
      i := i + 1;
    }
    if i < |cs| {
      r := n.(children := cs[..i] + cs[i + 1..]);
    } else {
      assert cs[..i] == cs;
      r := n;
    }
  }

  /** Deleting a child removes exactly one occurrence of it. */
  lemma DeleteChildMultiset(cs: seq<Node>, c: Node)
    requires c in cs
    ensures var i := IndexOf(cs, c);
      multiset(cs[..i] + cs[i + 1..]) == multiset(cs) - multiset{c}
  {
    var i := IndexOf(cs, c);
    assert cs == cs[..i] + [cs[i]] + cs[i + 1..];
  }

  /** Appends `c` as the last child. */
  function AddChild(n: Node, c: Node): (r: Node)
    requires n.Internal?
    ensures r.Internal? && r.level == n.level && r.rect == n.rect
    ensures |r.children| == |n.children| + 1
    ensures r.children[..|n.children|] == n.children && r.children[|n.children|] == c
  {
    n.(children := n.children + [c])
  }

  /** Appending a child that was absent and then deleting it restores the node. */
  lemma AddThenDelete(n: Node, c: Node)
    requires n.Internal? && c !in n.children
    ensures c in AddChild(n, c).children
    ensures var cs := AddChild(n, c).children;
      var i := IndexOf(cs, c);
      i == |n.children| && cs[..i] + cs[i + 1..] == n.children
  {
    var cs := AddChild(n, c).children;
    var i := IndexOf(cs, c);
    assert cs[i + 1..] == [];
  }

  /**
   * Drops every child of an internal node; a leaf container has none
   * and is unchanged.
   */
  function DeleteChildren(n: Node): (r: Node)
    ensures r.Level() == n.Level() && r.rect == n.rect
    ensures r.Internal? ==> r.children == []
    ensures n.Leaf? ==> r == n
    ensures Objects(r) == if n.Leaf? then multiset{n.obj} else multiset{}
  {
    match n
    case Leaf(_, _) => n
    case Internal(level, rect, _) => Internal(level, rect, [])
  }
}
