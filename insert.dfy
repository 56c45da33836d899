/**
 * Insertion: the object's padded box descends from a node to a level-0
 * node, entering the first child that already contains it or else the
 * child whose area grows least, and is appended there as a leaf
 * container. A child that overflows on the way back is replaced by the
 * two halves of its split; an overflowing root gets a new root above it.
 */
module Insertion {
  import opened Geometry
  import opened Nodes
  import opened Split

  /**
   * The padded box of the later iteration, built as origin and size:
   * (minX - b, minY - b) with size (w + 2b, h + 2b). It is the live box
   * grown by `b` on all four sides, as the earlier iteration builds it.
   */
  function ContainerRect(live: Rect, b: int): (p: Rect)
    ensures p == Pad(live, b)
  {
    FromOriginSize(live.x1 - b, live.y1 - b, (live.x2 - live.x1) + 2 * b, (live.y2 - live.y1) + 2 * b)
  }

  /** How much the area of `r` grows when it is enlarged to contain `pad`. */
  function Increase(r: Rect, pad: Rect): int {
    Area(EnlargeToContain(r, pad)) - Area(r)
  }

  /** For a well-formed box the increase is never negative. */
  lemma IncreaseNonNegative(r: Rect, pad: Rect)
    requires WellFormed(r)
    ensures Increase(r, pad) >= 0
  {
    EnlargeAreaGrows(r, pad);
  }

  /** A box that already contains `pad` does not grow. */
  lemma IncreaseZeroWhenContained(r: Rect, pad: Rect)
    requires Contains(r, pad)
    ensures Increase(r, pad) == 0
  {
    EnlargeAbsorbs(r, pad);
  }

  /** `i` is the first child with the least area increase. */
  predicate IsBestFit(cs: seq<Node>, pad: Rect, i: int) {
    0 <= i < |cs| &&
    (forall k :: 0 <= k < |cs| ==> Increase(cs[i].rect, pad) <= Increase(cs[k].rect, pad)) &&
    (forall k :: 0 <= k < i ==> Increase(cs[i].rect, pad) < Increase(cs[k].rect, pad))
  }

  /** `i` is the first child whose box contains `pad`. */
  predicate IsFirstContaining(cs: seq<Node>, pad: Rect, i: int) {
    0 <= i < |cs| && Contains(cs[i].rect, pad) &&
    forall k :: 0 <= k < i ==> !Contains(cs[k].rect, pad)
  }

  /** The child the descent enters: the first containing one, or else the first best fit. */
  ghost predicate IsDescent(cs: seq<Node>, pad: Rect, i: int) {
    if exists k :: 0 <= k < |cs| && Contains(cs[k].rect, pad)
    then IsFirstContaining(cs, pad, i)
    else IsBestFit(cs, pad, i)
  }

  lemma BestFitUnique(cs: seq<Node>, pad: Rect, i: int, j: int)
    requires IsBestFit(cs, pad, i) && IsBestFit(cs, pad, j)
    ensures i == j
  {
    assert Increase(cs[i].rect, pad) == Increase(cs[j].rect, pad);
  }

  lemma FirstContainingUnique(cs: seq<Node>, pad: Rect, i: int, j: int)
    requires IsFirstContaining(cs, pad, i) && IsFirstContaining(cs, pad, j)
    ensures i == j
  {
  }

  /** When a child already contains the box, the descent enters a child that needs no enlargement. */
  lemma DescentPrefersContaining(cs: seq<Node>, pad: Rect, i: int, k: int)
    requires IsDescent(cs, pad, i) && 0 <= k < |cs| && Contains(cs[k].rect, pad)
    ensures Contains(cs[i].rect, pad) && i <= k
  {
  }

  /**
   * The child whose box would grow least to contain `pad`; the first
   * such child on ties.
   */
  method FindBestBB(cs: seq<Node>, pad: Rect) returns (i: int)
    requires |cs| > 0
    ensures IsBestFit(cs, pad, i)
  {
    i := 0;
    var minIncrease := Increase(cs[0].rect, pad);
    for k := 1 to |cs|
      invariant 0 <= i < k && minIncrease == Increase(cs[i].rect, pad)
      invariant forall j :: 0 <= j < k ==> minIncrease <= Increase(cs[j].rect, pad)
      invariant forall j :: 0 <= j < i ==> minIncrease < Increase(cs[j].rect, pad)
    {
      var inc := Increase(cs[k].rect, pad);
      if inc < minIncrease {
        i, minIncrease := k, inc;
      }
    }
  }

  /**
   * The child the descent enters: the first whose box contains `pad`,
   * or when there is none the best fit.
   */
  method ChooseSubtree(cs: seq<Node>, pad: Rect) returns (i: int)
    requires |cs| > 0
    ensures IsDescent(cs, pad, i)
  {
    i := 0;
    while i < |cs| && !Contains(cs[i].rect, pad)
      invariant 0 <= i <= |cs|
      invariant forall k :: 0 <= k < i ==> !Contains(cs[k].rect, pad)
    {
      i := i + 1;
    }
    if i == |cs| {
      i := FindBestBB(cs, pad);
    }
  }

  /** Some child of `n` leads to `leaf` through boxes that contain it. */
  ghost predicate PathBelow(n: Node, leaf: Node) {
    n.Internal? && exists c | c in n.children :: PathTo(c, leaf)
  }


  // ---------------------------------------------------------------------
  // Facts about the three ways insertion edits a child list

  /** Appending the leaf container at level 0. */
  lemma AppendLeafFacts(n: Node, obj: ObjId, pad: Rect, m: nat, live: map<ObjId, Rect>)
    requires n.Internal? && n.level == 0 && Leveled(n) && FanoutBelow(n, m)
    ensures var r := AddChild(n, Leaf(pad, obj));
      Leveled(r) && FanoutBelow(r, m) &&
      Objects(r) == Objects(n) + multiset{obj} &&
      (ChildrenCovered(n) ==> ChildrenCovered(r)) &&
      (Covered(n) && Contains(n.rect, pad) ==> Covered(r)) &&
      (LiveInside(n, live) && obj in live && Contains(pad, live[obj]) ==> LiveInside(r, live)) &&
      PathBelow(r, Leaf(pad, obj))
  {
    var leaf := Leaf(pad, obj);
    var r := AddChild(n, leaf);
    assert r.children == n.children + [leaf];
    ObjectsOfConcat(n.children, [leaf]);
    ObjectsOfSingleton(leaf);
    assert forall x | x in r.children :: x in n.children || x == leaf;
    assert leaf in r.children && PathTo(leaf, leaf);
  }

  /**
   * The child entered by the descent: it keeps its level and children,
   * and its box, possibly enlarged, contains the padded box.
   */
  lemma EnteredFacts(n: Node, i: int, pad: Rect, m: nat, live: map<ObjId, Rect>, child: Node)
    requires n.Internal? && n.level > 0 && Leveled(n) && FanoutBelow(n, m) && 0 <= i < |n.children|
    requires child == n.children[i].(rect := EnlargeToContain(n.children[i].rect, pad))
    ensures child.Internal? && child.level == n.level - 1 && Leveled(child) && Fanout(child, m)
    ensures LiveInside(n, live) ==> LiveInside(child, live)
    ensures Contains(child.rect, pad) && Contains(child.rect, n.children[i].rect)
    ensures ChildrenCovered(n) ==> Covered(child)
    ensures Covered(n) && Contains(n.rect, pad) ==> Contains(n.rect, child.rect)
    ensures Objects(child) == Objects(n.children[i])
  {
    var c := n.children[i];
    assert c in n.children;
    assert Fanout(c, m);
    if Covered(n) && Contains(n.rect, pad) {
      EnlargeIsLeast(c.rect, pad, n.rect);
    }
    if LiveInside(n, live) {
      assert LiveInside(c, live);
    }
    if ChildrenCovered(n) {
      assert Covered(c);
      forall g | g in child.children ensures Contains(child.rect, g.rect) && Covered(g) {
        ContainsTransitive(child.rect, c.rect, g.rect);
      }
    }
  }

  lemma MultisetCancel(a: multiset<ObjId>, b: multiset<ObjId>, c: multiset<ObjId>)
    requires a + b == c + b
    ensures a == c
  {
    forall x ensures a[x] == c[x] {
      assert (a + b)[x] == (c + b)[x];
    }
  }

  /** Replacing the entered child by its updated version, when it did not overflow. */
  lemma ReplaceFacts(n: Node, i: int, pad: Rect, obj: ObjId, m: nat, child: Node, c': Node)
    requires n.Internal? && n.level > 0 && Leveled(n) && FanoutBelow(n, m) && 0 <= i < |n.children|
    requires child.Internal? && child.level == n.level - 1 && Objects(child) == Objects(n.children[i])
    requires c'.Internal? && c'.level == child.level && c'.rect == child.rect && Leveled(c')
    requires |c'.children| <= m && FanoutBelow(c', m)
    requires Objects(c') == Objects(child) + multiset{obj}
    requires PathBelow(c', Leaf(pad, obj)) && Contains(c'.rect, pad)
    ensures var r := n.(children := n.children[i := c']);
      Leveled(r) && FanoutBelow(r, m) &&
      Objects(r) == Objects(n) + multiset{obj} &&
      PathBelow(r, Leaf(pad, obj))
  {
    var cs := n.children;
    var r := n.(children := cs[i := c']);
    assert forall x | x in r.children :: x in cs || x == c';
    ObjectsOfUpdate(cs, i, c');
    MultisetCancel(ObjectsOf(cs[i := c']), Objects(cs[i]), ObjectsOf(cs) + multiset{obj});
    assert r.children[i] == c';
    assert c' in r.children && PathTo(c', Leaf(pad, obj));
  }

  /** As `ReplaceFacts`, for the covering and live-box invariants. */
  lemma ReplaceCoverFacts(n: Node, i: int, live: map<ObjId, Rect>, c': Node)
    requires n.Internal? && 0 <= i < |n.children|
    ensures var r := n.(children := n.children[i := c']);
      (ChildrenCovered(n) && Covered(c') ==> ChildrenCovered(r)) &&
      (Covered(n) && Contains(n.rect, c'.rect) && Covered(c') ==> Covered(r)) &&
      (LiveInside(n, live) && LiveInside(c', live) ==> LiveInside(r, live))
  {
    var cs := n.children;
    assert forall x | x in cs[i := c'] :: x in cs || x == c';
  }

  /** A half of a split node `c`: well-formed, covered and inside the live boxes when `c` is. */
  lemma HalfFacts(m: nat, live: map<ObjId, Rect>, c: Node, h: Node)
    requires c.Internal? && Leveled(c) && FanoutBelow(c, m)
    requires h.Internal? && h.level == c.level && 1 <= |h.children| <= m
    requires h.rect == UnionOf(h.children) && multiset(h.children) <= multiset(c.children)
    ensures Leveled(h) && Fanout(h, m)
    ensures ChildrenCovered(c) ==> Covered(h)
    ensures LiveInside(c, live) ==> LiveInside(h, live)
  {
    assert forall x | x in h.children :: x in multiset(h.children);
    assert forall x | x in h.children :: x in c.children;
  }

  /** A half of a covered node inside `outer` is inside `outer` too. */
  lemma HalfInside(outer: Rect, c: Node, h: Node)
    requires c.Internal? && Covered(c) && Contains(outer, c.rect)
    requires h.Internal? && |h.children| >= 1 && h.rect == UnionOf(h.children)
    requires multiset(h.children) <= multiset(c.children)
    ensures Contains(outer, h.rect)
  {
    assert forall x | x in h.children :: x in multiset(h.children);
    forall x | x in h.children ensures Contains(outer, x.rect) {
      assert x in c.children;
      ContainsTransitive(outer, c.rect, x.rect);
    }
    UnionOfIsLeast(h.children, outer);
  }

  /** Both halves of a split of an overflowing node, by `HalfFacts`. */
  lemma HalvesFacts(m: nat, live: map<ObjId, Rect>, c: Node, h1: Node, h2: Node)
    requires c.Internal? && Leveled(c) && FanoutBelow(c, m) && |c.children| <= m + 1
    requires SplitOf(c, h1, h2)
    ensures Leveled(h1) && Fanout(h1, m) && Leveled(h2) && Fanout(h2, m)
    ensures ChildrenCovered(c) ==> Covered(h1) && Covered(h2)
    ensures LiveInside(c, live) ==> LiveInside(h1, live) && LiveInside(h2, live)
  {
    SplitHalvesSmaller(c, h1, h2);
    HalfFacts(m, live, c, h1);
    HalfFacts(m, live, c, h2);
  }

  /** The two halves of a split hold exactly the objects of the node split. */
  lemma HalvesObjects(c: Node, h1: Node, h2: Node)
    requires c.Internal? && h1.Internal? && h2.Internal?
    requires multiset(h1.children) + multiset(h2.children) == multiset(c.children)
    ensures ObjectsOf([h1, h2]) == Objects(c)
  {
    assert [h1, h2] == [h1] + [h2];
    ObjectsOfConcat([h1], [h2]);
    ObjectsOfSingleton(h1);
    ObjectsOfSingleton(h2);
    ObjectsOfConcat(h1.children, h2.children);
    ObjectsOfPermutation(h1.children + h2.children, c.children);
  }

  /** A path below a split node continues through one of the halves. */
  lemma HalvesPath(c: Node, h1: Node, h2: Node, leaf: Node)
    requires c.Internal? && h1.Internal? && h2.Internal?
    requires |h1.children| > 0 && |h2.children| > 0
    requires h1.rect == UnionOf(h1.children) && h2.rect == UnionOf(h2.children)
    requires multiset(h1.children) + multiset(h2.children) == multiset(c.children)
    requires PathBelow(c, leaf)
    ensures PathTo(h1, leaf) || PathTo(h2, leaf)
  {
    var x :| x in c.children && PathTo(x, leaf);
    assert x in multiset(c.children);
    PathToContains(x, leaf);
    if x in multiset(h1.children) {
      assert x in h1.children;
      ContainsTransitive(h1.rect, x.rect, leaf.rect);
    } else {
      assert x in h2.children;
      ContainsTransitive(h2.rect, x.rect, leaf.rect);
    }
  }

  /** Replacing an overflowing child by the two halves of its split: levels and fan-out. */
  lemma SplitFacts(n: Node, i: int, m: nat, live: map<ObjId, Rect>, c': Node, h1: Node, h2: Node)
    requires n.Internal? && n.level > 0 && Leveled(n) && FanoutBelow(n, m) && 0 <= i < |n.children|
    requires c'.Internal? && c'.level == n.level - 1 && Leveled(c') && FanoutBelow(c', m)
    requires |c'.children| <= m + 1
    requires SplitOf(c', h1, h2)
    ensures var r := n.(children := n.children[..i] + n.children[i + 1..] + [h1, h2]);
      Leveled(r) && FanoutBelow(r, m)
  {
    var below := n.level - 1;
    HalvesFacts(m, live, c', h1, h2);
    SplitListAll(n.children, i, h1, h2, (x: Node) => x.Level() == below && Leveled(x) && Fanout(x, m));
  }

  /** Replacing an overflowing child by the two halves of its split: covering and live boxes. */
  lemma SplitCoverFacts(n: Node, i: int, m: nat, live: map<ObjId, Rect>, c': Node, h1: Node, h2: Node)
    requires n.Internal? && n.level > 0 && 0 <= i < |n.children|
    requires c'.Internal? && c'.level == n.level - 1 && Leveled(c') && FanoutBelow(c', m)
    requires |c'.children| <= m + 1
    requires SplitOf(c', h1, h2)
    ensures var r := n.(children := n.children[..i] + n.children[i + 1..] + [h1, h2]);
      (ChildrenCovered(n) && Covered(c') ==> ChildrenCovered(r)) &&
      (Covered(n) && Covered(c') && Contains(n.rect, c'.rect) ==> Covered(r)) &&
      (LiveInside(n, live) && LiveInside(c', live) ==> LiveInside(r, live))
  {
    var cs, box := n.children, n.rect;
    HalvesFacts(m, live, c', h1, h2);
    if ChildrenCovered(n) && Covered(c') {
      SplitListCovered(cs, i, h1, h2);
    }
    if Covered(n) && Covered(c') && Contains(box, c'.rect) {
      HalfInside(box, c', h1);
      HalfInside(box, c', h2);
      SplitListInside(box, cs, i, h1, h2);
    }
    if LiveInside(n, live) && LiveInside(c', live) {
      SplitListLive(cs, i, h1, h2, live);
    }
  }

  lemma SplitListCovered(cs: seq<Node>, i: int, h1: Node, h2: Node)
    requires 0 <= i < |cs| && (forall x | x in cs :: Covered(x)) && Covered(h1) && Covered(h2)
    ensures forall x | x in cs[..i] + cs[i + 1..] + [h1, h2] :: Covered(x)
  {
    SplitListAll(cs, i, h1, h2, (x: Node) => Covered(x));
  }

  lemma SplitListInside(box: Rect, cs: seq<Node>, i: int, h1: Node, h2: Node)
    requires 0 <= i < |cs| && (forall x | x in cs :: Contains(box, x.rect) && Covered(x))
    requires Contains(box, h1.rect) && Covered(h1) && Contains(box, h2.rect) && Covered(h2)
    ensures forall x | x in cs[..i] + cs[i + 1..] + [h1, h2] :: Contains(box, x.rect) && Covered(x)
  {
    SplitListAll(cs, i, h1, h2, (x: Node) => Contains(box, x.rect) && Covered(x));
  }

  lemma SplitListLive(cs: seq<Node>, i: int, h1: Node, h2: Node, live: map<ObjId, Rect>)
    requires 0 <= i < |cs| && (forall x | x in cs :: LiveInside(x, live))
    requires LiveInside(h1, live) && LiveInside(h2, live)
    ensures forall x | x in cs[..i] + cs[i + 1..] + [h1, h2] :: LiveInside(x, live)
  {
    SplitListAll(cs, i, h1, h2, (x: Node) => LiveInside(x, live));
  }

  /** A property of every node of `cs` and of both halves holds of every node after the split. */
  lemma SplitListAll(cs: seq<Node>, i: int, h1: Node, h2: Node, p: Node -> bool)
    requires 0 <= i < |cs|
    requires forall x | x in cs :: p(x)
    requires p(h1) && p(h2)
    ensures forall x | x in cs[..i] + cs[i + 1..] + [h1, h2] :: p(x)
  {
    var rest := cs[..i] + cs[i + 1..];
    assert forall x | x in rest :: x in cs;
    assert forall x | x in rest + [h1, h2] :: x in rest || x == h1 || x == h2;
  }

  /** Replacing an overflowing child by the two halves of its split: objects and the new leaf. */
  lemma SplitObjectsFacts(n: Node, i: int, pad: Rect, obj: ObjId, c': Node, h1: Node, h2: Node)
    requires n.Internal? && 0 <= i < |n.children|
    requires c'.Internal? && Objects(c') == Objects(n.children[i]) + multiset{obj}
    requires PathBelow(c', Leaf(pad, obj))
    requires h1.Internal? && h2.Internal? && |h1.children| >= 1 && |h2.children| >= 1
    requires multiset(h1.children) + multiset(h2.children) == multiset(c'.children)
    requires h1.rect == UnionOf(h1.children) && h2.rect == UnionOf(h2.children)
    ensures var r := n.(children := n.children[..i] + n.children[i + 1..] + [h1, h2]);
      Objects(r) == Objects(n) + multiset{obj} &&
      PathBelow(r, Leaf(pad, obj))
  {
    var cs := n.children;
    var rest := cs[..i] + cs[i + 1..];
    ObjectsOfAt(cs, i);
    ObjectsOfConcat(cs[..i], cs[i + 1..]);
    ObjectsOfConcat(rest, [h1, h2]);
    HalvesObjects(c', h1, h2);
    HalvesPath(c', h1, h2, Leaf(pad, obj));
    assert h1 in rest + [h1, h2] && h2 in rest + [h1, h2];
  }

  /**
   * `h1` and `h2` are the halves the linear split makes of `c`: they
   * partition its children into two non-empty, union-boxed nodes.
   */
  ghost predicate SplitOf(c: Node, h1: Node, h2: Node) {
    c.Internal? && h1.Internal? && h2.Internal? && h1.level == c.level && h2.level == c.level &&
    |h1.children| >= 1 && |h2.children| >= 1 &&
    multiset(h1.children) + multiset(h2.children) == multiset(c.children) &&
    h1.rect == UnionOf(h1.children) && h2.rect == UnionOf(h2.children) &&
    LinearHalves(c, h1, h2)
  }

  /**
   * What inserting `obj` with padded box `pad` below `n` guarantees of
   * the result `r`, whatever path it took.
   */
  ghost predicate Inserted(n: Node, r: Node, obj: ObjId, pad: Rect, m: nat, live: map<ObjId, Rect>) {
    r.Internal? && n.Internal? && r.level == n.level && r.rect == n.rect &&
    Leveled(r) && FanoutBelow(r, m) &&
    |n.children| <= |r.children| <= |n.children| + 1 &&
    Objects(r) == Objects(n) + multiset{obj} &&
    PathBelow(r, Leaf(pad, obj)) &&
    (ChildrenCovered(n) ==> ChildrenCovered(r)) &&
    (Covered(n) && Contains(n.rect, pad) ==> Covered(r)) &&
    (LiveInside(n, live) && obj in live && Contains(pad, live[obj]) ==> LiveInside(r, live))
  }

  /** The descent entered child `i`, which did not overflow and was replaced by `c'`. */
  lemma ReplaceBranch(n: Node, i: int, obj: ObjId, pad: Rect, m: nat, live: map<ObjId, Rect>, child: Node, c': Node)
    requires n.Internal? && n.level > 0 && Leveled(n) && FanoutBelow(n, m) && 0 <= i < |n.children|
    requires child == n.children[i].(rect := EnlargeToContain(n.children[i].rect, pad))
    requires Inserted(child, c', obj, pad, m, live) && |c'.children| <= m
    ensures Inserted(n, n.(children := n.children[i := c']), obj, pad, m, live)
  {
    EnteredFacts(n, i, pad, m, live, child);
    ReplaceFacts(n, i, pad, obj, m, child, c');
    ReplaceCoverFacts(n, i, live, c');
    assert n.children[i] in n.children;
  }

  /** The descent entered child `i`, which overflowed as `c'` and was split into `h1` and `h2`. */
  lemma SplitBranch(n: Node, i: int, obj: ObjId, pad: Rect, m: nat, live: map<ObjId, Rect>,
                    child: Node, c': Node, h1: Node, h2: Node)
    requires n.Internal? && n.level > 0 && Leveled(n) && FanoutBelow(n, m) && 0 <= i < |n.children|
    requires child == n.children[i].(rect := EnlargeToContain(n.children[i].rect, pad))
    requires Inserted(child, c', obj, pad, m, live) && |child.children| <= m
    requires SplitOf(c', h1, h2)
    ensures Inserted(n, n.(children := n.children[..i] + n.children[i + 1..] + [h1, h2]), obj, pad, m, live)
  {
    EnteredFacts(n, i, pad, m, live, child);
    assert n.children[i] in n.children;
    SplitFacts(n, i, m, live, c', h1, h2);
    SplitCoverFacts(n, i, m, live, c', h1, h2);
    SplitObjectsFacts(n, i, pad, obj, c', h1, h2);
  }

  /**
   * `rc` is `cs` with only position `i` changed, to a node whose box is
   * that of `cs[i]` enlarged to contain `pad`.
   */
  predicate ReplacedAt(cs: seq<Node>, rc: seq<Node>, i: int, pad: Rect) {
    0 <= i < |cs| && |rc| == |cs| &&
    rc[..i] == cs[..i] && rc[i + 1..] == cs[i + 1..] &&
    rc[i].rect == EnlargeToContain(cs[i].rect, pad)
  }

  /**
   * `rc` is `cs` with position `i` removed and two nodes appended: the
   * children before and after `i` keep their order.
   */
  predicate SplitAt(cs: seq<Node>, rc: seq<Node>, i: int) {
    0 <= i < |cs| && |rc| == |cs| + 1 &&
    rc[..i] == cs[..i] && rc[i..|cs| - 1] == cs[i + 1..]
  }

  lemma SplitSlices(cs: seq<Node>, i: int, h1: Node, h2: Node)
    requires 0 <= i < |cs|
    ensures SplitAt(cs, cs[..i] + cs[i + 1..] + [h1, h2], i)
  {
    var rc := cs[..i] + cs[i + 1..] + [h1, h2];
    assert rc[..i] == cs[..i];
    assert rc[i..|cs| - 1] == cs[i + 1..];
  }

  /** Appending two children one after the other appends both. */
  lemma AddTwoChildren(n: Node, h1: Node, h2: Node)
    requires n.Internal?
    ensures AddChild(AddChild(n, h1), h2) == n.(children := n.children + [h1, h2])
  {
    assert n.children + [h1] + [h2] == n.children + [h1, h2];
  }

  lemma ReplaceSlices(cs: seq<Node>, i: int, c: Node, pad: Rect)
    requires 0 <= i < |cs| && c.rect == EnlargeToContain(cs[i].rect, pad)
    ensures ReplacedAt(cs, cs[i := c], i, pad)
  {
  }

  // ---------------------------------------------------------------------
  // Insertion

  /**
   * Inserts the object `obj` with padded box `pad` below the internal
   * node `n` and returns the updated node. `n` keeps its level and its
   * box; only the child it descends into and levels below change.
   * `chosen` is the position of that child and `grown` that child after
   * the insertion below it, before any split (both ghost: the source does
   * not expose them). The child is split exactly when it overflows.
   */
  method InsertHelper(n: Node, obj: ObjId, pad: Rect, m: nat, ghost live: map<ObjId, Rect>)
    returns (r: Node, ghost chosen: int, ghost grown: Node)
    requires n.Internal? && Leveled(n) && FanoutBelow(n, m) && m >= 1
    ensures Inserted(n, r, obj, pad, m, live)
    ensures n.level == 0 ==> r.children == n.children + [Leaf(pad, obj)]
    ensures n.level > 0 ==> IsDescent(n.children, pad, chosen)
    ensures n.level > 0 ==>
      Inserted(n.children[chosen].(rect := EnlargeToContain(n.children[chosen].rect, pad)), grown, obj, pad, m, live)
    ensures n.level > 0 && |grown.children| > m ==>
      SplitAt(n.children, r.children, chosen) &&
      SplitOf(grown, r.children[|r.children| - 2], r.children[|r.children| - 1])
    ensures n.level > 0 && |grown.children| <= m ==>
      ReplacedAt(n.children, r.children, chosen, pad) && r.children[chosen] == grown
    decreases n.level
  {
    if n.level == 0 {
      AppendLeafFacts(n, obj, pad, m, live);
      r := AddChild(n, Leaf(pad, obj));
      chosen, grown := 0, r;
      return;
    }
    var cs := n.children;
    var i := ChooseSubtree(cs, pad);
    chosen := i;
    // The entered child's box grows only when no child contains the padded box.
    var child := if Contains(cs[i].rect, pad) then cs[i] else cs[i].(rect := EnlargeToContain(cs[i].rect, pad));
    EnlargeAbsorbs(cs[i].rect, pad);
    EnteredFacts(n, i, pad, m, live, child);
    var c', _, _ := InsertHelper(child, obj, pad, m, live);
    grown := c';
    r := Reattach(n, i, obj, pad, m, live, child, c');
  }

  /**
   * Puts the updated child `c'` back at position `i` of `n`, or, when it
   * overflows, splits it and puts the two halves at the end instead.
   */
  method Reattach(n: Node, i: int, obj: ObjId, pad: Rect, m: nat, ghost live: map<ObjId, Rect>, child: Node, c': Node)
    returns (r: Node)
    requires n.Internal? && n.level > 0 && Leveled(n) && FanoutBelow(n, m) && 0 <= i < |n.children| && m >= 1
    requires child == n.children[i].(rect := EnlargeToContain(n.children[i].rect, pad))
    requires Inserted(child, c', obj, pad, m, live) && |child.children| <= m
    ensures Inserted(n, r, obj, pad, m, live)
    ensures |c'.children| > m ==>
      SplitAt(n.children, r.children, i) &&
      SplitOf(c', r.children[|r.children| - 2], r.children[|r.children| - 1])
    ensures |c'.children| <= m ==> ReplacedAt(n.children, r.children, i, pad) && r.children[i] == c'
  {
    var cs := n.children;
    if |c'.children| > m {
      var h1, h2, _, _ := LinearSplit(c');
      SplitBranch(n, i, obj, pad, m, live, child, c', h1, h2);
      r := AddChild(AddChild(n.(children := cs[..i] + cs[i + 1..]), h1), h2);
      SplitSlices(cs, i, h1, h2);
      AddTwoChildren(n.(children := cs[..i] + cs[i + 1..]), h1, h2);
    } else {
      ReplaceBranch(n, i, obj, pad, m, live, child, c');
      r := n.(children := cs[i := c']);
      ReplaceSlices(cs, i, c', pad);
    }
  }

  /** The new root above a split root: two halves, one level higher, with the old root's box. */
  lemma GrownRootFacts(r: Node, m: nat, h1: Node, h2: Node)
    requires r.Internal? && Leveled(r) && FanoutBelow(r, m) && |r.children| <= m + 1
    requires SplitOf(r, h1, h2)
    ensures var g := AddChild(AddChild(Internal(r.level + 1, r.rect, []), h1), h2);
      g.children == [h1, h2] && Leveled(g) && FanoutBelow(g, m) && Objects(g) == Objects(r)
  {
    var g := AddChild(AddChild(Internal(r.level + 1, r.rect, []), h1), h2);
    AddTwoChildren(Internal(r.level + 1, r.rect, []), h1, h2);
    assert [] + [h1, h2] == [h1, h2];
    assert g == Internal(r.level + 1, r.rect, [h1, h2]);
    HalvesFacts(m, map[], r, h1, h2);
    PairLevels(r.level + 1, r.rect, m, h1, h2);
    HalvesObjects(r, h1, h2);
  }

  /** A node over two well-formed nodes one level below it. */
  lemma PairLevels(level: int, rect: Rect, m: nat, h1: Node, h2: Node)
    requires level >= 1 && h1.Level() == level - 1 && h2.Level() == level - 1
    requires Leveled(h1) && Leveled(h2) && Fanout(h1, m) && Fanout(h2, m)
    ensures Leveled(Internal(level, rect, [h1, h2])) && FanoutBelow(Internal(level, rect, [h1, h2]), m)
  {
    assert forall x | x in [h1, h2] :: x == h1 || x == h2;
  }

  /** The new root above a split root keeps the path to the new leaf, the covering and the live boxes. */
  lemma GrownRootCoverFacts(r: Node, pad: Rect, obj: ObjId, m: nat, live: map<ObjId, Rect>, h1: Node, h2: Node)
    requires r.Internal? && Leveled(r) && FanoutBelow(r, m) && |r.children| <= m + 1
    requires PathBelow(r, Leaf(pad, obj))
    requires SplitOf(r, h1, h2)
    ensures var g := Internal(r.level + 1, r.rect, [h1, h2]);
      PathBelow(g, Leaf(pad, obj)) &&
      (ChildrenCovered(r) ==> ChildrenCovered(g)) &&
      (LiveInside(r, live) ==> LiveInside(g, live))
  {
    PairMembers(h1, h2);
    HalvesFacts(m, live, r, h1, h2);
    HalvesPath(r, h1, h2, Leaf(pad, obj));
  }

  lemma PairMembers(h1: Node, h2: Node)
    ensures h1 in [h1, h2] && h2 in [h1, h2]
    ensures forall x | x in [h1, h2] :: x == h1 || x == h2
  {
  }

  /**
   * Inserts below the root; a root that overflows is split and a new
   * root one level higher, with the old root's box, holds the two halves.
   */
  method InsertRoot(root: Node, obj: ObjId, pad: Rect, m: nat, ghost live: map<ObjId, Rect>)
    returns (newRoot: Node, ghost grown: Node)
    requires root.Internal? && Leveled(root) && Fanout(root, m) && m >= 2
    ensures newRoot.Internal? && newRoot.rect == root.rect
    ensures Leveled(newRoot) && Fanout(newRoot, m)
    ensures Objects(newRoot) == Objects(root) + multiset{obj}
    ensures PathBelow(newRoot, Leaf(pad, obj))
    ensures ChildrenCovered(root) ==> ChildrenCovered(newRoot)
    ensures LiveInside(root, live) && obj in live && Contains(pad, live[obj]) ==> LiveInside(newRoot, live)
    ensures newRoot.level == root.level || newRoot.level == root.level + 1
    ensures newRoot.level == root.level + 1 ==>
      |newRoot.children| == 2 && forall c | c in newRoot.children :: c.Level() == root.level
    ensures Inserted(root, grown, obj, pad, m, live)
    ensures |grown.children| <= m ==> newRoot == grown
    ensures |grown.children| > m ==>
      newRoot.level == root.level + 1 && |newRoot.children| == 2 &&
      SplitOf(grown, newRoot.children[0], newRoot.children[1])
  {
    var r, _, _ := InsertHelper(root, obj, pad, m, live);
    grown := r;
    if |r.children| > m {
      var h1, h2, _, _ := LinearSplit(r);
      GrownRootFacts(r, m, h1, h2);
      GrownRootCoverFacts(r, pad, obj, m, live, h1, h2);
      newRoot := AddChild(AddChild(Internal(r.level + 1, r.rect, []), h1), h2);
      AddTwoChildren(Internal(r.level + 1, r.rect, []), h1, h2);
    } else {
      newRoot := r;
    }
  }
}
