/**
 * Range search. The current version searches a circle and the draft a
 * rectangle; both visit the children of a level-0 node and report those
 * whose object's live box meets the query, and above level 0 descend into
 * the children whose box meets it.
 */
module Search {
  import opened Geometry
  import opened Nodes

  /** A search area: a circle (current version) or a rectangle (draft). */
  datatype Query = Circle(cx: int, cy: int, radius: nat) | Area(area: Rect)

  /** The test applied to an object's live box at level 0. */
  predicate HitsObject(q: Query, box: Rect) {
    match q
    case Circle(cx, cy, radius) => IntersectsCircle(box, cx, cy, radius)
    case Area(area) => Intersects(area, box)
  }

  /** The test deciding whether to descend into a child's subtree. */
  predicate HitsNode(q: Query, box: Rect) {
    match q
    case Circle(cx, cy, radius) => IntersectsCircle(box, cx, cy, radius)
    case Area(area) => Contains(area, box) || Intersects(area, box)
  }

  /** A subtree whose box contains a box the query hits is entered. */
  lemma HitsMonotone(q: Query, small: Rect, big: Rect)
    requires WellFormed(small) && Contains(big, small) && HitsObject(q, small)
    ensures HitsNode(q, big)
  {
    match q
    case Circle(cx, cy, radius) =>
      IntersectsCircleMonotone(small, big, cx, cy, radius);
    case Area(area) =>
      IntersectsMonotone(area, small, big);
  }

  // ---------------------------------------------------------------------
  // What the search reports

  /**
   * The objects reported when the search is started at `n`, in the order
   * they are reported.
   */
  function Matches(n: Node, q: Query, live: map<ObjId, Rect>): seq<ObjId>
    decreases n, 1
  {
    match n
    case Leaf(_, _) => []
    case Internal(level, _, cs) =>
      if level == 0 then LeafMatches(cs, q, live) else SubtreeMatches(cs, q, live)
  }

  /** The contained objects of the leaf containers `cs` whose live box meets `q`. */
  function LeafMatches(cs: seq<Node>, q: Query, live: map<ObjId, Rect>): seq<ObjId> {
    if cs == [] then []
    else
      var c := cs[|cs| - 1];
      LeafMatches(cs[..|cs| - 1], q, live) +
      (if c.Leaf? && c.obj in live && HitsObject(q, live[c.obj]) then [c.obj] else [])
  }

  /** The matches below each child of `cs` whose box meets `q`, child by child. */
  function SubtreeMatches(cs: seq<Node>, q: Query, live: map<ObjId, Rect>): seq<ObjId>
    decreases cs, 0
  {
    if cs == [] then []
    else
      var c := cs[|cs| - 1];
      SubtreeMatches(cs[..|cs| - 1], q, live) + (if HitsNode(q, c.rect) then Matches(c, q, live) else [])
  }

  /**
   * Appends to `res` the objects found below `n`: at level 0 each child
   * whose object's live box meets `q`, above level 0 the results of the
   * children whose box meets `q`.
   */
  method FindIntersections(n: Node, q: Query, live: map<ObjId, Rect>, res: seq<ObjId>)
    returns (res': seq<ObjId>)
    ensures res' == res + Matches(n, q, live)
    decreases n
  {
    res' := res;
    if n.Internal? && n.level == 0 {
      res' := ReportLeaves(n.children, q, live, res);
    } else if n.Internal? {
      var cs := n.children;
      for k := 0 to |cs|
        invariant res' == res + SubtreeMatches(cs[..k], q, live)
      {
        var c := cs[k];
        assert cs[..k + 1][..k] == cs[..k];
        if HitsNode(q, c.rect) {
          res' := FindIntersections(c, q, live, res');
        }
      }
      assert cs[..|cs|] == cs;
    }
  }

  /** The level-0 loop: appends each leaf container's object whose live box meets `q`. */
  method ReportLeaves(cs: seq<Node>, q: Query, live: map<ObjId, Rect>, res: seq<ObjId>)
    returns (res': seq<ObjId>)
    ensures res' == res + LeafMatches(cs, q, live)
  {
    res' := res;
    for k := 0 to |cs|
      invariant res' == res + LeafMatches(cs[..k], q, live)
    {
      var c := cs[k];
      assert cs[..k + 1][..k] == cs[..k];
      if c.Leaf? && c.obj in live && HitsObject(q, live[c.obj]) {
        res' := res' + [c.obj];
      }
    }
    assert cs[..|cs|] == cs;
  }

  /** The objects below the root `root` that meet `q`, as `search` returns them. */
  method SearchFrom(root: Node, q: Query, live: map<ObjId, Rect>) returns (res: seq<ObjId>)
    ensures res == Matches(root, q, live)
  {
    res := FindIntersections(root, q, live, []);
  }

  // ---------------------------------------------------------------------
  // Reference: every stored object, filtered

  /** The objects below `n` in pre-order. */
  function InOrder(n: Node): seq<ObjId>
    decreases n, 1
  {
    match n
    case Leaf(_, o) => [o]
    case Internal(_, _, cs) => InOrderOf(cs)
  }

  function InOrderOf(cs: seq<Node>): seq<ObjId>
    decreases cs, 0
  {
    if cs == [] then [] else InOrderOf(cs[..|cs| - 1]) + InOrder(cs[|cs| - 1])
  }

  /** The objects of `s` whose live box meets `q`, in order. */
  function Hitting(s: seq<ObjId>, q: Query, live: map<ObjId, Rect>): seq<ObjId> {
    if s == [] then []
    else
      var o := s[|s| - 1];
      Hitting(s[..|s| - 1], q, live) + (if o in live && HitsObject(q, live[o]) then [o] else [])
  }

  lemma {:induction false} HittingConcat(a: seq<ObjId>, b: seq<ObjId>, q: Query, live: map<ObjId, Rect>)
    ensures Hitting(a + b, q, live) == Hitting(a, q, live) + Hitting(b, q, live)
    decreases |b|
  {
    if b == [] {
      assert a + b == a;
    } else {
      var b' := b[..|b| - 1];
      assert (a + b)[..|a + b| - 1] == a + b';
      assert (a + b)[|a + b| - 1] == b[|b| - 1];
      HittingConcat(a, b', q, live);
    }
  }

  /** Every reported object is an element of the input whose live box meets `q`. */
  lemma {:induction false} HittingSound(s: seq<ObjId>, q: Query, live: map<ObjId, Rect>)
    ensures multiset(Hitting(s, q, live)) <= multiset(s)
    ensures forall o | o in Hitting(s, q, live) :: o in live && HitsObject(q, live[o])
    decreases |s|
  {
    if s != [] {
      var s', o := s[..|s| - 1], s[|s| - 1];
      HittingSound(s', q, live);
      assert s == s' + [o];
      var a, b := Hitting(s', q, live), if o in live && HitsObject(q, live[o]) then [o] else [];
      assert Hitting(s, q, live) == a + b;
      assert multiset(a + b) == multiset(a) + multiset(b);
      assert forall x | x in a + b :: x in a || x in b;
    }
  }

  /** If no element's live box meets `q`, nothing is reported. */
  lemma {:induction false} HittingNone(s: seq<ObjId>, q: Query, live: map<ObjId, Rect>)
    requires forall o | o in s && o in live :: !HitsObject(q, live[o])
    ensures Hitting(s, q, live) == []
    decreases |s|
  {
    if s != [] {
      var s' := s[..|s| - 1];
      assert forall o | o in s' :: o in s;
      HittingNone(s', q, live);
    }
  }

  lemma {:induction false} InOrderObjects(n: Node)
    ensures multiset(InOrder(n)) == Objects(n)
    decreases n, 1
  {
    if n.Internal? {
      InOrderOfObjects(n.children);
    }
  }

  lemma {:induction false} InOrderOfObjects(cs: seq<Node>)
    ensures multiset(InOrderOf(cs)) == ObjectsOf(cs)
    decreases cs, 0
  {
    if cs != [] {
      InOrderOfObjects(cs[..|cs| - 1]);
      InOrderObjects(cs[|cs| - 1]);
    }
  }

  // ---------------------------------------------------------------------
  // The search is exact

  /** At level 0 the search reports exactly the hitting objects of the leaf containers. */
  lemma {:induction false} LeafMatchesExact(cs: seq<Node>, q: Query, live: map<ObjId, Rect>)
    requires forall c | c in cs :: c.Leaf?
    ensures LeafMatches(cs, q, live) == Hitting(InOrderOf(cs), q, live)
    decreases |cs|
  {
    if cs != [] {
      var cs' := cs[..|cs| - 1];
      var c := cs[|cs| - 1];
      assert forall x | x in cs' :: x in cs;
      assert c in cs;
      LeafMatchesExact(cs', q, live);
      HittingConcat(InOrderOf(cs'), [c.obj], q, live);
      assert [c.obj][..0] == [];
    }
  }

  /** The well-formedness the search relies on: boxes cover their subtrees and live boxes are well formed. */
  predicate Searchable(n: Node, live: map<ObjId, Rect>) {
    Leveled(n) && ChildrenCovered(n) && LiveInside(n, live) &&
    forall o | o in live :: WellFormed(live[o])
  }

  /** A child pruned by the search holds no object that meets `q`. */
  lemma PrunedHoldsNone(c: Node, q: Query, live: map<ObjId, Rect>)
    requires Covered(c) && LiveInside(c, live) && (forall o | o in live :: WellFormed(live[o]))
    requires !HitsNode(q, c.rect)
    ensures Hitting(InOrder(c), q, live) == []
  {
    InOrderObjects(c);
    forall o | o in InOrder(c) && o in live ensures !HitsObject(q, live[o]) {
      assert o in multiset(InOrder(c));
      CoveredLiveInside(c, live, o);
      if HitsObject(q, live[o]) {
        HitsMonotone(q, live[o], c.rect);
      }
    }
    HittingNone(InOrder(c), q, live);
  }

  /**
   * In a searchable tree the pruned descent loses nothing: the search
   * reports exactly the stored objects whose live box meets `q`, in pre-order.
   */
  lemma {:induction false} MatchesExact(n: Node, q: Query, live: map<ObjId, Rect>)
    requires n.Internal? && Searchable(n, live)
    ensures Matches(n, q, live) == Hitting(InOrder(n), q, live)
    decreases n, 1
  {
    if n.level == 0 {
      forall c | c in n.children ensures c.Leaf? {
        assert c.Level() == -1 && Leveled(c);
      }
      LeafMatchesExact(n.children, q, live);
    } else {
      SubtreeMatchesExact(n.children, q, live);
    }
  }

  lemma {:induction false} SubtreeMatchesExact(cs: seq<Node>, q: Query, live: map<ObjId, Rect>)
    requires forall c | c in cs :: c.Internal? && Leveled(c) && Covered(c) && LiveInside(c, live)
    requires forall o | o in live :: WellFormed(live[o])
    ensures SubtreeMatches(cs, q, live) == Hitting(InOrderOf(cs), q, live)
    decreases cs, 0
  {
    if cs != [] {
      var cs' := cs[..|cs| - 1];
      var c := cs[|cs| - 1];
      assert forall x | x in cs' :: x in cs;
      assert c in cs;
      SubtreeMatchesExact(cs', q, live);
      HittingConcat(InOrderOf(cs'), InOrder(c), q, live);
      if HitsNode(q, c.rect) {
        MatchesExact(c, q, live);
      } else {
        PrunedHoldsNone(c, q, live);
      }
    }
  }

  /** Soundness on any tree: every reported object is stored below `n` and its live box meets `q`. */
  lemma {:induction false} MatchesSound(n: Node, q: Query, live: map<ObjId, Rect>)
    ensures multiset(Matches(n, q, live)) <= Objects(n)
    ensures forall o | o in Matches(n, q, live) :: o in live && HitsObject(q, live[o])
    decreases n, 1
  {
    if n.Internal? {
      if n.level == 0 {
        LeafMatchesSound(n.children, q, live);
      } else {
        SubtreeMatchesSound(n.children, q, live);
      }
    }
  }

  lemma {:induction false} LeafMatchesSound(cs: seq<Node>, q: Query, live: map<ObjId, Rect>)
    ensures multiset(LeafMatches(cs, q, live)) <= ObjectsOf(cs)
    ensures forall o | o in LeafMatches(cs, q, live) :: o in live && HitsObject(q, live[o])
    decreases |cs|
  {
    if cs != [] {
      var front, c := cs[..|cs| - 1], cs[|cs| - 1];
      LeafMatchesSound(front, q, live);
      var a, b := LeafMatches(front, q, live), if c.Leaf? && c.obj in live && HitsObject(q, live[c.obj]) then [c.obj] else [];
      assert LeafMatches(cs, q, live) == a + b;
      assert multiset(a + b) == multiset(a) + multiset(b);
      assert multiset(b) <= Objects(c);
      assert forall o | o in a + b :: o in a || o in b;
    }
  }

  lemma {:induction false} SubtreeMatchesSound(cs: seq<Node>, q: Query, live: map<ObjId, Rect>)
    ensures multiset(SubtreeMatches(cs, q, live)) <= ObjectsOf(cs)
    ensures forall o | o in SubtreeMatches(cs, q, live) :: o in live && HitsObject(q, live[o])
    decreases cs, 0
  {
    if cs != [] {
      var front, c := cs[..|cs| - 1], cs[|cs| - 1];
      SubtreeMatchesSound(front, q, live);
      MatchesSound(c, q, live);
      var a, b := SubtreeMatches(front, q, live), if HitsNode(q, c.rect) then Matches(c, q, live) else [];
      assert SubtreeMatches(cs, q, live) == a + b;
      assert multiset(a + b) == multiset(a) + multiset(b);
      assert multiset(b) <= Objects(c);
      assert forall o | o in a + b :: o in a || o in b;
    }
  }

  /** Completeness: in a searchable tree every stored object whose live box meets `q` is reported. */
  lemma MatchesComplete(n: Node, q: Query, live: map<ObjId, Rect>, o: ObjId)
    requires n.Internal? && Searchable(n, live)
    requires o in Objects(n) && o in live && HitsObject(q, live[o])
    ensures o in Matches(n, q, live)
  {
    MatchesExact(n, q, live);
    InOrderObjects(n);
    assert o in multiset(InOrder(n));
    HittingMember(InOrder(n), q, live, o);
  }

  lemma {:induction false} HittingMember(s: seq<ObjId>, q: Query, live: map<ObjId, Rect>, o: ObjId)
    requires o in s && o in live && HitsObject(q, live[o])
    ensures o in Hitting(s, q, live)
    decreases |s|
  {
    if s[|s| - 1] != o {
      var s' := s[..|s| - 1];
      assert o in s' by {
        var j :| 0 <= j < |s| && s[j] == o;
        assert s'[j] == o;
      }
      HittingMember(s', q, live, o);
    }
  }
}
