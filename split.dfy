/**
 * Linear-cost node split: seed picking after section 3.5.3 of Guttman's
 * 1984 R-tree paper, followed by "largest area difference first"
 * assignment of the remaining children. Both iterations of the index
 * use the same split; the model states it once.
 */
module Split {
  import opened Geometry
  import opened Nodes

  // ---------------------------------------------------------------------
  // Separation quotients in double precision

  /**
   * The values an IEEE double division of two integers can take: a finite
   * quotient, either infinity, or NaN (for 0 / 0). Rounding to the
   * nearest double is not modelled.
   */
  datatype Extended = NegInf | Finite(value: real) | PosInf | NaN

  /** `num / den` evaluated in IEEE arithmetic (the denominator is a non-negative or negative extent). */
  function Quotient(num: int, den: int): (q: Extended)
    ensures den != 0 ==> q == Finite(num as real / den as real)
    ensures den == 0 ==> (q == PosInf <==> num > 0) && (q == NegInf <==> num < 0) && (q == NaN <==> num == 0)
  {
    if den != 0 then Finite(num as real / den as real)
    else if num > 0 then PosInf
    else if num < 0 then NegInf
    else NaN
  }

  /** IEEE `a > b`: false whenever either side is NaN. */
  predicate Greater(a: Extended, b: Extended) {
    match (a, b)
    case (NaN, _) => false
    case (_, NaN) => false
    case (PosInf, _) => b != PosInf
    case (NegInf, _) => false
    case (Finite(x), PosInf) => false
    case (Finite(x), NegInf) => true
    case (Finite(x), Finite(y)) => x > y
  }

  /** For positive extents the comparison of the quotients is a cross-multiplication. */
  lemma {:induction false} GreaterCrossMultiply(n1: int, d1: int, n2: int, d2: int)
    requires d1 > 0 && d2 > 0
    ensures Greater(Quotient(n1, d1), Quotient(n2, d2)) <==> n1 * d2 > n2 * d1
  {
    var a := n1 as real / d1 as real;
    var b := n2 as real / d2 as real;
    assert a * (d1 as real) == n1 as real;
    assert b * (d2 as real) == n2 as real;
    var p := (d1 as real) * (d2 as real);
    assert p > 0.0;
    assert a * p == (n1 * d2) as real;
    assert b * p == (n2 * d1) as real;
    if a > b {
      assert a * p > b * p;
    } else {
      assert a * p <= b * p;
    }
  }

  /** NaN never compares greater, and nothing compares greater than itself. */
  lemma GreaterIrreflexive(a: Extended)
    ensures !Greater(a, a) && !Greater(a, NaN) && !Greater(NaN, a)
  {
  }

  // ---------------------------------------------------------------------
  // Seeds

  /** `i` is the first child whose lower side on axis `a` is maximal. */
  predicate IsMaxLow(cs: seq<Node>, a: Axis, i: int) {
    0 <= i < |cs| &&
    (forall k :: 0 <= k < |cs| ==> Low(cs[k].rect, a) <= Low(cs[i].rect, a)) &&
    (forall k :: 0 <= k < i ==> Low(cs[k].rect, a) < Low(cs[i].rect, a))
  }

  /** `j` is the first child other than `ex` whose upper side on axis `a` is minimal. */
  predicate IsMinHigh(cs: seq<Node>, a: Axis, ex: int, j: int) {
    0 <= j < |cs| && j != ex &&
    (forall k :: 0 <= k < |cs| && k != ex ==> High(cs[j].rect, a) <= High(cs[k].rect, a)) &&
    (forall k :: 0 <= k < j && k != ex ==> High(cs[j].rect, a) < High(cs[k].rect, a))
  }

  lemma MaxLowUnique(cs: seq<Node>, a: Axis, i: int, i': int)
    requires IsMaxLow(cs, a, i) && IsMaxLow(cs, a, i')
    ensures i == i'
  {
    assert Low(cs[i].rect, a) == Low(cs[i'].rect, a);
  }

  lemma MinHighUnique(cs: seq<Node>, a: Axis, ex: int, j: int, j': int)
    requires IsMinHigh(cs, a, ex, j) && IsMinHigh(cs, a, ex, j')
    ensures j == j'
  {
    assert High(cs[j].rect, a) == High(cs[j'].rect, a);
  }

  /** The first child with the greatest lower side on axis `a`. */
  method MaxLowSide(cs: seq<Node>, a: Axis) returns (i: int)
    requires |cs| > 0
    ensures IsMaxLow(cs, a, i)
  {
    i := 0;
    for k := 1 to |cs|
      invariant IsMaxLow(cs[..k], a, i)
    {
      if Low(cs[k].rect, a) > Low(cs[i].rect, a) {
        i := k;
      }
    }
    assert cs[..|cs|] == cs;
  }

  /** The first child, other than the one at `ex`, with the least upper side on axis `a`. */
  method MinHighSide(cs: seq<Node>, a: Axis, ex: int) returns (j: int)
    requires |cs| >= 2 && 0 <= ex < |cs|
    ensures IsMinHigh(cs, a, ex, j)
  {
    j := -1;
    for k := 0 to |cs|
      invariant -1 <= j < k
      invariant j == -1 <==> (k == 0 || (k == 1 && ex == 0))
      invariant j != -1 ==> IsMinHigh(cs[..k], a, ex, j)
    {
      if (j == -1 || High(cs[k].rect, a) < High(cs[j].rect, a)) && k != ex {
        j := k;
      }
    }
    assert cs[..|cs|] == cs;
  }

  /** Separation of the two extreme children along axis `a`, normalised by the node's extent. */
  function Separation(cs: seq<Node>, r: Rect, a: Axis, lo: int, hi: int): Extended
    requires 0 <= lo < |cs| && 0 <= hi < |cs|
  {
    Quotient(High(cs[hi].rect, a) - Low(cs[lo].rect, a), High(r, a) - Low(r, a))
  }

  /**
   * (s1, s2) is the seed pair of a node with children `cs` and box `r`,
   * given the extreme children found on each axis: the pair of the axis
   * with the strictly greater separation, the X pair on ties and NaN.
   */
  predicate SeedsFrom(cs: seq<Node>, r: Rect, s1: int, s2: int, lx: int, hx: int, ly: int, hy: int) {
    IsMaxLow(cs, X, lx) && IsMinHigh(cs, X, lx, hx) &&
    IsMaxLow(cs, Y, ly) && IsMinHigh(cs, Y, ly, hy) &&
    if Greater(Separation(cs, r, Y, ly, hy), Separation(cs, r, X, lx, hx))
    then s1 == ly && s2 == hy
    else s1 == lx && s2 == hx
  }

  ghost predicate IsSeedPair(cs: seq<Node>, r: Rect, s1: int, s2: int) {
    exists lx, hx, ly, hy :: SeedsFrom(cs, r, s1, s2, lx, hx, ly, hy)
  }

  /** The seed pair is determined by the children and the box. */
  lemma SeedPairUnique(cs: seq<Node>, r: Rect, s1: int, s2: int, t1: int, t2: int)
    requires IsSeedPair(cs, r, s1, s2) && IsSeedPair(cs, r, t1, t2)
    ensures s1 == t1 && s2 == t2
  {
    var lx, hx, ly, hy :| SeedsFrom(cs, r, s1, s2, lx, hx, ly, hy);
    var lx', hx', ly', hy' :| SeedsFrom(cs, r, t1, t2, lx', hx', ly', hy');
    MaxLowUnique(cs, X, lx, lx');
    MaxLowUnique(cs, Y, ly, ly');
    MinHighUnique(cs, X, lx, hx, hx');
    MinHighUnique(cs, Y, ly, hy, hy');
  }

  /** Picks the two children that start the two halves of a split; they are distinct. */
  method PickSeeds(n: Node) returns (s1: int, s2: int)
    requires n.Internal? && |n.children| >= 2
    ensures 0 <= s1 < |n.children| && 0 <= s2 < |n.children| && s1 != s2
    ensures IsSeedPair(n.children, n.rect, s1, s2)
  {
    var cs := n.children;
    var lx := MaxLowSide(cs, X);
    var hx := MinHighSide(cs, X, lx);
    var ly := MaxLowSide(cs, Y);
    var hy := MinHighSide(cs, Y, ly);
    var sepX := Separation(cs, n.rect, X, lx, hx);
    var sepY := Separation(cs, n.rect, Y, ly, hy);
    if Greater(sepY, sepX) {
      s1, s2 := ly, hy;
    } else {
      s1, s2 := lx, hx;
    }
    assert SeedsFrom(cs, n.rect, s1, s2, lx, hx, ly, hy);
  }

  // ---------------------------------------------------------------------
  // Picking the next child

  /** How differently the two halves' areas would grow if `c` joined each. */
  function AreaDiff(c: Node, b1: Rect, b2: Rect): int {
    Abs(Area(EnlargeToContain(b1, c.rect)) - Area(EnlargeToContain(b2, c.rect)))
  }

  /** `k` is the first unassigned child with the greatest `AreaDiff`. */
  predicate IsPickNext(cs: seq<Node>, added: set<int>, b1: Rect, b2: Rect, k: int) {
    0 <= k < |cs| && k !in added &&
    (forall m :: 0 <= m < |cs| && m !in added ==> AreaDiff(cs[m], b1, b2) <= AreaDiff(cs[k], b1, b2)) &&
    (forall m :: 0 <= m < k && m !in added ==> AreaDiff(cs[m], b1, b2) < AreaDiff(cs[k], b1, b2))
  }

  lemma PickNextUnique(cs: seq<Node>, added: set<int>, b1: Rect, b2: Rect, k: int, k': int)
    requires IsPickNext(cs, added, b1, b2, k) && IsPickNext(cs, added, b1, b2, k')
    ensures k == k'
  {
    assert AreaDiff(cs[k], b1, b2) == AreaDiff(cs[k'], b1, b2);
  }

  /**
   * The first unassigned position below `i` with the greatest `AreaDiff`,
   * or -1 when every position below `i` is assigned.
   */
  function FirstGreatest(cs: seq<Node>, added: set<int>, b1: Rect, b2: Rect, i: nat): (k: int)
    requires i <= |cs|
    ensures -1 <= k < i
    decreases i
  {
    if i == 0 then -1
    else
      var best := FirstGreatest(cs, added, b1, b2, i - 1);
      if i - 1 in added then best
      else if best == -1 || AreaDiff(cs[i - 1], b1, b2) > AreaDiff(cs[best], b1, b2) then i - 1
      else best
  }

  lemma {:induction false} FirstGreatestPicks(cs: seq<Node>, added: set<int>, b1: Rect, b2: Rect, i: nat)
    requires i <= |cs|
    ensures var k := FirstGreatest(cs, added, b1, b2, i);
      (k == -1 <==> forall m :: 0 <= m < i ==> m in added) &&
      (k != -1 ==>
         k !in added &&
         (forall m :: 0 <= m < i && m !in added ==> AreaDiff(cs[m], b1, b2) <= AreaDiff(cs[k], b1, b2)) &&
         (forall m :: 0 <= m < k && m !in added ==> AreaDiff(cs[m], b1, b2) < AreaDiff(cs[k], b1, b2)))
    decreases i
  {
    if i > 0 {
      FirstGreatestPicks(cs, added, b1, b2, i - 1);
    }
  }

  /** With a child still unassigned, `FirstGreatest` over all of `cs` is the pick. */
  lemma FirstGreatestIsPick(cs: seq<Node>, added: set<int>, b1: Rect, b2: Rect)
    requires exists m :: 0 <= m < |cs| && m !in added
    ensures IsPickNext(cs, added, b1, b2, FirstGreatest(cs, added, b1, b2, |cs|))
  {
    FirstGreatestPicks(cs, added, b1, b2, |cs|);
  }

  method PickNext(cs: seq<Node>, added: set<int>, b1: Rect, b2: Rect) returns (k: int)
    requires exists m :: 0 <= m < |cs| && m !in added
    ensures IsPickNext(cs, added, b1, b2, k)
    ensures k == FirstGreatest(cs, added, b1, b2, |cs|)
  {
    k := -1;
    var maxDiff := 0;
    for i := 0 to |cs|
      invariant -1 <= k < i
      invariant k == -1 <==> forall m :: 0 <= m < i ==> m in added
      invariant k != -1 ==> IsPickNext(cs[..i], added, b1, b2, k) && maxDiff == AreaDiff(cs[k], b1, b2)
    {
      if i in added {
        continue;
      }
      var diff := AreaDiff(cs[i], b1, b2);
      if k == -1 || diff > maxDiff {
        k := i;
        maxDiff := diff;
      }
    }
    assert cs[..|cs|] == cs;
    FirstGreatestIsPick(cs, added, b1, b2);
    PickNextUnique(cs, added, b1, b2, k, FirstGreatest(cs, added, b1, b2, |cs|));
  }

  // ---------------------------------------------------------------------
  // The children at a set of positions

  /** The children of `cs` at the positions in `a`. */
  function Chosen(cs: seq<Node>, a: set<int>): multiset<Node> {
    if cs == [] then multiset{}
    else Chosen(cs[..|cs| - 1], a) + (if |cs| - 1 in a then multiset{cs[|cs| - 1]} else multiset{})
  }

  lemma {:induction false} ChosenEmpty(cs: seq<Node>)
    ensures Chosen(cs, {}) == multiset{}
    decreases |cs|
  {
    if cs != [] {
      ChosenEmpty(cs[..|cs| - 1]);
    }
  }

  lemma {:induction false} ChosenAdd(cs: seq<Node>, a: set<int>, k: int)
    requires 0 <= k < |cs| && k !in a
    ensures Chosen(cs, a + {k}) == Chosen(cs, a) + multiset{cs[k]}
    decreases |cs|
  {
    if k < |cs| - 1 {
      var p := cs[..|cs| - 1];
      ChosenAdd(p, a, k);
      assert p[k] == cs[k];
    } else {
      ChosenSame(cs[..|cs| - 1], a, a + {k});
    }
  }

  /** Positions beyond the end of the list do not matter. */
  lemma {:induction false} ChosenSame(cs: seq<Node>, a: set<int>, b: set<int>)
    requires forall i :: 0 <= i < |cs| ==> (i in a <==> i in b)
    ensures Chosen(cs, a) == Chosen(cs, b)
    decreases |cs|
  {
    if cs != [] {
      ChosenSame(cs[..|cs| - 1], a, b);
    }
  }

  lemma {:induction false} ChosenAll(cs: seq<Node>, a: set<int>)
    requires forall i :: 0 <= i < |cs| ==> i in a
    ensures Chosen(cs, a) == multiset(cs)
    decreases |cs|
  {
    if cs != [] {
      var p := cs[..|cs| - 1];
      ChosenAll(p, a);
      FrontLast(cs);
    }
  }

  // ---------------------------------------------------------------------
  // Counting positions

  /** The positions 0 .. n - 1. */
  function Positions(n: nat): set<int>
  {
    if n == 0 then {} else Positions(n - 1) + {n - 1}
  }

  lemma {:induction false} PositionsMembers(n: nat)
    ensures forall i :: i in Positions(n) <==> 0 <= i < n
    decreases n
  {
    if n > 0 {
      PositionsMembers(n - 1);
    }
  }

  lemma {:induction false} PositionsCard(n: nat)
    ensures |Positions(n)| == n
    decreases n
  {
    if n > 0 {
      PositionsMembers(n - 1);
      PositionsCard(n - 1);
      AddedGrows(Positions(n - 1), n - 1);
    }
  }

  lemma NonEmptyHasElement(a: set<int>)
    requires a != {}
    ensures exists x :: x in a
  {
    assert (forall x :: x !in a) ==> a == {};
  }

  lemma {:induction false} SubsetCard(a: set<int>, b: set<int>)
    requires a <= b
    ensures |a| <= |b|
    decreases |b|
  {
    if a != {} {
      NonEmptyHasElement(a);
      var x :| x in a;
      SubsetCard(a - {x}, b - {x});
    }
  }

  /** Fewer assigned positions than children leaves some child unassigned. */
  lemma UnassignedExists(n: nat, a: set<int>)
    requires forall i | i in a :: 0 <= i < n
    requires |a| < n
    ensures exists m :: 0 <= m < n && m !in a
  {
    if forall m :: 0 <= m < n ==> m in a {
      PositionsMembers(n);
      assert Positions(n) <= a;
      SubsetCard(Positions(n), a);
      PositionsCard(n);
    }
  }

  /** As many assigned positions as children means every child is assigned. */
  lemma AllAssigned(n: nat, a: set<int>)
    requires forall i | i in a :: 0 <= i < n
    requires |a| >= n
    ensures forall m :: 0 <= m < n ==> m in a
  {
    forall m | 0 <= m < n ensures m in a {
      if m !in a {
        PositionsMembers(n);
        forall i | i in a ensures i in Positions(n) - {m} {
          assert 0 <= i < n;
        }
        SubsetCard(a, Positions(n) - {m});
        PositionsCard(n);
      }
    }
  }

  // ---------------------------------------------------------------------
  // The split

  /**
   * The state of the split loop: the positions in `added` are exactly
   * those placed in one of the two non-empty halves, and each half's box
   * is the union of its members.
   */
  predicate Partial(cs: seq<Node>, added: set<int>, kids1: seq<Node>, rect1: Rect, kids2: seq<Node>, rect2: Rect) {
    (forall i | i in added :: 0 <= i < |cs|) && |added| <= |cs| &&
    multiset(kids1) + multiset(kids2) == Chosen(cs, added) &&
    |kids1| >= 1 && |kids2| >= 1 &&
    rect1 == UnionOf(kids1) && rect2 == UnionOf(kids2)
  }

  /**
   * The two halves the split loop ends with, from the state where the
   * positions in `added` are placed: the first unassigned child with the
   * greatest `AreaDiff` joins the first half when that half's area would
   * grow to strictly less than the second's, and the second half
   * otherwise (ties included); then the others follow the same way.
   */
  ghost function SplitRest(cs: seq<Node>, added: set<int>, kids1: seq<Node>, rect1: Rect, kids2: seq<Node>, rect2: Rect): (seq<Node>, seq<Node>)
    requires forall i | i in added :: 0 <= i < |cs|
    decreases |cs| - |added|
  {
    if |added| >= |cs| then (kids1, kids2)
    else
      UnassignedExists(|cs|, added);
      FirstGreatestIsPick(cs, added, rect1, rect2);
      var k := FirstGreatest(cs, added, rect1, rect2, |cs|);
      AddedGrows(added, k);
      var enlarged1 := EnlargeToContain(rect1, cs[k].rect);
      var enlarged2 := EnlargeToContain(rect2, cs[k].rect);
      if Area(enlarged1) < Area(enlarged2) then SplitRest(cs, added + {k}, kids1 + [cs[k]], enlarged1, kids2, rect2)
      else SplitRest(cs, added + {k}, kids1, rect1, kids2 + [cs[k]], enlarged2)
  }

  /** Placing the unassigned child at k into the first half keeps the loop state. */
  lemma JoinFirst(cs: seq<Node>, added: set<int>, kids1: seq<Node>, rect1: Rect, kids2: seq<Node>, rect2: Rect, k: int)
    requires Partial(cs, added, kids1, rect1, kids2, rect2) && |added| < |cs|
    requires 0 <= k < |cs| && k !in added
    requires Area(EnlargeToContain(rect1, cs[k].rect)) < Area(EnlargeToContain(rect2, cs[k].rect))
    ensures Partial(cs, added + {k}, kids1 + [cs[k]], EnlargeToContain(rect1, cs[k].rect), kids2, rect2)
  {
    ChosenAdd(cs, added, k);
    UnionOfAppend(kids1, cs[k]);
  }

  lemma JoinSecond(cs: seq<Node>, added: set<int>, kids1: seq<Node>, rect1: Rect, kids2: seq<Node>, rect2: Rect, k: int)
    requires Partial(cs, added, kids1, rect1, kids2, rect2) && |added| < |cs|
    requires 0 <= k < |cs| && k !in added
    requires !(Area(EnlargeToContain(rect1, cs[k].rect)) < Area(EnlargeToContain(rect2, cs[k].rect)))
    ensures Partial(cs, added + {k}, kids1, rect1, kids2 + [cs[k]], EnlargeToContain(rect2, cs[k].rect))
  {
    ChosenAdd(cs, added, k);
    UnionOfAppend(kids2, cs[k]);
  }

  /** The loop state right after the two seeds have been placed. */
  lemma PartialStart(cs: seq<Node>, c1: int, c2: int)
    requires 0 <= c1 < |cs| && 0 <= c2 < |cs| && c1 != c2
    ensures Partial(cs, {c2, c1}, [cs[c1]], cs[c1].rect, [cs[c2]], cs[c2].rect)
  {
    SeedsChosen(cs, c1, c2);
    AddedGrows({c2}, c1);
    assert {c2} + {c1} == {c2, c1};
    assert |{c2, c1}| <= |cs| by {
      PositionsMembers(|cs|);
      SubsetCard({c2, c1}, Positions(|cs|));
      PositionsCard(|cs|);
    }
    assert [cs[c1]][..0] == [] && [cs[c2]][..0] == [];
  }

  lemma SeedsChosen(cs: seq<Node>, c1: int, c2: int)
    requires 0 <= c1 < |cs| && 0 <= c2 < |cs| && c1 != c2
    ensures Chosen(cs, {c2, c1}) == multiset{cs[c2], cs[c1]}
  {
    ChosenEmpty(cs);
    ChosenAdd(cs, {}, c2);
    assert {} + {c2} == {c2};
    ChosenAdd(cs, {c2}, c1);
    assert {c2} + {c1} == {c2, c1};
  }

  /** Once every position is assigned, the halves hold exactly the children. */
  lemma PartialDone(cs: seq<Node>, added: set<int>, kids1: seq<Node>, rect1: Rect, kids2: seq<Node>, rect2: Rect)
    requires Partial(cs, added, kids1, rect1, kids2, rect2) && |added| >= |cs|
    ensures multiset(kids1) + multiset(kids2) == multiset(cs)
  {
    AllAssigned(|cs|, added);
    ChosenAll(cs, added);
  }

  /**
   * Splits an overflowing node into two nodes at its level: the seeds
   * start the two halves, and every other child joins the half whose
   * area would grow less, the second half on ties.
   */
  method LinearSplit(n: Node) returns (h1: Node, h2: Node, ghost s1: int, ghost s2: int)
    requires n.Internal? && |n.children| >= 2
    ensures h1.Internal? && h2.Internal? && h1.level == n.level && h2.level == n.level
    ensures |h1.children| >= 1 && |h2.children| >= 1
    ensures multiset(h1.children) + multiset(h2.children) == multiset(n.children)
    ensures h1.rect == UnionOf(h1.children) && h2.rect == UnionOf(h2.children)
    ensures IsSeedPair(n.children, n.rect, s1, s2)
    ensures 0 <= s1 < |n.children| && 0 <= s2 < |n.children| && s1 != s2
    ensures h1.children[0] == n.children[s1] && h2.children[0] == n.children[s2]
    ensures (h1.children, h2.children) ==
      SplitRest(n.children, {s2, s1}, [n.children[s1]], n.children[s1].rect, [n.children[s2]], n.children[s2].rect)
    ensures LinearHalves(n, h1, h2)
  {
    var cs := n.children;
    var c1, c2 := PickSeeds(n);
    s1, s2 := c1, c2;
    var kids1, rect1 := [cs[c1]], cs[c1].rect;
    var kids2, rect2 := [cs[c2]], cs[c2].rect;
    var added: set<int> := {c2, c1};
    PartialStart(cs, c1, c2);
    ghost var halves := SplitRest(cs, added, kids1, rect1, kids2, rect2);
    while |added| < |cs|
      invariant Partial(cs, added, kids1, rect1, kids2, rect2)
      invariant kids1[0] == cs[c1] && kids2[0] == cs[c2]
      invariant SplitRest(cs, added, kids1, rect1, kids2, rect2) == halves
      decreases |cs| - |added|
    {
      UnassignedExists(|cs|, added);
      var next := PickNext(cs, added, rect1, rect2);
      var enlarged1 := EnlargeToContain(rect1, cs[next].rect);
      var enlarged2 := EnlargeToContain(rect2, cs[next].rect);
      if Area(enlarged1) < Area(enlarged2) {
        JoinFirst(cs, added, kids1, rect1, kids2, rect2, next);
        kids1, rect1 := kids1 + [cs[next]], enlarged1;
      } else {
        JoinSecond(cs, added, kids1, rect1, kids2, rect2, next);
        kids2, rect2 := kids2 + [cs[next]], enlarged2;
      }
      AddedGrows(added, next);
      added := added + {next};
    }
    PartialDone(cs, added, kids1, rect1, kids2, rect2);
    h1 := Internal(n.level, rect1, kids1);
    h2 := Internal(n.level, rect2, kids2);
  }

  /**
   * `h1` and `h2` are the halves the linear split makes of `n`: the seed
   * pair of `n` starts them and `SplitRest` places every other child.
   */
  ghost predicate LinearHalves(n: Node, h1: Node, h2: Node) {
    n.Internal? && h1.Internal? && h2.Internal? && h1.level == n.level && h2.level == n.level &&
    exists s1, s2 | IsSeedPair(n.children, n.rect, s1, s2) ::
      0 <= s1 < |n.children| && 0 <= s2 < |n.children| && s1 != s2 &&
      (h1.children, h2.children) ==
        SplitRest(n.children, {s2, s1}, [n.children[s1]], n.children[s1].rect, [n.children[s2]], n.children[s2].rect)
  }

  lemma AddedGrows(added: set<int>, k: int)
    requires k !in added
    ensures |added + {k}| == |added| + 1
  {
  }

  /** Each half of a split of m >= 2 children holds fewer than m of them. */
  lemma SplitHalvesSmaller(n: Node, h1: Node, h2: Node)
    requires n.Internal? && h1.Internal? && h2.Internal?
    requires |h1.children| >= 1 && |h2.children| >= 1
    requires multiset(h1.children) + multiset(h2.children) == multiset(n.children)
    ensures |h1.children| + |h2.children| == |n.children|
    ensures |h1.children| < |n.children| && |h2.children| < |n.children|
  {
    assert |multiset(h1.children) + multiset(h2.children)| == |multiset(n.children)|;
  }
}
