/**
 * Bulk loading by Sort-Tile-Recursive: the nodes of one level are sorted
 * by the x-coordinate of their midpoints, cut into vertical slices, each
 * slice sorted by the y-coordinate of the midpoints and cut into runs of
 * at most `m` nodes, each run becoming the children of a new parent.
 * Levels are built upwards until a single node remains.
 */
module BulkLoad {
  import opened Geometry
  import opened Nodes

  /** The least `q` with `q * b >= a`: `ceil(a / b)`. */
  function CeilDiv(a: nat, b: nat): (q: nat)
    requires b > 0
    ensures q * b >= a
    ensures q > 0 ==> (q - 1) * b < a
  {
    (a + b - 1) / b
  }

  /** The least `s` with `s * s >= n`: `ceil(sqrt(n))`. */
  function CeilSqrt(n: nat): (s: nat)
    ensures s * s >= n
    ensures s > 0 ==> (s - 1) * (s - 1) < n
  {
    SqrtFrom(n, 0)
  }

  /** The least `s' >= s` with `s' * s' >= n`, given that every value below `s` is too small. */
  function SqrtFrom(n: nat, s: nat): (r: nat)
    requires s > 0 ==> (s - 1) * (s - 1) < n
    ensures r >= s && r * r >= n
    ensures r > 0 ==> (r - 1) * (r - 1) < n
    decreases n - s
  {
    if s * s >= n then s
    else
      assert s < n by {
        if s > 0 { MulMonotone(1, s, s, s); }
      }
      SqrtFrom(n, s + 1)
  }

  // ---------------------------------------------------------------------
  // Sorting by midpoint

  /** The midpoints of `s` on axis `a` are in ascending order. */
  predicate SortedByMid(s: seq<Node>, a: Axis) {
    forall i, j :: 0 <= i < j < |s| ==> MidSum(s[i].rect, a) <= MidSum(s[j].rect, a)
  }

  /** `x` inserted into `t` before the first node whose midpoint is at least as large. */
  function InsertByMid(t: seq<Node>, x: Node, a: Axis): (u: seq<Node>)
    ensures multiset(u) == multiset(t) + multiset{x}
  {
    if t == [] then [x]
    else if MidSum(x.rect, a) <= MidSum(t[0].rect, a) then [x] + t
    else
      assert t == [t[0]] + t[1..];
      [t[0]] + InsertByMid(t[1..], x, a)
  }

  /** Inserting `x` past the head of `t` keeps every node of the rest at or above the head. */
  lemma InsertedAbove(t: seq<Node>, x: Node, a: Axis)
    requires SortedByMid(t, a) && t != [] && MidSum(x.rect, a) > MidSum(t[0].rect, a)
    ensures forall y | y in InsertByMid(t[1..], x, a) :: MidSum(t[0].rect, a) <= MidSum(y.rect, a)
  {
    var rest, low := t[1..], MidSum(t[0].rect, a);
    assert forall k | 0 <= k < |rest| :: low <= MidSum(rest[k].rect, a) by {
      forall k | 0 <= k < |rest| ensures low <= MidSum(rest[k].rect, a) {
        assert rest[k] == t[k + 1];
      }
    }
    forall y | y in InsertByMid(rest, x, a) ensures low <= MidSum(y.rect, a) {
      assert y in multiset(InsertByMid(rest, x, a));
      if y != x {
        assert y in multiset(rest);
      }
    }
  }

  /** Inserting into a sorted sequence keeps it sorted. */
  lemma {:induction false} InsertByMidSorted(t: seq<Node>, x: Node, a: Axis)
    requires SortedByMid(t, a)
    ensures SortedByMid(InsertByMid(t, x, a), a)
  {
    if t != [] && MidSum(x.rect, a) > MidSum(t[0].rect, a) {
      var rest := t[1..];
      var u' := InsertByMid(rest, x, a);
      InsertByMidSorted(rest, x, a);
      InsertedAbove(t, x, a);
      var u := [t[0]] + u';
      forall i, j | 0 <= i < j < |u| ensures MidSum(u[i].rect, a) <= MidSum(u[j].rect, a) {
        if i > 0 {
          assert u[i] == u'[i - 1] && u[j] == u'[j - 1];
        } else {
          assert u[j] in u';
        }
      }
    }
  }

  /**
   * The nodes ordered by their midpoints on axis `a`. The source uses an
   * unstable library sort; any ordering of nodes with equal midpoints is
   * allowed by this contract.
   */
  method SortByMid(s: seq<Node>, a: Axis) returns (t: seq<Node>)
    ensures SortedByMid(t, a) && multiset(t) == multiset(s)
  {
    t := [];
    for k := 0 to |s|
      invariant SortedByMid(t, a) && multiset(t) == multiset(s[..k])
    {
      assert s[..k + 1] == s[..k] + [s[k]];
      InsertByMidSorted(t, s[k], a);
      t := InsertByMid(t, s[k], a);
    }
    assert s[..|s|] == s;
  }

  // ---------------------------------------------------------------------
  // One level of parents

  /** The children of the internal nodes `ps`, in order. */
  function ChildrenOf(ps: seq<Node>): seq<Node> {
    if ps == [] then []
    else ChildrenOf(ps[..|ps| - 1]) + (if ps[|ps| - 1].Internal? then ps[|ps| - 1].children else [])
  }

  lemma {:induction false} ChildrenOfConcat(a: seq<Node>, b: seq<Node>)
    ensures ChildrenOf(a + b) == ChildrenOf(a) + ChildrenOf(b)
    decreases |b|
  {
    if b == [] {
      assert a + b == a;
    } else {
      var b' := b[..|b| - 1];
      var last := b[|b| - 1];
      assert (a + b)[..|a + b| - 1] == a + b';
      assert (a + b)[|a + b| - 1] == last;
      ChildrenOfConcat(a, b');
      var tail := if last.Internal? then last.children else [];
      calc {
        ChildrenOf(a + b);
        ChildrenOf(a + b') + tail;
        (ChildrenOf(a) + ChildrenOf(b')) + tail;
        ChildrenOf(a) + (ChildrenOf(b') + tail);
        ChildrenOf(a) + ChildrenOf(b);
      }
    }
  }

  /** The number of children of `p`. */
  function Width(p: Node): nat {
    if p.Internal? then |p.children| else 0
  }

  /** A parent made by the bulk load: at `level`, with 1 to `m` children and exactly their union as box. */
  predicate IsParent(p: Node, level: int, m: nat) {
    p.Internal? && p.level == level && 1 <= |p.children| <= m && p.rect == UnionOf(p.children)
  }

  /**
   * Cuts `slice` into consecutive runs of `m` nodes, the last run
   * possibly shorter, and makes one parent at `level` per run.
   */
  method Chunk(slice: seq<Node>, level: int, m: nat) returns (ps: seq<Node>)
    requires m >= 1
    ensures forall p | p in ps :: IsParent(p, level, m)
    ensures ChildrenOf(ps) == slice
    ensures |slice| > 0 ==> |ps| > 0 && Width(ps[0]) == Min(m, |slice|)
    ensures |slice| == 0 ==> ps == []
    ensures forall j | 0 <= j < |ps| - 1 :: Width(ps[j]) == m
  {
    ps := [];
    var k := 0;
    while k < |slice|
      invariant 0 <= k <= |slice|
      invariant Chunked(ps, slice, k, level, m)
      decreases |slice| - k
    {
      var end := if |slice| - k < m then |slice| else k + m;
      var p := FromChildren(slice[k..end], level);
      ChunkAdvance(ps, slice, k, end, level, m, p);
      ps := ps + [p];
      k := end;
    }
    assert slice[..|slice|] == slice;
  }

  /** The state of the chunking loop once the first `k` nodes of `slice` are grouped into `ps`. */
  predicate Chunked(ps: seq<Node>, slice: seq<Node>, k: nat, level: int, m: nat)
    requires k <= |slice|
  {
    (forall p | p in ps :: IsParent(p, level, m)) &&
    ChildrenOf(ps) == slice[..k] &&
    (k > 0 ==> |ps| > 0 && Width(ps[0]) == Min(m, |slice|)) &&
    (k == 0 ==> ps == []) &&
    FullButLast(ps, m) &&
    (k < |slice| ==> AllFull(ps, m))
  }

  /** One more run of `m` nodes, or the shorter rest, keeps the chunking state. */
  lemma ChunkAdvance(ps: seq<Node>, slice: seq<Node>, k: nat, end: nat, level: int, m: nat, p: Node)
    requires m >= 1 && k < |slice| && Chunked(ps, slice, k, level, m)
    requires end == if |slice| - k < m then |slice| else k + m
    requires p.Internal? && p.level == level && p.children == slice[k..end] && p.rect == UnionOf(slice[k..end])
    ensures Chunked(ps + [p], slice, end, level, m)
  {
    ChunkStep(ps, slice, k, end, p);
    WidthStep(ps, p, m);
  }

  /** Every run made so far holds exactly `m` nodes. */
  predicate AllFull(ps: seq<Node>, m: nat) {
    forall j | 0 <= j < |ps| :: Width(ps[j]) == m
  }

  /** Every run but the last holds exactly `m` nodes. */
  predicate FullButLast(ps: seq<Node>, m: nat) {
    forall j | 0 <= j < |ps| - 1 :: Width(ps[j]) == m
  }

  /** A run after full runs leaves every run but the last full, and all of them when it is full itself. */
  lemma WidthStep(ps: seq<Node>, p: Node, m: nat)
    requires AllFull(ps, m)
    ensures FullButLast(ps + [p], m)
    ensures Width(p) == m ==> AllFull(ps + [p], m)
  {
  }

  lemma ChunkStep(ps: seq<Node>, slice: seq<Node>, k: nat, end: nat, p: Node)
    requires k < end <= |slice| && ChildrenOf(ps) == slice[..k]
    requires p.Internal? && p.children == slice[k..end]
    ensures ChildrenOf(ps + [p]) == slice[..end]
  {
    ChildrenOfConcat(ps, [p]);
    assert ChildrenOf([p]) == p.children;
    assert slice[..end] == slice[..k] + slice[k..end];
  }

  /** Every parent holds at least one child, so there are no more parents than children. */
  lemma {:induction false} ParentsFewer(ps: seq<Node>, level: int, m: nat)
    requires forall p | p in ps :: IsParent(p, level, m)
    ensures |ps| <= |ChildrenOf(ps)|
    ensures |ps| > 0 && Width(ps[0]) >= 2 ==> |ps| < |ChildrenOf(ps)|
    decreases |ps|
  {
    if ps != [] {
      var q := ps[..|ps| - 1];
      assert forall p | p in q :: p in ps;
      assert ps[|ps| - 1] in ps;
      ParentsFewer(q, level, m);
      if |q| > 0 {
        assert q[0] == ps[0];
      } else {
        assert ChildrenOf(ps) == ps[0].children;
      }
    }
  }

  /** The objects below a level of parents are the objects of their children. */
  lemma {:induction false} ObjectsOfChildren(ps: seq<Node>)
    requires forall p | p in ps :: p.Internal?
    ensures ObjectsOf(ps) == ObjectsOf(ChildrenOf(ps))
    decreases |ps|
  {
    if ps != [] {
      var q := ps[..|ps| - 1];
      assert forall p | p in q :: p in ps;
      assert ps[|ps| - 1] in ps;
      ObjectsOfChildren(q);
      ObjectsOfConcat(ChildrenOf(q), ps[|ps| - 1].children);
    }
  }

  /** The arithmetic behind the slices: `numSlices` slices of `numSlices * m` nodes reach every node. */
  lemma SlicesCover(n: nat, m: nat)
    requires m >= 1
    ensures var s := CeilSqrt(CeilDiv(n, m)); s * (s * m) >= n
    ensures n > 0 ==> CeilSqrt(CeilDiv(n, m)) > 0
  {
    var l := CeilDiv(n, m);
    var s := CeilSqrt(l);
    MulMonotone(l, m, s * s, m);
    assert s * (s * m) == (s * s) * m;
  }

  lemma SliceStep(parents: seq<Node>, run: seq<Node>, sorted: seq<Node>, lo: nat, hi: nat)
    requires lo <= hi <= |sorted|
    requires multiset(ChildrenOf(parents)) == multiset(sorted[..lo])
    requires multiset(ChildrenOf(run)) == multiset(sorted[lo..hi])
    ensures multiset(ChildrenOf(parents + run)) == multiset(sorted[..hi])
  {
    ChildrenOfConcat(parents, run);
    PrefixJoin(sorted, lo, hi);
  }

  lemma PrefixJoin(s: seq<Node>, lo: nat, hi: nat)
    requires lo <= hi <= |s|
    ensures multiset(s[..hi]) == multiset(s[..lo]) + multiset(s[lo..hi])
  {
    assert s[..hi] == s[..lo] + s[lo..hi];
  }

  /** Where slice `i` starts: after `i` slices of `perSlice` nodes, but no further than the `n` nodes. */
  function SliceStart(i: nat, perSlice: nat, n: nat): (lo: nat)
    ensures lo <= n
  {
    if i == 0 then 0 else Min(SliceStart(i - 1, perSlice, n) + perSlice, n)
  }

  /** The start of slice `i` is `i * perSlice`, cut off at `n`. */
  lemma {:induction false} SliceStartIs(i: nat, perSlice: nat, n: nat)
    ensures SliceStart(i, perSlice, n) == Min(i * perSlice, n)
  {
    if i > 0 {
      SliceStartIs(i - 1, perSlice, n);
      assert i * perSlice == (i - 1) * perSlice + perSlice;
    }
  }

  /** Only the first slice starts at 0 and ends after it; it holds at least `m` nodes or all of them. */
  lemma FirstSlice(i: nat, perSlice: nat, n: nat, m: nat)
    requires perSlice >= m >= 1
    ensures var lo, hi := SliceStart(i, perSlice, n), SliceStart(i + 1, perSlice, n);
      lo == 0 && hi > 0 ==> Min(m, hi) == Min(m, n)
  {
    if i > 0 && n > 0 {
      assert SliceStart(i, perSlice, n) > 0;
    }
  }

  /**
   * The parents of one slice: the nodes `sorted[lo..hi]`, sorted by
   * midpoint y and cut into runs of at most `m`.
   */
  method SliceParents(sorted: seq<Node>, lo: nat, hi: nat, level: int, m: nat) returns (run: seq<Node>)
    requires lo <= hi <= |sorted| && m >= 1
    ensures forall p | p in run :: IsParent(p, level, m)
    ensures multiset(ChildrenOf(run)) == multiset(sorted[lo..hi])
    ensures lo < hi ==> |run| > 0 && Width(run[0]) == Min(m, hi - lo)
    ensures lo == hi ==> run == []
  {
    var slice := SortByMid(sorted[lo..hi], Y);
    assert |slice| == hi - lo by {
      assert |multiset(slice)| == |multiset(sorted[lo..hi])|;
    }
    run := Chunk(slice, level, m);
  }

  /** `parents` are the parents of the first `k` nodes of `sorted`, the first of them as wide as a full run. */
  predicate Progress(parents: seq<Node>, sorted: seq<Node>, k: nat, level: int, m: nat)
    requires k <= |sorted|
  {
    && (forall p | p in parents :: IsParent(p, level, m))
    && multiset(ChildrenOf(parents)) == multiset(sorted[..k])
    && (k > 0 ==> |parents| > 0 && Width(parents[0]) == Min(m, |sorted|))
    && (k == 0 ==> parents == [])
  }

  /** Appending the parents of the next slice `sorted[lo..hi]` keeps the progress. */
  lemma SlicesStep(parents: seq<Node>, run: seq<Node>, sorted: seq<Node>, lo: nat, hi: nat, level: int, m: nat)
    requires lo <= hi <= |sorted| && Progress(parents, sorted, lo, level, m)
    requires forall p | p in run :: IsParent(p, level, m)
    requires multiset(ChildrenOf(run)) == multiset(sorted[lo..hi])
    requires lo < hi ==> |run| > 0 && Width(run[0]) == Min(m, hi - lo)
    requires lo == hi ==> run == []
    requires lo == 0 && hi > 0 ==> Min(m, hi) == Min(m, |sorted|)
    ensures Progress(parents + run, sorted, hi, level, m)
  {
    SliceStep(parents, run, sorted, lo, hi);
    if lo == hi {
      assert parents + run == parents;
    } else if lo == 0 {
      assert parents + run == run;
    } else {
      assert (parents + run)[0] == parents[0];
    }
  }

  /** Appends the parents of slice `i` to the parents of the slices before it. */
  method AddSlice(parents: seq<Node>, sorted: seq<Node>, i: nat, perSlice: nat, level: int, m: nat)
    returns (parents': seq<Node>)
    requires m >= 1 && (|sorted| > 0 ==> perSlice >= m)
    requires Progress(parents, sorted, SliceStart(i, perSlice, |sorted|), level, m)
    ensures Progress(parents', sorted, SliceStart(i + 1, perSlice, |sorted|), level, m)
  {
    var n := |sorted|;
    var lo := SliceStart(i, perSlice, n);
    var hi := SliceStart(i + 1, perSlice, n);
    var run := SliceParents(sorted, lo, hi, level, m);
    if n > 0 {
      FirstSlice(i, perSlice, n, m);
    }
    SlicesStep(parents, run, sorted, lo, hi, level, m);
    parents' := parents + run;
  }

  /** The parents of `count` consecutive slices of `perSlice` nodes each that together reach the end of `sorted`. */
  method Slices(sorted: seq<Node>, perSlice: nat, count: nat, level: int, m: nat) returns (parents: seq<Node>)
    requires m >= 1 && (|sorted| > 0 ==> perSlice >= m) && SliceStart(count, perSlice, |sorted|) == |sorted|
    ensures forall p | p in parents :: IsParent(p, level, m)
    ensures multiset(ChildrenOf(parents)) == multiset(sorted)
    ensures |sorted| > 0 ==> |parents| > 0 && Width(parents[0]) == Min(m, |sorted|)
  {
    parents := [];
    for i := 0 to count
      invariant Progress(parents, sorted, SliceStart(i, perSlice, |sorted|), level, m)
    {
      parents := AddSlice(parents, sorted, i, perSlice, level, m);
    }
    assert sorted[..|sorted|] == sorted;
  }

  /**
   * One level of the bulk load: sorts `nodes` by midpoint x, cuts them into
   * `ceil(sqrt(ceil(n / m)))` slices of that many times `m` nodes, sorts
   * each slice by midpoint y and cuts it into parents of at most `m`
   * children each.
   */
  method StrSplit(nodes: seq<Node>, level: int, m: nat) returns (parents: seq<Node>)
    requires m >= 1
    ensures forall p | p in parents :: IsParent(p, level, m)
    ensures multiset(ChildrenOf(parents)) == multiset(nodes)
    ensures |nodes| > 0 ==> |parents| > 0
    ensures |nodes| >= 2 && m >= 2 ==> |parents| < |nodes|
  {
    var sorted := SortByMid(nodes, X);
    var n := |nodes|;
    var numLeafNodes := CeilDiv(n, m);
    var numSlices := CeilSqrt(numLeafNodes);
    var nodesPerSlice := numSlices * m;
    assert |sorted| == n by {
      assert |multiset(sorted)| == |multiset(nodes)|;
    }
    SlicesCover(n, m);
    SliceStartIs(numSlices, nodesPerSlice, n);
    if n > 0 {
      MulMonotone(1, m, numSlices, m);
    }
    parents := Slices(sorted, nodesPerSlice, numSlices, level, m);
    ParentsFewer(parents, level, m);
    assert |ChildrenOf(parents)| == n by {
      assert |multiset(ChildrenOf(parents))| == |multiset(nodes)|;
    }
  }

  // ---------------------------------------------------------------------
  // The whole tree

  /** A level of well-formed subtrees at `level`, each with exactly the union of its children as box. */
  predicate GoodLevel(ps: seq<Node>, level: int, m: nat) {
    forall p | p in ps :: p.Level() == level && Leveled(p) && Fanout(p, m) && Tight(p)
  }

  /** Parents built over a good level form a good level one higher. */
  lemma ParentsGood(nodes: seq<Node>, ps: seq<Node>, level: int, m: nat, live: map<ObjId, Rect>)
    requires GoodLevel(nodes, level - 1, m) && level >= 0
    requires forall p | p in ps :: IsParent(p, level, m)
    requires multiset(ChildrenOf(ps)) == multiset(nodes)
    ensures GoodLevel(ps, level, m)
    ensures (forall c | c in nodes :: LiveInside(c, live)) ==> forall p | p in ps :: LiveInside(p, live)
  {
    forall p | p in ps ensures forall c | c in p.children :: c in nodes {
      ChildInChildrenOf(ps, p);
      forall c | c in p.children ensures c in nodes {
        assert c in multiset(ChildrenOf(ps));
      }
    }
  }

  lemma {:induction false} ChildInChildrenOf(ps: seq<Node>, p: Node)
    requires p in ps && p.Internal?
    ensures forall c | c in p.children :: c in ChildrenOf(ps)
    decreases |ps|
  {
    var q := ps[..|ps| - 1];
    if p != ps[|ps| - 1] {
      assert p in q;
      ChildInChildrenOf(q, p);
    }
  }

  /**
   * `parents` is a good, nonempty level of internal nodes at `level - 1`
   * over the objects of `nodes`, inside their live boxes when `nodes` are.
   */
  predicate Built(parents: seq<Node>, nodes: seq<Node>, level: int, m: nat, live: map<ObjId, Rect>) {
    && |parents| > 0 && GoodLevel(parents, level - 1, m) && level >= 1
    && (forall p | p in parents :: p.Internal?)
    && ObjectsOf(parents) == ObjectsOf(nodes)
    && ((forall c | c in nodes :: LiveInside(c, live)) ==> forall p | p in parents :: LiveInside(p, live))
  }

  /** Builds the level of parents over the good level `below` at `level - 1`. */
  method BuildLevel(below: seq<Node>, level: int, m: nat, ghost live: map<ObjId, Rect>) returns (parents: seq<Node>)
    requires |below| > 0 && m >= 2 && level >= 0 && GoodLevel(below, level - 1, m)
    ensures |parents| > 0 && GoodLevel(parents, level, m)
    ensures forall p | p in parents :: p.Internal?
    ensures ObjectsOf(parents) == ObjectsOf(below)
    ensures (forall c | c in below :: LiveInside(c, live)) ==> forall p | p in parents :: LiveInside(p, live)
    ensures |below| >= 2 ==> |parents| < |below|
  {
    parents := StrSplit(below, level, m);
    ParentsGood(below, parents, level, m, live);
    ObjectsOfChildren(parents);
    ObjectsOfPermutation(ChildrenOf(parents), below);
  }

  /**
   * Builds a tree over the leaf containers `nodes` and gives its root the
   * box `rootRect`; the levels below the root are tight.
   */
  method SortTileRecursive(nodes: seq<Node>, rootRect: Rect, m: nat, ghost live: map<ObjId, Rect>)
    returns (root: Node)
    requires |nodes| > 0 && m >= 2
    requires forall c | c in nodes :: c.Leaf?
    ensures root.Internal? && root.rect == rootRect && root.level >= 0
    ensures Leveled(root) && Fanout(root, m)
    ensures Objects(root) == ObjectsOf(nodes)
    ensures ChildrenCovered(root)
    ensures forall c | c in root.children :: Tight(c)
    ensures (forall c | c in nodes :: LiveInside(c, live)) ==> LiveInside(root, live)
  {
    var parents := BuildLevel(nodes, 0, m, live);
    var level := 1;
    while |parents| > 1
      invariant Built(parents, nodes, level, m, live)
      decreases |parents|
    {
      var next := BuildLevel(parents, level, m, live);
      parents := next;
      level := level + 1;
    }
    root := TopRoot(parents, nodes, level, m, rootRect, live);
  }

  /** The only node of the top level, with the box `rootRect`. */
  method TopRoot(parents: seq<Node>, nodes: seq<Node>, level: int, m: nat, rootRect: Rect, ghost live: map<ObjId, Rect>)
    returns (root: Node)
    requires |parents| == 1 && Built(parents, nodes, level, m, live)
    ensures root.Internal? && root.rect == rootRect && root.level >= 0
    ensures Leveled(root) && Fanout(root, m)
    ensures Objects(root) == ObjectsOf(nodes)
    ensures ChildrenCovered(root)
    ensures forall c | c in root.children :: Tight(c)
    ensures (forall c | c in nodes :: LiveInside(c, live)) ==> LiveInside(root, live)
  {
    var top := parents[0];
    assert top in parents;
    ObjectsOfSingleton(top);
    assert parents == [top];
    root := Internal(top.level, rootRect, top.children);
    TightIsCovered(top);
    forall c | c in root.children ensures Covered(c) {
      TightIsCovered(c);
    }
  }
}
