/**
 * Integer rectangle algebra of the index: containment, intersection,
 * enlargement (union) and area over axis-aligned rectangles given by
 * their lower-left and upper-right corners. Both iterations of the
 * index are modelled over this algebra; the floating-point rectangle
 * class of the later iteration is replaced by it.
 */
module Geometry {

  /** An axis-aligned rectangle: lower-left corner (x1, y1), upper-right corner (x2, y2). */
  datatype Rect = Rect(x1: int, y1: int, x2: int, y2: int)

  /** The two coordinate axes; used by the split and bulk-load heuristics. */
  datatype Axis = X | Y

  /** max >= min on both axes. Zero-area (point-like) rectangles are well formed. */
  predicate WellFormed(r: Rect) {
    r.x1 <= r.x2 && r.y1 <= r.y2
  }

  /** `a` contains `b`: the extents of `b` lie within those of `a` on both axes. */
  predicate Contains(a: Rect, b: Rect) {
    a.x1 <= b.x1 && a.y1 <= b.y1 && a.x2 >= b.x2 && a.y2 >= b.y2
  }

  /** Closed-interval intersection: rectangles that only touch still intersect. */
  predicate Intersects(a: Rect, b: Rect) {
    !(a.x2 < b.x1 || a.x1 > b.x2 || a.y2 < b.y1 || a.y1 > b.y2)
  }

  function Min(a: int, b: int): int { if b < a then b else a }

  function Max(a: int, b: int): int { if a < b then b else a }

  function Abs(v: int): int { if v < 0 then -v else v }

  /** The smallest rectangle containing both arguments. */
  function EnlargeToContain(a: Rect, b: Rect): (r: Rect)
    ensures Contains(r, a) && Contains(r, b)
    ensures WellFormed(a) ==> WellFormed(r)
  {
    Rect(Min(a.x1, b.x1), Min(a.y1, b.y1), Max(a.x2, b.x2), Max(a.y2, b.y2))
  }

  /** |x2 - x1| * |y2 - y1|. */
  function Area(r: Rect): (s: int)
    ensures s >= 0
  {
    MulNonNegative(Abs(r.x2 - r.x1), Abs(r.y2 - r.y1));
    Abs(r.x2 - r.x1) * Abs(r.y2 - r.y1)
  }

  /** The rectangle with origin (x, y), width w and height h, as the 2D library builds it. */
  function FromOriginSize(x: int, y: int, w: int, h: int): (r: Rect)
    ensures r.x1 == x && r.y1 == y && r.x2 - r.x1 == w && r.y2 - r.y1 == h
  {
    Rect(x, y, x + w, y + h)
  }

  /** `r` grown by `b` on all four sides. */
  function Pad(r: Rect, b: int): (p: Rect)
    ensures b >= 0 ==> Contains(p, r)
    ensures b >= 0 && WellFormed(r) ==> WellFormed(p)
    ensures Contains(p, r) ==> b >= 0 || !WellFormed(r)
  {
    Rect(r.x1 - b, r.y1 - b, r.x2 + b, r.y2 + b)
  }

  /** Lower coordinate of `r` on axis `a`. */
  function Low(r: Rect, a: Axis): int {
    match a
    case X => r.x1
    case Y => r.y1
  }

  /** Upper coordinate of `r` on axis `a`. */
  function High(r: Rect, a: Axis): int {
    match a
    case X => r.x2
    case Y => r.y2
  }

  /**
   * Twice the midpoint of `r` on axis `a`. Comparing these sums orders
   * rectangles exactly as comparing their midpoints does.
   */
  function MidSum(r: Rect, a: Axis): int {
    Low(r, a) + High(r, a)
  }

  /** `v` clamped into the closed interval [lo, hi]. */
  function Clamp(v: int, lo: int, hi: int): int {
    if v < lo then lo else if v > hi then hi else v
  }

  /**
   * The point of `r` nearest to the centre (cx, cy) lies within `radius`
   * of it (squared distances, so everything stays in the integers).
   */
  predicate IntersectsCircle(r: Rect, cx: int, cy: int, radius: nat) {
    var dx := cx - Clamp(cx, r.x1, r.x2);
    var dy := cy - Clamp(cy, r.y1, r.y2);
    dx * dx + dy * dy <= radius * radius
  }

  lemma MulNonNegative(a: int, b: int)
    requires a >= 0 && b >= 0
    ensures a * b >= 0
  {
  }

  lemma {:induction false} MulMonotone(a: int, b: int, c: int, d: int)
    requires 0 <= a <= c && 0 <= b <= d
    ensures a * b <= c * d
  {
    assert a * b <= c * b by {
      assert (c - a) * b >= 0 by { MulNonNegative(c - a, b); }
    }
    assert c * b <= c * d by {
      assert c * (d - b) >= 0 by { MulNonNegative(c, d - b); }
    }
  }

  lemma {:induction false} SquareMonotone(u: int, v: int)
    requires Abs(u) <= Abs(v)
    ensures u * u <= v * v
  {
    MulMonotone(Abs(u), Abs(u), Abs(v), Abs(v));
    assert u * u == Abs(u) * Abs(u);
    assert v * v == Abs(v) * Abs(v);
  }

  // ---------------------------------------------------------------------
  // Containment

  lemma ContainsReflexive(a: Rect)
    ensures Contains(a, a)
  {
  }

  lemma ContainsTransitive(a: Rect, b: Rect, c: Rect)
    requires Contains(a, b) && Contains(b, c)
    ensures Contains(a, c)
  {
  }

  /** Containment is antisymmetric: mutual containment means equality. */
  lemma ContainsAntisymmetric(a: Rect, b: Rect)
    requires Contains(a, b) && Contains(b, a)
    ensures a == b
  {
  }

  // ---------------------------------------------------------------------
  // Intersection

  lemma IntersectsSymmetric(a: Rect, b: Rect)
    ensures Intersects(a, b) <==> Intersects(b, a)
  {
  }

  /** Two well-formed rectangles sharing only the corner a.x2 == b.x1, a.y2 == b.y1 intersect. */
  lemma TouchingCornersIntersect(a: Rect, b: Rect)
    requires WellFormed(a) && WellFormed(b)
    requires a.x2 == b.x1 && a.y2 == b.y1
    ensures Intersects(a, b)
  {
  }

  /** Two well-formed rectangles sharing only part of the edge x == a.x2 == b.x1 intersect. */
  lemma TouchingEdgesIntersect(a: Rect, b: Rect)
    requires WellFormed(a) && WellFormed(b)
    requires a.x2 == b.x1 && a.y1 <= b.y2 && b.y1 <= a.y2
    ensures Intersects(a, b)
  {
  }

  /** A well-formed rectangle intersects every rectangle that contains it. */
  lemma ContainsImpliesIntersects(a: Rect, b: Rect)
    requires WellFormed(b) && Contains(a, b)
    ensures Intersects(a, b)
  {
  }

  /** Without well-formedness the implication fails. */
  lemma ContainsWithoutIntersect()
    ensures Contains(Rect(0, 0, 0, 0), Rect(0, 0, -1, 0))
    ensures !Intersects(Rect(0, 0, 0, 0), Rect(0, 0, -1, 0))
  {
  }

  /** Enlarging the box a query is compared with keeps an intersection. */
  lemma IntersectsMonotone(q: Rect, b: Rect, big: Rect)
    requires Intersects(q, b) && Contains(big, b)
    ensures Intersects(q, big)
  {
  }

  // ---------------------------------------------------------------------
  // Enlargement

  /** The enlargement is the least rectangle containing both arguments. */
  lemma EnlargeIsLeast(a: Rect, b: Rect, c: Rect)
    requires Contains(c, a) && Contains(c, b)
    ensures Contains(c, EnlargeToContain(a, b))
  {
  }

  lemma EnlargeCommutative(a: Rect, b: Rect)
    ensures EnlargeToContain(a, b) == EnlargeToContain(b, a)
  {
  }

  lemma EnlargeAssociative(a: Rect, b: Rect, c: Rect)
    ensures EnlargeToContain(EnlargeToContain(a, b), c) == EnlargeToContain(a, EnlargeToContain(b, c))
  {
  }

  lemma EnlargeIdempotent(a: Rect)
    ensures EnlargeToContain(a, a) == a
  {
  }

  /** Enlarging a rectangle by one it already contains changes nothing, and conversely. */
  lemma EnlargeAbsorbs(a: Rect, b: Rect)
    ensures Contains(a, b) <==> EnlargeToContain(a, b) == a
  {
  }

  // ---------------------------------------------------------------------
  // Area

  /** A well-formed rectangle has at least the area of every well-formed rectangle it contains. */
  lemma {:induction false} AreaMonotone(big: Rect, small: Rect)
    requires WellFormed(small) && Contains(big, small)
    ensures Area(small) <= Area(big)
  {
    MulMonotone(small.x2 - small.x1, small.y2 - small.y1, big.x2 - big.x1, big.y2 - big.y1);
  }

  /** Enlargement never shrinks a well-formed rectangle's area. */
  lemma {:induction false} EnlargeAreaGrows(a: Rect, b: Rect)
    requires WellFormed(a)
    ensures Area(EnlargeToContain(a, b)) >= Area(a)
  {
    AreaMonotone(EnlargeToContain(a, b), a);
  }

  /** For a non-negative size the origin-size constructor yields a well-formed rectangle of area w * h. */
  lemma FromOriginSizeArea(x: int, y: int, w: int, h: int)
    requires w >= 0 && h >= 0
    ensures WellFormed(FromOriginSize(x, y, w, h))
    ensures Area(FromOriginSize(x, y, w, h)) == w * h
  {
  }

  // ---------------------------------------------------------------------
  // Circles

  /**
   * If a well-formed rectangle meets a circle, so does every rectangle
   * containing it: the nearest point can only get closer.
   */
  lemma {:induction false} IntersectsCircleMonotone(small: Rect, big: Rect, cx: int, cy: int, radius: nat)
    requires WellFormed(small) && Contains(big, small)
    requires IntersectsCircle(small, cx, cy, radius)
    ensures IntersectsCircle(big, cx, cy, radius)
  {
    var dxs := cx - Clamp(cx, small.x1, small.x2);
    var dys := cy - Clamp(cy, small.y1, small.y2);
    var dxb := cx - Clamp(cx, big.x1, big.x2);
    var dyb := cy - Clamp(cy, big.y1, big.y2);
    SquareMonotone(dxb, dxs);
    SquareMonotone(dyb, dys);
  }
}
