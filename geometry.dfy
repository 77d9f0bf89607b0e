/**
  Layout coordinates and the two distance tests the canvas performs with
  `np.linalg.norm`. Dafny has no square root, so each test is decided on the
  squared distance; `NormComparison` shows the two forms agree for reals.
 */
module Geometry {

  /** A node position or a pointer position in layout coordinates. */
  datatype Pos = Pos(x: real, y: real)

  /** The squared Euclidean distance between two points. */
  function SqDist(p: Pos, q: Pos): (d: real)
    ensures d >= 0.0
    ensures p == q ==> d == 0.0
  {
    (p.x - q.x) * (p.x - q.x) + (p.y - q.y) * (p.y - q.y)
  }

  /** `norm(p - q) < radius`. */
  predicate WithinRadius(p: Pos, q: Pos, radius: real)
  {
    radius > 0.0 && SqDist(p, q) < radius * radius
  }

  /** `norm(p - q) > threshold`. */
  predicate FartherThan(p: Pos, q: Pos, threshold: real)
  {
    threshold < 0.0 || SqDist(p, q) > threshold * threshold
  }

  /**
    For non-negative reals, comparing the numbers and comparing their squares
    agree. This is why a norm compared with a radius, a threshold or another
    norm may be replaced by the corresponding squared quantities.
   */
  lemma NormComparison(a: real, b: real)
    requires a >= 0.0 && b >= 0.0
    ensures a < b <==> a * a < b * b
    ensures a <= b <==> a * a <= b * b
  {
    assert b * b - a * a == (b - a) * (b + a);
    if a < b {
      ProductPositive(b - a, b + a);
    } else if b < a {
      ProductPositive(a - b, a + b);
    }
  }

  /**
    `norm(p - q) < radius` holds exactly when `WithinRadius` does, for `d`
    the norm of `p - q` (the non-negative root of the squared distance).
   */
  lemma NormWithin(p: Pos, q: Pos, radius: real, d: real)
    requires d >= 0.0 && d * d == SqDist(p, q)
    ensures d < radius <==> WithinRadius(p, q, radius)
  {
    if radius > 0.0 {
      NormComparison(d, radius);
    }
  }

  /** `norm(p - q) > threshold` holds exactly when `FartherThan` does. */
  lemma NormFarther(p: Pos, q: Pos, threshold: real, d: real)
    requires d >= 0.0 && d * d == SqDist(p, q)
    ensures d > threshold <==> FartherThan(p, q, threshold)
  {
    if threshold >= 0.0 {
      NormComparison(threshold, d);
    }
  }

  /** Comparing two norms agrees with comparing the squared distances. */
  lemma NormCloser(p1: Pos, q1: Pos, d1: real, p2: Pos, q2: Pos, d2: real)
    requires d1 >= 0.0 && d1 * d1 == SqDist(p1, q1)
    requires d2 >= 0.0 && d2 * d2 == SqDist(p2, q2)
    ensures d1 < d2 <==> SqDist(p1, q1) < SqDist(p2, q2)
    ensures d1 <= d2 <==> SqDist(p1, q1) <= SqDist(p2, q2)
  {
    NormComparison(d1, d2);
  }

  lemma ProductPositive(u: real, v: real)
    requires u > 0.0 && v > 0.0
    ensures u * v > 0.0
  {
  }
}
