/**
 * Points, the Euclidean length as an abstract metric, Python's rounding,
 * the quantized keys that identify coincident UV points, and the cubic
 * Bezier blend.
 *
 * Coordinates are exact reals. Euclidean length needs a square root, which
 * is not part of the model: every operation that measures a segment takes
 * the length function as a parameter of type `Metric`, which only promises
 * what Euclidean length is known to satisfy.
 */
module Geometry {

  /** A UV-space position (mathutils.Vector of size 2). */
  datatype Point = Point(x: real, y: real)

  /** A 3D vertex position (mathutils.Vector of size 3). */
  datatype Point3 = Point3(x: real, y: real, z: real)

  function Add(a: Point, b: Point): Point { Point(a.x + b.x, a.y + b.y) }
  function Sub(a: Point, b: Point): Point { Point(a.x - b.x, a.y - b.y) }
  function Scale(a: Point, k: real): Point { Point(a.x * k, a.y * k) }
  function Dot(a: Point, b: Point): real { a.x * b.x + a.y * b.y }

  /** Squared length of `a - b` (Vector.length_squared), exact without a root. */
  function SqDist(a: Point, b: Point): (r: real)
    ensures r >= 0.0
    ensures a == b ==> r == 0.0
  {
    Dot(Sub(a, b), Sub(a, b))
  }

  function Min(a: real, b: real): real { if a <= b then a else b }
  function Max(a: real, b: real): real { if a >= b then a else b }
  function Abs(a: real): real { if a < 0.0 then -a else a }

  /**
   * Vector.lerp: the blend (1 - t) * a + t * b. It is a itself at t = 0 and
   * b itself at t = 1.
   */
  function Lerp(a: Point, b: Point, t: real): (r: Point)
    ensures t == 0.0 ==> r == a
    ensures t == 1.0 ==> r == b
  {
    Point(a.x * (1.0 - t) + b.x * t, a.y * (1.0 - t) + b.y * t)
  }

  /** What is known of Euclidean length without computing a square root. */
  ghost predicate IsMetric<P(!new)>(f: (P, P) -> real) {
    && (forall a, b :: f(a, b) >= 0.0)
    && (forall a :: f(a, a) == 0.0)
    && (forall a, b :: f(a, b) == f(b, a))
    && (forall a, b :: f(a, b) == 0.0 ==> a == b)
  }

  /**
   * A length function: non-negative, zero exactly on equal points, symmetric.
   * `(a - b).length` in the source is `dist(a, b)` here.
   */
  type Metric<!P(==,!new)> = f: (P, P) -> real | IsMetric(f)
    witness (a: P, b: P) => if a == b then 0.0 else 1.0

  /**
   * Python's round() on a float: the nearest integer, ties to the even one.
   */
  function Round(r: real): (n: int)
    ensures n as real - 0.5 <= r <= n as real + 0.5
    ensures r - n as real == 0.5 ==> n % 2 == 0
    ensures n as real - r == 0.5 ==> n % 2 == 0
  {
    var f := r.Floor;
    var frac := r - f as real;
    if frac < 0.5 then f
    else if frac > 0.5 then f + 1
    else if f % 2 == 0 then f
    else f + 1
  }

  /** Rounding never reverses the order of two reals. */
  lemma RoundMonotone(r: real, s: real)
    requires r <= s
    ensures Round(r) <= Round(s)
  {
  }

  /** A quantized graph or weld key: a pair of integers. */
  datatype Key = Key(u: int, v: int)

  /** Python's tuple order `a <= b` on keys, as used to orient an edge. */
  predicate KeyLe(a: Key, b: Key) {
    a.u < b.u || (a.u == b.u && a.v <= b.v)
  }

  /** `s = int(round(1.0 / max(tol, 1e-12)))` (operators/match3d.py). */
  function KeyScale(tol: real): int {
    Round(1.0 / Max(tol, 1e-12))
  }

  /**
   * `(int(round(v.x * s)), int(round(v.y * s)))`: the key of a point at a
   * tolerance. The same function with the graph tolerance builds the
   * topology graph, with the weld tolerance it decides which loops move
   * together.
   */
  function QuantizeKey(p: Point, tol: real): Key {
    var s := KeyScale(tol) as real;
    Key(Round(p.x * s), Round(p.y * s))
  }

  /** The graph tolerance derived from the user's weld tolerance. */
  function GraphTolerance(weld: real): real {
    Min(weld * 0.25, 5e-7)
  }

  /**
   * For every weld tolerance the operators accept (1e-8 to 1e-2), the graph
   * tolerance is the finer one: it is at most the weld tolerance and at
   * most 5e-7, its key grid is at least as fine as the weld grid, and both
   * grids have at least 100 cells per unit.
   */
  lemma GraphToleranceIsFiner(weld: real)
    requires 1e-8 <= weld <= 1e-2
    ensures GraphTolerance(weld) <= weld
    ensures GraphTolerance(weld) <= 5e-7
    ensures KeyScale(GraphTolerance(weld)) >= KeyScale(weld) >= 100
  {
    var g := GraphTolerance(weld);
    assert 1e-12 <= g <= weld;
    assert Max(g, 1e-12) == g && Max(weld, 1e-12) == weld;
    assert 1.0 / g >= 1.0 / weld by {
      assert weld * (1.0 / weld) == 1.0;
      assert g * (1.0 / g) == 1.0;
      assert g * (1.0 / weld) <= weld * (1.0 / weld);
    }
    assert 1.0 / weld >= 100.0 by {
      var q := 1.0 / weld;
      assert weld * q == 1.0;
      assert weld * (q - 100.0) == 1.0 - weld * 100.0 >= 0.0;
    }
    RoundMonotone(1.0 / weld, 1.0 / g);
    RoundMonotone(100.0, 1.0 / weld);
  }

  /** `p.x - round(p.x)`: one coordinate moved by an integer into [-0.5, 0.5]. */
  function WrapCoord(c: real): (w: real)
    ensures -0.5 <= w <= 0.5
    ensures (c - w).Floor as real == c - w
  {
    c - Round(c) as real
  }

  /**
   * A coordinate is left alone by the wrap exactly when it already lies in
   * [-0.5, 0.5]; both ends of the interval are fixed because ties round to
   * the even integer 0.
   */
  lemma {:induction false} WrapCoordFixed(c: real)
    ensures WrapCoord(c) == c <==> -0.5 <= c <= 0.5
  {
    if -0.5 <= c <= 0.5 {
      if c == 0.5 {
        assert Round(c) == 0;
      } else if c == -0.5 {
        assert c.Floor == -1;
        assert Round(c) == 0;
      } else {
        assert Round(c) == 0;
      }
    }
  }

  /** Wrapping twice is wrapping once. */
  lemma WrapCoordIdempotent(c: real)
    ensures WrapCoord(WrapCoord(c)) == WrapCoord(c)
  {
    WrapCoordFixed(WrapCoord(c));
  }

  /**
   * utils.bezier_cubic: the cubic Bezier blend of four control values. The
   * four Bernstein weights add up to one, the curve starts at b0 and ends
   * at b3.
   */
  function BezierCubic(b0: Point, b1: Point, b2: Point, b3: Point, t: real): (r: Point)
    ensures t == 0.0 ==> r == b0
    ensures t == 1.0 ==> r == b3
  {
    var it := 1.0 - t;
    var w0 := it * it * it;
    var w1 := 3.0 * it * it * t;
    var w2 := 3.0 * it * t * t;
    var w3 := t * t * t;
    Point(w0 * b0.x + w1 * b1.x + w2 * b2.x + w3 * b3.x,
          w0 * b0.y + w1 * b1.y + w2 * b2.y + w3 * b3.y)
  }

  /** The four Bernstein weights of bezier_cubic form a partition of unity. */
  lemma BezierWeightsSumToOne(t: real)
    ensures var it := 1.0 - t;
            it * it * it + 3.0 * it * it * t + 3.0 * it * t * t + t * t * t == 1.0
  {
    var it := 1.0 - t;
    assert it + t == 1.0;
    calc {
      it * it * it + 3.0 * it * it * t + 3.0 * it * t * t + t * t * t;
      (it + t) * (it + t) * (it + t);
      1.0;
    }
  }
}
