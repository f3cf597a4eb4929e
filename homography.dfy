/** FeatureMatcher.applyHomography: the projective map of an image point by a
    3x3 homography stored row-major as a 9-vector. */
module Homography {

  /** An image point (x, y). */
  datatype Point = Point(x: real, y: real)

  /** A homography: nine entries, row-major. */
  type Matrix = seq<real>

  /** The identity homography [1, 0, 0, 0, 1, 0, 0, 0, 1]. */
  const Identity: Matrix := [1.0, 0.0, 0.0, 0.0, 1.0, 0.0, 0.0, 0.0, 1.0]

  /** Row i of h (0, 1 or 2) applied to the homogeneous point (x, y, 1). */
  function Row(h: Matrix, i: nat, pt: Point): real
    requires |h| == 9 && i < 3
  {
    h[3 * i] * pt.x + h[3 * i + 1] * pt.y + h[3 * i + 2]
  }

  /** The projective denominator d = h6 * x + h7 * y + h8. */
  function Denominator(h: Matrix, pt: Point): real
    requires |h| == 9
  {
    Row(h, 2, pt)
  }

  /** applyHomography: the first two homogeneous coordinates of h * (x, y, 1)
      divided by the third. The source has no guard against d = 0, so d must
      be non-zero. The result is the point whose homogeneous scaling by d is
      h * (x, y, 1). */
  function ApplyHomography(pt: Point, h: Matrix): (q: Point)
    requires |h| == 9 && Denominator(h, pt) != 0.0
    ensures q.x * Denominator(h, pt) == Row(h, 0, pt)
    ensures q.y * Denominator(h, pt) == Row(h, 1, pt)
  {
    var d := Denominator(h, pt);
    Point(Row(h, 0, pt) / d, Row(h, 1, pt) / d)
  }

  /** The identity homography leaves every point where it is. */
  lemma IdentityFixesPoint(pt: Point)
    ensures ApplyHomography(pt, Identity) == pt
  {
    assert Denominator(Identity, pt) == 1.0;
  }

  /** An affine homography (last row 0, 0, 1) needs no division. */
  lemma AffineHasNoDivision(pt: Point, h: Matrix)
    requires |h| == 9 && h[6] == 0.0 && h[7] == 0.0 && h[8] == 1.0
    ensures ApplyHomography(pt, h) == Point(Row(h, 0, pt), Row(h, 1, pt))
  {
    assert Denominator(h, pt) == 1.0;
  }

  /** Every entry of h multiplied by c. */
  function Scale(c: real, h: Matrix): (g: Matrix)
    requires |h| == 9
    ensures |g| == 9 && forall i :: 0 <= i < 9 ==> g[i] == c * h[i]
  {
    seq(9, i requires 0 <= i < 9 => c * h[i])
  }

  /** n / d is unchanged when both are multiplied by c != 0. */
  lemma CancelCommonFactor(c: real, n: real, d: real)
    requires c != 0.0 && d != 0.0
    ensures c * d != 0.0
    ensures (c * n) / (c * d) == n / d
  {
  }

  /** Scaling the coefficients of a row scales its value. */
  lemma ScaleRow(c: real, a: real, b: real, e: real, x: real, y: real)
    ensures (c * a) * x + (c * b) * y + c * e == c * (a * x + b * y + e)
  {
  }

  /** A row of c * h applied to a point is c times the row of h. */
  lemma RowOfScaled(h: Matrix, c: real, pt: Point, i: nat)
    requires |h| == 9 && i < 3
    ensures Row(Scale(c, h), i, pt) == c * Row(h, i, pt)
  {
    var g := Scale(c, h);
    var a, b, e := h[3 * i], h[3 * i + 1], h[3 * i + 2];
    assert Row(g, i, pt) == (c * a) * pt.x + (c * b) * pt.y + c * e;
    ScaleRow(c, a, b, e, pt.x, pt.y);
  }

  /** Homographies are defined up to scale: h and c * h map every point alike. */
  lemma ScaleInvariant(pt: Point, h: Matrix, c: real)
    requires |h| == 9 && c != 0.0 && Denominator(h, pt) != 0.0
    ensures Denominator(Scale(c, h), pt) != 0.0
    ensures ApplyHomography(pt, Scale(c, h)) == ApplyHomography(pt, h)
  {
    RowOfScaled(h, c, pt, 0);
    RowOfScaled(h, c, pt, 1);
    RowOfScaled(h, c, pt, 2);
    CancelCommonFactor(c, Row(h, 0, pt), Denominator(h, pt));
    CancelCommonFactor(c, Row(h, 1, pt), Denominator(h, pt));
  }

  /** Entry (i, j) of the matrix product h * g. */
  function ProductEntry(h: Matrix, g: Matrix, i: nat, j: nat): real
    requires |h| == 9 && |g| == 9 && i < 3 && j < 3
  {
    h[3 * i] * g[j] + h[3 * i + 1] * g[3 + j] + h[3 * i + 2] * g[6 + j]
  }

  /** The matrix product h * g, row-major. */
  function Compose(h: Matrix, g: Matrix): (p: Matrix)
    requires |h| == 9 && |g| == 9
    ensures |p| == 9
    ensures forall i, j :: 0 <= i < 3 && 0 <= j < 3 ==> p[3 * i + j] == ProductEntry(h, g, i, j)
  {
    [ProductEntry(h, g, 0, 0), ProductEntry(h, g, 0, 1), ProductEntry(h, g, 0, 2),
     ProductEntry(h, g, 1, 0), ProductEntry(h, g, 1, 1), ProductEntry(h, g, 1, 2),
     ProductEntry(h, g, 2, 0), ProductEntry(h, g, 2, 1), ProductEntry(h, g, 2, 2)]
  }

  /** Distributing a row over the columns of g: sum_j (sum_k h_k g_kj) x_j
      equals sum_k h_k (sum_j g_kj x_j). */
  lemma Distribute(h0: real, h1: real, h2: real,
                   g0: real, g1: real, g2: real, g3: real, g4: real, g5: real,
                   g6: real, g7: real, g8: real, x: real, y: real)
    ensures (h0 * g0 + h1 * g3 + h2 * g6) * x + (h0 * g1 + h1 * g4 + h2 * g7) * y + (h0 * g2 + h1 * g5 + h2 * g8)
         == h0 * (g0 * x + g1 * y + g2) + h1 * (g3 * x + g4 * y + g5) + h2 * (g6 * x + g7 * y + g8)
  {
  }

  /** A row of the product applied to (x, y, 1) is the row of h applied to
      the homogeneous image (u, v, d) of the point under g. */
  lemma ComposeRow(h: Matrix, g: Matrix, pt: Point, i: nat)
    requires |h| == 9 && |g| == 9 && i < 3
    ensures Row(Compose(h, g), i, pt) ==
            h[3 * i] * Row(g, 0, pt) + h[3 * i + 1] * Row(g, 1, pt) + h[3 * i + 2] * Row(g, 2, pt)
  {
    var p := Compose(h, g);
    assert p[3 * i] == ProductEntry(h, g, i, 0);
    assert p[3 * i + 1] == ProductEntry(h, g, i, 1);
    assert p[3 * i + 2] == ProductEntry(h, g, i, 2);
    Distribute(h[3 * i], h[3 * i + 1], h[3 * i + 2], g[0], g[1], g[2], g[3], g[4], g[5], g[6], g[7], g[8], pt.x, pt.y);
  }

  /** a * (u / d) + b * (v / d) + c, over the common denominator d. */
  lemma CommonDenominator(a: real, b: real, c: real, u: real, v: real, d: real)
    requires d != 0.0
    ensures a * (u / d) + b * (v / d) + c == (a * u + b * v + c * d) / d
  {
  }

  /** (n / d) / (m / d) == n / m. */
  lemma QuotientOfQuotients(n: real, m: real, d: real)
    requires d != 0.0 && m / d != 0.0
    ensures m != 0.0
    ensures (n / d) / (m / d) == n / m
  {
  }

  /** Mapping by g and then by h is mapping by the product h * g, wherever
      both steps are defined. */
  lemma ComposeApplies(pt: Point, h: Matrix, g: Matrix)
    requires |h| == 9 && |g| == 9
    requires Denominator(g, pt) != 0.0
    requires Denominator(h, ApplyHomography(pt, g)) != 0.0
    ensures Denominator(Compose(h, g), pt) != 0.0
    ensures ApplyHomography(ApplyHomography(pt, g), h) == ApplyHomography(pt, Compose(h, g))
  {
    var q := ApplyHomography(pt, g);
    var u, v, d := Row(g, 0, pt), Row(g, 1, pt), Row(g, 2, pt);
    assert q.x == u / d && q.y == v / d;
    ComposeRow(h, g, pt, 0);
    ComposeRow(h, g, pt, 1);
    ComposeRow(h, g, pt, 2);
    CommonDenominator(h[0], h[1], h[2], u, v, d);
    CommonDenominator(h[3], h[4], h[5], u, v, d);
    CommonDenominator(h[6], h[7], h[8], u, v, d);
    var n0, n1, m := Row(Compose(h, g), 0, pt), Row(Compose(h, g), 1, pt), Row(Compose(h, g), 2, pt);
    assert Row(h, 0, q) == n0 / d && Row(h, 1, q) == n1 / d && Denominator(h, q) == m / d;
    QuotientOfQuotients(n0, m, d);
    QuotientOfQuotients(n1, m, d);
  }
}
