/** The Harris corner response and the 7x7 local-maximum selector.
    The smoothed gradient products A = G(Ix*Ix), B = G(Ix*Iy) and C = G(Iy*Iy)
    come from Sobel and Gaussian filters that are not part of this model:
    they are inputs here. */
module Harris {
  import opened Fields

  /** Harris sensitivity k in R = det(M) - k * trace(M)^2. */
  const K: real := 0.1

  /** Half-width of the local-maximum window: 2 * 3 + 1 = 7. */
  const Radius: nat := 3

  /** The structure tensor M = [[a, b], [b, c]] at one pixel. */
  datatype Tensor = Tensor(a: real, b: real, c: real)

  function Det(m: Tensor): real { m.a * m.c - m.b * m.b }

  function Trace(m: Tensor): real { m.a + m.c }

  /** Corner strength of one structure tensor. */
  function Response(m: Tensor): (r: real)
    ensures Trace(m) == 0.0 ==> r == Det(m)
    ensures Det(m) <= 0.0 ==> r <= 0.0
  {
    var t := Trace(m);
    assert t * t >= 0.0;
    Det(m) - K * (t * t)
  }

  /** Tensors of real images are positive semi-definite: A and C are smoothed
      squares and B^2 <= A*C by Cauchy-Schwarz. */
  predicate PositiveSemiDefinite(m: Tensor) {
    m.a >= 0.0 && m.c >= 0.0 && m.b * m.b <= m.a * m.c
  }

  /** A flat pixel (no gradient) has zero response. */
  lemma FlatResponseIsZero(m: Tensor)
    requires m.a == 0.0 && m.b == 0.0 && m.c == 0.0
    ensures Response(m) == 0.0
  {
    assert m == Tensor(0.0, 0.0, 0.0);
  }

  /** For a semi-definite tensor the response lies between -k*trace^2 (an edge
      or flat pixel) and (1/4 - k)*trace^2 (two equal eigenvalues). */
  lemma ResponseBounds(m: Tensor)
    requires PositiveSemiDefinite(m)
    ensures -K * (Trace(m) * Trace(m)) <= Response(m)
    ensures Response(m) <= (0.25 - K) * (Trace(m) * Trace(m))
  {
    var d := m.a - m.c;
    assert d * d >= 0.0;
    assert Trace(m) * Trace(m) == d * d + 4.0 * (m.a * m.c);
    assert m.b * m.b >= 0.0;
  }

  /** An edge (a rank-one tensor, B^2 = A*C) has zero determinant, so its
      response is exactly -k * trace^2 and never positive. */
  lemma EdgeResponseIsNonPositive(m: Tensor)
    requires m.b * m.b == m.a * m.c
    ensures Response(m) == -K * (Trace(m) * Trace(m))
    ensures Response(m) <= 0.0
  {
    var t := Trace(m);
    assert Det(m) == 0.0;
    assert t * t >= 0.0;
  }

  /** computeHarrisValues, response part: R = A*C - B^2 - 0.1 * (A + C)^2
      pixel by pixel, with the input's shape. */
  function HarrisImage(A: Field, B: Field, C: Field, h: nat, w: nat): (R: Field)
    requires IsGrid(A, h, w) && IsGrid(B, h, w) && IsGrid(C, h, w)
    ensures IsGrid(R, h, w)
    ensures forall y, x :: 0 <= y < h && 0 <= x < w ==>
              R[y][x] == Response(Tensor(A[y][x], B[y][x], C[y][x]))
  {
    seq(h, y requires 0 <= y < h =>
      seq(w, x requires 0 <= x < w => Response(Tensor(A[y][x], B[y][x], C[y][x]))))
  }

  /** The constant field v of shape h x w. */
  function Constant(v: real, h: nat, w: nat): (f: Field)
    ensures IsGrid(f, h, w)
    ensures forall y, x :: 0 <= y < h && 0 <= x < w ==> f[y][x] == v
  {
    seq(h, _ => seq(w, _ => v))
  }

  /** A uniform image has zero gradients, hence a zero response everywhere. */
  lemma UniformImageHasZeroResponse(h: nat, w: nat)
    ensures var Z := Constant(0.0, h, w);
            forall y, x :: 0 <= y < h && 0 <= x < w ==> HarrisImage(Z, Z, Z, h, w)[y][x] == 0.0
  {
    var Z := Constant(0.0, h, w);
    forall y, x | 0 <= y < h && 0 <= x < w
      ensures HarrisImage(Z, Z, Z, h, w)[y][x] == 0.0
    {
      assert Tensor(Z[y][x], Z[y][x], Z[y][x]) == Tensor(0.0, 0.0, 0.0);
      FlatResponseIsZero(Tensor(0.0, 0.0, 0.0));
    }
  }

  /** Every pixel of the semi-definite tensor fields has a response bounded
      by the trace, as ResponseBounds states for one pixel. */
  lemma HarrisImageBounds(A: Field, B: Field, C: Field, h: nat, w: nat, y: nat, x: nat)
    requires IsGrid(A, h, w) && IsGrid(B, h, w) && IsGrid(C, h, w)
    requires y < h && x < w
    requires PositiveSemiDefinite(Tensor(A[y][x], B[y][x], C[y][x]))
    ensures -K * ((A[y][x] + C[y][x]) * (A[y][x] + C[y][x])) <= HarrisImage(A, B, C, h, w)[y][x]
    ensures HarrisImage(A, B, C, h, w)[y][x] <= (0.25 - K) * ((A[y][x] + C[y][x]) * (A[y][x] + C[y][x]))
  {
    ResponseBounds(Tensor(A[y][x], B[y][x], C[y][x]));
  }

  // ---------------------------------------------------------------------
  // Local maxima

  /** (r, c) lies in the 7x7 window centred on (y, x), clipped to the image. */
  predicate InWindow(h: nat, w: nat, y: int, x: int, r: int, c: int) {
    InImage(h, w, r, c) && y - Radius <= r <= y + Radius && x - Radius <= c <= x + Radius
  }

  function Max(a: real, b: real): real { if a < b then b else a }

  /** Largest of row[lo..hi]. */
  function RowMax(row: seq<real>, lo: nat, hi: nat): (m: real)
    requires lo < hi <= |row|
    ensures forall c :: lo <= c < hi ==> row[c] <= m
    ensures exists c :: lo <= c < hi && row[c] == m
    decreases hi - lo
  {
    if lo + 1 == hi then row[lo] else Max(row[lo], RowMax(row, lo + 1, hi))
  }

  /** Largest entry of the block of rows r0..r1-1 and columns c0..c1-1. */
  function BlockMax(f: Field, r0: nat, r1: nat, c0: nat, c1: nat): (m: real)
    requires r0 < r1 <= |f| && c0 < c1
    requires forall r :: r0 <= r < r1 ==> c1 <= |f[r]|
    ensures forall r, c :: r0 <= r < r1 && c0 <= c < c1 ==> f[r][c] <= m
    ensures exists r, c :: r0 <= r < r1 && c0 <= c < c1 && f[r][c] == m
    decreases r1 - r0
  {
    if r0 + 1 == r1 then RowMax(f[r0], c0, c1)
    else Max(RowMax(f[r0], c0, c1), BlockMax(f, r0 + 1, r1, c0, c1))
  }

  /** First row or column of the clipped window around v. */
  function WindowLo(v: nat): nat { if v < Radius then 0 else v - Radius }

  /** One past the last row or column of the clipped window around v < n. */
  function WindowHi(v: nat, n: nat): nat { if v + Radius + 1 < n then v + Radius + 1 else n }

  /** Maximum of f over the clipped 7x7 window centred on (y, x): what
      maximum_filter with size (7, 7) yields there (its reflected border
      samples are pixels already inside the clipped window). */
  function WindowMax(f: Field, h: nat, w: nat, y: nat, x: nat): (m: real)
    requires IsGrid(f, h, w) && y < h && x < w
    ensures forall r, c :: InWindow(h, w, y, x, r, c) ==> f[r][c] <= m
    ensures exists r, c :: InWindow(h, w, y, x, r, c) && f[r][c] == m
  {
    var m := BlockMax(f, WindowLo(y), WindowHi(y, h), WindowLo(x), WindowHi(x, w));
    assert forall r, c :: InWindow(h, w, y, x, r, c) <==>
      WindowLo(y) <= r < WindowHi(y, h) && WindowLo(x) <= c < WindowHi(x, w);
    m
  }

  /** computeLocalMaxima: a pixel is marked when it equals the maximum of its
      clipped 7x7 window. */
  function LocalMaxima(f: Field, h: nat, w: nat): (mask: Mask)
    requires IsGrid(f, h, w)
    ensures IsGrid(mask, h, w)
  {
    seq(h, y requires 0 <= y < h =>
      seq(w, x requires 0 <= x < w => f[y][x] == WindowMax(f, h, w, y, x)))
  }

  /** A pixel is marked exactly when no pixel of its clipped 7x7 window is
      larger; ties with the window maximum are all marked. */
  lemma LocalMaximaCharacterised(f: Field, h: nat, w: nat, y: nat, x: nat)
    requires IsGrid(f, h, w) && y < h && x < w
    ensures LocalMaxima(f, h, w)[y][x] <==>
            forall r, c :: InWindow(h, w, y, x, r, c) ==> f[r][c] <= f[y][x]
  {
    var m := WindowMax(f, h, w, y, x);
    assert InWindow(h, w, y, x, y, x);
    if forall r, c :: InWindow(h, w, y, x, r, c) ==> f[r][c] <= f[y][x] {
      var r, c :| InWindow(h, w, y, x, r, c) && f[r][c] == m;
    }
  }

  /** A pixel attaining the maximum of the whole field is always marked, so a
      non-empty image has at least one local maximum. */
  lemma GlobalMaximumIsMarked(f: Field, h: nat, w: nat, y: nat, x: nat)
    requires IsGrid(f, h, w) && y < h && x < w
    requires forall r, c :: InImage(h, w, r, c) ==> f[r][c] <= f[y][x]
    ensures LocalMaxima(f, h, w)[y][x]
  {
    LocalMaximaCharacterised(f, h, w, y, x);
  }

  /** A non-empty image has at least one local maximum: a pixel attaining
      the maximum of the whole field. */
  lemma NonEmptyImageHasLocalMaximum(f: Field, h: nat, w: nat)
    requires IsGrid(f, h, w) && h > 0 && w > 0
    ensures exists y, x :: 0 <= y < h && 0 <= x < w && LocalMaxima(f, h, w)[y][x]
  {
    var m := BlockMax(f, 0, h, 0, w);
    var y, x :| 0 <= y < h && 0 <= x < w && f[y][x] == m;
    GlobalMaximumIsMarked(f, h, w, y, x);
  }

  /** A constant field (the response of a uniform image) is marked everywhere. */
  lemma ConstantFieldAllMarked(f: Field, v: real, h: nat, w: nat)
    requires IsGrid(f, h, w)
    requires forall y, x :: 0 <= y < h && 0 <= x < w ==> f[y][x] == v
    ensures forall y, x :: 0 <= y < h && 0 <= x < w ==> LocalMaxima(f, h, w)[y][x]
  {
    forall y, x | 0 <= y < h && 0 <= x < w
      ensures LocalMaxima(f, h, w)[y][x]
    {
      LocalMaximaCharacterised(f, h, w, y, x);
    }
  }
}
