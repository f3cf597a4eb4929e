/** HarrisKeypointDetector.detectKeypoints: Harris response, 7x7 local maxima,
    then one keypoint per marked pixel in row-major order. */
module Detector {
  import opened Fields
  import opened Harris

  /** Every detected keypoint has this fixed size. */
  const KeypointSize: real := 10.0

  /** A detected keypoint: position pt = (x, y), size, gradient angle in
      degrees and Harris response. */
  datatype Keypoint = Keypoint(x: real, y: real, size: real, angle: real, response: real)

  /** The keypoint emitted for a marked pixel (x, y). */
  function KeypointAt(harris: Field, orientation: Field, y: nat, x: nat): Keypoint
    requires y < |harris| && x < |harris[y]| && y < |orientation| && x < |orientation[y]|
  {
    Keypoint(x as real, y as real, KeypointSize, orientation[y][x], harris[y][x])
  }

  /** Keypoints of the marked pixels among columns 0..x-1 of row y, left to right. */
  function RowScan(mask: Mask, harris: Field, orientation: Field, h: nat, w: nat, y: nat, x: nat): (s: seq<Keypoint>)
    requires IsGrid(mask, h, w) && IsGrid(harris, h, w) && IsGrid(orientation, h, w)
    requires y < h && x <= w
    ensures |s| <= x
  {
    if x == 0 then []
    else RowScan(mask, harris, orientation, h, w, y, x - 1) +
         (if mask[y][x - 1] then [KeypointAt(harris, orientation, y, x - 1)] else [])
  }

  /** Keypoints of the marked pixels of rows 0..y-1, in row-major order. */
  function Scan(mask: Mask, harris: Field, orientation: Field, h: nat, w: nat, y: nat): (s: seq<Keypoint>)
    requires IsGrid(mask, h, w) && IsGrid(harris, h, w) && IsGrid(orientation, h, w)
    requires y <= h
    ensures |s| <= y * w
  {
    if y == 0 then []
    else
      var above := Scan(mask, harris, orientation, h, w, y - 1);
      assert (y - 1) * w + w == y * w;
      above + RowScan(mask, harris, orientation, h, w, y - 1, w)
  }

  /** p comes strictly before q in row-major order (y outer, x inner). */
  predicate RowMajorBefore(p: Keypoint, q: Keypoint) {
    p.y < q.y || (p.y == q.y && p.x < q.x)
  }

  /** Each keypoint of s comes strictly before the next ones in row-major order. */
  predicate RowMajorSorted(s: seq<Keypoint>) {
    forall i, j :: 0 <= i < j < |s| ==> RowMajorBefore(s[i], s[j])
  }

  /** All keypoints of s lie on row y, left of column x. */
  predicate OnRowBefore(s: seq<Keypoint>, y: nat, x: nat) {
    forall i :: 0 <= i < |s| ==> s[i].y == y as real && s[i].x < x as real
  }

  /** All keypoints of s lie above row y. */
  predicate AboveRow(s: seq<Keypoint>, y: nat) {
    forall i :: 0 <= i < |s| ==> s[i].y < y as real
  }

  /** The keypoint loop of detectKeypoints: visits the pixels row by row and
      appends one keypoint per marked pixel. */
  method ExtractKeypoints(mask: Mask, harris: Field, orientation: Field, h: nat, w: nat)
    returns (features: seq<Keypoint>)
    requires IsGrid(mask, h, w) && IsGrid(harris, h, w) && IsGrid(orientation, h, w)
    ensures features == Scan(mask, harris, orientation, h, w, h)
  {
    features := [];
    for y := 0 to h
      invariant features == Scan(mask, harris, orientation, h, w, y)
    {
      for x := 0 to w
        invariant features == Scan(mask, harris, orientation, h, w, y)
                              + RowScan(mask, harris, orientation, h, w, y, x)
      {
        if !mask[y][x] {
          continue;
        }
        var f := KeypointAt(harris, orientation, y, x);
        features := features + [f];
      }
    }
  }

  /** detectKeypoints, with the gradient products A, B, C and the orientation
      field given: the Harris response, its local-maximum mask, then the scan. */
  method DetectKeypoints(A: Field, B: Field, C: Field, orientation: Field, h: nat, w: nat)
    returns (features: seq<Keypoint>)
    requires IsGrid(A, h, w) && IsGrid(B, h, w) && IsGrid(C, h, w) && IsGrid(orientation, h, w)
    ensures var harris := HarrisImage(A, B, C, h, w);
            features == Scan(LocalMaxima(harris, h, w), harris, orientation, h, w, h)
  {
    var harrisImage := HarrisImage(A, B, C, h, w);
    var harrisMaxImage := LocalMaxima(harrisImage, h, w);
    features := ExtractKeypoints(harrisMaxImage, harrisImage, orientation, h, w);
  }

  // ---------------------------------------------------------------------
  // What the scan emits

  /** Every keypoint of row y up to column x comes from a marked pixel of that row. */
  lemma {:induction false} RowScanSound(mask: Mask, harris: Field, orientation: Field, h: nat, w: nat, y: nat, x: nat, i: nat)
    requires IsGrid(mask, h, w) && IsGrid(harris, h, w) && IsGrid(orientation, h, w)
    requires y < h && x <= w && i < |RowScan(mask, harris, orientation, h, w, y, x)|
    ensures exists c :: 0 <= c < x && mask[y][c] &&
              RowScan(mask, harris, orientation, h, w, y, x)[i] == KeypointAt(harris, orientation, y, c)
  {
    var prev := RowScan(mask, harris, orientation, h, w, y, x - 1);
    if i < |prev| {
      RowScanSound(mask, harris, orientation, h, w, y, x - 1, i);
    } else {
      assert RowScan(mask, harris, orientation, h, w, y, x)[i] == KeypointAt(harris, orientation, y, x - 1);
    }
  }

  /** Every marked pixel of row y before column x has its keypoint in the row scan. */
  lemma {:induction false} RowScanComplete(mask: Mask, harris: Field, orientation: Field, h: nat, w: nat, y: nat, x: nat, c: nat)
    requires IsGrid(mask, h, w) && IsGrid(harris, h, w) && IsGrid(orientation, h, w)
    requires y < h && c < x <= w && mask[y][c]
    ensures KeypointAt(harris, orientation, y, c) in RowScan(mask, harris, orientation, h, w, y, x)
  {
    if c < x - 1 {
      RowScanComplete(mask, harris, orientation, h, w, y, x - 1, c);
    }
  }

  /** The row scan lists its keypoints on row y, left of column x, in
      strictly increasing column order. */
  lemma {:induction false} RowScanOrdered(mask: Mask, harris: Field, orientation: Field, h: nat, w: nat, y: nat, x: nat)
    requires IsGrid(mask, h, w) && IsGrid(harris, h, w) && IsGrid(orientation, h, w)
    requires y < h && x <= w
    ensures OnRowBefore(RowScan(mask, harris, orientation, h, w, y, x), y, x)
    ensures RowMajorSorted(RowScan(mask, harris, orientation, h, w, y, x))
  {
    if x > 0 {
      var prev := RowScan(mask, harris, orientation, h, w, y, x - 1);
      RowScanOrdered(mask, harris, orientation, h, w, y, x - 1);
      if mask[y][x - 1] {
        var s := prev + [KeypointAt(harris, orientation, y, x - 1)];
        assert RowScan(mask, harris, orientation, h, w, y, x) == s;
        forall i, j | 0 <= i < j < |s|
          ensures RowMajorBefore(s[i], s[j])
        {
          assert s[i] == prev[i];
          if j < |prev| {
            assert s[j] == prev[j];
          }
        }
      } else {
        assert RowScan(mask, harris, orientation, h, w, y, x) == prev;
      }
    }
  }

  /** Rows 0..y-1 of the scan: every keypoint lies above row y, and the list is
      strictly increasing in row-major order. */
  lemma {:induction false} ScanOrdered(mask: Mask, harris: Field, orientation: Field, h: nat, w: nat, y: nat)
    requires IsGrid(mask, h, w) && IsGrid(harris, h, w) && IsGrid(orientation, h, w)
    requires y <= h
    ensures AboveRow(Scan(mask, harris, orientation, h, w, y), y)
    ensures RowMajorSorted(Scan(mask, harris, orientation, h, w, y))
  {
    if y > 0 {
      var above := Scan(mask, harris, orientation, h, w, y - 1);
      var row := RowScan(mask, harris, orientation, h, w, y - 1, w);
      ScanOrdered(mask, harris, orientation, h, w, y - 1);
      RowScanOrdered(mask, harris, orientation, h, w, y - 1, w);
      var s := above + row;
      assert Scan(mask, harris, orientation, h, w, y) == s;
      forall i | 0 <= i < |s|
        ensures s[i].y < y as real
      {
        if i < |above| {
          assert s[i] == above[i];
        } else {
          assert s[i] == row[i - |above|];
        }
      }
      forall i, j | 0 <= i < j < |s|
        ensures RowMajorBefore(s[i], s[j])
      {
        if j < |above| {
          assert s[i] == above[i] && s[j] == above[j];
        } else if i < |above| {
          assert s[i] == above[i] && s[j] == row[j - |above|];
        } else {
          assert s[i] == row[i - |above|] && s[j] == row[j - |above|];
        }
      }
    }
  }

  /** Soundness: every keypoint of the scan comes from a marked pixel, with
      pt = (x, y), size 10, the orientation as angle and the Harris value as response. */
  lemma {:induction false} ScanSound(mask: Mask, harris: Field, orientation: Field, h: nat, w: nat, y: nat, i: nat)
    requires IsGrid(mask, h, w) && IsGrid(harris, h, w) && IsGrid(orientation, h, w)
    requires y <= h && i < |Scan(mask, harris, orientation, h, w, y)|
    ensures exists r, c :: 0 <= r < y && 0 <= c < w && mask[r][c] &&
              Scan(mask, harris, orientation, h, w, y)[i] == KeypointAt(harris, orientation, r, c)
  {
    var prev := Scan(mask, harris, orientation, h, w, y - 1);
    if i < |prev| {
      ScanSound(mask, harris, orientation, h, w, y - 1, i);
    } else {
      RowScanSound(mask, harris, orientation, h, w, y - 1, w, i - |prev|);
    }
  }

  /** Completeness: every marked pixel above row y has its keypoint in the scan. */
  lemma {:induction false} ScanComplete(mask: Mask, harris: Field, orientation: Field, h: nat, w: nat, y: nat, r: nat, c: nat)
    requires IsGrid(mask, h, w) && IsGrid(harris, h, w) && IsGrid(orientation, h, w)
    requires r < y <= h && c < w && mask[r][c]
    ensures KeypointAt(harris, orientation, r, c) in Scan(mask, harris, orientation, h, w, y)
  {
    var above := Scan(mask, harris, orientation, h, w, y - 1);
    var row := RowScan(mask, harris, orientation, h, w, y - 1, w);
    assert Scan(mask, harris, orientation, h, w, y) == above + row;
    if r < y - 1 {
      ScanComplete(mask, harris, orientation, h, w, y - 1, r, c);
    } else {
      RowScanComplete(mask, harris, orientation, h, w, r, w, c);
    }
  }

  /** The keypoints of a mask that marks every pixel: one per pixel. */
  lemma {:induction false} ScanAllMarkedLength(mask: Mask, harris: Field, orientation: Field, h: nat, w: nat, y: nat)
    requires IsGrid(mask, h, w) && IsGrid(harris, h, w) && IsGrid(orientation, h, w)
    requires y <= h && forall r, c :: 0 <= r < h && 0 <= c < w ==> mask[r][c]
    ensures |Scan(mask, harris, orientation, h, w, y)| == y * w
  {
    if y > 0 {
      ScanAllMarkedLength(mask, harris, orientation, h, w, y - 1);
      RowAllMarkedLength(mask, harris, orientation, h, w, y - 1, w);
      assert |Scan(mask, harris, orientation, h, w, y)|
          == |Scan(mask, harris, orientation, h, w, y - 1)| + |RowScan(mask, harris, orientation, h, w, y - 1, w)|;
      assert (y - 1) * w + w == y * w;
    }
  }

  lemma {:induction false} RowAllMarkedLength(mask: Mask, harris: Field, orientation: Field, h: nat, w: nat, y: nat, x: nat)
    requires IsGrid(mask, h, w) && IsGrid(harris, h, w) && IsGrid(orientation, h, w)
    requires y < h && x <= w && forall c :: 0 <= c < w ==> mask[y][c]
    ensures |RowScan(mask, harris, orientation, h, w, y, x)| == x
  {
    if x > 0 {
      RowAllMarkedLength(mask, harris, orientation, h, w, y, x - 1);
    }
  }

  /** A mask that marks every pixel yields exactly one keypoint per pixel. */
  lemma AllMarkedYieldsEveryPixel(mask: Mask, harris: Field, orientation: Field, h: nat, w: nat)
    requires IsGrid(mask, h, w) && IsGrid(harris, h, w) && IsGrid(orientation, h, w)
    requires forall r, c :: 0 <= r < h && 0 <= c < w ==> mask[r][c]
    ensures |Scan(mask, harris, orientation, h, w, h)| == h * w
    ensures forall r, c :: 0 <= r < h && 0 <= c < w ==>
              KeypointAt(harris, orientation, r, c) in Scan(mask, harris, orientation, h, w, h)
  {
    ScanAllMarkedLength(mask, harris, orientation, h, w, h);
    forall r, c | 0 <= r < h && 0 <= c < w
      ensures KeypointAt(harris, orientation, r, c) in Scan(mask, harris, orientation, h, w, h)
    {
      ScanComplete(mask, harris, orientation, h, w, h, r, c);
    }
  }

  /** A uniform image has zero gradients, so all three gradient products are
      zero; then the response is zero, every pixel is a local maximum, and
      every pixel yields a keypoint. */
  lemma UniformImageYieldsEveryPixel(A: Field, B: Field, C: Field, orientation: Field, h: nat, w: nat)
    requires IsGrid(A, h, w) && IsGrid(B, h, w) && IsGrid(C, h, w) && IsGrid(orientation, h, w)
    requires forall y, x :: 0 <= y < h && 0 <= x < w ==> A[y][x] == 0.0 && B[y][x] == 0.0 && C[y][x] == 0.0
    ensures var harris := HarrisImage(A, B, C, h, w);
            var features := Scan(LocalMaxima(harris, h, w), harris, orientation, h, w, h);
            |features| == h * w &&
            forall r, c :: 0 <= r < h && 0 <= c < w ==> KeypointAt(harris, orientation, r, c) in features
  {
    var harris := HarrisImage(A, B, C, h, w);
    forall y, x | 0 <= y < h && 0 <= x < w
      ensures harris[y][x] == 0.0
    {
      assert Tensor(A[y][x], B[y][x], C[y][x]) == Tensor(0.0, 0.0, 0.0);
      FlatResponseIsZero(Tensor(0.0, 0.0, 0.0));
    }
    ConstantFieldAllMarked(harris, 0.0, h, w);
    AllMarkedYieldsEveryPixel(LocalMaxima(harris, h, w), harris, orientation, h, w);
  }
}
