/** SimpleFeatureDescriptor.describeFeatures: the 5x5 window of gray levels
    around each keypoint, stored row-major in a K x 25 buffer, with zero for
    pixels outside the image. The grayscale conversion is not modelled: the
    gray image is an input. */
module SimpleDescriptor {
  import opened Fields
  import opened Detector

  /** Length of one descriptor row: a 5 x 5 window. */
  const DescriptorLength: nat := 25

  /** Python's int() of a float: truncation toward zero. */
  function Trunc(v: real): (n: int)
    ensures v >= 0.0 ==> n as real <= v < n as real + 1.0
    ensures v < 0.0 ==> n as real - 1.0 < v <= n as real
  {
    if v >= 0.0 then v.Floor else -((-v).Floor)
  }

  /** The gray level at (r, c), or 0 for a pixel outside the image. */
  function Sample(gray: Field, h: nat, w: nat, r: int, c: int): (v: real)
    requires IsGrid(gray, h, w)
    ensures InImage(h, w, r, c) ==> v == gray[r][c]
    ensures !InImage(h, w, r, c) ==> v == 0.0
  {
    if c > -1 && c < w && r > -1 && r < h then gray[r][c] else 0.0
  }

  /** Entry j of the row-major 5 x 5 window centred on pixel (x, y): row
      y - 2 + j / 5, column x - 2 + j % 5. */
  function WindowEntry(gray: Field, h: nat, w: nat, x: int, y: int, j: nat): real
    requires IsGrid(gray, h, w) && j < DescriptorLength
  {
    Sample(gray, h, w, y - 2 + j / 5, x - 2 + j % 5)
  }

  /** The descriptor row of one keypoint: its position truncated to a pixel,
      then the 25 window entries. */
  function DescriptorRow(gray: Field, h: nat, w: nat, kp: Keypoint): (row: seq<real>)
    requires IsGrid(gray, h, w)
    ensures |row| == DescriptorLength
  {
    seq(DescriptorLength, j requires 0 <= j < DescriptorLength => WindowEntry(gray, h, w, Trunc(kp.x), Trunc(kp.y), j))
  }

  /** The pixel (r, c) of the window around (x, y) is stored at the row-major
      index (r - (y - 2)) * 5 + (c - (x - 2)): its gray level when it lies in
      the image, 0 when it does not. */
  lemma WindowEntryAt(gray: Field, h: nat, w: nat, x: int, y: int, r: int, c: int)
    requires IsGrid(gray, h, w)
    requires y - 2 <= r <= y + 2 && x - 2 <= c <= x + 2
    ensures var j := (r - (y - 2)) * 5 + (c - (x - 2));
            0 <= j < DescriptorLength &&
            WindowEntry(gray, h, w, x, y, j) == (if InImage(h, w, r, c) then gray[r][c] else 0.0)
  {
    var j := (r - (y - 2)) * 5 + (c - (x - 2));
    assert j / 5 == r - (y - 2) && j % 5 == c - (x - 2);
  }

  /** The centre entry (index 12) of a keypoint inside the image is the gray
      level of its own pixel. */
  lemma CentreEntryIsKeypointPixel(gray: Field, h: nat, w: nat, kp: Keypoint)
    requires IsGrid(gray, h, w) && InImage(h, w, Trunc(kp.y), Trunc(kp.x))
    ensures DescriptorRow(gray, h, w, kp)[12] == gray[Trunc(kp.y)][Trunc(kp.x)]
  {
    WindowEntryAt(gray, h, w, Trunc(kp.x), Trunc(kp.y), Trunc(kp.y), Trunc(kp.x));
  }

  /** A window that misses the image entirely gives the all-zero descriptor. */
  lemma WindowOutsideImageIsZero(gray: Field, h: nat, w: nat, x: int, y: int, j: nat)
    requires IsGrid(gray, h, w) && j < DescriptorLength
    requires y + 2 < 0 || y - 2 >= h || x + 2 < 0 || x - 2 >= w
    ensures WindowEntry(gray, h, w, x, y, j) == 0.0
  {
    assert 0 <= j / 5 <= 4 && 0 <= j % 5 <= 4;
  }

  /** describeFeatures, with the row-major store of lines 238-240: the
      K x 25 buffer whose row i is the window around keypoint i. */
  method DescribeFeatures(gray: Field, h: nat, w: nat, keypoints: seq<Keypoint>)
    returns (desc: array2<real>)
    requires IsGrid(gray, h, w)
    ensures fresh(desc)
    ensures desc.Length0 == |keypoints| && desc.Length1 == DescriptorLength
    ensures forall i, j :: 0 <= i < |keypoints| && 0 <= j < DescriptorLength ==>
              desc[i, j] == DescriptorRow(gray, h, w, keypoints[i])[j]
  {
    desc := new real[|keypoints|, 25]((_, _) => 0.0);
    for i := 0 to |keypoints|
      invariant forall i', j :: 0 <= i' < i && 0 <= j < 25 ==>
                  desc[i', j] == DescriptorRow(gray, h, w, keypoints[i'])[j]
    {
      var x, y := Trunc(keypoints[i].x), Trunc(keypoints[i].y);
      for rows := y - 2 to y + 3
        invariant forall i', j :: 0 <= i' < i && 0 <= j < 25 ==>
                    desc[i', j] == DescriptorRow(gray, h, w, keypoints[i'])[j]
        invariant forall j :: 0 <= j < (rows - (y - 2)) * 5 ==> desc[i, j] == WindowEntry(gray, h, w, x, y, j)
      {
        for columns := x - 2 to x + 3
          invariant forall i', j :: 0 <= i' < i && 0 <= j < 25 ==>
                      desc[i', j] == DescriptorRow(gray, h, w, keypoints[i'])[j]
          invariant forall j :: 0 <= j < (rows - (y - 2)) * 5 + (columns - (x - 2)) ==>
                      desc[i, j] == WindowEntry(gray, h, w, x, y, j)
        {
          var pixel;
          if columns > -1 && columns < w && rows > -1 && rows < h {
            pixel := gray[rows][columns];
          } else {
            pixel := 0.0;
          }
          var j := (rows - (y - 2)) * 5 + (columns - (x - 2));
          WindowEntryAt(gray, h, w, x, y, rows, columns);
          desc[i, j] := pixel;
        }
      }
    }
  }

  /** The outcome of describeFeatures as written: the descriptor rows, or
      the NameError raised by the store on line 250. */
  datatype Outcome = Described(rows: seq<seq<real>>) | NameError

  /** describeFeatures as written: the same loops, but the store on line 250
      names a column `j` that nothing binds, so reaching it raises NameError.
      The 5 x 5 window loops always run, so the first keypoint reaches it:
      only an empty keypoint list returns (the empty K x 25 buffer). */
  method DescribeFeaturesAsWritten(gray: Field, h: nat, w: nat, keypoints: seq<Keypoint>) returns (r: Outcome)
    requires IsGrid(gray, h, w)
    ensures r.NameError? <==> |keypoints| > 0
    ensures r.Described? ==> r.rows == []
  {
    var desc := seq(|keypoints|, _ => seq(DescriptorLength, _ => 0.0));
    r := Described(desc);
    for i := 0 to |keypoints|
      invariant r == if i == 0 then Described(desc) else NameError
    {
      var x, y := Trunc(keypoints[i].x), Trunc(keypoints[i].y);
      for rows := y - 2 to y + 3
        invariant r == if i == 0 && rows == y - 2 then Described(desc) else NameError
      {
        for columns := x - 2 to x + 3
          invariant r == if i == 0 && rows == y - 2 && columns == x - 2 then Described(desc) else NameError
        {
          var pixel;
          if columns > -1 && columns < w && rows > -1 && rows < h {
            pixel := gray[rows][columns];
          } else {
            pixel := 0.0;
          }
          // The store desc[i][j] := pixel evaluates the unbound name j.
          r := NameError;
          return;
        }
      }
    }
  }
}
