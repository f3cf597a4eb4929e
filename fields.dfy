/** Dense row-major 2-D fields (images, responses, masks, distance matrices)
    and the index bounds test shared by the feature pipeline. */
module Fields {

  /** A scalar field: f[y][x] is the value at row y, column x. */
  type Field = seq<seq<real>>

  /** A boolean field, such as the local-maximum mask. */
  type Mask = seq<seq<bool>>

  /** f has exactly h rows of exactly w entries each. */
  predicate IsGrid<T>(f: seq<seq<T>>, h: nat, w: nat) {
    |f| == h && forall y :: 0 <= y < h ==> |f[y]| == w
  }

  /** (r, c) is a pixel of an h-by-w image. */
  predicate InImage(h: int, w: int, r: int, c: int) {
    0 <= r < h && 0 <= c < w
  }

  /** inbounds: walks the coordinates in order and answers false at the first
      one outside [0, shape[i]); true when none is. */
  method InBounds(shape: seq<int>, indices: seq<int>) returns (inside: bool)
    requires |shape| == |indices|
    ensures inside <==> forall i :: 0 <= i < |shape| ==> 0 <= indices[i] < shape[i]
    ensures |shape| == 2 ==> (inside <==> InImage(shape[0], shape[1], indices[0], indices[1]))
  {
    for i := 0 to |indices|
      invariant forall k :: 0 <= k < i ==> 0 <= indices[k] < shape[k]
    {
      if indices[i] < 0 || indices[i] >= shape[i] {
        return false;
      }
    }
    return true;
  }
}
