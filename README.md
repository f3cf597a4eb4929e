# Harris features, simple descriptors and matchers — a Dafny model

This project models the core of `features.py`, the feature stage of an
image-stitching pipeline. The stage has these parts:

- a Harris corner detector: the response formula, a 7x7 local-maximum mask
  and a row-major keypoint scan;
- the simple 5x5 window descriptor;
- the SSD and ratio-test feature matchers;
- the projective point map used to score matches against a homography.

Images, responses and distance matrices are dense row-major fields of reals
(`seq<seq<real>>` with a shape predicate `Fields.IsGrid`). The numeric
primitives before each step are inputs:

- the Sobel/Gaussian gradient products A, B, C;
- the orientation field;
- the grayscale image;
- the Euclidean distance matrix.

The loops of the source are methods proved against specification functions:

- the keypoint scan against `Detector.Scan`;
- the descriptor fill against `SimpleDescriptor.DescriptorRow`;
- the matchers against `Matchers.SsdMatches` and `Matchers.RatioMatches`.

The whole-array expressions of the source are functions: `Harris.HarrisImage`,
`Harris.LocalMaxima` and `Homography.ApplyHomography`.

The ratio matcher works on a fresh 2-D buffer holding the distance matrix, as
cdist's result is. It overwrites each row's best entry with 1000 in place. Its
second distance is therefore `min(1000, true runner-up)`, and it is 1000 when
there is a single train descriptor. The model follows this code behaviour. It
does not follow the textbook ratio of the two smallest distances.

## Model

| member | source | states |
|---|---|---|
| Fields.InBounds | Project2_Feature_Detection/features.py:9-14 | true exactly when every coordinate i has 0 <= indices[i] < shape[i]; for a 2-D shape this is pixel membership; the length assertion is the precondition |
| Harris.Response | Project2_Feature_Detection/features.py:107-111 | the response det - 0.1*trace^2 of one tensor equals det when the trace is 0 and is never positive when det is not positive |
| Harris.HarrisImage | Project2_Feature_Detection/features.py:107-111 | the response has the input's h x w shape and each entry is A*C - B^2 - 0.1*(A+C)^2 of that pixel |
| Harris.ResponseBounds | Project2_Feature_Detection/features.py:107-111 | for a positive semi-definite structure tensor the response lies between -0.1*trace^2 and 0.15*trace^2 |
| Harris.EdgeResponseIsNonPositive | Project2_Feature_Detection/features.py:107-111 | a rank-one (edge) tensor has response exactly -0.1*trace^2, never positive |
| Harris.FlatResponseIsZero | Project2_Feature_Detection/features.py:107-111 | zero gradient products give a zero response |
| Harris.UniformImageHasZeroResponse | Project2_Feature_Detection/features.py:107-111 | all-zero gradient fields (a uniform image) give a response of 0 at every pixel |
| Harris.HarrisImageBounds | Project2_Feature_Detection/features.py:107-111 | the trace bounds hold at every semi-definite pixel of the response image |
| Harris.RowMax | Project2_Feature_Detection/features.py:134 | the value bounds every entry of the row range and is attained in it |
| Harris.BlockMax | Project2_Feature_Detection/features.py:134 | the value bounds every entry of the block and is attained in it |
| Harris.WindowMax | Project2_Feature_Detection/features.py:134 | maximum_filter of size 7x7: an upper bound of the clipped 7x7 window that is attained inside it |
| Harris.LocalMaxima | Project2_Feature_Detection/features.py:134-135 | the mask has the response's shape |
| Harris.LocalMaximaCharacterised | Project2_Feature_Detection/features.py:134-135 | a pixel is marked iff no pixel of its clipped 7x7 window is larger, so ties with the maximum are all marked |
| Harris.GlobalMaximumIsMarked | Project2_Feature_Detection/features.py:134-135 | a pixel attaining the field's maximum is marked |
| Harris.NonEmptyImageHasLocalMaximum | Project2_Feature_Detection/features.py:134-135 | a non-empty image has at least one marked pixel |
| Harris.ConstantFieldAllMarked | Project2_Feature_Detection/features.py:134-135 | a constant field yields an all-true mask |
| Detector.KeypointAt | Project2_Feature_Detection/features.py:178-182 | the record of pixel (x, y): pt (x, y), size 10, its orientation and its Harris response (no contract; its content is stated by ScanSound) |
| Detector.RowScan | Project2_Feature_Detection/features.py:170-184 | the keypoints of the marked pixels of columns 0..x-1 of row y, in order: at most x of them |
| Detector.Scan | Project2_Feature_Detection/features.py:169-184 | the keypoints of the marked pixels of rows 0..y-1 in row-major order: at most y*w of them |
| Detector.ExtractKeypoints | Project2_Feature_Detection/features.py:169-184 | the y-outer, x-inner loop appending one keypoint per marked pixel yields exactly the row-major scan |
| Detector.DetectKeypoints | Project2_Feature_Detection/features.py:139-185 | the keypoints are the row-major scan of the local-maximum mask of the Harris response |
| Detector.RowScanSound | Project2_Feature_Detection/features.py:169-184 | every keypoint of a row prefix is the record (x, y, size 10, orientation, response) of a marked pixel of that prefix |
| Detector.RowScanComplete | Project2_Feature_Detection/features.py:169-184 | every marked pixel of a row prefix yields its keypoint |
| Detector.RowScanOrdered | Project2_Feature_Detection/features.py:169-184 | a row's keypoints lie on that row, left of the scan position, with strictly increasing x |
| Detector.ScanOrdered | Project2_Feature_Detection/features.py:169-184 | the keypoints are strictly increasing in row-major order, hence without duplicates, and lie above the scan row |
| Detector.ScanSound | Project2_Feature_Detection/features.py:169-184 | every emitted keypoint is the record of a marked pixel |
| Detector.ScanComplete | Project2_Feature_Detection/features.py:169-184 | every marked pixel is emitted |
| Detector.ScanAllMarkedLength | Project2_Feature_Detection/features.py:169-184 | with every pixel marked, y scanned rows give y*w keypoints |
| Detector.RowAllMarkedLength | Project2_Feature_Detection/features.py:169-184 | with a fully marked row, the first x columns give x keypoints |
| Detector.AllMarkedYieldsEveryPixel | Project2_Feature_Detection/features.py:169-184 | an all-true mask yields h*w keypoints, one for every pixel |
| Detector.UniformImageYieldsEveryPixel | Project2_Feature_Detection/features.py:139-185 | a uniform image (zero gradients) yields a keypoint at every pixel |
| SimpleDescriptor.Trunc | Project2_Feature_Detection/features.py:237 | Python int() of a coordinate truncates toward zero: the result is within 1 of the value, on the side of zero |
| SimpleDescriptor.Sample | Project2_Feature_Detection/features.py:244-249 | the gray level inside the image, 0 outside |
| SimpleDescriptor.WindowEntry | Project2_Feature_Detection/features.py:244-250 | entry j of the window is the sample at row y-2+j/5 and column x-2+j%5 (no contract; its content is stated by WindowEntryAt) |
| SimpleDescriptor.DescriptorRow | Project2_Feature_Detection/features.py:234-249 | a descriptor row has 25 entries |
| SimpleDescriptor.WindowEntryAt | Project2_Feature_Detection/features.py:238-249 | pixel (r, c) of the window around (x, y) sits at row-major index (r-(y-2))*5 + (c-(x-2)) in 0..24, holding gray[r][c] in the image and 0 outside |
| SimpleDescriptor.CentreEntryIsKeypointPixel | Project2_Feature_Detection/features.py:237-249 | entry 12 of an in-image keypoint's row is the gray level of its own pixel |
| SimpleDescriptor.WindowOutsideImageIsZero | Project2_Feature_Detection/features.py:244-249 | a window lying wholly outside the image gives zeros |
| SimpleDescriptor.DescribeFeatures | Project2_Feature_Detection/features.py:234-252 | a fresh K x 25 buffer whose row i is the 5x5 row-major window around keypoint i |
| SimpleDescriptor.DescribeFeaturesAsWritten | Project2_Feature_Detection/features.py:234-252 | the loops as written reach the store of line 250 on the first keypoint, because both window ranges are non-empty: NameError exactly when the keypoint list is non-empty, otherwise the empty buffer |
| Matchers.ArgMin | Project2_Feature_Detection/features.py:438 | numpy argmin: an index of the row's minimum, and below it every entry is strictly larger (lowest index wins ties) |
| Matchers.ArgMinUnique | Project2_Feature_Detection/features.py:438 | these two properties determine the argmin uniquely |
| Matchers.WellShaped | Project2_Feature_Detection/features.py:420-424 | the shape assertions of both matchers: 2-D descriptor matrices whose column counts, given explicitly so that a matrix with no rows still has one, are equal, and a K1 x K2 distance matrix (a predicate, used as precondition) |
| Matchers.SsdMatches | Project2_Feature_Detection/features.py:426-445 | no matches when either side is empty, otherwise exactly K1 |
| Matchers.SsdMatchCharacterised | Project2_Feature_Detection/features.py:437-445 | match i has queryIdx i, a trainIdx attaining row i's minimum with every lower index strictly worse, and that minimum as distance |
| Matchers.SelfMatchIsIdentity | Project2_Feature_Detection/features.py:437-445 | against itself, with zero self-distance and positive cross-distances, every query matches itself with distance 0 |
| Matchers.SsdMatchFeatures | Project2_Feature_Detection/features.py:402-447 | the method returns exactly the SSD matches, with [] for an empty side |
| Matchers.Masked | Project2_Feature_Detection/features.py:494-497 | the overwrite writes 1000 at the row's argmin and changes no other entry |
| Matchers.Min | Project2_Feature_Detection/features.py:500-506 | a row's minimum is a member of the row and bounds every entry |
| Matchers.SecondDistance | Project2_Feature_Detection/features.py:497-506 | the minimum of the row after its best entry is overwritten by 1000 (no contract; its content is stated by SecondDistanceCharacterised) |
| Matchers.RatioScore | Project2_Feature_Detection/features.py:513-516 | best over second distance, or 1 when the second is 0 (no contract; bounded by RatioScoreInUnitInterval) |
| Matchers.RatioMatches | Project2_Feature_Detection/features.py:473-518 | no matches when either side is empty, otherwise exactly K1 |
| Matchers.RatioAgreesWithSsd | Project2_Feature_Detection/features.py:489-497 | the ratio matcher's query and train indices equal the SSD matcher's |
| Matchers.SecondDistanceCharacterised | Project2_Feature_Detection/features.py:497-506 | the second distance is at most 1000, at most every non-best distance, and either 1000 or one of those distances |
| Matchers.SecondDistanceIsSentinel | Project2_Feature_Detection/features.py:497-506 | with one train row, or every other distance above 1000, the second distance is 1000 |
| Matchers.BestBeforeSecond | Project2_Feature_Detection/features.py:489-506 | the best distance, if at most 1000, never exceeds the second distance |
| Matchers.SecondDistanceIsRunnerUp | Project2_Feature_Detection/features.py:497-506 | a runner-up distance at most 1000 is exactly the second distance |
| Matchers.RatioScoreInUnitInterval | Project2_Feature_Detection/features.py:509-516 | with all distances in [0, 1000] the score lies in [0, 1], including the fallback score 1 |
| Matchers.DivisionInUnitInterval | Project2_Feature_Detection/features.py:513-514 | d1/d2 lies in [0, 1] when 0 <= d1 <= d2 and d2 is non-zero |
| Matchers.RecordAndMaskBest | Project2_Feature_Detection/features.py:489-497 | records each row's argmin and best distance, and the buffer afterwards holds each row with only its best entry overwritten by 1000 |
| Matchers.SecondMinima | Project2_Feature_Detection/features.py:500-506 | second_dist[i] is the minimum of row i of the overwritten buffer |
| Matchers.ScoreMatches | Project2_Feature_Detection/features.py:509-518 | match i pairs query i with train[i] and scores dist_1[i]/second_dist[i], or 1 when the second distance is 0 |
| Matchers.RatioMatchFeatures | Project2_Feature_Detection/features.py:450-522 | the method returns exactly the ratio matches, with [] for an empty side |
| Homography.ApplyHomography | Project2_Feature_Detection/features.py:393-398 | the result scaled by d = h6*x + h7*y + h8 is the first two rows of h applied to (x, y, 1); d must be non-zero |
| Homography.IdentityFixesPoint | Project2_Feature_Detection/features.py:393-398 | the identity homography returns the point unchanged |
| Homography.AffineHasNoDivision | Project2_Feature_Detection/features.py:393-398 | with last row (0, 0, 1) the map is the affine one, with no division |
| Homography.ScaleInvariant | Project2_Feature_Detection/features.py:393-398 | h and c*h, for c non-zero, map every point alike |
| Homography.ComposeRow | Project2_Feature_Detection/features.py:393-398 | a row of h*g applied to (x, y, 1) is that row of h applied to g's homogeneous image of the point |
| Homography.ComposeApplies | Project2_Feature_Detection/features.py:393-398 | mapping by g and then by h is mapping by h*g wherever both steps are defined |

## Left out

- Sobel gradients, Gaussian smoothing, `cv2.cvtColor` and the `/255` float conversion are not modelled: these foreign filter calls are replaced by inputs (the gradient products A, B, C and the gray image).
- The `np.arctan2` orientation is not modelled: trigonometry; the orientation field is an input.
- `scipy.spatial.distance.cdist` is not modelled: a square-root computation; the distance matrix is an input. Only lemmas assume anything about its entries: the ratio lemmas that bound the score assume they lie in [0, 1000], and `Matchers.SelfMatchIsIdentity` assumes a zero diagonal and positive off-diagonal entries.
- `MOPSFeatureDescriptor` is not part of this model: it depends on the `transformations` module (not part of this model), trigonometric rotation, `cv2.warpAffine` resampling and mean/std normalisation.
- The ORB detector and descriptor are not part of this model: OpenCV wrappers.
- `DummyKeypointDetector` is not part of this model: a float-rounding criterion with no contract.
- `evaluateMatch` is not part of this model: it averages `np.linalg.norm` distances (square roots).
- `cv2.KeyPoint` and `cv2.DMatch` objects are plain immutable records (`Detector.Keypoint`, `Matchers.Match`), and keypoint coordinates are reals.
- Floating point is not modelled: all arithmetic is on exact reals, including the float32 images, numpy's float64 descriptor buffer and the ratio division.
- The assertions of both matchers (`ndim == 2` for both descriptor matrices and equal column counts, lines 420-424 and 468-472) are expressed by the shape predicate `Matchers.WellShaped`, a precondition that takes the two column counts as parameters and requires them equal, also when a side has no rows (the assertions run before the empty check), rather than as an AssertionError outcome.
- Homography.ApplyHomography: a zero denominator d is excluded by the precondition; the model says nothing about that case, whose outcome in the source depends on the type of `h` (inf or nan for a numpy array, ZeroDivisionError for a list of Python floats).
- Matchers.RatioMatchFeatures: the arrays `train`, `dist_1` and `second_dist` are fresh arrays local to the method; only the distance buffer is updated in place, and its final contents are not part of the method's result.

## Findings

| source | as written | input that shows it | evidently intended | confidence | as-written member | corrected member |
|---|---|---|---|---|---|---|
| Project2_Feature_Detection/features.py:250 | `desc[i][j] = pindex_xel` stores at column `j`, a name never bound in `describeFeatures`, so the first store raises NameError | any non-empty keypoint list, e.g. one keypoint at (0, 0) | store at the row-major index (rows-(y-2))*5 + (columns-(x-2)), as the comment at lines 238-240 asks | high (not executed) | SimpleDescriptor.DescribeFeaturesAsWritten | SimpleDescriptor.DescribeFeatures |
