/** SSDFeatureMatcher and RatioFeatureMatcher. Both take the descriptor
    matrices of two images and their K1 x K2 Euclidean distance matrix
    (scipy's cdist, not modelled: it is an input here), and emit one match
    per query row. */
module Matchers {
  import opened Fields

  /** A correspondence: query row, train row and score (a distance for the
      SSD matcher, a ratio for the ratio matcher). */
  datatype Match = Match(queryIdx: nat, trainIdx: nat, distance: real)

  /** The value the ratio matcher writes over each row's best distance. */
  const Sentinel: real := 1000.0

  /** numpy argmin of a row: the lowest index attaining the minimum. */
  function ArgMin(row: seq<real>): (k: nat)
    requires |row| > 0
    ensures k < |row|
    ensures forall j :: 0 <= j < |row| ==> row[k] <= row[j]
    ensures forall j :: 0 <= j < k ==> row[k] < row[j]
  {
    if |row| == 1 then 0
    else
      var k := ArgMin(row[..|row| - 1]);
      if row[|row| - 1] < row[k] then |row| - 1 else k
  }

  /** The two postconditions of ArgMin pin the index down: no other index is
      both a minimum and below every other minimum. */
  lemma ArgMinUnique(row: seq<real>, k: nat)
    requires k < |row|
    requires forall j :: 0 <= j < |row| ==> row[k] <= row[j]
    requires forall j :: 0 <= j < k ==> row[k] < row[j]
    ensures k == ArgMin(row)
  {
  }

  /** The shape checks both matchers assert: two 2-D descriptor matrices with
      the same number of columns, and a distance matrix with one row per query
      and one column per train descriptor. The column counts are explicit, as
      numpy shapes are, so that a matrix with no rows still has one: the
      checks run before the empty-input return. */
  predicate WellShaped(desc1: Field, cols1: nat, desc2: Field, cols2: nat, dist: Field) {
    IsGrid(desc1, |desc1|, cols1) && IsGrid(desc2, |desc2|, cols2) && cols1 == cols2 &&
    IsGrid(dist, |desc1|, |desc2|)
  }

  // ---------------------------------------------------------------------
  // SSD matcher

  /** The SSD matches: none when either side has no rows, otherwise match i
      pairs query i with the argmin of its distance row. */
  function SsdMatches(dist: Field, k1: nat, k2: nat): (ms: seq<Match>)
    requires IsGrid(dist, k1, k2)
    ensures k1 == 0 || k2 == 0 ==> ms == []
    ensures k1 > 0 && k2 > 0 ==> |ms| == k1
  {
    if k1 == 0 || k2 == 0 then []
    else seq(k1, i requires 0 <= i < k1 => Match(i, ArgMin(dist[i]), dist[i][ArgMin(dist[i])]))
  }

  /** Match i of the SSD matcher: query i, the lowest train index at the
      minimum distance of row i, and that distance. Several queries may share
      a train index. */
  lemma SsdMatchCharacterised(dist: Field, k1: nat, k2: nat, i: nat)
    requires IsGrid(dist, k1, k2) && k2 > 0 && i < k1
    ensures var m := SsdMatches(dist, k1, k2)[i];
            m.queryIdx == i && m.trainIdx < k2 && m.distance == dist[i][m.trainIdx] &&
            (forall j :: 0 <= j < k2 ==> m.distance <= dist[i][j]) &&
            (forall j :: 0 <= j < m.trainIdx ==> m.distance < dist[i][j])
  {
  }

  /** Matching a descriptor set against itself: when each descriptor is at
      distance 0 from itself and at a positive distance from every other one
      (no duplicates), every query matches itself with score 0. */
  lemma SelfMatchIsIdentity(dist: Field, k: nat)
    requires IsGrid(dist, k, k)
    requires forall i :: 0 <= i < k ==> dist[i][i] == 0.0
    requires forall i, j :: 0 <= i < k && 0 <= j < k && i != j ==> dist[i][j] > 0.0
    ensures |SsdMatches(dist, k, k)| == k
    ensures forall i :: 0 <= i < k ==> SsdMatches(dist, k, k)[i] == Match(i, i, 0.0)
  {
    forall i | 0 <= i < k
      ensures SsdMatches(dist, k, k)[i] == Match(i, i, 0.0)
    {
      var t := ArgMin(dist[i]);
      if t != i {
        assert dist[i][t] <= dist[i][i];
      }
    }
  }

  /** SSDFeatureMatcher.matchFeatures: one match per query row, pairing it
      with the closest train row. */
  method SsdMatchFeatures(desc1: Field, cols1: nat, desc2: Field, cols2: nat, dist: Field) returns (matches: seq<Match>)
    requires WellShaped(desc1, cols1, desc2, cols2, dist)
    ensures matches == SsdMatches(dist, |desc1|, |desc2|)
  {
    if |desc1| == 0 || |desc2| == 0 {
      return [];
    }
    matches := [];
    var indexes := seq(|desc1|, i requires 0 <= i < |desc1| => ArgMin(dist[i]));
    for i := 0 to |desc1|
      invariant |matches| == i
      invariant forall q :: 0 <= q < i ==> matches[q] == Match(q, indexes[q], dist[q][indexes[q]])
    {
      var matcher := Match(i, indexes[i], dist[i][indexes[i]]);
      matches := matches + [matcher];
    }
  }

  // ---------------------------------------------------------------------
  // Ratio matcher

  /** Row with its best entry overwritten by the sentinel, as the matcher
      does in place: only that one entry changes. */
  function Masked(row: seq<real>): (m: seq<real>)
    requires |row| > 0
    ensures |m| == |row|
    ensures m[ArgMin(row)] == Sentinel
    ensures forall j :: 0 <= j < |row| && j != ArgMin(row) ==> m[j] == row[j]
  {
    row[ArgMin(row) := Sentinel]
  }

  /** The second distance of a row: the minimum of the masked row. */
  function SecondDistance(row: seq<real>): real
    requires |row| > 0
  {
    Min(Masked(row))
  }

  /** The ratio score: best over second distance, or 1 when the second is 0. */
  function RatioScore(d1: real, d2: real): real {
    if d2 != 0.0 then d1 / d2 else 1.0
  }

  /** The ratio matches: none when either side has no rows, otherwise match i
      pairs query i with the argmin of its row, scored by RatioScore. */
  function RatioMatches(dist: Field, k1: nat, k2: nat): (ms: seq<Match>)
    requires IsGrid(dist, k1, k2)
    ensures k1 == 0 || k2 == 0 ==> ms == []
    ensures k1 > 0 && k2 > 0 ==> |ms| == k1
  {
    if k1 == 0 || k2 == 0 then []
    else
      seq(k1, i requires 0 <= i < k1 =>
        var t := ArgMin(dist[i]);
        Match(i, t, RatioScore(dist[i][t], SecondDistance(dist[i]))))
  }

  /** The ratio matcher picks the same train row as the SSD matcher. */
  lemma RatioAgreesWithSsd(dist: Field, k1: nat, k2: nat, i: nat)
    requires IsGrid(dist, k1, k2) && k2 > 0 && i < k1
    ensures RatioMatches(dist, k1, k2)[i].queryIdx == SsdMatches(dist, k1, k2)[i].queryIdx
    ensures RatioMatches(dist, k1, k2)[i].trainIdx == SsdMatches(dist, k1, k2)[i].trainIdx
  {
  }

  /** The second distance is the smaller of the sentinel and the smallest
      distance at any index other than the best one. */
  lemma SecondDistanceCharacterised(row: seq<real>)
    requires |row| > 0
    ensures SecondDistance(row) <= Sentinel
    ensures forall j :: 0 <= j < |row| && j != ArgMin(row) ==> SecondDistance(row) <= row[j]
    ensures SecondDistance(row) == Sentinel ||
            exists j :: 0 <= j < |row| && j != ArgMin(row) && SecondDistance(row) == row[j]
  {
    var t := ArgMin(row);
    var m := Masked(row);
    var s := ArgMin(m);
    assert m[s] <= m[t];
    if s != t {
      assert SecondDistance(row) == row[s];
    }
  }

  /** With a single train row, or with every other distance above the
      sentinel, the second distance is the sentinel 1000. */
  lemma SecondDistanceIsSentinel(row: seq<real>)
    requires |row| > 0
    requires forall j :: 0 <= j < |row| && j != ArgMin(row) ==> row[j] > Sentinel
    ensures SecondDistance(row) == Sentinel
  {
    SecondDistanceCharacterised(row);
  }

  /** The best distance never exceeds the second one, provided it is at most
      the sentinel. */
  lemma BestBeforeSecond(row: seq<real>)
    requires |row| > 0 && row[ArgMin(row)] <= Sentinel
    ensures row[ArgMin(row)] <= SecondDistance(row)
  {
    SecondDistanceCharacterised(row);
    var t := ArgMin(row);
    if SecondDistance(row) != Sentinel {
      var j :| 0 <= j < |row| && j != t && SecondDistance(row) == row[j];
    }
  }

  /** When the true second-best distance is at most the sentinel, the second
      distance is exactly it. */
  lemma SecondDistanceIsRunnerUp(row: seq<real>, j: nat)
    requires j < |row| && j != ArgMin(row) && row[j] <= Sentinel
    requires forall k :: 0 <= k < |row| && k != ArgMin(row) ==> row[j] <= row[k]
    ensures SecondDistance(row) == row[j]
  {
    SecondDistanceCharacterised(row);
  }

  /** With every distance in [0, 1000] the ratio score lies in [0, 1]. */
  lemma RatioScoreInUnitInterval(dist: Field, k1: nat, k2: nat, i: nat)
    requires IsGrid(dist, k1, k2) && k2 > 0 && i < k1
    requires forall j :: 0 <= j < k2 ==> 0.0 <= dist[i][j] <= Sentinel
    ensures 0.0 <= RatioMatches(dist, k1, k2)[i].distance <= 1.0
  {
    var row := dist[i];
    var t := ArgMin(row);
    BestBeforeSecond(row);
    var d1, d2 := row[t], SecondDistance(row);
    if d2 != 0.0 {
      assert 0.0 <= d1 <= d2;
      DivisionInUnitInterval(d1, d2);
    }
  }

  lemma DivisionInUnitInterval(a: real, b: real)
    requires 0.0 <= a <= b && b != 0.0
    ensures 0.0 <= a / b <= 1.0
  {
    assert b > 0.0;
    assert a / b * b == a;
  }

  /** Row i of a 2-D buffer, as a sequence. */
  function RowOf(a: array2<real>, i: nat): (row: seq<real>)
    reads a
    requires i < a.Length0
    ensures |row| == a.Length1
    ensures forall j :: 0 <= j < a.Length1 ==> row[j] == a[i, j]
  {
    seq(a.Length1, j requires 0 <= j < a.Length1 reads a => a[i, j])
  }

  /** Lines 489-497 of the ratio matcher: record each row's argmin and best
      distance, then overwrite that entry of the buffer with the sentinel. */
  method RecordAndMaskBest(d: array2<real>, ghost dist: Field) returns (train: array<nat>, dist1: array<real>)
    requires d.Length1 > 0 && IsGrid(dist, d.Length0, d.Length1)
    requires forall q, j :: 0 <= q < d.Length0 && 0 <= j < d.Length1 ==> d[q, j] == dist[q][j]
    modifies d
    ensures fresh(train) && fresh(dist1) && train.Length == dist1.Length == d.Length0
    ensures forall q :: 0 <= q < d.Length0 ==> train[q] == ArgMin(dist[q]) && dist1[q] == dist[q][train[q]]
    ensures forall q, j :: 0 <= q < d.Length0 && 0 <= j < d.Length1 ==> d[q, j] == Masked(dist[q])[j]
  {
    var minIndexes1 := seq(d.Length0, i requires 0 <= i < d.Length0 reads d => ArgMin(RowOf(d, i)));
    forall q | 0 <= q < d.Length0
      ensures minIndexes1[q] == ArgMin(dist[q])
    {
      assert RowOf(d, q) == dist[q];
    }
    train := new nat[d.Length0];
    dist1 := new real[d.Length0];
    for i := 0 to d.Length0
      invariant forall q :: 0 <= q < i ==> train[q] == minIndexes1[q] && dist1[q] == dist[q][train[q]]
      invariant forall q, j :: 0 <= q < d.Length0 && 0 <= j < d.Length1 ==>
                  d[q, j] == if q < i && j == train[q] then Sentinel else dist[q][j]
    {
      train[i] := minIndexes1[i];
      dist1[i] := d[i, train[i]];
      d[i, train[i]] := Sentinel;
    }
    forall q, j | 0 <= q < d.Length0 && 0 <= j < d.Length1
      ensures d[q, j] == Masked(dist[q])[j]
    {
    }
  }

  /** Smallest entry of a row. */
  function Min(row: seq<real>): (m: real)
    requires |row| > 0
    ensures forall j :: 0 <= j < |row| ==> m <= row[j]
    ensures m in row
  {
    row[ArgMin(row)]
  }

  /** Lines 500-506 of the ratio matcher: the argmin of every row of the
      buffer after the overwrite, and the value found there. */
  method SecondMinima(d: array2<real>) returns (secondDist: array<real>)
    requires d.Length1 > 0
    ensures fresh(secondDist) && secondDist.Length == d.Length0
    ensures forall q :: 0 <= q < d.Length0 ==> secondDist[q] == Min(RowOf(d, q))
  {
    var secondMinIndexes := seq(d.Length0, i requires 0 <= i < d.Length0 reads d => ArgMin(RowOf(d, i)));
    secondDist := new real[d.Length0];
    for i := 0 to d.Length0
      invariant forall q :: 0 <= q < i ==> secondDist[q] == Min(RowOf(d, q))
    {
      var secondMinIndex := secondMinIndexes[i];
      secondDist[i] := d[i, secondMinIndex];
    }
  }

  /** Lines 509-518 of the ratio matcher: match i pairs query i with its
      recorded train index, scored best over second distance (1 when the
      second distance is 0). */
  method ScoreMatches(train: array<nat>, dist1: array<real>, secondDist: array<real>) returns (matches: seq<Match>)
    requires dist1.Length == train.Length && secondDist.Length == train.Length
    ensures |matches| == train.Length
    ensures forall q :: 0 <= q < train.Length ==>
              matches[q] == Match(q, train[q], RatioScore(dist1[q], secondDist[q]))
  {
    matches := [];
    for i := 0 to train.Length
      invariant |matches| == i
      invariant forall q :: 0 <= q < i ==> matches[q] == Match(q, train[q], RatioScore(dist1[q], secondDist[q]))
    {
      var score := if secondDist[i] != 0.0 then dist1[i] / secondDist[i] else 1.0;
      matches := matches + [Match(i, train[i], score)];
    }
  }

  /** RatioFeatureMatcher.matchFeatures. The distance matrix is copied into a
      fresh buffer (cdist's result), each row's best entry is recorded and
      overwritten with 1000 in place, a second argmin gives the second
      distance, and the score is their ratio (1 if the second is 0). */
  method RatioMatchFeatures(desc1: Field, cols1: nat, desc2: Field, cols2: nat, dist: Field) returns (matches: seq<Match>)
    requires WellShaped(desc1, cols1, desc2, cols2, dist)
    ensures matches == RatioMatches(dist, |desc1|, |desc2|)
  {
    var k1, k2 := |desc1|, |desc2|;
    if k1 == 0 || k2 == 0 {
      return [];
    }
    var d := new real[k1, k2]((i, j) requires 0 <= i < k1 && 0 <= j < k2 => dist[i][j]);
    var train, dist1 := RecordAndMaskBest(d, dist);
    var secondDist := SecondMinima(d);
    forall q | 0 <= q < k1
      ensures secondDist[q] == SecondDistance(dist[q])
    {
      assert RowOf(d, q) == Masked(dist[q]);
    }
    matches := ScoreMatches(train, dist1, secondDist);
    assert forall q :: 0 <= q < k1 ==> matches[q] == RatioMatches(dist, k1, k2)[q];
  }
}
