/**
 * Evaluation scoring of predicted poses against ground truth: the RMSE with
 * and without a confidence cutoff and the pre- and post-processing around the
 * OKS evaluation of the COCO keypoint protocol.
 */
module Scoring {
  import opened Wrappers
  import opened Numbers
  import opened Dicts
  import opened Arith

  /** The ways the scoring functions fail. */
  datatype ScoreError =
    | ImageCountMismatch(poses: nat, groundTruth: nat)  // get_scores: dicts of different sizes
    | MissingKey(key: string)                           // dict lookup of an absent image
    | EmptyStack                                        // np.stack of no arrays
    | ShapeMismatch                                     // np.stack of arrays of different shapes
    | NotDivisible(size: nat, columns: nat)             // reshape((-1, columns))
    | RowCountMismatch(pred: nat, groundTruth: nat)     // compute_rmse: different numbers of rows
    | MissingColumn                                     // index 2 on a last axis shorter than 3
    | NoUniqueGroundTruth                               // unique-bodypart poses without their ground truth
    | IndexOutOfRange(index: int, size: nat)            // fancy index outside the individuals axis

  /** A per-image array of shape (individuals, keypoints, columns). */
  datatype KeypointArray = KeypointArray(individuals: nat, keypoints: nat, columns: nat,
                                         data: seq<seq<seq<Num>>>)
  {
    predicate Valid() {
      && |data| == individuals
      && (forall i :: 0 <= i < individuals ==> |data[i]| == keypoints)
      && (forall i, k :: 0 <= i < individuals && 0 <= k < keypoints ==> |data[i][k]| == columns)
    }

    function At(i: nat, k: nat, c: nat): Num
      requires Valid() && i < individuals && k < keypoints && c < columns
    {
      data[i][k][c]
    }
  }

  /** Every entry of the dict is a well-formed array. */
  predicate ValidArrays(d: Dict<KeypointArray>) {
    forall k :: k in d.entries ==> d.entries[k].Valid()
  }

  // ---------------------------------------------------------------------------
  // build_keypoint_array

  /** The first of keys that has no entry in d. */
  function FirstMissing<V>(d: Dict<V>, keys: seq<string>): (r: Option<string>)
    ensures r.None? <==> forall i :: 0 <= i < |keys| ==> keys[i] in d.entries
    ensures r.Some? ==> r.value in keys && r.value !in d.entries
  {
    if keys == [] then None
    else if keys[0] !in d.entries then Some(keys[0])
    else
      var r := FirstMissing(d, keys[1..]);
      assert r.None? ==> forall i :: 1 <= i < |keys| ==> keys[i] == keys[1..][i - 1];
      r
  }

  /** A key without entry, preceded only by keys with entries, is the first missing one. */
  lemma {:induction false} FirstMissingAt<V>(d: Dict<V>, keys: seq<string>, i: nat)
    requires i < |keys| && keys[i] !in d.entries
    requires forall j :: 0 <= j < i ==> keys[j] in d.entries
    ensures FirstMissing(d, keys) == Some(keys[i])
  {
    if i > 0 {
      assert keys[0] in d.entries;
      assert forall j :: 0 <= j < i - 1 ==> keys[1..][j] == keys[j + 1];
      FirstMissingAt(d, keys[1..], i - 1);
    }
  }

  /** The entries of keys, in the order of keys. */
  function Lookup<V>(d: Dict<V>, keys: seq<string>): (r: seq<V>)
    requires forall i :: 0 <= i < |keys| ==> keys[i] in d.entries
    ensures |r| == |keys| && forall i :: 0 <= i < |keys| ==> r[i] == d.entries[keys[i]]
  {
    seq(|keys|, i requires 0 <= i < |keys| => d.entries[keys[i]])
  }

  /** All arrays have the shape of the first. */
  predicate SameShape(arrays: seq<KeypointArray>) {
    forall i :: 0 <= i < |arrays| ==>
      && arrays[i].individuals == arrays[0].individuals
      && arrays[i].keypoints == arrays[0].keypoints
      && arrays[i].columns == arrays[0].columns
  }

  /**
   * np.stack of the arrays stored under keys, in the order of keys: a lookup
   * of a missing key fails first, then stacking no arrays or arrays of
   * different shapes.
   */
  function Stacked(d: Dict<KeypointArray>, keys: seq<string>): Result<seq<KeypointArray>, ScoreError> {
    match FirstMissing(d, keys)
    case Some(k) => Err(MissingKey(k))
    case None =>
      var arrays := Lookup(d, keys);
      if arrays == [] then Err(EmptyStack)
      else if !SameShape(arrays) then Err(ShapeMismatch)
      else Ok(arrays)
  }

  /**
   * The stack succeeds exactly when every key has an entry, there is at
   * least one key and all entries have one shape; it then holds the entry of
   * keys[i] at position i.
   */
  lemma StackedSpec(d: Dict<KeypointArray>, keys: seq<string>)
    ensures Stacked(d, keys).Ok? <==>
      && (forall i :: 0 <= i < |keys| ==> keys[i] in d.entries)
      && |keys| > 0
      && (forall i :: 0 <= i < |keys| ==>
            && d.entries[keys[i]].individuals == d.entries[keys[0]].individuals
            && d.entries[keys[i]].keypoints == d.entries[keys[0]].keypoints
            && d.entries[keys[i]].columns == d.entries[keys[0]].columns)
    ensures Stacked(d, keys).Ok? ==>
      var arrays := Stacked(d, keys).value;
      |arrays| == |keys| && forall i :: 0 <= i < |keys| ==> arrays[i] == d.entries[keys[i]]
    ensures Stacked(d, keys).Err? && Stacked(d, keys).error.MissingKey? ==>
      Stacked(d, keys).error.key in keys && Stacked(d, keys).error.key !in d.entries
  {
    if FirstMissing(d, keys).None? && |keys| > 0 {
      var arrays := Lookup(d, keys);
      assert arrays[0] == d.entries[keys[0]];
    }
  }

  /** build_keypoint_array: looks up every key in order, then stacks the arrays. */
  method BuildKeypointArray(keypoints: Dict<KeypointArray>, keys: seq<string>)
    returns (r: Result<seq<KeypointArray>, ScoreError>)
    ensures r == Stacked(keypoints, keys)
  {
    var imageKeypoints: seq<KeypointArray> := [];
    for i := 0 to |keys|
      invariant forall j :: 0 <= j < i ==> keys[j] in keypoints.entries
      invariant imageKeypoints == Lookup(keypoints, keys[..i])
    {
      if keys[i] !in keypoints.entries {
        FirstMissingAt(keypoints, keys, i);
        return Err(MissingKey(keys[i]));
      }
      imageKeypoints := imageKeypoints + [keypoints.entries[keys[i]]];
    }
    assert keys[..|keys|] == keys;
    if imageKeypoints == [] {
      return Err(EmptyStack);
    }
    if !SameShape(imageKeypoints) {
      return Err(ShapeMismatch);
    }
    return Ok(imageKeypoints);
  }

  // ---------------------------------------------------------------------------
  // Flattening and reshape((-1, c))

  /** Concatenation of a sequence of sequences. */
  function Flat<T>(s: seq<seq<T>>): seq<T> {
    if s == [] then [] else s[0] + Flat(s[1..])
  }

  /** The keypoint rows of stacked arrays in row-major order: image, then individual, then keypoint. */
  function Rows(arrays: seq<KeypointArray>): seq<seq<Num>> {
    Flat(seq(|arrays|, i requires 0 <= i < |arrays| => Flat(arrays[i].data)))
  }

  /** [..., :w] on rows: each row keeps its first w entries. */
  function Truncate(rows: seq<seq<Num>>, w: nat): (r: seq<seq<Num>>)
    ensures |r| == |rows|
    ensures forall i :: 0 <= i < |rows| ==> r[i] == if |rows[i]| <= w then rows[i] else rows[i][..w]
  {
    seq(|rows|, i requires 0 <= i < |rows| => if |rows[i]| <= w then rows[i] else rows[i][..w])
  }

  /** Consecutive pieces of length c. */
  function Chunks<T>(s: seq<T>, c: nat): (r: seq<seq<T>>)
    requires c > 0 && |s| % c == 0
    ensures forall i :: 0 <= i < |r| ==> |r[i]| == c
    ensures Flat(r) == s
    decreases |s|
  {
    if s == [] then []
    else
      assert |s| >= c;
      ModAddDivisor(|s| - c, c);
      var r := [s[..c]] + Chunks(s[c..], c);
      assert r[1..] == Chunks(s[c..], c);
      r
  }

  /** reshape((-1, c)) of a flat sequence: rows of c entries, or an error when c does not divide the size. */
  function Reshape(flat: seq<Num>, c: nat): (r: Result<seq<seq<Num>>, ScoreError>)
    requires c > 0
    ensures r.Err? <==> |flat| % c != 0
    ensures r.Err? ==> r.error == NotDivisible(|flat|, c)
    ensures r.Ok? ==> Flat(r.value) == flat && forall i :: 0 <= i < |r.value| ==> |r.value[i]| == c
  {
    if |flat| % c != 0 then Err(NotDivisible(|flat|, c)) else Ok(Chunks(flat, c))
  }

  /** Flattening rows of length c and reshaping to c columns gives the rows back. */
  lemma {:induction false} ReshapeRoundTrip(rows: seq<seq<Num>>, c: nat)
    requires c > 0 && forall i :: 0 <= i < |rows| ==> |rows[i]| == c
    ensures Reshape(Flat(rows), c) == Ok(rows)
  {
    if rows != [] {
      var rest := rows[1..];
      assert forall i :: 0 <= i < |rest| ==> rest[i] == rows[i + 1];
      ReshapeRoundTrip(rest, c);
      var f := Flat(rows);
      assert f == rows[0] + Flat(rest);
      ModAddDivisor(|Flat(rest)|, c);
      assert f[..c] == rows[0] && f[c..] == Flat(rest);
      assert |f| % c == 0;
      assert Chunks(f, c) == [f[..c]] + Chunks(f[c..], c);
      assert rows == [rows[0]] + rest;
    }
  }

  // ---------------------------------------------------------------------------
  // compute_rmse

  /**
   * Euclidean distance between predicted row (x, y, score) and ground-truth
   * row (x, y): the square root of the summed squared differences.
   */
  function Distance(p: seq<Num>, g: seq<Num>, sqrt: real -> real): Num
    requires |p| >= 2 && |g| >= 2
  {
    Sqrt(Add(Square(Sub(p[0], g[0])), Square(Sub(p[1], g[1]))), sqrt)
  }

  /** A distance is NaN exactly when one of the four coordinates is. */
  lemma DistanceNaN(p: seq<Num>, g: seq<Num>, sqrt: real -> real)
    requires |p| >= 2 && |g| >= 2
    ensures Distance(p, g, sqrt).NaN? <==> p[0].NaN? || p[1].NaN? || g[0].NaN? || g[1].NaN?
  {
  }

  /** Row-wise distances of two row lists of equal length. */
  function Distances(pred: seq<seq<Num>>, gt: seq<seq<Num>>, sqrt: real -> real): (d: seq<Num>)
    requires |pred| == |gt|
    requires forall i :: 0 <= i < |pred| ==> |pred[i]| == 3
    requires forall i :: 0 <= i < |gt| ==> |gt[i]| == 2
    ensures |d| == |pred| && forall i :: 0 <= i < |d| ==> d[i] == Distance(pred[i], gt[i], sqrt)
  {
    seq(|pred|, i requires 0 <= i < |pred| => Distance(pred[i], gt[i], sqrt))
  }

  /** score >= pcutoff; false for a NaN score. */
  predicate AtLeast(score: Num, pcutoff: real) {
    score.Val? && score.v >= pcutoff
  }

  /** Boolean-mask indexing s[mask]: the entries whose flag is set, in order. */
  function Select(s: seq<Num>, mask: seq<bool>): (r: seq<Num>)
    requires |s| == |mask|
    ensures |r| <= |s|
  {
    if s == [] then []
    else Select(s[..|s| - 1], mask[..|s| - 1]) + (if mask[|s| - 1] then [s[|s| - 1]] else [])
  }

  /** Every selected entry is an entry whose flag is set. */
  lemma {:induction false} SelectFrom(s: seq<Num>, mask: seq<bool>)
    requires |s| == |mask|
    ensures forall x :: x in Select(s, mask) ==> exists i :: 0 <= i < |s| && mask[i] && s[i] == x
  {
    if s != [] {
      var n := |s| - 1;
      SelectFrom(s[..n], mask[..n]);
      forall x | x in Select(s, mask) ensures exists i :: 0 <= i < |s| && mask[i] && s[i] == x {
        if x in Select(s[..n], mask[..n]) {
          var i :| 0 <= i < n && mask[..n][i] && s[..n][i] == x;
          assert mask[i] && s[i] == x;
        } else {
          assert mask[n] && s[n] == x;
        }
      }
    }
  }

  /** With every flag set, boolean indexing keeps everything. */
  lemma {:induction false} SelectAll(s: seq<Num>, mask: seq<bool>)
    requires |s| == |mask| && forall i :: 0 <= i < |mask| ==> mask[i]
    ensures Select(s, mask) == s
  {
    if s != [] {
      var n := |s| - 1;
      SelectAll(s[..n], mask[..n]);
      assert s[..n] + [s[n]] == s;
    }
  }

  /** With no flag set, boolean indexing keeps nothing. */
  lemma {:induction false} SelectNone(s: seq<Num>, mask: seq<bool>)
    requires |s| == |mask| && forall i :: 0 <= i < |mask| ==> !mask[i]
    ensures Select(s, mask) == []
  {
    if s != [] {
      SelectNone(s[..|s| - 1], mask[..|s| - 1]);
    }
  }

  /** pred[:, 2] >= pcutoff */
  function CutoffMask(pred: seq<seq<Num>>, pcutoff: real): (m: seq<bool>)
    requires forall i :: 0 <= i < |pred| ==> |pred[i]| == 3
    ensures |m| == |pred| && forall i :: 0 <= i < |m| ==> m[i] == AtLeast(pred[i][2], pcutoff)
  {
    seq(|pred|, i requires 0 <= i < |pred| => AtLeast(pred[i][2], pcutoff))
  }

  /**
   * compute_rmse: rows (x, y, score) against rows (x, y). Fails when the row
   * counts differ; otherwise the NaN-ignoring mean of the row distances, and
   * the same mean over the rows whose score reaches pcutoff.
   */
  function ComputeRmse(pred: seq<seq<Num>>, gt: seq<seq<Num>>, pcutoff: real, sqrt: real -> real)
    : (r: Result<(Num, Num), ScoreError>)
    requires forall i :: 0 <= i < |pred| ==> |pred[i]| == 3
    requires forall i :: 0 <= i < |gt| ==> |gt[i]| == 2
    ensures r.Err? <==> |pred| != |gt|
    ensures r.Err? ==> r.error == RowCountMismatch(|pred|, |gt|)
  {
    if |pred| != |gt| then Err(RowCountMismatch(|pred|, |gt|))
    else
      var d := Distances(pred, gt, sqrt);
      Ok((NanMean(d), NanMean(Select(d, CutoffMask(pred, pcutoff)))))
  }

  /** Both errors are NaN or non-negative. */
  lemma RmseNonNegative(pred: seq<seq<Num>>, gt: seq<seq<Num>>, pcutoff: real, sqrt: real -> real)
    requires forall i :: 0 <= i < |pred| ==> |pred[i]| == 3
    requires forall i :: 0 <= i < |gt| ==> |gt[i]| == 2
    requires forall x :: 0.0 <= x ==> sqrt(x) >= 0.0
    ensures var r := ComputeRmse(pred, gt, pcutoff, sqrt);
      r.Ok? ==> (r.value.0.NaN? || r.value.0.v >= 0.0) && (r.value.1.NaN? || r.value.1.v >= 0.0)
  {
    if |pred| == |gt| {
      var d := Distances(pred, gt, sqrt);
      var m := CutoffMask(pred, pcutoff);
      NanMeanAtLeast(d, 0.0);
      SelectFrom(d, m);
      var s := Select(d, m);
      forall i | 0 <= i < |s| && s[i].Val? ensures 0.0 <= s[i].v {
        assert s[i] in s;
      }
      NanMeanAtLeast(s, 0.0);
    }
  }

  /** The RMSE is NaN exactly when every row has a NaN coordinate in the prediction or the ground truth. */
  lemma RmseNaNIffNoCompleteRow(pred: seq<seq<Num>>, gt: seq<seq<Num>>, pcutoff: real, sqrt: real -> real)
    requires |pred| == |gt|
    requires forall i :: 0 <= i < |pred| ==> |pred[i]| == 3
    requires forall i :: 0 <= i < |gt| ==> |gt[i]| == 2
    ensures ComputeRmse(pred, gt, pcutoff, sqrt).value.0.NaN? <==>
      forall i :: 0 <= i < |pred| ==> pred[i][0].NaN? || pred[i][1].NaN? || gt[i][0].NaN? || gt[i][1].NaN?
  {
    var d := Distances(pred, gt, sqrt);
    NonNanCountZero(d);
    forall i | 0 <= i < |pred| {
      DistanceNaN(pred[i], gt[i], sqrt);
    }
  }

  /** A prediction whose coordinates equal the ground truth has error 0 (or NaN where nothing is comparable). */
  lemma RmseOfExactPrediction(pred: seq<seq<Num>>, gt: seq<seq<Num>>, pcutoff: real, sqrt: real -> real)
    requires |pred| == |gt|
    requires forall i :: 0 <= i < |pred| ==> |pred[i]| == 3
    requires forall i :: 0 <= i < |gt| ==> |gt[i]| == 2
    requires forall i :: 0 <= i < |pred| ==> pred[i][0] == gt[i][0] && pred[i][1] == gt[i][1]
    requires sqrt(0.0) == 0.0
    ensures var r := ComputeRmse(pred, gt, pcutoff, sqrt).value;
      (r.0 == NaN || r.0 == Val(0.0)) && (r.1 == NaN || r.1 == Val(0.0))
  {
    var d := Distances(pred, gt, sqrt);
    forall i | 0 <= i < |d| && d[i].Val? ensures d[i].v == 0.0 {
      assert Sub(pred[i][0], gt[i][0]) == Val(0.0);
      assert Sub(pred[i][1], gt[i][1]) == Val(0.0);
    }
    NanMeanOfConstant(d, 0.0);
    var m := CutoffMask(pred, pcutoff);
    SelectFrom(d, m);
    var s := Select(d, m);
    forall i | 0 <= i < |s| && s[i].Val? ensures s[i].v == 0.0 {
      assert s[i] in s;
    }
    NanMeanOfConstant(s, 0.0);
  }

  /** When every score reaches the cutoff, the cutoff RMSE is the RMSE. */
  lemma RmseCutoffBelowAllScores(pred: seq<seq<Num>>, gt: seq<seq<Num>>, pcutoff: real, sqrt: real -> real)
    requires |pred| == |gt|
    requires forall i :: 0 <= i < |pred| ==> |pred[i]| == 3
    requires forall i :: 0 <= i < |gt| ==> |gt[i]| == 2
    requires forall i :: 0 <= i < |pred| ==> AtLeast(pred[i][2], pcutoff)
    ensures ComputeRmse(pred, gt, pcutoff, sqrt).value.1 == ComputeRmse(pred, gt, pcutoff, sqrt).value.0
  {
    SelectAll(Distances(pred, gt, sqrt), CutoffMask(pred, pcutoff));
  }

  /** When no score reaches the cutoff, the cutoff RMSE is NaN rather than an error. */
  lemma RmseCutoffAboveAllScores(pred: seq<seq<Num>>, gt: seq<seq<Num>>, pcutoff: real, sqrt: real -> real)
    requires |pred| == |gt|
    requires forall i :: 0 <= i < |pred| ==> |pred[i]| == 3
    requires forall i :: 0 <= i < |gt| ==> |gt[i]| == 2
    requires forall i :: 0 <= i < |pred| ==> !AtLeast(pred[i][2], pcutoff)
    ensures ComputeRmse(pred, gt, pcutoff, sqrt).value.1 == NaN
  {
    SelectNone(Distances(pred, gt, sqrt), CutoffMask(pred, pcutoff));
  }

  // ---------------------------------------------------------------------------
  // Copies into buffers

  /** The contents of a buffer as an array value. */
  function Contents(buf: array3<Num>): (a: KeypointArray)
    reads buf
    ensures a.Valid()
    ensures a.individuals == buf.Length0 && a.keypoints == buf.Length1 && a.columns == buf.Length2
    ensures forall i, k, c :: 0 <= i < buf.Length0 && 0 <= k < buf.Length1 && 0 <= c < buf.Length2 ==>
              a.data[i][k][c] == buf[i, k, c]
  {
    KeypointArray(buf.Length0, buf.Length1, buf.Length2,
      seq(buf.Length0, i requires 0 <= i < buf.Length0 reads buf =>
        seq(buf.Length1, k requires 0 <= k < buf.Length1 reads buf =>
          seq(buf.Length2, c requires 0 <= c < buf.Length2 reads buf => buf[i, k, c]))))
  }

  /** Two arrays of one shape with the same entries are the same array. */
  lemma SameEntries(a: KeypointArray, b: KeypointArray)
    requires a.Valid() && b.Valid()
    requires a.individuals == b.individuals && a.keypoints == b.keypoints && a.columns == b.columns
    requires forall i, k, c :: 0 <= i < a.individuals && 0 <= k < a.keypoints && 0 <= c < a.columns ==>
               a.data[i][k][c] == b.data[i][k][c]
    ensures a == b
  {
    forall i | 0 <= i < a.individuals ensures a.data[i] == b.data[i] {
      forall k | 0 <= k < a.keypoints ensures a.data[i][k] == b.data[i][k] {
      }
    }
  }

  // ---------------------------------------------------------------------------
  // compute_oks: masking below the cutoff

  /** score < pcutoff; false for a NaN score. */
  predicate Below(score: Num, pcutoff: real) {
    score.Val? && score.v < pcutoff
  }

  /** Keypoint (i, k) of a is hidden by the cutoff: one is given and the score is below it. */
  predicate Hidden(a: KeypointArray, pcutoff: Option<real>, i: nat, k: nat)
    requires a.Valid() && i < a.individuals && k < a.keypoints
    requires pcutoff.Some? ==> a.columns >= 3
  {
    pcutoff.Some? && Below(a.At(i, k, 2), pcutoff.value)
  }

  /** The number of coordinate columns kept by [..., :2]. */
  function CoordinateColumns(a: KeypointArray): (w: nat)
    ensures w <= 2 && w <= a.columns
    ensures a.columns >= 2 ==> w == 2
  {
    if a.columns < 2 then a.columns else 2
  }

  /** keypoints_with_scores[:, :, :2] with every hidden keypoint set to NaN in both coordinates. */
  function MaskedKeypoints(a: KeypointArray, pcutoff: Option<real>): (r: KeypointArray)
    requires a.Valid() && (pcutoff.Some? ==> a.columns >= 3)
    ensures r.Valid() && r.individuals == a.individuals && r.keypoints == a.keypoints
    ensures r.columns == CoordinateColumns(a)
  {
    var w := CoordinateColumns(a);
    KeypointArray(a.individuals, a.keypoints, w,
      seq(a.individuals, i requires 0 <= i < a.individuals =>
        seq(a.keypoints, k requires 0 <= k < a.keypoints =>
          seq(w, c requires 0 <= c < w => if Hidden(a, pcutoff, i, k) then NaN else a.At(i, k, c)))))
  }

  /**
   * With a cutoff, a keypoint whose score is below it has both coordinates
   * NaN and every other keypoint keeps its coordinates; a NaN score hides
   * nothing; without a cutoff nothing is hidden.
   */
  lemma MaskedKeypointsSpec(a: KeypointArray, pcutoff: Option<real>, i: nat, k: nat)
    requires a.Valid() && (pcutoff.Some? ==> a.columns >= 3) && i < a.individuals && k < a.keypoints
    ensures var r := MaskedKeypoints(a, pcutoff);
      && (pcutoff.Some? && Below(a.At(i, k, 2), pcutoff.value) ==> r.At(i, k, 0) == NaN && r.At(i, k, 1) == NaN)
      && (!(pcutoff.Some? && Below(a.At(i, k, 2), pcutoff.value)) ==>
            forall c :: 0 <= c < r.columns ==> r.At(i, k, c) == a.At(i, k, c))
      && (pcutoff.None? || a.At(i, k, 2).NaN? ==> r.data[i][k] == a.data[i][k][..r.columns])
  {
    var r := MaskedKeypoints(a, pcutoff);
    assert |a.data[i][k]| == a.columns;
    if !Hidden(a, pcutoff, i, k) {
      assert forall c :: 0 <= c < r.columns ==> r.data[i][k][c] == a.data[i][k][c];
    }
  }

  /**
   * The masking step of compute_oks for one image: copies the coordinate
   * columns and, with a cutoff, overwrites the hidden keypoints with NaN.
   * Reading the score column fails when the array has fewer than three
   * columns.
   */
  method MaskBelowCutoff(keypointsWithScores: KeypointArray, pcutoff: Option<real>)
    returns (r: Result<KeypointArray, ScoreError>)
    requires keypointsWithScores.Valid()
    ensures r == MaskedImage(keypointsWithScores, pcutoff)
  {
    var a := keypointsWithScores;
    if pcutoff.Some? && a.columns < 3 {
      return Err(MissingColumn);
    }
    var w := CoordinateColumns(a);
    var keypoints := new Num[a.individuals, a.keypoints, w](
      (i, k, c) requires a.Valid() && 0 <= i < a.individuals && 0 <= k < a.keypoints && 0 <= c < w => a.At(i, k, c));
    if pcutoff.Some? {
      forall i, k, c | 0 <= i < a.individuals && 0 <= k < a.keypoints && 0 <= c < w && Below(a.At(i, k, 2), pcutoff.value) {
        keypoints[i, k, c] := NaN;
      }
    }
    SameEntries(Contents(keypoints), MaskedKeypoints(a, pcutoff));
    r := Ok(Contents(keypoints));
  }

  // ---------------------------------------------------------------------------
  // mask_invisible

  /** Keypoint (i, k) is marked invisible: its visibility entry equals 0. */
  predicate Invisible(a: KeypointArray, i: nat, k: nat)
    requires a.Valid() && a.columns >= 3 && i < a.individuals && k < a.keypoints
  {
    a.At(i, k, 2) == Val(0.0)
  }

  /** The (x, y) columns with both coordinates of every invisible keypoint replaced by maskValue. */
  function InvisibleMasked(a: KeypointArray, maskValue: Num): (r: KeypointArray)
    requires a.Valid() && a.columns >= 3
    ensures r.Valid() && r.individuals == a.individuals && r.keypoints == a.keypoints && r.columns == 2
  {
    KeypointArray(a.individuals, a.keypoints, 2,
      seq(a.individuals, i requires 0 <= i < a.individuals =>
        seq(a.keypoints, k requires 0 <= k < a.keypoints =>
          seq(2, c requires 0 <= c < 2 => if Invisible(a, i, k) then maskValue else a.At(i, k, c)))))
  }

  /**
   * Invisible keypoints get maskValue in both coordinates, visible ones (a
   * NaN visibility included) keep theirs, and the result has two columns.
   */
  lemma InvisibleMaskedSpec(a: KeypointArray, maskValue: Num, i: nat, k: nat)
    requires a.Valid() && a.columns >= 3 && i < a.individuals && k < a.keypoints
    ensures var r := InvisibleMasked(a, maskValue);
      && r.columns == 2
      && (a.At(i, k, 2) == Val(0.0) ==> r.data[i][k] == [maskValue, maskValue])
      && (a.At(i, k, 2) != Val(0.0) ==> r.data[i][k] == a.data[i][k][..2])
  {
    var r := InvisibleMasked(a, maskValue);
    var row := r.data[i][k];
    assert row == seq(2, c requires 0 <= c < 2 => if Invisible(a, i, k) then maskValue else a.At(i, k, c));
    assert |a.data[i][k]| == a.columns;
    assert !Invisible(a, i, k) ==> row[0] == a.data[i][k][0] && row[1] == a.data[i][k][1];
  }

  /**
   * mask_invisible: copies the array, overwrites both coordinates of the
   * invisible keypoints with maskValue, and keeps the first two columns.
   * Reading the visibility column fails when the array has fewer than three
   * columns.
   */
  method MaskInvisible(keypoints: KeypointArray, maskValue: Num) returns (r: Result<KeypointArray, ScoreError>)
    requires keypoints.Valid()
    ensures r.Err? <==> keypoints.columns < 3
    ensures r.Err? ==> r.error == MissingColumn
    ensures r.Ok? ==> r.value == InvisibleMasked(keypoints, maskValue)
  {
    var a := keypoints;
    if a.columns < 3 {
      return Err(MissingColumn);
    }
    var copy := CopyOf(a);
    MaskRowsInPlace(copy, maskValue);
    var coords := CoordinatesOf(copy);
    SameEntries(coords, InvisibleMasked(a, maskValue));
    r := Ok(coords);
  }

  /** keypoints[keypoints[..., 2] == 0, :2] = mask_value on a buffer. */
  method MaskRowsInPlace(buf: array3<Num>, maskValue: Num)
    requires buf.Length2 >= 3
    modifies buf
    ensures forall i, k, c :: 0 <= i < buf.Length0 && 0 <= k < buf.Length1 && 0 <= c < buf.Length2 ==>
              buf[i, k, c] == if c < 2 && old(buf[i, k, 2]) == Val(0.0) then maskValue else old(buf[i, k, c])
  {
    forall i, k, c | 0 <= i < buf.Length0 && 0 <= k < buf.Length1 && 0 <= c < 2 && buf[i, k, 2] == Val(0.0) {
      buf[i, k, c] := maskValue;
    }
  }

  /** keypoints.copy(): a new buffer holding the entries of the array. */
  method CopyOf(a: KeypointArray) returns (buf: array3<Num>)
    requires a.Valid()
    ensures fresh(buf)
    ensures buf.Length0 == a.individuals && buf.Length1 == a.keypoints && buf.Length2 == a.columns
    ensures forall i, k, c :: 0 <= i < a.individuals && 0 <= k < a.keypoints && 0 <= c < a.columns ==>
              buf[i, k, c] == a.At(i, k, c)
  {
    buf := new Num[a.individuals, a.keypoints, a.columns](
      (i, k, c) requires a.Valid() && 0 <= i < a.individuals && 0 <= k < a.keypoints && 0 <= c < a.columns => a.At(i, k, c));
  }

  /** [..., :2] of a buffer with at least two columns. */
  function CoordinatesOf(buf: array3<Num>): (a: KeypointArray)
    reads buf
    requires buf.Length2 >= 2
    ensures a.Valid()
    ensures a.individuals == buf.Length0 && a.keypoints == buf.Length1 && a.columns == 2
    ensures forall i, k, c :: 0 <= i < buf.Length0 && 0 <= k < buf.Length1 && 0 <= c < 2 ==>
              a.data[i][k][c] == buf[i, k, c]
  {
    KeypointArray(buf.Length0, buf.Length1, 2,
      seq(buf.Length0, i requires 0 <= i < buf.Length0 reads buf =>
        seq(buf.Length1, k requires 0 <= k < buf.Length1 reads buf =>
          seq(2, c requires 0 <= c < 2 reads buf => buf[i, k, c]))))
  }

  // ---------------------------------------------------------------------------
  // build_assemblies

  /** The assembly of one individual, represented by its keypoint rows. */
  datatype Assembly = Assembly(rows: seq<seq<Num>>)

  /** A keypoint row without NaN entries. */
  predicate Complete(row: seq<Num>) {
    forall c :: 0 <= c < |row| ==> row[c].Val?
  }

  /** The number of complete rows. */
  function CompleteCount(rows: seq<seq<Num>>): (n: nat)
    ensures n <= |rows|
  {
    if rows == [] then 0 else CompleteCount(rows[..|rows| - 1]) + (if Complete(rows[|rows| - 1]) then 1 else 0)
  }

  /** len(assembly): the number of its keypoints with no NaN entry. */
  function Len(a: Assembly): nat {
    CompleteCount(a.rows)
  }

  /** The assemblies of the individuals of one image that are not empty, in order. */
  function KeptAssemblies(individuals: seq<seq<seq<Num>>>): (r: seq<Assembly>)
    ensures |r| <= |individuals|
    ensures forall t :: 0 <= t < |r| ==> Len(r[t]) > 0
  {
    if individuals == [] then []
    else
      var last := Assembly(individuals[|individuals| - 1]);
      KeptAssemblies(individuals[..|individuals| - 1]) + (if Len(last) > 0 then [last] else [])
  }

  /**
   * Keeping assemblies commutes with concatenation, so the kept assemblies
   * of two groups of individuals come in the order of the groups.
   */
  lemma {:induction false} KeptAssembliesAppend(s: seq<seq<seq<Num>>>, t: seq<seq<seq<Num>>>)
    ensures KeptAssemblies(s + t) == KeptAssemblies(s) + KeptAssemblies(t)
  {
    if t != [] {
      var n := |t| - 1;
      KeptAssembliesAppend(s, t[..n]);
      assert (s + t)[..|s + t| - 1] == s + t[..n];
      assert (s + t)[|s + t| - 1] == t[n];
    } else {
      assert s + t == s;
    }
  }

  /**
   * Exactly the individuals whose assembly is not empty are kept: each of
   * them is in the result, and each assembly in the result is one of them.
   */
  lemma {:induction false} KeptAssembliesMembers(individuals: seq<seq<seq<Num>>>)
    ensures forall i :: 0 <= i < |individuals| && Len(Assembly(individuals[i])) > 0 ==>
              Assembly(individuals[i]) in KeptAssemblies(individuals)
    ensures forall a :: a in KeptAssemblies(individuals) ==>
              exists i :: 0 <= i < |individuals| && a == Assembly(individuals[i]) && Len(a) > 0
  {
    if individuals != [] {
      var n := |individuals| - 1;
      var p := individuals[..n];
      KeptAssembliesMembers(p);
      assert forall i :: 0 <= i < n ==> p[i] == individuals[i];
      forall a | a in KeptAssemblies(individuals)
        ensures exists i :: 0 <= i < |individuals| && a == Assembly(individuals[i]) && Len(a) > 0
      {
        if a in KeptAssemblies(p) {
          var i :| 0 <= i < |p| && a == Assembly(p[i]) && Len(a) > 0;
          assert a == Assembly(individuals[i]);
        } else {
          assert a == Assembly(individuals[n]);
        }
      }
    }
  }

  /** The image entries of build_assemblies for the given keys. */
  function AssemblyMap(poses: Dict<KeypointArray>, keys: seq<string>): map<string, seq<Assembly>> {
    map k | k in keys && k in poses.entries :: KeptAssemblies(poses.entries[k].data)
  }

  /** build_assemblies: for every image, in order, the assemblies of its non-empty individuals. */
  function AssembliesOf(poses: Dict<KeypointArray>): Dict<seq<Assembly>> {
    Dict(poses.keys, AssemblyMap(poses, poses.keys))
  }

  /**
   * The result has the images of the input, in the same order, and each
   * image keeps at most as many assemblies as it has individuals, none empty.
   */
  lemma AssembliesOfSpec(poses: Dict<KeypointArray>)
    requires poses.Valid()
    ensures AssembliesOf(poses).Valid() && AssembliesOf(poses).keys == poses.keys
    ensures forall k :: k in poses.entries ==>
              && k in AssembliesOf(poses).entries
              && AssembliesOf(poses).entries[k] == KeptAssemblies(poses.entries[k].data)
              && |AssembliesOf(poses).entries[k]| <= |poses.entries[k].data|
  {
  }

  /** Adding one image to the keys adds its entry to the map. */
  lemma AssemblyMapStep(poses: Dict<KeypointArray>, keys: seq<string>, key: string)
    requires key in poses.entries
    ensures AssemblyMap(poses, keys + [key]) == AssemblyMap(poses, keys)[key := KeptAssemblies(poses.entries[key].data)]
  {
  }

  /** The inner loop of build_assemblies: the non-empty assemblies of one image's individuals. */
  method ImageAssemblies(keypoints: seq<seq<seq<Num>>>) returns (imageAssemblies: seq<Assembly>)
    ensures imageAssemblies == KeptAssemblies(keypoints)
  {
    imageAssemblies := [];
    for i := 0 to |keypoints|
      invariant imageAssemblies == KeptAssemblies(keypoints[..i])
    {
      var assembly := Assembly(keypoints[i]);
      assert keypoints[..i + 1][..i] == keypoints[..i];
      if Len(assembly) > 0 {
        imageAssemblies := imageAssemblies + [assembly];
      }
    }
    assert keypoints[..|keypoints|] == keypoints;
  }

  /** build_assemblies: the loop over the images. */
  method BuildAssemblies(poses: Dict<KeypointArray>) returns (assemblies: Dict<seq<Assembly>>)
    requires poses.Valid()
    ensures assemblies == AssembliesOf(poses)
  {
    assemblies := Empty();
    for t := 0 to |poses.keys|
      invariant assemblies.Valid()
      invariant assemblies == Dict(poses.keys[..t], AssemblyMap(poses, poses.keys[..t]))
    {
      var imagePath := poses.keys[t];
      var imageAssemblies := ImageAssemblies(poses.entries[imagePath].data);
      AssembliesPrefixStep(poses, t);
      assemblies := assemblies.Put(imagePath, imageAssemblies);
    }
    assert poses.keys[..|poses.keys|] == poses.keys;
  }

  /** Storing the assemblies of image t after those of the images before it gives those of the first t + 1 images. */
  lemma AssembliesPrefixStep(poses: Dict<KeypointArray>, t: nat)
    requires poses.Valid() && t < |poses.keys|
    requires Dict(poses.keys[..t], AssemblyMap(poses, poses.keys[..t])).Valid()
    ensures var key := poses.keys[t];
      Dict(poses.keys[..t], AssemblyMap(poses, poses.keys[..t])).Put(key, KeptAssemblies(poses.entries[key].data))
        == Dict(poses.keys[..t + 1], AssemblyMap(poses, poses.keys[..t + 1]))
  {
    var key := poses.keys[t];
    assert key !in poses.keys[..t];
    assert poses.keys[..t + 1] == poses.keys[..t] + [key];
    AssemblyMapStep(poses, poses.keys[..t], key);
  }

  // ---------------------------------------------------------------------------
  // compute_oks

  /** The two averages evaluate_assembly reports. */
  datatype OksScores = OksScores(mAP: real, mAR: real)

  /** evaluate_assembly(predicted assemblies, ground-truth assemblies, oks_sigma, margin). */
  type Evaluator = (Dict<seq<Assembly>>, Dict<seq<Assembly>>, real, real) -> OksScores

  /** The masking of one image: an error without a score column when a cutoff is given. */
  function MaskedImage(a: KeypointArray, pcutoff: Option<real>): Result<KeypointArray, ScoreError>
    requires a.Valid()
  {
    if pcutoff.Some? && a.columns < 3 then Err(MissingColumn) else Ok(MaskedKeypoints(a, pcutoff))
  }

  /** MaskedImage as a function of the image; it is only applied to predicted images. */
  function ImageMasker(pred: Dict<KeypointArray>, pcutoff: Option<real>): string -> Result<KeypointArray, ScoreError>
    requires ValidArrays(pred)
  {
    image => if image in pred.entries then MaskedImage(pred.entries[image], pcutoff) else Err(MissingKey(image))
  }

  /** The masker gives the masked array of a predicted image. */
  lemma ImageMaskerAt(pred: Dict<KeypointArray>, pcutoff: Option<real>, image: string)
    requires ValidArrays(pred) && image in pred.entries
    ensures ImageMasker(pred, pcutoff)(image) == MaskedImage(pred.entries[image], pcutoff)
  {
  }

  /** The masked predictions of all images, or the error of the first image that has no score column. */
  function MaskedPredictions(pred: Dict<KeypointArray>, pcutoff: Option<real>): (r: Result<Dict<KeypointArray>, ScoreError>)
    requires pred.Valid() && ValidArrays(pred)
  {
    PerKey(pred, ImageMasker(pred, pcutoff))
  }

  /** The only way the masking fails is an image without a score column. */
  lemma MaskedPredictionsError(pred: Dict<KeypointArray>, pcutoff: Option<real>)
    requires pred.Valid() && ValidArrays(pred)
    ensures var r := MaskedPredictions(pred, pcutoff);
      r.Err? ==> pcutoff.Some? && r.error == MissingColumn
  {
    var mask := ImageMasker(pred, pcutoff);
    PerKeySpec(pred, mask);
    var r := MaskedPredictions(pred, pcutoff);
    if r.Err? {
      var k :| k in pred.entries && mask(k) == Err(r.error);
      ImageMaskerAt(pred, pcutoff, k);
    }
  }

  /**
   * compute_oks: the evaluator applied to the assemblies of the masked
   * predictions and of the ground truth, with oks_sigma and margin.
   */
  function Oks(pred: Dict<KeypointArray>, gt: Dict<KeypointArray>, oksSigma: real, margin: real,
               pcutoff: Option<real>, evaluate: Evaluator)
    : (r: Result<OksScores, ScoreError>)
    requires pred.Valid() && ValidArrays(pred)
    ensures pcutoff.None? ==> r.Ok?
    ensures r.Err? ==> r.error == MissingColumn
  {
    MaskedPredictionsError(pred, pcutoff);
    match MaskedPredictions(pred, pcutoff)
    case Err(e) => Err(e)
    case Ok(masked) => Ok(evaluate(AssembliesOf(masked), AssembliesOf(gt), oksSigma, margin))
  }

  /**
   * The masking keeps the images of the predictions in order and fails only
   * when a cutoff is given and some image has no score column; the ground
   * truth goes to the evaluator unmasked.
   */
  lemma OksSpec(pred: Dict<KeypointArray>, gt: Dict<KeypointArray>, oksSigma: real, margin: real,
                pcutoff: Option<real>, evaluate: Evaluator)
    requires pred.Valid() && ValidArrays(pred)
    ensures var r := Oks(pred, gt, oksSigma, margin, pcutoff, evaluate);
      && (r.Err? <==> pcutoff.Some? && exists k :: k in pred.entries && pred.entries[k].columns < 3)
      && (r.Ok? ==>
            var masked := MaskedPredictions(pred, pcutoff).value;
            && masked.keys == pred.keys
            && (forall k :: k in pred.entries ==> masked.entries[k] == MaskedKeypoints(pred.entries[k], pcutoff))
            && r.value == evaluate(AssembliesOf(masked), AssembliesOf(gt), oksSigma, margin))
  {
    var mask := ImageMasker(pred, pcutoff);
    PerKeySpec(pred, mask);
    assert forall k :: k in pred.entries ==> mask(k) == MaskedImage(pred.entries[k], pcutoff);
  }

  /**
   * compute_oks with its loop over the predicted images: masks each one,
   * builds the assemblies of both sides and calls the evaluator.
   */
  method ComputeOks(pred: Dict<KeypointArray>, gt: Dict<KeypointArray>, oksSigma: real, margin: real,
                    pcutoff: Option<real>, evaluate: Evaluator)
    returns (r: Result<OksScores, ScoreError>)
    requires pred.Valid() && ValidArrays(pred) && gt.Valid()
    ensures r == Oks(pred, gt, oksSigma, margin, pcutoff, evaluate)
  {
    var maskedPred := MaskPredictions(pred, pcutoff);
    PerKeySpec(pred, ImageMasker(pred, pcutoff));
    if maskedPred.Err? {
      return Err(maskedPred.error);
    }
    var assembliesPred := BuildAssemblies(maskedPred.value);
    var assembliesGt := BuildAssemblies(gt);
    return Ok(evaluate(assembliesPred, assembliesGt, oksSigma, margin));
  }

  /**
   * The loop of compute_oks over the predicted images: masks each one in
   * order and stops at the first image that cannot be masked.
   */
  method MaskPredictions(pred: Dict<KeypointArray>, pcutoff: Option<real>)
    returns (r: Result<Dict<KeypointArray>, ScoreError>)
    requires pred.Valid() && ValidArrays(pred)
    ensures r == MaskedPredictions(pred, pcutoff)
  {
    ghost var mask := ImageMasker(pred, pcutoff);
    ghost var keys := pred.keys;
    var maskedPred := Empty();
    for t := 0 to |pred.keys|
      invariant FirstFailure(keys, mask, t).None?
      invariant maskedPred == Dict(keys[..t], Results(keys[..t], mask))
    {
      var imagePath := pred.keys[t];
      var masked := MaskBelowCutoff(pred.entries[imagePath], pcutoff);
      ImageMaskerAt(pred, pcutoff, imagePath);
      if masked.Err? {
        FirstFailureStays(keys, mask, t + 1, |keys|);
        return Err(masked.error);
      }
      PerKeyStep(pred, mask, t);
      maskedPred := maskedPred.Put(imagePath, masked.value);
    }
    assert keys[..|keys|] == keys;
    r := Ok(maskedPred);
  }

  // ---------------------------------------------------------------------------
  // get_scores

  /** Every entry of Flat(s) comes from one of the pieces. */
  lemma {:induction false} FlatMember<T>(s: seq<seq<T>>, x: T)
    requires x in Flat(s)
    ensures exists i :: 0 <= i < |s| && x in s[i]
  {
    if x !in s[0] {
      FlatMember(s[1..], x);
      var i :| 0 <= i < |s[1..]| && x in s[1..][i];
      assert x in s[i + 1];
    }
  }

  /** Every row of stacked well-formed arrays has as many entries as its array has columns. */
  lemma RowWidth(arrays: seq<KeypointArray>, c: nat)
    requires forall i :: 0 <= i < |arrays| ==> arrays[i].Valid() && arrays[i].columns == c
    ensures forall r :: r in Rows(arrays) ==> |r| == c
  {
    var images := seq(|arrays|, i requires 0 <= i < |arrays| => Flat(arrays[i].data));
    forall r | r in Rows(arrays) ensures |r| == c {
      FlatMember(images, r);
      var i :| 0 <= i < |images| && r in images[i];
      FlatMember(arrays[i].data, r);
      var j :| 0 <= j < |arrays[i].data| && r in arrays[i].data[j];
      var k :| 0 <= k < |arrays[i].data[j]| && arrays[i].data[j][k] == r;
    }
  }

  /** The rows of stacked arrays cut to w entries; of width w when every array has w columns. */
  function KeypointRows(arrays: seq<KeypointArray>, w: nat): (rows: seq<seq<Num>>)
    ensures (forall i :: 0 <= i < |arrays| ==> arrays[i].Valid() && arrays[i].columns == w) ==>
              forall i :: 0 <= i < |rows| ==> |rows[i]| == w
  {
    var rows := Truncate(Rows(arrays), w);
    assert (forall i :: 0 <= i < |arrays| ==> arrays[i].Valid() && arrays[i].columns == w) ==>
             forall i :: 0 <= i < |rows| ==> |rows[i]| == w by {
      if forall i :: 0 <= i < |arrays| ==> arrays[i].Valid() && arrays[i].columns == w {
        RowWidth(arrays, w);
        forall i | 0 <= i < |rows| ensures |rows[i]| == w {
          assert Rows(arrays)[i] in Rows(arrays);
        }
      }
    }
    rows
  }

  /** [..., :3].reshape((-1, 3)) of stacked predictions. */
  function PredictionRows(arrays: seq<KeypointArray>): Result<seq<seq<Num>>, ScoreError> {
    Reshape(Flat(Truncate(Rows(arrays), 3)), 3)
  }

  /** .reshape((-1, 2)) of stacked ground truth. */
  function GroundTruthRows(arrays: seq<KeypointArray>): Result<seq<seq<Num>>, ScoreError> {
    Reshape(Flat(Rows(arrays)), 2)
  }

  /** Predictions of three or more columns reshape to their keypoint rows' (x, y, score). */
  lemma PredictionRowsOfScoredArrays(arrays: seq<KeypointArray>, c: nat)
    requires c >= 3 && forall i :: 0 <= i < |arrays| ==> arrays[i].Valid() && arrays[i].columns == c
    ensures PredictionRows(arrays) == Ok(Truncate(Rows(arrays), 3))
  {
    RowWidth(arrays, c);
    var rows := Truncate(Rows(arrays), 3);
    forall i | 0 <= i < |rows| ensures |rows[i]| == 3 {
      assert Rows(arrays)[i] in Rows(arrays);
    }
    ReshapeRoundTrip(rows, 3);
  }

  /** Ground truth of two columns reshapes to its keypoint rows. */
  lemma GroundTruthRowsOfPairs(arrays: seq<KeypointArray>)
    requires forall i :: 0 <= i < |arrays| ==> arrays[i].Valid() && arrays[i].columns == 2
    ensures GroundTruthRows(arrays) == Ok(Rows(arrays))
  {
    RowWidth(arrays, 2);
    var rows := Rows(arrays);
    forall i | 0 <= i < |rows| ensures |rows[i]| == 2 {
      assert rows[i] in rows;
    }
    ReshapeRoundTrip(rows, 2);
  }

  /** The scores get_scores reports. */
  datatype ScoreReport = ScoreReport(rmse: Num, rmsePcutoff: Num, mAP: real, mAR: real,
                                     mAPPcutoff: real, mARPcutoff: real)

  /** The σ and margin compute_oks uses by default. */
  const OKS_SIGMA: real := 0.1
  const MARGIN: real := 0.0

  /** All arrays of a dict are well formed and the dict is well formed. */
  predicate ValidInput(d: Dict<KeypointArray>) {
    d.Valid() && ValidArrays(d)
  }

  /** Rows of the predictions and of the ground truth, stacked in the order of paths. */
  function MainRows(poses: Dict<KeypointArray>, gt: Dict<KeypointArray>, paths: seq<string>)
    : (r: Result<(seq<seq<Num>>, seq<seq<Num>>), ScoreError>)
    ensures r.Ok? ==> (forall i :: 0 <= i < |r.value.0| ==> |r.value.0[i]| == 3)
    ensures r.Ok? ==> (forall i :: 0 <= i < |r.value.1| ==> |r.value.1[i]| == 2)
    ensures r.Err? ==> !r.error.ImageCountMismatch?
  {
    var predStack :- Stacked(poses, paths);
    var predRows :- PredictionRows(predStack);
    var gtStack :- Stacked(gt, paths);
    var gtRows :- GroundTruthRows(gtStack);
    Ok((predRows, gtRows))
  }

  /** Rows of the unique-bodypart predictions and ground truth; the ground truth must be given. */
  function UniqueRows(uniquePoses: Dict<KeypointArray>, uniqueGt: Option<Dict<KeypointArray>>, paths: seq<string>)
    : (r: Result<(seq<seq<Num>>, seq<seq<Num>>), ScoreError>)
    ensures r.Ok? ==> (forall i :: 0 <= i < |r.value.0| ==> |r.value.0[i]| == 3)
    ensures r.Ok? ==> (forall i :: 0 <= i < |r.value.1| ==> |r.value.1[i]| == 2)
    ensures r.Err? ==> !r.error.ImageCountMismatch?
  {
    var uniqueStack :- Stacked(uniquePoses, paths);
    var uniqueRows :- PredictionRows(uniqueStack);
    var uniqueGtDict :- if uniqueGt.None? then Err(NoUniqueGroundTruth) else Ok(uniqueGt.value);
    var uniqueGtStack :- Stacked(uniqueGtDict, paths);
    var uniqueGtRows :- GroundTruthRows(uniqueGtStack);
    Ok((uniqueRows, uniqueGtRows))
  }

  /** The prediction and ground-truth rows, with the unique-bodypart rows appended when those poses are given. */
  function RmseRows(poses: Dict<KeypointArray>, gt: Dict<KeypointArray>,
                    uniquePoses: Option<Dict<KeypointArray>>, uniqueGt: Option<Dict<KeypointArray>>)
    : (r: Result<(seq<seq<Num>>, seq<seq<Num>>), ScoreError>)
    ensures r.Ok? ==> (forall i :: 0 <= i < |r.value.0| ==> |r.value.0[i]| == 3)
    ensures r.Ok? ==> (forall i :: 0 <= i < |r.value.1| ==> |r.value.1[i]| == 2)
    ensures r.Err? ==> !r.error.ImageCountMismatch?
  {
    var main :- MainRows(poses, gt, poses.keys);
    if uniquePoses.None? then Ok(main)
    else
      var unique :- UniqueRows(uniquePoses.value, uniqueGt, poses.keys);
      Ok((main.0 + unique.0, main.1 + unique.1))
  }

  /** The scores once the image counts agree. */
  function ScoresOfRows(poses: Dict<KeypointArray>, gt: Dict<KeypointArray>, rows: (seq<seq<Num>>, seq<seq<Num>>),
                        pcutoff: real, sqrt: real -> real, evaluate: Evaluator): (r: Result<ScoreReport, ScoreError>)
    requires ValidInput(poses)
    requires forall i :: 0 <= i < |rows.0| ==> |rows.0[i]| == 3
    requires forall i :: 0 <= i < |rows.1| ==> |rows.1[i]| == 2
    ensures r.Err? ==> !r.error.ImageCountMismatch?
  {
    match ComputeRmse(rows.0, rows.1, pcutoff, sqrt)
    case Err(e) => Err(e)
    case Ok(rmse) =>
      var oks := Oks(poses, gt, OKS_SIGMA, MARGIN, None, evaluate).value;
      match Oks(poses, gt, OKS_SIGMA, MARGIN, Some(pcutoff), evaluate)
      case Err(e) => Err(e)
      case Ok(oksPcutoff) =>
        Ok(ScoreReport(rmse.0, rmse.1, Percent(oks.mAP), Percent(oks.mAR),
                       Percent(oksPcutoff.mAP), Percent(oksPcutoff.mAR)))
  }

  /** A fraction in percent. */
  function Percent(x: real): real {
    100.0 * x
  }

  /**
   * get_scores: the image counts must agree; then the RMSE pair of the
   * stacked rows and the OKS averages without and with the cutoff, in
   * percent.
   */
  function Scores(poses: Dict<KeypointArray>, gt: Dict<KeypointArray>,
                  uniquePoses: Option<Dict<KeypointArray>>, uniqueGt: Option<Dict<KeypointArray>>,
                  pcutoff: real, sqrt: real -> real, evaluate: Evaluator): Result<ScoreReport, ScoreError>
    requires ValidInput(poses)
  {
    if |poses.keys| != |gt.keys| then Err(ImageCountMismatch(|poses.keys|, |gt.keys|))
    else
      var rows :- RmseRows(poses, gt, uniquePoses, uniqueGt);
      ScoresOfRows(poses, gt, rows, pcutoff, sqrt, evaluate)
  }

  /** The image-count error is reported exactly when the two dicts have different sizes. */
  lemma ScoresImageCount(poses: Dict<KeypointArray>, gt: Dict<KeypointArray>,
                         uniquePoses: Option<Dict<KeypointArray>>, uniqueGt: Option<Dict<KeypointArray>>,
                         pcutoff: real, sqrt: real -> real, evaluate: Evaluator)
    requires ValidInput(poses)
    ensures var r := Scores(poses, gt, uniquePoses, uniqueGt, pcutoff, sqrt, evaluate);
      (r.Err? && r.error.ImageCountMismatch?) <==> |poses.keys| != |gt.keys|
  {
  }

  /**
   * Without unique bodyparts, with predictions of three columns and ground
   * truth of two, the RMSE pair is that of the keypoint rows in image order:
   * (x, y, score) of every predicted keypoint against (x, y) of the same
   * keypoint in the ground truth.
   */
  lemma ScoresOfAlignedArrays(poses: Dict<KeypointArray>, gt: Dict<KeypointArray>,
                              pcutoff: real, sqrt: real -> real, evaluate: Evaluator)
    requires ValidInput(poses) && ValidInput(gt)
    requires |poses.keys| == |gt.keys|
    requires Stacked(poses, poses.keys).Ok? && Stacked(gt, poses.keys).Ok?
    requires forall k :: k in poses.entries ==> poses.entries[k].columns == 3
    requires forall k :: k in gt.entries ==> gt.entries[k].columns == 2
    ensures var predStack := Stacked(poses, poses.keys).value;
      var gtStack := Stacked(gt, poses.keys).value;
      (forall i :: 0 <= i < |predStack| ==> predStack[i].Valid() && predStack[i].columns == 3) &&
      (forall i :: 0 <= i < |gtStack| ==> gtStack[i].Valid() && gtStack[i].columns == 2) &&
      var r := Scores(poses, gt, None, None, pcutoff, sqrt, evaluate);
      var rmse := ComputeRmse(KeypointRows(predStack, 3), KeypointRows(gtStack, 2), pcutoff, sqrt);
      rmse.Ok? ==> r.Ok? && (r.value.rmse, r.value.rmsePcutoff) == rmse.value
  {
    var predStack := Stacked(poses, poses.keys).value;
    var gtStack := Stacked(gt, poses.keys).value;
    StackedSpec(poses, poses.keys);
    StackedSpec(gt, poses.keys);
    PredictionRowsOfScoredArrays(predStack, 3);
    GroundTruthRowsOfPairs(gtStack);
    assert Truncate(Rows(gtStack), 2) == Rows(gtStack) by {
      RowWidth(gtStack, 2);
      forall i | 0 <= i < |Rows(gtStack)| ensures |Rows(gtStack)[i]| == 2 {
        assert Rows(gtStack)[i] in Rows(gtStack);
      }
    }
    assert MainRows(poses, gt, poses.keys) == Ok((KeypointRows(predStack, 3), KeypointRows(gtStack, 2)));
    OksSpec(poses, gt, OKS_SIGMA, MARGIN, Some(pcutoff), evaluate);
  }

  /** The stacking and reshaping of the predictions and the ground truth. */
  method CollectMainRows(poses: Dict<KeypointArray>, gt: Dict<KeypointArray>, paths: seq<string>)
    returns (r: Result<(seq<seq<Num>>, seq<seq<Num>>), ScoreError>)
    ensures r == MainRows(poses, gt, paths)
  {
    var predStack := BuildKeypointArray(poses, paths);
    if predStack.Err? { return Err(predStack.error); }
    var predPoses := PredictionRows(predStack.value);
    if predPoses.Err? { return Err(predPoses.error); }
    var gtStack := BuildKeypointArray(gt, paths);
    if gtStack.Err? { return Err(gtStack.error); }
    var gtPoses := GroundTruthRows(gtStack.value);
    if gtPoses.Err? { return Err(gtPoses.error); }
    return Ok((predPoses.value, gtPoses.value));
  }

  /** The stacking and reshaping of the unique-bodypart predictions and ground truth. */
  method CollectUniqueRows(uniquePoses: Dict<KeypointArray>, uniqueGt: Option<Dict<KeypointArray>>, paths: seq<string>)
    returns (r: Result<(seq<seq<Num>>, seq<seq<Num>>), ScoreError>)
    ensures r == UniqueRows(uniquePoses, uniqueGt, paths)
  {
    var uniqueStack := BuildKeypointArray(uniquePoses, paths);
    if uniqueStack.Err? { return Err(uniqueStack.error); }
    var uniqueRows := PredictionRows(uniqueStack.value);
    if uniqueRows.Err? { return Err(uniqueRows.error); }
    if uniqueGt.None? { return Err(NoUniqueGroundTruth); }
    var uniqueGtStack := BuildKeypointArray(uniqueGt.value, paths);
    if uniqueGtStack.Err? { return Err(uniqueGtStack.error); }
    var uniqueGtRows := GroundTruthRows(uniqueGtStack.value);
    if uniqueGtRows.Err? { return Err(uniqueGtRows.error); }
    return Ok((uniqueRows.value, uniqueGtRows.value));
  }

  /**
   * get_scores: checks the image counts, stacks the arrays in the order of
   * the predicted images, computes the RMSE pair and the OKS averages without
   * and with the cutoff.
   */
  method GetScores(poses: Dict<KeypointArray>, gt: Dict<KeypointArray>,
                   uniquePoses: Option<Dict<KeypointArray>>, uniqueGt: Option<Dict<KeypointArray>>,
                   pcutoff: real, sqrt: real -> real, evaluate: Evaluator)
    returns (r: Result<ScoreReport, ScoreError>)
    requires ValidInput(poses) && gt.Valid()
    ensures r == Scores(poses, gt, uniquePoses, uniqueGt, pcutoff, sqrt, evaluate)
  {
    if |poses.keys| != |gt.keys| {
      return Err(ImageCountMismatch(|poses.keys|, |gt.keys|));
    }
    var imagePaths := poses.keys;
    var main := CollectMainRows(poses, gt, imagePaths);
    if main.Err? { return Err(main.error); }
    var pred, truth := main.value.0, main.value.1;
    if uniquePoses.Some? {
      var unique := CollectUniqueRows(uniquePoses.value, uniqueGt, imagePaths);
      if unique.Err? { return Err(unique.error); }
      pred, truth := pred + unique.value.0, truth + unique.value.1;
    }
    assert RmseRows(poses, gt, uniquePoses, uniqueGt) == Ok((pred, truth));
    r := ScoreRows(poses, gt, (pred, truth), pcutoff, sqrt, evaluate);
  }

  /** The RMSE pair of the rows and the OKS averages in percent. */
  method ScoreRows(poses: Dict<KeypointArray>, gt: Dict<KeypointArray>, rows: (seq<seq<Num>>, seq<seq<Num>>),
                   pcutoff: real, sqrt: real -> real, evaluate: Evaluator)
    returns (r: Result<ScoreReport, ScoreError>)
    requires ValidInput(poses) && gt.Valid()
    requires forall i :: 0 <= i < |rows.0| ==> |rows.0[i]| == 3
    requires forall i :: 0 <= i < |rows.1| ==> |rows.1[i]| == 2
    ensures r == ScoresOfRows(poses, gt, rows, pcutoff, sqrt, evaluate)
  {
    var rmse := ComputeRmse(rows.0, rows.1, pcutoff, sqrt);
    if rmse.Err? { return Err(rmse.error); }
    var oks := ComputeOks(poses, gt, OKS_SIGMA, MARGIN, None, evaluate);
    var oksPcutoff := ComputeOks(poses, gt, OKS_SIGMA, MARGIN, Some(pcutoff), evaluate);
    if oksPcutoff.Err? {
      assert ScoresOfRows(poses, gt, rows, pcutoff, sqrt, evaluate) == Err(oksPcutoff.error);
      return Err(oksPcutoff.error);
    }
    return Ok(ScoreReport(rmse.value.0, rmse.value.1, Percent(oks.value.mAP), Percent(oks.value.mAR),
                          Percent(oksPcutoff.value.mAP), Percent(oksPcutoff.value.mAR)));
  }

  // ---------------------------------------------------------------------------
  // align_predicted_individuals_to_gt

  /**
   * rmse_match_prediction_to_gt(pose, gt_pose): for each ground-truth
   * individual, the index of the predicted individual matched to it.
   */
  type Matcher = (KeypointArray, KeypointArray) -> seq<int>

  /** np.nan_to_num(a, nan=value): NaN entries become value, the others are kept. */
  function NanToNum(a: KeypointArray, value: real): (r: KeypointArray)
    requires a.Valid()
    ensures r.Valid()
    ensures r.individuals == a.individuals && r.keypoints == a.keypoints && r.columns == a.columns
    ensures forall i, k, c :: 0 <= i < a.individuals && 0 <= k < a.keypoints && 0 <= c < a.columns ==>
              r.At(i, k, c) == if a.At(i, k, c).NaN? then Val(value) else a.At(i, k, c)
  {
    KeypointArray(a.individuals, a.keypoints, a.columns,
      seq(a.individuals, i requires 0 <= i < a.individuals =>
        seq(a.keypoints, k requires 0 <= k < a.keypoints =>
          seq(a.columns, c requires 0 <= c < a.columns => if a.At(i, k, c).NaN? then Val(value) else a.At(i, k, c)))))
  }

  /** An index numpy accepts on an axis of length n: -n up to n - 1. */
  predicate IndexInRange(index: int, n: nat) {
    -(n as int) <= index < n
  }

  /** The position a negative index counts from the end of an axis of length n. */
  function Wrap(index: int, n: nat): (p: nat)
    requires IndexInRange(index, n)
    ensures p < n
  {
    if index < 0 then index + n else index
  }

  /** The first index that is out of range for an axis of length n. */
  function FirstOutOfRange(indices: seq<int>, n: nat): (r: Option<int>)
    ensures r.None? <==> forall j :: 0 <= j < |indices| ==> IndexInRange(indices[j], n)
    ensures r.Some? ==> r.value in indices && !IndexInRange(r.value, n)
  {
    if indices == [] then None
    else if !IndexInRange(indices[0], n) then Some(indices[0])
    else
      var r := FirstOutOfRange(indices[1..], n);
      assert r.None? ==> forall j :: 1 <= j < |indices| ==> indices[j] == indices[1..][j - 1];
      r
  }

  /**
   * a[indices] on the individuals axis: one individual per index, negative
   * indices counting from the end; an index out of range is an error.
   */
  function TakeIndividuals(a: KeypointArray, indices: seq<int>): (r: Result<KeypointArray, ScoreError>)
    requires a.Valid()
    ensures r.Err? <==> exists j :: 0 <= j < |indices| && !IndexInRange(indices[j], a.individuals)
    ensures r.Err? ==> r.error.IndexOutOfRange? && r.error.size == a.individuals &&
                       r.error.index in indices && !IndexInRange(r.error.index, a.individuals)
    ensures r.Ok? ==> && r.value.Valid()
                      && r.value.individuals == |indices|
                      && r.value.keypoints == a.keypoints && r.value.columns == a.columns
                      && forall j :: 0 <= j < |indices| ==> r.value.data[j] == a.data[Wrap(indices[j], a.individuals)]
  {
    match FirstOutOfRange(indices, a.individuals)
    case Some(index) => Err(IndexOutOfRange(index, a.individuals))
    case None =>
      Ok(KeypointArray(|indices|, a.keypoints, a.columns,
        seq(|indices|, j requires 0 <= j < |indices| => a.data[Wrap(indices[j], a.individuals)])))
  }

  /**
   * The ground truth of one image as the matcher sees it: the invisible
   * keypoints and the missing coordinates set to -1, the visibility dropped.
   */
  function MatchTarget(gt: KeypointArray): (r: KeypointArray)
    requires gt.Valid() && gt.columns >= 3
    ensures r.Valid() && r.individuals == gt.individuals && r.keypoints == gt.keypoints && r.columns == 2
  {
    NanToNum(InvisibleMasked(gt, Val(-1.0)), -1.0)
  }

  /**
   * The prediction of one image reordered by the matcher: the ground truth
   * of the image must exist and carry a visibility column, and the indices
   * the matcher returns must lie on the individuals axis.
   */
  function AlignImage(pred: Dict<KeypointArray>, gt: Dict<KeypointArray>, matcher: Matcher, image: string)
    : (r: Result<KeypointArray, ScoreError>)
    requires ValidArrays(pred) && ValidArrays(gt) && image in pred.entries
    ensures r.Err? <==> || image !in gt.entries
                        || gt.entries[image].columns < 3
                        || exists j :: 0 <= j < |matcher(pred.entries[image], MatchTarget(gt.entries[image]))| &&
                                       !IndexInRange(matcher(pred.entries[image], MatchTarget(gt.entries[image]))[j],
                                                     pred.entries[image].individuals)
  {
    if image !in gt.entries then Err(MissingKey(image))
    else if gt.entries[image].columns < 3 then Err(MissingColumn)
    else
      var pose := pred.entries[image];
      TakeIndividuals(pose, matcher(pose, MatchTarget(gt.entries[image])))
  }

  /** The error of the first of the first t keys on which f fails, if any. */
  function FirstFailure<B>(keys: seq<string>, f: string -> Result<B, ScoreError>, t: nat): (r: Option<ScoreError>)
    requires t <= |keys|
    ensures r.None? <==> forall u :: 0 <= u < t ==> f(keys[u]).Ok?
    ensures r.Some? ==> exists u :: 0 <= u < t && f(keys[u]) == Err(r.value)
  {
    if t == 0 then None
    else
      match FirstFailure(keys, f, t - 1)
      case Some(e) => Some(e)
      case None => if f(keys[t - 1]).Err? then Some(f(keys[t - 1]).error) else None
  }

  /** Once a failure is found among the first t keys, it stays the first failure. */
  lemma {:induction false} FirstFailureStays<B>(keys: seq<string>, f: string -> Result<B, ScoreError>, t: nat, u: nat)
    requires t <= u <= |keys| && FirstFailure(keys, f, t).Some?
    ensures FirstFailure(keys, f, u) == FirstFailure(keys, f, t)
    decreases u - t
  {
    if t < u {
      FirstFailureStays(keys, f, t, u - 1);
    }
  }

  /** The results of f on the listed keys, each stored under its key. */
  function Results<B>(keys: seq<string>, f: string -> Result<B, ScoreError>): map<string, B>
    requires forall u :: 0 <= u < |keys| ==> f(keys[u]).Ok?
  {
    map k | k in keys :: f(k).value
  }

  /**
   * The result of f for every key of d, stored under the key in the same
   * order, or the error of the first key on which f fails.
   */
  function PerKey<A, B>(d: Dict<A>, f: string -> Result<B, ScoreError>): (r: Result<Dict<B>, ScoreError>)
    requires d.Valid()
  {
    match FirstFailure(d.keys, f, |d.keys|)
    case Some(e) => Err(e)
    case None => Ok(Dict(d.keys, Results(d.keys, f)))
  }

  /**
   * PerKey fails exactly when f fails on some key, with the error of the
   * first such key; otherwise it has the keys of d, in order, and f's result
   * under each.
   */
  lemma PerKeySpec<A, B>(d: Dict<A>, f: string -> Result<B, ScoreError>)
    requires d.Valid()
    ensures var r := PerKey(d, f);
      && (r.Err? <==> exists k :: k in d.entries && f(k).Err?)
      && (r.Err? ==> exists k :: k in d.entries && f(k) == Err(r.error))
      && (r.Ok? ==> r.value.Valid() && r.value.keys == d.keys &&
                    forall k :: k in d.entries ==> k in r.value.entries && f(k) == Ok(r.value.entries[k]))
  {
    var r := PerKey(d, f);
    if r.Err? {
      var u :| 0 <= u < |d.keys| && f(d.keys[u]) == Err(r.error);
      assert d.keys[u] in d.entries;
    } else {
      forall k | k in d.entries ensures k in r.value.entries && f(k) == Ok(r.value.entries[k]) {
        var u :| 0 <= u < |d.keys| && d.keys[u] == k;
      }
    }
  }

  /** Storing f's result for key t after those of the keys before it gives those of the first t + 1 keys. */
  lemma PerKeyStep<A, B>(d: Dict<A>, f: string -> Result<B, ScoreError>, t: nat)
    requires d.Valid() && t < |d.keys|
    requires FirstFailure(d.keys, f, t + 1).None?
    ensures FirstFailure(d.keys, f, t).None?
    ensures Dict(d.keys[..t], Results(d.keys[..t], f)).Valid()
    ensures Dict(d.keys[..t], Results(d.keys[..t], f)).Put(d.keys[t], f(d.keys[t]).value)
              == Dict(d.keys[..t + 1], Results(d.keys[..t + 1], f))
  {
    var key := d.keys[t];
    assert key !in d.keys[..t];
    assert d.keys[..t + 1] == d.keys[..t] + [key];
  }

  /** AlignImage as a function of the image; it is only applied to predicted images. */
  function ImageAligner(pred: Dict<KeypointArray>, gt: Dict<KeypointArray>, matcher: Matcher)
    : string -> Result<KeypointArray, ScoreError>
    requires ValidArrays(pred) && ValidArrays(gt)
  {
    image => if image in pred.entries then AlignImage(pred, gt, matcher, image) else Err(MissingKey(image))
  }

  /** align_predicted_individuals_to_gt on all images. */
  function Aligned(pred: Dict<KeypointArray>, gt: Dict<KeypointArray>, matcher: Matcher)
    : Result<Dict<KeypointArray>, ScoreError>
    requires ValidInput(pred) && ValidArrays(gt)
  {
    PerKey(pred, ImageAligner(pred, gt, matcher))
  }

  /**
   * The aligned predictions have the images of the predictions, in the same
   * order; individual j of an image is the predicted individual the matcher
   * put at j (a negative index counting from the end), with its keypoints
   * and columns. The alignment fails exactly when some image fails.
   */
  lemma AlignedSpec(pred: Dict<KeypointArray>, gt: Dict<KeypointArray>, matcher: Matcher)
    requires ValidInput(pred) && ValidArrays(gt)
    ensures var r := Aligned(pred, gt, matcher);
      && (r.Err? <==> exists k :: k in pred.entries && AlignImage(pred, gt, matcher, k).Err?)
      && (r.Ok? ==>
            && r.value.keys == pred.keys
            && forall k :: k in pred.entries ==>
                 var pose := pred.entries[k];
                 var indices := matcher(pose, MatchTarget(gt.entries[k]));
                 && k in r.value.entries
                 && r.value.entries[k].individuals == |indices|
                 && r.value.entries[k].keypoints == pose.keypoints
                 && r.value.entries[k].columns == pose.columns
                 && forall j :: 0 <= j < |indices| ==>
                      r.value.entries[k].data[j] == pose.data[Wrap(indices[j], pose.individuals)])
  {
    var r := Aligned(pred, gt, matcher);
    var align := ImageAligner(pred, gt, matcher);
    PerKeySpec(pred, align);
    assert forall k :: k in pred.entries ==> align(k) == AlignImage(pred, gt, matcher, k);
  }

  /**
   * align_predicted_individuals_to_gt with its loop over the predicted
   * images: masks the invisible ground-truth keypoints and the missing
   * coordinates with -1, asks the matcher for the order of the predicted
   * individuals and stores the reordered prediction under the image.
   */
  method AlignPredictedIndividualsToGt(predictions: Dict<KeypointArray>, groundTruth: Dict<KeypointArray>,
                                       matcher: Matcher)
    returns (r: Result<Dict<KeypointArray>, ScoreError>)
    requires ValidInput(predictions) && ValidArrays(groundTruth)
    ensures r == Aligned(predictions, groundTruth, matcher)
  {
    ghost var align := ImageAligner(predictions, groundTruth, matcher);
    ghost var keys := predictions.keys;
    var matchedPoses := Empty();
    for t := 0 to |predictions.keys|
      invariant FirstFailure(keys, align, t).None?
      invariant matchedPoses == Dict(keys[..t], Results(keys[..t], align))
    {
      var image := predictions.keys[t];
      var pose := predictions.entries[image];
      ghost var expected := AlignImage(predictions, groundTruth, matcher, image);
      assert align(image) == expected;
      if image !in groundTruth.entries {
        FirstFailureStays(keys, align, t + 1, |keys|);
        return Err(MissingKey(image));
      }
      var gtPose := MaskInvisible(groundTruth.entries[image], Val(-1.0));
      if gtPose.Err? {
        FirstFailureStays(keys, align, t + 1, |keys|);
        return Err(gtPose.error);
      }
      var target := NanToNum(gtPose.value, -1.0);
      var matchIndividuals := matcher(pose, target);
      var aligned := TakeIndividuals(pose, matchIndividuals);
      assert aligned == expected;
      if aligned.Err? {
        FirstFailureStays(keys, align, t + 1, |keys|);
        return Err(aligned.error);
      }
      PerKeyStep(predictions, align, t);
      matchedPoses := matchedPoses.Put(image, aligned.value);
    }
    assert keys[..|keys|] == keys;
    r := Ok(matchedPoses);
  }

  // The matcher as a permutation of the individuals.

  predicate DistinctIndices(s: seq<int>) {
    forall i, j :: 0 <= i < j < |s| ==> s[i] != s[j]
  }

  function Elements(s: seq<int>): set<int> {
    set x | x in s
  }

  /** {0, ..., n - 1} */
  function IndicesBelow(n: nat): (r: set<int>)
    ensures forall x :: x in r <==> 0 <= x < n
  {
    if n == 0 then {} else IndicesBelow(n - 1) + {n - 1}
  }

  lemma {:induction false} DistinctElements(s: seq<int>)
    requires DistinctIndices(s)
    ensures |Elements(s)| == |s|
  {
    if s != [] {
      var p := s[..|s| - 1];
      DistinctElements(p);
      assert Elements(s) == Elements(p) + {s[|s| - 1]};
    }
  }

  lemma {:induction false} IndicesBelowSize(n: nat)
    ensures |IndicesBelow(n)| == n
  {
    if n > 0 {
      IndicesBelowSize(n - 1);
    }
  }

  lemma SubsetSize(a: set<int>, b: set<int>)
    requires a <= b
    ensures |a| <= |b|
  {
    assert b == a + (b - a);
  }

  /** n distinct indices in 0 .. n - 1 take every one of them. */
  lemma DistinctIndicesCover(indices: seq<int>, n: nat)
    requires |indices| == n && DistinctIndices(indices)
    requires forall j :: 0 <= j < n ==> 0 <= indices[j] < n
    ensures forall i :: 0 <= i < n ==> i in indices
  {
    forall i | 0 <= i < n ensures i in indices {
      if i !in indices {
        DistinctElements(indices);
        IndicesBelowSize(n);
        SubsetSize(Elements(indices), IndicesBelow(n) - {i});
        assert false;
      }
    }
  }

  /**
   * When the matcher orders all the individuals of an image, each once, the
   * aligned prediction of the image has as many individuals and every
   * predicted individual is among them: the alignment only reorders.
   */
  lemma AlignImageReorders(pred: Dict<KeypointArray>, gt: Dict<KeypointArray>, matcher: Matcher, image: string)
    requires ValidArrays(pred) && ValidArrays(gt) && image in pred.entries
    requires image in gt.entries && gt.entries[image].columns >= 3
    requires var pose := pred.entries[image];
      var indices := matcher(pose, MatchTarget(gt.entries[image]));
      && |indices| == pose.individuals && DistinctIndices(indices)
      && forall j :: 0 <= j < |indices| ==> 0 <= indices[j] < pose.individuals
    ensures var r := AlignImage(pred, gt, matcher, image);
      var pose := pred.entries[image];
      && r.Ok?
      && r.value.individuals == pose.individuals
      && forall i :: 0 <= i < pose.individuals ==> exists j :: 0 <= j < pose.individuals && r.value.data[j] == pose.data[i]
  {
    var pose := pred.entries[image];
    var indices := matcher(pose, MatchTarget(gt.entries[image]));
    var r := AlignImage(pred, gt, matcher, image);
    DistinctIndicesCover(indices, pose.individuals);
    forall i | 0 <= i < pose.individuals
      ensures exists j :: 0 <= j < pose.individuals && r.value.data[j] == pose.data[i]
    {
      assert i in indices;
      var j :| 0 <= j < |indices| && indices[j] == i;
      assert r.value.data[j] == pose.data[Wrap(indices[j], pose.individuals)];
    }
  }
}
