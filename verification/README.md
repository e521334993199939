# DeepLabCut pose-estimation core, modelled in Dafny

This project models three deterministic pieces of DeepLabCut's PyTorch
pose-estimation package and proves properties of the model.

- **Heatmap decoding** (`HeatmapPredictor`). A network's per-joint
  confidence maps go through an optional activation and are laid out
  channel-last. The `n_top` highest cells of every (batch, joint) slice are
  selected, and each selected cell becomes a pose entry (x, y, score). The
  entry sits at the centre of the cell at stride resolution, plus an optional
  location-refinement offset scaled by `locref_std`. Scores are optionally
  clipped to [0, 1]. The pose buffer is an `array4<real>`, filled by the
  source's triple gather loop. The predictor's settings are the fields of a
  class.
- **Evaluation scoring**. This covers:
  - the image-count check of `get_scores`;
  - the ordered stacking of per-image keypoint arrays;
  - the RMSE with and without a confidence cutoff, over a NaN-ignoring mean;
  - the masking of low-confidence predictions before the OKS evaluation;
  - building assemblies, which drops individuals with no complete keypoint;
  - the visibility masking of `mask_invisible`, in place on a copied
    `array3`;
  - the reordering of predicted individuals by a matcher.

  Values are `Num` (NaN or a real); dictionaries are insertion-ordered
  `Dict`s (a key sequence plus a map).
- **Model-zoo helpers**. This covers:
  - the remapping of an old checkpoint's state-dict keys;
  - the SuperAnimal snapshot file name;
  - the choice of the rename applied to downloaded weights.

Modules:

- `Wrappers` holds `Option` and `Result`.
- `Arith` holds division and remainder facts.
- `Tensors` holds a 4-D value tensor.
- `Dicts` holds the ordered dictionary.
- `Numbers` holds NaN-aware numbers and `nanmean`.
- `TopK` holds the top-k selection.
- `Predictor` models `single_predictor.py`.
- `Scoring` models `scoring.py`.
- `Remapping` holds a generic rebuild of a dict, entry by entry.
- `ModelZoo` models `modelzoo/utils.py`.

Foreign and numeric pieces are parameters:
- the sigmoid (`sigmoid: real -> real`);
- the square root (`sqrt: real -> real`);
- the external OKS evaluator `evaluate_assembly` (`Evaluator`);
- the individual matcher `rmse_match_prediction_to_gt` (`Matcher`).

## Model

| member | source | states |
|---|---|---|
| Predictor.HeatmapPredictor.constructor | deeplabcut/pose_estimation_pytorch/models/predictors/single_predictor.py:36-56 | The predictor keeps its four settings. The defaults are sigmoid on, clipping off, refinement on and `locref_std` 7.2801. |
| Predictor.CellOfFlat | deeplabcut/pose_estimation_pytorch/models/predictors/single_predictor.py:118-121 | A flat index p < ny*nx splits into (p / nx, p % nx). The row is below ny, the column below nx, and row*nx + column gives p back. |
| Predictor.JoinFlatIndex | deeplabcut/pose_estimation_pytorch/models/predictors/single_predictor.py:119-121 | A cell (y, x) of the grid flattens to y*nx + x < ny*nx, and `//`, `%` by nx recover y and x. |
| Predictor.FlatSlice | deeplabcut/pose_estimation_pytorch/models/predictors/single_predictor.py:118-119 | The reshape of one (batch, joint) slice to a flat row has ny*nx entries, in row-major order. |
| Predictor.FlatSliceAt | deeplabcut/pose_estimation_pytorch/models/predictors/single_predictor.py:119 | Flat position y*nx + x of a slice holds heatmap[b, y, x, j]. |
| Predictor.CellOf | deeplabcut/pose_estimation_pytorch/models/predictors/single_predictor.py:120-121 | The cell of rank n is a heatmap cell whose flat index is the n-th top index of the slice. |
| Predictor.GetTopValues | deeplabcut/pose_estimation_pytorch/models/predictors/single_predictor.py:101-122 | It fails exactly when more candidates are asked for than the slice has cells. Otherwise y and x have extents (batch, n_top, joints), and every (y, x) is inside the grid. |
| Predictor.CandidateIsFlat | deeplabcut/pose_estimation_pytorch/models/predictors/single_predictor.py:118-121 | y*nx + x of every candidate is the flat index topk returned for that rank. Its value is the flat slice's entry there. |
| Predictor.TopCellsDistinct | deeplabcut/pose_estimation_pytorch/models/predictors/single_predictor.py:120-121 | The n_top candidate cells of one (batch, joint) slice are pairwise different. |
| Predictor.TopValuesDescending | deeplabcut/pose_estimation_pytorch/models/predictors/single_predictor.py:120 | Candidate values do not increase with the rank. |
| Predictor.FlatChoiceIsSelected | deeplabcut/pose_estimation_pytorch/models/predictors/single_predictor.py:120-121 | A cell whose flat index topk selected is one of the candidate cells. |
| Predictor.CandidateDominatesCell | deeplabcut/pose_estimation_pytorch/models/predictors/single_predictor.py:120 | Every candidate value is at least the value of any cell that was not selected. |
| Predictor.TopValuesDominate | deeplabcut/pose_estimation_pytorch/models/predictors/single_predictor.py:120 | The same dominance holds for all ranks and all unselected cells of a slice at once. |
| Predictor.Clip | deeplabcut/pose_estimation_pytorch/models/predictors/single_predictor.py:96-97 | The result lies in [0, 1]. Values already in [0, 1] are unchanged; lower values go to 0 and higher values to 1. |
| Predictor.Activated | deeplabcut/pose_estimation_pytorch/models/predictors/single_predictor.py:80-81 | The extents are kept. Each entry is sigmoid(entry) when the activation is on, and the entry itself otherwise. |
| Predictor.ChannelLast | deeplabcut/pose_estimation_pytorch/models/predictors/single_predictor.py:83-84 | permute(0, 2, 3, 1): entry (b, y, x, j) of the result is entry (b, j, y, x) of the input, and the extents rotate to match. |
| Predictor.ScaledLocref | deeplabcut/pose_estimation_pytorch/models/predictors/single_predictor.py:86-92 | The refinement offset of joint j at (b, y, x) is raw channels 2j and 2j+1 at (y, x), each times `locref_std`. |
| Predictor.DecodedHeatmap | deeplabcut/pose_estimation_pytorch/models/predictors/single_predictor.py:77-84 | The activated, channel-last heatmap is a well-formed tensor. |
| Predictor.HeatmapPredictor.Gather | deeplabcut/pose_estimation_pytorch/models/predictors/single_predictor.py:150-156 | After the n/b/j loops over a zeroed buffer, every entry (b, n, j) holds the candidate cell's score in channel 2. Channels 0 and 1 hold its refinement offset, or 0 without a field. |
| Predictor.HeatmapPredictor.PlacePoses | deeplabcut/pose_estimation_pytorch/models/predictors/single_predictor.py:158-164 | The pose buffer has extents (batch, n_top, joints, 3). It holds x = col*sx + 0.5*sx + dx, y = row*sy + 0.5*sy + dy and the gathered score. |
| Predictor.HeatmapPredictor.GetPosePrediction | deeplabcut/pose_estimation_pytorch/models/predictors/single_predictor.py:124-166 | It fails exactly when topk is out of range. Otherwise the fresh pose buffer holds the pose entry of every top-k candidate. |
| Predictor.HeatmapPredictor.ClipScores | deeplabcut/pose_estimation_pytorch/models/predictors/single_predictor.py:96-97 | Only the scores change, each to its clipped value; both coordinates are unchanged. |
| Predictor.HeatmapPredictor.Forward | deeplabcut/pose_estimation_pytorch/models/predictors/single_predictor.py:58-99 | It fails on a missing or ill-shaped `locref` when refinement is on, and otherwise exactly when n_top exceeds the cell count. Otherwise the buffer is the pose of the decoded heatmap, with the scaled field and stride on both axes. Scores are clipped exactly when `clip_scores` is set. |
| Predictor.PoseScoresDescending | deeplabcut/pose_estimation_pytorch/models/predictors/single_predictor.py:145-164 | Pose scores of one (batch, joint) do not increase with the rank. |
| Predictor.PoseScoresDominate | deeplabcut/pose_estimation_pytorch/models/predictors/single_predictor.py:145-164 | Every pose score is at least the heatmap value of any cell that no rank selected. |
| Predictor.PoseAtCellCentre | deeplabcut/pose_estimation_pytorch/models/predictors/single_predictor.py:150-159 | Without refinement, a pose is at ((col + 0.5)*sx, (row + 0.5)*sy), strictly inside its cell for a positive stride. |
| Predictor.RefinementOffsetScaled | deeplabcut/pose_estimation_pytorch/models/predictors/single_predictor.py:86-92 | With refinement, the offset added to a cell's centre is the raw `locref` output at that cell times `locref_std`. |
| Predictor.PoseScoreIsActivatedOutput | deeplabcut/pose_estimation_pytorch/models/predictors/single_predictor.py:77-94 | A pose score is the network's heatmap output at the candidate cell, passed through the sigmoid when that is enabled. |
| Predictor.LocrefLayout | deeplabcut/pose_estimation_pytorch/models/predictors/single_predictor.py:86-91 | The raw `locref` output is accepted when it has extents (B, 2J, H, W) for a channel-last heatmap (B, H, W, J). |
| Predictor.HeatmapPredictor.UsedLocref | deeplabcut/pose_estimation_pytorch/models/predictors/single_predictor.py:86-92 | With refinement on, the field used is the raw `locref`, permuted, paired by joint and scaled by `locref_std`. With refinement off, there is no field. |
| Predictor.PoseEntry | deeplabcut/pose_estimation_pytorch/models/predictors/single_predictor.py:150-164 | The pose entry of candidate (b, n, j) is x = col*sx + 0.5*sx + dx and y = row*sy + 0.5*sy + dy. Its score is heatmap[b, row, col, j]. The offset (dx, dy) is the field at that cell, or zero without a field. |
| Predictor.IsPose | deeplabcut/pose_estimation_pytorch/models/predictors/single_predictor.py:161-164 | A pose buffer has extents (B, n_top, J, 3) and holds the pose entry of every candidate. The score is clipped when clipping is asked for. |
| TopK.Range | deeplabcut/pose_estimation_pytorch/models/predictors/single_predictor.py:119 | The flat positions 0..n-1 of a slice, in order. |
| TopK.ArgMax | deeplabcut/pose_estimation_pytorch/models/predictors/single_predictor.py:120 | The position of a maximal value among the given indices. |
| TopK.SortByValue | deeplabcut/pose_estimation_pytorch/models/predictors/single_predictor.py:120 | A permutation of the indices ordered by non-increasing value. Distinct indices stay distinct. |
| TopK.SelectStep | deeplabcut/pose_estimation_pytorch/models/predictors/single_predictor.py:120 | Putting a maximum in front of a sorted permutation of the rest gives a sorted permutation of all. |
| TopK.TopIndices | deeplabcut/pose_estimation_pytorch/models/predictors/single_predictor.py:120 | The k selected flat positions lie inside the slice. |
| TopK.TopIndicesSpec | deeplabcut/pose_estimation_pytorch/models/predictors/single_predictor.py:120 | The k positions are distinct and ordered by non-increasing value. Each selected value is at least every unselected value. |
| TopK.TopIndexDominates | deeplabcut/pose_estimation_pytorch/models/predictors/single_predictor.py:120 | A selected value is at least the value at any unselected position. |
| Numbers.Square | deeplabcut/pose_estimation_pytorch/apis/scoring.py:152 | `** 2` is NaN exactly for NaN and non-negative otherwise. |
| Numbers.Sqrt | deeplabcut/pose_estimation_pytorch/apis/scoring.py:154-155 | `np.sqrt` is a number exactly for a non-negative number. |
| Numbers.NanMean | deeplabcut/pose_estimation_pytorch/apis/scoring.py:154-155 | `np.nanmean` is NaN exactly when no entry is a number. |
| Numbers.NonNanCountZero | deeplabcut/pose_estimation_pytorch/apis/scoring.py:154-155 | No entry counts exactly when every entry is NaN. |
| Numbers.NanMeanAtLeast | deeplabcut/pose_estimation_pytorch/apis/scoring.py:154-155 | The mean is at least any lower bound of the number entries. |
| Numbers.NanMeanBounds | deeplabcut/pose_estimation_pytorch/apis/scoring.py:154-155 | The mean lies between any lower and upper bound of the number entries. |
| Numbers.NanMeanOfConstant | deeplabcut/pose_estimation_pytorch/apis/scoring.py:154-155 | When every number entry is c, the mean is NaN or c. |
| Scoring.FirstMissing | deeplabcut/pose_estimation_pytorch/apis/scoring.py:124-126 | It finds no key exactly when every key is present. A key it finds is a listed key that is absent. |
| Scoring.FirstMissingAt | deeplabcut/pose_estimation_pytorch/apis/scoring.py:124-126 | The lookup fails on the first absent key in list order. |
| Scoring.Lookup | deeplabcut/pose_estimation_pytorch/apis/scoring.py:124-126 | The appended list has one element per key, and element i is `keypoints[keys[i]]`. |
| Scoring.StackedSpec | deeplabcut/pose_estimation_pytorch/apis/scoring.py:112-127 | Stacking succeeds exactly when every key is present, the list is non-empty and all shapes agree. Then element i is the array of key i. A missing-key error names a listed, absent key. |
| Scoring.BuildKeypointArray | deeplabcut/pose_estimation_pytorch/apis/scoring.py:112-127 | The append loop computes the stacked arrays, or the first lookup or stacking error. |
| Scoring.Truncate | deeplabcut/pose_estimation_pytorch/apis/scoring.py:79-87 | `[..., :w]` keeps the first w entries of every row and the number of rows. |
| Scoring.Chunks | deeplabcut/pose_estimation_pytorch/apis/scoring.py:79-80 | The rows all have the given width, and their concatenation is the input. |
| Scoring.Reshape | deeplabcut/pose_estimation_pytorch/apis/scoring.py:79-80 | `reshape((-1, c))` fails exactly when the size is not divisible by c. Otherwise the rows have width c and flatten back to the input. |
| Scoring.ReshapeRoundTrip | deeplabcut/pose_estimation_pytorch/apis/scoring.py:79-80 | Reshaping the flattening of rows of width c gives those rows back. |
| Scoring.DistanceNaN | deeplabcut/pose_estimation_pytorch/apis/scoring.py:152-154 | A row's distance is NaN exactly when one of its four coordinates is NaN. |
| Scoring.Distances | deeplabcut/pose_estimation_pytorch/apis/scoring.py:152-154 | There is one distance per row, and each is sqrt of dx² + dy² of that row. |
| Scoring.Select | deeplabcut/pose_estimation_pytorch/apis/scoring.py:155 | Boolean indexing `[mask]` gives no more entries than it was given. |
| Scoring.SelectFrom | deeplabcut/pose_estimation_pytorch/apis/scoring.py:155 | Every selected entry is an entry at a position the mask keeps. |
| Scoring.SelectAll | deeplabcut/pose_estimation_pytorch/apis/scoring.py:155 | An all-true mask keeps everything. |
| Scoring.SelectNone | deeplabcut/pose_estimation_pytorch/apis/scoring.py:155 | An all-false mask keeps nothing. |
| Scoring.CutoffMask | deeplabcut/pose_estimation_pytorch/apis/scoring.py:151 | Entry i is `pred[i, 2] >= pcutoff`, which is false for a NaN score. |
| Scoring.ComputeRmse | deeplabcut/pose_estimation_pytorch/apis/scoring.py:130-156 | It fails exactly when the row counts differ, and reports both counts. |
| Scoring.RmseNonNegative | deeplabcut/pose_estimation_pytorch/apis/scoring.py:151-155 | Both RMSE values are NaN or non-negative. |
| Scoring.RmseNaNIffNoCompleteRow | deeplabcut/pose_estimation_pytorch/apis/scoring.py:152-154 | The RMSE is NaN, rather than an error, exactly when every row has a NaN coordinate. |
| Scoring.RmseOfExactPrediction | deeplabcut/pose_estimation_pytorch/apis/scoring.py:151-155 | A prediction equal to the ground truth gives 0 (or NaN when no row is complete), with and without the cutoff. |
| Scoring.RmseCutoffBelowAllScores | deeplabcut/pose_estimation_pytorch/apis/scoring.py:151-155 | When every score reaches the cutoff, the cutoff RMSE equals the plain RMSE. |
| Scoring.RmseCutoffAboveAllScores | deeplabcut/pose_estimation_pytorch/apis/scoring.py:151-155 | When no score reaches the cutoff, the cutoff RMSE is NaN. |
| Scoring.Contents | deeplabcut/pose_estimation_pytorch/apis/scoring.py:271 | An array's value has the buffer's extents and entries. |
| Scoring.CoordinateColumns | deeplabcut/pose_estimation_pytorch/apis/scoring.py:187 | `[:, :, :2]` keeps min(2, columns) columns. |
| Scoring.MaskedKeypoints | deeplabcut/pose_estimation_pytorch/apis/scoring.py:187-189 | The masked array keeps the individuals and keypoints and has the coordinate columns only. |
| Scoring.MaskedKeypointsSpec | deeplabcut/pose_estimation_pytorch/apis/scoring.py:187-189 | With a cutoff, a keypoint whose score is below it gets NaN coordinates and every other keypoint keeps them. Without a cutoff, or for a NaN score, the keypoint is unchanged. |
| Scoring.MaskBelowCutoff | deeplabcut/pose_estimation_pytorch/apis/scoring.py:187-189 | Copying and assigning in place gives the masked image, or an error when a cutoff meets an array without a score column. |
| Scoring.InvisibleMasked | deeplabcut/pose_estimation_pytorch/apis/scoring.py:271-275 | The result keeps the individuals and keypoints and has 2 columns. |
| Scoring.InvisibleMaskedSpec | deeplabcut/pose_estimation_pytorch/apis/scoring.py:272-275 | Where visibility is 0, both coordinates are `mask_value`. Elsewhere they are the input's first two columns. |
| Scoring.MaskInvisible | deeplabcut/pose_estimation_pytorch/apis/scoring.py:256-275 | It fails exactly without a visibility column. Otherwise it returns the visibility-masked coordinates, and the input value is untouched. |
| Scoring.MaskRowsInPlace | deeplabcut/pose_estimation_pytorch/apis/scoring.py:272-274 | Columns 0 and 1 of keypoints whose visibility was 0 become `mask_value`; nothing else changes. |
| Scoring.CopyOf | deeplabcut/pose_estimation_pytorch/apis/scoring.py:271 | `.copy()` is a fresh buffer with the array's extents and entries. |
| Scoring.CoordinatesOf | deeplabcut/pose_estimation_pytorch/apis/scoring.py:275 | `[..., :2]` of a buffer has 2 columns with the buffer's first two entries. |
| Scoring.CompleteCount | deeplabcut/pose_estimation_pytorch/apis/scoring.py:217-218 | The number of complete keypoints is at most the number of keypoints. |
| Scoring.KeptAssemblies | deeplabcut/pose_estimation_pytorch/apis/scoring.py:215-219 | No more assemblies than individuals are kept, and each kept one is non-empty. |
| Scoring.KeptAssembliesAppend | deeplabcut/pose_estimation_pytorch/apis/scoring.py:216-219 | Keeping commutes with concatenation, so the original order is preserved. |
| Scoring.KeptAssembliesMembers | deeplabcut/pose_estimation_pytorch/apis/scoring.py:216-219 | Exactly the individuals with a non-empty assembly are kept. |
| Scoring.AssembliesOfSpec | deeplabcut/pose_estimation_pytorch/apis/scoring.py:203-223 | The image keys are the same, in the same order. Each image maps to its kept assemblies, never more than its individuals. |
| Scoring.AssemblyMapStep | deeplabcut/pose_estimation_pytorch/apis/scoring.py:221 | Storing one more image adds exactly its kept assemblies. |
| Scoring.ImageAssemblies | deeplabcut/pose_estimation_pytorch/apis/scoring.py:215-219 | The inner loop computes the kept assemblies of an image. |
| Scoring.BuildAssemblies | deeplabcut/pose_estimation_pytorch/apis/scoring.py:203-223 | The outer loop computes the assemblies of every image. |
| Scoring.AssembliesPrefixStep | deeplabcut/pose_estimation_pytorch/apis/scoring.py:214-221 | The assemblies of the first t+1 images are those of the first t, plus image t stored at the end. |
| Scoring.ImageMaskerAt | deeplabcut/pose_estimation_pytorch/apis/scoring.py:186-190 | The masking of a predicted image is its masked array. |
| Scoring.MaskedPredictionsError | deeplabcut/pose_estimation_pytorch/apis/scoring.py:185-190 | The masking fails only with a cutoff and only on a missing score column. |
| Scoring.Oks | deeplabcut/pose_estimation_pytorch/apis/scoring.py:159-200 | Without a cutoff it never fails; any failure is a missing score column. |
| Scoring.OksSpec | deeplabcut/pose_estimation_pytorch/apis/scoring.py:185-200 | It fails exactly when a cutoff is given and some image has no score column. Otherwise the masked predictions keep the images in order, every image is masked, and the evaluator gets the assemblies of the masked predictions and of the unmasked ground truth. |
| Scoring.MaskPredictions | deeplabcut/pose_estimation_pytorch/apis/scoring.py:185-190 | The masking loop computes the masked predictions, or the error of the first image that fails. |
| Scoring.ComputeOks | deeplabcut/pose_estimation_pytorch/apis/scoring.py:159-200 | Masking, building assemblies and evaluating compute the OKS scores. |
| Scoring.KeypointRows | deeplabcut/pose_estimation_pytorch/apis/scoring.py:79-80 | The rows of arrays with w columns all have width w. |
| Scoring.PredictionRowsOfScoredArrays | deeplabcut/pose_estimation_pytorch/apis/scoring.py:79 | `[..., :3].reshape((-1, 3))` of arrays with 3 or more columns is their keypoint rows cut to 3 entries. |
| Scoring.GroundTruthRowsOfPairs | deeplabcut/pose_estimation_pytorch/apis/scoring.py:80 | `reshape((-1, 2))` of 2-column arrays is their keypoint rows. |
| Scoring.MainRows | deeplabcut/pose_estimation_pytorch/apis/scoring.py:78-80 | Prediction rows have width 3 and ground-truth rows width 2. Failures are not image-count errors. |
| Scoring.UniqueRows | deeplabcut/pose_estimation_pytorch/apis/scoring.py:81-95 | Unique-bodypart rows have width 3 (predictions) and 2 (ground truth). Failures are not image-count errors. |
| Scoring.RmseRows | deeplabcut/pose_estimation_pytorch/apis/scoring.py:78-95 | The concatenated rows keep those widths. |
| Scoring.ScoresOfRows | deeplabcut/pose_estimation_pytorch/apis/scoring.py:97-109 | Computing the RMSE and both OKS scores never fails with an image-count error. |
| Scoring.ScoresImageCount | deeplabcut/pose_estimation_pytorch/apis/scoring.py:72-76 | `get_scores` fails with an image-count error exactly when the two dicts have different sizes. |
| Scoring.ScoresOfAlignedArrays | deeplabcut/pose_estimation_pytorch/apis/scoring.py:78-104 | Without unique bodyparts, the reported RMSE pair is that of the keypoint rows stacked in image order. |
| Scoring.CollectMainRows | deeplabcut/pose_estimation_pytorch/apis/scoring.py:78-80 | The method computes the main rows. |
| Scoring.CollectUniqueRows | deeplabcut/pose_estimation_pytorch/apis/scoring.py:81-95 | The method computes the unique-bodypart rows. |
| Scoring.ScoreRows | deeplabcut/pose_estimation_pytorch/apis/scoring.py:97-109 | The method computes the score report of given rows. |
| Scoring.GetScores | deeplabcut/pose_estimation_pytorch/apis/scoring.py:24-109 | The method computes `get_scores`, with its count check before anything else. |
| Scoring.NanToNum | deeplabcut/pose_estimation_pytorch/apis/scoring.py:249 | NaN entries become the given value; everything else is unchanged. |
| Scoring.Wrap | deeplabcut/pose_estimation_pytorch/apis/scoring.py:251 | A numpy index in [-n, n) denotes a position below n. |
| Scoring.FirstOutOfRange | deeplabcut/pose_estimation_pytorch/apis/scoring.py:251 | It finds nothing exactly when every index is in range. What it finds is an out-of-range index of the list. |
| Scoring.TakeIndividuals | deeplabcut/pose_estimation_pytorch/apis/scoring.py:251 | `pose[indices]` fails exactly on an out-of-range index. Otherwise individual j is the pose's individual at indices[j], with all keypoints and columns. |
| Scoring.MatchTarget | deeplabcut/pose_estimation_pytorch/apis/scoring.py:248-249 | The matcher's target keeps the individuals and keypoints and has 2 columns. |
| Scoring.AlignImage | deeplabcut/pose_estimation_pytorch/apis/scoring.py:247-251 | One image fails exactly when its ground truth is missing, has no visibility column, or the matcher returns an out-of-range index. |
| Scoring.FirstFailure | deeplabcut/pose_estimation_pytorch/apis/scoring.py:186-190 | It finds no failure exactly when all of the first t keys succeed. A failure it finds is the error of one of them. |
| Scoring.FirstFailureStays | deeplabcut/pose_estimation_pytorch/apis/scoring.py:186-190 | Once a key has failed, later keys do not change the reported error. |
| Scoring.PerKeySpec | deeplabcut/pose_estimation_pytorch/apis/scoring.py:186-190 | A per-key loop fails exactly when some key fails, with that key's error. Otherwise it keeps the keys in order and stores each key's result. |
| Scoring.PerKeyStep | deeplabcut/pose_estimation_pytorch/apis/scoring.py:186-190 | Storing key t after the first t keys gives the results of the first t+1 keys. |
| Scoring.AlignedSpec | deeplabcut/pose_estimation_pytorch/apis/scoring.py:226-253 | The aligned predictions fail exactly when some image fails. Otherwise they keep the images in order, and individual j of an image is the predicted individual the matcher put at j. |
| Scoring.AlignPredictedIndividualsToGt | deeplabcut/pose_estimation_pytorch/apis/scoring.py:226-253 | The loop computes the aligned predictions, or the first failing image's error. |
| Scoring.DistinctIndicesCover | deeplabcut/pose_estimation_pytorch/apis/scoring.py:251 | n distinct indices in [0, n) name every position. |
| Scoring.AlignImageReorders | deeplabcut/pose_estimation_pytorch/apis/scoring.py:250-251 | When the matcher returns a permutation, every predicted individual appears in the aligned image. |
| Scoring.Stacked | deeplabcut/pose_estimation_pytorch/apis/scoring.py:112-127 | `build_keypoint_array` fails on the first key without an entry, in key order. Next it fails on an empty list, then on arrays of different shapes. Otherwise it gives the entries in key order. |
| Scoring.Distance | deeplabcut/pose_estimation_pytorch/apis/scoring.py:152-154 | The distance of a row is sqrt((px-gx)² + (py-gy)²), and NaN when any of the four is NaN. |
| Scoring.PredictionRows | deeplabcut/pose_estimation_pytorch/apis/scoring.py:79 | `[..., :3].reshape((-1, 3))` of the stacked predictions. |
| Scoring.GroundTruthRows | deeplabcut/pose_estimation_pytorch/apis/scoring.py:80 | `.reshape((-1, 2))` of the stacked ground truth. |
| Scoring.Complete | deeplabcut/pose_estimation_pytorch/apis/scoring.py:217-218 | A keypoint row counts towards `len(assembly)` when none of its entries is NaN. |
| Scoring.Len | deeplabcut/pose_estimation_pytorch/apis/scoring.py:217-218 | `len(assembly)` is the number of complete keypoint rows of the individual. |
| Scoring.AssembliesOf | deeplabcut/pose_estimation_pytorch/apis/scoring.py:203-223 | `build_assemblies` keeps the image keys in order and maps each image to the kept assemblies of its individuals. |
| Scoring.MaskedImage | deeplabcut/pose_estimation_pytorch/apis/scoring.py:187-189 | One image fails when a cutoff is given and the array has no score column. Otherwise the result is its coordinate columns, masked below the cutoff. |
| Scoring.MaskedPredictions | deeplabcut/pose_estimation_pytorch/apis/scoring.py:185-190 | The masking loop keeps the images in order and masks each one. It stops at the first image that fails. |
| Scoring.Aligned | deeplabcut/pose_estimation_pytorch/apis/scoring.py:246-253 | `align_predicted_individuals_to_gt` keeps the image keys in order and aligns each image. It stops at the first image that fails. |
| Scoring.Percent | deeplabcut/pose_estimation_pytorch/apis/scoring.py:105-108 | The OKS averages are reported times 100. |
| Scoring.Scores | deeplabcut/pose_estimation_pytorch/apis/scoring.py:72-109 | `get_scores` fails with the image-count error when the dicts differ in size. Otherwise it stacks rows in the order of the predicted images, appending unique-bodypart rows when given. It then reports the RMSE pair, followed by the OKS averages without and with the cutoff, in percent. |
| Remapping.RemappedPrefixValid | deeplabcut/pose_estimation_pytorch/modelzoo/utils.py:210-220 | The dict being rebuilt lists each key once. |
| Remapping.RemappedPrefixEntries | deeplabcut/pose_estimation_pytorch/modelzoo/utils.py:211-220 | Every stored entry carries the value of a kept source key renamed onto it, and every kept source key is stored. |
| Remapping.RemappedPrefixLastWins | deeplabcut/pose_estimation_pytorch/modelzoo/utils.py:220 | A later entry stored under the same key overwrites an earlier one; a source key no later kept key collides with keeps its value. |
| Remapping.RemappedPrefixOfFixedKeys | deeplabcut/pose_estimation_pytorch/modelzoo/utils.py:211-220 | When all keys are kept and unchanged, the first t entries are rebuilt as they were, in order. |
| Remapping.RemappedSources | deeplabcut/pose_estimation_pytorch/modelzoo/utils.py:211-220 | Each result entry comes from a kept source key, with its value. |
| Remapping.RemappedSource | deeplabcut/pose_estimation_pytorch/modelzoo/utils.py:211-220 | The source key of a result entry exists, and the lemma names it. |
| Remapping.RemappedKept | deeplabcut/pose_estimation_pytorch/modelzoo/utils.py:211-220 | Every kept source key has its renamed key in the result. |
| Remapping.RemappedUnshared | deeplabcut/pose_estimation_pytorch/modelzoo/utils.py:220 | A source key whose renamed key no other kept key shares keeps its value. |
| Remapping.RemappedOfFixed | deeplabcut/pose_estimation_pytorch/modelzoo/utils.py:211-220 | A dict that is entirely kept and unchanged is rebuilt as it was. |
| Remapping.RemappedKeyFixed | deeplabcut/pose_estimation_pytorch/modelzoo/utils.py:211-220 | When renaming lands on fixed, kept keys, every result key is kept and fixed. |
| Remapping.RemappedIdempotent | deeplabcut/pose_estimation_pytorch/modelzoo/utils.py:211-220 | Under the same condition, rebuilding the result changes nothing. |
| ModelZoo.Split | deeplabcut/pose_estimation_pytorch/modelzoo/utils.py:217 | `k.split(".")` gives at least one segment, and no segment contains a dot. |
| ModelZoo.JoinSplit | deeplabcut/pose_estimation_pytorch/modelzoo/utils.py:217-220 | `".".join(k.split("."))` is k. |
| ModelZoo.SplitJoin | deeplabcut/pose_estimation_pytorch/modelzoo/utils.py:217-220 | Splitting a join of dot-free segments gives the segments back. |
| ModelZoo.ContainsAfterPrefix | deeplabcut/pose_estimation_pytorch/modelzoo/utils.py:133-138 | A substring of s is a substring of any string ending in s. |
| ModelZoo.MappedKeyVerbatim | deeplabcut/pose_estimation_pytorch/modelzoo/utils.py:217-220 | A key outside the old heatmap head is stored verbatim. |
| ModelZoo.MappedKeyRewritesHead | deeplabcut/pose_estimation_pytorch/modelzoo/utils.py:217-220 | An old-head key's segment 3 `model` becomes `deconv_layers` followed by a new segment `0`; all other segments are unchanged. |
| ModelZoo.MappedKeyIdempotent | deeplabcut/pose_estimation_pytorch/modelzoo/utils.py:212-220 | A kept key maps to a kept key, and mapping that again leaves it unchanged. |
| ModelZoo.MapModelKeys | deeplabcut/pose_estimation_pytorch/modelzoo/utils.py:209-221 | The remapped state dict lists each key once. |
| ModelZoo.MapModelKeysLoop | deeplabcut/pose_estimation_pytorch/modelzoo/utils.py:209-221 | The loop over the entries computes the remapped state dict. |
| ModelZoo.MapEntry | deeplabcut/pose_estimation_pytorch/modelzoo/utils.py:212-220 | One pass skips a dropped entry or stores the value under its mapped key. |
| ModelZoo.MapKey | deeplabcut/pose_estimation_pytorch/modelzoo/utils.py:217-220 | Split, rewrite of segment 3 and join compute the mapped key. |
| ModelZoo.MapModelKeysSpec | deeplabcut/pose_estimation_pytorch/modelzoo/utils.py:212-220 | No result key has a dropped prefix, and dropped source keys are absent. Each result entry has the value of a kept source key that maps onto it. Every kept key's mapped key is present, holding its value when no other kept key collides. |
| ModelZoo.MapModelKeysIdempotent | deeplabcut/pose_estimation_pytorch/modelzoo/utils.py:212-220 | Remapping a remapped state dict changes nothing. |
| ModelZoo.ModelName | deeplabcut/pose_estimation_pytorch/modelzoo/utils.py:133 | The name is the dataset, `_`, then the model name. |
| ModelZoo.SnapshotFileName | deeplabcut/pose_estimation_pytorch/modelzoo/utils.py:133-134 | The snapshot file is the model name followed by `.pt`. |
| ModelZoo.DownloadPlan | deeplabcut/pose_estimation_pytorch/modelzoo/utils.py:132-156 | The downloaded snapshot is the snapshot file. |
| ModelZoo.DownloadPlanSpec | deeplabcut/pose_estimation_pytorch/modelzoo/utils.py:133-156 | The hub repository is the model name, and the snapshot is the `.pt` file of that name. The rename is decided on the composed name: `pose_model.pth` to the snapshot file when it contains `hrnet_w32`. Otherwise `detector.pt` to the snapshot file when it contains `fasterrcnn_resnet50_fpn_v2`. Otherwise there is no rename and no key remap. The keys are remapped exactly when a rename applies. |
| ModelZoo.HrnetRename | deeplabcut/pose_estimation_pytorch/modelzoo/utils.py:137-154 | A corollary for the common case: when the model name itself contains `hrnet_w32`, so does the composed name, whatever the dataset. It then renames `pose_model.pth` to the snapshot file, and its keys are remapped. |
| ModelZoo.Dropped | deeplabcut/pose_estimation_pytorch/modelzoo/utils.py:212-216 | A key is dropped when it starts with `backbone.model.downsamp_modules.`, `backbone.model.final_layer` or `backbone.model.classifier`. |
| ModelZoo.MappedKey | deeplabcut/pose_estimation_pytorch/modelzoo/utils.py:217-220 | A kept key is split at dots. Segment 3 becomes `deconv_layers.0` when the first four segments are `heads.bodypart.heatmap_head.model`. The segments are then joined with dots. |
| ModelZoo.RenameMapping | deeplabcut/pose_estimation_pytorch/modelzoo/utils.py:137-141 | The composed model name selects the rename: `pose_model.pth` to `<name>.pt` when it contains `hrnet_w32`. Otherwise `detector.pt` to `<name>.pt` when it contains `fasterrcnn_resnet50_fpn_v2`. Otherwise no rename. |
| Dicts.Dict.Put | deeplabcut/pose_estimation_pytorch/modelzoo/utils.py:220 | Storing a key keeps the insertion order: a new key is appended, an existing key keeps its place, and its value is replaced. |

## Left out

- The sigmoid, the square root and all floating point are out of scope. Values are reals; rounding, infinities and IEEE NaN propagation beyond "NaN in, NaN out" are not modelled. The sigmoid and `sqrt` are parameters.
- `torch.topk` tie order is implementation-defined. `TopK.TopIndices` picks the first maximum, so only the distinctness, ordering and dominance properties are claimed, not a particular order among equal values.
- Errors that torch or numpy raise are modelled as `Err` values, and their messages are not modelled:
  - `topk` with k above the cell count;
  - a missing `locref` output;
  - a `locref` output whose extents are not (B, 2J, H, W) for a (B, J, H, W) heatmap. Every such output is reported as `LocrefShape`, including one with the same element count that torch's `reshape` would silently reinterpret;
  - a lookup of an absent key;
  - `np.stack` of no arrays or of mismatched shapes;
  - `reshape` with a size that is not divisible;
  - a missing score or visibility column;
  - an out-of-range fancy index.
- `evaluate_assembly` (the COCO-style OKS evaluator) is a parameter of type `Evaluator`. `rmse_match_prediction_to_gt` is a parameter of type `Matcher`. Neither is modelled.
- `Assembly.from_array` is modelled only through `len(assembly)`, the number of keypoint rows with no NaN entry (in any column, the score or visibility column included). The rest of the assembly object (affinity, confidence, visibility bookkeeping) is not modelled.
- `symmetric_kpts` is not modelled: `get_scores` never passes it, and the `Evaluator` parameter does not take it. `oks_sigma` and `margin` are passed to the evaluator; `get_scores` uses their defaults, 0.1 and 0.
- `Scoring.NanToNum`: `np.nan_to_num` also replaces infinities with large finite values. Values here have no infinities, so only the NaN replacement is modelled.
- `Scoring.Wrap`: numpy's negative fancy indices count from the end. They are modelled, but the index dtype's width is not.
- `Scoring.MaskBelowCutoff` and `Scoring.MaskPredictions` model the copy and in-place assignment of `compute_oks` on values. The masked arrays are compared as values, so aliasing between the copy and the input is not modelled.
- `Scoring.AlignPredictedIndividualsToGt` and `Scoring.GetScores` take the dicts as values, so mutation of a caller's dict is not captured.
- `Predictor.HeatmapPredictor.Forward` returns the pose buffer itself rather than the dictionary `{"poses": ...}`.
- `Predictor.HeatmapPredictor.Forward` takes the stride for both scale factors, as the source does. Different x and y strides appear only in `GetPosePrediction`.
- The else-branches of `Scoring.ImageAligner` and `Scoring.ImageMasker`, for a key that is not predicted, are never taken. They exist only to make the functions total.
- Everything else in `modelzoo/utils.py` is I/O or depends on code outside this model, and is left out:
  - downloads and `download_huggingface_model`;
  - `torch.load` and `torch.save` in `_parse_snapshot`, and its `print_keys` output;
  - `load_super_animal_config` (YAML reading);
  - `get_gpu_memory_map` (`nvidia-smi`);
  - `select_device`;
  - `raise_warning_if_called_directly` (stack inspection);
  - `update_config`;
  - `get_snapshot_folder_path` and the other path helpers;
  - the existence check of the downloaded file.

  `ModelZoo.DownloadPlan` records what the download is asked for and whether the snapshot is then parsed.
- `deeplabcut/pose_estimation_pytorch/tests/test_api_utils.py` tests image-augmentation pipelines of an external library and is not part of this model.
