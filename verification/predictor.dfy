/**
 * The heatmap predictor: turns per-joint confidence maps, and optionally a
 * location-refinement field, into candidate poses (x, y, score) for every
 * image of a batch, every rank of the top-k selection and every joint.
 *
 * Layouts: network outputs are channel-first (batch, channel, height, width);
 * the predictor works on the channel-last heatmap (batch, height, width,
 * joint) and on the refinement field (batch, height, width, joint) whose
 * entries are offset pairs.  The pose buffer has extents
 * (batch, rank, joint, 3) with x, y and score on the last axis.
 */
module Predictor {
  import opened Wrappers
  import opened TopK
  import opened Tensors
  import opened Arith

  /** A location-refinement offset (the last axis of extent 2). */
  datatype Offset = Offset(dx: real, dy: real)

  /** The heads' output dictionary: "heatmap" and, if present, "locref". */
  datatype Outputs = Outputs(heatmap: Tensor4<real>, locref: Option<Tensor4<real>>)

  datatype PredictError =
    | TopKOutOfRange   // more candidates requested than there are heatmap cells
    | MissingLocref    // refinement enabled but the outputs carry no "locref"
    | LocrefShape      // the "locref" output cannot be laid out as (B, H, W, J, 2)

  /** Candidate cells of the top-k selection, indexed [batch][rank][joint]. */
  datatype Cells = Cells(y: seq<seq<seq<nat>>>, x: seq<seq<seq<nat>>>)
  {
    predicate Shaped(batch: nat, ranks: nat, joints: nat) {
      && |y| == batch && |x| == batch
      && (forall b :: 0 <= b < batch ==> |y[b]| == ranks && |x[b]| == ranks)
      && (forall b, n :: 0 <= b < batch && 0 <= n < ranks ==> |y[b][n]| == joints && |x[b][n]| == joints)
    }
  }

  // ---------------------------------------------------------------------------
  // Flat index arithmetic

  /** A flat position of an ny-by-nx grid splits into a row and a column of that grid. */
  lemma SplitFlatIndex(p: nat, ny: nat, nx: nat)
    requires p < ny * nx
    ensures nx > 0 && p / nx < ny && p % nx < nx && (p / nx) * nx + p % nx == p
  {
    assert nx != 0;
    MulMonotone(ny, p / nx, nx);
  }

  /** The (row, column) of flat position p of an ny-by-nx grid. */
  function CellOfFlat(p: nat, ny: nat, nx: nat): (c: (nat, nat))
    requires p < ny * nx
    ensures c.0 < ny && c.1 < nx && c.0 * nx + c.1 == p
  {
    SplitFlatIndex(p, ny, nx);
    (p / nx, p % nx)
  }

  /** A cell (y, x) of an ny-by-nx grid has flat position y*nx + x, and splitting it gives (y, x) back. */
  lemma JoinFlatIndex(y: nat, x: nat, ny: nat, nx: nat)
    requires y < ny && x < nx
    ensures y * nx + x < ny * nx
    ensures (y * nx + x) / nx == y && (y * nx + x) % nx == x
  {
    MulMonotone(y + 1, ny, nx);
    assert (y + 1) * nx == y * nx + nx;
    DivModUnique(y * nx + x, y, x, nx);
  }

  // ---------------------------------------------------------------------------
  // get_top_values

  /** Entry p of the (b, j) slice flattened over (height, width), rows first. */
  function FlatAt(h: Tensor4<real>, b: nat, j: nat, p: nat): real
    requires h.Valid() && b < h.d0 && j < h.d3 && p < h.d1 * h.d2
  {
    SplitFlatIndex(p, h.d1, h.d2);
    h.At(b, p / h.d2, p % h.d2, j)
  }

  /** The (b, j) slice of a channel-last heatmap flattened over (height, width). */
  function FlatSlice(h: Tensor4<real>, b: nat, j: nat): (s: seq<real>)
    requires h.Valid() && b < h.d0 && j < h.d3
    ensures |s| == h.d1 * h.d2
    ensures forall p :: 0 <= p < |s| ==> s[p] == FlatAt(h, b, j, p)
  {
    seq(h.d1 * h.d2, p requires 0 <= p < h.d1 * h.d2 => FlatAt(h, b, j, p))
  }

  /** The flattened slice holds cell (y, x) at position y*width + x. */
  lemma FlatSliceAt(h: Tensor4<real>, b: nat, j: nat, y: nat, x: nat)
    requires h.Valid() && b < h.d0 && j < h.d3 && y < h.d1 && x < h.d2
    ensures y * h.d2 + x < |FlatSlice(h, b, j)|
    ensures FlatSlice(h, b, j)[y * h.d2 + x] == h.At(b, y, x, j)
  {
    JoinFlatIndex(y, x, h.d1, h.d2);
  }

  /**
   * The grid cell of the rank-n candidate of slice (b, j): row and column are
   * the quotient and remainder of its flat position by the width.
   */
  function CellOf(h: Tensor4<real>, nTop: nat, b: nat, n: nat, j: nat): (c: (nat, nat))
    requires h.Valid() && b < h.d0 && j < h.d3 && n < nTop <= h.d1 * h.d2
    ensures c.0 < h.d1 && c.1 < h.d2
    ensures c.0 * h.d2 + c.1 == TopIndices(FlatSlice(h, b, j), nTop)[n]
  {
    var p := TopIndices(FlatSlice(h, b, j), nTop)[n];
    CellOfFlat(p, h.d1, h.d2)
  }

  /**
   * The rows and columns of the `nTop` best cells of every (batch, joint)
   * slice; fails when more candidates are asked for than the slice has cells.
   */
  function GetTopValues(h: Tensor4<real>, nTop: nat): (r: Result<Cells, PredictError>)
    requires h.Valid()
    ensures r.Ok? <==> nTop <= h.d1 * h.d2
    ensures r.Err? ==> r.error == TopKOutOfRange
    ensures r.Ok? ==> r.value.Shaped(h.d0, nTop, h.d3)
    ensures r.Ok? ==> forall b, n, j :: 0 <= b < h.d0 && 0 <= n < nTop && 0 <= j < h.d3 ==>
              r.value.y[b][n][j] < h.d1 && r.value.x[b][n][j] < h.d2
  {
    if nTop > h.d1 * h.d2 then Err(TopKOutOfRange)
    else
      Ok(Cells(
        seq(h.d0, b requires 0 <= b < h.d0 =>
          seq(nTop, n requires 0 <= n < nTop =>
            seq(h.d3, j requires 0 <= j < h.d3 => CellOf(h, nTop, b, n, j).0))),
        seq(h.d0, b requires 0 <= b < h.d0 =>
          seq(nTop, n requires 0 <= n < nTop =>
            seq(h.d3, j requires 0 <= j < h.d3 => CellOf(h, nTop, b, n, j).1)))))
  }

  /** Heatmap value at the rank-n candidate of slice (b, j). */
  function CandidateValue(h: Tensor4<real>, nTop: nat, b: nat, n: nat, j: nat): real
    requires h.Valid() && nTop <= h.d1 * h.d2 && b < h.d0 && n < nTop && j < h.d3
  {
    var c := GetTopValues(h, nTop).value;
    h.At(b, c.y[b][n][j], c.x[b][n][j], j)
  }

  /** Some rank of slice (b, j) selected the cell (y, x). */
  predicate IsSelected(h: Tensor4<real>, nTop: nat, b: nat, j: nat, y: nat, x: nat)
    requires h.Valid() && nTop <= h.d1 * h.d2 && b < h.d0 && j < h.d3
  {
    var c := GetTopValues(h, nTop).value;
    exists m :: 0 <= m < nTop && c.y[b][m][j] == y && c.x[b][m][j] == x
  }

  /** The rank-n candidate of slice (b, j) is entry TopIndices(...)[n] of the flattened slice. */
  lemma CandidateIsFlat(h: Tensor4<real>, nTop: nat, b: nat, n: nat, j: nat)
    requires h.Valid() && nTop <= h.d1 * h.d2 && b < h.d0 && n < nTop && j < h.d3
    ensures var c := GetTopValues(h, nTop).value;
      c.y[b][n][j] * h.d2 + c.x[b][n][j] == TopIndices(FlatSlice(h, b, j), nTop)[n]
    ensures CandidateValue(h, nTop, b, n, j) ==
      FlatSlice(h, b, j)[TopIndices(FlatSlice(h, b, j), nTop)[n]]
  {
    var c := GetTopValues(h, nTop).value;
    assert (c.y[b][n][j], c.x[b][n][j]) == CellOf(h, nTop, b, n, j);
    FlatSliceAt(h, b, j, c.y[b][n][j], c.x[b][n][j]);
  }

  /** The candidate cells of one (batch, joint) slice are pairwise different. */
  lemma TopCellsDistinct(h: Tensor4<real>, nTop: nat, b: nat, j: nat)
    requires h.Valid() && nTop <= h.d1 * h.d2 && b < h.d0 && j < h.d3
    ensures var c := GetTopValues(h, nTop).value;
      forall n, m :: 0 <= n < m < nTop ==>
        (c.y[b][n][j], c.x[b][n][j]) != (c.y[b][m][j], c.x[b][m][j])
  {
    var c := GetTopValues(h, nTop).value;
    var t := TopIndices(FlatSlice(h, b, j), nTop);
    TopIndicesSpec(FlatSlice(h, b, j), nTop);
    forall n, m | 0 <= n < m < nTop
      ensures (c.y[b][n][j], c.x[b][n][j]) != (c.y[b][m][j], c.x[b][m][j])
    {
      CandidateIsFlat(h, nTop, b, n, j);
      CandidateIsFlat(h, nTop, b, m, j);
      assert t[n] != t[m];
    }
  }

  /** Candidate heatmap values never increase with the rank. */
  lemma TopValuesDescending(h: Tensor4<real>, nTop: nat, b: nat, j: nat)
    requires h.Valid() && nTop <= h.d1 * h.d2 && b < h.d0 && j < h.d3
    ensures forall n, m :: 0 <= n < m < nTop ==>
      CandidateValue(h, nTop, b, n, j) >= CandidateValue(h, nTop, b, m, j)
  {
    TopIndicesSpec(FlatSlice(h, b, j), nTop);
    forall n, m | 0 <= n < m < nTop
      ensures CandidateValue(h, nTop, b, n, j) >= CandidateValue(h, nTop, b, m, j)
    {
      CandidateIsFlat(h, nTop, b, n, j);
      CandidateIsFlat(h, nTop, b, m, j);
    }
  }

  /** A cell whose flat position some rank chose is a selected cell. */
  lemma FlatChoiceIsSelected(h: Tensor4<real>, nTop: nat, b: nat, j: nat, y: nat, x: nat, m: nat)
    requires h.Valid() && nTop <= h.d1 * h.d2 && b < h.d0 && j < h.d3 && y < h.d1 && x < h.d2 && m < nTop
    requires TopIndices(FlatSlice(h, b, j), nTop)[m] == y * h.d2 + x
    ensures IsSelected(h, nTop, b, j, y, x)
  {
    var c := GetTopValues(h, nTop).value;
    CandidateIsFlat(h, nTop, b, m, j);
    JoinFlatIndex(y, x, h.d1, h.d2);
    assert c.x[b][m][j] < h.d2;
    DivModUnique(y * h.d2 + x, c.y[b][m][j], c.x[b][m][j], h.d2);
  }

  /** One candidate value dominates one unselected cell. */
  lemma CandidateDominatesCell(h: Tensor4<real>, nTop: nat, b: nat, j: nat, n: nat, y: nat, x: nat)
    requires h.Valid() && nTop <= h.d1 * h.d2 && b < h.d0 && j < h.d3
    requires n < nTop && y < h.d1 && x < h.d2 && !IsSelected(h, nTop, b, j, y, x)
    ensures CandidateValue(h, nTop, b, n, j) >= h.At(b, y, x, j)
  {
    var v := FlatSlice(h, b, j);
    var t := TopIndices(v, nTop);
    FlatSliceAt(h, b, j, y, x);
    var p := y * h.d2 + x;
    forall m | 0 <= m < nTop ensures t[m] != p {
      if t[m] == p { FlatChoiceIsSelected(h, nTop, b, j, y, x, m); }
    }
    assert p !in t;
    TopIndexDominates(v, nTop, n, p);
    CandidateIsFlat(h, nTop, b, n, j);
  }

  /** Every candidate value is at least the value of every cell no rank selected. */
  lemma TopValuesDominate(h: Tensor4<real>, nTop: nat, b: nat, j: nat)
    requires h.Valid() && nTop <= h.d1 * h.d2 && b < h.d0 && j < h.d3
    ensures forall n, y, x ::
      (0 <= n < nTop && 0 <= y < h.d1 && 0 <= x < h.d2 && !IsSelected(h, nTop, b, j, y, x)) ==>
      CandidateValue(h, nTop, b, n, j) >= h.At(b, y, x, j)
  {
    forall n, y, x | 0 <= n < nTop && 0 <= y < h.d1 && 0 <= x < h.d2 && !IsSelected(h, nTop, b, j, y, x)
      ensures CandidateValue(h, nTop, b, n, j) >= h.At(b, y, x, j)
    {
      CandidateDominatesCell(h, nTop, b, j, n, y, x);
    }
  }

  // ---------------------------------------------------------------------------
  // get_pose_prediction

  /** x, y and score of one candidate pose entry. */
  datatype PoseValue = PoseValue(x: real, y: real, score: real)

  /** A refinement field, when given, has the extents of the heatmap. */
  predicate LocrefFits(h: Tensor4<real>, locref: Option<Tensor4<Offset>>) {
    locref.Some? ==>
      && locref.value.Valid()
      && locref.value.d0 == h.d0 && locref.value.d1 == h.d1
      && locref.value.d2 == h.d2 && locref.value.d3 == h.d3
  }

  /** The candidate cells are cells of the heatmap, for every (batch, rank, joint). */
  predicate CellsFit(h: Tensor4<real>, c: Cells, nTop: nat) {
    && c.Shaped(h.d0, nTop, h.d3)
    && forall b, n, j :: 0 <= b < h.d0 && 0 <= n < nTop && 0 <= j < h.d3 ==>
         c.y[b][n][j] < h.d1 && c.x[b][n][j] < h.d2
  }

  /** Heatmap value at cell c[b, n, j]. */
  function CellScore(h: Tensor4<real>, c: Cells, nTop: nat, b: nat, n: nat, j: nat): real
    requires h.Valid() && CellsFit(h, c, nTop) && b < h.d0 && n < nTop && j < h.d3
  {
    h.At(b, c.y[b][n][j], c.x[b][n][j], j)
  }

  /** Refinement offset at cell c[b, n, j], zero without a field. */
  function CellOffset(h: Tensor4<real>, locref: Option<Tensor4<Offset>>, c: Cells, nTop: nat,
                      b: nat, n: nat, j: nat): Offset
    requires h.Valid() && LocrefFits(h, locref) && CellsFit(h, c, nTop) && b < h.d0 && n < nTop && j < h.d3
  {
    if locref.None? then Offset(0.0, 0.0) else locref.value.At(b, c.y[b][n][j], c.x[b][n][j], j)
  }

  /** (n', b', j') comes before (n, b, j) in the order of the gather loops (rank, then batch, then joint). */
  predicate Before(n': nat, b': nat, j': nat, n: nat, b: nat, j: nat) {
    n' < n || (n' == n && (b' < b || (b' == b && j' < j)))
  }

  /** Channel values (x0, x1, x2) of gather-buffer entry (b, n, j) are the candidate's offset and score. */
  predicate GatheredEntry(x0: real, x1: real, x2: real, h: Tensor4<real>, locref: Option<Tensor4<Offset>>,
                          c: Cells, k: nat, b: nat, n: nat, j: nat)
    requires h.Valid() && LocrefFits(h, locref) && CellsFit(h, c, k) && b < h.d0 && n < k && j < h.d3
  {
    && x2 == CellScore(h, c, k, b, n, j)
    && x0 == CellOffset(h, locref, c, k, b, n, j).dx
    && x1 == CellOffset(h, locref, c, k, b, n, j).dy
  }

  /**
   * The pose entry at cell c[b, n, j]: the grid column and row scaled by the
   * stride, moved to the centre of the cell, plus the refinement offset; and
   * the heatmap value of the cell as score.
   */
  function PoseEntry(h: Tensor4<real>, locref: Option<Tensor4<Offset>>, c: Cells, sy: real, sx: real,
                     k: nat, b: nat, n: nat, j: nat): PoseValue
    requires h.Valid() && LocrefFits(h, locref) && CellsFit(h, c, k) && b < h.d0 && n < k && j < h.d3
  {
    var off := CellOffset(h, locref, c, k, b, n, j);
    PoseValue(
      (c.x[b][n][j] as real) * sx + 0.5 * sx + off.dx,
      (c.y[b][n][j] as real) * sy + 0.5 * sy + off.dy,
      CellScore(h, c, k, b, n, j))
  }

  /** Score clipping to [0, 1]. */
  function Clip(v: real): (r: real)
    ensures 0.0 <= r <= 1.0
    ensures 0.0 <= v <= 1.0 ==> r == v
    ensures v < 0.0 ==> r == 0.0
    ensures 1.0 < v ==> r == 1.0
  {
    if v < 0.0 then 0.0 else if v > 1.0 then 1.0 else v
  }

  /**
   * The buffer has extents (batch, k, joints, 3) and holds the PoseEntry of
   * the cells c everywhere, with the score clipped to [0, 1] when clip holds.
   */
  ghost predicate IsPose(pose: array4<real>, h: Tensor4<real>, locref: Option<Tensor4<Offset>>,
                         c: Cells, sy: real, sx: real, k: nat, clip: bool)
    reads pose
    requires h.Valid() && LocrefFits(h, locref) && CellsFit(h, c, k)
  {
    && pose.Length0 == h.d0 && pose.Length1 == k && pose.Length2 == h.d3 && pose.Length3 == 3
    && forall b, n, j :: 0 <= b < h.d0 && 0 <= n < k && 0 <= j < h.d3 ==>
         && pose[b, n, j, 0] == PoseEntry(h, locref, c, sy, sx, k, b, n, j).x
         && pose[b, n, j, 1] == PoseEntry(h, locref, c, sy, sx, k, b, n, j).y
         && pose[b, n, j, 2] == (var v := PoseEntry(h, locref, c, sy, sx, k, b, n, j).score; if clip then Clip(v) else v)
  }

  // ---------------------------------------------------------------------------
  // forward

  /** The network output with the activation applied to every entry, or unchanged. */
  function Activated(t: Tensor4<real>, applySigmoid: bool, sigmoid: real -> real): (r: Tensor4<real>)
    requires t.Valid()
    ensures r.Valid() && r.d0 == t.d0 && r.d1 == t.d1 && r.d2 == t.d2 && r.d3 == t.d3
    ensures forall a, b, c, e :: t.InRange(a, b, c, e) ==>
              r.At(a, b, c, e) == if applySigmoid then sigmoid(t.At(a, b, c, e)) else t.At(a, b, c, e)
  {
    if !applySigmoid then t
    else Build(t.d0, t.d1, t.d2, t.d3,
           (a, b, c, e) requires t.Valid() && t.InRange(a, b, c, e) => sigmoid(t.At(a, b, c, e)))
  }

  /** permute(0, 2, 3, 1): (batch, joint, height, width) to (batch, height, width, joint). */
  function ChannelLast(t: Tensor4<real>): (r: Tensor4<real>)
    requires t.Valid()
    ensures r.Valid() && r.d0 == t.d0 && r.d1 == t.d2 && r.d2 == t.d3 && r.d3 == t.d1
    ensures forall b, y, x, j :: r.InRange(b, y, x, j) ==> r.At(b, y, x, j) == t.At(b, j, y, x)
  {
    Build(t.d0, t.d2, t.d3, t.d1,
      (b, y, x, j) requires t.Valid() && t.InRange(b, j, y, x) => t.At(b, j, y, x))
  }

  /** The "locref" output can be laid out as (batch, height, width, joint, 2) for this heatmap. */
  predicate LocrefLayout(raw: Tensor4<real>, heatmap: Tensor4<real>) {
    raw.d0 == heatmap.d0 && raw.d1 == 2 * heatmap.d1 && raw.d2 == heatmap.d2 && raw.d3 == heatmap.d3
  }

  /**
   * permute(0, 2, 3, 1), reshape to (batch, height, width, joint, 2) and
   * multiplication by the standard deviation: channel 2j holds the x offset
   * and channel 2j+1 the y offset of joint j.
   */
  function ScaledLocref(raw: Tensor4<real>, joints: nat, std: real): (r: Tensor4<Offset>)
    requires raw.Valid() && raw.d1 == 2 * joints
    ensures r.Valid() && r.d0 == raw.d0 && r.d1 == raw.d2 && r.d2 == raw.d3 && r.d3 == joints
    ensures forall b, y, x, j :: r.InRange(b, y, x, j) ==>
              r.At(b, y, x, j) == Offset(raw.At(b, 2 * j, y, x) * std, raw.At(b, 2 * j + 1, y, x) * std)
  {
    Build(raw.d0, raw.d2, raw.d3, joints,
      (b, y, x, j) requires raw.Valid() && raw.d1 == 2 * joints && 0 <= b < raw.d0 && 0 <= y < raw.d2 && 0 <= x < raw.d3 && 0 <= j < joints =>
        Offset(raw.At(b, 2 * j, y, x) * std, raw.At(b, 2 * j + 1, y, x) * std))
  }

  /** The heatmap as the predictor decodes it. */
  function DecodedHeatmap(outputs: Outputs, applySigmoid: bool, sigmoid: real -> real): (h: Tensor4<real>)
    requires outputs.heatmap.Valid()
    ensures h.Valid()
  {
    ChannelLast(Activated(outputs.heatmap, applySigmoid, sigmoid))
  }

  class HeatmapPredictor {
    const applySigmoid: bool
    const clipScores: bool
    const locationRefinement: bool
    const locrefStd: real

    constructor (applySigmoid: bool := true, clipScores: bool := false,
                 locationRefinement: bool := true, locrefStd: real := 7.2801)
      ensures this.applySigmoid == applySigmoid && this.clipScores == clipScores
      ensures this.locationRefinement == locationRefinement && this.locrefStd == locrefStd
    {
      this.applySigmoid := applySigmoid;
      this.clipScores := clipScores;
      this.locationRefinement := locationRefinement;
      this.locrefStd := locrefStd;
    }

    /** The refinement field the predictor uses, if refinement is enabled. */
    function UsedLocref(outputs: Outputs): Option<Tensor4<Offset>>
      requires outputs.heatmap.Valid()
      requires outputs.locref.Some? ==> outputs.locref.value.Valid()
      requires locationRefinement ==> outputs.locref.Some? && LocrefLayout(outputs.locref.value, outputs.heatmap)
    {
      if locationRefinement then Some(ScaledLocref(outputs.locref.value, outputs.heatmap.d1, locrefStd))
      else None
    }

    /**
     * The gather loop of get_pose_prediction: for every rank, batch entry and
     * joint (in that loop order) the score at the candidate cell goes to
     * channel 2 of a zeroed buffer and, with a refinement field, the offset
     * there to channels 0 and 1.
     */
    method Gather(h: Tensor4<real>, locref: Option<Tensor4<Offset>>, c: Cells, k: nat)
      returns (dz: array4<real>)
      requires h.Valid() && LocrefFits(h, locref) && CellsFit(h, c, k)
      ensures fresh(dz)
      ensures dz.Length0 == h.d0 && dz.Length1 == k && dz.Length2 == h.d3 && dz.Length3 == 3
      ensures forall b, n, j :: 0 <= b < h.d0 && 0 <= n < k && 0 <= j < h.d3 ==>
                GatheredEntry(dz[b, n, j, 0], dz[b, n, j, 1], dz[b, n, j, 2], h, locref, c, k, b, n, j)
    {
      dz := new real[h.d0, k, h.d3, 3]((_, _, _, _) => 0.0);
      for n := 0 to k
        invariant forall b', n', j' :: 0 <= b' < h.d0 && 0 <= n' < k && 0 <= j' < h.d3 && n' < n ==>
                    GatheredEntry(dz[b', n', j', 0], dz[b', n', j', 1], dz[b', n', j', 2], h, locref, c, k, b', n', j')
        invariant locref.None? ==> forall b', n', j' :: 0 <= b' < h.d0 && 0 <= n' < k && 0 <= j' < h.d3 ==>
                    dz[b', n', j', 0] == 0.0 && dz[b', n', j', 1] == 0.0
      {
        for b := 0 to h.d0
          invariant forall b', n', j' :: 0 <= b' < h.d0 && 0 <= n' < k && 0 <= j' < h.d3 && Before(n', b', 0, n, b, 0) ==>
                      GatheredEntry(dz[b', n', j', 0], dz[b', n', j', 1], dz[b', n', j', 2], h, locref, c, k, b', n', j')
          invariant locref.None? ==> forall b', n', j' :: 0 <= b' < h.d0 && 0 <= n' < k && 0 <= j' < h.d3 ==>
                      dz[b', n', j', 0] == 0.0 && dz[b', n', j', 1] == 0.0
        {
          for j := 0 to h.d3
            invariant forall b', n', j' :: 0 <= b' < h.d0 && 0 <= n' < k && 0 <= j' < h.d3 && Before(n', b', j', n, b, j) ==>
                        GatheredEntry(dz[b', n', j', 0], dz[b', n', j', 1], dz[b', n', j', 2], h, locref, c, k, b', n', j')
            invariant locref.None? ==> forall b', n', j' :: 0 <= b' < h.d0 && 0 <= n' < k && 0 <= j' < h.d3 ==>
                        dz[b', n', j', 0] == 0.0 && dz[b', n', j', 1] == 0.0
          {
            dz[b, n, j, 2] := h.At(b, c.y[b][n][j], c.x[b][n][j], j);
            if locref.Some? {
              var off := locref.value.At(b, c.y[b][n][j], c.x[b][n][j], j);
              dz[b, n, j, 0] := off.dx;
              dz[b, n, j, 1] := off.dy;
            }
          }
        }
      }
    }

    /** Turns gathered (offset, score) entries into (x, y, score) pose entries. */
    method PlacePoses(h: Tensor4<real>, locref: Option<Tensor4<Offset>>, c: Cells, k: nat,
                      dz: array4<real>, sy: real, sx: real)
      returns (pose: array4<real>)
      requires h.Valid() && LocrefFits(h, locref) && CellsFit(h, c, k)
      requires dz.Length0 == h.d0 && dz.Length1 == k && dz.Length2 == h.d3 && dz.Length3 == 3
      requires forall b, n, j :: 0 <= b < h.d0 && 0 <= n < k && 0 <= j < h.d3 ==>
                 GatheredEntry(dz[b, n, j, 0], dz[b, n, j, 1], dz[b, n, j, 2], h, locref, c, k, b, n, j)
      ensures fresh(pose)
      ensures IsPose(pose, h, locref, c, sy, sx, k, false)
    {
      pose := new real[h.d0, k, h.d3, 3];
      forall b, n, j, ch | 0 <= b < h.d0 && 0 <= n < k && 0 <= j < h.d3 && 0 <= ch < 3 {
        pose[b, n, j, ch] :=
          if ch == 0 then (c.x[b][n][j] as real) * sx + 0.5 * sx + dz[b, n, j, 0]
          else if ch == 1 then (c.y[b][n][j] as real) * sy + 0.5 * sy + dz[b, n, j, 1]
          else dz[b, n, j, 2];
      }
      forall b, n, j | 0 <= b < h.d0 && 0 <= n < k && 0 <= j < h.d3
        ensures pose[b, n, j, 0] == PoseEntry(h, locref, c, sy, sx, k, b, n, j).x
        ensures pose[b, n, j, 1] == PoseEntry(h, locref, c, sy, sx, k, b, n, j).y
        ensures pose[b, n, j, 2] == PoseEntry(h, locref, c, sy, sx, k, b, n, j).score
      {
        assert GatheredEntry(dz[b, n, j, 0], dz[b, n, j, 1], dz[b, n, j, 2], h, locref, c, k, b, n, j);
      }
    }

    /**
     * Gathers score and offset of every candidate into a zeroed buffer, then
     * writes the pose buffer (x, y, score) for every (batch, rank, joint).
     */
    method GetPosePrediction(heatmap: Tensor4<real>, locref: Option<Tensor4<Offset>>,
                             sy: real, sx: real, numOutputs: nat)
      returns (r: Result<array4<real>, PredictError>)
      requires heatmap.Valid() && LocrefFits(heatmap, locref)
      ensures r.Ok? <==> numOutputs <= heatmap.d1 * heatmap.d2
      ensures r.Err? ==> r.error == TopKOutOfRange
      ensures r.Ok? ==> fresh(r.value)
      ensures r.Ok? ==> IsPose(r.value, heatmap, locref, GetTopValues(heatmap, numOutputs).value, sy, sx, numOutputs, false)
    {
      var top := GetTopValues(heatmap, numOutputs);
      if top.Err? { return Err(top.error); }
      var c := top.value;
      var h, k := heatmap, numOutputs;
      assert CellsFit(h, c, k);
      var dz := Gather(h, locref, c, k);
      var pose := PlacePoses(h, locref, c, k, dz, sy, sx);
      r := Ok(pose);
    }

    /** poses[..., 2] = clip(poses[..., 2], 0, 1); the coordinates stay. */
    method ClipScores(pose: array4<real>)
      requires pose.Length3 == 3
      modifies pose
      ensures forall b, n, j :: 0 <= b < pose.Length0 && 0 <= n < pose.Length1 && 0 <= j < pose.Length2 ==>
                && pose[b, n, j, 0] == old(pose[b, n, j, 0])
                && pose[b, n, j, 1] == old(pose[b, n, j, 1])
                && pose[b, n, j, 2] == Clip(old(pose[b, n, j, 2]))
    {
      forall b, n, j | 0 <= b < pose.Length0 && 0 <= n < pose.Length1 && 0 <= j < pose.Length2 {
        pose[b, n, j, 2] := Clip(pose[b, n, j, 2]);
      }
    }

    /**
     * The forward pass: activation, channel-last layout, the scaled refinement
     * field when refinement is enabled, the top numOutputs candidates of every
     * (batch, joint) slice placed at stride resolution, and optional score
     * clipping.
     */
    method Forward(stride: real, outputs: Outputs, numOutputs: nat, sigmoid: real -> real)
      returns (r: Result<array4<real>, PredictError>)
      requires outputs.heatmap.Valid()
      requires outputs.locref.Some? ==> outputs.locref.value.Valid()
      ensures locationRefinement && outputs.locref.None? ==> r == Err(MissingLocref)
      ensures locationRefinement && outputs.locref.Some? && !LocrefLayout(outputs.locref.value, outputs.heatmap) ==>
                r == Err(LocrefShape)
      ensures (!locationRefinement || (outputs.locref.Some? && LocrefLayout(outputs.locref.value, outputs.heatmap))) ==>
                (r.Ok? <==> numOutputs <= outputs.heatmap.d2 * outputs.heatmap.d3)
      ensures r.Err? && r.error == TopKOutOfRange ==> numOutputs > outputs.heatmap.d2 * outputs.heatmap.d3
      ensures r.Ok? ==> fresh(r.value)
      ensures r.Ok? ==>
                var h := DecodedHeatmap(outputs, applySigmoid, sigmoid);
                var locref := UsedLocref(outputs);
                LocrefFits(h, locref) &&
                IsPose(r.value, h, locref, GetTopValues(h, numOutputs).value, stride, stride, numOutputs, clipScores)
    {
      if locationRefinement && outputs.locref.None? {
        return Err(MissingLocref);
      }
      if locationRefinement && !LocrefLayout(outputs.locref.value, outputs.heatmap) {
        return Err(LocrefShape);
      }
      var h := DecodedHeatmap(outputs, applySigmoid, sigmoid);
      var locref := UsedLocref(outputs);
      assert LocrefFits(h, locref);
      r := GetPosePrediction(h, locref, stride, stride, numOutputs);
      if r.Ok? && clipScores {
        ClipScores(r.value);
      }
    }
  }

  // ---------------------------------------------------------------------------
  // Properties of the decoded poses

  /** Pose scores never increase with the rank, for every (batch, joint). */
  lemma PoseScoresDescending(h: Tensor4<real>, locref: Option<Tensor4<Offset>>, sy: real, sx: real,
                             k: nat, b: nat, j: nat)
    requires h.Valid() && LocrefFits(h, locref) && k <= h.d1 * h.d2 && b < h.d0 && j < h.d3
    ensures var c := GetTopValues(h, k).value;
      forall n, m :: 0 <= n < m < k ==>
        PoseEntry(h, locref, c, sy, sx, k, b, n, j).score >= PoseEntry(h, locref, c, sy, sx, k, b, m, j).score
  {
    TopValuesDescending(h, k, b, j);
  }

  /** Every pose score is at least the heatmap value of every cell that no rank selected. */
  lemma PoseScoresDominate(h: Tensor4<real>, locref: Option<Tensor4<Offset>>, sy: real, sx: real,
                           k: nat, b: nat, j: nat)
    requires h.Valid() && LocrefFits(h, locref) && k <= h.d1 * h.d2 && b < h.d0 && j < h.d3
    ensures var c := GetTopValues(h, k).value;
      forall n, y, x :: (0 <= n < k && 0 <= y < h.d1 && 0 <= x < h.d2 && !IsSelected(h, k, b, j, y, x)) ==>
        PoseEntry(h, locref, c, sy, sx, k, b, n, j).score >= h.At(b, y, x, j)
  {
    var c := GetTopValues(h, k).value;
    forall n, y, x | 0 <= n < k && 0 <= y < h.d1 && 0 <= x < h.d2 && !IsSelected(h, k, b, j, y, x)
      ensures PoseEntry(h, locref, c, sy, sx, k, b, n, j).score >= h.At(b, y, x, j)
    {
      CandidateDominatesCell(h, k, b, j, n, y, x);
    }
  }

  /**
   * Without a refinement field a pose lies at the centre of its grid cell:
   * half a stride beyond the cell's corner, strictly inside the cell for a
   * positive stride.
   */
  lemma PoseAtCellCentre(h: Tensor4<real>, c: Cells, sy: real, sx: real, k: nat, b: nat, n: nat, j: nat)
    requires h.Valid() && CellsFit(h, c, k) && b < h.d0 && n < k && j < h.d3
    ensures var e := PoseEntry(h, None, c, sy, sx, k, b, n, j);
      && e.x == (c.x[b][n][j] as real + 0.5) * sx
      && e.y == (c.y[b][n][j] as real + 0.5) * sy
      && (0.0 < sx ==> (c.x[b][n][j] as real) * sx < e.x < (c.x[b][n][j] as real + 1.0) * sx)
      && (0.0 < sy ==> (c.y[b][n][j] as real) * sy < e.y < (c.y[b][n][j] as real + 1.0) * sy)
  {
  }

  /**
   * With refinement enabled, the offset a pose entry adds to the centre of a
   * candidate cell is the raw "locref" output at that cell times the
   * predictor's standard deviation: channel 2j for x and channel 2j+1 for y.
   */
  lemma RefinementOffsetScaled(p: HeatmapPredictor, outputs: Outputs, sigmoid: real -> real, stride: real,
                               c: Cells, k: nat, b: nat, n: nat, j: nat)
    requires outputs.heatmap.Valid() && outputs.locref.Some? && outputs.locref.value.Valid()
    requires p.locationRefinement && LocrefLayout(outputs.locref.value, outputs.heatmap)
    requires CellsFit(DecodedHeatmap(outputs, p.applySigmoid, sigmoid), c, k)
    requires b < outputs.heatmap.d0 && n < k && j < outputs.heatmap.d1
    ensures var h := DecodedHeatmap(outputs, p.applySigmoid, sigmoid);
      var raw := outputs.locref.value;
      var e := PoseEntry(h, p.UsedLocref(outputs), c, stride, stride, k, b, n, j);
      && e.x == (c.x[b][n][j] as real + 0.5) * stride + raw.At(b, 2 * j, c.y[b][n][j], c.x[b][n][j]) * p.locrefStd
      && e.y == (c.y[b][n][j] as real + 0.5) * stride + raw.At(b, 2 * j + 1, c.y[b][n][j], c.x[b][n][j]) * p.locrefStd
  {
    var h := DecodedHeatmap(outputs, p.applySigmoid, sigmoid);
    var raw := outputs.locref.value;
    var scaled := ScaledLocref(raw, h.d3, p.locrefStd);
    assert p.UsedLocref(outputs) == Some(scaled);
    var y, x := c.y[b][n][j], c.x[b][n][j];
    assert scaled.InRange(b, y, x, j);
    assert (x as real + 0.5) * stride == (x as real) * stride + 0.5 * stride;
    assert (y as real + 0.5) * stride == (y as real) * stride + 0.5 * stride;
  }

  /** The score of a pose entry is the activated network output at the candidate cell, in (batch, joint, row, column) layout. */
  lemma PoseScoreIsActivatedOutput(p: HeatmapPredictor, outputs: Outputs, sigmoid: real -> real, stride: real,
                                   k: nat, b: nat, n: nat, j: nat)
    requires outputs.heatmap.Valid()
    requires outputs.locref.Some? ==> outputs.locref.value.Valid()
    requires p.locationRefinement ==> outputs.locref.Some? && LocrefLayout(outputs.locref.value, outputs.heatmap)
    requires k <= outputs.heatmap.d2 * outputs.heatmap.d3
    requires b < outputs.heatmap.d0 && n < k && j < outputs.heatmap.d1
    ensures var h := DecodedHeatmap(outputs, p.applySigmoid, sigmoid);
      var c := GetTopValues(h, k).value;
      var raw := outputs.heatmap.At(b, j, c.y[b][n][j], c.x[b][n][j]);
      PoseEntry(h, p.UsedLocref(outputs), c, stride, stride, k, b, n, j).score
        == if p.applySigmoid then sigmoid(raw) else raw
  {
  }
}
