/** The reference definition of the depth-map fusion of src/mvs/fusion.cc:
    the bounded depth-first walk of StereoFusion::FusePoint over the
    consistency graph, the raster scan of StereoFusion::Run that seeds one
    walk at every unvisited pixel, and the reduction of the gathered
    samples to one fused point. The walk is stated here on values; the
    class in module Fusion performs it on visited masks and accumulators
    and is proved equal to it. */
module FusionSpec {
  import opened ConsistencyGraphs
  import Median

  const TwoPow32: int := 0x1_0000_0000
  const TwoPow64: int := 0x1_0000_0000_0000_0000

  datatype Vec3 = Vec3(x: real, y: real, z: real)

  function Add(a: Vec3, b: Vec3): Vec3 {
    Vec3(a.x + b.x, a.y + b.y, a.z + b.z)
  }

  function Dot(a: Vec3, b: Vec3): real {
    a.x * b.x + a.y * b.y + a.z * b.z
  }

  /** An RGB colour; the bitmap's channels are bytes, the fused sums are
      32-bit unsigned. */
  datatype Color = Color(r: int, g: int, b: int)

  /** A pixel of one image. */
  datatype Pixel = Pixel(image: int, row: int, col: int)

  /** What fusion knows of one image: whether it takes part, its size, its
      depth map, normal map and bitmap (indexed [row][col]), and the camera
      maps, which are not modelled: `project` applies P to (x, y, z, 1),
      `backProject` applies inv_P to (u, v, w, 1) and `rotate` applies
      inv_R. */
  datatype ImageData = ImageData(
    used: bool,
    height: nat,
    width: nat,
    depthMap: seq<seq<real>>,
    normalMap: seq<seq<Vec3>>,
    bitmap: seq<seq<Color>>,
    project: Vec3 -> Vec3,
    backProject: Vec3 -> Vec3,
    rotate: Vec3 -> Vec3)

  predicate IsByte(v: int) {
    0 <= v < 256
  }

  /** The maps have the image's size and the bitmap holds bytes. */
  ghost predicate Loaded(d: ImageData) {
    |d.depthMap| == d.height && |d.normalMap| == d.height && |d.bitmap| == d.height &&
    (forall r :: 0 <= r < d.height ==>
      |d.depthMap[r]| == d.width && |d.normalMap[r]| == d.width && |d.bitmap[r]| == d.width) &&
    forall r, c :: 0 <= r < d.height && 0 <= c < d.width ==>
      IsByte(d.bitmap[r][c].r) && IsByte(d.bitmap[r][c].g) && IsByte(d.bitmap[r][c].b)
  }

  /** Every identifier of `ids` is an image index below `n`. */
  predicate IdsIn(ids: seq<int>, n: int) {
    forall k :: 0 <= k < |ids| ==> 0 <= ids[k] < n
  }

  /** Everything one fusion run reads: the images, their consistency lists,
      the options and the thresholds derived from them (the squared
      reprojection error and the cosine of the normal error), and the
      normalisation of the summed normal, which is not modelled. */
  datatype Env = Env(
    images: seq<ImageData>,
    lists: seq<seq<int>>,
    minNumPixels: int,
    maxNumPixels: int,
    maxTraversalDepth: int,
    maxDepthError: real,
    maxSquaredReprojError: real,
    minCosNormalError: real,
    normalize: Vec3 -> Vec3)

  /** One list per image, each a sequence of whole records naming pixels of
      its image and partners that are images of the run. */
  ghost predicate EnvOk(e: Env) {
    |e.lists| == |e.images| &&
    (forall i :: 0 <= i < |e.images| ==>
      Loaded(e.images[i]) && WellFormed(e.lists[i], Extent(e.images[i].height, e.images[i].width))) &&
    forall i, row, col :: 0 <= i < |e.images| ==> IdsIn(Partners(e.lists[i], row, col), |e.images|)
  }

  /** The state the walk changes: the visited pixels, the x, y and z
      samples, the normal and colour sums, and the reference point and
      normal of the current fused point. */
  datatype Accum = Accum(
    visited: set<Pixel>,
    xs: seq<real>,
    ys: seq<real>,
    zs: seq<real>,
    normalSum: Vec3,
    colorSum: Color,
    refPoint: Vec3,
    refNormal: Vec3)

  /** A fused point: the median position, the normalised summed normal and
      the mean colour. */
  datatype FusedPoint = FusedPoint(x: real, y: real, z: real, normal: Vec3, r: int, g: int, b: int)

  /** The state of the raster scan: the walk's state and the points fused. */
  datatype Scan = Scan(acc: Accum, points: seq<FusedPoint>)

  // ---------------------------------------------------------------------
  // Arithmetic of the source

  function Abs(x: real): real {
    if x < 0.0 then -x else x
  }

  /** Division of two floats; a zero divisor, which gives an infinity or a
      NaN in the source, gives 0 here. */
  function Quot(a: real, b: real): real {
    if b == 0.0 then 0.0 else a / b
  }

  /** static_cast<size_t> of an int: a negative value wraps around. */
  function SizeT(v: int): int {
    if v < 0 then v + TwoPow64 else v
  }

  /** Addition of 32-bit unsigned sums, which wraps around. */
  function Wrap32(v: int): (w: int)
    ensures 0 <= w < TwoPow32 && (0 <= v < TwoPow32 ==> w == v)
  {
    v % TwoPow32
  }

  function AddColor(sum: Color, c: Color): Color {
    Color(Wrap32(sum.r + c.r), Wrap32(sum.g + c.g), Wrap32(sum.b + c.b))
  }

  /** std::round: the nearest integer, halves rounded away from zero. */
  function RoundHalfAway(x: real): (n: int)
    ensures 0.0 <= x ==> x - 0.5 < n as real <= x + 0.5
    ensures x < 0.0 ==> x - 0.5 <= n as real < x + 0.5
  {
    if x >= 0.0 then (x + 0.5).Floor else -((-x + 0.5).Floor)
  }

  /** TruncateCast<double, uint8_t>: saturation to [0, 255]. */
  function TruncateToByte(v: int): (b: int)
    ensures IsByte(b)
    ensures IsByte(v) ==> b == v
    ensures v < 0 ==> b == 0
    ensures v > 255 ==> b == 255
  {
    if v < 0 then 0 else if v > 255 then 255 else v
  }

  /** One channel of the fused colour: the channel sum divided by the number
      of samples, rounded and saturated to a byte. */
  function ColorChannel(sum: int, n: int): int
    requires n > 0
  {
    TruncateToByte(RoundHalfAway(sum as real / n as real))
  }

  /** Fusing n samples of the same byte value gives that value back. */
  lemma ChannelOfUniformColor(c: int, n: int)
    requires IsByte(c) && n > 0
    ensures ColorChannel(n * c, n) == c
  {
    assert (n * c) as real / n as real == c as real;
  }

  // ---------------------------------------------------------------------
  // One step of the walk

  /** The depth error of the reference point seen from the current view. */
  function DepthError(proj: Vec3, depth: real): real
    requires depth > 0.0
  {
    Abs((proj.z - depth) / depth)
  }

  /** The squared distance between the projected reference point and the
      current pixel. */
  function SquaredReprojError(proj: Vec3, row: int, col: int): real {
    var colDiff := Quot(proj.x, proj.z) - col as real;
    var rowDiff := Quot(proj.y, proj.z) - row as real;
    colDiff * colDiff + rowDiff * rowDiff
  }

  /** The pixel takes part, lies inside its image and has a positive depth. */
  ghost predicate Eligible(e: Env, img: int, row: int, col: int)
    requires EnvOk(e)
  {
    0 <= img < |e.images| &&
    var d := e.images[img];
    d.used && 0 <= row < d.height && 0 <= col < d.width && d.depthMap[row][col] > 0.0
  }

  /** The normal of an eligible pixel in the global frame. */
  function NormalAt(d: ImageData, row: int, col: int): Vec3
    requires Loaded(d) && 0 <= row < d.height && 0 <= col < d.width
  {
    d.rotate(d.normalMap[row][col])
  }

  /** The 3D point of a pixel: inv_P applied to (col * depth, row * depth,
      depth, 1). */
  function SamplePoint(d: ImageData, row: int, col: int): Vec3
    requires Loaded(d) && 0 <= row < d.height && 0 <= col < d.width
  {
    var depth := d.depthMap[row][col];
    d.backProject(Vec3(col as real * depth, row as real * depth, depth))
  }

  /** The pixel agrees with the reference point and normal: depth error,
      squared reprojection error and normal angle are within the limits,
      values at a limit included. */
  ghost predicate Consistent(e: Env, st: Accum, img: int, row: int, col: int)
    requires EnvOk(e) && Eligible(e, img, row, col)
  {
    var d := e.images[img];
    var proj := d.project(st.refPoint);
    DepthError(proj, d.depthMap[row][col]) <= e.maxDepthError &&
    SquaredReprojError(proj, row, col) <= e.maxSquaredReprojError &&
    Dot(st.refNormal, NormalAt(d, row, col)) >= e.minCosNormalError
  }

  /** The conditions under which FusePoint accumulates the pixel: eligible,
      not yet visited, and, below the seed, consistent with the reference. */
  ghost predicate Admits(e: Env, st: Accum, img: int, row: int, col: int, depth: int)
    requires EnvOk(e)
  {
    Eligible(e, img, row, col) && Pixel(img, row, col) !in st.visited &&
    (depth > 0 ==> Consistent(e, st, img, row, col))
  }

  /** The accumulation of an admitted pixel: it is marked visited, gives one
      x, y and z sample, adds its normal and colour, and becomes the
      reference when it is the seed. */
  ghost function Accept(e: Env, st: Accum, img: int, row: int, col: int, depth: int): Accum
    requires EnvOk(e) && Eligible(e, img, row, col)
  {
    var d := e.images[img];
    var xyz := SamplePoint(d, row, col);
    var normal := NormalAt(d, row, col);
    Accum(st.visited + {Pixel(img, row, col)},
          st.xs + [xyz.x], st.ys + [xyz.y], st.zs + [xyz.z],
          Add(st.normalSum, normal), AddColor(st.colorSum, d.bitmap[row][col]),
          if depth == 0 then xyz else st.refPoint,
          if depth == 0 then normal else st.refNormal)
  }

  /** The walk does not go past the traversal depth, nor on once the sample
      count reached the pixel limit. */
  predicate Stops(e: Env, st: Accum, depth: int) {
    depth + 1 >= e.maxTraversalDepth || |st.xs| >= SizeT(e.maxNumPixels)
  }

  /** The pixel a partner image sees point `xyz` at: the rounded projection. */
  function ProjectedRow(d: ImageData, xyz: Vec3): int {
    var proj := d.project(xyz);
    RoundHalfAway(Quot(proj.y, proj.z))
  }

  function ProjectedCol(d: ImageData, xyz: Vec3): int {
    var proj := d.project(xyz);
    RoundHalfAway(Quot(proj.x, proj.z))
  }

  /** `r` grows `st` by some newly visited pixels, one sample each: the old
      visited pixels and samples are kept, and the samples added are as
      many as the pixels newly visited. */
  ghost predicate Extends(st: Accum, r: Accum) {
    st.visited <= r.visited &&
    st.xs <= r.xs && st.ys <= r.ys && st.zs <= r.zs &&
    |r.xs| - |st.xs| == |r.visited| - |st.visited| &&
    |r.ys| - |st.ys| == |r.xs| - |st.xs| &&
    |r.zs| - |st.zs| == |r.xs| - |st.xs|
  }

  lemma ExtendsTransitive(a: Accum, b: Accum, c: Accum)
    requires Extends(a, b) && Extends(b, c)
    ensures Extends(a, c)
  {
    assert a.xs <= c.xs by { assert c.xs[..|a.xs|] == b.xs[..|a.xs|]; }
    assert a.ys <= c.ys by { assert c.ys[..|a.ys|] == b.ys[..|a.ys|]; }
    assert a.zs <= c.zs by { assert c.zs[..|a.zs|] == b.zs[..|a.zs|]; }
  }

  // ---------------------------------------------------------------------
  // The walk

  /** FusePoint(img, row, col, depth): accumulates the pixel when admitted
      and, unless the walk stops there, visits in order the pixels its
      consistent partner images see its 3D point at, one level deeper. */
  ghost function Fuse(e: Env, st: Accum, img: int, row: int, col: int, depth: int): (r: Accum)
    requires EnvOk(e) && 0 <= img < |e.images| && depth >= 0
    ensures Extends(st, r)
    decreases e.maxTraversalDepth - depth, 0
  {
    if !Admits(e, st, img, row, col, depth) then st
    else
      var st1 := Accept(e, st, img, row, col, depth);
      if Stops(e, st1, depth) then st1
      else
        var r := FusePartners(e, st1, SamplePoint(e.images[img], row, col),
                              Partners(e.lists[img], row, col), 0, depth + 1);
        ExtendsTransitive(st, st1, r);
        r
  }

  /** The partner loop of FusePoint from partner `i` on. */
  ghost function FusePartners(e: Env, st: Accum, xyz: Vec3, partners: seq<int>, i: nat, depth: int): (r: Accum)
    requires EnvOk(e) && IdsIn(partners, |e.images|) && i <= |partners| && depth >= 1
    ensures Extends(st, r)
    decreases e.maxTraversalDepth - depth, 1, |partners| - i
  {
    if i == |partners| then st
    else
      var d := e.images[partners[i]];
      var st1 := Fuse(e, st, partners[i], ProjectedRow(d, xyz), ProjectedCol(d, xyz), depth);
      var r := FusePartners(e, st1, xyz, partners, i + 1, depth);
      ExtendsTransitive(st, st1, r);
      r
  }

  /** Every pixel the walk newly visits is eligible. */
  ghost predicate NewPixelsEligible(e: Env, st: Accum, r: Accum)
    requires EnvOk(e)
  {
    forall p :: p in r.visited && p !in st.visited ==> Eligible(e, p.image, p.row, p.col)
  }

  lemma {:induction false} FuseVisitsOnlyEligible(e: Env, st: Accum, img: int, row: int, col: int, depth: int)
    requires EnvOk(e) && 0 <= img < |e.images| && depth >= 0
    ensures NewPixelsEligible(e, st, Fuse(e, st, img, row, col, depth))
    decreases e.maxTraversalDepth - depth, 0
  {
    if Admits(e, st, img, row, col, depth) {
      var st1 := Accept(e, st, img, row, col, depth);
      if !Stops(e, st1, depth) {
        var xyz := SamplePoint(e.images[img], row, col);
        var partners := Partners(e.lists[img], row, col);
        FusePartnersVisitOnlyEligible(e, st1, xyz, partners, 0, depth + 1);
      }
    }
  }

  lemma {:induction false} FusePartnersVisitOnlyEligible(e: Env, st: Accum, xyz: Vec3, partners: seq<int>, i: nat, depth: int)
    requires EnvOk(e) && IdsIn(partners, |e.images|) && i <= |partners| && depth >= 1
    ensures NewPixelsEligible(e, st, FusePartners(e, st, xyz, partners, i, depth))
    decreases e.maxTraversalDepth - depth, 1, |partners| - i
  {
    if i < |partners| {
      var d := e.images[partners[i]];
      var st1 := Fuse(e, st, partners[i], ProjectedRow(d, xyz), ProjectedCol(d, xyz), depth);
      FuseVisitsOnlyEligible(e, st, partners[i], ProjectedRow(d, xyz), ProjectedCol(d, xyz), depth);
      FusePartnersVisitOnlyEligible(e, st1, xyz, partners, i + 1, depth);
    }
  }

  /** Below the seed, the walk never changes the reference point or normal. */
  lemma {:induction false} FuseKeepsReference(e: Env, st: Accum, img: int, row: int, col: int, depth: int)
    requires EnvOk(e) && 0 <= img < |e.images| && depth >= 1
    ensures Fuse(e, st, img, row, col, depth).refPoint == st.refPoint
    ensures Fuse(e, st, img, row, col, depth).refNormal == st.refNormal
    decreases e.maxTraversalDepth - depth, 0
  {
    if Admits(e, st, img, row, col, depth) {
      var st1 := Accept(e, st, img, row, col, depth);
      if !Stops(e, st1, depth) {
        var xyz := SamplePoint(e.images[img], row, col);
        FusePartnersKeepReference(e, st1, xyz, Partners(e.lists[img], row, col), 0, depth + 1);
      }
    }
  }

  lemma {:induction false} FusePartnersKeepReference(e: Env, st: Accum, xyz: Vec3, partners: seq<int>, i: nat, depth: int)
    requires EnvOk(e) && IdsIn(partners, |e.images|) && i <= |partners| && depth >= 1
    ensures FusePartners(e, st, xyz, partners, i, depth).refPoint == st.refPoint
    ensures FusePartners(e, st, xyz, partners, i, depth).refNormal == st.refNormal
    decreases e.maxTraversalDepth - depth, 1, |partners| - i
  {
    if i < |partners| {
      var d := e.images[partners[i]];
      var st1 := Fuse(e, st, partners[i], ProjectedRow(d, xyz), ProjectedCol(d, xyz), depth);
      FuseKeepsReference(e, st, partners[i], ProjectedRow(d, xyz), ProjectedCol(d, xyz), depth);
      FusePartnersKeepReference(e, st1, xyz, partners, i + 1, depth);
    }
  }

  /** FusePoint changes nothing exactly when the pixel is not admitted; an
      admitted pixel is visited afterwards, its sample is the first one
      appended, and a seed becomes the reference point and normal. */
  lemma FuseChangesNothingIff(e: Env, st: Accum, img: int, row: int, col: int, depth: int)
    requires EnvOk(e) && 0 <= img < |e.images| && depth >= 0
    ensures Fuse(e, st, img, row, col, depth) == st <==> !Admits(e, st, img, row, col, depth)
    ensures Admits(e, st, img, row, col, depth) ==>
      var r := Fuse(e, st, img, row, col, depth);
      var xyz := SamplePoint(e.images[img], row, col);
      Pixel(img, row, col) in r.visited && |r.xs| > |st.xs| &&
      r.xs[|st.xs|] == xyz.x && r.ys[|st.ys|] == xyz.y && r.zs[|st.zs|] == xyz.z &&
      (depth == 0 ==> r.refPoint == xyz && r.refNormal == NormalAt(e.images[img], row, col))
  {
    if Admits(e, st, img, row, col, depth) {
      var st1 := Accept(e, st, img, row, col, depth);
      var r := Fuse(e, st, img, row, col, depth);
      if !Stops(e, st1, depth) {
        var xyz := SamplePoint(e.images[img], row, col);
        var partners := Partners(e.lists[img], row, col);
        assert r == FusePartners(e, st1, xyz, partners, 0, depth + 1);
        assert Extends(st1, r);
        FusePartnersKeepReference(e, st1, xyz, partners, 0, depth + 1);
      }
      assert Pixel(img, row, col) in r.visited;
      assert r.xs[|st.xs|] == st1.xs[|st.xs|];
      assert r.ys[|st.ys|] == st1.ys[|st.ys|];
      assert r.zs[|st.zs|] == st1.zs[|st.zs|];
    }
  }

  /** A pixel exactly at the depth, reprojection and normal limits is still
      admitted. */
  lemma LimitValuesAreAdmitted(e: Env, st: Accum, img: int, row: int, col: int, depth: int)
    requires EnvOk(e) && Eligible(e, img, row, col) && Pixel(img, row, col) !in st.visited
    requires var d := e.images[img];
      var proj := d.project(st.refPoint);
      DepthError(proj, d.depthMap[row][col]) == e.maxDepthError &&
      SquaredReprojError(proj, row, col) == e.maxSquaredReprojError &&
      Dot(st.refNormal, NormalAt(d, row, col)) == e.minCosNormalError
    ensures Admits(e, st, img, row, col, depth)
  {
  }

  /** Once the next level would reach the traversal depth, or the samples
      reach the pixel limit, an admitted pixel is accumulated alone and no
      partner is visited; with a traversal depth of 1 a walk gathers the
      seed only. */
  lemma NoExpansionPastLimits(e: Env, st: Accum, img: int, row: int, col: int, depth: int)
    requires EnvOk(e) && 0 <= img < |e.images| && depth >= 0
    requires depth + 1 >= e.maxTraversalDepth || |st.xs| + 1 >= SizeT(e.maxNumPixels)
    ensures var r := Fuse(e, st, img, row, col, depth);
      r.visited - st.visited <= {Pixel(img, row, col)} && |r.xs| <= |st.xs| + 1
  {
    var r := Fuse(e, st, img, row, col, depth);
    if Admits(e, st, img, row, col, depth) {
      assert r == Accept(e, st, img, row, col, depth);
    }
  }

  // ---------------------------------------------------------------------
  // The raster scan and the reduction

  /** The accumulators cleared before each seed; the visited pixels and the
      reference are kept. */
  function Restart(a: Accum): Accum {
    a.(xs := [], ys := [], zs := [], normalSum := Vec3(0.0, 0.0, 0.0), colorSum := Color(0, 0, 0))
  }

  /** The guard that turns a walk into a fused point, as written: at least
      min_num_pixels samples. */
  predicate EmitsAsWritten(n: int, minNumPixels: int) {
    n >= SizeT(minNumPixels)
  }

  /** The guard the model uses: at least min_num_pixels samples and at
      least one. */
  predicate Emits(n: int, minNumPixels: int) {
    n >= SizeT(minNumPixels) && n > 0
  }

  /** The fused point of a finished walk. */
  function Reduce(e: Env, a: Accum): FusedPoint
    requires |a.xs| > 0 && |a.ys| == |a.xs| && |a.zs| == |a.xs|
  {
    var n := |a.xs|;
    FusedPoint(Median.MedianOf(a.xs), Median.MedianOf(a.ys), Median.MedianOf(a.zs),
               e.normalize(a.normalSum),
               ColorChannel(a.colorSum.r, n), ColorChannel(a.colorSum.g, n), ColorChannel(a.colorSum.b, n))
  }

  /** The walk seeded at an unvisited pixel. */
  ghost function SeedWalk(e: Env, a: Accum, img: int, row: int, col: int): (r: Accum)
    requires EnvOk(e) && 0 <= img < |e.images|
    ensures Extends(Restart(a), r) && |r.ys| == |r.xs| && |r.zs| == |r.xs|
  {
    Fuse(e, Restart(a), img, row, col, 0)
  }

  /** One pixel of the raster loop: a visited pixel is skipped; otherwise a
      walk is seeded there and its samples become a fused point when there
      are enough of them. */
  ghost function SeedStep(e: Env, s: Scan, img: int, row: int, col: int): Scan
    requires EnvOk(e) && 0 <= img < |e.images|
  {
    if Pixel(img, row, col) in s.acc.visited then s
    else
      var a := SeedWalk(e, s.acc, img, row, col);
      if Emits(|a.xs|, e.minNumPixels) then Scan(a, s.points + [Reduce(e, a)]) else Scan(a, s.points)
  }

  ghost function ScanCols(e: Env, s: Scan, img: int, row: int, col: nat): Scan
    requires EnvOk(e) && 0 <= img < |e.images| && col <= e.images[img].width
    decreases e.images[img].width - col
  {
    if col == e.images[img].width then s
    else ScanCols(e, SeedStep(e, s, img, row, col), img, row, col + 1)
  }

  ghost function ScanRows(e: Env, s: Scan, img: int, row: nat): Scan
    requires EnvOk(e) && 0 <= img < |e.images| && row <= e.images[img].height
    decreases e.images[img].height - row
  {
    if row == e.images[img].height then s
    else ScanRows(e, ScanCols(e, s, img, row, 0), img, row + 1)
  }

  /** The raster loop of Run over images `img` on. */
  ghost function ScanImages(e: Env, s: Scan, img: nat): Scan
    requires EnvOk(e) && img <= |e.images|
    decreases |e.images| - img
  {
    if img == |e.images| then s
    else ScanImages(e, ScanRows(e, s, img, 0), img + 1)
  }

  /** A seed appends a point exactly when its pixel was unvisited and its
      walk gathered enough samples, and that point is the reduction of the
      walk; a walk that gathers too few samples leaves its pixels visited. */
  lemma SeedStepEmitsIff(e: Env, s: Scan, img: int, row: int, col: int)
    requires EnvOk(e) && 0 <= img < |e.images|
    ensures var r := SeedStep(e, s, img, row, col);
      (|r.points| == |s.points| + 1 <==>
        Pixel(img, row, col) !in s.acc.visited && Emits(|r.acc.xs|, e.minNumPixels)) &&
      (|r.points| != |s.points| + 1 ==> r.points == s.points) &&
      (|r.points| == |s.points| + 1 ==>
        r.points == s.points + [Reduce(e, r.acc)] && |r.acc.xs| >= SizeT(e.minNumPixels)) &&
      s.acc.visited <= r.acc.visited
  {
  }

  /** The scan never clears a visited pixel, only appends points, and emits
      at most one point per pixel it newly visits. */
  predicate Consumes(s: Scan, r: Scan) {
    s.acc.visited <= r.acc.visited && s.points <= r.points &&
    |r.points| - |s.points| <= |r.acc.visited| - |s.acc.visited|
  }

  lemma ConsumesTransitive(a: Scan, b: Scan, c: Scan)
    requires Consumes(a, b) && Consumes(b, c)
    ensures Consumes(a, c)
  {
    assert a.points <= c.points by { assert c.points[..|a.points|] == b.points[..|a.points|]; }
  }

  lemma SeedStepConsumes(e: Env, s: Scan, img: int, row: int, col: int)
    requires EnvOk(e) && 0 <= img < |e.images|
    ensures Consumes(s, SeedStep(e, s, img, row, col))
  {
    if Pixel(img, row, col) !in s.acc.visited {
      var a := SeedWalk(e, s.acc, img, row, col);
      assert |a.visited| - |s.acc.visited| == |a.xs|;
    }
  }

  lemma {:induction false} ScanColsConsumes(e: Env, s: Scan, img: int, row: int, col: nat)
    requires EnvOk(e) && 0 <= img < |e.images| && col <= e.images[img].width
    ensures Consumes(s, ScanCols(e, s, img, row, col))
    decreases e.images[img].width - col
  {
    if col < e.images[img].width {
      var s1 := SeedStep(e, s, img, row, col);
      SeedStepConsumes(e, s, img, row, col);
      ScanColsConsumes(e, s1, img, row, col + 1);
      ConsumesTransitive(s, s1, ScanCols(e, s1, img, row, col + 1));
    }
  }

  lemma {:induction false} ScanRowsConsumes(e: Env, s: Scan, img: int, row: nat)
    requires EnvOk(e) && 0 <= img < |e.images| && row <= e.images[img].height
    ensures Consumes(s, ScanRows(e, s, img, row))
    decreases e.images[img].height - row
  {
    if row < e.images[img].height {
      var s1 := ScanCols(e, s, img, row, 0);
      ScanColsConsumes(e, s, img, row, 0);
      ScanRowsConsumes(e, s1, img, row + 1);
      ConsumesTransitive(s, s1, ScanRows(e, s1, img, row + 1));
    }
  }

  /** Over a whole run, the visited pixels only grow, points are only
      appended, and there are no more points than pixels consumed. */
  lemma {:induction false} ScanImagesConsumes(e: Env, s: Scan, img: nat)
    requires EnvOk(e) && img <= |e.images|
    ensures Consumes(s, ScanImages(e, s, img))
    decreases |e.images| - img
  {
    if img < |e.images| {
      var s1 := ScanRows(e, s, img, 0);
      ScanRowsConsumes(e, s, img, 0);
      ScanImagesConsumes(e, s1, img + 1);
      ConsumesTransitive(s, s1, ScanImages(e, s1, img + 1));
    }
  }

  /** Every fused point's samples come from pixels that no earlier point
      used: the pixels newly visited by a seed were all unvisited before it,
      and are as many as its samples. */
  lemma SeedUsesFreshPixels(e: Env, s: Scan, img: int, row: int, col: int)
    requires EnvOk(e) && 0 <= img < |e.images| && Pixel(img, row, col) !in s.acc.visited
    ensures var r := SeedStep(e, s, img, row, col);
      s.acc.visited <= r.acc.visited && |r.acc.visited - s.acc.visited| == |r.acc.xs| &&
      NewPixelsEligible(e, s.acc, r.acc)
  {
    var r := SeedStep(e, s, img, row, col);
    FuseVisitsOnlyEligible(e, Restart(s.acc), img, row, col, 0);
    assert |r.acc.visited - s.acc.visited| == |r.acc.visited| - |s.acc.visited|;
  }

  /** As written, a walk seeded at an unvisited pixel with no positive depth
      gathers no sample, and with min_num_pixels = 0 (which the options
      validator accepts) the guard still passes: Median is then called on
      an empty vector, whose CHECK aborts. */
  lemma EmptySeedPassesGuardAsWritten(e: Env, s: Scan, img: int, row: int, col: int)
    requires EnvOk(e) && 0 <= img < |e.images| && Pixel(img, row, col) !in s.acc.visited
    requires !Eligible(e, img, row, col) && e.minNumPixels == 0
    ensures var a := SeedWalk(e, s.acc, img, row, col);
      |a.xs| == 0 && EmitsAsWritten(|a.xs|, e.minNumPixels)
  {
  }

  /** The guard the model uses emits only walks with a sample, so the
      median of every fused point is defined, and otherwise agrees with the
      written guard. */
  lemma EmitsIsGuardWithSample(n: int, minNumPixels: int)
    ensures Emits(n, minNumPixels) <==> EmitsAsWritten(n, minNumPixels) && n > 0
    ensures minNumPixels > 0 ==> (Emits(n, minNumPixels) <==> EmitsAsWritten(n, minNumPixels))
  {
  }
}
