/** StereoFusion of src/mvs/fusion.cc as a class: per-image visited masks
    that only go from false to true, the sample accumulators of the current
    fused point, and the fused points. FusePoint and the raster loop of Run
    are proved equal to the walk and the scan of module FusionSpec. */
module Fusion {
  import opened FusionSpec
  import opened ConsistencyGraphs
  import FusionOptions
  import Median

  /** The run's environment as FusionSpec states it; the squared
      reprojection limit is max_reproj_error squared, and the cosine of the
      normal limit is given. */
  function MakeEnv(o: FusionOptions.Options, images: seq<ImageData>, lists: seq<seq<int>>,
                   minCosNormalError: real, normalize: Vec3 -> Vec3): Env
  {
    Env(images, lists, o.minNumPixels, o.maxNumPixels, o.maxTraversalDepth, o.maxDepthError,
        o.maxReprojError * o.maxReprojError, minCosNormalError, normalize)
  }

  /** A copy of a sample vector in an array, for the in-place median. */
  method ToArray(s: seq<real>) returns (a: array<real>)
    ensures fresh(a) && a[..] == s
  {
    a := new real[|s|](k requires 0 <= k < |s| => s[k]);
  }

  class StereoFusion {
    const options: FusionOptions.Options
    const images: seq<ImageData>
    const graph: ConsistencyGraph
    const maxSquaredReprojError: real
    const minCosNormalError: real
    const normalize: Vec3 -> Vec3
    /** visited_mask of every image. */
    const masks: seq<array2<bool>>
    /** The pixels whose mask bit is set. */
    ghost var visited: set<Pixel>
    var xs: seq<real>
    var ys: seq<real>
    var zs: seq<real>
    var normalSum: Vec3
    var colorSum: Color
    var refPoint: Vec3
    var refNormal: Vec3
    var fusedPoints: seq<FusedPoint>

    ghost function E(): Env {
      Env(images, graph.lists, options.minNumPixels, options.maxNumPixels, options.maxTraversalDepth,
          options.maxDepthError, maxSquaredReprojError, minCosNormalError, normalize)
    }

    ghost function State(): Accum
      reads this
    {
      Accum(visited, xs, ys, zs, normalSum, colorSum, refPoint, refNormal)
    }

    ghost predicate Valid()
      reads this, masks, graph, graph.imageMaps
    {
      EnvOk(E()) && graph.Valid() &&
      |graph.imageMaps| == |images| && |masks| == |images| &&
      (forall i :: 0 <= i < |images| ==>
        graph.imageMaps[i].Length0 == images[i].height && graph.imageMaps[i].Length1 == images[i].width &&
        masks[i].Length0 == images[i].height && masks[i].Length1 == images[i].width) &&
      (forall i, j :: 0 <= i < j < |masks| ==> masks[i] != masks[j]) &&
      (forall i, r, c :: 0 <= i < |masks| && 0 <= r < masks[i].Length0 && 0 <= c < masks[i].Length1 ==>
        (masks[i][r, c] <==> Pixel(i, r, c) in visited)) &&
      forall p :: p in visited ==> Eligible(E(), p.image, p.row, p.col)
    }

    /** The fusion of `images` with the given consistency graph, after
        Prepare: a zero-filled visited mask for every image and empty
        accumulators. */
    constructor (o: FusionOptions.Options, imgs: seq<ImageData>, g: ConsistencyGraph,
                 minCos: real, norm: Vec3 -> Vec3)
      requires EnvOk(MakeEnv(o, imgs, g.lists, minCos, norm)) && g.Valid() && |g.imageMaps| == |imgs|
      requires forall i :: 0 <= i < |imgs| ==>
        g.imageMaps[i].Length0 == imgs[i].height && g.imageMaps[i].Length1 == imgs[i].width
      ensures Valid() && E() == MakeEnv(o, imgs, g.lists, minCos, norm)
      ensures visited == {} && xs == [] && ys == [] && zs == [] && fusedPoints == []
    {
      var ms: seq<array2<bool>> := [];
      var i := 0;
      while i < |imgs|
        invariant 0 <= i <= |imgs| && |ms| == i
        invariant forall k :: 0 <= k < i ==>
          ms[k].Length0 == imgs[k].height && ms[k].Length1 == imgs[k].width &&
          forall r, c :: 0 <= r < ms[k].Length0 && 0 <= c < ms[k].Length1 ==> !ms[k][r, c]
        invariant forall k, l :: 0 <= k < l < |ms| ==> ms[k] != ms[l]
        invariant forall k :: 0 <= k < |ms| ==> fresh(ms[k])
      {
        var m := new bool[imgs[i].height, imgs[i].width]((r, c) => false);
        ms := ms + [m];
        i := i + 1;
      }
      options := o;
      images := imgs;
      graph := g;
      maxSquaredReprojError := o.maxReprojError * o.maxReprojError;
      minCosNormalError := minCos;
      normalize := norm;
      masks := ms;
      visited := {};
      xs, ys, zs := [], [], [];
      normalSum := Vec3(0.0, 0.0, 0.0);
      colorSum := Color(0, 0, 0);
      refPoint := Vec3(0.0, 0.0, 0.0);
      refNormal := Vec3(0.0, 0.0, 0.0);
      fusedPoints := [];
    }

    /** Marks pixel (row, col) of image `img` visited. */
    method MarkVisited(img: int, row: int, col: int)
      requires Valid() && Eligible(E(), img, row, col)
      modifies masks[img], this
      ensures Valid() && visited == old(visited) + {Pixel(img, row, col)}
      ensures xs == old(xs) && ys == old(ys) && zs == old(zs) && fusedPoints == old(fusedPoints)
      ensures normalSum == old(normalSum) && colorSum == old(colorSum)
      ensures refPoint == old(refPoint) && refNormal == old(refNormal)
    {
      masks[img][row, col] := true;
      visited := visited + {Pixel(img, row, col)};
      assert forall i :: 0 <= i < |masks| && i != img ==> masks[i] != masks[img];
    }

    /** The accumulation of an admitted pixel in FusePoint: the pixel is
        marked visited, its 3D point `xyz` gives one sample, its normal and
        colour are added, and a seed becomes the reference. */
    method Accumulate(img: int, row: int, col: int, traversalDepth: int, xyz: Vec3, normal: Vec3)
      requires Valid() && Admits(E(), State(), img, row, col, traversalDepth)
      requires xyz == SamplePoint(images[img], row, col) && normal == NormalAt(images[img], row, col)
      modifies this, masks[img]
      ensures Valid() && State() == Accept(E(), old(State()), img, row, col, traversalDepth)
      ensures fusedPoints == old(fusedPoints)
    {
      var color := images[img].bitmap[row][col];
      MarkVisited(img, row, col);
      xs := xs + [xyz.x];
      ys := ys + [xyz.y];
      zs := zs + [xyz.z];
      normalSum := Add(normalSum, normal);
      colorSum := AddColor(colorSum, color);
      if traversalDepth == 0 {
        refPoint := xyz;
        refNormal := normal;
      }
    }

    /** The tests FusePoint makes before accumulating a pixel, in the
        source's order: the image is used, the pixel lies inside it, its depth
        is positive, it is unvisited and, below the seed, its depth error,
        reprojection error and normal angle are within the limits. */
    method Admitted(img: int, row: int, col: int, traversalDepth: int) returns (ok: bool)
      requires Valid() && 0 <= img < |images| && traversalDepth >= 0
      ensures ok <==> Admits(E(), State(), img, row, col, traversalDepth)
    {
      var data := images[img];
      if !data.used {
        return false;
      }
      if col < 0 || row < 0 || col >= data.width || row >= data.height {
        return false;
      }
      var depth := data.depthMap[row][col];
      // Pixels with a non-positive depth are filtered.
      if depth <= 0.0 {
        return false;
      }
      if masks[img][row, col] {
        return false;
      }
      if traversalDepth > 0 {
        var proj := data.project(refPoint);
        if DepthError(proj, depth) > options.maxDepthError {
          return false;
        }
        if SquaredReprojError(proj, row, col) > maxSquaredReprojError {
          return false;
        }
        var normal := data.rotate(data.normalMap[row][col]);
        if Dot(refNormal, normal) < minCosNormalError {
          return false;
        }
      }
      return true;
    }

    /** FusePoint(img, row, col, depth): the walk of FusionSpec.Fuse, pixel
        by pixel on the masks and accumulators. */
    method FusePoint(img: int, row: int, col: int, traversalDepth: int)
      requires Valid() && 0 <= img < |images| && traversalDepth >= 0
      modifies this, masks
      ensures Valid() && State() == Fuse(E(), old(State()), img, row, col, traversalDepth)
      ensures fusedPoints == old(fusedPoints)
      decreases options.maxTraversalDepth - traversalDepth, 0
    {
      var ok := Admitted(img, row, col, traversalDepth);
      if !ok {
        return;
      }
      var data := images[img];
      var normal := data.rotate(data.normalMap[row][col]);
      // The 3D point of the pixel: inv_P applied to (col * depth, row * depth, depth, 1).
      var xyz := SamplePoint(data, row, col);
      ghost var st0 := State();
      Accumulate(img, row, col, traversalDepth, xyz, normal);
      var nextTraversalDepth := traversalDepth + 1;
      if nextTraversalDepth >= options.maxTraversalDepth || |xs| >= SizeT(options.maxNumPixels) {
        return;
      }
      var partners := graph.GetConsistentImageIds(img, row, col);
      assert IdsIn(partners, |images|);
      assert Fuse(E(), st0, img, row, col, traversalDepth) ==
             FusePartners(E(), State(), xyz, partners, 0, nextTraversalDepth);
      FuseFromPartners(xyz, partners, nextTraversalDepth);
    }

    /** The partner loop of FusePoint: the rounded projection of `xyz` into
        each consistent image, one level deeper. */
    method FuseFromPartners(xyz: Vec3, partners: seq<int>, traversalDepth: int)
      requires Valid() && IdsIn(partners, |images|) && traversalDepth >= 1
      modifies this, masks
      ensures Valid() && State() == FusePartners(E(), old(State()), xyz, partners, 0, traversalDepth)
      ensures fusedPoints == old(fusedPoints)
      decreases options.maxTraversalDepth - traversalDepth, 1
    {
      ghost var st1 := State();
      var i := 0;
      while i < |partners|
        invariant Valid() && 0 <= i <= |partners| && fusedPoints == old(fusedPoints)
        invariant FusePartners(E(), State(), xyz, partners, i, traversalDepth) ==
                  FusePartners(E(), st1, xyz, partners, 0, traversalDepth)
        decreases |partners| - i
      {
        var next := partners[i];
        var nextCol := ProjectedCol(images[next], xyz);
        var nextRow := ProjectedRow(images[next], xyz);
        ghost var before := State();
        assert FusePartners(E(), before, xyz, partners, i, traversalDepth) ==
               FusePartners(E(), Fuse(E(), before, next, nextRow, nextCol, traversalDepth),
                            xyz, partners, i + 1, traversalDepth);
        FusePoint(next, nextRow, nextCol, traversalDepth);
        i := i + 1;
      }
    }

    /** The fused point of the current samples: the medians come from the
        in-place Median on copies of the sample vectors. */
    method ReduceSamples() returns (p: FusedPoint)
      requires |xs| > 0 && |ys| == |xs| && |zs| == |xs|
      ensures p == Reduce(E(), State())
    {
      var n := |xs|;
      var ax := ToArray(xs);
      var ay := ToArray(ys);
      var az := ToArray(zs);
      var x := Median.Median(ax);
      var y := Median.Median(ay);
      var z := Median.Median(az);
      p := FusedPoint(x, y, z, normalize(normalSum),
                      ColorChannel(colorSum.r, n), ColorChannel(colorSum.g, n), ColorChannel(colorSum.b, n));
    }

    /** Clears the sample vectors and the sums before a seed. */
    method ClearAccumulators()
      modifies this
      ensures State() == Restart(old(State())) && fusedPoints == old(fusedPoints)
    {
      xs, ys, zs := [], [], [];
      normalSum := Vec3(0.0, 0.0, 0.0);
      colorSum := Color(0, 0, 0);
    }

    /** Appends the fused point of the current samples when there are
        enough of them. */
    method EmitIfEnough()
      requires |ys| == |xs| && |zs| == |xs|
      modifies this
      ensures State() == old(State())
      ensures fusedPoints == if Emits(|xs|, options.minNumPixels)
                             then old(fusedPoints) + [Reduce(E(), State())] else old(fusedPoints)
    {
      var numPixels := |xs|;
      if numPixels >= SizeT(options.minNumPixels) && numPixels > 0 {
        var point := ReduceSamples();
        fusedPoints := fusedPoints + [point];
      }
    }

    /** One pixel of the raster loop in Run. */
    method Seed(img: int, row: int, col: int)
      requires Valid() && 0 <= img < |images| && 0 <= row < images[img].height && 0 <= col < images[img].width
      modifies this, masks
      ensures Valid()
      ensures Scan(State(), fusedPoints) == SeedStep(E(), Scan(old(State()), old(fusedPoints)), img, row, col)
    {
      if !masks[img][row, col] {
        ghost var s0 := Scan(State(), fusedPoints);
        ClearAccumulators();
        FusePoint(img, row, col, 0);
        assert State() == SeedWalk(E(), s0.acc, img, row, col);
        EmitIfEnough();
      }
    }

    /** The column loop of Run over one row. */
    method ScanRow(img: int, row: int)
      requires Valid() && 0 <= img < |images| && 0 <= row < images[img].height
      modifies this, masks
      ensures Valid()
      ensures Scan(State(), fusedPoints) == ScanCols(E(), Scan(old(State()), old(fusedPoints)), img, row, 0)
    {
      ghost var s0 := Scan(State(), fusedPoints);
      var col := 0;
      while col < images[img].width
        invariant Valid() && 0 <= col <= images[img].width
        invariant ScanCols(E(), Scan(State(), fusedPoints), img, row, col) == ScanCols(E(), s0, img, row, 0)
      {
        Seed(img, row, col);
        col := col + 1;
      }
    }

    /** The row loop of Run over one image. */
    method ScanImage(img: int)
      requires Valid() && 0 <= img < |images|
      modifies this, masks
      ensures Valid()
      ensures Scan(State(), fusedPoints) == ScanRows(E(), Scan(old(State()), old(fusedPoints)), img, 0)
    {
      ghost var s0 := Scan(State(), fusedPoints);
      var row := 0;
      while row < images[img].height
        invariant Valid() && 0 <= row <= images[img].height
        invariant ScanRows(E(), Scan(State(), fusedPoints), img, row) == ScanRows(E(), s0, img, 0)
      {
        ScanRow(img, row);
        row := row + 1;
      }
    }

    /** The traversal and reduction loop of Run: every unvisited pixel of
        every image, in image, row and column order, seeds a walk. */
    method Run()
      requires Valid()
      modifies this, masks
      ensures Valid()
      ensures Scan(State(), fusedPoints) == ScanImages(E(), Scan(old(State()), []), 0)
    {
      fusedPoints := [];
      var img := 0;
      while img < |images|
        invariant Valid() && 0 <= img <= |images|
        invariant ScanImages(E(), Scan(State(), fusedPoints), img) ==
                  ScanImages(E(), Scan(old(State()), []), 0)
      {
        ScanImage(img);
        img := img + 1;
      }
    }
  }
}
