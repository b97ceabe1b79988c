/** PatchMatch::Check (src/mvs/patch_match.cc): the validation a
    patch-match stereo problem and its options pass before the estimation
    runs; the first failing CHECK aborts. */
module PatchMatchCheck {
  import opened ConfigText
  import opened PatchMatchProblems

  /** What the validator reads of an image: the pixel dimensions and the
      channel count. The calibration matrix is not part of this model. */
  datatype ImageInfo = ImageInfo(width: nat, height: nat, channels: nat)

  /** The dimensions of a depth or normal map. */
  datatype MapSize = MapSize(width: nat, height: nat)

  /** The problem as the validator sees it: the images, depth maps and
      normal maps of the workspace, indexed by image id, and the reference
      and source ids. */
  datatype Input = Input(
    images: seq<ImageInfo>,
    depthMaps: seq<MapSize>,
    normalMaps: seq<MapSize>,
    refImageId: int,
    srcImageIds: seq<int>)

  /** The options PatchMatch::Check reads. */
  datatype Options = Options(
    depthMin: real,
    depthMax: real,
    windowRadius: int,
    sigmaSpatial: real,
    sigmaColor: real,
    numSamples: int,
    nccSigma: real,
    minTriangulationAngle: real,
    incidentAngleSigma: real,
    numIterations: int,
    geomConsistency: bool,
    geomConsistencyRegularizer: real,
    geomConsistencyMaxCost: real,
    filterMinNcc: real,
    filterMinTriangulationAngle: real,
    filterMinNumConsistent: int,
    filterGeomConsistencyMaxCost: real)

  // ---------------------------------------------------------------------
  // The option checks

  /** The twenty option requirements, in the order they are checked. */
  datatype Setting =
    | DepthMinBelowMax
    | DepthMinPositive
    | WindowRadiusAtMostMax
    | SigmaSpatialPositive
    | SigmaColorPositive
    | WindowRadiusPositive
    | NumSamplesPositive
    | NccSigmaPositive
    | MinTriangulationAngleNonNegative
    | MinTriangulationAngleBelow180
    | IncidentAngleSigmaPositive
    | NumIterationsPositive
    | GeomRegularizerNonNegative
    | GeomMaxCostNonNegative
    | FilterMinNccAtLeastMinusOne
    | FilterMinNccAtMostOne
    | FilterMinTriangulationAngleNonNegative
    | FilterMinTriangulationAngleAtMost180
    | FilterMinNumConsistentNonNegative
    | FilterGeomMaxCostNonNegative

  /** Whether the options meet requirement `q`, with `maxWindowRadius` the
      compile-time bound on the window radius. */
  predicate Holds(o: Options, maxWindowRadius: int, q: Setting) {
    match q
    case DepthMinBelowMax => o.depthMin < o.depthMax
    case DepthMinPositive => o.depthMin > 0.0
    case WindowRadiusAtMostMax => o.windowRadius <= maxWindowRadius
    case SigmaSpatialPositive => o.sigmaSpatial > 0.0
    case SigmaColorPositive => o.sigmaColor > 0.0
    case WindowRadiusPositive => o.windowRadius > 0
    case NumSamplesPositive => o.numSamples > 0
    case NccSigmaPositive => o.nccSigma > 0.0
    case MinTriangulationAngleNonNegative => o.minTriangulationAngle >= 0.0
    case MinTriangulationAngleBelow180 => o.minTriangulationAngle < 180.0
    case IncidentAngleSigmaPositive => o.incidentAngleSigma > 0.0
    case NumIterationsPositive => o.numIterations > 0
    case GeomRegularizerNonNegative => o.geomConsistencyRegularizer >= 0.0
    case GeomMaxCostNonNegative => o.geomConsistencyMaxCost >= 0.0
    case FilterMinNccAtLeastMinusOne => o.filterMinNcc >= -1.0
    case FilterMinNccAtMostOne => o.filterMinNcc <= 1.0
    case FilterMinTriangulationAngleNonNegative => o.filterMinTriangulationAngle >= 0.0
    case FilterMinTriangulationAngleAtMost180 => o.filterMinTriangulationAngle <= 180.0
    case FilterMinNumConsistentNonNegative => o.filterMinNumConsistent >= 0
    case FilterGeomMaxCostNonNegative => o.filterGeomConsistencyMaxCost >= 0.0
  }

  /** The order of the option CHECKs. */
  const SettingOrder: seq<Setting> := [
    DepthMinBelowMax, DepthMinPositive, WindowRadiusAtMostMax, SigmaSpatialPositive,
    SigmaColorPositive, WindowRadiusPositive, NumSamplesPositive, NccSigmaPositive,
    MinTriangulationAngleNonNegative, MinTriangulationAngleBelow180, IncidentAngleSigmaPositive,
    NumIterationsPositive, GeomRegularizerNonNegative, GeomMaxCostNonNegative,
    FilterMinNccAtLeastMinusOne, FilterMinNccAtMostOne, FilterMinTriangulationAngleNonNegative,
    FilterMinTriangulationAngleAtMost180, FilterMinNumConsistentNonNegative,
    FilterGeomMaxCostNonNegative]

  /** The option requirements, written as the ranges they confine each
      option to. */
  predicate OptionsValid(o: Options, maxWindowRadius: int) {
    0.0 < o.depthMin < o.depthMax &&
    0 < o.windowRadius <= maxWindowRadius &&
    o.sigmaSpatial > 0.0 && o.sigmaColor > 0.0 &&
    o.numSamples > 0 && o.nccSigma > 0.0 &&
    0.0 <= o.minTriangulationAngle < 180.0 &&
    o.incidentAngleSigma > 0.0 && o.numIterations > 0 &&
    o.geomConsistencyRegularizer >= 0.0 && o.geomConsistencyMaxCost >= 0.0 &&
    -1.0 <= o.filterMinNcc <= 1.0 &&
    0.0 <= o.filterMinTriangulationAngle <= 180.0 &&
    o.filterMinNumConsistent >= 0 && o.filterGeomConsistencyMaxCost >= 0.0
  }

  /** The first of the requirements `qs` the options fail, if any. */
  function FirstFailing(o: Options, maxWindowRadius: int, qs: seq<Setting>): (r: Option<Setting>)
    ensures r.None? <==> forall i :: 0 <= i < |qs| ==> Holds(o, maxWindowRadius, qs[i])
    ensures r.Some? ==> exists i :: 0 <= i < |qs| && qs[i] == r.value && !Holds(o, maxWindowRadius, qs[i]) &&
                                   (forall j :: 0 <= j < i ==> Holds(o, maxWindowRadius, qs[j]))
  {
    if |qs| == 0 then None
    else if !Holds(o, maxWindowRadius, qs[0]) then Some(qs[0])
    else
      var r := FirstFailing(o, maxWindowRadius, qs[1..]);
      assert forall i :: 1 <= i < |qs| ==> qs[1..][i - 1] == qs[i];
      if r.Some? then
        var i :| 0 <= i < |qs[1..]| && qs[1..][i] == r.value && !Holds(o, maxWindowRadius, qs[1..][i]) &&
                 (forall j :: 0 <= j < i ==> Holds(o, maxWindowRadius, qs[1..][j]));
        assert qs[i + 1] == r.value;
        r
      else r
  }

  /** The option CHECKs at the end of PatchMatch::Check: the first that
      fails, if any. */
  function OptionFailure(o: Options, maxWindowRadius: int): Option<Setting> {
    FirstFailing(o, maxWindowRadius, SettingOrder)
  }

  /** Every requirement is among the CHECKs. */
  lemma SettingOrderIsComplete(q: Setting)
    ensures q in SettingOrder
  {
  }

  /** Options in range meet every requirement. */
  lemma ValidMeetsEveryRequirement(o: Options, maxWindowRadius: int)
    requires OptionsValid(o, maxWindowRadius)
    ensures forall q :: Holds(o, maxWindowRadius, q)
  {
    forall q ensures Holds(o, maxWindowRadius, q) {
    }
  }

  /** Options meeting every requirement are in range. */
  lemma EveryRequirementMeansValid(o: Options, maxWindowRadius: int)
    requires forall q :: Holds(o, maxWindowRadius, q)
    ensures OptionsValid(o, maxWindowRadius)
  {
    var k := maxWindowRadius;
    assert Holds(o, k, DepthMinBelowMax) && Holds(o, k, DepthMinPositive);
    assert Holds(o, k, WindowRadiusAtMostMax) && Holds(o, k, WindowRadiusPositive);
    assert Holds(o, k, SigmaSpatialPositive) && Holds(o, k, SigmaColorPositive);
    assert Holds(o, k, NumSamplesPositive) && Holds(o, k, NccSigmaPositive);
    assert Holds(o, k, MinTriangulationAngleNonNegative) && Holds(o, k, MinTriangulationAngleBelow180);
    assert Holds(o, k, IncidentAngleSigmaPositive) && Holds(o, k, NumIterationsPositive);
    assert Holds(o, k, GeomRegularizerNonNegative) && Holds(o, k, GeomMaxCostNonNegative);
    assert Holds(o, k, FilterMinNccAtLeastMinusOne) && Holds(o, k, FilterMinNccAtMostOne);
    assert Holds(o, k, FilterMinTriangulationAngleNonNegative) && Holds(o, k, FilterMinTriangulationAngleAtMost180);
    assert Holds(o, k, FilterMinNumConsistentNonNegative) && Holds(o, k, FilterGeomMaxCostNonNegative);
  }

  /** The requirements in CHECK order all hold exactly when every
      requirement does. */
  lemma OrderHoldsIsEveryRequirement(o: Options, maxWindowRadius: int)
    ensures (forall i :: 0 <= i < |SettingOrder| ==> Holds(o, maxWindowRadius, SettingOrder[i])) <==>
            (forall q :: Holds(o, maxWindowRadius, q))
  {
    if forall i :: 0 <= i < |SettingOrder| ==> Holds(o, maxWindowRadius, SettingOrder[i]) {
      forall q ensures Holds(o, maxWindowRadius, q) {
        SettingOrderIsComplete(q);
      }
    }
  }

  /** The CHECKs pass exactly when every option lies in its range. */
  lemma OptionFailureIff(o: Options, maxWindowRadius: int)
    ensures OptionFailure(o, maxWindowRadius).None? <==> OptionsValid(o, maxWindowRadius)
  {
    OrderHoldsIsEveryRequirement(o, maxWindowRadius);
    if OptionsValid(o, maxWindowRadius) {
      ValidMeetsEveryRequirement(o, maxWindowRadius);
    }
    if forall q :: Holds(o, maxWindowRadius, q) {
      EveryRequirementMeansValid(o, maxWindowRadius);
    }
  }

  // ---------------------------------------------------------------------
  // The set of the problem's image ids

  predicate Ascending(s: seq<int>) {
    forall i, j :: 0 <= i < j < |s| ==> s[i] < s[j]
  }

  predicate Distinct(s: seq<int>) {
    forall i, j :: 0 <= i < j < |s| ==> s[i] != s[j]
  }

  /** std::set::insert into a set kept as its ascending sequence. */
  function Insert(s: seq<int>, x: int): seq<int> {
    if |s| == 0 || x < s[0] then [x] + s
    else if x == s[0] then s
    else [s[0]] + Insert(s[1..], x)
  }

  lemma ConsAscending(a: int, t: seq<int>)
    requires Ascending(t) && forall y :: y in t ==> a < y
    ensures Ascending([a] + t)
  {
    var r := [a] + t;
    forall i, j | 0 <= i < j < |r| ensures r[i] < r[j] {
      assert r[j] == t[j - 1] && t[j - 1] in t;
      if i > 0 {
        assert r[i] == t[i - 1];
      }
    }
  }

  /** The step of InsertIsSetInsert: x goes after the first element. */
  lemma InsertAfterFirst(s: seq<int>, x: int)
    requires Ascending(s) && |s| > 0 && x > s[0]
    requires Ascending(Insert(s[1..], x))
    requires forall y :: y in Insert(s[1..], x) <==> y in s[1..] || y == x
    requires |Insert(s[1..], x)| == if x in s[1..] then |s| - 1 else |s|
    ensures Ascending(Insert(s, x))
    ensures forall y :: y in Insert(s, x) <==> y in s || y == x
    ensures |Insert(s, x)| == if x in s then |s| else |s| + 1
  {
    var tail := s[1..];
    var t := Insert(tail, x);
    assert s == [s[0]] + tail;
    assert Insert(s, x) == [s[0]] + t;
    forall y | y in tail ensures s[0] < y {
      var j :| 0 <= j < |tail| && tail[j] == y;
      assert s[j + 1] == y;
    }
    ConsAscending(s[0], t);
  }

  /** Inserting keeps the sequence ascending, adds exactly x to its
      elements, and lengthens it by one exactly when x is new. */
  lemma {:induction false} InsertIsSetInsert(s: seq<int>, x: int)
    requires Ascending(s)
    ensures Ascending(Insert(s, x))
    ensures forall y :: y in Insert(s, x) <==> y in s || y == x
    ensures |Insert(s, x)| == if x in s then |s| else |s| + 1
  {
    if |s| == 0 || x < s[0] {
      assert x !in s;
      ConsAscending(x, s);
    } else if x != s[0] {
      InsertIsSetInsert(s[1..], x);
      InsertAfterFirst(s, x);
    }
  }

  /** Taking the last element off. */
  lemma DistinctSnoc(init: seq<int>, last: int)
    ensures Distinct(init + [last]) <==> Distinct(init) && last !in init
  {
    var s := init + [last];
    if Distinct(init) && last !in init {
      forall i, j | 0 <= i < j < |s|
        ensures s[i] != s[j]
      {
        if j == |s| - 1 {
          assert s[i] == init[i];
        } else {
          assert s[i] == init[i] && s[j] == init[j];
        }
      }
    }
    if Distinct(s) {
      forall i, j | 0 <= i < j < |init|
        ensures init[i] != init[j]
      {
        assert init[i] == s[i] && init[j] == s[j];
      }
      forall i | 0 <= i < |init|
        ensures init[i] != last
      {
        assert init[i] == s[i] && last == s[|s| - 1] && i < |s| - 1;
      }
    }
  }

  /** The std::set built from the ids in s, in its iteration order. */
  function SetOf(s: seq<int>): (r: seq<int>)
    ensures Ascending(r) && forall y :: y in r <==> y in s
    ensures |r| <= |s|
    ensures |r| == |s| <==> Distinct(s)
  {
    if |s| == 0 then []
    else
      var init := s[..|s| - 1];
      var last := s[|s| - 1];
      assert s == init + [last];
      InsertIsSetInsert(SetOf(init), last);
      DistinctSnoc(init, last);
      Insert(SetOf(init), last)
  }

  /** unique_image_ids: the sources, then the reference. */
  function UniqueIds(p: Input): (r: seq<int>)
    ensures Ascending(r)
    ensures forall y :: y in r <==> y in p.srcImageIds || y == p.refImageId
  {
    InsertIsSetInsert(SetOf(p.srcImageIds), p.refImageId);
    Insert(SetOf(p.srcImageIds), p.refImageId)
  }

  /** The set of the sources and the reference has one more element than
      there are sources exactly when the sources are distinct and do not
      include the reference. */
  lemma UniqueIdsSizeCheck(p: Input)
    ensures |UniqueIds(p)| == |p.srcImageIds| + 1 <==>
      Distinct(p.srcImageIds) && p.refImageId !in p.srcImageIds
  {
    InsertIsSetInsert(SetOf(p.srcImageIds), p.refImageId);
  }

  // ---------------------------------------------------------------------
  // The problem checks

  /** The requirements on the problem, in the order they are checked; those
      of one image carry its id. */
  datatype Requirement =
    | DepthMapCount
    | NormalMapCount
    | SourcesNonEmpty
    | DistinctImages
    | ImageRequirement(id: int, check: ImageCheck)
    | NormalMapWidth
    | NormalMapHeight
    | BadOption(setting: Setting)

  /** The checks of the loop body for one image id, in order. */
  datatype ImageCheck =
    | IdNonNegative
    | IdBelowImageCount
    | WidthPositive
    | HeightPositive
    | SingleChannel
    | IdBelowDepthMapCount
    | DepthMapWidth
    | DepthMapHeight

  datatype Verdict = Accepted | Rejected(failed: Requirement)

  /** The requirements on one image of the problem. */
  predicate ImageOk(p: Input, geom: bool, id: int) {
    0 <= id < |p.images| &&
    p.images[id].width > 0 && p.images[id].height > 0 && p.images[id].channels == 1 &&
    (geom ==> id < |p.depthMaps| &&
              p.depthMaps[id].width == p.images[id].width &&
              p.depthMaps[id].height == p.images[id].height)
  }

  /** The checks of the loop body for one image id: the first that fails. */
  function ImageFailure(p: Input, geom: bool, id: int): (r: Option<ImageCheck>)
    ensures r.None? <==> ImageOk(p, geom, id)
  {
    if id < 0 then Some(IdNonNegative)
    else if id >= |p.images| then Some(IdBelowImageCount)
    else if p.images[id].width <= 0 then Some(WidthPositive)
    else if p.images[id].height <= 0 then Some(HeightPositive)
    else if p.images[id].channels != 1 then Some(SingleChannel)
    else if geom && id >= |p.depthMaps| then Some(IdBelowDepthMapCount)
    else if geom && p.images[id].width != p.depthMaps[id].width then Some(DepthMapWidth)
    else if geom && p.images[id].height != p.depthMaps[id].height then Some(DepthMapHeight)
    else None
  }

  /** The loop over the ids: the first failing check of the first image
      that fails one. */
  function FirstImageFailure(p: Input, geom: bool, ids: seq<int>): (r: Option<Requirement>)
    ensures r.None? <==> forall i :: 0 <= i < |ids| ==> ImageOk(p, geom, ids[i])
    ensures r.Some? ==> exists i :: 0 <= i < |ids| && ImageFailure(p, geom, ids[i]).Some? &&
                                   r.value == ImageRequirement(ids[i], ImageFailure(p, geom, ids[i]).value) &&
                                   (forall j :: 0 <= j < i ==> ImageOk(p, geom, ids[j]))
  {
    if |ids| == 0 then None
    else if ImageFailure(p, geom, ids[0]).Some? then Some(ImageRequirement(ids[0], ImageFailure(p, geom, ids[0]).value))
    else
      var r := FirstImageFailure(p, geom, ids[1..]);
      assert forall i :: 1 <= i < |ids| ==> ids[1..][i - 1] == ids[i];
      if r.Some? then
        var i :| 0 <= i < |ids[1..]| && ImageFailure(p, geom, ids[1..][i]).Some? &&
                 r.value == ImageRequirement(ids[1..][i], ImageFailure(p, geom, ids[1..][i]).value) &&
                 (forall j :: 0 <= j < i ==> ImageOk(p, geom, ids[1..][j]));
        assert ids[1..][i] == ids[i + 1];
        r
      else r
  }

  /** PatchMatch::Check with `maxWindowRadius` for kMaxWindowRadius. */
  function Check(o: Options, maxWindowRadius: int, p: Input): (v: Verdict)
  {
    if o.geomConsistency && |p.depthMaps| != |p.images| then Rejected(DepthMapCount)
    else if o.geomConsistency && |p.normalMaps| != |p.images| then Rejected(NormalMapCount)
    else if |p.srcImageIds| == 0 then Rejected(SourcesNonEmpty)
    else if |p.srcImageIds| + 1 != |UniqueIds(p)| then Rejected(DistinctImages)
    else
      match FirstImageFailure(p, o.geomConsistency, UniqueIds(p))
      case Some(q) => Rejected(q)
      case None =>
        var ref := p.refImageId;
        assert ref in UniqueIds(p);
        if o.geomConsistency && p.images[ref].width != p.normalMaps[ref].width then Rejected(NormalMapWidth)
        else if o.geomConsistency && p.images[ref].height != p.normalMaps[ref].height then Rejected(NormalMapHeight)
        else
          match OptionFailure(o, maxWindowRadius)
          case Some(q) => Rejected(BadOption(q))
          case None => Accepted
  }

  /** The sources of a problem are usable with n images: there is at least
      one, they are distinct, the reference is not among them, and every id
      is in [0, n). */
  predicate SourcesWellFormed(n: int, ref: int, src: seq<int>) {
    |src| > 0 && Distinct(src) && ref !in src &&
    0 <= ref < n && forall i :: 0 <= i < |src| ==> 0 <= src[i] < n
  }

  /** Every requirement, stated on the problem directly. */
  predicate Valid(o: Options, maxWindowRadius: int, p: Input) {
    var geom := o.geomConsistency;
    (geom ==> |p.depthMaps| == |p.images| && |p.normalMaps| == |p.images|) &&
    SourcesWellFormed(|p.images|, p.refImageId, p.srcImageIds) &&
    ImageOk(p, geom, p.refImageId) &&
    (forall i :: 0 <= i < |p.srcImageIds| ==> ImageOk(p, geom, p.srcImageIds[i])) &&
    (geom ==> 0 <= p.refImageId < |p.normalMaps| && 0 <= p.refImageId < |p.images| &&
              p.normalMaps[p.refImageId].width == p.images[p.refImageId].width &&
              p.normalMaps[p.refImageId].height == p.images[p.refImageId].height) &&
    OptionsValid(o, maxWindowRadius)
  }

  /** Every image of the problem passes the loop exactly when the reference
      and every source do. */
  lemma ImagesPassIff(p: Input, geom: bool)
    ensures FirstImageFailure(p, geom, UniqueIds(p)).None? <==>
      ImageOk(p, geom, p.refImageId) &&
      forall i :: 0 <= i < |p.srcImageIds| ==> ImageOk(p, geom, p.srcImageIds[i])
  {
    var ids := UniqueIds(p);
    if FirstImageFailure(p, geom, ids).None? {
      SetElementsPass(p, geom, ids);
    } else {
      var k :| 0 <= k < |ids| && !ImageOk(p, geom, ids[k]);
      assert ids[k] in ids;
    }
  }

  /** When every id of `ids` passes, so do the reference and the sources,
      all of which are in `ids`. */
  lemma SetElementsPass(p: Input, geom: bool, ids: seq<int>)
    requires ids == UniqueIds(p)
    requires forall k :: 0 <= k < |ids| ==> ImageOk(p, geom, ids[k])
    ensures ImageOk(p, geom, p.refImageId)
    ensures forall i :: 0 <= i < |p.srcImageIds| ==> ImageOk(p, geom, p.srcImageIds[i])
  {
    assert p.refImageId in ids;
    forall i | 0 <= i < |p.srcImageIds|
      ensures ImageOk(p, geom, p.srcImageIds[i])
    {
      assert p.srcImageIds[i] in ids;
    }
  }

  /** The validator accepts exactly the problems and options that meet every
      requirement. */
  lemma CheckAcceptsExactlyValid(o: Options, maxWindowRadius: int, p: Input)
    ensures Check(o, maxWindowRadius, p) == Accepted <==> Valid(o, maxWindowRadius, p)
  {
    UniqueIdsSizeCheck(p);
    ImagesPassIff(p, o.geomConsistency);
    OptionFailureIff(o, maxWindowRadius);
  }

  /** Options outside the ranges the estimation relies on are rejected: an
      empty or non-positive depth range, a window radius outside
      (0, kMaxWindowRadius], a filter NCC outside [-1, 1] and a
      triangulation angle outside [0, 180). */
  lemma CheckRejectsBadOptions(o: Options, maxWindowRadius: int, p: Input)
    requires o.depthMin >= o.depthMax || o.depthMin <= 0.0 ||
             o.windowRadius <= 0 || o.windowRadius > maxWindowRadius ||
             o.filterMinNcc < -1.0 || o.filterMinNcc > 1.0 ||
             o.minTriangulationAngle < 0.0 || o.minTriangulationAngle >= 180.0
    ensures Check(o, maxWindowRadius, p).Rejected?
  {
    CheckAcceptsExactlyValid(o, maxWindowRadius, p);
  }

  /** A problem whose checks all pass but whose options do not is rejected
      for the first option requirement that fails. */
  lemma CheckReportsFirstBadOption(o: Options, maxWindowRadius: int, p: Input, q: Setting)
    requires Check(o, maxWindowRadius, p) == Rejected(BadOption(q))
    ensures exists i :: 0 <= i < |SettingOrder| && SettingOrder[i] == q && !Holds(o, maxWindowRadius, q) &&
                        (forall j :: 0 <= j < i ==> Holds(o, maxWindowRadius, SettingOrder[j]))
  {
    assert OptionFailure(o, maxWindowRadius) == Some(q);
  }

  // ---------------------------------------------------------------------
  // Problems from the configuration file

  /** `__all__` with the reference among n >= 2 images makes well-formed
      sources. */
  lemma AllSourcesWellFormed(n: nat, ref: int)
    requires 0 <= ref < n && n >= 2
    ensures SourcesWellFormed(n, ref, AllSources(n, ref))
  {
    var src := AllSources(n, ref);
    assert |src| == n - 1;
  }

  /** `__auto__ k` with k > 0, over an overlap map that does not list the
      reference and holds at least one image, all in [0, n), makes
      well-formed sources. */
  lemma AutoSourcesWellFormed(n: nat, ref: int, overlap: Overlap, k: nat)
    requires 0 <= ref < n && k > 0 && |overlap| > 0
    requires forall i :: 0 <= i < |overlap| ==> 0 <= overlap[i].imageId < n && overlap[i].imageId != ref
    ensures SourcesWellFormed(n, ref, Ids(AutoChoice(overlap, k)))
  {
    var c := AutoChoice(overlap, k);
    var src := Ids(c);
    if k >= |overlap| {
      assert c == overlap;
    } else {
      AutoTakesTopCounts(overlap, k);
      forall i | 0 <= i < |c|
        ensures 0 <= c[i].imageId < n && c[i].imageId != ref
      {
        assert c[i] in multiset(c);
        assert c[i] in multiset(overlap);
        var j :| 0 <= j < |overlap| && overlap[j] == c[i];
      }
    }
    forall i, j | 0 <= i < j < |src|
      ensures src[i] != src[j]
    {
      if k < |overlap| {
        assert DistinctIds(c);
      }
    }
    assert forall i :: 0 <= i < |src| ==> src[i] != ref;
  }
}
