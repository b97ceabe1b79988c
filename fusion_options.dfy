/** The options of the stereo fusion (StereoFusion::Options in
    src/mvs/fusion.cc) and the validator that aborts on the first bad one. */
module FusionOptions {

  datatype Options = Options(
    minNumPixels: int,
    maxNumPixels: int,
    maxTraversalDepth: int,
    maxReprojError: real,
    maxDepthError: real,
    maxNormalError: real)

  /** The six requirements, in the order the validator checks them. */
  datatype Requirement =
    | MinNumPixelsNonNegative
    | MinNotAboveMaxNumPixels
    | TraversalDepthPositive
    | ReprojErrorNonNegative
    | DepthErrorNonNegative
    | NormalErrorNonNegative

  /** The outcome of a validation: accepted, or the requirement whose check
      aborts first. */
  datatype Verdict = Accepted | Rejected(failed: Requirement)

  /** Whether the options meet requirement `q`. */
  predicate Holds(o: Options, q: Requirement) {
    match q
    case MinNumPixelsNonNegative => o.minNumPixels >= 0
    case MinNotAboveMaxNumPixels => o.minNumPixels <= o.maxNumPixels
    case TraversalDepthPositive => o.maxTraversalDepth > 0
    case ReprojErrorNonNegative => o.maxReprojError >= 0.0
    case DepthErrorNonNegative => o.maxDepthError >= 0.0
    case NormalErrorNonNegative => o.maxNormalError >= 0.0
  }

  /** The position of a requirement in the validator. */
  function Rank(q: Requirement): nat {
    match q
    case MinNumPixelsNonNegative => 0
    case MinNotAboveMaxNumPixels => 1
    case TraversalDepthPositive => 2
    case ReprojErrorNonNegative => 3
    case DepthErrorNonNegative => 4
    case NormalErrorNonNegative => 5
  }

  /** Options::Check: the six CHECK macros in order; the first that fails
      aborts, and that is the requirement reported. */
  function Check(o: Options): (v: Verdict)
    ensures v == Accepted <==>
      (0 <= o.minNumPixels <= o.maxNumPixels && o.maxTraversalDepth > 0 &&
       o.maxReprojError >= 0.0 && o.maxDepthError >= 0.0 && o.maxNormalError >= 0.0)
    ensures v.Rejected? ==>
      !Holds(o, v.failed) && forall q :: Rank(q) < Rank(v.failed) ==> Holds(o, q)
  {
    if o.minNumPixels < 0 then Rejected(MinNumPixelsNonNegative)
    else if o.minNumPixels > o.maxNumPixels then Rejected(MinNotAboveMaxNumPixels)
    else if o.maxTraversalDepth <= 0 then Rejected(TraversalDepthPositive)
    else if o.maxReprojError < 0.0 then Rejected(ReprojErrorNonNegative)
    else if o.maxDepthError < 0.0 then Rejected(DepthErrorNonNegative)
    else if o.maxNormalError < 0.0 then Rejected(NormalErrorNonNegative)
    else Accepted
  }

  /** Accepted options meet every requirement, and options meeting every
      requirement are accepted. */
  lemma CheckAcceptsExactlyValid(o: Options)
    ensures Check(o) == Accepted <==> forall q :: Holds(o, q)
  {
    if forall q :: Holds(o, q) {
      assert Holds(o, MinNumPixelsNonNegative) && Holds(o, MinNotAboveMaxNumPixels);
      assert Holds(o, TraversalDepthPositive) && Holds(o, ReprojErrorNonNegative);
      assert Holds(o, DepthErrorNonNegative) && Holds(o, NormalErrorNonNegative);
    }
  }

  /** A lower bound of zero pixels per fused point is accepted. */
  lemma CheckAcceptsZeroMinNumPixels(maxNumPixels: int, maxTraversalDepth: int)
    requires maxNumPixels >= 0 && maxTraversalDepth > 0
    ensures Check(Options(0, maxNumPixels, maxTraversalDepth, 0.0, 0.0, 0.0)) == Accepted
  {
  }
}
