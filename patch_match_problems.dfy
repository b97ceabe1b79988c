/** ReadPatchMatchProblems (src/mvs/patch_match.cc): the configuration file
    of the patch-match stereo, read line by line into problems, each a
    reference image and its source images. */
module PatchMatchProblems {
  import opened ConfigText
  import FusionSpec

  // ---------------------------------------------------------------------
  // The workspace the reader consults

  /** One entry of an image's shared-point map: another image and the
      number of 3D points the two both see. */
  datatype Shared = Shared(imageId: int, numShared: int)

  predicate AscendingIds(s: seq<Shared>) {
    forall i, j :: 0 <= i < j < |s| ==> s[i].imageId < s[j].imageId
  }

  /** A std::map<int, int> from image id to count, in its iteration order:
      ascending ids. */
  type Overlap = s: seq<Shared> | AscendingIds(s) witness []

  /** What the reader looks up in the model: the image ids by name
      (Model::GetImageId), the number of images and, by image id, the
      shared-point maps (Model::ComputeSharedPoints). */
  datatype Workspace = Workspace(imageIds: map<string, int>, numImages: nat, sharedPoints: seq<Overlap>)

  datatype Problem = Problem(refImageId: int, srcImageIds: seq<int>)

  /** The ways the reader aborts. */
  datatype Failure =
    | UnknownImage(name: string)          // GetImageId of a name the model lacks
    | BadSourceCount(text: string)        // bad_lexical_cast of the count after __auto__
    | NoSharedPoints(refImageId: int)     // shared_points.at(ref) out of range
    | NoSourceImages(refImageId: int)     // "Need at least one source image"

  datatype Outcome<T> = Done(value: T) | Aborted(failure: Failure)

  /** The problems read so far and the ids of the images whose inputs are
      to be loaded. */
  datatype Parsed = Parsed(problems: seq<Problem>, usedImageIds: set<int>)

  function GetImageId(ws: Workspace, name: string): Outcome<int> {
    if name in ws.imageIds then Done(ws.imageIds[name]) else Aborted(UnknownImage(name))
  }

  function Elements(s: seq<int>): set<int> {
    set x | x in s
  }

  function Ids(s: seq<Shared>): seq<int> {
    seq(|s|, i requires 0 <= i < |s| => s[i].imageId)
  }

  // ---------------------------------------------------------------------
  // The three source-selection rules

  const AllKeyword := "__all__"
  const AutoKeyword := "__auto__"

  datatype Rule = UseAll | UseAuto(count: string) | UseNamed

  /** Which rule a source list asks for: exactly `__all__`, exactly
      `__auto__` and a count, or anything else, which is a list of names. */
  function RuleOf(names: seq<string>): Rule {
    if |names| == 1 && names[0] == AllKeyword then UseAll
    else if |names| == 2 && names[0] == AutoKeyword then UseAuto(names[1])
    else UseNamed
  }

  /** `__all__`: the ids below n other than the reference, ascending. */
  function AllSources(n: nat, ref: int): (ids: seq<int>)
    ensures forall i :: 0 <= i < |ids| ==> 0 <= ids[i] < n && ids[i] != ref
    ensures forall i, j :: 0 <= i < j < |ids| ==> ids[i] < ids[j]
    ensures forall id :: id in ids <==> 0 <= id < n && id != ref
    ensures |ids| == if 0 <= ref < n then n - 1 else n
  {
    if n == 0 then [] else AllSources(n - 1, ref) + (if n - 1 == ref then [] else [n - 1])
  }

  /** The first index of a largest count at or after `lo`. */
  function MaxIndex(s: seq<Shared>, lo: nat): (m: nat)
    requires lo < |s|
    ensures lo <= m < |s|
    ensures forall j :: lo <= j < |s| ==> s[j].numShared <= s[m].numShared
    ensures forall j :: lo <= j < m ==> s[j].numShared < s[m].numShared
    decreases |s| - lo
  {
    if lo == |s| - 1 then lo
    else
      var m := MaxIndex(s, lo + 1);
      if s[m].numShared > s[lo].numShared then m else lo
  }

  function SwapAt(s: seq<Shared>, i: nat, j: nat): (t: seq<Shared>)
    requires i < |s| && j < |s|
    ensures |t| == |s| && t[i] == s[j] && t[j] == s[i]
    ensures forall p :: 0 <= p < |s| && p != i && p != j ==> t[p] == s[p]
  {
    s[i := s[j]][j := s[i]]
  }

  /** The selection that std::partial_sort(first, first + k, last) with a
      "larger count first" comparison performs, from position i on: the
      largest remaining count is swapped into place, one position at a time.
      Ties between equal counts go to the earliest entry; partial_sort
      leaves that choice open. */
  function Selected(s: seq<Shared>, i: nat, k: nat): (r: seq<Shared>)
    requires i <= k <= |s|
    ensures |r| == |s|
    decreases k - i
  {
    if i == k then s else Selected(SwapAt(s, i, MaxIndex(s, i)), i + 1, k)
  }

  function PartialSorted(s: seq<Shared>, k: nat): (r: seq<Shared>)
    requires k <= |s|
    ensures |r| == |s|
  {
    Selected(s, 0, k)
  }

  /** The entries `__auto__ k` picks from an overlap map: all of them, in id
      order, when k is at least their number; otherwise the first k of the
      partial sort. */
  function AutoChoice(overlap: Overlap, k: nat): seq<Shared> {
    if k >= |overlap| then overlap else PartialSorted(overlap, k)[..k]
  }

  /** `__auto__ count`: the count is parsed as an int and converted to
      size_t, then the choice is made among the images overlapping the
      reference. */
  function AutoSources(ws: Workspace, ref: int, count: string): Outcome<seq<int>> {
    match ParseInt(count)
    case None => Aborted(BadSourceCount(count))
    case Some(k) =>
      if 0 <= ref < |ws.sharedPoints| then Done(Ids(AutoChoice(ws.sharedPoints[ref], FusionSpec.SizeT(k))))
      else Aborted(NoSharedPoints(ref))
  }

  /** An explicit list: the id of each name, in order; the first unknown
      name aborts. */
  function NamedSources(ws: Workspace, names: seq<string>): (r: Outcome<seq<int>>)
    ensures r.Done? ==> |r.value| == |names|
    ensures r.Done? ==> forall i :: 0 <= i < |names| ==> names[i] in ws.imageIds && r.value[i] == ws.imageIds[names[i]]
  {
    if |names| == 0 then Done([])
    else
      match GetImageId(ws, names[0])
      case Aborted(f) => Aborted(f)
      case Done(id) => Then([id], NamedSources(ws, names[1..]))
  }

  /** `prefix` before the ids of a successful outcome. */
  function Then(prefix: seq<int>, o: Outcome<seq<int>>): Outcome<seq<int>> {
    match o
    case Done(rest) => Done(prefix + rest)
    case Aborted(f) => Aborted(f)
  }

  function Sources(ws: Workspace, ref: int, names: seq<string>): Outcome<seq<int>> {
    match RuleOf(names)
    case UseAll => Done(AllSources(ws.numImages, ref))
    case UseAuto(count) => AutoSources(ws, ref, count)
    case UseNamed => NamedSources(ws, names)
  }

  /** The images a selection adds to used_image_ids: its sources under
      `__all__` and `__auto__`, none under an explicit list. */
  function Marked(names: seq<string>, src: seq<int>): set<int> {
    if RuleOf(names).UseNamed? then {} else Elements(src)
  }

  /** A pair read into a problem, with the images it adds to
      used_image_ids. */
  datatype Entry = Entry(problem: Problem, marked: set<int>)

  /** One reference/source-list pair: the reference's id, then the sources,
      which must not be empty. */
  function MakeEntry(ws: Workspace, refName: string, line: string): (r: Outcome<Entry>)
    ensures r.Done? ==> |r.value.problem.srcImageIds| > 0
    ensures r.Done? ==> refName in ws.imageIds && r.value.problem.refImageId == ws.imageIds[refName]
    ensures r.Done? ==> Sources(ws, r.value.problem.refImageId, CsvToVector(line)) == Done(r.value.problem.srcImageIds)
    ensures r.Done? ==> r.value.marked == Marked(CsvToVector(line), r.value.problem.srcImageIds)
  {
    match GetImageId(ws, refName)
    case Aborted(f) => Aborted(f)
    case Done(ref) =>
      var names := CsvToVector(line);
      match Sources(ws, ref, names)
      case Aborted(f) => Aborted(f)
      case Done(src) => if |src| == 0 then Aborted(NoSourceImages(ref)) else Done(Entry(Problem(ref, src), Marked(names, src)))
  }

  /** How a pair of lines becomes an entry. The line loop below is written
      for any such reading, so that its properties do not depend on the
      selection rules; `ReaderOf` is the one the source uses. */
  type PairReader = (string, string) -> Outcome<Entry>

  function ReaderOf(ws: Workspace): PairReader {
    (refName: string, line: string) => MakeEntry(ws, refName, line)
  }

  function ReadPair(make: PairReader, acc: Parsed, refName: string, line: string): Outcome<Parsed> {
    match make(refName, line)
    case Aborted(f) => Aborted(f)
    case Done(e) =>
      Done(Parsed(acc.problems + [e.problem], acc.usedImageIds + {e.problem.refImageId} + e.marked))
  }

  // ---------------------------------------------------------------------
  // The line loop

  /** A trimmed line the reader skips: empty, or a comment. */
  predicate Ignored(line: string) {
    |line| == 0 || line[0] == '#'
  }

  /** The reader between lines: the pending reference name (empty when the
      next meaningful line names a reference) and what was read. */
  datatype Reader = Reader(refName: string, parsed: Parsed)

  const Start := Reader([], Parsed([], {}))

  /** One getline iteration. */
  function Feed(make: PairReader, rd: Reader, raw: string): Outcome<Reader> {
    var line := Trim(raw);
    if Ignored(line) then Done(rd)
    else if |rd.refName| == 0 then Done(rd.(refName := line))
    else
      match ReadPair(make, rd.parsed, rd.refName, line)
      case Aborted(f) => Aborted(f)
      case Done(p) => Done(Reader([], p))
  }

  function FeedFrom(make: PairReader, rd: Reader, lines: seq<string>, i: nat): Outcome<Reader>
    requires i <= |lines|
    decreases |lines| - i
  {
    if i == |lines| then Done(rd)
    else
      match Feed(make, rd, lines[i])
      case Aborted(f) => Aborted(f)
      case Done(next) => FeedFrom(make, next, lines, i + 1)
  }

  function ParsedOf(o: Outcome<Reader>): Outcome<Parsed> {
    match o
    case Aborted(f) => Aborted(f)
    case Done(rd) => Done(rd.parsed)
  }

  /** The whole file; a reference name left pending at its end is dropped. */
  function ReadConfig(ws: Workspace, lines: seq<string>): Outcome<Parsed> {
    ParsedOf(FeedFrom(ReaderOf(ws), Start, lines, 0))
  }

  // ---------------------------------------------------------------------
  // A reference reading: the meaningful lines taken two at a time

  /** The trimmed lines that are neither empty nor comments, in order. */
  function Meaningful(lines: seq<string>): (r: seq<string>)
    ensures forall k :: 0 <= k < |r| ==> !Ignored(r[k])
  {
    if |lines| == 0 then []
    else (if Ignored(Trim(lines[0])) then [] else [Trim(lines[0])]) + Meaningful(lines[1..])
  }

  /** Reads pairs (reference, sources) until fewer than two lines remain. */
  function ReadPairs(make: PairReader, acc: Parsed, m: seq<string>): Outcome<Parsed>
    decreases |m|
  {
    if |m| < 2 then Done(acc)
    else
      match ReadPair(make, acc, m[0], m[1])
      case Aborted(f) => Aborted(f)
      case Done(next) => ReadPairs(make, next, m[2..])
  }

  function PendingName(refName: string): seq<string> {
    if |refName| == 0 then [] else [refName]
  }

  lemma MeaningfulStep(lines: seq<string>, i: nat)
    requires i < |lines|
    ensures Meaningful(lines[i..]) ==
      (if Ignored(Trim(lines[i])) then [] else [Trim(lines[i])]) + Meaningful(lines[i + 1..])
  {
    assert lines[i..][0] == lines[i] && lines[i..][1..] == lines[i + 1..];
  }

  /** One line fed to the reader: a failure is the pairwise reading's
      failure, and otherwise both sides move on to the next line. */
  lemma FeedStepIsPairwise(make: PairReader, rd: Reader, lines: seq<string>, i: nat)
    requires i < |lines|
    ensures Feed(make, rd, lines[i]).Aborted? ==>
      ParsedOf(FeedFrom(make, rd, lines, i)) ==
      ReadPairs(make, rd.parsed, PendingName(rd.refName) + Meaningful(lines[i..]))
    ensures Feed(make, rd, lines[i]).Done? ==>
      var next := Feed(make, rd, lines[i]).value;
      FeedFrom(make, rd, lines, i) == FeedFrom(make, next, lines, i + 1) &&
      ReadPairs(make, rd.parsed, PendingName(rd.refName) + Meaningful(lines[i..])) ==
      ReadPairs(make, next.parsed, PendingName(next.refName) + Meaningful(lines[i + 1..]))
  {
    var line := Trim(lines[i]);
    MeaningfulStep(lines, i);
    var rest := Meaningful(lines[i + 1..]);
    if Ignored(line) {
      assert Meaningful(lines[i..]) == rest;
    } else if |rd.refName| == 0 {
      assert PendingName(rd.refName) + Meaningful(lines[i..]) == PendingName(line) + rest;
    } else {
      var m := [rd.refName] + ([line] + rest);
      assert PendingName(rd.refName) + Meaningful(lines[i..]) == m;
      assert m[0] == rd.refName && m[1] == line && m[2..] == rest;
      assert PendingName([]) + rest == rest;
    }
  }

  lemma {:induction false} FeedFromIsPairwise(make: PairReader, rd: Reader, lines: seq<string>, i: nat)
    requires i <= |lines|
    ensures ParsedOf(FeedFrom(make, rd, lines, i)) ==
            ReadPairs(make, rd.parsed, PendingName(rd.refName) + Meaningful(lines[i..]))
    decreases |lines| - i
  {
    if i == |lines| {
      assert lines[i..] == [];
    } else {
      FeedStepIsPairwise(make, rd, lines, i);
      if Feed(make, rd, lines[i]).Done? {
        FeedFromIsPairwise(make, Feed(make, rd, lines[i]).value, lines, i + 1);
      }
    }
  }

  /** The line loop reads exactly the meaningful lines, taken as pairs of a
      reference name and a source list; comments and blank lines change
      nothing, and an unpaired last name is dropped. */
  lemma ReadConfigIsPairwise(ws: Workspace, lines: seq<string>)
    ensures ReadConfig(ws, lines) == ReadPairs(ReaderOf(ws), Parsed([], {}), Meaningful(lines))
  {
    assert lines[0..] == lines;
    assert PendingName(Start.refName) + Meaningful(lines[0..]) == Meaningful(lines);
    FeedFromIsPairwise(ReaderOf(ws), Start, lines, 0);
  }

  /** The number of complete pairs among m, half its length rounded down. */
  function NumPairs(m: seq<string>): (n: nat)
    ensures 2 * n <= |m| <= 2 * n + 1
    ensures n == |m| / 2
  {
    if |m| < 2 then 0 else 1 + NumPairs(m[2..])
  }

  /** The entry of the j-th pair of meaningful lines. */
  function PairEntry(make: PairReader, m: seq<string>, j: nat): Outcome<Entry>
    requires 2 * j + 1 < |m|
  {
    make(m[2 * j], m[2 * j + 1])
  }

  lemma PairEntryOfTail(make: PairReader, m: seq<string>, j: nat)
    requires |m| >= 2 && 1 <= j && 2 * j + 1 < |m|
    ensures PairEntry(make, m[2..], j - 1) == PairEntry(make, m, j)
  {
    assert m[2..][2 * (j - 1)] == m[2 * j] && m[2..][2 * (j - 1) + 1] == m[2 * j + 1];
  }

  /** The problems of the pairs of m, in order, or the first failure. */
  function PairProblems(make: PairReader, m: seq<string>): Outcome<seq<Problem>>
    decreases |m|
  {
    if |m| < 2 then Done([])
    else
      match make(m[0], m[1])
      case Aborted(f) => Aborted(f)
      case Done(e) =>
        match PairProblems(make, m[2..])
        case Aborted(f) => Aborted(f)
        case Done(ps) => Done([e.problem] + ps)
  }

  lemma {:induction false} ReadPairsAppendsPairProblems(make: PairReader, acc: Parsed, m: seq<string>)
    ensures ReadPairs(make, acc, m).Done? <==> PairProblems(make, m).Done?
    ensures ReadPairs(make, acc, m).Done? ==>
      ReadPairs(make, acc, m).value.problems == acc.problems + PairProblems(make, m).value
    decreases |m|
  {
    if |m| >= 2 {
      match make(m[0], m[1])
      case Aborted(f) =>
        assert ReadPairs(make, acc, m) == Aborted(f);
        assert PairProblems(make, m) == Aborted(f);
      case Done(e) =>
        var next := Parsed(acc.problems + [e.problem], acc.usedImageIds + {e.problem.refImageId} + e.marked);
        assert ReadPairs(make, acc, m) == ReadPairs(make, next, m[2..]);
        ReadPairsAppendsPairProblems(make, next, m[2..]);
        match PairProblems(make, m[2..])
        case Aborted(f) =>
          assert PairProblems(make, m) == Aborted(f);
        case Done(ps) =>
          assert PairProblems(make, m) == Done([e.problem] + ps);
          assert next.problems + ps == acc.problems + ([e.problem] + ps);
    }
  }

  lemma {:induction false} PairProblemsByIndex(make: PairReader, m: seq<string>)
    requires PairProblems(make, m).Done?
    ensures |PairProblems(make, m).value| == NumPairs(m)
    ensures forall j :: 0 <= j < NumPairs(m) ==>
      PairEntry(make, m, j).Done? && PairEntry(make, m, j).value.problem == PairProblems(make, m).value[j]
    decreases |m|
  {
    if |m| >= 2 {
      var tail := m[2..];
      assert PairEntry(make, m, 0) == make(m[0], m[1]);
      var e := PairEntry(make, m, 0).value;
      PairProblemsByIndex(make, tail);
      var ps := PairProblems(make, tail).value;
      assert PairProblems(make, m).value == [e.problem] + ps;
      forall j | 1 <= j < NumPairs(m)
        ensures PairEntry(make, m, j).Done? && PairEntry(make, m, j).value.problem == PairProblems(make, m).value[j]
      {
        PairEntryOfTail(make, m, j);
        assert ([e.problem] + ps)[j] == ps[j - 1];
      }
    }
  }

  lemma {:induction false} PairProblemsDoneIff(make: PairReader, m: seq<string>)
    ensures PairProblems(make, m).Done? <==> forall j :: 0 <= j < NumPairs(m) ==> PairEntry(make, m, j).Done?
    decreases |m|
  {
    if |m| >= 2 {
      var tail := m[2..];
      assert PairEntry(make, m, 0) == make(m[0], m[1]);
      PairProblemsDoneIff(make, tail);
      if PairEntry(make, m, 0).Done? {
        if PairProblems(make, m).Done? {
          forall j | 1 <= j < NumPairs(m)
            ensures PairEntry(make, m, j).Done?
          {
            PairEntryOfTail(make, m, j);
          }
        } else {
          var j :| 0 <= j < NumPairs(tail) && !PairEntry(make, tail, j).Done?;
          PairEntryOfTail(make, m, j + 1);
        }
      }
    }
  }

  /** The entry the source makes of the j-th pair of meaningful lines. */
  function ConfigPair(ws: Workspace, m: seq<string>, j: nat): Outcome<Entry>
    requires 2 * j + 1 < |m|
  {
    MakeEntry(ws, m[2 * j], m[2 * j + 1])
  }

  /** The file reads without aborting exactly when every pair of meaningful
      lines makes a problem, and then the problems are those of the pairs,
      in file order, each with at least one source image. */
  lemma ReadConfigProblems(ws: Workspace, lines: seq<string>)
    ensures var m := Meaningful(lines);
      ReadConfig(ws, lines).Done? <==> forall j :: 0 <= j < NumPairs(m) ==> ConfigPair(ws, m, j).Done?
    ensures var m := Meaningful(lines);
      ReadConfig(ws, lines).Done? ==>
        var ps := ReadConfig(ws, lines).value.problems;
        |ps| == NumPairs(m) &&
        (forall j :: 0 <= j < NumPairs(m) ==> ConfigPair(ws, m, j).Done? && ConfigPair(ws, m, j).value.problem == ps[j]) &&
        (forall j :: 0 <= j < |ps| ==> |ps[j].srcImageIds| > 0)
  {
    var m := Meaningful(lines);
    var make := ReaderOf(ws);
    assert forall j :: 0 <= j < NumPairs(m) ==> PairEntry(make, m, j) == ConfigPair(ws, m, j);
    ReadConfigIsPairwise(ws, lines);
    ReadPairsAppendsPairProblems(make, Parsed([], {}), m);
    PairProblemsDoneIff(make, m);
    if ReadConfig(ws, lines).Done? {
      PairProblemsByIndex(make, m);
      var ps := ReadConfig(ws, lines).value.problems;
      assert ps == PairProblems(make, m).value;
      forall j | 0 <= j < |ps|
        ensures |ps[j].srcImageIds| > 0
      {
        assert ConfigPair(ws, m, j).value.problem == ps[j];
      }
    }
  }

  /** Blank and comment lines may be added anywhere without changing what
      is read. */
  lemma IgnoredLineChangesNothing(make: PairReader, rd: Reader, raw: string)
    requires Ignored(Trim(raw))
    ensures Feed(make, rd, raw) == Done(rd)
  {
  }

  // ---------------------------------------------------------------------
  // used_image_ids

  /** An explicit list marks only the reference as used; `__all__` and
      `__auto__` mark the reference and every source. */
  lemma ReadPairMarksUsed(ws: Workspace, acc: Parsed, refName: string, line: string)
    requires ReadPair(ReaderOf(ws), acc, refName, line).Done?
    ensures var r := ReadPair(ReaderOf(ws), acc, refName, line).value;
      var p := r.problems[|r.problems| - 1];
      r.problems == acc.problems + [p] &&
      r.usedImageIds == acc.usedImageIds + {p.refImageId} +
        (if RuleOf(CsvToVector(line)).UseNamed? then {} else Elements(p.srcImageIds))
  {
    var e := MakeEntry(ws, refName, line).value;
    assert ReadPair(ReaderOf(ws), acc, refName, line).value.problems == acc.problems + [e.problem];
  }

  // ---------------------------------------------------------------------
  // Properties of the selection rules

  /** With a count no smaller than the number of overlapping images, the
      sources are exactly those images in ascending id order. */
  lemma AutoTakesAllOverlapping(overlap: Overlap, k: nat)
    requires k >= |overlap|
    ensures Ids(AutoChoice(overlap, k)) == Ids(overlap)
    ensures forall i, j :: 0 <= i < j < |overlap| ==> Ids(AutoChoice(overlap, k))[i] < Ids(AutoChoice(overlap, k))[j]
  {
  }

  /** A negative count wraps around in the conversion to size_t, so every
      overlapping image is taken. */
  lemma AutoNegativeCountTakesAll(ws: Workspace, ref: int, count: string)
    requires ParseInt(count).Some? && ParseInt(count).value < 0
    requires 0 <= ref < |ws.sharedPoints| && |ws.sharedPoints[ref]| < FusionSpec.TwoPow64 - 0x8000_0000
    ensures AutoSources(ws, ref, count) == Done(Ids(ws.sharedPoints[ref]))
  {
  }

  /** The entries at and before position i are the largest, in
      non-increasing order, and dominate everything after them. */
  ghost predicate TopPrefix(s: seq<Shared>, i: nat)
    requires i <= |s|
  {
    forall p, q :: 0 <= p < i && p < q < |s| ==> s[q].numShared <= s[p].numShared
  }

  ghost predicate DistinctIds(s: seq<Shared>) {
    forall p, q :: 0 <= p < q < |s| ==> s[p].imageId != s[q].imageId
  }

  lemma SwapPermutes(s: seq<Shared>, i: nat, j: nat)
    requires i < |s| && j < |s|
    ensures multiset(SwapAt(s, i, j)) == multiset(s)
  {
    var t := s[i := s[j]];
    assert multiset(t) == multiset(s) - multiset{s[i]} + multiset{s[j]};
    assert t[j] == (if i == j then s[j] else s[j]);
  }

  lemma SwapKeepsDistinctIds(s: seq<Shared>, i: nat, j: nat)
    requires i < |s| && j < |s| && DistinctIds(s)
    ensures DistinctIds(SwapAt(s, i, j))
  {
    var t := SwapAt(s, i, j);
    forall p, q | 0 <= p < q < |t|
      ensures t[p].imageId != t[q].imageId
    {
      var p' := if p == i then j else if p == j then i else p;
      var q' := if q == i then j else if q == j then i else q;
      assert t[p] == s[p'] && t[q] == s[q'] && p' != q';
    }
  }

  lemma SwapExtendsTopPrefix(s: seq<Shared>, i: nat)
    requires i < |s| && TopPrefix(s, i)
    ensures TopPrefix(SwapAt(s, i, MaxIndex(s, i)), i + 1)
  {
    var m := MaxIndex(s, i);
    var t := SwapAt(s, i, m);
    forall p, q | 0 <= p < i + 1 && p < q < |t|
      ensures t[q].numShared <= t[p].numShared
    {
      var q' := if q == i then m else if q == m then i else q;
      assert t[q] == s[q'];
      if p < i {
        assert t[p] == s[p] && p < q';
      } else {
        assert t[p] == s[m] && i <= q';
      }
    }
  }

  lemma {:induction false} SelectedIsTopPrefix(s: seq<Shared>, i: nat, k: nat)
    requires i <= k <= |s| && TopPrefix(s, i)
    ensures |Selected(s, i, k)| == |s| && multiset(Selected(s, i, k)) == multiset(s)
    ensures TopPrefix(Selected(s, i, k), k)
    ensures DistinctIds(s) ==> DistinctIds(Selected(s, i, k))
    decreases k - i
  {
    if i < k {
      var t := SwapAt(s, i, MaxIndex(s, i));
      SwapPermutes(s, i, MaxIndex(s, i));
      SwapExtendsTopPrefix(s, i);
      if DistinctIds(s) {
        SwapKeepsDistinctIds(s, i, MaxIndex(s, i));
      }
      SelectedIsTopPrefix(t, i + 1, k);
    }
  }

  /** std::partial_sort with a "larger count first" comparison: a
      permutation whose first k entries are in non-increasing count order and
      have counts no smaller than any later entry. */
  lemma PartialSortedIsTopK(s: seq<Shared>, k: nat)
    requires k <= |s|
    ensures |PartialSorted(s, k)| == |s| && multiset(PartialSorted(s, k)) == multiset(s)
    ensures forall p, q :: 0 <= p < q < k ==> PartialSorted(s, k)[q].numShared <= PartialSorted(s, k)[p].numShared
    ensures forall p, q :: 0 <= p < k <= q < |s| ==> PartialSorted(s, k)[q].numShared <= PartialSorted(s, k)[p].numShared
  {
    SelectedIsTopPrefix(s, 0, k);
  }

  lemma SplitMultiset(r: seq<Shared>, k: nat)
    requires k <= |r|
    ensures multiset(r) == multiset(r[..k]) + multiset(r[k..])
  {
    assert r == r[..k] + r[k..];
  }

  /** Every entry of a top prefix has a count at least that of every entry
      after it, taken as multisets. */
  lemma TopPrefixDominates(r: seq<Shared>, k: nat)
    requires k <= |r| && TopPrefix(r, k)
    ensures forall x, y :: x in multiset(r[..k]) && y in multiset(r[k..]) ==> y.numShared <= x.numShared
  {
    forall x: Shared, y: Shared | x in multiset(r[..k]) && y in multiset(r[k..])
      ensures y.numShared <= x.numShared
    {
      var p :| 0 <= p < k && r[..k][p] == x;
      var q :| 0 <= q < |r| - k && r[k..][q] == y;
      assert r[p] == x && r[k + q] == y;
    }
  }

  lemma AscendingIdsAreDistinct(s: seq<Shared>)
    requires AscendingIds(s)
    ensures DistinctIds(s)
  {
  }

  /** The first k entries of a permutation of `s` whose first k entries are
      a top prefix: the facts that make them the top-k of `s`. */
  lemma TopKOfPermutation(s: seq<Shared>, r: seq<Shared>, k: nat)
    requires k <= |r| && multiset(r) == multiset(s) && TopPrefix(r, k) && DistinctIds(r)
    ensures var c := r[..k];
      |c| == k && multiset(c) <= multiset(s) && DistinctIds(c) &&
      (forall p, q :: 0 <= p < q < k ==> c[q].numShared <= c[p].numShared) &&
      (forall x, y :: x in multiset(c) && y in multiset(s) - multiset(c) ==> y.numShared <= x.numShared)
  {
    SplitMultiset(r, k);
    assert multiset(s) - multiset(r[..k]) == multiset(r[k..]);
    TopPrefixDominates(r, k);
  }

  /** With a count below the number of overlapping images, exactly that many
      distinct overlapping images are chosen, in non-increasing count order,
      and each chosen count is at least every unchosen one. */
  lemma AutoTakesTopCounts(overlap: Overlap, k: nat)
    requires k < |overlap|
    ensures var c := AutoChoice(overlap, k);
      |c| == k && multiset(c) <= multiset(overlap) && DistinctIds(c) &&
      (forall p, q :: 0 <= p < q < k ==> c[q].numShared <= c[p].numShared) &&
      (forall x, y :: x in multiset(c) && y in multiset(overlap) - multiset(c) ==> y.numShared <= x.numShared)
  {
    var r := PartialSorted(overlap, k);
    AscendingIdsAreDistinct(overlap);
    SelectedIsTopPrefix(overlap, 0, k);
    TopKOfPermutation(overlap, r, k);
    assert AutoChoice(overlap, k) == r[..k];
  }

  // ---------------------------------------------------------------------
  // The reader, as the source runs it

  /** std::partial_sort of the whole array, in place. */
  method PartialSort(a: array<Shared>, k: nat)
    requires k <= a.Length
    modifies a
    ensures a[..] == PartialSorted(old(a[..]), k)
  {
    var i := 0;
    while i < k
      invariant 0 <= i <= k
      invariant Selected(a[..], i, k) == PartialSorted(old(a[..]), k)
    {
      var m := MaxIndex(a[..], i);
      ghost var before := a[..];
      a[i], a[m] := a[m], a[i];
      assert a[..] == SwapAt(before, i, m);
      i := i + 1;
    }
  }

  /** The `__all__` loop over every image id. */
  method AllLoop(numImages: nat, ref: int, usedBefore: set<int>) returns (ids: seq<int>, used: set<int>)
    ensures ids == AllSources(numImages, ref)
    ensures used == usedBefore + Elements(ids)
  {
    ids := [];
    used := usedBefore;
    var id := 0;
    while id < numImages
      invariant 0 <= id <= numImages
      invariant ids == AllSources(id, ref) && used == usedBefore + Elements(ids)
    {
      if id != ref {
        ids := ids + [id];
        used := used + {id};
      }
      id := id + 1;
    }
  }

  /** The `__auto__` branch once the count is parsed and converted to
      size_t: copy the overlap map, partially sort it when it holds more
      than k entries, and keep the first k. */
  method AutoLoop(overlapping: Overlap, k: nat, usedBefore: set<int>) returns (ids: seq<int>, used: set<int>)
    ensures ids == Ids(AutoChoice(overlapping, k))
    ensures used == usedBefore + Elements(ids)
  {
    var chosen: seq<Shared>;
    if k >= |overlapping| {
      chosen := overlapping;
    } else {
      var srcImages := new Shared[|overlapping|](j requires 0 <= j < |overlapping| => overlapping[j]);
      assert srcImages[..] == overlapping;
      PartialSort(srcImages, k);
      chosen := srcImages[..k];
    }
    ids := [];
    used := usedBefore;
    var i := 0;
    while i < |chosen|
      invariant 0 <= i <= |chosen|
      invariant ids == Ids(chosen[..i]) && used == usedBefore + Elements(ids)
    {
      assert chosen[..i + 1] == chosen[..i] + [chosen[i]];
      ids := ids + [chosen[i].imageId];
      used := used + {chosen[i].imageId};
      i := i + 1;
    }
    assert chosen[..i] == chosen;
  }

  lemma ThenThen(a: seq<int>, b: seq<int>, o: Outcome<seq<int>>)
    ensures Then(a, Then(b, o)) == Then(a + b, o)
  {
    if o.Done? {
      assert a + (b + o.value) == (a + b) + o.value;
    }
  }

  /** An explicit list: the id of each name, the first unknown one aborting. */
  method NamedLoop(ws: Workspace, names: seq<string>) returns (r: Outcome<seq<int>>)
    ensures r == NamedSources(ws, names)
  {
    var ids: seq<int> := [];
    var i := 0;
    assert names[0..] == names;
    assert Then([], NamedSources(ws, names)) == NamedSources(ws, names) by {
      if NamedSources(ws, names).Done? {
        assert [] + NamedSources(ws, names).value == NamedSources(ws, names).value;
      }
    }
    while i < |names|
      invariant 0 <= i <= |names|
      invariant NamedSources(ws, names) == Then(ids, NamedSources(ws, names[i..]))
    {
      var rest := names[i..];
      assert rest[0] == names[i] && rest[1..] == names[i + 1..];
      var id := GetImageId(ws, names[i]);
      if id.Aborted? {
        assert NamedSources(ws, rest) == Aborted(id.failure);
        return Aborted(id.failure);
      }
      assert NamedSources(ws, rest) == Then([id.value], NamedSources(ws, names[i + 1..]));
      ThenThen(ids, [id.value], NamedSources(ws, names[i + 1..]));
      ids := ids + [id.value];
      i := i + 1;
    }
    assert names[i..] == [];
    assert ids + [] == ids;
    return Done(ids);
  }

  /** The source selection of one pair, adding to used_image_ids as the
      source does. */
  method SelectSources(ws: Workspace, ref: int, names: seq<string>, usedBefore: set<int>)
    returns (r: Outcome<seq<int>>, used: set<int>)
    ensures r == Sources(ws, ref, names)
    ensures r.Done? ==> used == usedBefore + Marked(names, r.value)
  {
    used := usedBefore;
    if |names| == 1 && names[0] == AllKeyword {
      var ids;
      ids, used := AllLoop(ws.numImages, ref, usedBefore);
      return Done(ids), used;
    } else if |names| == 2 && names[0] == AutoKeyword {
      var count := ParseInt(names[1]);
      if count.None? {
        return Aborted(BadSourceCount(names[1])), used;
      }
      var maxNumSrcImages := FusionSpec.SizeT(count.value);
      if !(0 <= ref < |ws.sharedPoints|) {
        return Aborted(NoSharedPoints(ref)), used;
      }
      var ids;
      ids, used := AutoLoop(ws.sharedPoints[ref], maxNumSrcImages, usedBefore);
      return Done(ids), used;
    } else {
      r := NamedLoop(ws, names);
    }
  }

  /** The body of the getline loop for a source-list line: the reference
      id, the selection, the non-empty check and the two updates. */
  method ReadPairOf(ws: Workspace, acc: Parsed, refName: string, line: string) returns (r: Outcome<Parsed>)
    ensures r == ReadPair(ReaderOf(ws), acc, refName, line)
  {
    var refImageId := GetImageId(ws, refName);
    if refImageId.Aborted? {
      return Aborted(refImageId.failure);
    }
    var ref := refImageId.value;
    var names := CsvToVector(line);
    var src, used := SelectSources(ws, ref, names, acc.usedImageIds + {ref});
    if src.Aborted? {
      return Aborted(src.failure);
    }
    if |src.value| == 0 {
      return Aborted(NoSourceImages(ref));
    }
    ghost var e := Entry(Problem(ref, src.value), Marked(names, src.value));
    assert MakeEntry(ws, refName, line) == Done(e);
    return Done(Parsed(acc.problems + [Problem(ref, src.value)], used));
  }

  /** One step of the line loop, as the loop takes it. */
  lemma FeedFromStep(make: PairReader, rd: Reader, lines: seq<string>, i: nat)
    requires i < |lines|
    ensures FeedFrom(make, rd, lines, i) ==
      match Feed(make, rd, lines[i])
      case Aborted(f) => Aborted(f)
      case Done(next) => FeedFrom(make, next, lines, i + 1)
  {
  }

  /** ReadPatchMatchProblems' getline loop. */
  method ReadProblems(ws: Workspace, lines: seq<string>) returns (r: Outcome<Parsed>)
    ensures r == ReadConfig(ws, lines)
  {
    ghost var make := ReaderOf(ws);
    var parsed := Parsed([], {});
    var refImageName: string := [];
    var i := 0;
    while i < |lines|
      invariant 0 <= i <= |lines|
      invariant FeedFrom(make, Reader(refImageName, parsed), lines, i) == FeedFrom(make, Start, lines, 0)
    {
      ghost var rd := Reader(refImageName, parsed);
      FeedFromStep(make, rd, lines, i);
      var line := Trim(lines[i]);
      i := i + 1;
      if |line| == 0 || line[0] == '#' {
        assert Feed(make, rd, lines[i - 1]) == Done(rd);
        continue;
      }
      if |refImageName| == 0 {
        refImageName := line;
        assert Feed(make, rd, lines[i - 1]) == Done(Reader(line, parsed));
        continue;
      }
      var next := ReadPairOf(ws, parsed, refImageName, line);
      if next.Aborted? {
        assert Feed(make, rd, lines[i - 1]) == Aborted(next.failure);
        return Aborted(next.failure);
      }
      parsed := next.value;
      refImageName := [];
      assert Feed(make, rd, lines[i - 1]) == Done(Reader([], parsed));
    }
    return Done(parsed);
  }
}
