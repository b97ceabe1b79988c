# Multi-view stereo: depth-map fusion and patch-match problem set-up

This project models two parts of COLMAP's multi-view stereo in Dafny and
proves properties of the model:

- **The depth-map fusion** of `src/mvs/fusion.cc`:
  - `StereoFusion::Options::Check`.
  - The consistency graph. Each image has a flat list of
    `[col, row, count, ids...]` records. The constructor builds a per-pixel
    index over it, and `GetConsistentImageIds` answers lookups.
  - The bounded depth-first walk `FusePoint`. It takes a pixel into the
    current fused point when:
    - the pixel is eligible: its image is used, it lies inside the image
      and its depth is positive;
    - it has not been visited;
    - below the seed, it agrees with the reference point within the
      depth, reprojection and normal limits.

    After taking a pixel, the walk follows the pixel's consistent partner
    images one level deeper.
  - The raster loop of `Run`. It seeds one walk at every unvisited pixel.
    A walk with enough samples becomes a fused point: the median x, y and
    z, the normalised summed normal, and the mean colour.
  - `internal::Median`, built on `std::nth_element` and `std::max_element`.
- **The patch-match problem set-up** of `src/mvs/patch_match.cc`:
  - **`ReadPatchMatchProblems`** reads the configuration file line by line:
    - It trims each line and skips blank and `#` comment lines.
    - It pairs a reference image name with the next line, a source list.
    - The source list is split into values. These are one of:
      - `__all__`: every other image;
      - `__auto__ k`: the k images that share the most points with the
        reference;
      - a list of image names.
    - Every problem must end up with a source image.
  - **`PatchMatch::Check`** validates a problem and its options before
    the estimation runs.

Modules and files:

| module | file | models |
|---|---|---|
| `Median` | `median.dfy` | `internal::Median` on an array, against the middle order statistic of the sorted samples |
| `FusionOptions` | `fusion_options.dfy` | `StereoFusion::Options` and its `Check` |
| `ConsistencyGraphs` | `consistency_graph.dfy` | the flat lists, the pixel index built by the constructor, the lookup |
| `FusionSpec` | `fusion_spec.dfy` | the walk, the raster scan and the reduction, as functions on values |
| `Fusion` | `fusion.dfy` | class `StereoFusion`: visited masks (`array2<bool>`), accumulators, fused points |
| `ConfigText` | `config_text.dfy` | string trimming, the comma/semicolon value split, decimal `int` parsing |
| `PatchMatchProblems` | `patch_match_problems.dfy` | the configuration reader and the three source-selection rules |
| `PatchMatchCheck` | `patch_match_check.dfy` | `PatchMatch::Check` |

The walk and the scan are imperative in the source. They are modelled as
methods of class `Fusion.StereoFusion`, and each method is proved equal to
its functional counterpart in `FusionSpec`:

- `FusePoint` has `State() == Fuse(...)` as its postcondition.
- `Run` has `ScanImages(...)` as its postcondition.

The properties of the walk are then lemmas about `Fuse` and `ScanImages`.
The configuration reader is treated the same way:

- `ReadProblems` has `ReadConfig` as its postcondition.
- `PartialSort` works in place on an array and has `PartialSorted` as its
  postcondition.

Arithmetic is modelled as the source writes it:

- The colour sums wrap as 32-bit unsigned integers.
- `static_cast<size_t>` of a negative `int` wraps around.
- `std::round` rounds halves away from zero.
- `TruncateCast<double, uint8_t>` saturates to the range 0 to 255.

Floats are modelled as `real`.

Several functions lie outside `src/mvs/fusion.cc` and
`src/mvs/patch_match.cc`: `StringTrim`, `CSVToVector`, `Model::GetImageId`,
`Model::ComputeSharedPoints` and `boost::lexical_cast<int>`. Those files are
not part of this model. The first three are modelled from their usual
behaviour, and their rows below cite the lines that call them:

- `StringTrim` erases the C-locale white space at both ends.
- `CSVToVector<std::string>` splits on `,` and `;`, trims each piece and
  drops empty pieces.
- `GetImageId` aborts on a name the model does not know.

`ComputeSharedPoints` is an input: for each image, the ascending map from
other image ids to shared-point counts. `lexical_cast<int>` is modelled as
an optional sign, then at least one digit, then a value that fits 32 bits.

## Model

| member | source | states |
|---|---|---|
| Median.Sort | src/mvs/fusion.cc:28-40 | the reference order the median is defined by: a sorted permutation of the samples |
| Median.MedianOf | src/mvs/fusion.cc:28-40 | the value internal::Median computes, defined on the sorted samples; MedianPermutation, MedianOfSorted and MedianWithinRange establish that it depends only on the multiset, is the middle cell or the mean of the two middle cells, and lies within the samples |
| Median.SortedUnique | src/mvs/fusion.cc:28-40 | two sorted arrangements of the same samples are equal, so the median does not depend on how the selection arranged the array |
| Median.MedianPermutation | src/mvs/fusion.cc:28-40 | the median depends only on the multiset of samples |
| Median.MedianOfSorted | src/mvs/fusion.cc:30-39 | on sorted samples the median is the middle cell for an odd count and the mean of the two middle cells for an even count |
| Median.MedianWithinRange | src/mvs/fusion.cc:28-40 | the median lies between some sample and some other sample |
| Median.MedianOfOne | src/mvs/fusion.cc:37-39 | one sample is its own median |
| Median.MedianOfTwo | src/mvs/fusion.cc:32-36 | two samples give their mean |
| Median.MedianOfThree | src/mvs/fusion.cc:37-39 | three sorted samples give the middle one |
| Median.MedianOfFour | src/mvs/fusion.cc:32-36 | four sorted samples give the mean of the inner two |
| Median.PivotIsOrderStatistic | src/mvs/fusion.cc:31 | after a selection around k, cell k holds the k-th order statistic |
| Median.LowerMaxIsOrderStatistic | src/mvs/fusion.cc:34-35 | after the same selection, the largest element below k is the (k-1)-th order statistic |
| Median.MedianOfOddSelection | src/mvs/fusion.cc:37-39 | for an odd count, the selected middle cell is the median |
| Median.MedianOfEvenSelection | src/mvs/fusion.cc:32-36 | for an even count, the mean of the middle cell and the maximum below it is the median |
| Median.Swap | src/mvs/fusion.cc:31 | exchanges two cells, leaves the others and the multiset unchanged |
| Median.NthElement | src/mvs/fusion.cc:31 | std::nth_element: a permutation of the array with everything before k at most a[k] and everything after at least a[k] |
| Median.MaxElement | src/mvs/fusion.cc:34-35 | std::max_element over the first k cells: an element of them that bounds them all |
| Median.Median | src/mvs/fusion.cc:28-40 | internal::Median permutes the array and returns the median of its original samples |
| FusionOptions.Check | src/mvs/fusion.cc:56-63 | accepts exactly the options meeting all six requirements, and a rejection names a failing requirement whose predecessors all hold |
| FusionOptions.CheckAcceptsExactlyValid | src/mvs/fusion.cc:56-63 | Check accepts if and only if every requirement holds |
| FusionOptions.CheckAcceptsZeroMinNumPixels | src/mvs/fusion.cc:57-58 | a min_num_pixels of zero is accepted |
| ConsistencyGraphs.Next | src/mvs/fusion.cc:450-455 | the cursor advances past the three header fields and the count of ids, staying inside the list and on a record boundary |
| ConsistencyGraphs.Found | src/mvs/fusion.cc:444-456 | the index stored for a pixel is -1 or the position of a count field whose ids lie inside the list |
| ConsistencyGraphs.FoundIsLastStart | src/mvs/fusion.cc:450-456 | the index is -1 exactly when no record names the pixel, and otherwise the count field of the last record naming it, since later records overwrite earlier ones |
| ConsistencyGraphs.FoundIsLastRecord | src/mvs/fusion.cc:450-456 | a lookup gives nothing exactly when no record names the pixel, and otherwise the ids of the last record naming it |
| ConsistencyGraphs.FoundInLaterRecord | src/mvs/fusion.cc:450-456 | step of the above when a later record names the pixel |
| ConsistencyGraphs.FoundInFirstRecord | src/mvs/fusion.cc:450-456 | step of the above when only the first record names the pixel |
| ConsistencyGraphs.FoundInNoRecord | src/mvs/fusion.cc:450-456 | step of the above when no record names the pixel |
| ConsistencyGraphs.PartnersIsLastRecord | src/mvs/fusion.cc:460-473 | the partners of a pixel are the ids of the last record naming it, or none |
| ConsistencyGraphs.PartnersBelow | src/mvs/fusion.cc:422-424 | partner ids are image indices whenever all ids of the list are |
| ConsistencyGraphs.RecordsOfEncode | src/mvs/fusion.cc:450-455 | reading back a list laid out as [col, row, count, ids...] runs gives back the records |
| ConsistencyGraphs.BuildImageMap | src/mvs/fusion.cc:447-456 | the image map has the image's size and holds Found for every pixel |
| ConsistencyGraphs.ConsistencyGraph.constructor | src/mvs/fusion.cc:437-458 | one index per image, of the image's size, each agreeing with Found |
| ConsistencyGraphs.ConsistencyGraph.GetConsistentImageIds | src/mvs/fusion.cc:460-473 | the result is the partner list of the last record naming the pixel, or empty |
| FusionSpec.Wrap32 | src/mvs/fusion.cc:398-400 | the unsigned 32-bit colour sum stays in range and equals the exact sum when that fits |
| FusionSpec.RoundHalfAway | src/mvs/fusion.cc:426-429 | std::round lands within half a unit of its argument, with halves rounded away from zero |
| FusionSpec.TruncateToByte | src/mvs/fusion.cc:165-170 | saturation: the result is a byte, a byte is unchanged, and values below 0 or above 255 clamp |
| FusionSpec.ChannelOfUniformColor | src/mvs/fusion.cc:165-170 | n samples of one byte value give that value as the fused colour channel |
| FusionSpec.Fuse | src/mvs/fusion.cc:319-432 | the walk only adds: old visited pixels and samples are kept, with one sample per newly visited pixel |
| FusionSpec.FusePartners | src/mvs/fusion.cc:417-431 | the partner loop only adds, in the same sense |
| FusionSpec.FuseVisitsOnlyEligible | src/mvs/fusion.cc:321-343 | every pixel a walk newly visits belongs to a used image, lies inside it and has a positive depth |
| FusionSpec.FusePartnersVisitOnlyEligible | src/mvs/fusion.cc:417-431 | the same for the partner loop |
| FusionSpec.FuseKeepsReference | src/mvs/fusion.cc:402-406 | below the seed, the walk never changes the reference point or normal |
| FusionSpec.FusePartnersKeepReference | src/mvs/fusion.cc:417-431 | the same for the partner loop |
| FusionSpec.FuseChangesNothingIff | src/mvs/fusion.cc:319-406 | the walk changes nothing exactly when the pixel is not admitted; an admitted pixel ends visited and gives the first new sample; a seed becomes the reference point and normal |
| FusionSpec.LimitValuesAreAdmitted | src/mvs/fusion.cc:352-379 | a pixel exactly at the depth, reprojection and normal limits is still admitted |
| FusionSpec.NoExpansionPastLimits | src/mvs/fusion.cc:408-415 | at the traversal depth or the pixel limit, a walk takes at most its own pixel and visits no partner |
| FusionSpec.Admits | src/mvs/fusion.cc:321-380 | when FusePoint accumulates a pixel: a used image, inside it, a positive depth, unvisited and, below the seed, within the depth, reprojection and normal limits; Fusion.StereoFusion.Admitted runs the tests and equals it, and FuseChangesNothingIff and LimitValuesAreAdmitted characterise it |
| FusionSpec.Reduce | src/mvs/fusion.cc:154-170 | the fused point of a walk: medians of the x, y and z samples, the normalised normal sum, and the rounded and saturated mean colour per channel; ChannelOfUniformColor and the Median lemmas describe its parts, and SeedStepEmitsIff and EmitIfEnough append exactly it |
| FusionSpec.SeedWalk | src/mvs/fusion.cc:144-150 | a seeded walk only adds to Restart of the state, which empties the samples and sums and keeps the visited pixels and reference, and gathers equally many x, y and z samples |
| FusionSpec.SeedStep | src/mvs/fusion.cc:140-180 | one raster pixel: a visited pixel is skipped, otherwise a walk is seeded from cleared accumulators and its Reduce is appended under the corrected guard (see Findings); Fusion.StereoFusion.Seed equals it, and SeedStepEmitsIff, SeedStepConsumes and SeedUsesFreshPixels establish what it appends and consumes |
| FusionSpec.ScanCols | src/mvs/fusion.cc:139-181 | the column loop as SeedStep at every column of a row; ScanColsConsumes bounds its points by the pixels it consumes, and Fusion.StereoFusion.ScanRow equals it |
| FusionSpec.ScanRows | src/mvs/fusion.cc:138-182 | the row loop as ScanCols at every row of an image; ScanRowsConsumes bounds it, and Fusion.StereoFusion.ScanImage equals it |
| FusionSpec.ScanImages | src/mvs/fusion.cc:101-182 | the image loop of Run as ScanRows over every image; ScanImagesConsumes bounds its points by the pixels it consumes, and Fusion.StereoFusion.Run equals it |
| FusionSpec.SeedStepEmitsIff | src/mvs/fusion.cc:138-180 | a point is appended exactly when the seed pixel was unvisited and the walk passed the corrected guard (see Findings); the point is the walk's reduction; otherwise the points are unchanged |
| FusionSpec.SeedStepConsumes | src/mvs/fusion.cc:138-181 | one seed keeps visited pixels, only appends points, and emits at most one point per newly visited pixel |
| FusionSpec.ScanColsConsumes | src/mvs/fusion.cc:139-181 | the same over one row |
| FusionSpec.ScanRowsConsumes | src/mvs/fusion.cc:138-182 | the same over one image |
| FusionSpec.ScanImagesConsumes | src/mvs/fusion.cc:101-194 | the same over the whole run: there are never more fused points than pixels consumed |
| FusionSpec.SeedUsesFreshPixels | src/mvs/fusion.cc:138-152 | a seed's samples come from pixels no earlier point used, one per sample, all eligible |
| FusionSpec.EmptySeedPassesGuardAsWritten | src/mvs/fusion.cc:152-156 | as written, with min_num_pixels = 0 a seed with no positive depth passes the guard with zero samples |
| FusionSpec.EmitsIsGuardWithSample | src/mvs/fusion.cc:152-153 | the corrected guard is the written one plus at least one sample, and equals it whenever min_num_pixels > 0 |
| Fusion.StereoFusion.constructor | src/mvs/fusion.cc:284-304 | after Prepare, every image has a cleared visited mask of its size, and the accumulators and fused points are empty |
| Fusion.StereoFusion.MarkVisited | src/mvs/fusion.cc:391 | exactly the one pixel is added to the visited set; nothing else changes |
| Fusion.StereoFusion.Accumulate | src/mvs/fusion.cc:390-406 | the new state is the spec's accumulation of the admitted pixel |
| Fusion.StereoFusion.Admitted | src/mvs/fusion.cc:323-380 | the tests before accumulating a pixel pass exactly when FusionSpec admits the pixel |
| Fusion.StereoFusion.FusePoint | src/mvs/fusion.cc:319-432 | the masks and accumulators end as FusionSpec.Fuse says, and the fused points are untouched |
| Fusion.StereoFusion.FuseFromPartners | src/mvs/fusion.cc:417-431 | the partner loop leaves the masks and accumulators as FusionSpec.FusePartners says |
| Fusion.StereoFusion.ReduceSamples | src/mvs/fusion.cc:154-170 | the fused point is the medians of copies of the samples, the normalised normal sum, and the rounded and saturated mean colour |
| Fusion.StereoFusion.ClearAccumulators | src/mvs/fusion.cc:144-148 | the state becomes FusionSpec.Restart of the old state |
| Fusion.StereoFusion.EmitIfEnough | src/mvs/fusion.cc:152-172 | a point is appended exactly when the corrected guard (see Findings) passes, and it is FusionSpec.Reduce of the state |
| Fusion.StereoFusion.Seed | src/mvs/fusion.cc:140-180 | one pixel of the raster loop equals FusionSpec.SeedStep |
| Fusion.StereoFusion.ScanRow | src/mvs/fusion.cc:139-181 | the column loop over one row equals FusionSpec.ScanCols |
| Fusion.StereoFusion.ScanImage | src/mvs/fusion.cc:138-182 | the row loop over one image equals FusionSpec.ScanRows |
| Fusion.StereoFusion.Run | src/mvs/fusion.cc:101-182 | the loop over images, rows and columns equals FusionSpec.ScanImages from no points |
| ConfigText.TrimLeft | src/mvs/patch_match.cc:54 | removes exactly the longest all-space prefix |
| ConfigText.TrimRight | src/mvs/patch_match.cc:54 | removes exactly the longest all-space suffix |
| ConfigText.Trim | src/mvs/patch_match.cc:54 | StringTrim as a left trim then a right trim; TrimCutsOnlySpace, TrimOfPadded and TrimIdempotent establish that it cuts only white space at the ends, undoes padding and is idempotent |
| ConfigText.TrimCutsOnlySpace | src/mvs/patch_match.cc:54 | a trimmed line is a middle part of the line with only white space cut away, and has no white space at its ends |
| ConfigText.TrimOfPadded | src/mvs/patch_match.cc:54 | white space around an unpadded core trims to that core |
| ConfigText.TrimIdempotent | src/mvs/patch_match.cc:54 | trimming twice trims nothing more |
| ConfigText.Fields | src/mvs/patch_match.cc:74-75 | the split yields at least one piece |
| ConfigText.FieldsHaveNoSeparator | src/mvs/patch_match.cc:74-75 | no piece contains a delimiter |
| ConfigText.FieldsOfPlain | src/mvs/patch_match.cc:74-75 | text without a delimiter is a single piece |
| ConfigText.FieldsOfJoin | src/mvs/patch_match.cc:74-75 | a delimiter separates the pieces before it from those after it |
| ConfigText.NonEmptyKeepsNonEmpty | src/mvs/patch_match.cc:74-75 | every value kept is non-empty and one of the trimmed pieces |
| ConfigText.CsvValuesAreClean | src/mvs/patch_match.cc:74-75 | every value of CsvToVector (Fields, TrimAll, NonEmpty) is non-empty, has no white space at its ends, and has no delimiter |
| ConfigText.CsvOfJoin | src/mvs/patch_match.cc:74-75 | two value lists joined by a delimiter split back into the two lists |
| ConfigText.CsvOfPlain | src/mvs/patch_match.cc:74-75 | text without a delimiter is one value, its trimmed self, or no value when it is blank |
| ConfigText.CsvToVector | src/mvs/patch_match.cc:74-75 | CSVToVector as Fields, then TrimAll trimming each piece, then NonEmpty dropping the blank ones; CsvValuesAreClean, CsvOfJoin and CsvOfPlain establish that its values are clean and that it gives back a joined list of clean values |
| ConfigText.ParseInt | src/mvs/patch_match.cc:97-98 | an accepted count fits in a 32-bit int and starts with a digit or a sign |
| ConfigText.ShowNat | src/mvs/patch_match.cc:97-98 | the decimal text of a number is a non-empty digit string |
| ConfigText.DigitsOfShowNat | src/mvs/patch_match.cc:97-98 | the decimal digits of n read back as n |
| ConfigText.ParseShowNegative | src/mvs/patch_match.cc:97-98 | a negative int in decimal parses back to itself |
| ConfigText.ParseShowNonNegative | src/mvs/patch_match.cc:97-98 | a non-negative int in decimal parses back to itself |
| ConfigText.ParseShowInt | src/mvs/patch_match.cc:97-98 | every 32-bit int printed in decimal parses back to itself |
| ConfigText.ParseRejectsNonDigit | src/mvs/patch_match.cc:97-98 | a count with a non-digit after the optional sign is refused |
| PatchMatchProblems.AllSources | src/mvs/patch_match.cc:77-86 | `__all__` yields exactly the ids in [0, n) other than the reference, ascending, n - 1 of them when the reference is an image |
| PatchMatchProblems.MaxIndex | src/mvs/patch_match.cc:115-120 | the first position holding a largest count at or after lo |
| PatchMatchProblems.SwapAt | src/mvs/patch_match.cc:115-120 | exchanges two entries and leaves the others |
| PatchMatchProblems.PartialSortedIsTopK | src/mvs/patch_match.cc:115-120 | the partial sort is a permutation whose first k entries are in non-increasing count order and count at least as much as every later entry |
| PatchMatchProblems.SelectedIsTopPrefix | src/mvs/patch_match.cc:115-120 | each selection step extends the sorted top prefix, permutes and keeps ids distinct |
| PatchMatchProblems.AutoTakesAllOverlapping | src/mvs/patch_match.cc:102-107 | with k at least the overlap size, the sources are Ids of the whole overlap, that is all overlapping images, in ascending id order |
| PatchMatchProblems.AutoTakesTopCounts | src/mvs/patch_match.cc:108-127 | with k below the overlap size, exactly k distinct overlapping images are chosen, in non-increasing count order, each counting at least as much as every unchosen one |
| PatchMatchProblems.AutoNegativeCountTakesAll | src/mvs/patch_match.cc:97-107 | a negative count wraps in the size_t conversion, so every overlapping image is chosen |
| PatchMatchProblems.AutoSources | src/mvs/patch_match.cc:88-127 | `__auto__ k`: k parsed as an int and converted to size_t, then AutoChoice over the reference's overlap, with an abort for a bad count or a missing overlap; AutoTakesAllOverlapping, AutoTakesTopCounts and AutoNegativeCountTakesAll establish what it chooses, and AutoLoop equals it |
| PatchMatchProblems.GetImageId | src/mvs/patch_match.cc:71 | the model's id of a name, aborting on an unknown name; NamedSources and MakeEntry state what it gives the reference and each named source |
| PatchMatchProblems.NamedSources | src/mvs/patch_match.cc:128-133 | an explicit list gives one id per name, in order, each the model's id of that name |
| PatchMatchProblems.Sources | src/mvs/patch_match.cc:77-133 | the dispatch on the first source name to `__all__`, `__auto__` or an explicit list; SelectSources equals it, and AllSourcesWellFormed and AutoSourcesWellFormed show its sources pass the later checks |
| PatchMatchProblems.MakeEntry | src/mvs/patch_match.cc:65-135 | a pair that reads gives a known reference with its model id, the sources of the rule chosen by the list, at least one source, and the images that rule marks as used |
| PatchMatchProblems.ReadPair | src/mvs/patch_match.cc:65-137 | a reference line and a source line append one problem and mark its used images; ReadPairMarksUsed states what it appends and marks, and ReadPairOf equals it |
| PatchMatchProblems.Meaningful | src/mvs/patch_match.cc:53-58 | the kept lines are trimmed and neither blank nor comments |
| PatchMatchProblems.ReadConfig | src/mvs/patch_match.cc:51-140 | the getline loop from the start state, its result the problems read; ReadConfigIsPairwise and ReadConfigProblems establish that it reads the meaningful lines in pairs and succeeds exactly when every pair makes a problem, and ReadProblems equals it |
| PatchMatchProblems.ReadConfigIsPairwise | src/mvs/patch_match.cc:53-140 | reading the file equals reading its meaningful lines two at a time, as reference and source list; an unpaired last name is dropped |
| PatchMatchProblems.FeedStepIsPairwise | src/mvs/patch_match.cc:53-63 | one getline iteration: a failure on that line is the pairwise reading's failure; otherwise the loop and the pairwise reading both continue from the next line and the updated reader |
| PatchMatchProblems.FeedFromIsPairwise | src/mvs/patch_match.cc:53-63 | the line loop from any state equals the pairwise reading of the pending name and the remaining meaningful lines |
| PatchMatchProblems.NumPairs | src/mvs/patch_match.cc:60-63 | the number of complete pairs is half the meaningful lines, rounded down |
| PatchMatchProblems.ReadPairsAppendsPairProblems | src/mvs/patch_match.cc:137 | the pairwise reading succeeds exactly when every pair makes a problem, and appends those problems in order |
| PatchMatchProblems.PairProblemsByIndex | src/mvs/patch_match.cc:137 | the j-th problem comes from the j-th pair |
| PatchMatchProblems.PairProblemsDoneIff | src/mvs/patch_match.cc:135-137 | the pairs all make problems exactly when none of them aborts |
| PatchMatchProblems.ReadConfigProblems | src/mvs/patch_match.cc:51-140 | the file reads without aborting exactly when every pair makes a problem; the problems are then those of the pairs, in file order, each with a source image |
| PatchMatchProblems.IgnoredLineChangesNothing | src/mvs/patch_match.cc:56-58 | a blank or comment line leaves the reader as it was |
| PatchMatchProblems.ReadPairMarksUsed | src/mvs/patch_match.cc:71-137 | a pair appends one problem; used_image_ids gains the reference, plus every source under `__all__` and `__auto__` and none under an explicit list |
| PatchMatchProblems.PartialSort | src/mvs/patch_match.cc:115-120 | the in-place selection leaves the array as PartialSorted of its old contents |
| PatchMatchProblems.AllLoop | src/mvs/patch_match.cc:79-86 | the loop yields AllSources and marks exactly those ids as used |
| PatchMatchProblems.AutoLoop | src/mvs/patch_match.cc:102-127 | the two branches yield the ids of AutoChoice and mark exactly those as used |
| PatchMatchProblems.NamedLoop | src/mvs/patch_match.cc:129-132 | the loop yields NamedSources, aborting at the first unknown name |
| PatchMatchProblems.SelectSources | src/mvs/patch_match.cc:77-133 | the dispatch on the list yields Sources and marks what the rule marks |
| PatchMatchProblems.ReadPairOf | src/mvs/patch_match.cc:65-139 | the body for a source line equals ReadPair |
| PatchMatchProblems.ReadProblems | src/mvs/patch_match.cc:51-140 | the getline loop equals ReadConfig |
| PatchMatchCheck.FirstFailing | src/mvs/patch_match.cc:269-288 | none exactly when every requirement holds; otherwise a failing requirement whose predecessors all hold |
| PatchMatchCheck.SettingOrderIsComplete | src/mvs/patch_match.cc:269-288 | every option requirement is among the CHECKs |
| PatchMatchCheck.ValidMeetsEveryRequirement | src/mvs/patch_match.cc:269-288 | options in their ranges meet every requirement |
| PatchMatchCheck.EveryRequirementMeansValid | src/mvs/patch_match.cc:269-288 | options meeting every requirement lie in their ranges |
| PatchMatchCheck.OrderHoldsIsEveryRequirement | src/mvs/patch_match.cc:269-288 | the requirements in CHECK order all hold exactly when every requirement holds |
| PatchMatchCheck.OptionFailureIff | src/mvs/patch_match.cc:269-288 | the option CHECKs pass exactly when every option lies in its range |
| PatchMatchCheck.InsertIsSetInsert | src/mvs/patch_match.cc:233 | std::set::insert keeps the set ascending, adds exactly x, and grows by one exactly when x is new |
| PatchMatchCheck.SetOf | src/mvs/patch_match.cc:231-232 | the set of the sources is ascending, has the same elements, and is as long as the list exactly when the list is distinct |
| PatchMatchCheck.UniqueIds | src/mvs/patch_match.cc:231-233 | unique_image_ids is ascending and holds exactly the sources and the reference |
| PatchMatchCheck.UniqueIdsSizeCheck | src/mvs/patch_match.cc:229-234 | the size test passes exactly when the sources are distinct and do not include the reference |
| PatchMatchCheck.ImageFailure | src/mvs/patch_match.cc:237-258 | one image fails no check exactly when its id is valid, its size positive, it has one channel and, under geometric consistency, its depth map has its size |
| PatchMatchCheck.FirstImageFailure | src/mvs/patch_match.cc:237-259 | none exactly when every id passes; otherwise the first failing check of an id whose predecessors all pass |
| PatchMatchCheck.ImagesPassIff | src/mvs/patch_match.cc:237-259 | the per-image loop passes exactly when the reference and every source pass |
| PatchMatchCheck.CheckAcceptsExactlyValid | src/mvs/patch_match.cc:218-289 | Check accepts exactly the problems and options meeting every requirement, stated directly on the problem |
| PatchMatchCheck.CheckRejectsBadOptions | src/mvs/patch_match.cc:269-284 | an empty or non-positive depth range, a window radius outside (0, kMaxWindowRadius], a filter NCC outside [-1, 1] or a triangulation angle outside [0, 180) is rejected |
| PatchMatchCheck.CheckReportsFirstBadOption | src/mvs/patch_match.cc:269-288 | a rejection for an option names the first failing option requirement |
| PatchMatchCheck.AllSourcesWellFormed | src/mvs/patch_match.cc:77-86 | `__all__` with the reference among at least two images gives sources that pass the source checks |
| PatchMatchCheck.AutoSourcesWellFormed | src/mvs/patch_match.cc:88-127 | `__auto__ k` with k > 0, over a non-empty overlap that lies in range and leaves out the reference, gives sources that pass the source checks |
| PatchMatchCheck.Check | src/mvs/patch_match.cc:218-289 | the CHECKs of PatchMatch::Check in source order, naming the first that fails; CheckAcceptsExactlyValid proves it accepts exactly the problems and options meeting the independent Valid, and CheckRejectsBadOptions and CheckReportsFirstBadOption describe its option rejections |

## Left out

- I/O is not modelled. This covers reading the model and the configuration
  file, the depth, normal and consistency-graph files and the images, and
  writing the fused maps and PLY files. The reader takes the file's lines
  as a sequence of strings.
- `Print`, timers, progress output and `IsStopped` are not modelled. A
  stop request only cuts the loops short.
- The `output_fused_depth_maps` copies are not modelled. They write files
  and do not affect the fused points.
- The geometry is not computed. The camera maps `P`, `inv_P` and `inv_R`
  and the normalisation of the summed normal are given functions.
- Floats are modelled as `real`, so float rounding, NaN and infinities are
  not modelled. A zero divisor in a projection gives 0.
- `std::cos(DegToRad(...))` is not computed: the cosine of the normal
  limit is given.
- `Read` and `Prepare` are not modelled, apart from the cleared visited
  masks. That leaves out:
  - the size CHECKs and the rescaling of images to the depth-map size,
    which are taken as preconditions;
  - the used-image mask, which is an input.
- Unused images: the source reads the image size of an unused image,
  whose image data was never set. The model gives such an image a mask of its
  own size, and `FusePoint` returns at once for it.
- `Fusion.StereoFusion.ReduceSamples` does not model that the source runs
  `Median` on the sample vectors themselves rather than on copies. Their
  order changes, but they are cleared before the next seed.
- `PatchMatchProblems.Selected` does not fix which of several equal
  counts `std::partial_sort` puts first. The model takes the earliest; the
  proved properties hold for any order of ties.
- `PatchMatchCheck.Check`: the calibration-matrix checks at
  `src/mvs/patch_match.cc:247-251` compare floats against `1e-6` and are
  not modelled.
- `PatchMatchCheck.Check`: the `CHECK_NOTNULL` calls at
  `src/mvs/patch_match.cc:219-222` are not modelled, because the model's
  inputs are values that are always present.
- `PatchMatchCheck.Check`: `kMaxWindowRadius` is a parameter, because
  `src/mvs/patch_match.h` is not part of this model.
- Reading the inputs of the used images, after the problems are read, is
  not modelled: it is I/O.
- `ComputeSharedPoints` is not modelled. It sits in `src/mvs/model.cc`,
  which is not part of this model, and its result is an input.
- `StringTrim`, `CSVToVector` and `lexical_cast` live in `util/` and in
  boost, which are not part of this model. They are modelled from their
  documented behaviour, as described above.
- `ConsistencyGraphs.ConsistencyGraph.constructor` requires as many
  consistency lists as images. The source checks this with `CHECK_EQ` at
  `src/mvs/fusion.cc:441` and aborts otherwise; the model has no abort path
  for it.
- `ConsistencyGraphs.ConsistencyGraph.constructor` and
  `ConsistencyGraphs.BuildImageMap` require every list to be `WellFormed`:
  the list splits into whole records of a column, a row, a count of at
  least 0 and that many ids; and every record's pixel lies inside its image.
  The loop at `src/mvs/fusion.cc:450-455` checks none of this. A negative
  count moves the cursor back, so a count of -3 brings it back to the same
  record and the loop never ends. A truncated record is read past the end of
  the vector. A pixel outside the image is written outside `image_map`. The
  lists come from the consistency-graph files that this program's
  patch-match stereo step writes, and the model takes them as well formed.
  Termination of the loop (`decreases |list| - i`) rests on this
  precondition.
- `FusionSpec.EnvOk`, the precondition of the walk and the raster scan,
  includes the same well-formedness of the lists, for the same reason.
- Fusion, like the source, does not check that consistency-graph ids are
  image indices. The model requires this of its input (`EnvOk`), where the
  source would index out of range.

## Findings

| source | as written | input that shows it | evidently intended | confidence | as-written member | corrected member |
|---|---|---|---|---|---|---|
| src/mvs/fusion.cc:153 | a walk becomes a fused point when `num_pixels >= min_num_pixels`, and `Options::Check` accepts `min_num_pixels == 0` | options with `min_num_pixels = 0`, and an unvisited pixel of a used image whose depth is not positive: `FusePoint` returns at once, `0 >= 0` passes, and `internal::Median` is called on an empty vector, whose `CHECK(!elems->empty())` aborts | a fused point is emitted only when the walk gathered at least one sample (and at least `min_num_pixels`) | not executed | FusionSpec.EmptySeedPassesGuardAsWritten | FusionSpec.EmitsIsGuardWithSample |
