# Artcodes marker rules, code assignment and embedded-checksum decoding in Dafny

Artcodes are visual markers: nested blobs whose contour tree encodes a
sequence of digits, each region's value being the number of blobs inside it.
This project models the integer and list logic around those markers and
proves properties of it:

- **The validation rules of an experience** (`Experience.getMarkerError`,
  `isValidMarker`, both in their list form and their colon-separated text
  form, and the `hasValid*` checks). The list form is a chain of nine rules;
  the first broken rule decides the reported reason (module
  `ExperienceRules`). The two text forms read a code such as `1:1:2:4:4`,
  possibly one still being typed. They have drifted apart in the source, and
  they are modelled as written, with lemmas that locate the drift (module
  `ExperienceText`).
- **Code assignment** (`Experience.getNextUnusedMarker`). An odometer runs
  over the non-decreasing digit sequences of one length and hands out the
  first valid code that no marker uses yet (module `CodeAssignment`). Its
  termination and lexicographic minimality are proved.
- **The experience object itself**: its marker map, `add`, `deleteMarker`
  and the settings the validators read (module `ExperienceModel`, a class).
- **The detection thread's counters.** These are the frames since the last
  marker and the cumulative frames without one, together with what they
  drive in `thresholdImage`:
  - the number of tiles of the per-tile threshold, and the grid of tiles it
    loops over;
  - the neighbourhood size of the adaptive threshold;
  - `start` and `stop` of the detector (module `MarkerDetection`).
- **The embedded-checksum detector.** It walks the children of a candidate
  node in the contour hierarchy, collecting regions and at most one
  checksum region made of "hollow dots". It then checks the dot count
  against a weighted sum of the digits, with the weights and values moved
  past multiples of 7 (module `EmbeddedChecksum`). The walk and the
  checksum loop are proved against specification functions.

Modules `JavaLang` and `JavaText` give Java's truncating `/` and `%`,
`Integer.toString`, `Integer.parseInt` and `String.split(":")`. Module
`Arithmetic` holds a few facts about multiplication and remainders.

Points in the code worth knowing:

- The length loop of `getNextUnusedMarker` stops at the first length (see
  Findings).
- A hollow dot is a node with exactly one child, and that child passes the
  superclass's `isValidDot`.
- `createMarkerForNode` orders the regions it collected with `sortCode`, a
  hook of the superclass, before the superclass checks the region list.
- The text form of `getMarkerError` applies every list rule even to a
  partial code (`ExperienceText.PartialCodeDrift`).

The transform `v + (v + v/7)/7` of the embedded checksum keeps clear of
multiples of 7 for the digits 1 to 54 only: 55 becomes 63 (see Findings).

## Model

Paths are relative to the repository root; `Experience.java` is
`aestheticodes-core/src/main/java/uk/ac/horizon/aestheticodes/model/Experience.java`,
`MarkerDetector.java` is
`aestheticodes-core/src/main/java/uk/ac/horizon/aestheticodes/controllers/MarkerDetector.java`
and `MarkerEmbeddedChecksumDetector.java` is
`artcodes-scanner/src/main/java/uk/ac/horizon/artcodes/detect/marker/MarkerEmbeddedChecksumDetector.java`.

| member | source | states |
|---|---|---|
| JavaLang.JDiv | artcodes-scanner/src/main/java/uk/ac/horizon/artcodes/detect/marker/MarkerEmbeddedChecksumDetector.java:162 | Java's `/` by a positive divisor: the floor quotient for a non-negative dividend, otherwise the quotient rounded toward zero |
| JavaLang.JRem | aestheticodes-core/src/main/java/uk/ac/horizon/aestheticodes/model/Experience.java:581 | Java's `%` by a positive divisor: `a == JDiv(a, b) * b + r`, with the remainder in `[0, b)` for a non-negative dividend and in `(-b, 0]` otherwise |
| JavaText.IntToString | aestheticodes-core/src/main/java/uk/ac/horizon/aestheticodes/model/Experience.java:371 | the numeral appended for a digit is non-empty, holds no ':' and ends in a digit |
| JavaText.ParseIntToString | aestheticodes-core/src/main/java/uk/ac/horizon/aestheticodes/model/Experience.java:269 | `parseInt` reads back every integer that `toString` writes |
| JavaText.JavaSplit | aestheticodes-core/src/main/java/uk/ac/horizon/aestheticodes/model/Experience.java:241 | `split(":")` gives the whole text when it holds no ':'. Otherwise it gives the colon-separated tokens up to the last non-empty one, and every token dropped after it is empty |
| JavaText.SplitJoin | aestheticodes-core/src/main/java/uk/ac/horizon/aestheticodes/model/Experience.java:241 | splitting a code written as `a:b:...` gives back exactly one numeral per digit, and such a code never ends in ':' |
| ExperienceRules.Count | aestheticodes-core/src/main/java/uk/ac/horizon/aestheticodes/model/Experience.java:595-606 | the count of entries equal to a value is at most the length, and it is 0 exactly when the value does not occur |
| ExperienceRules.FirstAbove | aestheticodes-core/src/main/java/uk/ac/horizon/aestheticodes/model/Experience.java:207-214 | the value loop finds nothing exactly when every value is at most the bound; otherwise it finds the first value above it |
| ExperienceRules.EmbeddedChecksumValue | aestheticodes-core/src/main/java/uk/ac/horizon/aestheticodes/model/Experience.java:592 | the demanded checksum is congruent to the weighted sum mod 7, and lies in 1..7 for a non-negative sum |
| ExperienceRules.FirstFailureWins | aestheticodes-core/src/main/java/uk/ac/horizon/aestheticodes/model/Experience.java:188-237 | `getMarkerError` returns null exactly when no rule of the chain is broken; a reason it returns names a broken rule while every earlier rule holds |
| ExperienceRules.RegionValuesRule | aestheticodes-core/src/main/java/uk/ac/horizon/aestheticodes/model/Experience.java:207-214 | the "too big" rule is broken exactly when some value exceeds `maxRegionValue` |
| ExperienceRules.TooBigNamesFirstOffender | aestheticodes-core/src/main/java/uk/ac/horizon/aestheticodes/model/Experience.java:207-214 | a "too big" reason names the first value above `maxRegionValue`, at a position before which every value is within bounds |
| ExperienceRules.IsValidMarker | aestheticodes-core/src/main/java/uk/ac/horizon/aestheticodes/model/Experience.java:498-501 | a null code is invalid. A code is valid exactly when all of these hold: its length is in [minRegions, maxRegions]; it has at most maxEmptyRegions zeros; no value exceeds maxRegionValue; without an embedded checksum the total is divisible by checksumModulo (or the modulo is at most 1); with one, embedded checksums are on and it matches the weighted sum; and it has enough validation regions |
| ExperienceRules.TooShortWins | aestheticodes-core/src/main/java/uk/ac/horizon/aestheticodes/model/Experience.java:194-197 | a code shorter than `minRegions` is reported as too short, whatever else is wrong with it |
| ExperienceRules.EmbeddedChecksumReplacesModulo | aestheticodes-core/src/main/java/uk/ac/horizon/aestheticodes/model/Experience.java:216-228 | with an embedded checksum present, the modulo rule is skipped. With embedded checksums off the code is rejected; with them on it is valid exactly when the checksum matches the weighted sum |
| ExperienceRules.WeightedSumExample | aestheticodes-core/src/main/java/uk/ac/horizon/aestheticodes/model/Experience.java:586-592 | the example of the source comment: 1:1:2:4:4 has weighted sum 45 and needs checksum 3 |
| ExperienceRules.DefaultChecksumExample | aestheticodes-core/src/main/java/uk/ac/horizon/aestheticodes/model/Experience.java:570-582 | under the default settings 1:2:3:4:5 (total 15, divisible by 3) is valid |
| ExperienceRules.DefaultChecksumFailure | aestheticodes-core/src/main/java/uk/ac/horizon/aestheticodes/model/Experience.java:216-219 | under the default settings 1:2:3:4:6 (total 16) is rejected as not divisible by 3 |
| ExperienceText.ScanReportingErrorsAccepts | aestheticodes-core/src/main/java/uk/ac/horizon/aestheticodes/model/Experience.java:262-290 | the reading loop of the text `getMarkerError` succeeds exactly when every token is a number at most `maxRegionValue` and, unless the text ends in ':', every value but the last is at least its predecessor; it then yields the values in order |
| ExperienceText.ScanForValidityAccepts | aestheticodes-core/src/main/java/uk/ac/horizon/aestheticodes/model/Experience.java:530-558 | the reading loop of the text `isValidMarker` succeeds exactly when every token is a number at most `maxRegionValue` and the values are in order: every value when the text ends in ':', every value but the last otherwise |
| ExperienceText.TextErrorNoneIff | aestheticodes-core/src/main/java/uk/ac/horizon/aestheticodes/model/Experience.java:239-293 | the text `getMarkerError` returns null exactly when the text is not a partial code with a missing value, its tokens are numbers in order (unless it ends in ':'), and the values pass every list rule, even for a partial code |
| ExperienceText.IsValidTextIff | aestheticodes-core/src/main/java/uk/ac/horizon/aestheticodes/model/Experience.java:503-561 | the text `isValidMarker` holds exactly when the text is not a partial code with a missing value, has at most `maxRegions` tokens, the tokens are numbers at most `maxRegionValue` and in order, and, for a complete code only, the values pass every list rule |
| ExperienceText.TextFormsAgreeWithoutTrailingColon | aestheticodes-core/src/main/java/uk/ac/horizon/aestheticodes/model/Experience.java:503-561 | on a complete code that does not end in ':', the text `isValidMarker` and the text `getMarkerError` agree |
| ExperienceText.PartialCodeDrift | aestheticodes-core/src/main/java/uk/ac/horizon/aestheticodes/model/Experience.java:560 | the partial code "1" is valid for `isValidMarker`, but `getMarkerError` reports it as too short |
| ExperienceText.SplitJoinColon | aestheticodes-core/src/main/java/uk/ac/horizon/aestheticodes/model/Experience.java:241 | a code with ':' appended still splits into one numeral per digit, since `split` drops the trailing empty token |
| ExperienceText.NumbersOfNumerals | aestheticodes-core/src/main/java/uk/ac/horizon/aestheticodes/model/Experience.java:264-290 | the tokens of a written code all parse, to the digits they were written from |
| ExperienceText.JoinedCodeErrorReadsBack | aestheticodes-core/src/main/java/uk/ac/horizon/aestheticodes/model/Experience.java:239-293 | a written code passes the text `getMarkerError` exactly when every digit but the last is at least its predecessor (and 0) and the digits pass the list rules |
| ExperienceText.JoinedCodeValidityReadsBack | aestheticodes-core/src/main/java/uk/ac/horizon/aestheticodes/model/Experience.java:503-561 | a written code passes the complete text `isValidMarker` exactly when every digit but the last is at least its predecessor (and 0) and the digits pass the list rules |
| ExperienceText.TrailingColonReadsBack | aestheticodes-core/src/main/java/uk/ac/horizon/aestheticodes/model/Experience.java:542-548 | with ':' appended to a written code, `getMarkerError` checks no order at all, while `isValidMarker` checks the order of every digit, the last included |
| ExperienceText.ListRulesAcceptExample | aestheticodes-core/src/main/java/uk/ac/horizon/aestheticodes/model/Experience.java:188-237 | 1:1:2:1:1 passes the list rules under the default settings |
| ExperienceText.TrailingColonDrift | aestheticodes-core/src/main/java/uk/ac/horizon/aestheticodes/model/Experience.java:274-280 | `1:1:2:1:1:` passes the text `getMarkerError` but fails the text `isValidMarker` |
| CodeAssignment.LastBelow | aestheticodes-core/src/main/java/uk/ac/horizon/aestheticodes/model/Experience.java:381-396 | the position at which the carry loop stops is the last digit still below the top value; there is none exactly when every digit is at the top |
| CodeAssignment.AdvanceIsSuccessor | aestheticodes-core/src/main/java/uk/ac/horizon/aestheticodes/model/Experience.java:381-396 | one turn of the odometer gives the lexicographic successor of the current sequence among the non-decreasing sequences with digits in [1, top] |
| CodeAssignment.LastOfRange | aestheticodes-core/src/main/java/uk/ac/horizon/aestheticodes/model/Experience.java:392-395 | when no digit can be raised, no sequence of the range comes after the current one |
| CodeAssignment.RankDecreases | aestheticodes-core/src/main/java/uk/ac/horizon/aestheticodes/model/Experience.java:360-397 | moving forward in lexicographic order lowers a natural-number rank, so the `while (true)` loop ends |
| CodeAssignment.Top | aestheticodes-core/src/main/java/uk/ac/horizon/aestheticodes/model/Experience.java:355-358 | the largest digit the odometer reaches is `maxRegionValue`, or 1 when that is below 1, since every digit starts at 1 |
| CodeAssignment.CandidateInRange | aestheticodes-core/src/main/java/uk/ac/horizon/aestheticodes/model/Experience.java:352-397 | every code the search may hand out lies in the range the odometer runs through |
| CodeAssignment.FoundCandidate | aestheticodes-core/src/main/java/uk/ac/horizon/aestheticodes/model/Experience.java:362-378 | a sequence returned by the loop is a candidate, and its written code passes the complete text `isValidMarker` |
| CodeAssignment.TurnSkipsNoCandidate | aestheticodes-core/src/main/java/uk/ac/horizon/aestheticodes/model/Experience.java:381-396 | turning past a sequence that is not a candidate skips no candidate |
| CodeAssignment.RangeExhausted | aestheticodes-core/src/main/java/uk/ac/horizon/aestheticodes/model/Experience.java:392-395 | when the first digit overflows, no candidate of that length is left |
| CodeAssignment.WriteCode | aestheticodes-core/src/main/java/uk/ac/horizon/aestheticodes/model/Experience.java:364-374 | the `StringBuilder` loop writes the digits separated by ':' (`Join`) |
| CodeAssignment.TurnOdometer | aestheticodes-core/src/main/java/uk/ac/horizon/aestheticodes/model/Experience.java:381-396 | the carry loop, in place on the digit array, performs one turn at the last digit below the top; it reports failure exactly when there is no such digit |
| CodeAssignment.FirstUnusedOfSize | aestheticodes-core/src/main/java/uk/ac/horizon/aestheticodes/model/Experience.java:354-397 | for one length: the lexicographically first candidate, as a code that passes the text validator, or none exactly when that length has no candidate |
| CodeAssignment.NextUnusedCode | aestheticodes-core/src/main/java/uk/ac/horizon/aestheticodes/model/Experience.java:350-401 | as written: the first candidate of length `minRegions`, or none when there is none of that length |
| CodeAssignment.NextUnusedCodeAnyLength | aestheticodes-core/src/main/java/uk/ac/horizon/aestheticodes/model/Experience.java:350-401 | as evidently intended: a shortest candidate, the first of its length, as a code that passes the text validator; none only when there is no candidate at all |
| CodeAssignment.LengthLoopSkipsLongerCodes | aestheticodes-core/src/main/java/uk/ac/horizon/aestheticodes/model/Experience.java:392-395 | for lengths 1 to 2, values up to 1 and "1" taken, no candidate of length 1 is left, yet 1:1 is a candidate |
| ExperienceModel.Experience.constructor | aestheticodes-core/src/main/java/uk/ac/horizon/aestheticodes/model/Experience.java:60-72 | a new experience has no markers and the default settings (5 to 5 regions, no empty region, values up to 6, modulo 3, no embedded checksum, temporal-tile threshold) |
| ExperienceModel.Experience.Add | aestheticodes-core/src/main/java/uk/ac/horizon/aestheticodes/model/Experience.java:74-77 | the marker is filed under its code, replacing any marker with that code; the map keeps every marker under its own code; the settings are unchanged |
| ExperienceModel.Experience.DeleteMarker | aestheticodes-core/src/main/java/uk/ac/horizon/aestheticodes/model/Experience.java:85-96 | reports true exactly when the code was present; the code is removed and nothing else changes; the map shrinks by one on true and is unchanged on false |
| ExperienceModel.Experience.GetNextUnusedMarker | aestheticodes-core/src/main/java/uk/ac/horizon/aestheticodes/model/Experience.java:350-401 | as evidently intended (see Findings): a code that no marker has and that is a valid code, shortest first and then first in lexicographic order; none only when no valid code is left |
| ExperienceModel.AddThenDelete | aestheticodes-core/src/main/java/uk/ac/horizon/aestheticodes/model/Experience.java:74-96 | adding a marker for a fresh code and deleting that code leaves the markers as they were |
| ExperienceModel.AddedCodeIsUsed | aestheticodes-core/src/main/java/uk/ac/horizon/aestheticodes/model/Experience.java:375 | once a marker is added for a handed-out code, that code is no longer a candidate |
| MarkerDetection.NumberOfTiles | aestheticodes-core/src/main/java/uk/ac/horizon/aestheticodes/controllers/MarkerDetector.java:264 | the frame is cut into 1 to 9 tiles per side |
| MarkerDetection.Neighbourhood | aestheticodes-core/src/main/java/uk/ac/horizon/aestheticodes/controllers/MarkerDetector.java:309 | the adaptive-threshold block size is odd and between 5 and 201 |
| MarkerDetection.NumberOfTilesCycles | aestheticodes-core/src/main/java/uk/ac/horizon/aestheticodes/controllers/MarkerDetector.java:255-264 | each frame counted as without marker raises the tile count by one, wrapping from 9 to 1, with period 9 |
| MarkerDetection.NeighbourhoodCycles | aestheticodes-core/src/main/java/uk/ac/horizon/aestheticodes/controllers/MarkerDetector.java:309 | each frame counted as without marker grows the block size by 4, wrapping from 201 to 5, with period 50 |
| MarkerDetection.BandWellFormed | aestheticodes-core/src/main/java/uk/ac/horizon/aestheticodes/controllers/MarkerDetector.java:265-293 | every tile's start is at most its end, which is within the frame, even when the frame is smaller than the tile count |
| MarkerDetection.BandsTile | aestheticodes-core/src/main/java/uk/ac/horizon/aestheticodes/controllers/MarkerDetector.java:269-293 | the tiles along a side run from 0 to the edge, each starting where the previous one ends |
| MarkerDetection.BandsOrdered | aestheticodes-core/src/main/java/uk/ac/horizon/aestheticodes/controllers/MarkerDetector.java:271-275 | an earlier band ends no later than a later one starts |
| MarkerDetection.BandOf | aestheticodes-core/src/main/java/uk/ac/horizon/aestheticodes/controllers/MarkerDetector.java:265-293 | each pixel position along a side lies in exactly one band |
| MarkerDetection.PixelInOneTile | aestheticodes-core/src/main/java/uk/ac/horizon/aestheticodes/controllers/MarkerDetector.java:269-298 | every pixel of the frame lies in exactly one tile of the grid |
| MarkerDetection.TilesWithinFrame | aestheticodes-core/src/main/java/uk/ac/horizon/aestheticodes/controllers/MarkerDetector.java:269-298 | every sub-matrix the loops take lies within the frame and is not inverted |
| MarkerDetection.TileGrid | aestheticodes-core/src/main/java/uk/ac/horizon/aestheticodes/controllers/MarkerDetector.java:264-299 | the nested tile loops produce the n by n grid of bands, row by row |
| MarkerDetection.EmptyFrames | aestheticodes-core/src/main/java/uk/ac/horizon/aestheticodes/controllers/MarkerDetector.java:121-128 | k frames without a marker grow the run by k. The cumulative counter grows by one for each of them that finds more than two frames without marker before it |
| MarkerDetection.EmptyFramesAfterMarker | aestheticodes-core/src/main/java/uk/ac/horizon/aestheticodes/controllers/MarkerDetector.java:255-258 | after a frame with a marker, k empty frames raise the cumulative counter by max(0, k - 3) |
| MarkerDetection.CumulativeMonotone | aestheticodes-core/src/main/java/uk/ac/horizon/aestheticodes/controllers/MarkerDetector.java:255-258 | the cumulative counter never decreases and rises by at most one per frame |
| MarkerDetection.ShortRunNotCounted | aestheticodes-core/src/main/java/uk/ac/horizon/aestheticodes/controllers/MarkerDetector.java:255-258 | while the run of frames without marker is at most 3 long, the cumulative counter stays put |
| MarkerDetection.MarkerPausesCumulative | aestheticodes-core/src/main/java/uk/ac/horizon/aestheticodes/controllers/MarkerDetector.java:121-128 | a frame with a marker stops the cumulative counter for the next three frames, whatever they show |
| MarkerDetection.DetectionThread.constructor | aestheticodes-core/src/main/java/uk/ac/horizon/aestheticodes/controllers/MarkerDetector.java:59-60 | a new thread starts both counters at 0 |
| MarkerDetection.DetectionThread.ThresholdImage | aestheticodes-core/src/main/java/uk/ac/horizon/aestheticodes/controllers/MarkerDetector.java:251-313 | the cumulative counter rises by one when more than two frames have passed without marker. The frame is then thresholded over the tile grid for that counter, or adaptively with the block size for that counter |
| MarkerDetection.DetectionThread.MarkersFound | aestheticodes-core/src/main/java/uk/ac/horizon/aestheticodes/controllers/MarkerDetector.java:121-128 | the run of frames without marker grows by one, or restarts at 0 when a marker was found; the cumulative counter is unchanged |
| MarkerDetection.DetectionThread.ProcessFrame | aestheticodes-core/src/main/java/uk/ac/horizon/aestheticodes/controllers/MarkerDetector.java:77-128 | one frame with data moves the counters as `AfterFrame` says, which the lemmas above describe over runs of frames |
| MarkerDetection.MarkerDetector.constructor | aestheticodes-core/src/main/java/uk/ac/horizon/aestheticodes/controllers/MarkerDetector.java:320-321 | a new detector has no thread and the running flag set |
| MarkerDetection.MarkerDetector.Start | aestheticodes-core/src/main/java/uk/ac/horizon/aestheticodes/controllers/MarkerDetector.java:361-370 | without a thread, a new thread with counters at 0 and the running flag set; with one, nothing changes |
| MarkerDetection.MarkerDetector.Stop | aestheticodes-core/src/main/java/uk/ac/horizon/aestheticodes/controllers/MarkerDetector.java:372-376 | the running flag is cleared and the thread dropped, so the next start begins from fresh counters |
| EmbeddedChecksum.WeightsSkipMultiplesOf7 | artcodes-scanner/src/main/java/uk/ac/horizon/artcodes/detect/marker/MarkerEmbeddedChecksumDetector.java:163-167 | no weight is a multiple of 7, and each weight is the next positive number after the previous that is not one |
| EmbeddedChecksum.TransformSkipsMultiplesOf7 | artcodes-scanner/src/main/java/uk/ac/horizon/artcodes/detect/marker/MarkerEmbeddedChecksumDetector.java:152-162 | for values 1 to 54 the transform gives the value-th positive number that is not a multiple of 7, as the source comment promises |
| EmbeddedChecksum.TransformHitsMultipleOf7 | artcodes-scanner/src/main/java/uk/ac/horizon/artcodes/detect/marker/MarkerEmbeddedChecksumDetector.java:162 | from 55 on that promise fails: 55 becomes 63 and 301 becomes 350 |
| EmbeddedChecksum.SkipSevensAvoidsMultiplesOf7 | artcodes-scanner/src/main/java/uk/ac/horizon/artcodes/detect/marker/MarkerEmbeddedChecksumDetector.java:152-155 | the transform the comment promises, `v + (v - 1) / 6`, never gives a multiple of 7 and runs through the other positive numbers in order |
| EmbeddedChecksum.SkipSevensMatchesTransform | artcodes-scanner/src/main/java/uk/ac/horizon/artcodes/detect/marker/MarkerEmbeddedChecksumDetector.java:162 | the promised transform equals the code's transform on the values 1 to 54 |
| EmbeddedChecksum.SkipSevensPast54 | artcodes-scanner/src/main/java/uk/ac/horizon/artcodes/detect/marker/MarkerEmbeddedChecksumDetector.java:162 | at 55 the two part: the promised transform gives 64, the code's gives 63 |
| EmbeddedChecksum.ReductionAgrees | artcodes-scanner/src/main/java/uk/ac/horizon/artcodes/detect/marker/MarkerEmbeddedChecksumDetector.java:169 | for a positive sum, `(w - 1) % 7 + 1` is the `w % 7`-or-7 value that `Experience` demands |
| EmbeddedChecksum.SmallCodesKeepWeightedSum | artcodes-scanner/src/main/java/uk/ac/horizon/artcodes/detect/marker/MarkerEmbeddedChecksumDetector.java:156-168 | on up to six values from 0 to 6, the transformed sum is the plain positional weighted sum |
| EmbeddedChecksum.ZeroCodeReduction | artcodes-scanner/src/main/java/uk/ac/horizon/artcodes/detect/marker/MarkerEmbeddedChecksumDetector.java:156-169 | all-zero values give weighted sum 0, which reduces to 0 |
| EmbeddedChecksum.ChecksumExample | artcodes-scanner/src/main/java/uk/ac/horizon/artcodes/detect/marker/MarkerEmbeddedChecksumDetector.java:152 | the example of the source comment: 1:1:2:4:4 has weighted sum 45 and needs 3 dots |
| EmbeddedChecksum.DotStep | artcodes-scanner/src/main/java/uk/ac/horizon/artcodes/detect/marker/MarkerEmbeddedChecksumDetector.java:120-126 | a hollow dot is counted and the walk moves to its next sibling |
| EmbeddedChecksum.BadDot | artcodes-scanner/src/main/java/uk/ac/horizon/artcodes/detect/marker/MarkerEmbeddedChecksumDetector.java:127-130 | a child that is not a hollow dot means there is no checksum region |
| EmbeddedChecksum.GetChecksumRegionAtNode | artcodes-scanner/src/main/java/uk/ac/horizon/artcodes/detect/marker/MarkerEmbeddedChecksumDetector.java:106-134 | a region worth the number of children (at least 1) exactly when the node has children and every one is a hollow dot (a single child that passes `isValidDot`); null otherwise |
| EmbeddedChecksum.StopEarly | artcodes-scanner/src/main/java/uk/ac/horizon/artcodes/detect/marker/MarkerEmbeddedChecksumDetector.java:72-90 | once the children seen so far hold too many regions, two non-region children, or a non-region child that is no checksum region, no later child can rescue the marker |
| EmbeddedChecksum.SkipStep | artcodes-scanner/src/main/java/uk/ac/horizon/artcodes/detect/marker/MarkerEmbeddedChecksumDetector.java:64-67 | an ignored empty region changes nothing but the position of the walk |
| EmbeddedChecksum.RegionStep | artcodes-scanner/src/main/java/uk/ac/horizon/artcodes/detect/marker/MarkerEmbeddedChecksumDetector.java:68-77 | a region joins the list (created on the first region) while the list has room |
| EmbeddedChecksum.OverflowStop | artcodes-scanner/src/main/java/uk/ac/horizon/artcodes/detect/marker/MarkerEmbeddedChecksumDetector.java:72-75 | a region that finds `maxRegions` regions already collected ends the walk with null |
| EmbeddedChecksum.ChecksumStep | artcodes-scanner/src/main/java/uk/ac/horizon/artcodes/detect/marker/MarkerEmbeddedChecksumDetector.java:79-86 | the first non-region child must be a checksum region; if it is, the walk goes on holding it, otherwise the result is null |
| EmbeddedChecksum.SecondOtherStop | artcodes-scanner/src/main/java/uk/ac/horizon/artcodes/detect/marker/MarkerEmbeddedChecksumDetector.java:87-90 | a second non-region child ends the walk with null |
| EmbeddedChecksum.WalkDone | artcodes-scanner/src/main/java/uk/ac/horizon/artcodes/detect/marker/MarkerEmbeddedChecksumDetector.java:93-103 | after the last child: no marker without regions; otherwise the sorted marker, when the superclass accepts its region list |
| EmbeddedChecksum.CreateMarkerForNode | artcodes-scanner/src/main/java/uk/ac/horizon/artcodes/detect/marker/MarkerEmbeddedChecksumDetector.java:55-104 | a marker exactly when all of these hold: the children hold between 1 and max(1, maxRegions) kept regions, in sibling order; there is at most one other child, and that one is a checksum region; and the superclass accepts the sorted marker |
| EmbeddedChecksum.WeightCounter | artcodes-scanner/src/main/java/uk/ac/horizon/artcodes/detect/marker/MarkerEmbeddedChecksumDetector.java:163-167 | the loop's weight counter, bumped past a multiple of 7, is the weight of the current position |
| EmbeddedChecksum.SumStep | artcodes-scanner/src/main/java/uk/ac/horizon/artcodes/detect/marker/MarkerEmbeddedChecksumDetector.java:167 | each pass adds the transformed value times its weight to the running sum |
| EmbeddedChecksum.HasValidChecksum | artcodes-scanner/src/main/java/uk/ac/horizon/artcodes/detect/marker/MarkerEmbeddedChecksumDetector.java:144-173 | for a marker with a checksum region: whether its dot count is `(sum - 1) % 7 + 1` of the transformed weighted sum; for any other marker, the superclass's verdict |
| EmbeddedChecksum.EmptyCodeFails | artcodes-scanner/src/main/java/uk/ac/horizon/artcodes/detect/marker/MarkerEmbeddedChecksumDetector.java:169 | a code whose regions are all empty never passes, since its sum reduces to 0 and a checksum region has at least one dot |
| EmbeddedChecksum.SmallMarkersAgreeWithExperience | artcodes-scanner/src/main/java/uk/ac/horizon/artcodes/detect/marker/MarkerEmbeddedChecksumDetector.java:152-169 | on up to six values from 0 to 6 with a positive weighted sum, this detector's checksum law and `Experience.hasValidEmbeddedChecksum` accept the same checksums |

## Left out

- Image processing is not modelled: OpenCV's blur, Otsu and adaptive thresholds, resizing, cropping, rotation, contour finding and drawing. A frame is its height, width and the number of markers found in it. The hierarchy is given as its `FIRST_NODE` and `NEXT_NODE` columns, with a rank showing that sibling chains do not cycle.
- `MarkerCode.findMarker`, `MarkerSelection` (the temporal smoothing of detections) and the superclass `MarkerDetector` of the embedded-checksum detector are not part of this model. The superclass's settings and hooks (`createRegionForNode`, `isValidDot`, `sortCode`, `isValidRegionList`, its own `hasValidChecksum`) are fields of `Detector`, and `sortCode` returns the sorted marker rather than sorting in place.
- The `run` loop of the detection thread, its `running` flag as a stop signal, the frames without data (which wait 200 ms and leave the counters alone), camera autofocus and the clock are left out, since they are I/O and timing. `ProcessFrame` is one pass with data.
- Exceptions caught by the `run` loop and by the text validators are left out; a token that `parseInt` refuses is `None`.
- JavaText.ParseInt: does not model `Integer.parseInt` refusing numbers outside the 32-bit range; every numeral is read as an unbounded integer.
- JavaText.ParseInt: reads ASCII digits only. `Integer.parseInt` also accepts the other Unicode decimal digits (such as fullwidth ones) through `Character.digit`; here such a token is not a number.
- Java's 32-bit `int` overflow is left out throughout: in the sums of `hasValidChecksum` and both weighted sums, in the frame counters, and in the odometer digits. It needs more than two billion frames or values far above any region count.
- CodeAssignment.NextUnusedCode: requires `minRegions >= 1`. With length 0 the Java loop never ends unless the empty code is valid and unused.
- CodeAssignment.NextUnusedCodeAnyLength: requires `minRegions >= 1`, for the same reason.
- ExperienceModel.Experience.GetNextUnusedMarker: requires `minRegions >= 1`, for the same reason.
- The marker metadata of `Experience` and `Marker` is left out, since no validation or search reads it. This covers the getters and setters, name, icon, dates, owner, version and so on. A marker is its code.
- The user interface, HTTP sources and dialogs are not part of this model.

## Findings

| source | as written | input that shows it | evidently intended | confidence | as-written member | corrected member |
|---|---|---|---|---|---|---|
| aestheticodes-core/src/main/java/uk/ac/horizon/aestheticodes/model/Experience.java:392-395 | when the first digit overflows, `return null` leaves the whole method, so the loop over lengths never reaches `minRegions + 1` | minRegions 1, maxRegions 2, maxRegionValue 1, checksum modulo 1, no empty or validation regions, with a marker "1" already present | hand out "1:1", the first valid code of the next length | not executed; medium (the loop over lengths has no other use) | CodeAssignment.NextUnusedCode, CodeAssignment.LengthLoopSkipsLongerCodes | CodeAssignment.NextUnusedCodeAnyLength, used by ExperienceModel.Experience.GetNextUnusedMarker |
| artcodes-scanner/src/main/java/uk/ac/horizon/artcodes/detect/marker/MarkerEmbeddedChecksumDetector.java:153-162 | `value += (value + value / 7) / 7` meets the comment's promise, no transformed value divisible by 7, for the values 1 to 54 only | a region of 55 dots becomes 63 (and 301 becomes 350) | `v + (v - 1) / 6`, the `v`-th positive number that is not a multiple of 7, as the comment's table lists | not executed; low (a region of 55 dots is far above any realistic `maxRegionValue`, and the checksum still works, only less evenly) | EmbeddedChecksum.Transform, EmbeddedChecksum.TransformHitsMultipleOf7 | EmbeddedChecksum.SkipSevens, EmbeddedChecksum.SkipSevensAvoidsMultiplesOf7, EmbeddedChecksum.SkipSevensMatchesTransform |
