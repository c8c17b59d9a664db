# Book-cover layout validator — Dafny model

This project models the analysis core of a book-cover validator. The
validator takes a two-page spread, cuts out the front cover (the right half),
and renders it twice as black-and-white images. The first rendering uses a
grey threshold of 160 and suits light text on dark backgrounds. The second
uses 120 and suits dark text on light backgrounds. A text detector reads
boxes from each rendering. The checker turns the boxes into issues:

- a CRITICAL "Text Overlap" when text reaches into the award-badge band at
  the bottom of the cover;
- a MINOR "Margin Violation" when text touches a side safety margin.

The aggregator merges the issues of both scans. It adds a MINOR
"Low Resolution" issue for covers narrower than 1000 pixels and removes
duplicates. It then derives a status (PASS or REVIEW NEEDED) and a score
(100, 80 or 10). The upload gate that accepts only `.png` and `.pdf` names is
modelled too.

Modules, leaf first:

- `Wrappers`: `Option`.
- `Text`: ASCII `isspace`, `lower()`, `strip()`, `split()`, the last
  occurrence of a character (for `rsplit('.', 1)`), and decimal rendering.
- `Upload`: `allowed_file`.
- `Raster`: grey images, the front-cover crop, threshold, invert and the two
  renderings.
- `Checker`: `TextBox`, `Issue`, the per-box check and the scan of a box list.
- `Aggregator`: deduplication, status and score, and the entry points.
  `AnalyzeRegion` takes the cover size and the two box lists.
  `AnalyzeImage` takes the spread and the text detector as a function
  parameter.
- `Scenarios`: worked examples on a 1500 x 2400 cover.

Modelling choices:

- The float bounds `height * (1.0 - 0.045)` and `width * 0.024` are
  compared as exact rationals:
  - badge band: `1000*(y+h) > 955*height`;
  - left margin: `1000*x < 24*width`;
  - right margin: `1000*(x+w) > 976*width`.
- An issue is a datatype `TextOverlap(text) | MarginViolation(text) | LowResolution(width)`.
  `Issue.Record` rebuilds the source's (type, details, severity) strings.
  `Checker.RecordInjective` proves that equal records mean equal issues.
  So deduplicating issues is the same as deduplicating the source's records.
- The source keeps the distinct issues in Python set-iteration order, which
  is unspecified. The model keeps the first occurrence of each. Most
  properties of the final list are stated on its elements and length. These
  members compare whole lists or reports, so they hold for the model's
  first-occurrence order and not necessarily for the source's order:
  `Aggregator.DedupIdempotent`, `Aggregator.DedupRepeatedPrefix`,
  `Aggregator.FinalizeIdempotent`, `Aggregator.IdenticalScansCollapse` and
  `Aggregator.AnalyzeImageIgnoresLeftHalf`. The scenarios end with at most
  one issue, so order does not arise there.
- The code appends the low-resolution warning before deduplicating, and the
  model follows that order. A scan never yields a resolution issue
  (`Checker.ScanHasNoResolutionIssue`), so deduplicating first and appending
  after would give the same elements.

## Model

| member | source | states |
|---|---|---|
| Upload.Extension | validator_api.py:32 | No extension iff the name has no dot. Otherwise the extension has no dot, and the name is the part before the last dot, then the dot, then the extension. |
| Upload.AllowedFile | validator_api.py:12-32 | A name is accepted iff its last four characters are a dot followed by "png" or "pdf" in any letter case. |
| Upload.NoDotRefused | validator_api.py:32 | A name without a dot is refused. This includes the empty name. |
| Upload.EarlierExtensionIgnored | validator_api.py:32 | Only the text after the last dot counts: "a.pdf.txt" is refused. |
| Upload.UpperCaseExtensionAccepted | validator_api.py:32 | The extension is lower-cased before the test: "a.txt.PDF" is accepted. |
| Text.LastIndexOf | validator_api.py:32 | Gives the position of the last occurrence, with no later occurrence. Gives nothing iff the character does not occur. |
| Text.Lower | validator_api.py:74 | The result has the input's length and no capital letter. Every character that is not a capital is kept in place, and each capital becomes its small letter. |
| Text.LowerIdempotent | validator_api.py:74 | Lower-casing twice is the same as lower-casing once. |
| Text.Strip | validator_api.py:74 | The stripped text is empty iff the input is all whitespace. Otherwise it starts and ends with non-whitespace. |
| Text.StripIsTrimmedSlice | validator_api.py:74 | The stripped text is a slice of the input, and everything cut off on either side is whitespace. |
| Text.Split | validator_api.py:82 | Every word is non-empty and holds no whitespace. There are no words iff the text is all whitespace. |
| Text.SplitKeepsNonSpace | validator_api.py:82 | The words, joined with nothing between them, are exactly the non-whitespace characters of the text, in order. |
| Text.SplitJoinWords | validator_api.py:82 | Words joined by single spaces split back into the same words. |
| Text.SplitAtSpace | validator_api.py:82 | Any whitespace character is a word boundary: splitting `a`, a whitespace character, then `b` gives the words of `a` followed by the words of `b`. Together with `Text.SplitWord` this fixes the words as the maximal runs of non-whitespace. |
| Text.SplitWord | validator_api.py:82 | A non-empty text without whitespace splits into exactly itself. |
| Text.SplitTabExample | validator_api.py:82 | A tab separates words: "ab\tcd" splits into "ab" and "cd". |
| Text.Decimal | validator_api.py:117 | The rendering of a width is a non-empty string of decimal digits without a leading zero. |
| Text.ParseDecimalOfDecimal | validator_api.py:117 | Reading back the decimal rendering of a width gives the width. |
| Raster.CoverWidth | validator_api.py:56-59 | The cover width plus the floor of half the spread width is the spread width. The cover width is at least half the spread width and at most half plus one. |
| Raster.FrontCover | validator_api.py:56-59 | The cover is a valid image of width `W - W//2` and the full height. Its pixel at column `j - W//2` is the spread's pixel at column `j`, for every `j` in `[W//2, W)`. |
| Raster.FrontCoverIgnoresLeftHalf | validator_api.py:57-58 | Two spreads that agree on columns `[W//2, W)` give the same cover. |
| Raster.Threshold | validator_api.py:103 | The output is two-level. A pixel is 255 iff its grey value exceeds the threshold. |
| Raster.Invert | validator_api.py:104 | Each output pixel plus the input pixel is 255, and the output stays in 0..255. |
| Raster.InvertInvolutive | validator_api.py:104 | Inverting twice gives back the image. |
| Raster.Binarize | validator_api.py:102-110 | A rendering is two-level and the same size as the cover. A pixel is 0 when its grey value exceeds the threshold and 255 otherwise. |
| Raster.DualScanNested | validator_api.py:102-110 | Every pixel black in the threshold-160 rendering is black in the threshold-120 rendering. The two renderings differ exactly on grey values 121..160. |
| Checker.RecordInjective | validator_api.py:84-123 | Two issues have the same (type, details, severity) record iff they are equal. This holds because the detail strings are injective in the text and in the width. |
| Checker.Issue.Record | validator_api.py:84-119 | The severity is "CRITICAL" iff the issue is an overlap, and "MINOR" otherwise. The type string names the kind, one distinct string per kind. The details quote the detected text, or the width in decimal, right after their fixed opening words. |
| Checker.Kept | validator_api.py:73-76 | A box is looked at iff its confidence is above 30 and its text, once stripped, has more than two characters. |
| Checker.InAwardZone | validator_api.py:65-81 | The bottom edge `y + h` exceeds 95.5% of the cover height iff, in whole pixels, it exceeds `floor(0.955 * height)`. |
| Checker.InMargin | validator_api.py:66-90 | A box touches a margin iff its left edge is before column `ceil(0.024 * width)` or its right edge `x + w` passes column `floor(0.976 * width)`. This is the same as comparing with 2.4% of the width exactly. |
| Checker.AllIgnoredIff | validator_api.py:83 | The recursive "all words ignored" test holds iff every word is one of the eight badge words. |
| Checker.KeptHasWords | validator_api.py:73-83 | A box that passes the filters always has at least one word. So the `if words` guard never rejects it. |
| Checker.CheckBox | validator_api.py:73-95 | A box with confidence at most 30, or with at most 2 characters after strip and lower-casing, gives no issue. A kept box gives a minor margin violation iff it touches a side margin. A box gives no issues other than the overlap and the margin violation naming its text as detected, at most two, and the overlap comes first. |
| Checker.CheckBoxOverlap | validator_api.py:81-88 | A box gives the critical overlap iff it passes both filters, its bottom edge is in the badge band, and some word of its stripped, lower-cased text is not a badge word. |
| Checker.Scan | validator_api.py:71-96 | A scan gives at most two issues per box. |
| Checker.ScanContains | validator_api.py:71-96 | An issue comes out of a scan iff some box of the list gives it. |
| Checker.ScanAppend | validator_api.py:71-96 | Scanning two box lists one after the other gives the two scans' issues one after the other. |
| Checker.DiscardedBoxInvisible | validator_api.py:73-76 | Inserting a box that fails a filter, anywhere in the list, leaves the scan unchanged. |
| Checker.ScanHasNoResolutionIssue | validator_api.py:63-96 | A scan never gives a resolution issue. |
| Checker.ScanCriticalIff | validator_api.py:81-88 | A scan holds a critical issue iff one of its boxes passes the filters, reaches into the badge band and has a word that is not a badge word. |
| Aggregator.Dedup | validator_api.py:123 | The deduplicated list has no duplicates, has the same elements as its input, and is no longer. |
| Aggregator.DedupIdempotent | validator_api.py:123 | Deduplicating twice is the same as once. |
| Aggregator.DedupRepeatedPrefix | validator_api.py:123 | Repeating a block of issues changes nothing after deduplication. |
| Aggregator.ResolutionIssues | validator_api.py:114-119 | The resolution warning is present iff the cover is narrower than 1000 pixels. It names the cover width. |
| Aggregator.Finalize | validator_api.py:121-132 | The issues are the distinct collected issues, each once. The status is REVIEW NEEDED iff some issue is critical. The score is 10 iff some issue is critical, 80 iff there are issues but none is critical, and 100 iff there are none. |
| Aggregator.FinalizeDependsOnElements | validator_api.py:123-132 | Status, score, the set of final issues and their number depend only on which issues were collected. Order and repetition do not matter. |
| Aggregator.FinalizeIdempotent | validator_api.py:123-132 | Finalising the final issue list again gives the same report. |
| Aggregator.MoreIssuesNeverHelp | validator_api.py:125-132 | Adding issues never raises the score or clears REVIEW NEEDED. Adding a critical issue forces REVIEW NEEDED and score 10. |
| Aggregator.CollectCritical | validator_api.py:114-126 | The collected issues hold a critical one iff one of the two scans does. |
| Aggregator.Collect | validator_api.py:105-119 | The collected list is the first scan's issues in order, then the second scan's, then the resolution warning iff the cover is narrower than 1000 pixels. Its length is the sum of those parts. |
| Aggregator.AnalyzeRegion | validator_api.py:105-137 | The final issues have no duplicates. They are exactly the issues of either scan, plus the resolution warning iff the cover is narrower than 1000 pixels. REVIEW NEEDED holds iff a final issue is critical, and then the score is 10. The score is 80 iff there are issues but none is critical. It is 100 iff there are no issues. |
| Aggregator.ReviewIffForeignTextInBadge | validator_api.py:81-126 | The report asks for review iff a box in either scan passes the filters, reaches into the badge band and has a word that is not a badge word. |
| Aggregator.ScansSymmetric | validator_api.py:105-123 | Swapping the two scans' boxes gives the same status, score and set of issues. |
| Aggregator.IdenticalScansCollapse | validator_api.py:105-123 | When both renderings detect the same boxes, the report is the same as with one scan only. |
| Aggregator.AnalyzeImage | validator_api.py:47-138 | The report has no duplicate issues. Its issues are exactly those the detector's boxes give on the threshold-160 rendering of the cover, those of the threshold-120 rendering, and the resolution warning iff the cover (`W - W//2`) is narrower than 1000 pixels. REVIEW NEEDED holds iff a final issue is critical, and then the score is 10. The score is 80 iff there are issues but none is critical. It is 100 iff there are no issues. |
| Aggregator.AnalyzeImageIgnoresLeftHalf | validator_api.py:56-59 | The left page of the spread never affects the report. |
| Scenarios.BadgeTextPasses | validator_api.py:81-88 | "Award Winner" inside the badge band of a 1500 x 2400 cover gives PASS, score 100, no issues. |
| Scenarios.ForeignTextInBadgeIsCritical | validator_api.py:81-88 | "Bestseller" inside the badge band gives one critical overlap naming it, REVIEW NEEDED, score 10. |
| Scenarios.NarrowEmptyCover | validator_api.py:114-132 | A 900-pixel-wide cover with no text gives only the resolution warning, PASS, score 80. |
| Scenarios.ShortTextDropped | validator_api.py:73-76 | "Hi" at the very edge and in the band, found by both scans, gives PASS, score 100, no issues. |

## Left out

- The HTTP endpoint `validate_cover` and the app setup (validator_api.py:26-28, 141-193) are left out. They cover request parsing, saving the upload, choosing PDF or image, error replies and deleting the temporary file. All of this is I/O.
- `convert_pdf_to_image` (validator_api.py:34-44) is left out. It is a call into an external PDF rasteriser.
- The text detector and its executable path (validator_api.py:18, 69) are not modelled. `AnalyzeImage` takes the detector as a function parameter, and `AnalyzeRegion` takes the two box lists directly. Confidence is an integer field: the truncation done by `int(conf)` on a fractional confidence is not modelled.
- RGB and palette conversion and `convert('L')` (validator_api.py:99, 165-171) are left out, because they involve weighted float rounding. The model takes the grey image of the spread as input.
- The float rounding of `height * (1.0 - 0.045)` and `width * 0.024` is not modelled; the bounds are exact rationals. The two can differ only when a box edge lands exactly on a bound that the float product misses by one rounding step.
- `strip`, `lower` and `split` are modelled for ASCII only. Unicode whitespace and non-ASCII case mapping are not covered.
- Aggregator.Dedup: the order of the final issue list is first occurrence. The source's order comes from set iteration and is unspecified, so only elements and count are claimed to match it.
- The report's `filename` field is added by the endpoint, not by the analysis, so it is not modelled.
