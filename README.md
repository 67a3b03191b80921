# image_to_webp, modelled in Dafny

`image_to_webp.py` is a command-line batch converter. It validates its arguments, lists a directory and picks the `.jpg`, `.jpeg` and `.png` regular files in sorted order. Each file is resized to a target box and saved as WebP under the name `<stem>.webp`. When an output already exists and `--overwrite` is not given, the file is skipped. The script counts processed, skipped and failed files and exits with status 1 when the input directory is missing or any file failed.

This project models the parts of the script that make decisions:

- `Sizing` is `get_target_size`. Scales are exact rationals (`real`), and `int(round(x))` is modelled as round-half-to-even on the exact value. `AspectSize` restates the aspect-locked branch in integer arithmetic, and `AspectSizeInIntegers` proves the two definitions equal.
- `Options` is the argument checks of `parse_args`.
- `Names` covers the suffix and stem of a file name, the case-insensitive extension test and the output name.
- `Listing` covers candidate selection and sorting.
- `Batch` is the loop of `main`: the skip/overwrite rule, the three counters and the exit status. `Batch.Run` is `main` after parsing. `Batch.ProcessCandidates` is its `for` loop, a method whose invariants tie the counters to the specification functions `Reports`, `Present` and `Count`.
- `Transform` is `process_image` with the imaging library abstracted away. A decoded image is its stored size, its EXIF orientation tag and its ICC profile. The encoded result is the size it is resampled to plus the encoder options.

The filesystem is supplied as inputs:

- `inputIsDir`: what `is_dir` says of the input directory.
- `entries`: what `iterdir` lists, each entry a name plus an is-regular-file flag.
- `existing`: the set of names already in the output directory.
- `converts`: an oracle keyed by input name that says whether `process_image` succeeds or raises.

A success adds the output name to the directory. A failure leaves the directory unchanged: either nothing was written, or the imaging library removes a file it created when saving fails.

The output directory is modelled as a set that the run updates, not as a per-entry "output exists" flag. This matters when two inputs share a stem. `a.jpg` and `a.png` both map to `a.webp`, so the second one in sorted order is skipped once the first has been converted (`Batch.SameStemSkipsLater`).

Behaviour worth knowing:

- The zero-size short-circuit exists only in the aspect-locked branch (`image_to_webp.py:68-70`), where a zero-sided original is returned unchanged. The fixed-box branch has no such check. Without `--no-upscale` it returns the target box. With `--no-upscale` it clamps each side to the box, so a zero side stays zero.
- Both sides of the result are at least 1 under every flag combination when the original and the box have positive sides (`Sizing.PositiveInputsGivePositiveSize`). A zero-sided original keeps its zero side in the aspect-locked branch and in the fixed box with `--no-upscale` (`Sizing.ZeroSideIsNotFloored`).
- Invalid arguments end the run through `parser.error`, whose exit status is 2 (`Options.UsageExitCode`).
- An empty candidate list returns 0 before the counters and the summary line exist.
- A second run without `--overwrite` skips every file that did not fail the first time (`Batch.SecondRunSkips`). A file that failed is tried again unless its output name is present for another reason, such as a file with the same stem.
- The size is resolved from the size stored in the file, before the EXIF orientation is applied (see Findings).

## Model

| member | source | states |
|---|---|---|
| `Sizing.RoundHalfEven` | image_to_webp.py:79-80 | the result is within one half of x, and on a tie it is even |
| `Sizing.RoundHalfEvenUnique` | image_to_webp.py:79-80 | any integer with those two properties is the result, so the contract defines Python's rounding |
| `Sizing.RoundMonotone` | image_to_webp.py:79-80 | rounding preserves order |
| `Sizing.RoundDivIsRoundHalfEven` | image_to_webp.py:79-80 | rounding the exact quotient n / d equals the integer-only quotient rounding |
| `Sizing.Scale` | image_to_webp.py:72-77 | the factor is at most both axis ratios, at most 1 under no-upscale, and equal to one of the ratios or to the clamp 1 |
| `Sizing.ScaledSide` | image_to_webp.py:79-80 | an aspect-locked side is never below 1 |
| `Sizing.TargetSize` | image_to_webp.py:59-89 | aspect-locked: a zero-sided original is returned unchanged, otherwise both sides are at least 1 |
| `Sizing.AspectSizeInIntegers` | image_to_webp.py:68-81 | `TargetSize` equals its integer-only restatement `AspectSize`, which gives the aspect-locked result for a positive original: the original if it fits under no-upscale; else (tw, round(oh*tw/ow)) when tw*oh <= th*ow, and symmetrically otherwise, each floored at 1 |
| `Sizing.AspectFitsTargetBox` | image_to_webp.py:72-81 | aspect-locked, positive original and box: 1 <= w <= tw and 1 <= h <= th |
| `Sizing.AspectNoUpscaleNeverEnlarges` | image_to_webp.py:74-81 | aspect-locked with no-upscale: neither side exceeds the original, for any box |
| `Sizing.AspectNoUpscaleKeepsFittingImage` | image_to_webp.py:74-81 | aspect-locked with no-upscale: an original inside the box comes back exactly |
| `Sizing.AspectWidthFollowsScale` | image_to_webp.py:72-80 | the factor is positive and the width is ow times it to within half a pixel, or 1 when that is below one half |
| `Sizing.AspectHeightFollowsScale` | image_to_webp.py:72-80 | the height follows the same factor as the width, with the same tolerance |
| `Sizing.FixedBoxClampsEachAxis` | image_to_webp.py:83-89 | fixed box: the result is the target without no-upscale; with it each side is the smaller of original and target side |
| `Sizing.FixedBoxAxesIndependent` | image_to_webp.py:85-87 | fixed box: the width depends only on the widths and the height only on the heights |
| `Sizing.PositiveInputsGivePositiveSize` | image_to_webp.py:59-89 | positive original and box give both sides at least 1 under every flag combination |
| `Sizing.ZeroSideIsNotFloored` | image_to_webp.py:68-70 | a 0x5 original stays 0x5 in the fixed box with no-upscale and in the aspect-locked branch |
| `Sizing.ExampleBatchSizes` | image_to_webp.py:59-89 | into a 400x400 box, aspect-locked with no-upscale, 800x600 becomes 400x300 and 200x100 is kept |
| `Options.Validate` | image_to_webp.py:51-54 | accepted iff width > 0, height > 0 and 0 <= quality <= 100; the size error is reported before the quality error |
| `Names.LastDot` | image_to_webp.py:134 | the index of the last '.', with no '.' after it, or -1 when the name has none |
| `Names.Suffix` | image_to_webp.py:134 | a non-empty suffix starts with its only '.'; names without a suffix give "" |
| `Names.StemSuffixSplit` | image_to_webp.py:146 | `Stem` (`p.stem`) followed by `Suffix` (`p.suffix`) is the name, and a non-empty name has a non-empty stem |
| `Names.LowerChar` | image_to_webp.py:134 | upper-case ASCII letters map to lower case and all other characters are unchanged |
| `Names.Lower` | image_to_webp.py:134 | same length, lower-cased character by character |
| `Names.ExtensionShape` | image_to_webp.py:12 | each accepted extension is a dot followed by at least three lower-case characters that are not dots |
| `Names.SupportedIffEndsWithExtension` | image_to_webp.py:134 | `IsSupported` (`p.suffix.lower() in SUPPORTED_EXTENSIONS`) holds iff it ends, ignoring case, in .jpg, .jpeg or .png with at least one character before that ending |
| `Names.OutputNameShape` | image_to_webp.py:146 | `OutputName` (`f"{p.stem}.webp"`) of a non-empty name is longer than ".webp", ends in ".webp", and what comes before that, followed by the input's suffix, is the input; so the output name is the input's stem followed by ".webp" |
| `Names.OutputNameDiffers` | image_to_webp.py:146 | an accepted input never has its own name as its output name |
| `Listing.LessEqTotal` | image_to_webp.py:133 | the order used by `sorted` is total |
| `Listing.LessEqAntisymmetric` | image_to_webp.py:133 | two names ordered both ways are equal |
| `Listing.Insert` | image_to_webp.py:133 | inserting into a sorted list gives a sorted list with one more copy of x |
| `Listing.SortNames` | image_to_webp.py:133 | the output is sorted and is a permutation of the input |
| `Listing.SupportedFiles` | image_to_webp.py:133-135 | contains exactly the names of regular-file entries with an accepted suffix |
| `Listing.Candidates` | image_to_webp.py:133-135 | sorted, a permutation of the selected names, and containing exactly the supported regular files |
| `Listing.SortedArrangementUnique` | image_to_webp.py:133 | only one sorted arrangement exists, so the processing order is fully determined |
| `Batch.Present` | image_to_webp.py:145-168 | the output directory after a run contains everything that was there before |
| `Batch.PresentOnlyAddsOutputs` | image_to_webp.py:145-168 | a run adds nothing but output names of its candidates |
| `Batch.PresentGrows` | image_to_webp.py:145-168 | the output directory only gains names as the loop goes on |
| `Batch.Reports` | image_to_webp.py:145-168 | one report per candidate |
| `Batch.ReportNames` | image_to_webp.py:145-168 | report i carries candidate i and its output name, so the reports follow the candidates' order |
| `Batch.Step` | image_to_webp.py:145-168 | each iteration appends one report and adds the output name only on a conversion |
| `Batch.Count` | image_to_webp.py:141-168 | a count never exceeds the number of reports |
| `Batch.CountAppend` | image_to_webp.py:151-168 | each iteration increments only the counter of its outcome |
| `Batch.CountExtremes` | image_to_webp.py:141-168 | a count is 0 iff no report has that outcome, and equals the length iff all do |
| `Batch.CountsPartition` | image_to_webp.py:141-168 | processed + skipped + failed is the number of reports |
| `Batch.OutcomeRule` | image_to_webp.py:149-168 | the decision `Decide` as it is applied to candidate i against the directory left by candidates 0..i-1: a file is skipped iff its output is present and overwrite is off; otherwise it is processed iff the conversion succeeds, and fails iff it raises |
| `Batch.NonFailedOutputPresent` | image_to_webp.py:149-168 | after a run, the output of every candidate that did not fail exists |
| `Batch.SecondRunSkips` | image_to_webp.py:149-152 | on a second run without overwrite, each file that did not fail the first time is skipped |
| `Batch.EverySecondSkipped` | image_to_webp.py:149-152 | after a run with no failures, every report of a second run without overwrite is a skip |
| `Batch.SecondRunSkipsAll` | image_to_webp.py:149-152 | after a run with no failures, a second run without overwrite skips all and processes none |
| `Batch.OverwriteIgnoresExisting` | image_to_webp.py:149-168 | with overwrite on, nothing is skipped and earlier output-directory contents make no difference |
| `Batch.SameStemSkipsLater` | image_to_webp.py:146-152 | with a.jpg and a.png, a.jpg is converted and a.png is skipped because a.webp now exists |
| `Batch.ProcessCandidates` | image_to_webp.py:141-168 | the loop's reports, output directory and counters equal the specification, and the counters sum to the number of candidates |
| `Batch.Run` | image_to_webp.py:124-173 | invalid arguments exit with 2 and touch nothing; a missing input directory exits with 1 before mkdir; otherwise the output directory is created, the specified reports and counters result, exit is 1 iff a file failed, and no candidates gives 0 |
| `Transform.DisplayedSize` | image_to_webp.py:110 | applying the orientation keeps the same two sides, and an upright tag keeps the stored size |
| `Transform.ProcessImage` | image_to_webp.py:101-121 | the ICC profile is passed through verbatim, with quality, lossless and effort 6; the size is resolved from the stored size |
| `Transform.ProcessImageOriented` | image_to_webp.py:101-121 | same profile and encoder options; the size is `TargetSize` of the displayed size (the stored size with the sides swapped for tags 5-8) |
| `Transform.OrientedAgreesWhenUpright` | image_to_webp.py:103-110 | without a 90-degree orientation, the two versions agree |
| `Transform.RotatedPhotoIsStretched` | image_to_webp.py:103-110 | an 800x600 photo with orientation 6 in a 1000x1000 box is written 800x600 although the user sees it as 600x800 |
| `Transform.OrientedKeepsDisplayedAspect` | image_to_webp.py:103-110 | the corrected step fits the box, scales both displayed sides by one factor, and keeps a fitting displayed image unchanged |

## Findings

| source | as written | input that shows it | evidently intended | confidence | as-written member | corrected member |
|---|---|---|---|---|---|---|
| image_to_webp.py:103-110 | The target size is resolved from `img.size`, the size stored in the file. `exif_transpose` then turns the picture, and the turned picture is resampled to that size. | A JPEG stored 800x600 with EXIF orientation 6 (seen as 600x800), target 1000x1000, `--keep-aspect-ratio --no-upscale`. It is written 800x600, which stretches the portrait picture into landscape. | Resolve the size from the oriented picture, giving 600x800. | high; not executed | `Transform.ProcessImage` (`Transform.RotatedPhotoIsStretched`) | `Transform.ProcessImageOriented` (`Transform.OrientedKeepsDisplayedAspect`) |

## Left out

- Pixel work by the imaging library: decoding, the pixel transform of `exif_transpose`, LANCZOS resampling and WebP encoding. These are foreign calls. An image is reduced to its size, orientation tag and ICC profile.
- The orientation tag is read as an integer, with 1 meaning no tag. Tags 5 to 8 swap the sides. Any other value leaves the size unchanged.
- Floating-point behaviour of `/` and `round`. Scales are exact rationals, so a result that IEEE-754 rounding would change by one pixel is not modelled.
- argparse itself, the two directory paths and all printed text. The per-file reports and the counters stand in for the printed lines.
- The filesystem calls `is_dir`, `iterdir`, `is_file`, `exists` and `mkdir` are inputs or a flag. An exception raised by one of them outside the per-file `try` (for example `mkdir` without permission) ends the script with a traceback, and that path is not modelled.
- `Batch.Run`: whether `process_image` succeeds is an oracle of the input name alone. The model does not capture a failure that depends on the output path or on earlier writes.
- Path order is code-point order on names, as POSIX paths with a common parent compare. Windows' case-insensitive path comparison is not modelled.
- Lower-casing is ASCII only. Python's full Unicode `lower` gives the same answer on the extension test, because no non-ASCII character lower-cases to a character of ".jpg", ".jpeg" or ".png".
- Suffix and stem follow the rule of Python 3.12's `pathlib`: the part from the last dot on is the suffix when that dot is neither the first nor the last character of the name. So "..png" counts as a `.png` file. Other Python versions are not modelled.
- `Transform.ProcessImage`: quality is passed through in lossless mode too, where the encoder reads it as an effort level. That reinterpretation is not modelled.
