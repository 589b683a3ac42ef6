# video_to_lottie in Dafny

A model of the logic in `video_to_lottie.py` that turns a video into a Lottie animation. The script samples frames from the video, embeds each frame as a base64 image asset, and gives each frame one timeline layer. The model covers four parts:

- **Frame-count estimate** (`get_total_frames`), module `FrameCount`. The output of each of the first two ffprobe stages is stripped. It is accepted only if it is a non-empty run of digits with a positive value; otherwise the next stage is tried. The first stage that yields a value wins, and the result is `None` when every stage fails. The duration × rate stage is given as its outcome.
- **Sampling step** (`main`), module `FrameCount`. The step is `max(1, total_frames // target_frames)`.
- **Asset list** (`encode_frames_to_json`), modules `FrameAssets`, `NameOrder`, `FrameNames`. The function keeps the `.jpg` names of the frame folder, sorts them, and keeps the first `max_frames` with Python slice semantics. It builds one asset per image: id `fr_<idx>`, the first image's size, `u = ""`, `e = 1` and a `data:image/<format>;base64,` URI. It then calls the assembler at 24 frames per second. When nothing is selected, `selected_files[0]` raises `IndexError`; the model returns `Failure(NoFrameSelected)`.
- **Document assembly** (`create_lottie_json`), module `LottieDocument`. The assembler builds one image layer per asset. Layer `i` has `ind = i + 1` and is shown during `[i, i + 1)`. Every layer has opacity 100, position and anchor `[w/2, h/2]` and scale `[100, 100]`. The assets are passed through unchanged. The document has `ip = 0`, `op = len(frames)`, and the given `fr`, `w` and `h`.

Modelling choices:

- Both functions that loop and `append` are methods with `for` loops: `LottieDocument.CreateLottieJson` and `FrameAssets.EncodeFramesToJson`. Each is proved against a specification predicate (`Assembles`, `IsFrameAsset`).
- Everything else is a function, with lemmas proved about it.
- Python's `sorted()` is modelled as insertion sort (`NameOrder.Sort`). `NameOrder.SortedUnique` shows that only one sorted permutation exists, so the choice of sort algorithm does not matter.
- The layer position `w / 2` is true division in Python, so it is a Dafny `real`.
- The document's frame rate is fixed at 24. It does not depend on the video's own rate or on the sampling step. The model keeps this.

The code has an ordering bug; see Findings. `EncodeFramesToJson` therefore takes the order as a parameter `o`. With `Order.Lexicographic` it is the function as written: Python's `sorted()`, which compares names as text. With `Order.LengthFirst` it is the corrected function, which puts shorter names first. When all the names have the same length, the two orders agree (`NameOrder.SortEqualLengths`). That covers every folder the extractor fills with fewer than 10000 images (`FrameNames.SortPythonExtractedBelow10000`).

Three behaviours of the code that are easy to miss:

- **The third probe stage can return 0 or less.** Lines 14 and 19 accept a count only if it is positive. Line 32 returns `int(duration * fps)` whatever its value, so `get_total_frames` can return 0 or a negative number. `GetTotalFramesChain` states that only this stage can yield such a count. For such a count the step at line 244 is 1 (`StrideBounds`).
- **A negative `max_frames` drops images from the end.** `files[:max_frames]` at line 106 keeps all but the last `-max_frames` images. `encode_frames_to_json` fails only when that leaves nothing (`SelectionCount`, `SelectionEmptyIff`). `main` passes `target_frames` (line 253), which the prompt at lines 168-169 makes positive.
- **The number of extracted frames is not bounded by `target_frames + 1`.** The step at line 244 rounds down, so 19 frames with a target of 10 give step 1, and the filter at line 56 keeps all 19 frames. Only the slice at line 106 bounds the number of assets.

## Model

| member | source | states |
|---|---|---|
| PyText.IsSpace | video_to_lottie.py:13 | the characters `strip()` removes: Python's `isspace()` set, ASCII and Unicode |
| PyText.Strip | video_to_lottie.py:13 | `strip()` returns a text no longer than its input that neither starts nor ends with whitespace |
| PyText.StripSpec | video_to_lottie.py:13 | the input is the leading whitespace that `strip()` removes, then the text it keeps, then the trailing whitespace it removes |
| PyText.StripPadded | video_to_lottie.py:18 | whitespace around a text whose ends are not whitespace is exactly what `strip()` removes |
| PyText.NatToString | video_to_lottie.py:75 | `str(i)` is a non-empty digit string that starts with `0` only for 0, and it has one digit exactly when `i < 10` |
| PyText.ParseNatToString | video_to_lottie.py:15 | `int(str(n)) == n` |
| PyText.NatToStringInjective | video_to_lottie.py:116 | different indices print differently |
| PyText.IsDigitString | video_to_lottie.py:14 | `output.isdigit()`: a non-empty string of ASCII digits |
| PyText.ParseDecimal | video_to_lottie.py:14-15 | `int(s)` of a digit string, most significant digit first; `ParseNatToString`, `ParseDecimalPositive` and `ParseDecimalBound` state what it returns |
| PyText.ParseDecimalBound | video_to_lottie.py:14 | a digit string of length `k` denotes a number below `10^k` |
| PyText.ParseDecimalPositive | video_to_lottie.py:14 | `int(s) > 0` for a digit string exactly when some digit is not `0` |
| FrameCount.ProbeStage | video_to_lottie.py:13-20 | a probe stage yields only positive counts; `ProbeStageAcceptsIff` states exactly when it yields one |
| FrameCount.ProbeStageAcceptsIff | video_to_lottie.py:13-15 | a probe stage yields a value exactly when its stripped output is a non-empty digit string with a non-zero digit, and that value is positive |
| FrameCount.ProbeStageReadsCount | video_to_lottie.py:18-20 | a positive count printed with surrounding whitespace is read back exactly |
| FrameCount.ProbeStageRejectsZeros | video_to_lottie.py:14 | `"0"`, `"000"`, the empty output and whitespace-only output fall through to the next stage |
| FrameCount.FirstSome | video_to_lottie.py:13-35 | the fallback chain yields only a value that one of its stages yields; `FirstSomeIff` and `FirstSomeNone` state which |
| FrameCount.FirstSomeIff | video_to_lottie.py:10-34 | the chain yields `v` exactly when some stage yields `v` and every earlier stage yields nothing |
| FrameCount.FirstSomeNone | video_to_lottie.py:35 | the chain yields `None` exactly when every stage fails |
| FrameCount.GetTotalFrames | video_to_lottie.py:10-35 | the count is the counted probe's, the reported count's or the duration stage's; `GetTotalFramesChain` states which |
| FrameCount.GetTotalFramesChain | video_to_lottie.py:10-35 | the counted probe wins when it succeeds; otherwise the reported count wins; otherwise the duration stage decides. `None` means all three failed, and only the duration stage can yield a count that is not positive |
| FrameCount.Stride | video_to_lottie.py:244 | the sampling step is at least 1 |
| FrameCount.StrideBounds | video_to_lottie.py:244 | when `total >= target > 0`, `step * target <= total < (step + 1) * target`; when `total < target`, the step is 1 |
| NameOrder.LessEq | video_to_lottie.py:105 | Python's `<=` on strings: code points compared from the first position where the names differ, a proper prefix first. `LessEqTotal`, `LessEqTransitive` and `LessEqAntisymmetric` make it a total order |
| NameOrder.LessEqTotal | video_to_lottie.py:105 | any two names are ordered by Python's string `<=` one way or the other |
| NameOrder.LessEqTransitive | video_to_lottie.py:105 | Python's string `<=` is transitive |
| NameOrder.LessEqAntisymmetric | video_to_lottie.py:105 | two names each `<=` the other are equal |
| NameOrder.Sort | video_to_lottie.py:105 | `sorted()` keeps the number of names; `SortSortedPermutation` and `SortedUnique` pin its result |
| NameOrder.SortSortedPermutation | video_to_lottie.py:105 | `sorted()` returns its input in order and as a permutation |
| NameOrder.SortedUnique | video_to_lottie.py:105 | a list of names has only one sorted permutation, so any sort algorithm gives the modelled result |
| NameOrder.SortEqualLengths | video_to_lottie.py:105 | on names of one length, the length-first order sorts exactly as Python's `sorted()` |
| NameOrder.LessEqCommonPrefix | video_to_lottie.py:105 | a common prefix does not change how two names compare |
| NameOrder.LessEqDecidedWithin | video_to_lottie.py:105 | when two names of one length differ, what follows them does not change how they compare |
| FrameNames.Pad4 | video_to_lottie.py:59 | `%04d` is a digit string of at least four characters, and longer only when the number needs more digits |
| FrameNames.ExtractedName | video_to_lottie.py:59 | the name of the `n`-th image the extractor writes; `Pad4Value`, `ExtractedNameLength` and `LengthFirstIsFrameOrder` state its properties |
| FrameNames.ExtractedNames | video_to_lottie.py:59 | the names of a folder the extractor filled with `k` images, `frame_0001.jpg` onwards, in extraction order |
| FrameNames.Pad4Value | video_to_lottie.py:59 | the `%04d` frame number in a file name reads back as the number |
| FrameNames.DigitTextOrder | video_to_lottie.py:105 | digit strings of one length compare as text exactly as their values compare |
| FrameNames.LengthFirstIsFrameOrder | video_to_lottie.py:59 | the names `frame_%04d.jpg` of frames `a` and `b` are ordered length-first exactly when `a <= b` |
| FrameNames.SortLengthFirstExtracted | video_to_lottie.py:59 | sorting an extractor-filled folder length-first lists its images in extraction order |
| FrameNames.SortPythonExtractedBelow10000 | video_to_lottie.py:105 | with fewer than 10000 extracted images, Python's `sorted()` lists them in extraction order |
| FrameNames.PythonSortMisordersFrame10000 | video_to_lottie.py:105 | `sorted()` places `frame_10000.jpg` before `frame_1001.jpg` |
| FrameNames.SortPythonExtractedFrom10000 | video_to_lottie.py:105 | with 10000 or more extracted images, `sorted()` does not list them in extraction order |
| FrameNames.Frame10000TextOrder | video_to_lottie.py:105 | as text, `frame_10000.jpg` sorts after the names of frames 1 to 1000 and before those of frames 1001 to 9999 |
| FrameNames.SortPythonExtracted10000 | video_to_lottie.py:105 | `sorted()` of the extractor's first 10000 names gives frames 1 to 1000, then frame 10000, then frames 1001 to 9999 |
| LottieDocument.CreateLottieJson | video_to_lottie.py:66-102 | the document has one layer per asset, and `assets` is the input unchanged. Layer `i` has `ind = i + 1`, `ty = 2`, `nm = "Frame i"`, `refId = frames[i].id`, `ip = st = i`, `op = i + 1`, opacity 100, position and anchor `[w/2, h/2]` and scale `[100, 100]`, all static. The document has `v = "5.5.2"`, `ip = 0`, `op = len(frames)`, the given `fr`, `w` and `h`, and `nm = "video_animation"` |
| LottieDocument.LayersTileTimeline | video_to_lottie.py:83-95 | every layer lies inside `[ip, op)` of the document, each layer starts where the previous one ends, and exactly one layer, layer `t`, is shown at each time `t` |
| LottieDocument.LayerIdentitiesDistinct | video_to_lottie.py:73-75 | layer numbers and layer names are pairwise distinct |
| LottieDocument.LayerRefersToOwnAsset | video_to_lottie.py:76 | when asset ids are distinct, layer `i` refers to asset `i` and to no other asset |
| FrameAssets.IsJpgName | video_to_lottie.py:105 | `f.endswith(".jpg")`, case-sensitive |
| FrameAssets.JpgNames | video_to_lottie.py:105 | the filtered list holds each `.jpg` entry as often as the folder listing does, and nothing else |
| FrameAssets.SortedPrefix | video_to_lottie.py:106 | the kept images of a sorted list are in order, and no kept image is above a dropped one |
| FrameAssets.SelectionOrdered | video_to_lottie.py:105-106 | the selection is in order, is drawn from the `.jpg` names, and is never above a `.jpg` name it leaves out |
| FrameAssets.SelectionOnlyJpgs | video_to_lottie.py:105 | only `.jpg` entries of the folder are selected |
| FrameAssets.SelectionCount | video_to_lottie.py:106 | `min(#jpg, max_frames)` images are selected for `max_frames >= 0`, and `max(0, #jpg + max_frames)` otherwise |
| FrameAssets.SelectionEmptyIff | video_to_lottie.py:106-108 | nothing is selected (so `IndexError`) exactly when the folder has no `.jpg` entry, `max_frames == 0`, or a negative `max_frames` drops every image |
| FrameAssets.SliceStop | video_to_lottie.py:106 | the number of items `files[:stop]` keeps is at most the length of `files`; `SelectionCount` gives it exactly |
| FrameAssets.SelectedFiles | video_to_lottie.py:105-106 | the `.jpg` names, sorted and cut to `max_frames`; `SelectionOrdered`, `SelectionOnlyJpgs`, `SelectionCount` and `SelectionEmptyIff` state what it holds |
| FrameAssets.JpgNamesOfExtracted | video_to_lottie.py:105 | the `.jpg` filter keeps every name of a folder the extractor filled |
| FrameAssets.PythonSelectionOf10000 | video_to_lottie.py:105-106 | with 10000 extracted images and `max_frames = 5001`, `sorted()` makes `frame_10000.jpg` asset 1000, between frames 1000 and 1001 |
| FrameAssets.LengthFirstSelectionOf10000 | video_to_lottie.py:105-106 | ordered length-first, the same selection is frames 1 to 5001 in extraction order |
| FrameAssets.FrameId | video_to_lottie.py:116 | the asset id `fr_<idx>`; `FrameIdsDistinct` states that different indices give different ids |
| FrameAssets.DataUriPrefix | video_to_lottie.py:120 | the `data:image/<format>;base64,` prefix of an asset's `p` |
| FrameAssets.FrameIdsDistinct | video_to_lottie.py:116 | the ids `fr_<idx>` are pairwise distinct |
| FrameAssets.EncodeFramesToJson | video_to_lottie.py:104-124 | the images are selected in order `o`: `Lexicographic` is the source as written, `LengthFirst` the corrected order. The call fails exactly when nothing is selected. Otherwise asset `idx` has id `fr_<idx>`, the first selected image's `w` and `h`, `u = ""`, `e = 1` and `p = "data:image/<format>;base64," + payload`. The ids are distinct, and the document assembles these assets at 24 frames per second with the first image's size |

## Left out

- The ffprobe and ffmpeg processes and the streaming of their output (video_to_lottie.py:11-12, 16-17, 21-22, 48-64) are left out. A probe's standard output is an input string of `GetTotalFrames`. The model does not capture that the second and third probes run only when the earlier ones fail.
- The duration × frame-rate stage (video_to_lottie.py:23-34) needs float parsing and float arithmetic. It enters `GetTotalFrames` as its outcome, an `Option<int>` that is `None` when the stage raised or printed fewer than two lines.
- Which frames ffmpeg's `select=not(mod(n,step))` filter emits, and how many, is left out (video_to_lottie.py:56). The count is not bounded by `target_frames + 1`. Only the slice at line 106 bounds the number of assets.
- `optimize_image` (PIL re-encoding, video_to_lottie.py:37-46) and `base64.b64encode` (line 114) are foreign code. Together with reading the file, they are the parameter `encodeImage(name, quality, format)` of `EncodeFramesToJson`.
- Reading the first image's size with PIL (video_to_lottie.py:108-109) is the parameter `frameSize`. Errors while opening or reading an image propagate in the source and are not modelled.
- JSON serialisation and writing the output file (video_to_lottie.py:257-260) are left out. Python writes the centre `w / 2` as a float; the model keeps it as a `real`.
- The interactive prompts and the scan of the video folder (video_to_lottie.py:126-211) are console and filesystem I/O. The prompt's guarantee that `target_frames > 0` is the precondition of `Stride`.
- Creating and deleting folders and frame files (video_to_lottie.py:213-219, 223-224, 265-271) are filesystem side effects. The per-video loop of `main` is also left out (lines 229-271): it skips a video whose count is `None` and otherwise sequences the modelled steps.
- `IsDigit` covers ASCII digits only. Python's `isdigit()` also accepts other Unicode digits, such as `²`, on which `int()` can raise. ffprobe prints ASCII.

## Findings

| source | as written | input that shows it | evidently intended | confidence | as-written member | corrected member |
|---|---|---|---|---|---|---|
| video_to_lottie.py:105 | `sorted()` compares the extractor's `frame_%04d.jpg` names (line 59) as text. From the 10000th image on, a five-digit name sorts among the four-digit ones: `frame_10000.jpg` lands between `frame_1000.jpg` and `frame_1001.jpg`. | A video of 10000 frames with a target of 5001 gives step 1 and images `frame_0001.jpg` … `frame_10000.jpg`. Asset 1000 is then the last frame, and the video's frame 1001 comes only after it. | Assets in extraction order, which a length-first order gives | high; not executed | FrameAssets.PythonSelectionOf10000 | FrameNames.SortLengthFirstExtracted |
