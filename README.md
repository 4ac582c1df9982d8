# Negative-to-positive watcher, modelled in Dafny

The watcher polls a directory for film scans. Each poll finds the regular
files whose names end, in any case, in one of eight image extensions. It
skips paths it has already converted in this process. It skips files whose
size changed between two readings taken half a second apart, and files
whose `stat` fails. Every other file is converted to a tonally inverted
TIFF named `<stem>_positive.tif` in the output directory. A path is
remembered only when its conversion succeeded, so any file that was skipped
or failed is tried again on the next poll.

The model has four modules, one per component of `watcher.py`:

- `Filenames`: the extension filter (`IsSupported`, which tries the suffix
  table in turn as `str.endswith` does with a tuple). It also holds
  `pathlib`'s stem and suffix rule (`LastDot`, `Stem`, `Suffix`) and the
  output name (`OutputFilename`).
- `Imaging`: the mode dispatch of `invert_image` over images given as a mode
  and one band of samples per channel. `Image` is the subset of well-formed
  rasters, which PIL always produces. `ImageOpsInvert` models
  `ImageOps.invert`; the model accepts only `L` and `RGB`. `InvertImage` gives
  the written artifact, or `None` wherever the source returns `False`.
- `Watcher`: one poll cycle. The specification is the functions `Step`
  (one loop iteration), `Run` (the loop) and `Cycle` (the whole call). The
  implementation is the class `PollingWatcher`, whose fields are the
  in-memory processed set and the files of the output directory by name,
  which may include positives left by an earlier run. Its method `ProcessNewFiles` is a `for` loop with the source's
  `continue` skips, and its loop invariant ties it to `Run`.
- `Scenario`: a finished scan next to one still being copied in, worked through two cycles.

Inputs that the program reads from the operating system or from PIL are
parameters:

- the listing (`scan: seq<Entry>`, where each entry gives its path string,
  name, `is_file()` result, the two size readings or the `OSError`, and what
  opening and saving it would do);
- whether the watch directory exists;
- `toRgb`, PIL's `convert("RGB")`.

The `Cycle` functions also return the paths a cycle attempted, in order.
These are the files the source announces with "Found new image", so the
model can state that an already-processed path is never attempted again.

A consequence proved in `Filenames.OutputFilenameSupported` is that every
output name is itself a supported name. If the output directory were the
watch directory, the positives would be picked up and inverted again.

## Model

| member | source | states |
|---|---|---|
| Filenames.EndsWithAnyIff | watcher.py:44 | `endswith` with a tuple of suffixes, tried in turn, holds exactly when some suffix in the tuple fits |
| Filenames.IsSupportedExists | watcher.py:42-44 | a name is supported iff its lower-cased form ends with one of the eight extensions |
| Filenames.IsSupportedIff | watcher.py:42-44 | equivalently, iff the last \|ext\| characters of the name, lower-cased, equal one of the extensions (both directions) |
| Filenames.IsSupportedIgnoresCase | watcher.py:44 | two names that differ only in the case of letters are both accepted or both rejected |
| Filenames.UpperCaseSupported | watcher.py:44 | upper-casing a name never changes whether it is supported |
| Filenames.SupportedExamples | watcher.py:15-24 | `scan.TIF`, `scan.Tiff` and `roll12_03.tiff` are accepted |
| Filenames.UnsupportedByLastChar | watcher.py:15-24 | every extension ends in f, g or p, so a name whose last character is anything else (in either case) is rejected |
| Filenames.UnsupportedExamples | watcher.py:15-24 | `notes.txt` and `layers.psd` are rejected |
| Filenames.LastDot | watcher.py:82-83 | the `rfind('.')` that `stem` relies on: -1 when there is no dot, else a dot with no dot after it |
| Filenames.LastDotAt | watcher.py:82-83 | a dot with no dot after it is the one `rfind` returns |
| Filenames.StemSuffixSplit | watcher.py:82-83 | stem + suffix is the name; a non-empty suffix is a dot, then at least one character and no further dot, and leaves a non-empty stem; the suffix is empty iff the name ends in a dot or has no dot after position 0 |
| Filenames.OutputFilenameShape | watcher.py:80-83 | the output name always ends in `_positive.tif`, and everything before that is the stem, whatever the input extension |
| Filenames.OutputFilenameSupported | watcher.py:80-83 | every output name passes the extension filter |
| Filenames.OutputFilenameAt | watcher.py:80-83 | with a dot that is neither first nor last and no dot after it, the output name is the part before that dot plus `_positive.tif` |
| Filenames.OutputFilenameWhole | watcher.py:80-83 | with no dot except possibly the first or last character, the whole name is kept and `_positive.tif` appended |
| Filenames.OutputFilenameTiff | watcher.py:80-83 | `roll12_03.tiff` gives `roll12_03_positive.tif` |
| Filenames.OutputFilenameTwoDots | watcher.py:80-83 | only the final extension is dropped: `a.b.tif` gives `a.b_positive.tif` |
| Filenames.OutputFilenameLeadingDot | watcher.py:80-83 | a leading dot starts no extension: `.tif` gives `.tif_positive.tif` |
| Filenames.OutputFilenameNoDot | watcher.py:80-83 | example: `README`, which has no dot, keeps its whole name as the stem and gives `README_positive.tif` |
| Filenames.ExtensionShape | watcher.py:15-24 | every supported extension is a leading dot followed by at least three characters, none of them a dot or a slash |
| Filenames.OutputFilenameCollision | watcher.py:80-83 | for any stem, two inputs that differ only in their supported extension (e.g. `roll1.tif`, `roll1.jpg`) get the same output name, the stem plus `_positive.tif`, so the later one overwrites the earlier |
| Imaging.NegateBand | watcher.py:56 | the per-sample rule of `ImageOps.invert`: every 8-bit sample v becomes 255 - v, and the result is 8-bit |
| Imaging.ImageOpsInvert | watcher.py:60 | `ImageOps.invert` succeeds exactly on `L` and `RGB` images, keeps the mode and shape, and negates every sample |
| Imaging.Downscale16 | watcher.py:63 | each 16-bit sample x becomes x / 256, always within 0..255 |
| Imaging.Invert | watcher.py:51-68 | the dispatch fails only for a mode outside RGBA, RGB, L and I;16 whose conversion fails or does not give RGB or L; every result is an 8-bit RGBA, RGB or L image; the four direct modes keep the pixel count |
| Imaging.InvertImage | watcher.py:47-77 | the conversion yields an artifact (returns `True`) exactly when the file decodes, the mode's inversion succeeds and the save succeeds; every other outcome is `None` (`False`) and nothing is raised |
| Imaging.InvertRgbOrL | watcher.py:59-60 | for RGB and L images every output sample is 255 minus the input sample, with mode and shape kept |
| Imaging.InvertRgba | watcher.py:52-58 | for RGBA images the alpha band is the input's, unchanged, and each of R, G and B is 255 - v |
| Imaging.InvertI16 | watcher.py:61-64 | for I;16 images the output is an 8-bit L image with each sample 255 - x / 256, within 0..255 |
| Imaging.InvertOther | watcher.py:65-68 | any other mode is inverted as the image `convert("RGB")` returns, and fails when that conversion fails |
| Imaging.NegateBandTwice | watcher.py:56-60 | negating an 8-bit band twice gives it back |
| Imaging.InvertTwice | watcher.py:52-60 | inverting an RGB, L or RGBA image twice gives back the original image |
| Imaging.InvertTwiceI16 | watcher.py:61-64 | the 16-bit path is lossy: inverting twice gives the 8-bit downscale, not the original |
| Watcher.PollingWatcher.constructor | watcher.py:39 | the processed set starts empty; the output directory keeps whatever it already holds, since it is created with `exist_ok=True` |
| Watcher.PollingWatcher.ProcessNewFiles | watcher.py:86-123 | the loop leaves the processed set, the output directory and the attempted paths exactly as `Cycle` gives them; the set only grows; a missing watch directory changes nothing |
| Watcher.StepEffect | watcher.py:98-123 | one iteration attempts an entry only if it is a supported regular file, not yet processed and of stable size; it adds the path and writes the output only if that conversion succeeds |
| Watcher.RunGrows | watcher.py:122-123 | the processed set never loses a path during a cycle |
| Watcher.RunProcessedIff | watcher.py:98-123 | after a cycle a path is processed iff it was before, or some entry with that path is a regular file with a supported name, stable size readings and a successful conversion |
| Watcher.RunAttemptsFresh | watcher.py:102-117 | the cycle only appends to the attempted list; each attempted path was not processed when the cycle began and belongs to a ready entry |
| Watcher.RunAttemptsReady | watcher.py:102-117 | every ready entry whose path was not processed when the cycle began is attempted in that cycle |
| Watcher.RunOutputsWritten | watcher.py:119-123 | an output file is created or replaced only under the output name of an entry that converts and was not already processed, and it then holds that entry's inverted image |
| Watcher.RunOutputPresent | watcher.py:119-123 | every entry that converts and was not already processed leaves a file under its output name, when entries sharing a path share a name |
| Watcher.RunKeepsOutputs | watcher.py:119-122 | no output file disappears during a cycle |
| Watcher.ProcessedNeverRetried | watcher.py:102-104 | a processed path stays processed and is never attempted again by a later cycle |
| Watcher.FailedRetriedNextCycle | watcher.py:106-123 | a path that fails conversion, whose sizes differ or whose `stat` fails is not remembered, and the next cycle in which it is ready attempts it again |
| Scenario.InvertFlat | watcher.py:59-60 | an RGB image of constant value v inverts to the constant image 255 - v |
| Scenario.ConvertThenSkip | watcher.py:106-123 | a ready, converting entry followed by a growing one: only the first is recorded, written and attempted |
| Scenario.SkipThenConvert | watcher.py:102-123 | an already-processed entry followed by a ready, converting one: only the second is attempted, written and recorded |
| Scenario.FirstCycle | watcher.py:86-123 | stable `negA.tif` (RGB, all 10) and growing `negB.jpg`: one cycle writes `negA_positive.tif` with all samples 245 and records and attempts negA.tif only |
| Scenario.SecondCycle | watcher.py:86-123 | on the next cycle, with negB.jpg complete, only negB.jpg is attempted; it is written as `negB_positive.tif` (all 235) and recorded |

## Left out

- The `main` loop, `time.sleep(POLL_INTERVAL)`, the environment variables, logging and the `mkdir` calls (watcher.py:27-36, 96, 126-150) are left out. Each poll is one call of `ProcessNewFiles`. The existence of the watch directory is a parameter.
- The half-second wait between the two `stat` calls is left out. The two readings, or the `OSError` of either, are given per entry.
- PIL's decoding, TIFF/LZW encoding and the file I/O are left out. Whether the file decodes, and whether the save succeeds, are given per entry (`IoOutcome`). A failing save is modelled as writing nothing, so a partial or truncated output file is not represented.
- `img.convert("RGB")` for palette, CMYK, 1-bit and other modes is the parameter `toRgb`, because its colour mathematics belongs to PIL. `toRgb` is deliberately left unconstrained: PIL's conversion always gives an `RGB` image, but the model lets `toRgb` return any mode. So `Invert`'s failure case for a conversion that does not give `RGB` or `L`, and its `L` path through `toRgb`, describe results the program cannot produce. No proved property depends on them.
- Imaging.Downscale16: `point(lambda x: x / 256)` is evaluated by PIL in floating point. The model uses integer division by 256, an assumption about PIL's rounding and not something verified.
- Imaging.ImageOpsInvert: `ImageOps.invert`'s special path for 1-bit images is not modelled; any mode other than `L` and `RGB` counts as a failure. `convert("RGB")` never produces a 1-bit image.
- The order of `iterdir()` is not modelled: the listing is an arbitrary given sequence. Each entry's path string and name are given separately; how `str(file_path)` is built from the watch directory is not modelled.
- Filenames.Lower: Python's `str.lower()` works on all of Unicode. The model lower-cases ASCII letters only, so names whose case mapping is outside ASCII are not covered.
- Filenames.Stem: names are POSIX path components, as `iterdir()` yields them (non-empty, no `/`, not `.` or `..`). The rule modelled is `pathlib`'s up to Python 3.13: the suffix starts at the last dot only when that dot is neither the first nor the last character. Python 3.14 also accepts a trailing dot as a suffix; that rule is not modelled. No supported name ends in a dot, so the watcher's behaviour is the same under both. Windows separators are not modelled.
- Output files are keyed by file name within the output directory; joining the directory path is not modelled.
- An exception escaping `process_new_files` in the middle of a cycle is not modelled. Examples are a failing `mkdir` or a listing that breaks during iteration; `main` logs such an exception and carries on.
- The processed set lives in memory only, as in the source. A restart starts again from the empty set (the constructor), while the output directory keeps the positives already written (the constructor's `existing`), so a restart converts those inputs again and overwrites their outputs; persistence of the set across restarts is not modelled.
