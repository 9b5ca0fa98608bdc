# archive-images: a Dafny model of the placement decisions

`archive-images` files photos into an archive tree. Each photo goes under
`root/YYYY/MM/` and is named after its Exif capture time. This project models
how the tool decides, for each source image, where the image goes or why it
is left out. The model proves what those decisions promise:

- the tag-priority rule;
- the shape of the target path;
- that byte-identical files are routed, never archived in place;
- that the suffix probe `_01`, `_02`, … terminates on a free path;
- that no existing archive file is ever overwritten.

The packaged tool (`archiveImages/archive_images.py`) is modelled module by module:

- `Timestamps` covers `get_timestamp` and `read_exif`. It tries three tag groups in a fixed order: DateTimeOriginal, DateTimeDigitized, DateTime. The sub-second tag of the chosen group is a whole number of milliseconds added to the parsed instant.
- `Planner` covers `get_image_target`. The target is `root/YYYY/MM/YYYY_MM_DD_HH_MM_SS.mmm` plus the lower-cased extension, or `root/no_exif_data/<basename>`, or nothing.
- `Duplicates` covers `check_duplicate` and `isduplicate`. Among the files in the target's folder whose names start with the target's stem, a byte-identical copy sends the image to `root/duplicate_images/` or skips it.
- `Suffix` covers `add_suffix`. The suffix probe ends because the file system is finite and distinct probe numbers name distinct paths (a pigeonhole argument).
- `Pipeline` covers the loop of `main` and `add_image_to_archive`, including the `--confirm` prompt and copy versus move.

The older stand-alone script (`archive_images.py`, class `ArchiveImages`) is
modelled in `Legacy`. It uses the same timestamp rule and a
`YYYY-MM-DD_HH-MM-SS.mmm` name with the extension kept as written. It writes
only when the target is free; otherwise it leaves the image where it is.

Supporting modules:

- `Results`: `Option` and `Result`. Each uncaught exception the model represents (an unreadable image, a malformed timestamp, a file in the way of a folder, a directory where a file is expected) becomes a `Fault` that ends the run.
- `Text`: digits, `"{:0Nd}"` padding, `int()`, ASCII `lower()`.
- `Calendar`: the proleptic Gregorian calendar of Python's `datetime`, converting to and from a count of milliseconds.
- `DateFormat`: strict `strptime`/`strftime` with the Exif 2.3 `YYYY:MM:DD HH:MM:SS` pattern (CIPA DC-008, section 4.6) and the two file-name patterns.
- `Paths`: a path is directory components plus a base name; `os.path.splitext` is included.
- `FileSystem`: file bytes by path plus a set of directories, with `exists`, `listdir`, `makedirs` and `copy`/`move` as pure updates.
- `Settings`: the resolved command-line options.

Reading a photo's metadata (PIL), asking the user (`input()`) and finding
the images (`glob`) are not modelled as code. They are parameters instead:
an image comes with its `Metadata`, a run gets one answer per image, and the
source list is an input sequence.

Three details of the code that the model keeps as written:

- `check_duplicate` runs for `no_exif_data` targets too, not only for timestamped ones.
- The stem match is `name.startswith(stem)` on the full directory entry name.
- A malformed sub-second tag raises even for a group whose primary tag is absent. `int()` runs before the primary tag is checked.

## Model

| member | source | states |
|---|---|---|
| `Timestamps.ResolveTags` | archiveImages/archive_images.py:177-193 | The first group with a primary tag decides. The result fails with MalformedSubSecond exactly when that group or an earlier one has a sub-second tag that is not an integer. It is `None` exactly when no group has a primary tag and every sub-second tag is well-formed. Otherwise it fails with MalformedDateTime exactly when the date text does not parse, and with DateOutOfRange exactly when the parsed instant plus the milliseconds leaves years 1..9999. In every other case it is the valid date-time that many milliseconds after the parsed one. |
| `Timestamps.ParseExif` | archiveImages/archive_images.py:190-192 | `strptime` plus the `timedelta` fails with MalformedDateTime exactly when the text does not parse, and with DateOutOfRange exactly when the sum leaves years 1..9999. Otherwise it is the valid date-time that many milliseconds after the parsed one. |
| `Timestamps.ValidOriginalResolves` | archiveImages/archive_images.py:177-193 | Suppose DateTimeOriginal is the Exif rendering of a valid date-time, and SubSecTimeOriginal is absent or a millisecond count below 1000. Then the image resolves to that date-time with those milliseconds, whatever the other tags hold. |
| `Timestamps.ScanGroups` | archiveImages/archive_images.py:180-186 | The loop stops at the first group whose primary tag is present and yields that tag with its milliseconds. It fails iff a group up to and including that one has a malformed sub-second tag. |
| `Timestamps.FirstPrimaryFrom` | archiveImages/archive_images.py:180-186 | The index found is the first group from `i` on whose primary tag is present; every group before it lacks one. |
| `Timestamps.Resolve` | archiveImages/archive_images.py:169-212 | An unopenable image is a run-ending fault, and the only one that does not come from the tags. Both no Exif reader and no Exif data give `None`. Tags resolve as in `ResolveTags`. Any timestamp is a valid date-time. |
| `Timestamps.LaterGroupsIgnored` | archiveImages/archive_images.py:180-186 | Two tag maps that agree on the first group with a primary tag and on every group before it resolve alike, whatever the later groups hold. |
| `Timestamps.OriginalCaptureWins` | archiveImages/archive_images.py:177-186 | With DateTimeOriginal present, the result depends only on DateTimeOriginal and SubSecTimeOriginal. |
| `Calendar.AddMillis` | archiveImages/archive_images.py:190-192 | Adding milliseconds gives the date-time exactly that many milliseconds later. The result is `None` exactly when the sum leaves years 1..9999. |
| `Calendar.SubSecondCarry` | archiveImages/archive_images.py:182-192 | Added to a whole second, a sub-second value stays in that second exactly when it is below 1000. Its remainder modulo 1000 becomes the milliseconds, and its whole thousands are carried into the seconds. |
| `Calendar.FromMillis` | archiveImages/archive_images.py:190-192 | Every instant below the year-10000 limit has a valid calendar reading, and that reading maps back to the instant. |
| `Calendar.MillisRoundTrip` | archiveImages/archive_images.py:190-192 | Converting a valid date-time to milliseconds and back gives the same date-time. |
| `Calendar.ToMillisInjective` | archiveImages/archive_images.py:190-192 | Two valid date-times at the same instant are equal. |
| `Calendar.DayNumberRoundTrip` | archiveImages/archive_images.py:190-192 | Day numbers name dates one-to-one and stay below the year-10000 limit. |
| `Calendar.DateOfDay` | archiveImages/archive_images.py:190-192 | Every day number below the limit names a valid date whose day number it is. |
| `DateFormat.Parse` | archiveImages/archive_images.py:190-191 | Strict `strptime`: any accepted text is the rendering of the valid date-time it yields, with no sub-second part. |
| `DateFormat.ParseRender` | archiveImages/archive_images.py:190-191 | Every valid whole-second date-time is read back from its rendering, so `Parse` accepts exactly the renderings of valid date-times. |
| `DateFormat.StampInjective` | archiveImages/archive_images.py:220-222 | Two date-times share a millisecond file-name stamp only when they are equal. |
| `DateFormat.StampFolders` | archiveImages/archive_images.py:218-224 | A stamped name begins with the four year digits, has the two month digits after the first separator, and does not start with a dot. |
| `Text.ParseInt` | archiveImages/archive_images.py:183 | `int()` succeeds exactly on an optional sign followed by digits. It yields the decimal value of the digits, negated after a `-`. |
| `Text.ParseIntRoundTrip` | archiveImages/archive_images.py:183 | `int(str(n)) == n` for either sign. |
| `Text.Padded` | archiveImages/archive_images.py:283 | `"{:02d}"` is all digits, has the number's value and at least the given width, and never truncates. |
| `Text.PaddedInjective` | archiveImages/archive_images.py:283 | Distinct numbers never pad to the same text. |
| `Text.FixedDigitsOfValue` | archiveImages/archive_images.py:190-192 | A digit string has exactly one fixed-width spelling: its value written back at its width is itself. |
| `Text.Lower` | archiveImages/archive_images.py:224 | `lower()` keeps the length and lower-cases each character independently. |
| `Text.LowerKeepsDots` | archiveImages/archive_images.py:224 | Lower-casing turns no other character into a dot and no dot into another character. |
| `Paths.SplitExt` | archiveImages/archive_images.py:223 | `splitext` splits the name into two parts that concatenate back to it. Any extension is a dot with no further dot, after a stem that is not all dots. |
| `Paths.ShapeIsAtLastDot` | archiveImages/archive_images.py:223 | A stem/extension split of that shape can only be at the last dot. |
| `Paths.SplitExtOfShape` | archiveImages/archive_images.py:223 | Joining a well-formed stem and extension and splitting again gives them back. |
| `Paths.NoExtMeansNoShape` | archiveImages/archive_images.py:223 | An empty extension means no split of the name has the shape of one. |
| `Planner.PlanTarget` | archiveImages/archive_images.py:215-237 | A timestamp always gives a target. Its year and month folders repeat the name's first fields, and the name splits into the stamp and the lower-cased source extension. A source without an extension gets the bare stamp. Without a timestamp, the target is `no_exif_data/<basename>` exactly when `--addNoExif` is set, and nothing otherwise. |
| `Planner.LowerShape` | archiveImages/archive_images.py:223-224 | A stamp followed by a lower-cased extension still splits at that extension. |
| `Planner.TargetIgnoresSourceName` | archiveImages/archive_images.py:217-224 | The planned path depends on the timestamp and the extension only, never on the rest of the source path. |
| `Planner.SamePlanSameInstant` | archiveImages/archive_images.py:217-224 | Two timestamped images share a planned path exactly when they were taken at the same millisecond with the same extension up to case. |
| `Duplicates.CheckDuplicate` | archiveImages/archive_images.py:240-274 | The target is kept exactly when its folder is missing or holds no stem-matching byte-identical file. Otherwise it is rerouted to `duplicate_images/<basename>` exactly when `--addDuplicates` is set, and skipped if not. |
| `Duplicates.ScanListing` | archiveImages/archive_images.py:242-268 | The first-match loop over any order of the directory listing reaches the order-free decision of `CheckDuplicate`. |
| `Duplicates.OtherEntriesIgnored` | archiveImages/archive_images.py:243-247 | Files whose names do not start with the target's stem never change the decision. |
| `FileSystem.Occupied` | archiveImages/archive_images.py:282 | The paths `os.path.exists` reports, as a finite set: exactly the files and the named directories. |
| `FileSystem.FileNames` | archiveImages/archive_images.py:245 | The names listed for a folder are exactly the files directly inside it. |
| `FileSystem.MakeDirs` | archiveImages/archive_images.py:301 | `makedirs(exist_ok=True)` fails exactly when the folder or an ancestor is a file. Otherwise the folders afterwards are exactly the old ones plus that folder and all its ancestors, and the files are left alone. |
| `FileSystem.Transfer` | archiveImages/archive_images.py:302 | Copy or move writes the source bytes to the destination. It removes exactly the source in move mode. In copy mode the source keeps its bytes. Every file other than the source and the destination is unchanged. |
| `Suffix.AddSuffix` | archiveImages/archive_images.py:277-285 | The result never exists, stays in the target's folder and keeps its stem. It is the target itself when that is free. Otherwise it is the `_NN` probe after which every earlier probe is taken. |
| `Suffix.ProbeSuffix` | archiveImages/archive_images.py:279-285 | The probing `while` loop terminates and returns what `AddSuffix` describes. |
| `Suffix.FirstFree` | archiveImages/archive_images.py:281-284 | The first free probe exists: it is free and every probe before it is taken. |
| `Suffix.CandidateInjective` | archiveImages/archive_images.py:283 | Distinct probe numbers give distinct paths. |
| `Suffix.Pigeonhole` | archiveImages/archive_images.py:282-284 | At most as many probes can be taken as there are existing paths. |
| `Suffix.LeastFreeUnique` | archiveImages/archive_images.py:282-284 | There is only one first free probe. |
| `Suffix.ProbeStopsAtFirstFree` | archiveImages/archive_images.py:282-284 | A free probe after only taken ones is what `add_suffix` returns. |
| `Suffix.ReplaceOnlyAtEnd` | archiveImages/archive_images.py:283 | `str.replace` of a pattern that occurs only at the end of a string rewrites that end only. |
| `Suffix.ReplaceInPath` | archiveImages/archive_images.py:283 | When the extension occurs in the path string only at its end, the replacement rewrites the file name alone. |
| `Suffix.AsWrittenAgrees` | archiveImages/archive_images.py:283 | Under that condition, the probe as written and the corrected probe name the same path. |
| `Suffix.AsWrittenLeavesDirectory` | archiveImages/archive_images.py:283 | With the archive root `a.jpg` and `a.jpg/no_exif_data/t.jpg` taken, every probe as written lands under `a_NN.jpg/no_exif_data/`, outside the archive. The corrected probe stays in `a.jpg/no_exif_data/`. |
| `Pipeline.Place` | archiveImages/archive_images.py:288-302 | An answer of exactly "n" leaves the file system unchanged. Otherwise placing fails exactly when a folder on the way is a file, and a success stores the source bytes at the new target. Move mode removes the source and nothing else. The only folders added are the target's folder and its ancestors, as `os.makedirs` creates them. |
| `Pipeline.Finish` | archiveImages/archive_images.py:26-30 | Placing under a free target fails only on a blocked folder. The outcome is Declined exactly on "n", and otherwise records where the bytes went. The only folders added are the target's folder and its ancestors. |
| `Pipeline.ProcessImage` | archiveImages/archive_images.py:17-30 | One image: a missing or unopenable source and a timestamp fault end the run. It is skipped for lack of a timestamp exactly when none is found and `--addNoExif` is off, and such a present image is always skipped, never a fault. Skips and declines change nothing. An image archived in place goes to the suffixed planned target. A rerouted one goes to the suffixed `duplicate_images/<planned name>`, and only with `--addDuplicates`. A skipped duplicate is one `CheckDuplicate` skips. An image is only ever written to a path that did not exist. |
| `Pipeline.DuplicatesAreRouted` | archiveImages/archive_images.py:22-25 | When the planned folder holds a stem-matching identical copy, the image is never archived in place. Without `--addDuplicates` it is skipped with no change. |
| `Pipeline.RerunFindsCopy` | archiveImages/archive_images.py:17-30 | Processing an archived image again in copy mode finds the first copy. It never archives the image in place a second time, and skips it without `--addDuplicates`. |
| `Pipeline.SameInstantGetsFirstFreeSuffix` | archiveImages/archive_images.py:26-30 | An image whose planned path holds different bytes is archived under the first free `_NN` probe. |
| `Pipeline.ProcessCases` | archiveImages/archive_images.py:20-28 | For a present image with a planned target, a Skip decision of `check_duplicate` changes nothing. Otherwise the step suffixes the decided target (planned or rerouted) and places the image there. |
| `Pipeline.ProcessFailsExactly` | archiveImages/archive_images.py:15-28 | A step fails exactly when the source is missing or unreadable, its timestamp is faulty, or the placement is blocked. It fails with NotADirectory exactly when it is placed (a non-Skip decision the user did not decline) under a folder path that runs through a file. |
| `Pipeline.Run` | archiveImages/archive_images.py:15-28 | The loop handles every image unless a fault stops it early. No file other than a source ever changes or disappears, and a source only disappears in move mode. Folders are only added. |
| `Pipeline.RunFirstStep` | archiveImages/archive_images.py:15-28 | A fault of the first image's step is the run's fault, with nothing recorded and nothing changed. Otherwise that step's outcome is the run's first. |
| `Pipeline.RunSplit` | archiveImages/archive_images.py:15-28 | Running over `a + b` is running over `a` and then, unless a fault stopped it, over `b` from the file system `a` left. The outcomes are concatenated. |
| `Pipeline.RunKeepsArchived` | archiveImages/archive_images.py:15-28 | An image the run archives (in place or as a duplicate) still has its original bytes at its target when the run ends. In move mode this needs distinct source paths and a target that is not one of them. |
| `Pipeline.KeepsChain` | archiveImages/archive_images.py:17-30 | One step followed by the rest of the run keeps what the whole run keeps. |
| `Legacy.LegacyResolve` | archive_images.py:88-114 | The same timestamp rule as the packaged tool, except that an image format without an Exif reader is a fault. |
| `Legacy.LegacyTarget` | archive_images.py:118-122 | The year and month folders repeat the name's first fields. The name splits into the `-`/`_` stamp and the source extension exactly as written. A source without an extension gets the bare stamp. |
| `Legacy.ArchiveImage` | archive_images.py:123-138 | The decision of `archive_image` at a given target. A free target receives the source bytes (move removes the source) and the image is Archived. An existing target is never written to and nothing changes: identical bytes give DuplicateKept and different bytes give LeftUnarchived. It fails exactly when a folder on the way is a file or the target is a directory. The only folders added are the target's folder and its ancestors. |
| `Legacy.LegacyProcess` | archive_images.py:23-28 | A present image without a timestamp is always skipped with no change, never a fault. A faulty timestamp ends the run. A timestamped image is handed to `ArchiveImage` at its `LegacyTarget`. An Archived image was stored at a path that did not exist. Only the image itself can disappear. |
| `Legacy.LegacyRerunKeepsArchive` | archive_images.py:123-136 | Running again over an archived image in copy mode finds the identical copy and changes nothing. |
| `Legacy.LegacyRun` | archive_images.py:23-28 | The loop handles every image unless a fault stops it early. No file other than a source ever changes or disappears, and a source only disappears in move mode. |
| `Legacy.LegacyRunFirstStep` | archive_images.py:23-28 | A fault of the first image's step is the run's fault, with nothing recorded and nothing changed. Otherwise that step's outcome is the run's first. |
| `Legacy.LegacyRunSplit` | archive_images.py:23-28 | Running over `a + b` is running over `a` and then, unless a fault stopped it, over `b` from the file system `a` left. The outcomes are concatenated. |
| `Legacy.LegacyRunKeepsArchived` | archive_images.py:23-28 | An image the run archives still has its original bytes at its target when the run ends. In move mode this needs distinct source paths and a target that is not one of them. |
| `Legacy.LegacyKeepsChain` | archive_images.py:23-28 | One step followed by the rest of the run keeps what the whole run keeps. |

## Left out

- Argument parsing, the same-folder check and extension splitting (`parse_args`) are left out: the model takes a resolved `Config`/`LegacyConfig`.
- Logging setup and all log messages are left out; they are output only.
- Image discovery (`find_images`, recursive `glob`) is left out; the images are an input sequence, and an empty one simply does nothing rather than exiting with status 1.
- PIL decoding is left out. `Image.open` and `_getexif` become the `Metadata` each image carries: unreadable, no Exif reader, no Exif data, or a tag map.
- The float division `/1000` and `timedelta`'s microsecond rounding are not modelled. Sub-seconds are exact whole milliseconds, and the file-name field shows them directly.
- `strptime` leniency is not modelled. Python also accepts one-digit `%m`, `%d`, `%H`, `%M` and `%S` fields, a space-padded day, and any run of whitespace for the format's space. The model accepts only the two-digit fields and the single space of the Exif 2.3 pattern. `strftime` of years below 1000 is written with four digits.
- Python's `int()` accepting surrounding whitespace and `_` digit separators is not modelled.
- `lower()` is modelled on ASCII letters only.
- Sub-directories whose names start with the target's stem are not part of a directory listing. In `check_duplicate`, `open()` on such an entry raises.
- Concurrency and file-system changes made by other processes during a run are not modelled.
- `input()` is an answer parameter, one per image.
- `setup.py` is packaging metadata and is not part of this model.
- Python's `os.path.join` with an absolute component, and paths as byte strings, are not modelled; a path is directory components plus a base name.
- `Legacy.ArchiveImage`: `--deleteDuplicates` has no effect on the file system, because the removal in `archive_image` is commented out, so the option only changes a log message.
- `Pipeline.ProcessImage`: probes with the corrected `Suffix.AddSuffix`, which inserts `_NN` before the base name's extension, not with line 283's replace over the whole path string. The two agree whenever the extension occurs in the path string only at its end (`Suffix.AsWrittenAgrees`). They differ when a folder name contains it (see Findings), and when the base name contains it more than once: for `no_exif_data/x.jpg.jpg`, line 283 probes `x_01.jpg_01.jpg` while `AddSuffix` probes `x.jpg_01.jpg`.
- `Pipeline.Run`: inherits the corrected suffix probe of `Pipeline.ProcessImage`.
- Operating-system failures: the abstract file system has no permissions, capacity, read-only mounts or symbolic links. So the `OSError`s that `os.makedirs`, `shutil.copy`/`shutil.move` and `open` can raise for those reasons (archiveImages/archive_images.py:273-274 and 301-302, archive_images.py:125-129 and 142) are not modelled. `Pipeline.Place`, `FileSystem.Transfer` and `Legacy.ArchiveImage` fail only when a file blocks a folder on the target's path or the target is a directory.

## Findings

| source | as written | input that shows it | evidently intended | confidence | as-written member | corrected member |
|---|---|---|---|---|---|---|
| archiveImages/archive_images.py:283 | `image_target_orig.replace(ext, "_NN" + ext)` rewrites every occurrence of the extension in the whole path string | archive root `a.jpg` with `--addNoExif` and `a.jpg/no_exif_data/t.jpg` already present: every probe becomes `a_NN.jpg/no_exif_data/t_NN.jpg`, a file in a different folder | insert `_NN` before the extension of the base name only: `a.jpg/no_exif_data/t_NN.jpg` | medium, not executed | `Suffix.AsWrittenLeavesDirectory` | `Suffix.AddSuffix` |
