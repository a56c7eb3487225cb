# Corrupt-image scanner: a Dafny model of the scan pipeline

This project models the scanning core of the Flask application in
`OLD/app.py`. The application takes a main folder and a list of sub-folder
names, walks those folders for image files, judges each image corrupt or not
with a staged Pillow-based check, and records the progress in a global status
dictionary. It then writes the corrupt ones to a tab-separated report in a
"Corrupt Image" folder on the desktop.

The model has eight modules:

- `Outcome`: `Option`, Python exceptions as a class and a message, and the
  outcome of a step that may raise.
- `PyText`: the `str` operations the code relies on. These are `strip()`,
  `lower()`, `split('\n')`, `sub in s`, `any(...)` over keywords and `str(n)`.
- `PyPath`: POSIX `os.path.join` and `os.path.splitext`.
- `Detector`: `check_image_corruption_fast`. A file is described by what each
  step of the check observes: existence, size, the header `Image.open`
  reports, and whether `load`, `convert`, the pixel probes, the second
  `open` and `verify` raised, and with which exception.
- `Tasks`: the image-extension filter, the tasks of one folder and of a list
  of names, and `count_images_in_folders`. The filesystem is a map from a
  stripped folder name to its listing. A listing is either the entries of
  the folder or a failure of `os.listdir`; a missing key is a folder that
  does not exist.
- `Report`: `get_unique_filename`, the text `save_results` writes, a reader
  for that text, and the status messages.
- `Requests`: the checks and the name parsing of the `start_processing`
  route.
- `Scan`: `process_single_image` and the `processing_status` dictionary as
  a class. The class methods model `process_folders_fast` (reset, count,
  task collection, the completion loop, save) and `start_processing`.

The completion loop takes the finished futures in an order the executor
chooses. The model picks the next pending task nondeterministically, so the
contract holds for every completion order. A worker whose future raised is a
task index in the `faults` set: it is counted as processed and adds no
finding.

Behaviours of the code a reader might not expect:

- The code has no magic-byte header check before decoding.
- It does not remove duplicate findings. A folder name given twice is
  scanned twice.
- It counts images for `total_images` under every name, blank ones
  included. A blank name joins to the main folder itself, whose images are
  counted but never collected. This cannot happen through `start_processing`,
  which drops blank names first. `CountMatchesCollected` proves that the
  count equals the number of collected tasks once no name is blank.

## Model

| member | source | states |
|---|---|---|
| Detector.IsCorruptionErrorSpec | OLD/app.py:79-100 | An exception that escapes the body counts as corruption exactly when its lower-cased message contains one of its handler's words. Every handler looks for truncated, corrupt, invalid and broken; all but the ValueError/TypeError handler also look for damaged. |
| Detector.TryBodySpec | OLD/app.py:26-77 | The body returns "not corrupt" exactly when every step succeeds, verify included. It returns "corrupt" exactly for a missing or empty file, no format, a non-positive dimension, or a probe failure of a class the probe handler catches. Otherwise it raises one of the file's own exceptions. |
| Detector.FirstFailureDecides | OLD/app.py:28-100 | Once a step is reached and raises, its exception alone decides the verdict, through the keyword test of the handler that catches it. Later steps do not matter. This covers the size, open, load, convert, an uncaught probe error, the second open and verify. |
| Detector.LaterFailureIgnored | OLD/app.py:42-85 | A `load` OSError whose message holds no keyword makes the file "not corrupt", even when `verify` would have raised "broken". |
| Detector.IsCorruptSpec | OLD/app.py:24-100 | Structural defects always mean corrupt, and a file every step accepts is never corrupt. Any other corrupt verdict comes from a corruption word in one of the file's own exception messages. When no message holds such a word, corrupt is equivalent to a structural defect. |
| Detector.DamagedDependsOnHandler | OLD/app.py:82-90 | A message reading "damaged" in any case marks an OSError as corruption but not a ValueError. |
| Detector.ProbePoints | OLD/app.py:50-66 | The probes read ten points. The first five are the four corners and the centre, in source order, and every point lies inside the image. |
| PyText.Strip | OLD/app.py:251-252 | The result has no whitespace at either end. It is the slice of the input left after removing an all-whitespace prefix and an all-whitespace suffix. It is empty exactly when the input is all whitespace, using Python's `isspace` set. |
| PyText.StripAddsNothing | OLD/app.py:264 | Stripping adds no character, so a name cut from a line holds no newline. |
| PyText.StripStripped | OLD/app.py:147-148 | Stripping an already stripped name changes nothing, so the names `start_processing` passes are used as given. |
| PyText.LowerSpec | OLD/app.py:81-96 | `lower()` (the `Lower` function, also used on the extension at line 121) maps each capital letter to its small letter and keeps every other character. No capital is left, a text without capitals is unchanged, and lower-casing twice equals lower-casing once. |
| PyText.Contains | OLD/app.py:81-82 | `sub in s` holds exactly when `sub` occurs in `s` at some position. |
| PyText.ContainsAny | OLD/app.py:82 | `any(k in msg for k in keywords)` holds exactly when some keyword of the list occurs in the message. |
| PyText.FirstCharAbsent | OLD/app.py:82 | A text lacking the first character of a keyword does not contain it. |
| PyText.Split | OLD/app.py:264 | `split` gives at least one piece, no piece holds the separator, and joining the pieces with it gives the input back. |
| PyText.SplitJoinWith | OLD/app.py:264 | Splitting a join of separator-free parts gives the parts back. |
| PyText.DecimalRoundTrip | OLD/app.py:239 | `str(n)` read back as a decimal gives `n`. |
| PyText.NatToStringInjective | OLD/app.py:213 | Different counters print differently. |
| PyPath.JoinShape | OLD/app.py:116 | The joined path ends with the second part. A relative second part keeps the first in front, with one `/` between them unless the first is empty or ends in `/`. |
| PyPath.JoinInjective | OLD/app.py:213 | In one folder, two names that start alike give the same path only if they are the same name. |
| PyPath.SplitExt | OLD/app.py:121 | `splitext` cuts the path in two. The extension is empty or starts at the last dot of the last component, with no later dot or slash. A dot preceded only by dots in its component starts no extension. |
| PyPath.ExtensionOfPlainName | OLD/app.py:121 | `X.JPG` splits into `X` and `.JPG`, case kept. |
| PyPath.ExtensionIsLastSuffix | OLD/app.py:121 | Only the last suffix is the extension: `a.jpg.zip` has `.zip`. |
| PyPath.NoExtensionExamples | OLD/app.py:121 | `.png`, `..png` and `archive` have no extension. |
| Tasks.FolderTasks | OLD/app.py:159-166 | A listing yields exactly as many tasks as the count finds qualifying entries in it. |
| Tasks.FolderTasksMembership | OLD/app.py:159-166 | A task comes from a listing exactly when it is the task of a regular-file entry whose lower-cased extension is an image extension. |
| Tasks.TasksOfFolderMembership | OLD/app.py:147-171 | A stripped name yields tasks only when it is non-blank, exists and can be listed, and then exactly those of its qualifying entries. |
| Tasks.CollectTasksMembership | OLD/app.py:147-171 | A task is collected exactly when it is a task of one of the named folders. |
| Tasks.CountInListing | OLD/app.py:119-123 | The inner counting loop counts the qualifying entries of one listing. |
| Tasks.CountImagesInFolders | OLD/app.py:110-126 | The count sums the qualifying entries of every named folder that exists and can be listed, blank names included. |
| Tasks.CountMatchesCollected | OLD/app.py:110-171 | When no name is blank, the progress total equals the number of collected tasks. |
| Tasks.UpperCaseExtensionQualifies | OLD/app.py:164-165 | The extension is compared lower-cased, so `X.JPG` is checked. |
| Tasks.LastSuffixDecides | OLD/app.py:164-165 | `a.jpg.zip` is not checked. |
| Tasks.HiddenFileAndDirectoryAreSkipped | OLD/app.py:163-165 | `.png` (no extension) and a directory named `b.png` are not checked. |
| Report.GetUniqueFilename | OLD/app.py:205-216 | The path returned does not exist, and every earlier candidate does: `base.txt`, then `base 2.txt`, `base 3.txt` and so on. It is the least free name. |
| Report.CandidateInjective | OLD/app.py:211-213 | From the second try on, different counters name different paths, so the loop never retries a path. |
| Report.WriteReport | OLD/app.py:233-236 | The file holds the header line, then one `folder<TAB>image` line per finding in list order, each ended by a newline. |
| Report.ReportRoundTrip | OLD/app.py:233-236 | When no field holds a tab or newline, the file has one line per finding after the header and reads back as the findings in order. |
| Report.SuccessMessageReadsBack | OLD/app.py:238-239 | The success message states the number of findings in decimal and the path. |
| Requests.KeepNonBlank | OLD/app.py:264 | The kept names are never more than the lines, and each is non-empty and stripped. Their order and repetitions are stated by `KeepNonBlankAppend`. |
| Requests.KeepNonBlankAppend | OLD/app.py:264 | Filtering a concatenation of lines filters each part in turn. The names keep the order of their lines, and a line given twice is kept twice. |
| Requests.KeptComesFromLine | OLD/app.py:264 | Every kept name is the stripped form of one of the lines. |
| Requests.LineIsKept | OLD/app.py:264 | Every line that is not blank once stripped is kept, stripped. |
| Requests.FolderNamesShape | OLD/app.py:264 | Every parsed folder name is non-empty, stripped and free of newlines. |
| Requests.ValidateStart | OLD/app.py:250-267 | The fields are stripped, with a missing key read as empty. The request is refused for blank fields, then for a main folder that does not exist, then for a scan already running, each with its message. It is accepted exactly when none applies, with the stripped root and the parsed names. |
| Requests.NonBlankInputHasNames | OLD/app.py:264-266 | A names field that is not blank yields at least one folder name. |
| Requests.NoFolderNamesUnreachable | OLD/app.py:266-267 | The "at least one folder name" rejection can never be returned. |
| Scan.ProcessSingleImage | OLD/app.py:102-108 | A finding for the task's folder and file name is returned exactly when the file is judged corrupt. |
| Scan.GatherPermutation | OLD/app.py:181-190 | The completion order changes only the order of the findings, never which findings or how often. |
| Scan.GatherMembership | OLD/app.py:181-190 | A finding is collected exactly when it is the verdict of some completed task. |
| Scan.JudgedCorruptMembership | OLD/app.py:174-192 | A finding is in the scan's result exactly for a task whose future did not raise and whose file is judged corrupt. It names that task's folder and file. |
| Scan.CollectFromListing | OLD/app.py:159-166 | The inner collection loop builds the tasks of one listing. |
| Scan.ScanFolder | OLD/app.py:152-168 | A folder that does not exist or cannot be listed contributes nothing. Otherwise it contributes its listing's tasks. |
| Scan.AllNamed | OLD/app.py:147-150 | Names that are already stripped and non-blank are never skipped, so each counts as a processed folder. |
| Scan.ProcessingStatus.constructor | OLD/app.py:13-22 | The initial status: idle, empty current folder, all counters zero, no findings, empty message and no result file. |
| Scan.ProcessingStatus.CollectImageTasks | OLD/app.py:147-171 | The collection loop builds the tasks of all names. Every non-blank name counts as processed, whether it exists or not. The current folder is the last non-blank name. |
| Scan.ProcessingStatus.CompleteTasks | OLD/app.py:174-192 | Every task counts as processed once. The findings grow by the verdicts in some completion order, and as a multiset by exactly the scan's judged-corrupt findings. |
| Scan.ProcessingStatus.SaveResults | OLD/app.py:218-242 | On success the report goes to the least free `Corrupt Image*.txt` path on the desktop with the findings' text, and `result_file` and the message record it. On failure only the message changes, to the error message. |
| Scan.ProcessingStatus.ScanFolders | OLD/app.py:132-192 | The reset, then the count, the collection and the completions. The totals, counters, current folder and findings end as the specification functions give them. |
| Scan.ProcessingStatus.ProcessFolders | OLD/app.py:128-196 | After a run the scan is no longer processing. The counters and findings are those of the scan, and the report and message are as `SaveResults` states. |
| Scan.ProcessingStatus.StartProcessing | OLD/app.py:248-274 | A refused request returns its error and changes no status field. An accepted request ends idle. The folder total is the number of parsed names, and every one is processed. The image total is the number of collected tasks, and every one is processed. The current folder is the last name, and the findings are the judged-corrupt ones. On success the report file written is the least free `Corrupt Image*.txt` path holding the findings' report text, and `result_file` and the success message name that path. On a save failure nothing is written, the message is the error message, and `result_file` is unchanged. |

## Left out

- The web layer: Flask routes, `jsonify`, status codes, `index` and `get_status`. A reply is a datatype, and the status is read from the class fields.
- The thread `start_processing` starts: the scan runs to completion inside the call. Concurrent requests are not modelled, so the non-atomic test of `is_processing` is not modelled either. Neither is a reader of the status seeing intermediate values.
- The thread pool and `max_workers`: only the completion order and the futures that raise are modelled.
- Pillow: `Image.open`, `load`, `convert`, `getpixel` and `verify` are replaced by what each step observes. Whether `convert` targets RGBA or RGB (from `img.mode`) changes nothing in the verdict and is not modelled.
- The five random probe points are any in-bounds points (`ProbePoints` chooses them nondeterministically); randomness itself is not modelled.
- Filesystem I/O: `os.path.exists`, `getsize`, `isfile`, `listdir`, `makedirs` and `open`/`write` become the folder map, the file map and the set of existing report paths, all given as parameters.
- The filesystem does not change during a scan. The count (line 119), the collection (line 161) and the checks all see the same listings and files. A file added or removed between the two `os.listdir` passes makes `total_images` differ from `processed_images` in the code; that is not modelled. The equality `StartProcessing` states rests on this single snapshot.
- Exception classes that inherit from both IndexError and TypeError (and from neither OSError nor ValueError) are not modelled. The probe handler would catch them as IndexError, but the outer handlers as TypeError, and no single family fits.
- `save_results`' failure is one optional error text. It covers an exception from `makedirs` or from writing; a partly written file is not modelled.
- `get_desktop_path` is a parameter (`desktop`). Both of its branches compute the same path.
- Paths follow POSIX `os.path`. Windows drive letters and backslashes are not modelled.
- A folder name is looked up in the folder map as given. Case-insensitive filesystems are not modelled.
- PyText.Lower: lower-cases ASCII letters only, because Python's Unicode case mapping is not modelled. Non-ASCII letters are left as they are, for example the Kelvin sign, which Python maps to `k`.
- Exceptions are a class and a message. `str(e)` is the message, and exceptions derived from `BaseException` only (such as `KeyboardInterrupt`) are not modelled.
- JSON fields that are not strings are not modelled. A missing key reads as an empty string, as `data.get(key, '')` does.
- `print` calls for logging are not modelled.
- `OLD-2 faster/app.py` is not part of this model. Its header sniffing, batching and process pool are not modelled.
