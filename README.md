# Copy plan of the asynchronous file sorter

The program (`main.py`) takes a source folder and an output folder, walks the
source tree recursively and copies every file it finds into
`output/<extension>/<file name>`, one copy task per file, all tasks run
concurrently. This project models the part of that program that can be stated
exactly: the **copy plan** — which entries of the walk get a task, which
extension bucket a file name belongs to, which destination each task writes,
and the check on the source folder that stops a run before any task is built.

Modules:

- `PurePaths` (`pure_paths.dfy`): the pieces of `pathlib.PurePath` and `str`
  the plan uses — a path as the sequence of its components, `name`, joining one
  component (`/`), `rfind`, `suffix` and `lstrip`.
- `Glob` (`glob.dfy`): matching a name against a pattern made of `*` and
  literal characters, as `rglob` does, and the proof that the pattern `*.*`
  matches exactly the names that contain a dot.
- `Subsequences` (`subsequences.dfy`): keeping the elements of a sequence that
  pass a test, in order, and the positions they came from.
- `CopyPlan` (`copy_plan.dfy`): the bucket of a name, the destination of a
  file, the plan of a walk as a specification function, `read_folder` as a
  method with a loop that builds the task list, and `main`'s source check as
  the method `Run`.

The walk itself is an input: a sequence of entries, each a path and a flag
saying whether it is a regular file, in the order the walk visits them. What
the program does with a task (create the bucket folder, copy bytes and
metadata, log) is not modelled.

`read_folder` walks with `rglob("*.*")`, which never yields a dotless name: a
file such as `src/c` gets no task at all and never reaches the bucket
`no_extension` (`CopyPlan.SelectedIffDottedFile`, `CopyPlan.PlanAppend`).
That bucket is reached only by names whose last dot is their first or last
character, such as `.gitignore`, `notes.` or `...`
(`CopyPlan.BucketCharacterized`).

The bucket follows the `PurePath.suffix` rule of Python up to 3.13: the
suffix starts at the last dot of the name, provided that dot is neither the
first nor the last character. Python 3.14 computes it differently; see
"## Left out".

## Model

| member | source | states |
|---|---|---|
| PurePaths.Join | main.py:35-36 | joining a non-empty component adds exactly one level, keeps the parent as prefix and makes that component the new name; an empty component leaves the path unchanged |
| PurePaths.RFind | main.py:34 | the result is -1 exactly when the character does not occur; otherwise it is an index holding that character with no occurrence after it |
| PurePaths.Name | main.py:36 | the final component of a path (`file.name`); specified through `PurePaths.Join`: joining a non-empty component makes it the name of the result |
| PurePaths.Suffix | main.py:34 | when the last dot of the name is neither its first nor its last character, the suffix is the name from that dot on; otherwise it is ""; a non-empty suffix is a proper tail of length at least 2 that starts with its only dot |
| PurePaths.LStrip | main.py:34 | the result is a tail of the input that does not start with the character, and everything removed was that character |
| CopyPlan.Bucket | main.py:34 | every bucket is non-empty and contains no dot |
| CopyPlan.BucketOfExtension | main.py:34 | when the last dot of the name is neither its first nor its last character, the bucket is the text after that dot, case unchanged |
| CopyPlan.BucketOfExtensionless | main.py:34 | when the name has no such dot (no dot, only a leading dot, or a trailing last dot), the bucket is `no_extension` |
| CopyPlan.BucketCharacterized | main.py:34 | both cases together, for every name: the bucket is determined by the position of the last dot alone |
| CopyPlan.BucketKeepsCase | main.py:34 | `report.TXT` goes to bucket `TXT` |
| CopyPlan.BucketTakesLastExtension | main.py:34 | `archive.tar.gz` goes to bucket `gz` |
| CopyPlan.BucketOfDotlessName | main.py:34 | a name without any dot, such as `README`, would go to bucket `no_extension` (`rglob("*.*")` never yields one) |
| CopyPlan.BucketOfDotFile | main.py:34 | a name whose only dot is its first character, such as `.gitignore`, goes to bucket `no_extension` |
| CopyPlan.BucketOfTrailingDot | main.py:34 | a name ending in a dot, such as `notes.` or `...`, goes to bucket `no_extension` |
| Glob.Matches | main.py:32 | the name test `rglob` applies to each visited entry; specified by `Glob.LiteralMatchesItself`, `Glob.StarMatchesAll`, `Glob.DotStar` and `Glob.StarDotStar` |
| Glob.LiteralMatchesItself | main.py:32 | a pattern without `*` matches exactly the name spelled like it, letter case included |
| Glob.StarMatchesAll | main.py:32 | the pattern `*` matches every name, including the empty one and names starting with a dot |
| Glob.DotStar | main.py:32 | the pattern `.*` matches exactly the names that start with a dot |
| Glob.StarDotStar | main.py:32 | the pattern `*.*` that `rglob` is given matches exactly the names that contain a dot |
| CopyPlan.Selected | main.py:32-33 | an entry is kept when its name matches `*.*` and it is a regular file; specified by `CopyPlan.SelectedIffDottedFile` |
| CopyPlan.SelectedIffDottedFile | main.py:32-33 | an entry gets a task exactly when it is a regular file whose name contains a dot; directories and dotless names such as `README` do not |
| CopyPlan.Destination | main.py:35-36 | output folder / bucket of the name / the name; specified by `CopyPlan.DestinationLayout` and `CopyPlan.SameDestinationIffSameName` |
| CopyPlan.DestinationLayout | main.py:35-36 | the destination of a copied file is the output folder, then the bucket of the name, then the name itself: two levels below the output folder, none of the source's directories kept |
| CopyPlan.SameDestinationIffSameName | main.py:35-36 | two copied files get the same destination exactly when their names are equal, wherever they sit in the source tree |
| Subsequences.FilterBy | main.py:31-37 | the kept elements are no more than the input and each is an input element that passes the test |
| Subsequences.PositionsBy | main.py:31-37 | the positions are valid, strictly increasing, each holds an element that passes the test, and every such position is listed |
| Subsequences.FilterByAt | main.py:31-37 | the k-th kept element is the element at the k-th listed position, and there are as many kept elements as positions |
| CopyPlan.TaskFor | main.py:37 | the task for a kept entry copies that entry to its destination; specified through `CopyPlan.PlanDestinations` and `CopyPlan.SameNameCollides` |
| CopyPlan.Plan | main.py:31-37 | one task per kept entry, in walk order; specified by `CopyPlan.PlanFollowsWalk`, `CopyPlan.PlanAppend` and `CopyPlan.PlanDestinations`, and computed by `CopyPlan.ReadFolder` |
| CopyPlan.PlanFollowsWalk | main.py:31-37 | the plan has one task per selected entry and no more tasks than entries; the k-th task copies the entry at the k-th selected position of the walk, so tasks follow walk order |
| CopyPlan.PlanAppend | main.py:32-37 | one more walked entry appends its task at the end when it is a regular file with a dot in its name, and changes nothing otherwise |
| CopyPlan.PlanDestinations | main.py:33-37 | every task copies a file with a dot in its name to output / bucket of that name / that name, with a non-empty dot-free bucket |
| CopyPlan.SameNameCollides | main.py:35-37 | two selected entries with the same name in different places of the tree get two tasks, in walk order, writing the same destination |
| CopyPlan.ReadFolder | main.py:29-37 | the loop that appends one task per regular file yielded by `rglob("*.*")` returns exactly the plan of the walk, with no more tasks than entries |
| CopyPlan.Run | main.py:50-54 | a source that does not exist or is not a directory ends the run with no task; otherwise the run dispatches exactly the plan of the walk |

## Left out

- Concurrent execution (`asyncio.gather`, `run_in_executor`, main.py:22-23, 38): the tasks are independent; the model stops at the list of tasks handed over. Which of two colliding copies finishes last is decided by scheduling and is not modelled.
- `copy_file` (main.py:18-26): copying bytes and metadata with `shutil.copy2` is a library call with file-system effects, and its `try/except` only logs; it returns nothing a caller could observe.
- `ensure_dir_exists` (main.py:12-15): a thin wrapper over `Path.exists` and `Path.mkdir(parents=True, exist_ok=True)`; the folder it is given for a task is the destination minus its last component, which `CopyPlan.DestinationLayout` states is output / bucket.
- The directory walk of `rglob` and the `is_file` test (main.py:32-33) on a real file system: replaced by an input sequence of (path, is-regular-file) entries in visit order; only the name filter of the pattern is modelled.
- Glob.Matches: only `*` and literal characters are modelled, the two kinds that occur in the pattern `*.*`; `?`, `[...]` classes and case-insensitive matching on Windows are not.
- CopyPlan.ReadFolder: `rglob`'s name test and the `is_file` test are made as one combined test of each walked entry, which selects the same entries as the two nested tests.
- PurePaths.Join: a component holding a separator, or an absolute component that would replace the path, is not modelled; no name from a walk and no bucket has one.
- CopyPlan.Bucket: follows the `PurePath.suffix` rule of Python up to 3.13. Python 3.14 derives the suffix from `os.path.splitext`, which counts leading dots as part of the stem, so a name whose last dot has only dots before it (`..b`, `...cfg`) goes to `no_extension` there instead of `b` or `cfg`; names ending in a dot go to `no_extension` under both.
- Argument parsing, `Path.resolve` and logging (main.py:9, 42-48, 51, 55).
