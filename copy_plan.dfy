/**
 The copy plan of the file sorter in main.py: which entries found under the
 source folder get a copy task, which extension bucket each one goes to, and
 which destination path each task writes. The directory walk is an input (the
 entries it visits, in the order it visits them); the copying itself is not
 modelled, only the list of (source, destination) tasks handed to it.
 */
module CopyPlan {
  import opened PurePaths
  import opened Glob
  import opened Subsequences

  /** The bucket of a file whose name has no extension. */
  const NoExtension := "no_extension"

  /** The pattern `read_folder` passes to `rglob`. */
  const Pattern := "*.*"

  /** One entry visited by the recursive walk: its path and whether it is a regular file. */
  datatype Entry = Entry(path: Path, isFile: bool)

  /** One copy handed to `copy_file`: from `source` to `destination`. */
  datatype CopyTask = CopyTask(source: Path, destination: Path)

  /** What the source folder looks like to `main`: whether it exists, whether it is a directory, and what a walk of it visits. */
  datatype SourceFolder = SourceFolder(present: bool, isDir: bool, walk: seq<Entry>)

  /** How a run ends: turned away by the source check, or with the copy tasks it gathered. */
  datatype RunOutcome = Rejected | Dispatched(tasks: seq<CopyTask>)

  /** `file.suffix.lstrip(".") or "no_extension"`: the bucket a file with this name is copied into. */
  function Bucket(name: string): (r: string)
    ensures r != "" && '.' !in r
  {
    var extension := LStrip(Suffix(name), '.');
    if extension == "" then NoExtension else extension
  }

  /** A name whose extension dot sits at `i` goes to the bucket named by the text after that dot. */
  lemma BucketOfExtension(name: string, i: int)
    requires ExtensionDotAt(name, i)
    ensures Bucket(name) == name[i + 1..]
  {
    var suffix := Suffix(name);
    assert suffix == name[i..];
    assert suffix[1..] == name[i + 1..];
    assert LStrip(suffix, '.') == LStrip(name[i + 1..], '.');
  }

  /** A name without an extension dot goes to the sentinel bucket. */
  lemma BucketOfExtensionless(name: string)
    requires forall i :: !ExtensionDotAt(name, i)
    ensures Bucket(name) == NoExtension
  {
    assert Suffix(name) == "";
  }

  /**
   The bucket is the text after the last dot when that dot is neither the first
   nor the last character of the name, and the sentinel otherwise; letter case
   is kept as it is.
   */
  lemma BucketCharacterized(name: string)
    ensures forall i :: ExtensionDotAt(name, i) ==> Bucket(name) == name[i + 1..]
    ensures (forall i :: !ExtensionDotAt(name, i)) ==> Bucket(name) == NoExtension
  {
    forall i | ExtensionDotAt(name, i) ensures Bucket(name) == name[i + 1..] {
      BucketOfExtension(name, i);
    }
    if forall i :: !ExtensionDotAt(name, i) {
      BucketOfExtensionless(name);
    }
  }

  /** Letter case is kept: `report.TXT` goes to bucket `TXT`. */
  lemma BucketKeepsCase()
    ensures Bucket("report.TXT") == "TXT"
  {
    BucketOfExtension("report.TXT", 6);
  }

  /** Only the last extension counts: `archive.tar.gz` goes to bucket `gz`. */
  lemma BucketTakesLastExtension()
    ensures Bucket("archive.tar.gz") == "gz"
  {
    BucketOfExtension("archive.tar.gz", 11);
  }

  /** A name without any dot, such as `README`, has no extension. */
  lemma BucketOfDotlessName(name: string)
    requires '.' !in name
    ensures Bucket(name) == NoExtension
  {
  }

  /** A dot file whose only dot is the leading one, such as `.gitignore`, has no extension. */
  lemma BucketOfDotFile(name: string)
    requires name != "" && name[0] == '.' && '.' !in name[1..]
    ensures Bucket(name) == NoExtension
  {
  }

  /** A name whose last character is a dot, such as `notes.` or `...`, has no extension. */
  lemma BucketOfTrailingDot(name: string)
    requires name != "" && name[|name| - 1] == '.'
    ensures Bucket(name) == NoExtension
  {
  }

  /** `output_folder / extension / file.name`: where the copy of `source` is written. */
  function Destination(output: Path, source: Path): Path
  {
    var name := Name(source);
    Join(Join(output, Bucket(name)), name)
  }

  /**
   For a file the plan copies (its name has a dot): the destination lies two
   levels below the output folder, in the bucket of the name, under the same
   name; nothing of the source's directories survives.
   */
  lemma DestinationLayout(output: Path, source: Path)
    requires '.' in Name(source)
    ensures var d := Destination(output, source);
      |d| == |output| + 2 && d[..|output|] == output &&
      d[|output|] == Bucket(Name(source)) && Name(d) == Name(source)
  {
  }

  /** Two copied files get the same destination exactly when they have the same name, whatever directories they came from. */
  lemma SameDestinationIffSameName(output: Path, p: Path, q: Path)
    requires '.' in Name(p) && '.' in Name(q)
    ensures Destination(output, p) == Destination(output, q) <==> Name(p) == Name(q)
  {
  }

  /**
   An entry gets a copy task when `rglob("*.*")` yields it (its name matches the
   pattern) and `is_file()` holds of it.
   */
  predicate Selected(e: Entry)
  {
    Matches(Pattern, Name(e.path)) && e.isFile
  }

  /** Selection is: a regular file whose name contains a dot. A dotless name such as `README` is never copied. */
  lemma SelectedIffDottedFile(e: Entry)
    ensures Selected(e) <==> e.isFile && '.' in Name(e.path)
  {
    StarDotStar(Name(e.path));
  }

  /** The task `read_folder` builds for an entry it keeps: copy it to its destination. */
  function TaskFor(output: Path, e: Entry): CopyTask
  {
    CopyTask(e.path, Destination(output, e.path))
  }

  /** The copy plan for a walk: one task per selected entry, in the order of the walk. */
  function Plan(walk: seq<Entry>, output: Path): seq<CopyTask>
  {
    var kept := FilterBy(walk, Selected);
    seq(|kept|, k requires 0 <= k < |kept| => TaskFor(output, kept[k]))
  }

  /**
   The plan holds exactly one task per selected entry, in walk order: the k-th
   task copies the entry at the k-th selected position of the walk, and every
   selected position has its task.
   */
  lemma PlanFollowsWalk(walk: seq<Entry>, output: Path)
    ensures var plan, pos := Plan(walk, output), PositionsBy(walk, Selected);
      |plan| == |pos| <= |walk| &&
      (forall k :: 0 <= k < |plan| ==> plan[k] == TaskFor(output, walk[pos[k]])) &&
      (forall j :: 0 <= j < |walk| && Selected(walk[j]) ==> j in pos)
  {
    FilterByAt(walk, Selected);
  }

  /**
   Walking one more entry adds its task to the end of the plan when it is a
   regular file with a dot in its name, and leaves the plan as it was otherwise
   (a directory, or a dotless name such as `README`).
   */
  lemma PlanAppend(walk: seq<Entry>, e: Entry, output: Path)
    ensures Plan(walk + [e], output) ==
      Plan(walk, output) + (if e.isFile && '.' in Name(e.path) then [TaskFor(output, e)] else [])
  {
    SelectedIffDottedFile(e);
    assert (walk + [e])[..|walk|] == walk;
  }

  /**
   Every task copies a file with a dot in its name, into the bucket of that name
   directly under the output folder, keeping the name.
   */
  lemma PlanDestinations(walk: seq<Entry>, output: Path)
    ensures forall t :: t in Plan(walk, output) ==>
      '.' in Name(t.source) &&
      |t.destination| == |output| + 2 && t.destination[..|output|] == output &&
      t.destination[|output|] == Bucket(Name(t.source)) && Name(t.destination) == Name(t.source)
  {
    var kept := FilterBy(walk, Selected);
    var plan := Plan(walk, output);
    forall t | t in plan
      ensures '.' in Name(t.source)
      ensures |t.destination| == |output| + 2 && t.destination[..|output|] == output
      ensures t.destination[|output|] == Bucket(Name(t.source)) && Name(t.destination) == Name(t.source)
    {
      var k :| 0 <= k < |plan| && plan[k] == t;
      assert kept[k] in kept;
      SelectedIffDottedFile(kept[k]);
      DestinationLayout(output, t.source);
    }
  }

  /**
   Two selected entries with the same name, wherever they sit in the tree, are
   given the same destination: whichever copy finishes last is the one kept.
   */
  lemma SameNameCollides(walk: seq<Entry>, output: Path, i: nat, j: nat)
    requires i < j < |walk| && Selected(walk[i]) && Selected(walk[j])
    requires Name(walk[i].path) == Name(walk[j].path)
    ensures var plan := Plan(walk, output);
      exists k, l :: 0 <= k < l < |plan| &&
        plan[k].source == walk[i].path && plan[l].source == walk[j].path &&
        plan[k].destination == plan[l].destination
  {
    var plan, pos := Plan(walk, output), PositionsBy(walk, Selected);
    PlanFollowsWalk(walk, output);
    assert i in pos && j in pos;
    var k :| 0 <= k < |pos| && pos[k] == i;
    var l :| 0 <= l < |pos| && pos[l] == j;
    IncreasingIndex(pos, k, l);
    assert plan[k] == TaskFor(output, walk[i]);
    assert plan[l] == TaskFor(output, walk[j]);
    assert plan[k].destination == Destination(output, walk[i].path) == Destination(output, walk[j].path) == plan[l].destination;
  }

  /** In a strictly increasing sequence, a smaller element sits at a smaller index. */
  lemma IncreasingIndex(pos: seq<nat>, k: int, l: int)
    requires forall a, b :: 0 <= a < b < |pos| ==> pos[a] < pos[b]
    requires 0 <= k < |pos| && 0 <= l < |pos| && pos[k] < pos[l]
    ensures k < l
  {
  }

  /**
   `read_folder`: walk the entries the recursive walk visits, and append a copy
   task for each that matches `*.*` and is a regular file. The result is the plan of the walk.
   */
  method ReadFolder(walk: seq<Entry>, output: Path) returns (tasks: seq<CopyTask>)
    ensures tasks == Plan(walk, output)
    ensures |tasks| <= |walk|
  {
    tasks := [];
    for i := 0 to |walk|
      invariant tasks == Plan(walk[..i], output)
      invariant |tasks| <= i
    {
      var file := walk[i];
      assert walk[..i + 1] == walk[..i] + [file];
      PlanAppend(walk[..i], file, output);
      SelectedIffDottedFile(file);
      if Selected(file) {
        var extension := Bucket(Name(file.path));
        var destinationFolder := Join(output, extension);
        var destinationFile := Join(destinationFolder, Name(file.path));
        tasks := tasks + [CopyTask(file.path, destinationFile)];
      }
    }
    assert walk[..|walk|] == walk;
  }

  /**
   `main` after argument parsing: a source that is missing or not a directory
   ends the run before any task is built; otherwise the run dispatches the plan.
   */
  method Run(source: SourceFolder, output: Path) returns (outcome: RunOutcome)
    ensures outcome == Rejected <==> !source.present || !source.isDir
    ensures outcome.Dispatched? ==> outcome.tasks == Plan(source.walk, output)
  {
    if !source.present || !source.isDir {
      return Rejected;
    }
    var tasks := ReadFolder(source.walk, output);
    outcome := Dispatched(tasks);
  }
}
