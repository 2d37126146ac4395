# ratpack marker-file bookkeeping, in Dafny

`src/ratpack/infest.py` simulates a "rat infestation". It drops marker files
named `<type>_id_<n>.rat` into a directory, sometimes nesting them into
`rat burrow` subdirectories. It counts them, draws a report of them and
removes them again, and it keeps the in-memory `RAT_REGISTRY` of what it
created. This project models that bookkeeping over an in-memory directory
tree and proves what the functions promise about names, counts, reports
and removals.

The model is split into modules that follow the parts of the file:

- `Strings`: the string operations Python supplies. These are `in`,
  `endswith`, `os.path.basename`, `os.path.join`, `str(n)` and `n * '---'`.
- `FileTree`: the directory tree. It also models `os.walk` (top-down, in
  listing order) and the tree edits done by `os.makedirs`, `shutil.copy`,
  `os.remove` and `shutil.rmtree`.
- `Census`: `RAT_TYPES`, `check_path` and `count_rats`. These are pure
  functions and lemmas.
- `Breeding`: a specification of `create_rats`, one loop iteration at a
  time.
- `Purge`: a specification of `exterminate`.
- `Report`: `visualize_infestation`. It is a specification function plus
  the methods that build the report string loop by loop.
- `Infest`: the class `Workspace`. It holds the tree and `RAT_REGISTRY` as
  fields. Its methods `CreateRats` and `Exterminate` change the fields in
  place, with the source's loops, and `Wrapper` models the `infest`
  decorator. Each method is proved equal to its specification function.

The code's inconsistencies are modelled as written:

- `count_rats` treats every subdirectory whose name *contains* "burrow" as
  a burrow.
- `exterminate` and `visualize_infestation` react only to a directory named
  exactly `burrow`.
- `create_rats` makes directories called `rat burrow`. Those are counted as
  burrows but never trigger `exterminate`'s burrow handling or a report
  heading.
- In `exterminate`, `in_burrow` is set once and never reset. In
  `create_rats` it is reset on every iteration, while `directory` stays
  inside the burrow.
- `check_path` is asked of `directory` joined with the bare file name, not
  of the walk's root joined with it. `os.path.isdir` is therefore
  answered for that name directly inside `directory`.
- `check_path` returns None (false) for a directory.
- `surface_rats_left` is counted before the walk. When `directory` is
  itself named `burrow`, the walk's first step sets `in_burrow`, so the
  root's own rats are removed after they were counted and the count is
  stale. `Purge.StaleSurfaceForBurrowRoot` shows this for one rat in a root
  named `burrow`: the call reports `surface_rats_left` 1 and leaves none.

Where the repository's tests or docstrings expect something else, the
model follows the code:

- `exterminate` never touches `RAT_REGISTRY`. It does not clear the
  registry or drop a burrow's entry, although
  tests/test_exterminate.py:31 expects the registry to be empty afterwards.
- Burrows that `create_rats` makes are named `rat burrow`, while
  tests/test_infest_decorator.py:69 looks for directories named
  `rat_burrow_*`.
- `check_path`'s docstring (src/ratpack/infest.py:138) says it accepts a
  directory named `burrow`. The code returns None for every directory.

## Model

| member | source | states |
|---|---|---|
| Strings.Join | src/ratpack/infest.py:110 | defines `os.path.join` for POSIX paths |
| Strings.Basename | src/ratpack/infest.py:210 | defines `os.path.basename` |
| Strings.Decimal | src/ratpack/infest.py:110 | `str(n)` has at least one digit, and two or more exactly from 10 on |
| Strings.Components | src/ratpack/infest.py:261 | `len(root.split(os.sep))` is at least one |
| Strings.JoinEnds | src/ratpack/infest.py:110 | `os.path.join(directory, name)` ends with `name` |
| Strings.BasenameLast | src/ratpack/infest.py:210 | `os.path.basename` is the '/'-free suffix after the last '/' |
| Strings.DecimalInjective | src/ratpack/infest.py:110 | different ids print differently in a rat name |
| Strings.DecimalDigits | src/ratpack/infest.py:110 | `str(n)` consists of decimal digits only |
| Strings.DashesOnly | src/ratpack/infest.py:264 | `n * '---'` holds dashes and nothing else |
| FileTree.Find | src/ratpack/infest.py:226 | the entry found has the name asked for and comes from the listing; none is found exactly when no entry has that name |
| FileTree.AddAtListing | src/ratpack/infest.py:89 | adding an entry to an existing directory appends it to that directory's listing |
| FileTree.AddAtEntry | src/ratpack/infest.py:117 | a new name then refers to the added entry |
| FileTree.AddAtLocations | src/ratpack/infest.py:89 | adding an entry to an existing directory adds exactly that entry's files and directories at that directory's location; every other file and directory of the tree stays |
| FileTree.AddFileLocations | src/ratpack/infest.py:117 | a new file at `rel` adds the one file location `rel/<name>` and no directory |
| FileTree.AddDirLocations | src/ratpack/infest.py:89 | `os.makedirs` of one new directory adds the one directory location `rel/<name>` and no file |
| FileTree.WithoutDirLocations | src/ratpack/infest.py:222 | removing files keeps every directory of the tree, at every depth |
| FileTree.RemoveFileWithout | src/ratpack/infest.py:222 | `os.remove` of one more file prunes the tree by one more location |
| FileTree.WithoutNothing | src/ratpack/infest.py:221-222 | pruning no location changes nothing (the dry run) |
| FileTree.WithoutKeepsDirs | src/ratpack/infest.py:215 | removing files never changes what `os.path.isdir` answers |
| FileTree.Unlink | src/ratpack/infest.py:229 | after `shutil.rmtree` the name is gone, every remaining entry was there before, and every entry with another name survives |
| FileTree.Walk | src/ratpack/infest.py:209 | `os.walk` yields the root first, with its own files |
| FileTree.WalkDirsDepth | src/ratpack/infest.py:209 | every later step of the walk lies strictly below the root |
| FileTree.WalkVisits | src/ratpack/infest.py:209 | `os.walk` visits every directory of the tree, with the files directly in it |
| FileTree.WalkFinds | src/ratpack/infest.py:209 | every file of the tree, at any depth, is listed by some step of the walk |
| FileTree.WalkListed | src/ratpack/infest.py:209 | every file a step of the walk lists is a file of the tree, one level below that step |
| FileTree.ListingAtSnoc | src/ratpack/infest.py:88-89 | the directory one level further down is the subdirectory of that name |
| FileTree.Appended | src/ratpack/infest.py:89 | adding to an existing directory appends to it, and a free name then refers to the new entry |
| FileTree.RemoveFile | src/ratpack/infest.py:222 | defines `os.remove` of one file at a location |
| FileTree.AddAt | src/ratpack/infest.py:88-89 | defines the tree edit of `os.makedirs` and `shutil.copy`: a new entry at the end of the directory at a location |
| FileTree.IsDirNamed | src/ratpack/infest.py:172 | defines `os.path.isdir` of a name directly inside a directory |
| FileTree.Without | src/ratpack/infest.py:221-222 | defines the tree after removing the files at a set of locations |
| FileTree.WithoutLocations | src/ratpack/infest.py:221-222 | the files left are exactly the files that were there, less the removed locations |
| FileTree.UnlinkLocations | src/ratpack/infest.py:229 | `shutil.rmtree` adds no file anywhere in the tree |
| Census.CheckPath | src/ratpack/infest.py:130-141 | defines `check_path`: a non-directory whose path contains both "rat_id" and ".rat" |
| Census.MentionsAny | src/ratpack/infest.py:165 | defines `any(rat in file for rat in rat_types)` |
| Census.Admits | src/ratpack/infest.py:164-165 | defines the type filter: None and the empty list let every name through |
| Census.IsRat | src/ratpack/infest.py:162-165 | defines a counted entry: its name ends in ".rat" and passes the type filter |
| Census.RatCount | src/ratpack/infest.py:162-167 | defines the number of ".rat" entries that pass the type filter, and it is at most the listing's length |
| Census.BurrowRats | src/ratpack/infest.py:169-178 | defines the rats counted one level down in subdirectories whose name contains "burrow" |
| Census.RatCountSnoc | src/ratpack/infest.py:162-167 | one more entry is counted once more exactly when it is a rat |
| Census.CheckPathRejectsDirectories | src/ratpack/infest.py:140-141 | `check_path` never accepts a directory |
| Census.CountRats | src/ratpack/infest.py:159-184 | `total_rats == surface_rats + burrowed_rats`; surface counts are bounded by the listing; `include_burrows=False` gives no burrowed rats |
| Census.SurfaceIgnoresBurrowFlag | src/ratpack/infest.py:167-169 | `surface_rats` does not depend on `include_burrows` |
| Census.RatCountPositive | src/ratpack/infest.py:162-167 | some rat is counted exactly when some entry ends in ".rat" and passes the filter |
| Census.EmptyFilterIsNoFilter | src/ratpack/infest.py:164 | an empty type list counts like None, surface and burrows alike |
| Census.FilteredTotalNeverAbove | src/ratpack/infest.py:164-165 | the filtered total and surface counts never exceed the unfiltered ones |
| Census.FilterKeepsAll | src/ratpack/infest.py:165 | the filter loses nothing exactly when every ".rat" entry mentions a listed type |
| Census.CountSeesTwoLevels | src/ratpack/infest.py:169-178 | counting looks one level down and only into directories whose name contains "burrow"; nothing deeper changes the counts |
| Breeding.ClampLevel | src/ratpack/infest.py:71-72 | the level lies in [1,5], and a level already in range is kept |
| Breeding.ClampProbability | src/ratpack/infest.py:74-75 | the probability lies in [0,1], and a value already in range is kept |
| Breeding.RatName | src/ratpack/infest.py:110 | defines `f'{rat_type}_id_{rat_count + 1}.rat'` |
| Breeding.Dig | src/ratpack/infest.py:85-97 | no burrow unless the probability beats the draw; then it fails exactly on a file named `rat burrow`, and otherwise moves into the burrow, lowers the probability by 0.2 and registers the burrow empty; the tree gains an empty `rat burrow` directory unless one exists, and the new directory exists (empty when it was created) |
| Breeding.Copy | src/ratpack/infest.py:117 | `shutil.copy` to a free name results in exactly the tree with a file of that name appended to the directory; to an existing file, in the tree unchanged; into an existing directory, in exactly the tree with a file named like the image appended inside it, or unchanged when that file exists; it fails, with IsADirectory, exactly when the destination inside is a directory |
| Breeding.CopyLeaves | src/ratpack/infest.py:117 | a `shutil.copy` that succeeds leaves exactly the tree `Copied` describes: the file appended under a free name, a file named like the image appended inside a directory of that name when it has none, and the tree unchanged otherwise |
| Breeding.Placed | src/ratpack/infest.py:110-126 | after the copy, one rat `<directory>/<type>_id_<id>.rat` is reported copied; the tree is exactly the one `shutil.copy` leaves, the name exists in the directory (appended when it was free, with the image's file inside when it is a directory); the loop stays in the same directory with the same probability; the rat is registered under the burrow's `contains` or under its own path, and nothing else in the registry changes |
| Breeding.CopyLocations | src/ratpack/infest.py:117 | a copy into an existing directory creates no directory and adds exactly one file location (`<name>`, or `<name>/<image>` inside a directory of that name) or none when it overwrites; no other file goes away |
| Breeding.DigLocations | src/ratpack/infest.py:88-89 | the burrow step creates no file and adds exactly the `rat burrow` directory when it is missing; nothing else in the tree changes |
| Breeding.Drop | src/ratpack/infest.py:101-126 | it fails exactly on a missing directory (NoSuchDirectory), an empty type list (EmptyChoice), or a destination that is a directory holding a directory named like the image (IsADirectory), and then changes nothing; otherwise the result is exactly `Placed` for the chosen type, the id one past the rats counted there, and the rolled image |
| Breeding.Spawn | src/ratpack/infest.py:83-126 | defines one iteration: the burrow step, then the rat step |
| Breeding.Breed | src/ratpack/infest.py:81-128 | defines the loop, stopping at the first exception |
| Breeding.SpawnKeepsDirectory | src/ratpack/infest.py:85-126 | an iteration that starts in an existing directory and returns ends in an existing directory |
| Breeding.BreedNeverMissing | src/ratpack/infest.py:81-128 | a run that starts in an existing directory never raises FileNotFoundError |
| Breeding.Start | src/ratpack/infest.py:74-75 | the loop starts in the given directory with the given tree and registry, with the burrow probability clamped into [0, 1] and unchanged when it already lies there |
| Breeding.StartNeverMissing | src/ratpack/infest.py:53-128 | `create_rats` never raises FileNotFoundError for the directory it is given |
| Breeding.SpawnBlocked | src/ratpack/infest.py:88-89 | `os.makedirs` raises when a file has the burrow's name |
| Breeding.DropRaises | src/ratpack/infest.py:101-108 | a missing directory or an empty type list raises and changes nothing |
| Breeding.SpawnEmptyChoice | src/ratpack/infest.py:108 | `random.choice` raises exactly when the type list is empty |
| Breeding.SpawnNamesRat | src/ratpack/infest.py:101-110 | an iteration copies one rat, named from the unfiltered, burrow-free count of the directory it ended in |
| Breeding.SpawnRegisters | src/ratpack/infest.py:83-126 | a burrow iteration registers the new burrow holding exactly its rat; any other iteration registers the rat with its type and id; nothing else in the registry changes |
| Breeding.BreedCopiesOnePerRoll | src/ratpack/infest.py:81-128 | at most one rat per iteration, and exactly one per iteration when no exception is raised |
| Breeding.BreedCopiesAreRats | src/ratpack/infest.py:110 | every copied path ends in ".rat" |
| Breeding.IdSuffixUnique | src/ratpack/infest.py:110 | a name ends in at most one `_id_<n>.rat` |
| Breeding.NumberedFree | src/ratpack/infest.py:101-110 | when the `.rat` entries carry ids 1 to their count, the next rat's name is free |
| Breeding.NumberedSnoc | src/ratpack/infest.py:110-117 | appending the next rat keeps the ids exactly 1 to the count, and the count grows by one |
| Breeding.SpawnNumbered | src/ratpack/infest.py:101-117 | with no burrow dug, an iteration appends the rat numbered one past the count |
| Breeding.BreedNumbered | src/ratpack/infest.py:81-128 | with no burrow dug, a directory whose `.rat` entries carry ids 1 to their count keeps its entries, gains one rat per iteration, and its ids stay exactly 1 to the count |
| Breeding.FreshDirectorySurface | src/ratpack/infest.py:81-128 | in a directory without `.rat` entries and with no burrow dug, N iterations copy N rats and leave exactly N surface rats |
| Breeding.SpawnRatsFrom | src/ratpack/infest.py:94-126 | one iteration registers only burrows and rats whose type comes from the list |
| Breeding.BreedRatsFrom | src/ratpack/infest.py:105-126 | every rat record a run leaves has a type from `rat_types` (or `RAT_TYPES` when None), unless it was there before |
| Breeding.DefaultRatsFrom | src/ratpack/infest.py:105-108 | with no list given, every new rat record has one of the five default types |
| Breeding.DefaultTypesEndInRat | src/ratpack/infest.py:27 | every default type ends in "rat" |
| Breeding.RatNamePassesCheck | src/ratpack/infest.py:110 | a rat of a type ending in "rat" passes `check_path` wherever it lies |
| Purge.Plan | src/ratpack/infest.py:209 | the walk of `exterminate` starts at `directory` itself, with the files listed there |
| Purge.SelectedGate | src/ratpack/infest.py:215-219 | a file is selected only when its name mentions a type; without `burrows_only`, or once a `burrow` step has been seen, exactly the hits are selected; before that, with `burrows_only`, none is |
| Purge.RemainsLocations | src/ratpack/infest.py:221-222 | a dry run leaves the tree as it was; otherwise exactly the removed file locations are gone, and every directory stays |
| Purge.Hit | src/ratpack/infest.py:215-217 | defines the files `exterminate` removes: passing `check_path` on `directory` joined with the name, and mentioning a listed type |
| Purge.Exterminate | src/ratpack/infest.py:186-233 | defines the result and the tree `exterminate` leaves; a dry run always returns and leaves the tree as it was; `surface_rats_left` is present exactly when `burrows_only` is set |
| Purge.Armed | src/ratpack/infest.py:208-213 | defines the sticky `in_burrow` flag at a step of the walk |
| Purge.BurrowVisits | src/ratpack/infest.py:210-212 | defines `burrows_removed`: the steps so far whose basename is `burrow`, never more than the steps |
| Purge.Picked | src/ratpack/infest.py:214-222 | the file loop of one step selects at most one location per file, each one level below the step |
| Purge.Swept | src/ratpack/infest.py:209-222 | defines the locations the walk selects, in walk order |
| Purge.ArmedMeans | src/ratpack/infest.py:208-213 | `in_burrow` holds at a step exactly when some step so far visited a directory named `burrow` |
| Purge.Cleanup | src/ratpack/infest.py:224-231 | `burrow` is removed exactly when it is an empty directory and this is not a dry run; listing it raises exactly when it is a file and this is not a dry run |
| Purge.SweepStep | src/ratpack/infest.py:214-222 | a file is selected exactly when it passes `check_path` and the type filter and is not skipped by `burrows_only`; removing it prunes the tree by its location |
| Purge.DryRunReportsTheSame | src/ratpack/infest.py:214-231 | a dry run changes nothing, never fails, and reports what the real run reports whenever that one returns |
| Purge.OnlyEmptyBurrowRemoved | src/ratpack/infest.py:224-229 | without a dry run, `burrow` disappears only when it was empty after the walk, and an empty one always disappears |
| Purge.BurrowsOnlySparesRoot | src/ratpack/infest.py:208-219 | with `burrows_only` and a root not named `burrow`, nothing directly in the root is selected |
| Purge.SurfaceRatsLeftIsExact | src/ratpack/infest.py:204-205 | with `burrows_only` and a directory whose basename is not `burrow`, `surface_rats_left` equals the root's ".rat" count after the call |
| Purge.StaleSurfaceForBurrowRoot | src/ratpack/infest.py:204-222 | for a root named `burrow` holding one `sewer_rat` file, `exterminate(..., ["sewer_rat"], burrows_only=True)` reports one rat and one burrow removed and `surface_rats_left` 1, yet leaves no rat at the root |
| Purge.FullSweepClearsRoot | src/ratpack/infest.py:209-222 | without `burrows_only`, a real run leaves no file directly in the root that it would remove |
| Purge.RootHitDoomed | src/ratpack/infest.py:214-220 | without `burrows_only`, every hit directly in the root is selected |
| Purge.SweptAreHits | src/ratpack/infest.py:209-220 | everything the walk selects is a file of the tree that is a hit |
| Purge.DeepHitDoomed | src/ratpack/infest.py:209-220 | without `burrows_only`, every hit at any depth is selected |
| Purge.SweptExactlyHits | src/ratpack/infest.py:209-220 | without `burrows_only`, the selected locations are exactly the hits of the whole tree |
| Purge.FullSweepClearsTree | src/ratpack/infest.py:209-231 | without `burrows_only`, a real run leaves no hit anywhere in the tree, and every file left was there before |
| Purge.PickedCountsHits | src/ratpack/infest.py:214-220 | without `burrows_only`, one step of the walk counts each of its listed hits once |
| Purge.SweptCountsHits | src/ratpack/infest.py:209-220 | without `burrows_only`, the walk's selections number exactly the hits its steps list |
| Purge.WalkCountsTree | src/ratpack/infest.py:209 | the hits the steps of `os.walk` list add up to the hit files of the whole tree, each counted once |
| Purge.RemovedIsTreeHits | src/ratpack/infest.py:209-220 | without `burrows_only`, `rats_removed` equals the number of hit files in the whole tree, at every depth, dry run or not |
| Purge.NoTypesNoRemoval | src/ratpack/infest.py:216-217 | an explicit empty type list removes nothing |
| Report.Visualization | src/ratpack/infest.py:250-284 | defines the report string for the tree, format and burrow flag; it is the clean message exactly when `count_rats` finds no rat |
| Report.Heading | src/ratpack/infest.py:257-271 | defines the first line: the report for "text", the alert for any other format |
| Report.TotalLine | src/ratpack/infest.py:259 | defines `f"Total rats: {total} \n"` |
| Report.Label | src/ratpack/infest.py:266-282 | defines what a file line shows: the name for "text", the glyph otherwise |
| Report.Piece | src/ratpack/infest.py:264-269 | defines one rendered line: `depth * '---'`, the text or label, then a newline |
| Report.CleanExactlyWhenNoRats | src/ratpack/infest.py:252-259 | the clean message exactly when no rat is counted; otherwise the heading for the format and `Total rats: N`, in that order |
| Report.HeadingShape | src/ratpack/infest.py:261-264 | a walk step has a heading line exactly when it is named `burrow`, one level above its files |
| Report.StepShape | src/ratpack/infest.py:261-269 | a step's lines: at most one `burrow` heading, first; file lines at the step's depth; `check_path` admits each file; no files for a `burrow` step when burrows are excluded |
| Report.FileLines | src/ratpack/infest.py:267-269 | the file loop writes at most one line per file, and one for every file exactly when `check_path` admits them all |
| Report.FileLinesShape | src/ratpack/infest.py:267-269 | the file lines are at the step's depth and each passes the `check_path` test |
| Report.FileLinesComplete | src/ratpack/infest.py:267-269 | every file the `check_path` test admits gets its line at the step's depth |
| Report.StepLinesComplete | src/ratpack/infest.py:265-269 | a walk step shows every admitted file, unless it is a `burrow` step skipped because `include_burrows` is off |
| Report.ReportComplete | src/ratpack/infest.py:260-269 | every file of the tree, at any depth, that passes `check_path` joined onto `directory` gets its line in the report, unless its step is a skipped `burrow` step |
| Report.LayoutShown | src/ratpack/infest.py:260-269 | the lines of the walk are shown lines when every step's lines are |
| Report.ReportShown | src/ratpack/infest.py:263-282 | every report line is a `burrow` heading or a file that passes `check_path` joined onto `directory` |
| Report.RenderAppend | src/ratpack/infest.py:264-269 | rendering concatenated lines concatenates their renderings |
| Report.ShowFiles | src/ratpack/infest.py:267-269 | the loop over a step's files appends exactly the lines of the admitted files |
| Report.ShowStep | src/ratpack/infest.py:261-269 | one walk step appends its heading and, unless skipped, its file lines |
| Report.ShowWalk | src/ratpack/infest.py:260-269 | the walk loop appends the rendered lines of every step, in walk order |
| Report.Visualize | src/ratpack/infest.py:250-284 | `visualize_infestation` returns the report the specification defines, for both formats |
| Infest.Workspace.constructor | src/ratpack/infest.py:24 | the registry starts empty |
| Infest.Workspace.Wrapper | src/ratpack/infest.py:47-49 | `create_rats` runs in "."; its exception propagates, and otherwise the wrapped function's result comes back unchanged |
| Infest.Workspace.DefaultWrapper | src/ratpack/infest.py:29-49 | a bare `@infest()` runs three iterations over the five default types with burrow probability 0.2 |
| Infest.Workspace.CreateRats | src/ratpack/infest.py:53-128 | the tree and registry become those of the specification run over the clamped number of rolls, and the exception is the one that run raises |
| Infest.Workspace.Iterate | src/ratpack/infest.py:81-128 | one loop iteration changes the state as one specification iteration does |
| Infest.Workspace.DigBurrow | src/ratpack/infest.py:85-97 | the burrow step changes the state as `Dig` prescribes |
| Infest.Workspace.PlaceRat | src/ratpack/infest.py:101-110 | the rat step changes the state as `Drop` prescribes |
| Infest.Workspace.Release | src/ratpack/infest.py:110-126 | the copy and the registry update are those of `Drop` |
| Infest.Workspace.Exterminate | src/ratpack/infest.py:186-233 | the result and the tree are those of the specification `Purge.Exterminate`; the registry is unchanged |
| Infest.Workspace.Sweep | src/ratpack/infest.py:214-222 | one step's file loop removes exactly the step's selected files |
| Infest.Workspace.SweepFile | src/ratpack/infest.py:215-222 | one file is removed, or in a dry run only counted, exactly when it is selected |
| Infest.Workspace.RemoveBurrow | src/ratpack/infest.py:224-231 | the final cleanup changes the tree as `Cleanup` prescribes |

## Left out

- Randomness:
  - Each loop iteration of `create_rats` reads a `Roll`: the value `random.random()` returned, the index `random.choice(rat_types)` picked (reduced modulo the list's length) and the base name of the image chosen.
  - `random.choice(images)` on an empty image list is not modelled.
- Floating point: probabilities are exact reals. The float rounding of the repeated `-= 0.2` is not modelled.
- Images and resources:
  - `importlib.resources` image loading and the PIL imports are not part of this model.
  - File contents are not modelled: `shutil.copy` only adds the destination name to the tree, or a file named like the image when the destination is a directory.
- Real I/O:
  - The tree stands in for the filesystem, with POSIX paths.
  - `os.walk` visits siblings in listing order.
  - A missing top-level directory is not modelled: every operation is given the listing of an existing directory. `Breeding.Drop` keeps the FileNotFoundError branch of `count_rats`, which `Breeding.StartNeverMissing` shows a run of `create_rats` never reaches.
  - The `print` in the `rmtree` error handler is left out. An empty directory is assumed to be removable.
- The walk in `exterminate` is computed before the file loop. This matches `os.walk`, because the loop removes only files of directories the walk has already listed.
- `functools.wraps` metadata is left out. The decorated function's arguments are left out too, and its result is a parameter.
- Loop bodies as methods: `Infest.Workspace.Iterate`, `DigBurrow`, `PlaceRat`, `Release`, `SweepFile` and `Report.ShowStep` are the source's loop bodies, split out as methods. Each keeps the source's order of effects.
- Specification helpers without a row of their own: `Purge.Selected` and `Purge.Remains` are stated by `Purge.SelectedGate` and `Purge.RemainsLocations`; `Report.HeadingLines` by `Report.HeadingShape`; `Report.BodyLines` and `Report.StepLines` by `Report.StepShape` and `Report.StepLinesComplete`; `Report.Render` by `Report.RenderAppend`; `Report.ReportText` by `Report.CleanExactlyWhenNoRats`, `Report.ReportShown` and `Report.ReportComplete`. Each is a plain definition whose contract would only restate its body.
- Report.Visualize: the `check_path` test for file lines is the function `Report.Keep`, passed to the loop methods as a parameter. The methods call it where the source calls `check_path`.
- Breeding.BreedNumbered: stated only for a run in which no burrow is dug, the case the name numbering covers without nesting.
