# node-labels-to-files, modelled in Dafny

`node-labels-to-files` mirrors the labels of one Kubernetes node into a
directory. Each label key becomes a file under the configured directory, and
the file holds the label's value. A key with a `/` in it, such as
`failure-domain.beta.kubernetes.io/region`, becomes a file in a
sub-directory. When `deleteStaleFiles` is set, every entry below the
directory that no current label accounts for is removed after the writes.

This project models the reconciliation core of `main.go` and proves what it
does:

- `wrappers.dfy` (`Wrappers`): `Option` and `Result`.
- `config.dfy` (`Config`): the settings and `config.Validate`.
- `paths.dfy` (`Paths`): paths as `/`-separated segment sequences.
  - `filepath.Join(directory, key)` becomes `LabelPath`.
  - `path.Dir` becomes `Parent`.
  - `strings.TrimSuffix(directory, "/")` becomes `TrimSuffix` and `RootPath`.
- `filesystem.dfy` (`FileSystem`): the disk as a finite map from paths to
  `File(content)` or `Dir`, kept tree-shaped: the parent of every entry is a
  directory. It models `os.MkdirAll`, `os.Create` plus `Write`, and
  `os.RemoveAll` on that map.
- `reconciler.dfy` (`Reconciler`): the class `NodeLabelsToFiles` holds the
  configuration and the tree. Its methods are `filesToDelete`,
  `deleteStaleFiles`, `createFileFromLabels`, `writeToFile` and
  `processOnce`. Beside it are the specification of a stale entry, the pruned
  tree, and the lemmas linking the methods to them.
- `examples.dfy` (`Examples`): the `test/resources` fixture of the
  repository's tests, with the stale entries each test expects.

A label path is *required* when it is a label's file, or a directory
strictly between the configured directory and such a file. An entry is
*stale* when it lies strictly below the configured directory and is not
required. The tree is *converged* when every label's file holds its value and
nothing is stale.

## Model

| member | source | states |
|---|---|---|
| Config.Validate | main.go:39-56 | Returns no error exactly when directory and node name are set and mode is `once` or `always`. Otherwise it returns the message of the first failing check, in the order directory, node name, empty mode, unknown mode. |
| Config.ValidateMessagesDistinct | main.go:39-56 | Two failing configurations with the same message fail the same check, so each message names its cause. |
| Config.ValidateExamples | main_test.go:128-168 | The five validation cases of the tests give exactly the expected outcomes and messages. |
| Paths.JoinSplit | main.go:143 | Joining a string's segments with `/` gives the string back, so the segment model of a path loses nothing. |
| Paths.SplitJoin | main.go:143 | Splitting `/`-joined segments that contain no `/` gives the segments back. |
| Paths.SplitAroundSlash | main.go:143 | Splitting `a + "/" + b` gives the segments of `a` followed by those of `b`: joining is concatenating segments. |
| Paths.TrimSuffix | main.go:146 | When the suffix is present, the result plus the suffix is the input; otherwise the input is returned unchanged. |
| Paths.Parent | main.go:145 | `path.Dir` of a clean path is a strict prefix, one segment shorter. |
| Paths.LabelPath | main.go:143 | A label's file lies strictly below the trimmed configured directory. |
| Paths.LabelPathIsJoin | main.go:143 | The label path is the split of the trimmed directory, a `/`, and the key: the string `filepath.Join` builds. |
| Paths.LabelPathInjective | main.go:141-144 | Distinct valid label keys are written to distinct paths. |
| Paths.TrailingSlashSameRoot | main.go:146 | A clean directory with one trailing `/` gives the same root path as without it, and is still clean. |
| FileSystem.MkdirAll | main.go:194 | Fails exactly when a file sits on the path. Otherwise it adds every missing directory up to the path, keeps every old entry, and keeps the tree well-formed. |
| FileSystem.WritableIff | main.go:189-202 | A file can be written exactly when `MkdirAll` of its directory succeeds and the path itself is not a directory. |
| FileSystem.Written | main.go:189-210 | After a successful write, the path holds exactly the content, its directory exists, and no other old entry changed. New entries lie only on the path, and the tree stays well-formed. |
| FileSystem.WrittenSame | main.go:189-210 | Writing the content a file already holds is possible and changes nothing. |
| FileSystem.FileWritable | main.go:199-204 | An existing file in a well-formed tree can always be written again. |
| FileSystem.UnwritablePersists | main.go:179-186 | A path that cannot be written stays unwritable after another label's file is written. |
| FileSystem.RemoveAll | main.go:172 | Removes the path and everything below it and keeps all else. Removing a missing path changes nothing. |
| Reconciler.ChainIsRange | main.go:145-149 | The ancestor loop records exactly the paths strictly below the root that lead to the label's file. |
| Reconciler.RequiredSetIff | main.go:141-150 | The union of the recorded chains over all labels is exactly the set of required paths. |
| Reconciler.RequiredUpward | main.go:152-159 | Every ancestor below the root of a required path is required. So everything under a stale directory is stale too. |
| Reconciler.Pruned | main.go:164-176 | Removing the stale entries leaves a well-formed tree with nothing stale and every other entry unchanged. A tree with nothing stale is left as it is. |
| Reconciler.RemovedStaleIsPruned | main.go:170-173 | Recursively removing each stale entry, in any order, leaves exactly the pruned tree. |
| Reconciler.ConvergedExact | main.go:221-236 | In a converged tree, the entries below the root are exactly the required paths. |
| Reconciler.StaleIgnoresTrailingSlash | main.go:146 | With or without a trailing `/` on the directory, label paths and stale entries are the same. |
| Reconciler.EmptyRootAllWritable | main.go:178-187 | Into an existing directory with nothing below it, every label's file can be written. |
| Reconciler.WrittenKeepsFiles | main.go:179-186 | Writing one label's file keeps the files already written for the other labels. |
| Reconciler.WrittenKeepsFailed | main.go:179-186 | After one more write, the failed labels are still exactly those whose file cannot be written. |
| Reconciler.WrittenKeepsWritable | main.go:179-186 | When no label's file lies inside another's, writing one keeps the rest writable. |
| Reconciler.FailedKeeps | main.go:181-185 | A failed write is recorded and changes neither the tree nor the earlier outcomes. |
| Reconciler.WrittenOnly | main.go:179-186 | A successful write changes only a file at the label's own path, never a directory, and adds only that file and the directories above it. |
| Reconciler.OutcomeApplied | main.go:178-187 | Once every label is attempted, each label whose file can be written holds its value. |
| Reconciler.FailedUnique | main.go:181-185 | The tree alone decides which labels fail: two exact failure sets for the same tree and labels are equal. |
| Reconciler.PrunedKeepsOutcome | main.go:227-229 | Deleting stale entries keeps every written label's file. It also keeps whatever blocked a failed label, since that is required. |
| Reconciler.WritesKeepNonStale | main.go:225-229 | An entry that was not stale before the writes is not stale after them. |
| Reconciler.NodeLabelsToFiles.RecordAncestors | main.go:145-149 | The inner loop adds exactly the chain from the label's file up to the root. |
| Reconciler.NodeLabelsToFiles.RequiredPaths | main.go:140-150 | The map's keys are exactly the required paths. |
| Reconciler.NodeLabelsToFiles.FilesToDelete | main.go:137-162 | The list holds exactly the stale entries of the tree, each once. The walk never reports an error. |
| Reconciler.NodeLabelsToFiles.WriteToFile | main.go:189-210 | Succeeds exactly when the file is writable, and then leaves `Written`. On failure the tree is unchanged. |
| Reconciler.NodeLabelsToFiles.CreateFileFromLabels | main.go:178-187 | Every label is attempted. The failures are exactly the labels whose file cannot be written, and every other label's file holds its value. Only the labels that did not fail change the tree: nothing is removed, no directory is replaced, only files at their paths change, and every new entry lies on one of their paths. Without nesting and with every file writable up front, nothing fails. When every label that can be written already holds its value, nothing changes; when every label's file holds its value, nothing fails either. |
| Reconciler.NodeLabelsToFiles.DeleteStaleFiles | main.go:164-176 | Leaves exactly the pruned tree. |
| Reconciler.NodeLabelsToFiles.ProcessOnce | main.go:221-236 | Writes first, then prunes only when `deleteStaleFiles` is set, keeping each label's outcome. The writes change only the paths of labels that did not fail, and never replace a directory. A run with deletion and no failure converges; a run on a converged tree changes nothing. Without deletion, a run on a tree holding every value changes nothing. Every run leaves the tree settled: each label whose file can be written holds its value and, with deletion, nothing is stale. A run on a settled tree changes nothing, even after failures. |
| Reconciler.NodeLabelsToFiles.ProcessTwice | main.go:250-258 | A second pass over the same labels, as the watch loop makes on a repeated event, leaves the tree as the first pass left it and fails on exactly the same labels. |
| Examples.StaleFooOnly | main_test.go:55-68 | Under `test/resources` with labels `bar` and `baz`, only `foo` is stale. |
| Examples.StaleBothFiles | main_test.go:69-82 | Under `test/resources` with label `baz`, `foo` and `bar` are stale. |
| Examples.StaleDirectory | main_test.go:83-97 | Under `test` with label `baz`, the directory `resources` and both files in it are stale. |
| Examples.StaleBesideNestedLabel | main_test.go:98-111 | Under `test` with labels `baz` and `resources/bar`, only `resources/foo` is stale. |
| Examples.StaleBesideNestedLabelTrailingSlash | main_test.go:112-125 | The same holds for the directory `test/`. |

## Where the code and its description differ

The model follows the code in each of these places.

- The walk in `filesToDelete` (main.go:152-159) passes every error to its callback. The callback always returns nil, so the walk never fails. The "stale scan error" that aborts a pass therefore cannot happen, and `FilesToDelete` has no error result.
- `deleteStaleFiles` ignores the error of `os.RemoveAll` (main.go:172), so there is no delete error either. `RemoveAll` in the model always succeeds.
- `createFileFromLabels` returns nothing; failed labels are only logged (main.go:183-185). The model returns the set of failed labels in place of the log lines.
- The continuous mode is called `always` in the code (main.go:23).

## Left out

- `parseFlags`, `Exists`, `getConfig`, `buildClient`, `getNodeLabels`, `process` and `main`: these are flag parsing, the Kubernetes client, the watch loop and process exit. They are I/O around the core. The labels are a parameter of each operation.
- Logging (`klog`) is left out. Only the per-label failures it reports are kept, as the returned set.
- Permissions, stat and I/O failures other than the ones the tree decides (a file where a directory is needed, a directory where a file is to be written) are left out. Symbolic links and file modes are left out too.
- Go's random map iteration and the walk's lexical order are not modelled. The loops take keys and entries in an arbitrary order, and every result is proved for any order.
- `path.Clean` is not modelled. `filepath.Join` and `path.Dir` clean the paths they build, while the model splits strings into segments as they are. So the model keeps to inputs that cleaning leaves unchanged. A clean directory, once one trailing `/` is trimmed, is not `/` and has no `.` or `..` segment and no empty segment past a leading `/`. Every method of `NodeLabelsToFiles` requires it through the class invariant. A valid key has no empty, `.` or `..` segment. Kubernetes label keys always satisfy this.
- Some of the excluded inputs make the ancestor loop at main.go:146 run forever: the directories `./labels`, `labels//` and `/`, and with deletion on the empty key or a key such as `../x`. Others terminate in the source and are simply not modelled: the directories `.`, `..` and `../labels`, and keys such as `a//b`, `a/` or `a/./b`.
- Reconciler.NodeLabelsToFiles.RequiredPaths: requires a clean directory and valid keys, because the model does not clean paths.
- Reconciler.NodeLabelsToFiles.FilesToDelete: requires valid keys, because the model does not clean paths.
- Reconciler.NodeLabelsToFiles.DeleteStaleFiles: requires valid keys, because the model does not clean paths.
- Reconciler.NodeLabelsToFiles.CreateFileFromLabels: requires valid keys, because `filepath.Join` cleans a key. With the empty key the source writes to the directory itself, and `a/b` and `a//b` name the same file; the model would build different paths for these.
- Reconciler.NodeLabelsToFiles.ProcessOnce: requires valid keys, for the writes as in `CreateFileFromLabels`. With deletion on, some invalid keys would also make the ancestor loop run forever.
- Reconciler.NodeLabelsToFiles.ProcessTwice: requires valid keys, as `ProcessOnce` does.
- Paths.LabelPathInjective: requires valid keys, because `filepath.Join` maps distinct keys such as `a/b` and `a//b` to the same path.
- `Config.kubeconfig` and `Config.mode` are carried but not used by the core. The mode is read only by `main` (main.go:274), to decide whether to enter the watch loop after the first pass. `process` does not read it.
