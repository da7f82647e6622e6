# Directory mirroring and deployment gate, in Dafny

This project models two GitHub Actions of a Databricks toolkit and proves properties of the model.

**The copy action** (`copy/index.py`) mirrors a local directory tree into a Databricks workspace.
- It checks that the source path exists and is a directory.
- It resets the destination with a recursive delete. A `ResourceDoesNotExist` reply counts as success.
- It walks the tree with `rglob("*")`.
- A directory's remote path is created with `mkdirs` unless the run's `directories` memo already holds it.
- A file first gets its remote parent created when the memo lacks that parent. This repair goes one level only.
- The file is then read and uploaded with overwrite set.

**The deploy gate** (`deploy/validate.py`) has two checks:
- it refuses the `deploy` stage unless `GITHUB_REF_PROTECTED` is `"true"`;
- it refuses a bundle configuration whose `resources` declare `clusters` or `schemas`.

Modules:
- `PosixPaths` (`posix_paths.dfy`) covers the part of `PurePosixPath` the action uses: parsing, `as_posix()`, the `/` operator, `parent`, and the round trip `Parse(Format(p)) == p`. That round trip makes the path mapping injective.
- `Workspace` (`workspace.dfy`) is an in-memory remote store. The class `Client` has `objects`, `folders` and a ghost `trace` of every request. Any request may fail, whatever the store holds, so every result holds for every pattern of remote failures. A delete answers `ResourceDoesNotExist` only when nothing exists at or below its path.
- `SyncPlan` (`sync_plan.dfy`) is the pure reference of the copy loop. `Step` is one iteration, `Run`/`Plan` fold it over the walk, and `Uploaded` gives the content each path last received. Its lemmas state the loop's invariants and what a run leaves behind.
- `Copy` (`copy.dfy`) is the imperative action:
  - `CleanupContainmentDirectory` is the reset;
  - `SyncDirectory` and `SyncFile` model a directory iteration and a file iteration of the loop, and `SyncEntry` chooses between them. Both create directories through `MakeDirectory` (the memo test and `mkdirs`), and `SyncFile` reads and uploads through `UploadFile`;
  - `Synchronize` is the loop with its `directories` memo;
  - `Copy` is `main`.

  The loop methods (`MakeDirectory`, `UploadFile`, `SyncDirectory`, `SyncFile`, `SyncEntry`, `Synchronize`) are proved against `SyncPlan`. The reset is proved against the store's `RemoveWithin` and `RemoveWithinSet`, and `Copy` against both.
- `Validate` (`validate.dfy`) holds `validate`, the stage enumeration and the resource blacklist.
- `Wrappers` (`wrappers.dfy`) holds `Option`.

## Model

| member | source | states |
|---|---|---|
| PosixPaths.Split | copy/index.py:47 | splitting a path string on "/" yields at least one piece and no piece holds a separator |
| PosixPaths.Parse | copy/index.py:38 | a parsed path is well formed (root "", "/" or "//", parts non-empty, not ".", no "/"), and its root is empty exactly when the string does not start with "/" |
| PosixPaths.Div | copy/index.py:47 | `p / key`: an absolute key replaces the path; a relative key keeps the root and appends exactly the key's parsed parts |
| PosixPaths.Parent | copy/index.py:59 | `parent` drops the last part and keeps the root; a path without parts is its own parent |
| PosixPaths.Format | copy/index.py:40 | `as_posix()`, with "." for the empty relative path; its properties are `ParseFormat` (parsing the rendering gives the path back) and `FormatInjective` (distinct well-formed paths render differently) |
| PosixPaths.ParseFormat | copy/index.py:38-40 | parsing what `as_posix()` renders gives back the same path |
| PosixPaths.FormatInjective | copy/index.py:47 | two well-formed paths render the same exactly when they are equal |
| PosixPaths.DivRelative | copy/index.py:47 | joining the rendering of relative parts appends exactly those parts |
| PosixPaths.DivDot | copy/index.py:59-60 | `destination / "."` is `destination` |
| SyncPlan.RemotePath | copy/index.py:47 | `(destination / rel.as_posix()).as_posix()` for a walked path; `RemotePathParts`, `RemotePathInjective` and `RemotePathWithin` state that it appends the relative parts, is injective and stays at or below the destination |
| SyncPlan.RemotePathParts | copy/index.py:47 | a remote path is the destination with the walked path's parts appended |
| SyncPlan.RemotePathInjective | copy/index.py:47 | two walked paths map to the same remote path exactly when they are equal |
| SyncPlan.RemotePathWithin | copy/index.py:47 | every remote path lies at or below the destination |
| SyncPlan.RootFileParentIsDestination | copy/index.py:59-60 | a file directly under the source has the destination itself as remote parent |
| SyncPlan.RemoteParent | copy/index.py:57-60 | the remote parent computed from the local parent is the parent of the file's remote path |
| SyncPlan.Resolve | copy/index.py:57-60 | one walked entry's remote path and, for a file, the remote parent computed from the local parent; `RemoteParent` proves that parent is the parent of the file's remote path |
| SyncPlan.ResolveAll | copy/index.py:45-60 | every walked entry resolved, in walk order; `ResolveAllFacts` states its correct parents, injectivity and containment |
| SyncPlan.EnsureDirectory | copy/index.py:49-54 | after the step the path is in the memo, and a path already in the memo changes nothing |
| SyncPlan.Step | copy/index.py:45-75 | one iteration only extends the requests and the memo; a stopped loop stays stopped |
| SyncPlan.UploadedSnoc | copy/index.py:69-74 | an upload with overwrite replaces the content its path holds and nothing else |
| SyncPlan.EnsureDirectoryKeepsInvariant | copy/index.py:49-54 | creating a missing directory keeps the memo equal to the paths passed to `mkdirs`, with no duplicates |
| SyncPlan.StepTracksMkdirs | copy/index.py:45-75 | one iteration, whatever the walk's parents, keeps the memo equal to the set of paths passed to `mkdirs` |
| SyncPlan.StepKeepsInvariant | copy/index.py:45-75 | one iteration keeps the loop invariant: memo equals `mkdirs` paths, no duplicate `mkdirs`, every upload after its parent's `mkdirs` |
| SyncPlan.Run | copy/index.py:41-75 | the loop as a fold of `Step` from an empty memo; its properties are `RunInvariant`, `RunExtends`, `RunReadsAll`, `RunCreatesDirectories`, `RunUploadsExactlyFiles`, `RunUploadsContent` and `RunBounded` |
| SyncPlan.Plan | copy/index.py:41-75 | the loop over the walk; its properties are `PlanInvariant`, `PlanReadsAll`, `PlanCreatesDirectories`, `PlanUploadsExactlyFiles`, `PlanUploadsContent` and `PlanWithin` |
| SyncPlan.RunInvariant | copy/index.py:41-75 | the loop invariant holds after any prefix of the walk |
| SyncPlan.RunExtends | copy/index.py:45 | later prefixes of the run only extend the requests and the memo; after an unreadable file nothing more happens |
| SyncPlan.RunCreatesDirectories | copy/index.py:46-65 | when every file was read, the memo is exactly the set of directory paths and file parents |
| SyncPlan.UploadedAfterStep | copy/index.py:68-74 | a step that reads its file uploads that file's content to its path and changes no other upload |
| SyncPlan.RunUploadsExactlyFiles | copy/index.py:57-74 | when every file was read, exactly the files' remote paths were uploaded to |
| SyncPlan.RunUploadsContent | copy/index.py:68-74 | with distinct remote paths, every file's remote path holds that file's content |
| SyncPlan.RunBounded | copy/index.py:45-75 | whatever happens, only needed directories are created and only file paths are uploaded to |
| SyncPlan.UploadedKeysGrow | copy/index.py:69-74 | a longer request sequence has uploaded to at least the same paths |
| SyncPlan.PlanWithin | copy/index.py:45-75 | every directory created and every path uploaded lies at or below the destination |
| SyncPlan.ResolveAllFacts | copy/index.py:47-60 | resolved parents are the real parents; distinct walked paths give distinct remote paths; all lie at or below the destination |
| SyncPlan.RunReadsAll | copy/index.py:68-71 | the loop stops on an unreadable file exactly when some resolved file has no content |
| SyncPlan.PlanInvariant | copy/index.py:41-75 | over any walk: memo equals `mkdirs` paths, no path is created twice, each upload follows its parent's creation |
| SyncPlan.PlanReadsAll | copy/index.py:68-71 | the loop stops on an unreadable file exactly when some walked file cannot be read |
| SyncPlan.PlanCreatesDirectories | copy/index.py:46-65 | a full run creates exactly the remote paths of the walked directories and of the files' parents |
| SyncPlan.PlanUploadsExactlyFiles | copy/index.py:57-74 | a full run uploads to exactly the remote paths of the walked files |
| SyncPlan.PlanUploadsContent | copy/index.py:68-74 | a full run over distinct paths leaves each file's content at its remote path |
| Workspace.RemoveWithin | copy/index.py:14 | a recursive delete leaves exactly the objects outside the deleted path, unchanged |
| Workspace.RemoveWithinSet | copy/index.py:14 | a recursive delete leaves exactly the folders outside the deleted path |
| Workspace.Client.Delete | copy/index.py:14-15 | `ResourceDoesNotExist` is returned only when nothing exists at or below the path; a delete can fail otherwise whatever the store holds; a success removes everything at or below the path; any other reply changes nothing |
| Workspace.Client.Mkdirs | copy/index.py:53 | a successful `mkdirs` adds the folder; objects never change |
| Workspace.Client.Upload | copy/index.py:69-74 | a successful upload with overwrite sets the content at that path and leaves every other path as it was; without overwrite an existing path is refused |
| Copy.CleanupContainmentDirectory | copy/index.py:11-16 | one recursive delete is issued; the reset succeeds exactly when the reply is not a failure other than `ResourceDoesNotExist`, so that reply counts as success through the caught exception; success leaves nothing at or below the destination; a failure is reported and changes nothing |
| Copy.ReflectsMkdirs | copy/index.py:53-54 | a successful `mkdirs` of a path missing from the memo matches the reference step |
| Copy.ReflectsUpload | copy/index.py:69-74 | a successful upload matches the reference step |
| Copy.MakeDirectory | copy/index.py:49-54 | `mkdirs` unless the memo has the path, then remember it: a success matches `EnsureDirectory`; a failure has issued exactly that request last and changed nothing |
| Copy.UploadFile | copy/index.py:67-74 | an unreadable file fails before any request; otherwise one upload with overwrite is issued, a success matches the step's upload and a failure changes nothing |
| Copy.SyncDirectory | copy/index.py:46-55 | a directory iteration matches `Step`: it is skipped when the memo has its path, otherwise created and remembered; a failed `mkdirs` aborts with that request last |
| Copy.SyncFile | copy/index.py:57-75 | a file iteration matches `Step`: the missing parent is created first, then the file is read and uploaded with overwrite; a failed read or request aborts |
| Copy.SyncEntry | copy/index.py:45-75 | one iteration of the loop matches `Step` |
| Copy.AbortedRun | copy/index.py:45-75 | a failure part-way leaves a prefix of the planned requests, and only planned paths and folders changed |
| Copy.AbortedLast | copy/index.py:53-74 | the failing request is the last one issued; an unreadable file leaves all the run's requests issued |
| Copy.AbortedState | copy/index.py:45-75 | after a failed iteration the store holds the effects of every request issued before the failing one (no rollback); an unreadable file leaves the effects of the whole run |
| Copy.AbortedOutcome | copy/index.py:45-75 | a failed iteration gives the outcome of the whole loop |
| Copy.CompletedRun | copy/index.py:45-77 | a completed loop changed only planned paths and folders |
| Copy.Synchronize | copy/index.py:41-77 | the requests are a prefix of the plan; only planned paths and folders change; an abort ends with the failing request and leaves the store with the effects of every request issued before it, uploads and folders alike, as nothing is rolled back; a completed loop issued every planned request and holds the plan's uploads and folders |
| Copy.ResetThenLoop | copy/index.py:40-77 | a successful reset followed by the loop gives the outcome of the whole action |
| Copy.Copy | copy/index.py:27-77 | a missing or non-directory source aborts before any remote request; otherwise the first request is the reset; a failed reset stops the run with nothing changed; nothing outside the destination changes; an abort after the reset leaves at or below the destination only planned uploads and folders, and the store holds the reset destination plus the effects of every request issued between the reset and the failing one; a completed run leaves the reset destination plus exactly the plan's uploads and folders |
| Copy.NoStaleLeftovers | copy/index.py:40-75 | once the reset succeeded, every object and folder at or below the destination was put there by the loop, whether or not the loop completed |
| Copy.EmptyWalkOnlyResets | copy/index.py:40-45 | with nothing walked, only the reset's delete is issued, and only a failed reset can stop the run |
| Copy.CopyTraceInvariant | copy/index.py:41-75 | whatever fails, the requests issued after the reset never pass a path to `mkdirs` twice and never upload a file before a `mkdirs` of its parent |
| SyncPlan.PrefixKeepsOrder | copy/index.py:45-75 | any prefix of the requests keeps both order properties: no duplicate `mkdirs`, and each upload after its parent's `mkdirs` |
| Copy.CompletedCopyMirrorsSource | copy/index.py:40-75 | after a completed run, a path at or below the destination holds an object exactly when it is a walked file's remote path, and then holds that file's content |
| Validate.Stage.Value | deploy/validate.py:11-15 | each stage's command-line value is non-empty; `StageRoundTrip` proves distinct stages have distinct values |
| Validate.StageChoices | deploy/validate.py:20-22 | the `--stage` choices are the values of the four stages |
| Validate.ParseStage | deploy/validate.py:20-22 | a string names a stage exactly when it is one of the choices, and names the stage with that value |
| Validate.StageRoundTrip | deploy/validate.py:11-15 | each stage is recovered from its value |
| Validate.ForbiddenKinds | deploy/validate.py:37 | the forbidden kinds are the blacklisted kinds among `resources`' keys, or empty when `resources` is missing; there are none when `resources` is not a mapping |
| Validate.Validate | deploy/validate.py:31-38 | `KeyError` exactly for deploy with the variable unset; `PermissionError` exactly for deploy with it set to something other than "true"; past the branch check, `AttributeError` for a non-mapping `resources`, `ValueError` for a blacklist hit, and success otherwise |
| Validate.NonDeployIgnoresEnvironment | deploy/validate.py:34 | a stage other than deploy gives the same verdict whatever the environment holds |
| Validate.BranchCheckFirst | deploy/validate.py:34-37 | a refused branch is reported whatever the configuration declares |
| Validate.BlacklistedKinds | deploy/validate.py:8 | past the branch check, a single declared kind is refused exactly when it is "clusters" or "schemas", the two blacklisted kinds |
| Validate.MissingResourcesDeclareNothing | deploy/validate.py:37 | a configuration without `resources` declares no forbidden kind |

## Left out

- Authentication and HTTP transport of `WorkspaceClient` are left out. Each remote request's success is a free choice of the in-memory store.
- `Path.resolve`, `exists` and `is_dir` on the source become the booleans `sourceExists` and `sourceIsDir`.
- `rglob("*")` becomes the walk given to `Copy`. Each item carries its relative parts and, for files, the bytes a read yields (`None` when opening or reading fails). Filesystem order, symbolic links and concurrent changes to the tree are not modelled.
- `is_dir()` on an item is its `Directory` tag. Anything that is not a directory is treated as a file, as it is in the code.
- Logging, argument parsing and process exit codes are left out. A raised exception becomes an `Aborted` outcome naming the failure.
- `format=ImportFormat.AUTO` is not modelled: the store keeps the bytes as given, at exactly the path given. Any conversion or renaming the service may apply on an AUTO import (for example turning a source file into a notebook without its extension) is not modelled, and `Copy.CompletedCopyMirrorsSource` relies on this.
- Workspace.Client.Mkdirs: the store adds only the named folder. The real `mkdirs` also creates missing intermediate folders. The folder equalities in `Copy.LoopOutcome` and `Copy.CopyOutcome` (`folders == … + plan.memo`) therefore hold for this store only; with the real `mkdirs` the folders would also include those ancestors.
- `PurePosixPath` follows Python 3.12 for the inputs used here. Windows flavours and bytes paths are out of scope.
- Reading `databricks.yml` (`get_dab_config`, YAML loading) and `main` of the deploy gate are left out. `validate` receives the document as a map from top-level keys to a `Node`.
- Validate.ForbiddenKinds: YAML mapping keys that are not strings are not represented. Such keys can never match the string blacklist.
- The environment of the deploy gate is the parameter `refProtected`. Only `GITHUB_REF_PROTECTED` is read.
- The copy action's parent repair goes one level only, as the code does. Creating every missing ancestor is not modelled.
