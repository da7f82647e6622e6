/**
 * The copy action: after checking the source directory, reset the destination in the remote
 * workspace, then walk the source tree and mirror it; each remote directory is created at most
 * once thanks to the run-scoped `directories` memo, and each file is uploaded with overwrite set
 * after its parent directory.
 */
module Copy {
  import opened Wrappers
  import opened PosixPaths
  import opened Workspace
  import opened SyncPlan

  /** Why a run stops early. */
  datatype Failure =
    | SourceMissing               // "Source path ... does not exist"
    | SourceNotDirectory          // "Source path ... is not a directory"
    | CleanupFailed               // the reset's delete failed other than with ResourceDoesNotExist
    | MkdirsFailed(path: string)
    | ReadFailed(path: string)    // the local file could not be opened or read
    | UploadFailed(path: string)

  datatype Outcome = Completed | Aborted(failure: Failure)

  /** Only the objects at `paths` differ between the two stores. */
  ghost predicate ChangedOnlyAt(before: map<string, Bytes>, after: map<string, Bytes>, paths: set<string>) {
    forall k :: k !in paths ==> (k in before <==> k in after) && (k in before ==> before[k] == after[k])
  }

  /** Only the folders in `paths` differ between the two stores. */
  ghost predicate FoldersChangedOnlyAt(before: set<string>, after: set<string>, paths: set<string>) {
    forall k :: k !in paths ==> (k in before <==> k in after)
  }

  /** Nothing at a path outside `root` differs between the two stores. */
  ghost predicate UnchangedOutside(before: map<string, Bytes>, after: map<string, Bytes>, root: string) {
    forall k :: !IsWithin(k, root) ==> (k in before <==> k in after) && (k in before ==> before[k] == after[k])
  }

  ghost predicate FoldersUnchangedOutside(before: set<string>, after: set<string>, root: string) {
    forall k :: !IsWithin(k, root) ==> (k in before <==> k in after)
  }

  /** `cleanup_containment_directory`: a recursive delete of the destination, where the
      `ResourceDoesNotExist` reply is caught and counts as success, and any other failure is
      reported. `reply` is the store's answer, which the source only observes through the
      `except` clause. */
  method CleanupContainmentDirectory(client: Client, directory: string) returns (ok: bool, ghost reply: DeleteReply)
    modifies client
    ensures client.trace == old(client.trace) + [DeleteOp(directory)]
    ensures ok <==> reply != DeleteFailed
    ensures reply == ResourceDoesNotExist ==> !old(client.Occupied(directory))
    ensures ok ==> !client.Occupied(directory)
    ensures ok ==> client.objects == RemoveWithin(old(client.objects), directory) &&
                   client.folders == RemoveWithinSet(old(client.folders), directory)
    ensures !ok ==> client.objects == old(client.objects) && client.folders == old(client.folders)
  {
    var answer := client.Delete(directory);
    reply := answer;
    ok := answer != DeleteFailed;
    if answer == ResourceDoesNotExist {
      assert client.objects == RemoveWithin(client.objects, directory);
      assert client.folders == RemoveWithinSet(client.folders, directory);
    }
  }

  /** The client's trace, objects and folders are those of the start plus what `p` requested. */
  ghost predicate Reflects(trace: seq<Op>, objects: map<string, Bytes>, folders: set<string>,
                           t0: seq<Op>, base: map<string, Bytes>, baseFolders: set<string>, p: Progress) {
    trace == t0 + p.ops && objects == base + Uploaded(p.ops) && folders == baseFolders + p.memo
  }

  /** A successful `mkdirs` of a path the memo lacks matches one `EnsureDirectory`. */
  lemma ReflectsMkdirs(trace: seq<Op>, objects: map<string, Bytes>, folders: set<string>,
                       t0: seq<Op>, base: map<string, Bytes>, baseFolders: set<string>, p: Progress, x: string)
    requires Reflects(trace, objects, folders, t0, base, baseFolders, p) && x !in p.memo
    ensures Reflects(trace + [MkdirsOp(x)], objects, folders + {x}, t0, base, baseFolders, EnsureDirectory(p, x))
  {
  }

  /** A successful upload with overwrite matches the upload request of a step. */
  lemma ReflectsUpload(trace: seq<Op>, objects: map<string, Bytes>, folders: set<string>,
                       t0: seq<Op>, base: map<string, Bytes>, baseFolders: set<string>, p: Progress, file: string, content: Bytes)
    requires Reflects(trace, objects, folders, t0, base, baseFolders, p)
    ensures Reflects(trace + [UploadOp(file, content, true)], objects[file := content], folders, t0, base, baseFolders,
                     Progress(p.ops + [UploadOp(file, content, true)], p.memo, None))
  {
  }

  /** What one iteration of the loop leaves behind, against the step `q` it models: on success
      (`failure` is `None`) the client reflects `q` and `memo` is its memo; on failure the client
      has received `requested`, a prefix of `q`'s requests ending in the one that failed (or all of
      them when the file was unreadable), and holds the effects of `done`, the part of `q`
      issued before the failing request (all of `q` when the file was unreadable). */
  ghost predicate StepOutcome(trace: seq<Op>, objects: map<string, Bytes>, folders: set<string>,
                              t0: seq<Op>, base: map<string, Bytes>, baseFolders: set<string>, q: Progress,
                              memo: set<string>, failure: Option<Failure>, requested: seq<Op>, done: Progress) {
    && (failure.None? ==> q.unreadable.None? && memo == q.memo && Reflects(trace, objects, folders, t0, base, baseFolders, q))
    && (failure.Some? ==>
          && trace == t0 + requested && requested <= q.ops
          && objects == base + Uploaded(done.ops) && folders == baseFolders + done.memo
          && done.ops <= q.ops && done.memo <= q.memo && MemoTracksMkdirs(done)
          && (failure.value.MkdirsFailed? || failure.value.ReadFailed? || failure.value.UploadFailed?)
          && (failure.value.ReadFailed? ==>
                q.unreadable == Some(failure.value.path) && requested == q.ops && done.ops == q.ops && done.memo == q.memo)
          && (failure.value.MkdirsFailed? ==>
                |requested| > 0 && requested[|requested| - 1] == MkdirsOp(failure.value.path) &&
                requested == done.ops + [requested[|requested| - 1]])
          && (failure.value.UploadFailed? ==>
                |requested| > 0 && requested[|requested| - 1].UploadOp? && requested[|requested| - 1].path == failure.value.path &&
                requested == done.ops + [requested[|requested| - 1]]))
  }

  /** A failed iteration `i` leaves the client part-way through the whole run: its requests are
      a prefix of the run's, and only what the run plans has changed. */
  lemma AbortedRun(trace: seq<Op>, objects: map<string, Bytes>, folders: set<string>,
                   t0: seq<Op>, base: map<string, Bytes>, baseFolders: set<string>,
                   items: seq<Resolved>, i: nat, requested: seq<Op>, done: Progress)
    requires i < |items| && trace == t0 + requested && requested <= Run(items[..i + 1]).ops
    requires objects == base + Uploaded(done.ops) && folders == baseFolders + done.memo
    requires done.ops <= Run(items[..i + 1]).ops && done.memo <= Run(items[..i + 1]).memo
    ensures t0 <= trace && trace[|t0|..] <= Run(items).ops
    ensures ChangedOnlyAt(base, objects, Uploaded(Run(items).ops).Keys)
    ensures FoldersChangedOnlyAt(baseFolders, folders, Run(items).memo)
  {
    RunExtends(items, i + 1, |items|);
    assert items[..|items|] == items;
    UploadedKeysGrow(done.ops, Run(items).ops);
    assert trace[|t0|..] == requested;
  }

  /** The request that made iteration `i` fail is the last one the client received; an
      unreadable file ends the whole run with all of the run's requests issued. */
  lemma AbortedLast(trace: seq<Op>, t0: seq<Op>, items: seq<Resolved>, i: nat, failure: Failure, requested: seq<Op>)
    requires i < |items| && trace == t0 + requested
    requires failure.MkdirsFailed? ==> |requested| > 0 && requested[|requested| - 1] == MkdirsOp(failure.path)
    requires failure.UploadFailed? ==>
               |requested| > 0 && requested[|requested| - 1].UploadOp? && requested[|requested| - 1].path == failure.path
    requires failure.ReadFailed? ==> Run(items[..i + 1]).unreadable == Some(failure.path) && requested == Run(items[..i + 1]).ops
    ensures failure.MkdirsFailed? ==> |trace| > |t0| && trace[|trace| - 1] == MkdirsOp(failure.path)
    ensures failure.UploadFailed? ==> |trace| > |t0| && trace[|trace| - 1].UploadOp? && trace[|trace| - 1].path == failure.path
    ensures failure.ReadFailed? ==> trace == t0 + Run(items).ops && Run(items).unreadable == Some(failure.path)
  {
    if failure.ReadFailed? {
      RunExtends(items, i + 1, |items|);
      assert items[..|items|] == items;
    } else if |requested| > 0 {
      assert trace[|trace| - 1] == requested[|requested| - 1];
    }
  }

  /** A completed loop changed only what the run plans. */
  lemma CompletedRun(trace: seq<Op>, objects: map<string, Bytes>, folders: set<string>,
                     t0: seq<Op>, base: map<string, Bytes>, baseFolders: set<string>, p: Progress)
    requires Reflects(trace, objects, folders, t0, base, baseFolders, p) && p.unreadable.None?
    ensures LoopOutcome(t0, base, baseFolders, trace, objects, folders, p, Completed)
  {
  }

  /** What the loop leaves behind, against the run `run` it models: the requests issued are a
      prefix of the run's, only what the run plans has changed, an aborted loop's last request is
      the one that failed and every request before it took effect (the loop undoes nothing), and
      a completed loop issued all of the run's requests with their effects. */
  ghost predicate LoopOutcome(t0: seq<Op>, base: map<string, Bytes>, baseFolders: set<string>,
                              trace: seq<Op>, objects: map<string, Bytes>, folders: set<string>,
                              run: Progress, outcome: Outcome) {
    && (outcome.Completed? || outcome.failure.MkdirsFailed? || outcome.failure.ReadFailed? || outcome.failure.UploadFailed?)
    && t0 <= trace && trace[|t0|..] <= run.ops
    && ChangedOnlyAt(base, objects, Uploaded(run.ops).Keys)
    && FoldersChangedOnlyAt(baseFolders, folders, run.memo)
    && (outcome.Aborted? && outcome.failure.MkdirsFailed? ==>
          |trace| > |t0| && trace[|trace| - 1] == MkdirsOp(outcome.failure.path))
    && (outcome.Aborted? && outcome.failure.UploadFailed? ==>
          |trace| > |t0| && trace[|trace| - 1].UploadOp? && trace[|trace| - 1].path == outcome.failure.path)
    && (outcome.Aborted? && outcome.failure.ReadFailed? ==>
          trace == t0 + run.ops && run.unreadable == Some(outcome.failure.path) &&
          objects == base + Uploaded(run.ops) && folders == baseFolders + run.memo)
    && (outcome.Aborted? && (outcome.failure.MkdirsFailed? || outcome.failure.UploadFailed?) ==>
          |trace| > |t0| &&
          objects == base + Uploaded(trace[|t0|..|trace| - 1]) &&
          folders == baseFolders + Created(trace[|t0|..|trace| - 1]))
    && (outcome == Completed ==>
          trace == t0 + run.ops && run.unreadable.None? &&
          objects == base + Uploaded(run.ops) && folders == baseFolders + run.memo)
  }

  /** After a failed iteration `i` the store holds the effects of every request issued before
      the failing one; an unreadable file leaves the effects of the whole run. */
  lemma AbortedState(trace: seq<Op>, objects: map<string, Bytes>, folders: set<string>,
                     t0: seq<Op>, base: map<string, Bytes>, baseFolders: set<string>,
                     items: seq<Resolved>, i: nat, failure: Failure, requested: seq<Op>, done: Progress)
    requires i < |items| && trace == t0 + requested && MemoTracksMkdirs(done)
    requires objects == base + Uploaded(done.ops) && folders == baseFolders + done.memo
    requires failure.ReadFailed? ==>
               Run(items[..i + 1]).unreadable.Some? && done.ops == Run(items[..i + 1]).ops && done.memo == Run(items[..i + 1]).memo
    requires failure.MkdirsFailed? || failure.UploadFailed? ==>
               |requested| > 0 && requested == done.ops + [requested[|requested| - 1]]
    ensures failure.ReadFailed? ==> objects == base + Uploaded(Run(items).ops) && folders == baseFolders + Run(items).memo
    ensures failure.MkdirsFailed? || failure.UploadFailed? ==>
              |trace| > |t0| &&
              objects == base + Uploaded(trace[|t0|..|trace| - 1]) &&
              folders == baseFolders + Created(trace[|t0|..|trace| - 1])
  {
    if failure.ReadFailed? {
      RunExtends(items, i + 1, |items|);
      assert items[..|items|] == items;
    } else if failure.MkdirsFailed? || failure.UploadFailed? {
      assert trace[|t0|..|trace| - 1] == done.ops;
      assert done.memo == Created(done.ops);
    }
  }

  /** A failed iteration `i` gives the outcome of the whole loop. */
  lemma AbortedOutcome(trace: seq<Op>, objects: map<string, Bytes>, folders: set<string>,
                       t0: seq<Op>, base: map<string, Bytes>, baseFolders: set<string>,
                       items: seq<Resolved>, i: nat, memo: set<string>, failure: Failure, requested: seq<Op>, done: Progress)
    requires i < |items|
    requires StepOutcome(trace, objects, folders, t0, base, baseFolders, Run(items[..i + 1]), memo, Some(failure), requested, done)
    ensures LoopOutcome(t0, base, baseFolders, trace, objects, folders, Run(items), Aborted(failure))
  {
    AbortedRun(trace, objects, folders, t0, base, baseFolders, items, i, requested, done);
    AbortedLast(trace, t0, items, i, failure, requested);
    AbortedState(trace, objects, folders, t0, base, baseFolders, items, i, failure, requested, done);
  }

  /** `mkdirs` for a remote directory unless the `directories` memo has it, remembering it; a
      failed `mkdirs` raises, with that request the last one issued and nothing changed. */
  method MakeDirectory(path: string, directories: set<string>, client: Client,
                       ghost t0: seq<Op>, ghost base: map<string, Bytes>, ghost baseFolders: set<string>, ghost p: Progress)
    returns (memo: set<string>, failure: Option<Failure>)
    requires directories == p.memo
    requires Reflects(client.trace, client.objects, client.folders, t0, base, baseFolders, p)
    modifies client
    ensures failure.None? ==>
              memo == EnsureDirectory(p, path).memo &&
              Reflects(client.trace, client.objects, client.folders, t0, base, baseFolders, EnsureDirectory(p, path))
    ensures failure.Some? ==>
              failure == Some(MkdirsFailed(path)) && path !in p.memo &&
              client.trace == t0 + EnsureDirectory(p, path).ops &&
              client.objects == base + Uploaded(p.ops) && client.folders == baseFolders + p.memo
  {
    memo, failure := directories, None;
    if path in memo {
      return;
    }
    ghost var trace0, folders0 := client.trace, client.folders;
    var ok := client.Mkdirs(path);
    if !ok {
      failure := Some(MkdirsFailed(path));
      return;
    }
    ReflectsMkdirs(trace0, client.objects, folders0, t0, base, baseFolders, p, path);
    memo := memo + {path};
  }

  /** A directory entry of the loop: created unless the memo has its remote path. */
  method SyncDirectory(dest: PosixPath, rel: seq<string>, directories: set<string>, client: Client,
                       ghost t0: seq<Op>, ghost base: map<string, Bytes>, ghost baseFolders: set<string>, ghost p: Progress)
    returns (memo: set<string>, failure: Option<Failure>, ghost requested: seq<Op>, ghost done: Progress)
    requires |rel| > 0
    requires p.unreadable.None? && directories == p.memo && MemoTracksMkdirs(p)
    requires Reflects(client.trace, client.objects, client.folders, t0, base, baseFolders, p)
    modifies client
    ensures StepOutcome(client.trace, client.objects, client.folders, t0, base, baseFolders,
                        Step(p, Resolve(dest, Directory(rel))), memo, failure, requested, done)
  {
    var subdirectory := RemotePath(dest, rel);
    memo, failure := MakeDirectory(subdirectory, directories, client, t0, base, baseFolders, p);
    requested, done := EnsureDirectory(p, subdirectory).ops, p;
  }

  /** Reading a file (`None` when it cannot be opened or read) and uploading its content with
      overwrite set, after the requests of `p`. */
  method UploadFile(file: string, data: Option<Bytes>, client: Client,
                    ghost t0: seq<Op>, ghost base: map<string, Bytes>, ghost baseFolders: set<string>, ghost p: Progress)
    returns (failure: Option<Failure>, ghost requested: seq<Op>)
    requires Reflects(client.trace, client.objects, client.folders, t0, base, baseFolders, p)
    modifies client
    ensures data.None? ==>
              failure == Some(ReadFailed(file)) && requested == p.ops &&
              Reflects(client.trace, client.objects, client.folders, t0, base, baseFolders, p)
    ensures data.Some? ==>
              requested == p.ops + [UploadOp(file, data.value, true)] &&
              (failure.None? || failure == Some(UploadFailed(file))) &&
              (failure.None? ==>
                 Reflects(client.trace, client.objects, client.folders, t0, base, baseFolders, Progress(requested, p.memo, None))) &&
              (failure.Some? ==>
                 client.trace == t0 + requested && client.objects == base + Uploaded(p.ops) && client.folders == baseFolders + p.memo)
  {
    requested := p.ops;
    if data.None? {
      return Some(ReadFailed(file)), requested;
    }
    ghost var trace1, objects1 := client.trace, client.objects;
    var ok := client.Upload(file, data.value, true);
    requested := p.ops + [UploadOp(file, data.value, true)];
    if !ok {
      return Some(UploadFailed(file)), requested;
    }
    ReflectsUpload(trace1, objects1, client.folders, t0, base, baseFolders, p, file, data.value);
    failure := None;
  }

  /** A file entry of the loop: its remote parent is created when the memo lacks it (one level
      only), then the file is read and uploaded with overwrite set. */
  method SyncFile(dest: PosixPath, rel: seq<string>, data: Option<Bytes>, directories: set<string>, client: Client,
                  ghost t0: seq<Op>, ghost base: map<string, Bytes>, ghost baseFolders: set<string>, ghost p: Progress)
    returns (memo: set<string>, failure: Option<Failure>, ghost requested: seq<Op>, ghost done: Progress)
    requires |rel| > 0
    requires p.unreadable.None? && directories == p.memo && MemoTracksMkdirs(p)
    requires Reflects(client.trace, client.objects, client.folders, t0, base, baseFolders, p)
    modifies client
    ensures StepOutcome(client.trace, client.objects, client.folders, t0, base, baseFolders,
                        Step(p, Resolve(dest, File(rel, data))), memo, failure, requested, done)
  {
    var file := RemotePath(dest, rel);
    var remoteParent := RemotePath(dest, rel[..|rel| - 1]);
    ghost var repaired := EnsureDirectory(p, remoteParent);
    ghost var q := Step(p, Resolve(dest, File(rel, data)));
    assert q == if data.None? then Progress(repaired.ops, repaired.memo, Some(file))
                else Progress(repaired.ops + [UploadOp(file, data.value, true)], repaired.memo, None);
    memo, failure := MakeDirectory(remoteParent, directories, client, t0, base, baseFolders, p);
    requested, done := repaired.ops, p;
    if failure.Some? {
      return;
    }
    EnsureDirectoryTracksMkdirs(p, remoteParent);
    done := repaired;
    failure, requested := UploadFile(file, data, client, t0, base, baseFolders, repaired);
  }

  /** One iteration of the loop of `main` over `rglob("*")`. */
  method SyncEntry(dest: PosixPath, artifact: Entry, directories: set<string>, client: Client,
                   ghost t0: seq<Op>, ghost base: map<string, Bytes>, ghost baseFolders: set<string>, ghost p: Progress)
    returns (memo: set<string>, failure: Option<Failure>, ghost requested: seq<Op>, ghost done: Progress)
    requires |artifact.rel| > 0
    requires p.unreadable.None? && directories == p.memo && MemoTracksMkdirs(p)
    requires Reflects(client.trace, client.objects, client.folders, t0, base, baseFolders, p)
    modifies client
    ensures StepOutcome(client.trace, client.objects, client.folders, t0, base, baseFolders,
                        Step(p, Resolve(dest, artifact)), memo, failure, requested, done)
  {
    if artifact.Directory? {
      memo, failure, requested, done := SyncDirectory(dest, artifact.rel, directories, client, t0, base, baseFolders, p);
    } else {
      memo, failure, requested, done := SyncFile(dest, artifact.rel, artifact.data, directories, client, t0, base, baseFolders, p);
    }
  }

  /** The synchronisation loop of `main`, from an empty `directories` memo. */
  method Synchronize(dest: PosixPath, walk: seq<Entry>, client: Client) returns (outcome: Outcome)
    requires WellFormed(dest) && IsWalk(walk)
    modifies client
    ensures LoopOutcome(old(client.trace), old(client.objects), old(client.folders),
                        client.trace, client.objects, client.folders, Plan(dest, walk), outcome)
  {
    var directories: set<string> := {};
    ghost var items := ResolveAll(dest, walk);
    ghost var t0, base, baseFolders := client.trace, client.objects, client.folders;
    assert Plan(dest, walk) == Run(items);
    assert items[..|walk|] == items;
    assert Run(items[..0]) == Progress([], {}, None);

    for i := 0 to |walk|
      invariant directories == Run(items[..i]).memo
      invariant Run(items[..i]).unreadable.None? && MemoTracksMkdirs(Run(items[..i]))
      invariant Reflects(client.trace, client.objects, client.folders, t0, base, baseFolders, Run(items[..i]))
    {
      ghost var q := Step(Run(items[..i]), items[i]);
      StepTracksMkdirs(Run(items[..i]), items[i]);
      assert Run(items[..i + 1]) == q by {
        assert items[..i + 1][..i] == items[..i];
      }
      var failure;
      ghost var requested, done;
      directories, failure, requested, done :=
        SyncEntry(dest, walk[i], directories, client, t0, base, baseFolders, Run(items[..i]));
      if failure.Some? {
        AbortedOutcome(client.trace, client.objects, client.folders, t0, base, baseFolders,
                       items, i, directories, failure.value, requested, done);
        return Aborted(failure.value);
      }
    }
    CompletedRun(client.trace, client.objects, client.folders, t0, base, baseFolders, Run(items));
    return Completed;
  }

  /** What a run that got past the source checks leaves behind, for the destination `root` and
      the loop's reference run `plan`: the reset's delete is the first request and the rest are a
      prefix of the plan's; nothing outside `root` has changed; a failed reset changed nothing; once
      the reset succeeded, the store differs from the reset store only at planned uploads and
      folders, whether or not the loop completed; an aborted loop's last request is the one that
      failed, and the store holds the reset destination plus the effects of every request issued
      between the reset and that one; and a completed run issued every planned request and leaves
      the reset destination plus the plan's uploads and folders. */
  ghost predicate CopyOutcome(t0: seq<Op>, base: map<string, Bytes>, baseFolders: set<string>,
                              trace: seq<Op>, objects: map<string, Bytes>, folders: set<string>,
                              root: string, plan: Progress, outcome: Outcome) {
    && t0 <= trace && |trace| > |t0| && trace[|t0|..] <= [DeleteOp(root)] + plan.ops
    && UnchangedOutside(base, objects, root) && FoldersUnchangedOutside(baseFolders, folders, root)
    && (outcome.Completed? || outcome.failure.CleanupFailed? || outcome.failure.MkdirsFailed? ||
        outcome.failure.ReadFailed? || outcome.failure.UploadFailed?)
    && (outcome == Aborted(CleanupFailed) ==>
          trace == t0 + [DeleteOp(root)] && objects == base && folders == baseFolders)
    && (outcome != Aborted(CleanupFailed) ==>
          ChangedOnlyAt(RemoveWithin(base, root), objects, Uploaded(plan.ops).Keys) &&
          FoldersChangedOnlyAt(RemoveWithinSet(baseFolders, root), folders, plan.memo))
    && (outcome.Aborted? && outcome.failure.MkdirsFailed? ==>
          trace[|trace| - 1] == MkdirsOp(outcome.failure.path))
    && (outcome.Aborted? && outcome.failure.UploadFailed? ==>
          trace[|trace| - 1].UploadOp? && trace[|trace| - 1].path == outcome.failure.path)
    && (outcome.Aborted? && outcome.failure.ReadFailed? ==>
          trace == t0 + [DeleteOp(root)] + plan.ops && plan.unreadable == Some(outcome.failure.path) &&
          objects == RemoveWithin(base, root) + Uploaded(plan.ops) &&
          folders == RemoveWithinSet(baseFolders, root) + plan.memo)
    && (outcome.Aborted? && (outcome.failure.MkdirsFailed? || outcome.failure.UploadFailed?) ==>
          |trace| > |t0| + 1 &&
          objects == RemoveWithin(base, root) + Uploaded(trace[|t0| + 1..|trace| - 1]) &&
          folders == RemoveWithinSet(baseFolders, root) + Created(trace[|t0| + 1..|trace| - 1]))
    && (outcome == Completed ==>
          trace == t0 + [DeleteOp(root)] + plan.ops && plan.unreadable.None? &&
          objects == RemoveWithin(base, root) + Uploaded(plan.ops) &&
          folders == RemoveWithinSet(baseFolders, root) + plan.memo)
  }

  /** A successful reset followed by a loop that changed only what a run at or below `root` plans
      gives the outcome of the whole action. */
  lemma ResetThenLoop(t0: seq<Op>, base: map<string, Bytes>, baseFolders: set<string>,
                      trace: seq<Op>, objects: map<string, Bytes>, folders: set<string>,
                      root: string, plan: Progress, outcome: Outcome)
    requires LoopOutcome(t0 + [DeleteOp(root)], RemoveWithin(base, root), RemoveWithinSet(baseFolders, root),
                         trace, objects, folders, plan, outcome)
    requires forall x :: x in plan.memo ==> IsWithin(x, root)
    requires forall k :: k in Uploaded(plan.ops) ==> IsWithin(k, root)
    ensures CopyOutcome(t0, base, baseFolders, trace, objects, folders, root, plan, outcome)
  {
  }

  /** `main` after argument parsing: check the source directory, reset the destination, then run
      the loop. `sourceExists` and `sourceIsDir` are what `Path.exists` and `Path.is_dir` report for
      the resolved source directory, and `walk` is what `rglob("*")` yields under it. */
  method Copy(sourceExists: bool, sourceIsDir: bool, destination: string, walk: seq<Entry>, client: Client)
    returns (outcome: Outcome)
    requires IsWalk(walk)
    modifies client
    ensures !sourceExists ==> outcome == Aborted(SourceMissing)
    ensures sourceExists && !sourceIsDir ==> outcome == Aborted(SourceNotDirectory)
    ensures !sourceExists || !sourceIsDir ==>
              client.trace == old(client.trace) && client.objects == old(client.objects) && client.folders == old(client.folders)
    ensures sourceExists && sourceIsDir ==>
              CopyOutcome(old(client.trace), old(client.objects), old(client.folders),
                          client.trace, client.objects, client.folders,
                          Format(Parse(destination)), Plan(Parse(destination), walk), outcome)
  {
    if !sourceExists {
      return Aborted(SourceMissing);
    }
    if !sourceIsDir {
      return Aborted(SourceNotDirectory);
    }
    var dest := Parse(destination);
    var root := Format(dest);
    ghost var t0, base, baseFolders := client.trace, client.objects, client.folders;
    var ok;
    ghost var reply;
    ok, reply := CleanupContainmentDirectory(client, root);
    if !ok {
      outcome := Aborted(CleanupFailed);
      assert CopyOutcome(t0, base, baseFolders, client.trace, client.objects, client.folders, root, Plan(dest, walk), outcome) by {
        assert client.trace[|t0|..] == [DeleteOp(root)];
      }
      return;
    }
    outcome := Synchronize(dest, walk, client);
    PlanWithin(dest, walk);
    ResetThenLoop(t0, base, baseFolders, client.trace, client.objects, client.folders, root, Plan(dest, walk), outcome);
  }

  /** With an empty walk the action issues only the reset's delete, and only a failed reset can
      stop it. */
  lemma EmptyWalkOnlyResets(t0: seq<Op>, base: map<string, Bytes>, baseFolders: set<string>,
                            trace: seq<Op>, objects: map<string, Bytes>, folders: set<string>,
                            destination: string, outcome: Outcome)
    requires CopyOutcome(t0, base, baseFolders, trace, objects, folders,
                         Format(Parse(destination)), Plan(Parse(destination), []), outcome)
    ensures outcome == Completed || outcome == Aborted(CleanupFailed)
    ensures trace == t0 + [DeleteOp(Format(Parse(destination)))]
    ensures outcome == Completed ==>
              objects == RemoveWithin(base, Format(Parse(destination))) &&
              folders == RemoveWithinSet(baseFolders, Format(Parse(destination)))
  {
  }

  /** Once the reset succeeded, no stale object or folder survives at or below the destination, even
      when the loop aborts: whatever is there was put there by the loop. */
  lemma NoStaleLeftovers(t0: seq<Op>, base: map<string, Bytes>, baseFolders: set<string>,
                         trace: seq<Op>, objects: map<string, Bytes>, folders: set<string>,
                         root: string, plan: Progress, outcome: Outcome)
    requires CopyOutcome(t0, base, baseFolders, trace, objects, folders, root, plan, outcome)
    requires outcome != Aborted(CleanupFailed)
    ensures forall k :: IsWithin(k, root) && k in objects ==> k in Uploaded(plan.ops)
    ensures forall k :: IsWithin(k, root) && k in folders ==> k in plan.memo
  {
  }

  /** After a completed action over a walk with distinct paths, the destination mirrors the walk:
      a path at or below it holds an object exactly when it is the remote path of a walked file, and
      then holds that file's content. */
  lemma CompletedCopyMirrorsSource(t0: seq<Op>, base: map<string, Bytes>, baseFolders: set<string>,
                                   trace: seq<Op>, objects: map<string, Bytes>, folders: set<string>,
                                   destination: string, walk: seq<Entry>)
    requires IsWalk(walk) && DistinctPaths(walk)
    requires CopyOutcome(t0, base, baseFolders, trace, objects, folders,
                         Format(Parse(destination)), Plan(Parse(destination), walk), Completed)
    ensures forall k :: IsWithin(k, Format(Parse(destination))) ==>
              (k in objects <==> exists i :: 0 <= i < |walk| && walk[i].File? && k == RemotePath(Parse(destination), walk[i].rel))
    ensures forall i :: 0 <= i < |walk| && walk[i].File? ==>
              RemotePath(Parse(destination), walk[i].rel) in objects &&
              walk[i].data == Some(objects[RemotePath(Parse(destination), walk[i].rel)])
  {
    var dest := Parse(destination);
    PlanUploadsExactlyFiles(dest, walk);
    PlanUploadsContent(dest, walk);
  }

  /** The requests after the first of a prefix of `[first] + ops` are a prefix of `ops`. */
  lemma AfterFirst(issued: seq<Op>, first: Op, ops: seq<Op>)
    requires |issued| > 0 && issued <= [first] + ops
    ensures issued[1..] <= ops
  {
    assert forall k :: 0 <= k < |issued| - 1 ==> issued[1..][k] == issued[k + 1] == ([first] + ops)[k + 1] == ops[k];
  }

  /** Whatever fails, the requests the action issues after the reset never pass a path to
      `mkdirs` twice and never upload a file before a `mkdirs` of its parent. */
  lemma CopyTraceInvariant(t0: seq<Op>, base: map<string, Bytes>, baseFolders: set<string>,
                           trace: seq<Op>, objects: map<string, Bytes>, folders: set<string>,
                           destination: string, walk: seq<Entry>, outcome: Outcome)
    requires IsWalk(walk)
    requires CopyOutcome(t0, base, baseFolders, trace, objects, folders,
                         Format(Parse(destination)), Plan(Parse(destination), walk), outcome)
    ensures MkdirsOnce(trace[|t0| + 1..]) && ParentsFirst(trace[|t0| + 1..])
  {
    var plan := Plan(Parse(destination), walk);
    PlanInvariant(Parse(destination), walk);
    var issued := trace[|t0|..];
    AfterFirst(issued, DeleteOp(Format(Parse(destination))), plan.ops);
    assert trace[|t0| + 1..] == issued[1..];
    PrefixKeepsOrder(issued[1..], plan.ops);
  }
}
