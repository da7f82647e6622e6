/**
 * What the synchronisation loop of the copy action requests, as a pure function of the
 * destination and the walk, assuming every remote request succeeds: the reference the
 * imperative loop is proved against, and the lemmas that state its guarantees
 * (each remote directory created once, a file's parent created before its upload,
 * the destination ending up as a mirror of the walked files).
 */
module SyncPlan {
  import opened Wrappers
  import opened PosixPaths
  import opened Workspace

  /** One item of `directory.rglob("*")`, with its path relative to the source directory as parts.
      Anything that is not a directory is handled as a file; `data` is what reading it yields,
      `None` when opening or reading it fails. */
  datatype Entry = Directory(rel: seq<string>) | File(rel: seq<string>, data: Option<Bytes>)

  /** What the walk guarantees of every item: strictly below the source directory, with real file names as parts. */
  predicate WalkEntry(e: Entry) {
    |e.rel| > 0 && AllParts(e.rel)
  }

  predicate IsWalk(walk: seq<Entry>) {
    forall i :: 0 <= i < |walk| ==> WalkEntry(walk[i])
  }

  predicate NonEmptyPaths(walk: seq<Entry>) {
    forall i :: 0 <= i < |walk| ==> |walk[i].rel| > 0
  }

  /** A walk visits every path once. */
  predicate DistinctPaths(walk: seq<Entry>) {
    forall i, j :: 0 <= i < j < |walk| ==> walk[i].rel != walk[j].rel
  }

  /** `(destination / <rel as a relative POSIX string>).as_posix()`. */
  function RemotePath(destination: PosixPath, rel: seq<string>): string {
    Format(Div(destination, Format(PosixPath("", rel))))
  }

  /** `PurePosixPath(path).parent.as_posix()`. */
  function ParentPath(path: string): string {
    Format(Parent(Parse(path)))
  }

  // ---- the path mapping ----

  /** For a well-formed destination the remote path is the destination with the relative parts appended. */
  lemma RemotePathParts(destination: PosixPath, rel: seq<string>)
    requires WellFormed(destination) && AllParts(rel)
    ensures Parse(RemotePath(destination, rel)) == PosixPath(destination.root, destination.parts + rel)
    ensures RemotePath(destination, rel) == Format(PosixPath(destination.root, destination.parts + rel))
  {
    DivRelative(destination, rel);
    assert AllParts(destination.parts + rel) by {
      forall k | 0 <= k < |destination.parts + rel| ensures IsPart((destination.parts + rel)[k]) {
        if k < |destination.parts| { assert (destination.parts + rel)[k] == destination.parts[k]; }
        else { assert (destination.parts + rel)[k] == rel[k - |destination.parts|]; }
      }
    }
    ParseFormat(PosixPath(destination.root, destination.parts + rel));
  }

  /** The path mapping is injective: distinct relative paths give distinct remote paths. */
  lemma RemotePathInjective(destination: PosixPath, rel1: seq<string>, rel2: seq<string>)
    requires WellFormed(destination) && AllParts(rel1) && AllParts(rel2)
    ensures RemotePath(destination, rel1) == RemotePath(destination, rel2) <==> rel1 == rel2
  {
    RemotePathParts(destination, rel1);
    RemotePathParts(destination, rel2);
    if RemotePath(destination, rel1) == RemotePath(destination, rel2) {
      assert destination.parts + rel1 == destination.parts + rel2;
      assert rel1 == (destination.parts + rel1)[|destination.parts|..];
      assert rel2 == (destination.parts + rel2)[|destination.parts|..];
    }
  }

  /** Every remote path lies at or below the destination, so a reset of the destination reaches it. */
  lemma RemotePathWithin(destination: PosixPath, rel: seq<string>)
    requires WellFormed(destination) && AllParts(rel)
    ensures IsWithin(RemotePath(destination, rel), Format(destination))
  {
    RemotePathParts(destination, rel);
    ParseFormat(destination);
    assert destination.parts <= destination.parts + rel;
  }

  /** A file directly below the source directory has the relative parent ".", which the `/`
      operator collapses: its remote parent is the destination itself. */
  lemma RootFileParentIsDestination(destination: PosixPath)
    ensures RemotePath(destination, []) == Format(destination)
  {
    assert Format(PosixPath("", [])) == ".";
    DivDot(destination);
  }

  /** The parent the loop computes from the relative path is the parent of the file's remote path. */
  lemma RemoteParent(destination: PosixPath, rel: seq<string>)
    requires WellFormed(destination) && |rel| > 0 && AllParts(rel)
    ensures ParentPath(RemotePath(destination, rel)) == RemotePath(destination, rel[..|rel| - 1])
  {
    var prel := rel[..|rel| - 1];
    assert AllParts(prel) by {
      forall k | 0 <= k < |prel| ensures IsPart(prel[k]) { assert prel[k] == rel[k]; }
    }
    RemotePathParts(destination, rel);
    RemotePathParts(destination, prel);
    var whole := destination.parts + rel;
    assert whole[..|whole| - 1] == destination.parts + prel;
  }

  // ---- resolving the walk onto the destination ----

  /** An entry with its remote paths computed: a directory's path, or a file's path and the
      path of its parent (`(destination / artifact.parent.relative_to(directory).as_posix())`). */
  datatype Resolved = ResolvedDirectory(path: string) | ResolvedFile(path: string, parent: string, data: Option<Bytes>) {
    /** The remote directory the entry needs: a directory's own path, a file's parent. */
    function Needs(): string {
      if ResolvedDirectory? then path else parent
    }
  }

  function Resolve(destination: PosixPath, e: Entry): Resolved
    requires |e.rel| > 0
  {
    match e
    case Directory(rel) => ResolvedDirectory(RemotePath(destination, rel))
    case File(rel, data) => ResolvedFile(RemotePath(destination, rel), RemotePath(destination, rel[..|rel| - 1]), data)
  }

  function ResolveAll(destination: PosixPath, walk: seq<Entry>): (items: seq<Resolved>)
    requires NonEmptyPaths(walk)
    ensures |items| == |walk|
    ensures forall i :: 0 <= i < |walk| ==> items[i] == Resolve(destination, walk[i])
  {
    seq(|walk|, i requires 0 <= i < |walk| => Resolve(destination, walk[i]))
  }

  // ---- the loop, one entry at a time ----

  /** The requests issued so far, the `directories` memo, and the remote path of an unreadable
      file if one has stopped the loop. */
  datatype Progress = Progress(ops: seq<Op>, memo: set<string>, unreadable: Option<string>)

  /** `mkdirs` for `path` unless the memo has it, remembering it. */
  function EnsureDirectory(p: Progress, path: string): (r: Progress)
    ensures path in r.memo && r.unreadable == p.unreadable
    ensures path in p.memo ==> r == p
  {
    if path in p.memo then p else Progress(p.ops + [MkdirsOp(path)], p.memo + {path}, p.unreadable)
  }

  /** One iteration of the loop over the walk. A directory whose remote path is in the memo is
      skipped; otherwise it is created and remembered. A file gets its remote parent created and
      remembered first when the memo lacks it (one level only), then is read and uploaded with
      overwrite set; a file that cannot be read stops the loop. */
  function Step(p: Progress, r: Resolved): (q: Progress)
    ensures p.ops <= q.ops && p.memo <= q.memo
    ensures p.unreadable.Some? ==> q == p
  {
    if p.unreadable.Some? then p
    else match r
      case ResolvedDirectory(path) => EnsureDirectory(p, path)
      case ResolvedFile(path, parent, data) =>
        var repaired := EnsureDirectory(p, parent);
        match data
        case None => Progress(repaired.ops, repaired.memo, Some(path))
        case Some(content) => Progress(repaired.ops + [UploadOp(path, content, true)], repaired.memo, None)
  }

  /** The loop over resolved entries, from an empty memo. */
  function Run(items: seq<Resolved>): Progress {
    if |items| == 0 then Progress([], {}, None)
    else Step(Run(items[..|items| - 1]), items[|items| - 1])
  }

  /** The loop over the walk. */
  function Plan(destination: PosixPath, walk: seq<Entry>): Progress
    requires NonEmptyPaths(walk)
  {
    Run(ResolveAll(destination, walk))
  }

  /** The content each path last received by an upload among `ops`. */
  function Uploaded(ops: seq<Op>): map<string, Bytes> {
    if |ops| == 0 then map[]
    else
      var m := Uploaded(ops[..|ops| - 1]);
      match ops[|ops| - 1]
      case UploadOp(path, content, _) => m[path := content]
      case _ => m
  }

  /** Uploads only replace the content of the path they name. */
  lemma UploadedSnoc(ops: seq<Op>, op: Op)
    ensures Uploaded(ops + [op]) == if op.UploadOp? then Uploaded(ops)[op.path := op.content] else Uploaded(ops)
  {
  }

  // ---- invariants of the loop ----

  /** The memo holds exactly the paths passed to `mkdirs`. */
  ghost predicate MemoTracksMkdirs(p: Progress) {
    forall x :: x in p.memo <==> MkdirsOp(x) in p.ops
  }

  /** The paths passed to `mkdirs` among `ops`. */
  function Created(ops: seq<Op>): (r: set<string>)
    ensures forall x :: x in r <==> MkdirsOp(x) in ops
  {
    set i | 0 <= i < |ops| && ops[i].MkdirsOp? :: ops[i].path
  }

  /** Ensuring a directory keeps the memo equal to the paths passed to `mkdirs`. */
  lemma EnsureDirectoryTracksMkdirs(p: Progress, x: string)
    requires MemoTracksMkdirs(p)
    ensures MemoTracksMkdirs(EnsureDirectory(p, x))
  {
  }

  /** One iteration keeps the memo equal to the paths passed to `mkdirs`, whatever the walk's
      parents are. */
  lemma StepTracksMkdirs(p: Progress, r: Resolved)
    requires MemoTracksMkdirs(p)
    ensures MemoTracksMkdirs(Step(p, r))
  {
    if p.unreadable.None? {
      EnsureDirectoryTracksMkdirs(p, r.Needs());
    }
  }

  /** No path is passed to `mkdirs` twice. */
  ghost predicate MkdirsOnce(ops: seq<Op>) {
    forall i, j :: 0 <= i < j < |ops| && ops[i].MkdirsOp? ==> ops[i] != ops[j]
  }

  /** Every upload comes after a `mkdirs` of its parent. */
  ghost predicate ParentsFirst(ops: seq<Op>) {
    forall j :: 0 <= j < |ops| && ops[j].UploadOp? ==> MkdirsOp(ParentPath(ops[j].path)) in ops[..j]
  }

  ghost predicate LoopInvariant(p: Progress) {
    MemoTracksMkdirs(p) && MkdirsOnce(p.ops) && ParentsFirst(p.ops)
  }

  /** Each resolved file's parent is the parent of its remote path. */
  ghost predicate ParentsResolved(items: seq<Resolved>) {
    forall i :: 0 <= i < |items| && items[i].ResolvedFile? ==> ParentPath(items[i].path) == items[i].parent
  }

  /** Ensuring a directory keeps the invariant. */
  lemma EnsureDirectoryKeepsInvariant(p: Progress, x: string)
    requires LoopInvariant(p)
    ensures LoopInvariant(EnsureDirectory(p, x))
  {
    if x !in p.memo {
      var ops := p.ops + [MkdirsOp(x)];
      forall i, j | 0 <= i < j < |ops| && ops[i].MkdirsOp? ensures ops[i] != ops[j] {
        if j == |ops| - 1 {
          assert ops[i] in p.ops;
        } else {
          assert ops[i] == p.ops[i] && ops[j] == p.ops[j];
        }
      }
      forall j | 0 <= j < |ops| && ops[j].UploadOp? ensures MkdirsOp(ParentPath(ops[j].path)) in ops[..j] {
        assert j < |p.ops|;
        assert ops[..j] == p.ops[..j];
      }
    }
  }

  /** One iteration keeps the invariant. */
  lemma StepKeepsInvariant(p: Progress, r: Resolved)
    requires LoopInvariant(p)
    requires r.ResolvedFile? ==> ParentPath(r.path) == r.parent
    ensures LoopInvariant(Step(p, r))
  {
    if p.unreadable.None? {
      EnsureDirectoryKeepsInvariant(p, r.Needs());
      if r.ResolvedFile? && r.data.Some? {
        var repaired := EnsureDirectory(p, r.parent);
        var ops := repaired.ops + [UploadOp(r.path, r.data.value, true)];
        assert Step(p, r).ops == ops;
        assert MkdirsOp(r.parent) in repaired.ops;
        forall i, j | 0 <= i < j < |ops| && ops[i].MkdirsOp? ensures ops[i] != ops[j] {
          if j < |ops| - 1 { assert ops[i] == repaired.ops[i] && ops[j] == repaired.ops[j]; }
        }
        forall j | 0 <= j < |ops| && ops[j].UploadOp? ensures MkdirsOp(ParentPath(ops[j].path)) in ops[..j] {
          if j == |ops| - 1 {
            assert ops[..j] == repaired.ops;
          } else {
            assert ops[..j] == repaired.ops[..j];
          }
        }
      }
    }
  }

  /** After any sequence of resolved entries the memo equals the set of paths passed to
      `mkdirs`, no path is passed twice, and every upload follows a `mkdirs` of its parent. */
  lemma {:induction false} RunInvariant(items: seq<Resolved>)
    requires ParentsResolved(items)
    ensures LoopInvariant(Run(items))
    decreases |items|
  {
    if |items| > 0 {
      var front := items[..|items| - 1];
      assert ParentsResolved(front) by {
        forall i | 0 <= i < |front| && front[i].ResolvedFile? ensures ParentPath(front[i].path) == front[i].parent {
          assert front[i] == items[i];
        }
      }
      RunInvariant(front);
      StepKeepsInvariant(Run(front), items[|items| - 1]);
    }
  }

  /** Later prefixes only extend the requests, and once a file could not be read nothing more happens. */
  lemma {:induction false} RunExtends(items: seq<Resolved>, i: nat, j: nat)
    requires i <= j <= |items|
    ensures Run(items[..i]).ops <= Run(items[..j]).ops
    ensures Run(items[..i]).memo <= Run(items[..j]).memo
    ensures Run(items[..i]).unreadable.Some? ==> Run(items[..j]) == Run(items[..i])
    decreases j - i
  {
    if i < j {
      RunExtends(items, i, j - 1);
      assert items[..j][..j - 1] == items[..j - 1];
    }
  }

  /** The directories the resolved entries need. */
  function NeededPaths(items: seq<Resolved>): set<string> {
    set i | 0 <= i < |items| :: items[i].Needs()
  }

  lemma NeededPathsSnoc(items: seq<Resolved>)
    requires |items| > 0
    ensures NeededPaths(items) == NeededPaths(items[..|items| - 1]) + {items[|items| - 1].Needs()}
  {
  }

  /** The file paths of the resolved entries. */
  function FilePaths(items: seq<Resolved>): set<string> {
    set i | 0 <= i < |items| && items[i].ResolvedFile? :: items[i].path
  }

  lemma FilePathsSnoc(items: seq<Resolved>)
    requires |items| > 0
    ensures FilePaths(items) == FilePaths(items[..|items| - 1]) +
              (if items[|items| - 1].ResolvedFile? then {items[|items| - 1].path} else {})
  {
  }

  /** When no file was unreadable, the memo holds exactly the directories the entries need. */
  lemma {:induction false} RunCreatesDirectories(items: seq<Resolved>)
    requires Run(items).unreadable.None?
    ensures Run(items).memo == NeededPaths(items)
    decreases |items|
  {
    if |items| > 0 {
      RunCreatesDirectories(items[..|items| - 1]);
      NeededPathsSnoc(items);
    }
  }

  /** Distinct files go to distinct remote paths. */
  ghost predicate DistinctFiles(items: seq<Resolved>) {
    forall i, j :: 0 <= i < j < |items| && items[i].ResolvedFile? && items[j].ResolvedFile? ==> items[i].path != items[j].path
  }

  /** A step that reads its file (if any) uploads exactly that file's content to its path. */
  lemma UploadedAfterStep(p: Progress, r: Resolved)
    requires Step(p, r).unreadable.None?
    ensures Uploaded(Step(p, r).ops) ==
              if r.ResolvedFile? then Uploaded(p.ops)[r.path := r.data.value] else Uploaded(p.ops)
  {
  }

  /** When no file was unreadable, exactly the file paths are uploaded to. */
  lemma {:induction false} RunUploadsExactlyFiles(items: seq<Resolved>)
    requires Run(items).unreadable.None?
    ensures Uploaded(Run(items).ops).Keys == FilePaths(items)
    decreases |items|
  {
    if |items| > 0 {
      var front := items[..|items| - 1];
      RunUploadsExactlyFiles(front);
      UploadedAfterStep(Run(front), items[|items| - 1]);
      FilePathsSnoc(items);
    }
  }

  /** When no file was unreadable and distinct files go to distinct paths, every file's path
      holds that file's own content. */
  lemma {:induction false} RunUploadsContent(items: seq<Resolved>)
    requires DistinctFiles(items) && Run(items).unreadable.None?
    ensures forall i :: 0 <= i < |items| && items[i].ResolvedFile? ==>
              items[i].path in Uploaded(Run(items).ops) && items[i].data == Some(Uploaded(Run(items).ops)[items[i].path])
    decreases |items|
  {
    if |items| > 0 {
      var n := |items| - 1;
      var front := items[..n];
      assert forall i :: 0 <= i < n ==> front[i] == items[i];
      RunUploadsContent(front);
      UploadedAfterStep(Run(front), items[n]);
    }
  }

  /** Whatever happens, only needed directories are created and only file paths are uploaded to. */
  lemma {:induction false} RunBounded(items: seq<Resolved>)
    ensures Run(items).memo <= NeededPaths(items)
    ensures Uploaded(Run(items).ops).Keys <= FilePaths(items)
    decreases |items|
  {
    if |items| > 0 {
      var n := |items| - 1;
      var front := items[..n];
      var r := items[n];
      var p := Run(front);
      RunBounded(front);
      NeededPathsSnoc(items);
      FilePathsSnoc(items);
      if p.unreadable.None? {
        var repaired := EnsureDirectory(p, r.Needs());
        if r.Needs() !in p.memo { UploadedSnoc(p.ops, MkdirsOp(r.Needs())); }
        if r.ResolvedFile? && r.data.Some? {
          UploadedSnoc(repaired.ops, UploadOp(r.path, r.data.value, true));
        }
      }
    }
  }

  /** A longer request sequence uploads to at least the same paths. */
  lemma {:induction false} UploadedKeysGrow(ops: seq<Op>, more: seq<Op>)
    requires ops <= more
    ensures Uploaded(ops).Keys <= Uploaded(more).Keys
    decreases |more|
  {
    if |ops| < |more| {
      var front := more[..|more| - 1];
      assert ops <= front;
      UploadedKeysGrow(ops, front);
      UploadedSnoc(front, more[|more| - 1]);
      assert front + [more[|more| - 1]] == more;
    } else {
      assert ops == more;
    }
  }

  /** Everything the loop creates or uploads for a walk lies at or below the destination. */
  lemma PlanWithin(destination: PosixPath, walk: seq<Entry>)
    requires WellFormed(destination) && IsWalk(walk)
    ensures forall x :: x in Plan(destination, walk).memo ==> IsWithin(x, Format(destination))
    ensures forall k :: k in Uploaded(Plan(destination, walk).ops) ==> IsWithin(k, Format(destination))
  {
    var items := ResolveAll(destination, walk);
    ResolveAllFacts(destination, walk);
    RunBounded(items);
    forall x | x in NeededPaths(items) ensures IsWithin(x, Format(destination)) {
      var i :| 0 <= i < |items| && x == items[i].Needs();
    }
    forall k | k in FilePaths(items) ensures IsWithin(k, Format(destination)) {
      var i :| 0 <= i < |items| && items[i].ResolvedFile? && k == items[i].path;
    }
  }

  // ---- the resolved walk ----

  /** What resolving a walk onto a well-formed destination guarantees: parents are the parents of the
      remote paths, distinct walk paths give distinct remote paths, everything lies at or below the destination. */
  lemma ResolveAllFacts(destination: PosixPath, walk: seq<Entry>)
    requires WellFormed(destination) && IsWalk(walk)
    ensures ParentsResolved(ResolveAll(destination, walk))
    ensures DistinctPaths(walk) ==> DistinctFiles(ResolveAll(destination, walk))
    ensures forall i :: 0 <= i < |walk| ==>
              IsWithin(ResolveAll(destination, walk)[i].path, Format(destination)) &&
              IsWithin(ResolveAll(destination, walk)[i].Needs(), Format(destination))
  {
    var items := ResolveAll(destination, walk);
    forall i | 0 <= i < |walk|
      ensures items[i].ResolvedFile? ==> ParentPath(items[i].path) == items[i].parent
      ensures IsWithin(items[i].path, Format(destination)) && IsWithin(items[i].Needs(), Format(destination))
    {
      var rel := walk[i].rel;
      assert WalkEntry(walk[i]);
      var prel := rel[..|rel| - 1];
      assert AllParts(prel) by {
        forall k | 0 <= k < |prel| ensures IsPart(prel[k]) { assert prel[k] == rel[k]; }
      }
      RemotePathWithin(destination, rel);
      RemotePathWithin(destination, prel);
      RemoteParent(destination, rel);
    }
    if DistinctPaths(walk) {
      forall i, j | 0 <= i < j < |items| && items[i].ResolvedFile? && items[j].ResolvedFile? ensures items[i].path != items[j].path {
        assert WalkEntry(walk[i]) && WalkEntry(walk[j]);
        RemotePathInjective(destination, walk[i].rel, walk[j].rel);
      }
    }
  }

  /** The loop stops on an unreadable file exactly when some file of the resolved walk has no content. */
  lemma {:induction false} RunReadsAll(items: seq<Resolved>)
    ensures Run(items).unreadable.None? <==> forall i :: 0 <= i < |items| && items[i].ResolvedFile? ==> items[i].data.Some?
    decreases |items|
  {
    if |items| > 0 {
      var front := items[..|items| - 1];
      RunReadsAll(front);
      assert forall i :: 0 <= i < |front| ==> front[i] == items[i];
    }
  }

  // ---- the loop over a walk ----

  /** Over any walk, the memo is exactly what was passed to `mkdirs`, no path is passed to `mkdirs`
      twice, and every file's upload comes after a `mkdirs` of its parent. */
  lemma PlanInvariant(destination: PosixPath, walk: seq<Entry>)
    requires WellFormed(destination) && IsWalk(walk)
    ensures LoopInvariant(Plan(destination, walk))
  {
    ResolveAllFacts(destination, walk);
    RunInvariant(ResolveAll(destination, walk));
  }

  /** The loop over a walk stops on an unreadable file exactly when some file of the walk cannot be read. */
  lemma PlanReadsAll(destination: PosixPath, walk: seq<Entry>)
    requires IsWalk(walk)
    ensures Plan(destination, walk).unreadable.None? <==> forall i :: 0 <= i < |walk| && walk[i].File? ==> walk[i].data.Some?
  {
    RunReadsAll(ResolveAll(destination, walk));
  }

  /** A loop over a walk that read every file creates the remote path of every directory and of
      every file's parent, and nothing else. */
  lemma PlanCreatesDirectories(destination: PosixPath, walk: seq<Entry>)
    requires IsWalk(walk) && Plan(destination, walk).unreadable.None?
    ensures forall x :: x in Plan(destination, walk).memo <==>
              exists i :: 0 <= i < |walk| &&
                x == RemotePath(destination, if walk[i].Directory? then walk[i].rel else walk[i].rel[..|walk[i].rel| - 1])
  {
    var items := ResolveAll(destination, walk);
    RunCreatesDirectories(items);
    forall x ensures x in NeededPaths(items) <==>
        exists i :: 0 <= i < |walk| &&
          x == RemotePath(destination, if walk[i].Directory? then walk[i].rel else walk[i].rel[..|walk[i].rel| - 1]) {
      if x in NeededPaths(items) {
        var i :| 0 <= i < |items| && x == items[i].Needs();
        assert x == RemotePath(destination, if walk[i].Directory? then walk[i].rel else walk[i].rel[..|walk[i].rel| - 1]);
      }
    }
  }

  /** A loop over a walk that read every file uploads to the remote path of every file and to
      nothing else. */
  lemma PlanUploadsExactlyFiles(destination: PosixPath, walk: seq<Entry>)
    requires IsWalk(walk) && Plan(destination, walk).unreadable.None?
    ensures forall k :: k in Uploaded(Plan(destination, walk).ops) <==>
              exists i :: 0 <= i < |walk| && walk[i].File? && k == RemotePath(destination, walk[i].rel)
  {
    var items := ResolveAll(destination, walk);
    RunUploadsExactlyFiles(items);
    forall k ensures k in FilePaths(items) <==> exists i :: 0 <= i < |walk| && walk[i].File? && k == RemotePath(destination, walk[i].rel) {
      if k in FilePaths(items) {
        var i :| 0 <= i < |items| && items[i].ResolvedFile? && k == items[i].path;
        assert walk[i].File?;
      }
    }
  }

  /** A loop over a walk with distinct paths that read every file leaves at the remote path of
      every file that file's content. */
  lemma PlanUploadsContent(destination: PosixPath, walk: seq<Entry>)
    requires WellFormed(destination) && IsWalk(walk) && DistinctPaths(walk)
    requires Plan(destination, walk).unreadable.None?
    ensures forall i :: 0 <= i < |walk| && walk[i].File? ==>
              RemotePath(destination, walk[i].rel) in Uploaded(Plan(destination, walk).ops) &&
              walk[i].data == Some(Uploaded(Plan(destination, walk).ops)[RemotePath(destination, walk[i].rel)])
  {
    var items := ResolveAll(destination, walk);
    ResolveAllFacts(destination, walk);
    RunUploadsContent(items);
  }

  /** Any prefix of the requests keeps the order properties: no duplicate `mkdirs`, and every
      upload after its parent's `mkdirs`. */
  lemma PrefixKeepsOrder(pre: seq<Op>, ops: seq<Op>)
    requires pre <= ops && MkdirsOnce(ops) && ParentsFirst(ops)
    ensures MkdirsOnce(pre) && ParentsFirst(pre)
  {
    forall i, j | 0 <= i < j < |pre| && pre[i].MkdirsOp? ensures pre[i] != pre[j] {
      assert pre[i] == ops[i] && pre[j] == ops[j];
    }
    forall j | 0 <= j < |pre| && pre[j].UploadOp? ensures MkdirsOp(ParentPath(pre[j].path)) in pre[..j] {
      assert pre[j] == ops[j];
      assert pre[..j] == ops[..j];
    }
  }
}
