/** src/utils/fs.ts: reconciling one destination file with a source text,
    merge-copying a source tree into a destination directory, comparing two
    files and backing a file up.

    The filesystem is a map from path to text. Directories are implicit in
    the paths (`fs.ensureDir` always succeeds), and `readOnly` holds the paths
    whose writes the filesystem refuses, so that a failed write can be
    followed. The source tree of a merge-copy is a value: the entries of each
    directory in `readdir` order. */
module Fs {
  import opened Wrappers
  import opened Types

  datatype FsError =
    | SourceMissing(path: Path)  // safeCopyMergeDir: no source directory
    | NotFound(path: Path)       // createBackupFile: no file to back up
    | WriteFailed(path: Path)    // the filesystem refused a write
    | InvalidJson(path: Path)    // readJsonWithBackup: JSON.parse threw

  /** The content at `p`, if there is a file there. */
  function Get(files: map<Path, string>, p: Path): Option<string> {
    if p in files then Some(files[p]) else None
  }

  const IdenticalReason: string := "identical content"
  const ConflictReason: string := "file exists with different content, use --force to overwrite"

  // ---------------------------------------------------------------------
  // writeFileIfChanged

  /** The outcome of writeFileIfChanged, from the destination's content (None
      when absent), the source content and the force flag. */
  function Decide(existing: Option<string>, content: string, force: bool): (a: Action)
    ensures a == Created <==> existing.None?
    ensures a == Skipped <==> existing == Some(content)
    ensures a == Conflict <==> existing.Some? && existing.value != content && !force
    ensures a == Updated <==> existing.Some? && existing.value != content && force
  {
    if existing.None? then Created
    else if existing.value == content then Skipped
    else if !force then Conflict
    else Updated
  }

  /** The `reason` field that goes with an outcome. */
  function Reason(a: Action): Option<string> {
    match a
    case Skipped => Some(IdenticalReason)
    case Conflict => Some(ConflictReason)
    case _ => None
  }

  /** The outcomes that write the destination. */
  predicate Writes(a: Action) {
    a == Created || a == Updated
  }

  /** What one call reports and the files it leaves. */
  datatype Step = Step(result: Result<CopyResult, FsError>, files: map<Path, string>)

  /** writeFileIfChanged on the file map. */
  function Reconcile(files: map<Path, string>, readOnly: set<Path>, p: Path, content: string, force: bool): (r: Step)
    ensures r.result.Failure? ==> p in readOnly && r.result.error == WriteFailed(p) && r.files == files
    ensures r.result.Success? ==>
      && r.result.value.path == p
      && Get(r.files, p) == (if r.result.value.action == Conflict then Get(files, p) else Some(content))
    ensures forall q :: q != p ==> Get(r.files, q) == Get(files, q)
  {
    var a := Decide(Get(files, p), content, force);
    if !Writes(a) then Step(Success(CopyResult(a, p, Reason(a))), files)
    else if p in readOnly then Step(Failure(WriteFailed(p)), files)
    else Step(Success(CopyResult(a, p, Reason(a))), files[p := content])
  }

  /** The report of one file, from the files as they were. */
  function Report(files: map<Path, string>, p: Path, content: string, force: bool): CopyResult {
    var a := Decide(Get(files, p), content, force);
    CopyResult(a, p, Reason(a))
  }

  // ---------------------------------------------------------------------
  // safeCopyMergeDir

  /** A directory entry of the source tree. */
  datatype Entry =
    | File(name: string, content: string)
    | Dir(name: string, children: seq<Entry>)

  /** `path.join(dir, name)` for a plain name. */
  function Join(dir: Path, name: string): Path {
    dir + "/" + name
  }

  /** A regular file to reconcile: its destination path and its content. */
  datatype Item = Item(path: Path, content: string)

  /** The regular files below `entries`, with their destination paths under
      `dest`, in the order the walk visits them: listing order, with each
      subdirectory's files in place of the subdirectory. */
  function Listing(dest: Path, entries: seq<Entry>): seq<Item>
    decreases entries
  {
    if entries == [] then [] else EntryListing(dest, entries[0]) + Listing(dest, entries[1..])
  }

  /** The regular files of one entry of a directory listed under `dest`. */
  function EntryListing(dest: Path, e: Entry): seq<Item>
    decreases e
  {
    match e
    case File(n, c) => [Item(Join(dest, n), c)]
    case Dir(n, children) => Listing(Join(dest, n), children)
  }

  /** What a merge-copy reports and the files it leaves. */
  datatype Run = Run(result: Result<seq<CopyResult>, FsError>, files: map<Path, string>)

  /** `c` in front of the reports of a run that succeeded. */
  function Prepend(c: CopyResult, run: Run): Run {
    if run.result.Success? then Run(Success([c] + run.result.value), run.files) else run
  }

  /** The files of a listing reconciled one after the other; the first
      failure ends the walk, keeping the writes before it. */
  function MergeFlat(files: map<Path, string>, readOnly: set<Path>, items: seq<Item>, force: bool): (r: Run)
    ensures r.result.Success? ==>
      |r.result.value| == |items| && forall i :: 0 <= i < |items| ==> r.result.value[i].path == items[i].path
    decreases |items|
  {
    if items == [] then Run(Success([]), files)
    else
      var step := Reconcile(files, readOnly, items[0].path, items[0].content, force);
      if step.result.Failure? then Run(Failure(step.result.error), step.files)
      else Prepend(step.result.value, MergeFlat(step.files, readOnly, items[1..], force))
  }

  /** The run on `A + B`, from the run on `A`. */
  function Continue(run: Run, readOnly: set<Path>, rest: seq<Item>, force: bool): Run {
    if run.result.Failure? then run
    else
      var next := MergeFlat(run.files, readOnly, rest, force);
      if next.result.Success? then Run(Success(run.result.value + next.result.value), next.files) else next
  }

  // ---------------------------------------------------------------------
  // createBackupFile

  /** `iso.replace(/[:.]/g, '-')`. */
  function Sanitize(iso: string): (r: string)
    ensures |r| == |iso|
    ensures forall i :: 0 <= i < |iso| ==> r[i] == if iso[i] == ':' || iso[i] == '.' then '-' else iso[i]
  {
    if iso == [] then []
    else [if iso[0] == ':' || iso[0] == '.' then '-' else iso[0]] + Sanitize(iso[1..])
  }

  /** `${filePath}.${timestamp}.bak`. */
  function BackupPath(p: Path, iso: string): Path {
    p + "." + Sanitize(iso) + ".bak"
  }

  /** createBackupFile on the file map: the backup path, or why there is none. */
  datatype Backup = Backup(result: Result<Path, FsError>, files: map<Path, string>)

  function BackupStep(files: map<Path, string>, readOnly: set<Path>, p: Path, iso: string): (r: Backup)
    ensures r.result.Failure? ==>
      r.files == files && r.result.error == if p !in files then NotFound(p) else WriteFailed(BackupPath(p, iso))
    ensures p in files ==> p in r.files && r.files[p] == files[p]
  {
    if p !in files then Backup(Failure(NotFound(p)), files)
    else
      var b := BackupPath(p, iso);
      if b in readOnly then Backup(Failure(WriteFailed(b)), files)
      else Backup(Success(b), files[b := files[p]])
  }

  // ---------------------------------------------------------------------
  // The filesystem

  class FileSystem {
    var files: map<Path, string>
    const readOnly: set<Path>

    constructor (initial: map<Path, string>, refused: set<Path>)
      ensures files == initial && readOnly == refused
    {
      files := initial;
      readOnly := refused;
    }

    /** `fs.writeFile`. */
    method Write(p: Path, content: string) returns (ok: bool)
      modifies this
      ensures ok <==> p !in readOnly
      ensures files == if ok then old(files)[p := content] else old(files)
    {
      ok := p !in readOnly;
      if ok {
        files := files[p := content];
      }
    }

    /** compareFiles. */
    function CompareFiles(p1: Path, p2: Path): (r: FileComparison)
      reads this
      ensures r.bothExist <==> p1 in files && p2 in files
      ensures r.identical <==> p1 in files && p2 in files && files[p1] == files[p2]
    {
      var exists1 := p1 in files;
      var exists2 := p2 in files;
      if !exists1 || !exists2 then FileComparison(false, exists1 && exists2)
      else FileComparison(files[p1] == files[p2], true)
    }

    /** writeFileIfChanged. */
    method WriteFileIfChanged(p: Path, content: string, force: bool) returns (r: Result<CopyResult, FsError>)
      modifies this
      ensures Step(r, files) == Reconcile(old(files), readOnly, p, content, force)
    {
      if p !in files {
        var ok := Write(p, content);
        if !ok {
          return Failure(WriteFailed(p));
        }
        return Success(CopyResult(Created, p, None));
      }
      var existing := files[p];
      if existing == content {
        return Success(CopyResult(Skipped, p, Some(IdenticalReason)));
      }
      if !force {
        return Success(CopyResult(Conflict, p, Some(ConflictReason)));
      }
      var ok := Write(p, content);
      if !ok {
        return Failure(WriteFailed(p));
      }
      return Success(CopyResult(Updated, p, None));
    }

    /** safeCopyMergeDir: `src` is the entries of the source directory
        `srcDir`, None when it does not exist. */
    method SafeCopyMergeDir(srcDir: Path, src: Option<seq<Entry>>, dest: Path, force: bool) returns (r: Result<seq<CopyResult>, FsError>)
      modifies this
      ensures src.None? ==> r == Failure(SourceMissing(srcDir)) && files == old(files)
      ensures src.Some? ==> Run(r, files) == MergeFlat(old(files), readOnly, Listing(dest, src.value), force)
    {
      if src.None? {
        return Failure(SourceMissing(srcDir));
      }
      r := CopyEntries(src.value, dest, force);
    }

    /** The walk of safeCopyMergeDir over an existing directory. */
    method CopyEntries(entries: seq<Entry>, dest: Path, force: bool) returns (r: Result<seq<CopyResult>, FsError>)
      modifies this
      ensures Run(r, files) == MergeFlat(old(files), readOnly, Listing(dest, entries), force)
      decreases entries
    {
      var results: seq<CopyResult> := [];
      var i := 0;
      while i < |entries|
        invariant 0 <= i <= |entries|
        invariant MergeFlat(old(files), readOnly, Listing(dest, entries[..i]), force) == Run(Success(results), files)
        decreases |entries| - i
      {
        var before := files;
        var sub: Result<seq<CopyResult>, FsError>;
        match entries[i] {
          case File(n, c) =>
            var one := WriteFileIfChanged(Join(dest, n), c, force);
            sub := if one.Success? then Success([one.value]) else Failure(one.error);
          case Dir(n, children) =>
            sub := CopyEntries(children, Join(dest, n), force);
        }
        ListingOfOne(dest, entries[i], before, readOnly, force, sub, files);
        WalkStep(old(files), readOnly, dest, entries, i, force, results, before, sub, files);
        if sub.Failure? {
          return sub;
        }
        results := results + sub.value;
        i := i + 1;
      }
      assert entries[..i] == entries;
      r := Success(results);
    }

    /** createBackupFile, at the time `iso` (`new Date().toISOString()`). */
    method CreateBackupFile(p: Path, iso: string) returns (r: Result<Path, FsError>)
      modifies this
      ensures Backup(r, files) == BackupStep(old(files), readOnly, p, iso)
    {
      if p !in files {
        return Failure(NotFound(p));
      }
      var b := BackupPath(p, iso);
      var ok := Write(b, files[p]);
      if !ok {
        return Failure(WriteFailed(b));
      }
      return Success(b);
    }
  }

  // ---------------------------------------------------------------------
  // Lemmas the walk rests on

  /** One turn of the walk's loop: the entry's run extends the run so far,
      and a failure is the run of the whole listing. */
  lemma WalkStep(start: map<Path, string>, readOnly: set<Path>, dest: Path, entries: seq<Entry>, i: nat, force: bool,
                 results: seq<CopyResult>, before: map<Path, string>, sub: Result<seq<CopyResult>, FsError>,
                 after: map<Path, string>)
    requires i < |entries|
    requires MergeFlat(start, readOnly, Listing(dest, entries[..i]), force) == Run(Success(results), before)
    requires Run(sub, after) == MergeFlat(before, readOnly, Listing(dest, [entries[i]]), force)
    ensures sub.Failure? ==> Run(sub, after) == MergeFlat(start, readOnly, Listing(dest, entries), force)
    ensures sub.Success? ==>
      MergeFlat(start, readOnly, Listing(dest, entries[..i + 1]), force) == Run(Success(results + sub.value), after)
  {
    ListingStep(dest, entries, i);
    MergeConcat(start, readOnly, Listing(dest, entries[..i]), Listing(dest, [entries[i]]), force);
    if sub.Failure? {
      ListingConcat(dest, entries[..i + 1], entries[i + 1..]);
      assert entries[..i + 1] + entries[i + 1..] == entries;
      MergeConcat(start, readOnly, Listing(dest, entries[..i + 1]), Listing(dest, entries[i + 1..]), force);
    }
  }

  lemma ListingOfOne(dest: Path, e: Entry, before: map<Path, string>, readOnly: set<Path>, force: bool,
                     sub: Result<seq<CopyResult>, FsError>, after: map<Path, string>)
    requires e.File? ==>
      var step := Reconcile(before, readOnly, Join(dest, e.name), e.content, force);
      step.files == after && sub == (if step.result.Success? then Success([step.result.value]) else Failure(step.result.error))
    requires e.Dir? ==> Run(sub, after) == MergeFlat(before, readOnly, Listing(Join(dest, e.name), e.children), force)
    ensures Run(sub, after) == MergeFlat(before, readOnly, Listing(dest, [e]), force)
  {
    assert [e][1..] == [];
    if e.File? {
      var it := Item(Join(dest, e.name), e.content);
      assert Listing(dest, [e]) == [it] + [];
      assert [it] + [] == [it];
      var step := Reconcile(before, readOnly, it.path, it.content, force);
      assert [it][1..] == [];
      if step.result.Success? {
        assert [step.result.value] + [] == [step.result.value];
      }
    } else {
      var inner := Listing(Join(dest, e.name), e.children);
      assert Listing(dest, [e]) == inner + [];
      assert inner + [] == inner;
    }
  }

  lemma ListingStep(dest: Path, entries: seq<Entry>, i: nat)
    requires i < |entries|
    ensures Listing(dest, entries[..i + 1]) == Listing(dest, entries[..i]) + Listing(dest, [entries[i]])
  {
    assert entries[..i + 1] == entries[..i] + [entries[i]];
    ListingConcat(dest, entries[..i], [entries[i]]);
  }

  lemma {:induction false} ListingConcat(dest: Path, a: seq<Entry>, b: seq<Entry>)
    ensures Listing(dest, a + b) == Listing(dest, a) + Listing(dest, b)
    decreases a
  {
    if a == [] {
      assert a + b == b;
      assert [] + Listing(dest, b) == Listing(dest, b);
    } else {
      assert (a + b)[0] == a[0];
      assert (a + b)[1..] == a[1..] + b;
      ListingConcat(dest, a[1..], b);
      var first := EntryListing(dest, a[0]);
      calc {
        Listing(dest, a + b);
        first + Listing(dest, a[1..] + b);
        first + (Listing(dest, a[1..]) + Listing(dest, b));
        (first + Listing(dest, a[1..])) + Listing(dest, b);
        Listing(dest, a) + Listing(dest, b);
      }
    }
  }

  /** Reconciling `A + B` is reconciling `A` and then, if that succeeded, `B`. */
  lemma {:induction false} MergeConcat(files: map<Path, string>, readOnly: set<Path>, a: seq<Item>, b: seq<Item>, force: bool)
    ensures MergeFlat(files, readOnly, a + b, force) == Continue(MergeFlat(files, readOnly, a, force), readOnly, b, force)
    decreases |a|
  {
    if a == [] {
      assert a + b == b;
      var next := MergeFlat(files, readOnly, b, force);
      if next.result.Success? {
        assert [] + next.result.value == next.result.value;
      }
    } else {
      assert (a + b)[0] == a[0];
      assert (a + b)[1..] == a[1..] + b;
      var step := Reconcile(files, readOnly, a[0].path, a[0].content, force);
      if step.result.Success? {
        MergeConcat(step.files, readOnly, a[1..], b, force);
        var c := step.result.value;
        var tail := MergeFlat(step.files, readOnly, a[1..], force);
        if tail.result.Success? {
          var next := MergeFlat(tail.files, readOnly, b, force);
          assert next.result.Success? ==> [c] + (tail.result.value + next.result.value) == ([c] + tail.result.value) + next.result.value;
        }
      }
    }
  }

  // ---------------------------------------------------------------------
  // Properties of writeFileIfChanged

  /** The outcome of one call: it fails exactly when the decided outcome
      needs a write the filesystem refuses, and otherwise reports the decided
      outcome with its reason. (What a call leaves in the files is stated by
      `Reconcile` itself.) */
  lemma ReconcileOutcome(files: map<Path, string>, readOnly: set<Path>, p: Path, content: string, force: bool)
    ensures var s := Reconcile(files, readOnly, p, content, force);
      var a := Decide(Get(files, p), content, force);
      && (s.result.Failure? <==> Writes(a) && p in readOnly)
      && (s.result.Success? ==> s.result.value == Report(files, p, content, force))
  {
  }

  /** Without force an existing file is never changed. */
  lemma ReconcileKeepsWithoutForce(files: map<Path, string>, readOnly: set<Path>, p: Path, content: string)
    requires p in files
    ensures Reconcile(files, readOnly, p, content, false).files == files
  {
  }

  /** Idempotence: once a call has created, updated or skipped the file, the
      same call, with or without force, skips and changes nothing. */
  lemma ReconcileIdempotent(files: map<Path, string>, readOnly: set<Path>, p: Path, content: string, force: bool, again: bool)
    requires Reconcile(files, readOnly, p, content, force).result.Success?
    requires Reconcile(files, readOnly, p, content, force).result.value.action != Conflict
    ensures var s := Reconcile(files, readOnly, p, content, force);
      Reconcile(s.files, readOnly, p, content, again) == Step(Success(CopyResult(Skipped, p, Some(IdenticalReason))), s.files)
  {
  }

  /** compareFiles and writeFileIfChanged agree: a destination reported
      identical to a file holding the source content is skipped. */
  lemma IdenticalIsSkipped(fs: FileSystem, src: Path, dest: Path, force: bool)
    requires fs.CompareFiles(src, dest).identical
    ensures Reconcile(fs.files, fs.readOnly, dest, fs.files[src], force).result
      == Success(CopyResult(Skipped, dest, Some(IdenticalReason)))
  {
  }

  // ---------------------------------------------------------------------
  // Properties of the walk

  /** No two files of a listing share a destination path. */
  predicate DistinctPaths(items: seq<Item>) {
    forall i, j :: 0 <= i < j < |items| ==> items[i].path != items[j].path
  }

  /** `q` is the destination of no file of the listing. */
  predicate Unlisted(items: seq<Item>, q: Path) {
    forall i :: 0 <= i < |items| ==> items[i].path != q
  }

  /** A walk never removes a file, changes only listed paths, and without
      force never changes a file that was there before; this holds whether
      the walk finishes or stops at a refused write. */
  lemma {:induction false} MergeAdditive(files: map<Path, string>, readOnly: set<Path>, items: seq<Item>, force: bool)
    ensures var run := MergeFlat(files, readOnly, items, force);
      && files.Keys <= run.files.Keys
      && (forall q :: Unlisted(items, q) ==> Get(run.files, q) == Get(files, q))
      && (!force ==> forall q :: q in files ==> run.files[q] == files[q])
    decreases |items|
  {
    if items != [] {
      var step := Reconcile(files, readOnly, items[0].path, items[0].content, force);
      if step.result.Success? {
        MergeAdditive(step.files, readOnly, items[1..], force);
        forall q | Unlisted(items, q)
          ensures Unlisted(items[1..], q)
        {
          assert forall i :: 0 <= i < |items[1..]| ==> items[1..][i] == items[i + 1];
        }
      }
    }
  }

  /** A walk that stops does so at a listed file whose write was refused. */
  lemma {:induction false} MergeFailure(files: map<Path, string>, readOnly: set<Path>, items: seq<Item>, force: bool)
    requires MergeFlat(files, readOnly, items, force).result.Failure?
    ensures var e := MergeFlat(files, readOnly, items, force).result.error;
      e.WriteFailed? && e.path in readOnly && !Unlisted(items, e.path)
    decreases |items|
  {
    var step := Reconcile(files, readOnly, items[0].path, items[0].content, force);
    if step.result.Success? {
      MergeFailure(step.files, readOnly, items[1..], force);
      var e := MergeFlat(files, readOnly, items, force).result.error;
      var k :| 0 <= k < |items[1..]| && items[1..][k].path == e.path;
      assert items[k + 1].path == e.path;
    }
  }

  /** Reports: a walk that finishes yields one report per listed file, in
      listing order, each the outcome for the destination as it was before
      the walk. */
  lemma {:induction false} MergeReports(files: map<Path, string>, readOnly: set<Path>, items: seq<Item>, force: bool)
    requires DistinctPaths(items)
    requires MergeFlat(files, readOnly, items, force).result.Success?
    ensures var rs := MergeFlat(files, readOnly, items, force).result.value;
      && |rs| == |items|
      && forall i :: 0 <= i < |items| ==> rs[i] == Report(files, items[i].path, items[i].content, force)
    decreases |items|
  {
    if items != [] {
      var step := Reconcile(files, readOnly, items[0].path, items[0].content, force);
      var rest := items[1..];
      assert DistinctPaths(rest) by {
        forall i, j | 0 <= i < j < |rest| ensures rest[i].path != rest[j].path {
          assert rest[i] == items[i + 1] && rest[j] == items[j + 1];
        }
      }
      MergeReports(step.files, readOnly, rest, force);
      forall i | 0 <= i < |rest|
        ensures Get(step.files, rest[i].path) == Get(files, rest[i].path)
      {
        assert rest[i] == items[i + 1];
      }
    }
  }

  /** Contents: after a walk that finishes, every listed destination holds its
      source content, except where the walk reported a conflict and left the
      file as it was. */
  lemma {:induction false} MergeContents(files: map<Path, string>, readOnly: set<Path>, items: seq<Item>, force: bool)
    requires DistinctPaths(items)
    requires MergeFlat(files, readOnly, items, force).result.Success?
    ensures var run := MergeFlat(files, readOnly, items, force);
      forall i :: 0 <= i < |items| ==>
        Get(run.files, items[i].path) ==
          if Decide(Get(files, items[i].path), items[i].content, force) == Conflict
          then Get(files, items[i].path) else Some(items[i].content)
    decreases |items|
  {
    if items != [] {
      var step := Reconcile(files, readOnly, items[0].path, items[0].content, force);
      var rest := items[1..];
      assert DistinctPaths(rest) by {
        forall i, j | 0 <= i < j < |rest| ensures rest[i].path != rest[j].path {
          assert rest[i] == items[i + 1] && rest[j] == items[j + 1];
        }
      }
      MergeContents(step.files, readOnly, rest, force);
      MergeAdditive(step.files, readOnly, rest, force);
      assert Unlisted(rest, items[0].path) by {
        forall i | 0 <= i < |rest| ensures rest[i].path != items[0].path {
          assert rest[i] == items[i + 1];
        }
      }
      forall i | 0 <= i < |rest|
        ensures Get(step.files, rest[i].path) == Get(files, rest[i].path)
      {
        assert rest[i] == items[i + 1];
      }
    }
  }

  /** A walk in which no file needs a write finishes and changes nothing. */
  lemma {:induction false} MergeNoWrites(files: map<Path, string>, readOnly: set<Path>, items: seq<Item>, force: bool)
    requires forall i :: 0 <= i < |items| ==> !Writes(Decide(Get(files, items[i].path), items[i].content, force))
    ensures MergeFlat(files, readOnly, items, force).result.Success?
    ensures MergeFlat(files, readOnly, items, force).files == files
    decreases |items|
  {
    if items != [] {
      assert forall i :: 0 <= i < |items[1..]| ==> items[1..][i] == items[i + 1];
      MergeNoWrites(files, readOnly, items[1..], force);
    }
  }

  /** Idempotence of the walk: repeating a walk that finished changes nothing,
      and reports every file skipped except those that were in conflict,
      which are in conflict again. */
  lemma MergeStable(files: map<Path, string>, readOnly: set<Path>, items: seq<Item>, force: bool)
    requires DistinctPaths(items)
    requires MergeFlat(files, readOnly, items, force).result.Success?
    ensures var run := MergeFlat(files, readOnly, items, force);
      var again := MergeFlat(run.files, readOnly, items, force);
      && again.result.Success? && again.files == run.files
      && |run.result.value| == |items| && |again.result.value| == |items|
      && forall i :: 0 <= i < |items| ==>
        again.result.value[i].action == if run.result.value[i].action == Conflict then Conflict else Skipped
  {
    var run := MergeFlat(files, readOnly, items, force);
    MergeReports(files, readOnly, items, force);
    MergeContents(files, readOnly, items, force);
    MergeNoWrites(run.files, readOnly, items, force);
    MergeReports(run.files, readOnly, items, force);
  }

  // ---------------------------------------------------------------------
  // Properties of the source tree

  /** Entry names are plain names, distinct among siblings, at every level. */
  predicate WellNamed(entries: seq<Entry>)
    decreases entries
  {
    && (forall i :: 0 <= i < |entries| ==> entries[i].name != "" && '/' !in entries[i].name)
    && (forall i, j :: 0 <= i < j < |entries| ==> entries[i].name != entries[j].name)
    && (forall i :: 0 <= i < |entries| ==> entries[i].Dir? ==> WellNamed(entries[i].children))
  }

  /** `p` is the path `Join(d, n)` or lies below it. */
  predicate UnderName(p: Path, d: Path, n: string) {
    var j := Join(d, n);
    j <= p && (|p| == |j| || p[|j|] == '/')
  }

  /** A path lies below at most one plain name of a directory. */
  lemma NamesSeparate(p: Path, d: Path, n1: string, n2: string)
    requires '/' !in n1 && '/' !in n2
    ensures UnderName(p, d, n1) && UnderName(p, d, n2) ==> n1 == n2
  {
    var j1, j2 := Join(d, n1), Join(d, n2);
    if n1 != n2 {
      if |n1| < |n2| {
        if j2 <= p {
          assert p[|j1|] == n2[|n1|] && n2[|n1|] in n2;
        }
      } else if |n2| < |n1| {
        if j1 <= p {
          assert p[|j2|] == n1[|n2|] && n1[|n2|] in n1;
        }
      } else {
        assert j1[|d| + 1..] == n1 && j2[|d| + 1..] == n2;
        assert j1 != j2;
      }
    }
  }

  /** Every file listed under `d` lies below `d`. */
  lemma {:induction false} ListingBelow(d: Path, entries: seq<Entry>)
    ensures forall i :: 0 <= i < |Listing(d, entries)| ==> d + "/" <= Listing(d, entries)[i].path
    decreases entries
  {
    if entries != [] {
      EntryBelow(d, entries[0]);
      ListingBelow(d, entries[1..]);
      var a: seq<Item>, b: seq<Item> := EntryListing(d, entries[0]), Listing(d, entries[1..]);
      forall i | 0 <= i < |a + b| ensures d + "/" <= (a + b)[i].path {
        if i < |a| {
          assert (a + b)[i] == a[i];
          assert Join(d, entries[0].name) <= a[i].path;
        } else {
          assert (a + b)[i] == b[i - |a|];
        }
      }
    }
  }

  /** Every file of an entry lies below the entry's name. */
  lemma {:induction false} EntryBelow(d: Path, e: Entry)
    ensures forall i :: 0 <= i < |EntryListing(d, e)| ==> UnderName(EntryListing(d, e)[i].path, d, e.name)
    decreases e
  {
    if e.Dir? {
      var j := Join(d, e.name);
      ListingBelow(j, e.children);
      forall i | 0 <= i < |EntryListing(d, e)| ensures UnderName(EntryListing(d, e)[i].path, d, e.name) {
        var p := EntryListing(d, e)[i].path;
        assert j + "/" <= p;
        assert p[|j|] == (j + "/")[|j|];
      }
    }
  }

  /** No file listed under `d` lies below a name that no entry has. */
  lemma {:induction false} ListingAvoids(d: Path, entries: seq<Entry>, n: string)
    requires '/' !in n
    requires forall i :: 0 <= i < |entries| ==> '/' !in entries[i].name && entries[i].name != n
    ensures forall i :: 0 <= i < |Listing(d, entries)| ==> !UnderName(Listing(d, entries)[i].path, d, n)
    decreases entries
  {
    if entries != [] {
      EntryBelow(d, entries[0]);
      ListingAvoids(d, entries[1..], n);
      var a: seq<Item>, b: seq<Item> := EntryListing(d, entries[0]), Listing(d, entries[1..]);
      forall i | 0 <= i < |a + b| ensures !UnderName((a + b)[i].path, d, n) {
        if i < |a| {
          assert (a + b)[i] == a[i];
          NamesSeparate(a[i].path, d, entries[0].name, n);
        } else {
          assert (a + b)[i] == b[i - |a|];
        }
      }
    }
  }

  lemma DistinctConcat(a: seq<Item>, b: seq<Item>)
    requires DistinctPaths(a) && DistinctPaths(b)
    requires forall i, j :: 0 <= i < |a| && 0 <= j < |b| ==> a[i].path != b[j].path
    ensures DistinctPaths(a + b)
  {
    forall i, j | 0 <= i < j < |a + b| ensures (a + b)[i].path != (a + b)[j].path {
      if j < |a| {
        assert (a + b)[i] == a[i] && (a + b)[j] == a[j];
      } else if i < |a| {
        assert (a + b)[i] == a[i] && (a + b)[j] == b[j - |a|];
      } else {
        assert (a + b)[i] == b[i - |a|] && (a + b)[j] == b[j - |a|];
      }
    }
  }

  /** A source tree with plain, distinct names lists every destination path
      once, so the walk reports on each file as it was before the walk. */
  lemma {:induction false} DistinctNamesGiveDistinctPaths(d: Path, entries: seq<Entry>)
    requires WellNamed(entries)
    ensures DistinctPaths(Listing(d, entries))
    decreases entries
  {
    if entries != [] {
      var e, rest := entries[0], entries[1..];
      assert WellNamed(rest) by {
        forall i | 0 <= i < |rest| ensures rest[i] == entries[i + 1] { }
      }
      if e.Dir? {
        DistinctNamesGiveDistinctPaths(Join(d, e.name), e.children);
      } else {
        assert DistinctPaths(EntryListing(d, e));
      }
      DistinctNamesGiveDistinctPaths(d, rest);
      EntryBelow(d, e);
      assert forall i :: 0 <= i < |rest| ==> rest[i] == entries[i + 1];
      ListingAvoids(d, rest, e.name);
      DistinctConcat(EntryListing(d, e), Listing(d, rest));
    }
  }

  /** The merge-copy of a well-named source tree: every destination file of
      the tree ends with its source content unless it was in conflict, and a
      second merge-copy of the same tree changes nothing. */
  lemma TreeMergeSettles(files: map<Path, string>, readOnly: set<Path>, dest: Path, entries: seq<Entry>, force: bool)
    requires WellNamed(entries)
    requires MergeFlat(files, readOnly, Listing(dest, entries), force).result.Success?
    ensures var items := Listing(dest, entries);
      var run := MergeFlat(files, readOnly, items, force);
      var again := MergeFlat(run.files, readOnly, items, force);
      && again.result.Success? && again.files == run.files
      && forall i :: 0 <= i < |items| ==>
        Get(run.files, items[i].path) ==
          if Decide(Get(files, items[i].path), items[i].content, force) == Conflict
          then Get(files, items[i].path) else Some(items[i].content)
  {
    var items := Listing(dest, entries);
    DistinctNamesGiveDistinctPaths(dest, entries);
    MergeStable(files, readOnly, items, force);
    MergeContents(files, readOnly, items, force);
  }

  // ---------------------------------------------------------------------
  // Properties of createBackupFile

  /** The timestamp part of a backup path holds no ':' and no '.'. */
  lemma SanitizeClean(iso: string)
    ensures ':' !in Sanitize(iso) && '.' !in Sanitize(iso)
  {
    var r := Sanitize(iso);
    forall i | 0 <= i < |r| ensures r[i] != ':' && r[i] != '.' { }
  }

  /** A backup path is the file's path, a dot, the cleaned timestamp and
      `.bak`; it is never the file's own path, and two files backed up at the
      same time get different backup paths. */
  lemma BackupPathShape(p: Path, iso: string)
    ensures var b := BackupPath(p, iso);
      && |b| == |p| + |iso| + 5
      && b[..|p| + 1] == p + "." && b[|p| + 1..|b| - 4] == Sanitize(iso) && b[|b| - 4..] == ".bak"
      && b != p
      && forall q :: q != p ==> BackupPath(q, iso) != b
  {
    var b := BackupPath(p, iso);
    assert b == (p + ".") + Sanitize(iso) + ".bak";
    forall q | q != p ensures BackupPath(q, iso) != b {
      var c := BackupPath(q, iso);
      if |q| == |p| {
        assert c[..|q|] == q && b[..|p|] == p;
      }
    }
  }

  /** createBackupFile fails exactly for a missing file or a refused write
      (what a failure leaves is stated by `BackupStep`); otherwise the backup
      path holds the file's content, and nothing else changes. */
  lemma BackupOutcome(files: map<Path, string>, readOnly: set<Path>, p: Path, iso: string)
    ensures var bk := BackupStep(files, readOnly, p, iso);
      && (bk.result == Failure(NotFound(p)) <==> p !in files)
      && (bk.result.Failure? <==> p !in files || BackupPath(p, iso) in readOnly)
      && (bk.result.Success? ==>
        && bk.result.value == BackupPath(p, iso)
        && bk.files.Keys == files.Keys + {BackupPath(p, iso)}
        && bk.files[BackupPath(p, iso)] == files[p]
        && forall q :: q in files && q != BackupPath(p, iso) ==> bk.files[q] == files[q])
  {
  }
}
