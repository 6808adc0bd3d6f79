/** `FileProcessor` (src/file_processor.py): the scan of the export folder,
    the summary, and the create-if-missing step for the backup folder.

    The directory walk is the sequence of `(root, dirs, files)` triples
    `os.walk` yields, and the filesystem is the set of paths that exist. */
module FileProcessor {

  import opened Results
  import opened Text
  import opened Paths
  import DateTimes

  /** The processor's state. Nothing in the processor appends to the lists
      or the set; they keep the values the constructor gives them. */
  datatype Processor = Processor(exportDir: string, backupDir: string,
                                 processed: seq<string>,
                                 usedTimestamps: set<DateTimes.DateTime>,
                                 failed: seq<string>,
                                 conversionLog: seq<string>)

  function NewProcessor(exportDir: string, backupDir: string): Processor {
    Processor(exportDir, backupDir, [], {}, [], [])
  }

  // ---------------------------------------------------------------------
  // The summary.

  /** The dictionary `_generate_summary` returns. */
  datatype Summary = Summary(filesProcessed: nat, filesFailed: nat,
                             processedFiles: seq<string>, failedFiles: seq<string>)

  /** Each count is the length of the list reported next to it. */
  function GenerateSummary(p: Processor): (s: Summary)
    ensures s.filesProcessed == |s.processedFiles| && s.filesFailed == |s.failedFiles|
    ensures s.processedFiles == p.processed && s.failedFiles == p.failed
  {
    Summary(|p.processed|, |p.failed|, p.processed, p.failed)
  }

  /** A fresh processor reports nothing processed and nothing failed. */
  lemma NewProcessorSummary(exportDir: string, backupDir: string)
    ensures GenerateSummary(NewProcessor(exportDir, backupDir)) == Summary(0, 0, [], [])
  {
  }

  // ---------------------------------------------------------------------
  // The scan.

  /** One step of `os.walk`: a folder, its sub-folder names and its file
      names. */
  datatype WalkEntry = WalkEntry(root: string, dirs: seq<string>, files: seq<string>)

  /** What the export folder is: not a folder (or missing), or a folder
      whose walk yields the given steps in order. */
  datatype Listing = NotADirectory | Tree(entries: seq<WalkEntry>)

  /** Names starting with a dot are hidden and skipped. */
  predicate IsHidden(name: string) {
    StartsWith(name, ".")
  }

  /** `os.path.join(root, name)` for the visible names, in order. */
  function VisibleNames(root: string, names: seq<string>): seq<string>
    decreases |names|
  {
    if names == [] then []
    else
      var last := names[|names| - 1];
      VisibleNames(root, names[..|names| - 1])
      + (if IsHidden(last) then [] else [JoinStrings(root, last)])
  }

  /** The visible files of every step of the walk, in walk order. */
  function VisibleFiles(entries: seq<WalkEntry>): seq<string>
    decreases |entries|
  {
    if entries == [] then []
    else
      var last := entries[|entries| - 1];
      VisibleFiles(entries[..|entries| - 1]) + VisibleNames(last.root, last.files)
  }

  /** What `_scan_export_directory` returns. */
  function ScanResult(listing: Listing): seq<string> {
    match listing
    case NotADirectory => []
    case Tree(entries) => VisibleFiles(entries)
  }

  /** `_scan_export_directory`: the files of the walk whose names are not
      hidden, joined to their folder, in walk order; nothing at all when
      the export folder is not a folder. */
  method ScanExportDirectory(listing: Listing) returns (files: seq<string>)
    ensures files == ScanResult(listing)
    ensures listing.NotADirectory? ==> files == []
  {
    files := [];
    if listing.NotADirectory? {
      return;
    }
    var entries := listing.entries;
    var i := 0;
    while i < |entries|
      invariant 0 <= i <= |entries|
      invariant files == VisibleFiles(entries[..i])
    {
      var entry := entries[i];
      var j := 0;
      while j < |entry.files|
        invariant 0 <= j <= |entry.files|
        invariant files == VisibleFiles(entries[..i]) + VisibleNames(entry.root, entry.files[..j])
      {
        var name := entry.files[j];
        VisibleNamesStep(entry.root, entry.files, j);
        if !IsHidden(name) {
          files := files + [JoinStrings(entry.root, name)];
        }
        j := j + 1;
      }
      assert entry.files[..j] == entry.files;
      VisibleFilesStep(entries, i);
      i := i + 1;
    }
    assert entries[..i] == entries;
  }

  /** One more name: its path is appended unless it is hidden. */
  lemma VisibleNamesStep(root: string, names: seq<string>, j: nat)
    requires j < |names|
    ensures VisibleNames(root, names[..j + 1])
         == VisibleNames(root, names[..j]) + (if IsHidden(names[j]) then [] else [JoinStrings(root, names[j])])
  {
    assert names[..j + 1][..j] == names[..j];
  }

  /** One more step of the walk: its visible files are appended. */
  lemma VisibleFilesStep(entries: seq<WalkEntry>, i: nat)
    requires i < |entries|
    ensures VisibleFiles(entries[..i + 1])
         == VisibleFiles(entries[..i]) + VisibleNames(entries[i].root, entries[i].files)
  {
    assert entries[..i + 1][..i] == entries[..i];
  }

  /** A name's path is among the visible ones exactly when some visible
      name joins to it. */
  lemma {:induction false} VisibleNamesMembers(root: string, names: seq<string>)
    ensures forall j | 0 <= j < |names| && !IsHidden(names[j]) ::
              JoinStrings(root, names[j]) in VisibleNames(root, names)
    ensures forall f | f in VisibleNames(root, names) ::
              exists j | 0 <= j < |names| :: !IsHidden(names[j]) && f == JoinStrings(root, names[j])
    decreases |names|
  {
    if names != [] {
      var init := names[..|names| - 1];
      VisibleNamesMembers(root, init);
      assert forall j | 0 <= j < |init| :: init[j] == names[j];
    }
  }

  /** The scan lists `join(root, name)` for every visible file of the walk,
      and nothing else. */
  lemma {:induction false} VisibleFilesMembers(entries: seq<WalkEntry>)
    ensures forall i, j | 0 <= i < |entries| && 0 <= j < |entries[i].files|
                          && !IsHidden(entries[i].files[j]) ::
              JoinStrings(entries[i].root, entries[i].files[j]) in VisibleFiles(entries)
    ensures forall f | f in VisibleFiles(entries) ::
              exists i, j | 0 <= i < |entries| && 0 <= j < |entries[i].files| ::
                !IsHidden(entries[i].files[j]) && f == JoinStrings(entries[i].root, entries[i].files[j])
    decreases |entries|
  {
    if entries != [] {
      var init := entries[..|entries| - 1];
      var last := entries[|entries| - 1];
      VisibleFilesMembers(init);
      VisibleNamesMembers(last.root, last.files);
      assert forall i | 0 <= i < |init| :: init[i] == entries[i];
    }
  }

  /** Hidden names never reach the scan: every listed path comes from a
      name that does not start with a dot. */
  lemma NoHiddenFiles(listing: Listing)
    ensures listing.Tree? ==>
              forall f | f in ScanResult(listing) ::
                exists i, j | 0 <= i < |listing.entries| && 0 <= j < |listing.entries[i].files| ::
                  !StartsWith(listing.entries[i].files[j], ".")
                  && f == JoinStrings(listing.entries[i].root, listing.entries[i].files[j])
  {
    if listing.Tree? {
      VisibleFilesMembers(listing.entries);
    }
  }

  // ---------------------------------------------------------------------
  // The backup folder.

  /** `ensure_target_directory` either returns the new filesystem and the
      list of created folders, or raises what `mkdir` raised. */
  datatype Ensured = Ensured(fs: set<PurePath>, created: seq<string>) | EnsureFailed(reason: string)

  /** The path and every path above it. */
  function Lineage(p: PurePath): set<PurePath> {
    set k | 0 <= k <= |p.parts| :: PurePath(p.root, p.parts[..k])
  }

  /** `ensure_target_directory(base)` on the filesystem `fs`: when the
      target is missing, `mkdir(parents=True, exist_ok=True)` creates it and
      every missing folder above it, unless it raises `mkdirError`. */
  function EnsureTargetDirectory(fs: set<PurePath>, base: string,
                                 mkdirError: Option<string>): (r: Ensured)
    ensures Parse(base) in fs ==> r == Ensured(fs, [])
    ensures Parse(base) !in fs && mkdirError.Some? ==> r == EnsureFailed(mkdirError.value)
    ensures Parse(base) !in fs && mkdirError.None? ==>
              r.Ensured? && |r.created| == 1 && Parse(r.created[0]) == Parse(base)
    ensures r.Ensured? ==> Parse(base) in r.fs && fs <= r.fs
  {
    var target := Parse(base);
    if target in fs then Ensured(fs, [])
    else match mkdirError
      case Some(e) => EnsureFailed(e)
      case None =>
        ParseToString(target);
        assert target == PurePath(target.root, target.parts[..|target.parts|]);
        Ensured(fs + Lineage(target), [ToString(target)])
  }

  /** After a successful call the folder exists, so a second call creates
      nothing and changes nothing, whatever `mkdir` would do. */
  lemma EnsureIdempotent(fs: set<PurePath>, base: string, e1: Option<string>, e2: Option<string>)
    requires EnsureTargetDirectory(fs, base, e1).Ensured?
    ensures var fs' := EnsureTargetDirectory(fs, base, e1).fs;
            EnsureTargetDirectory(fs', base, e2) == Ensured(fs', [])
  {
  }

  /** The folders added are exactly the missing ones on the way to the
      target. */
  lemma EnsureAddsLineage(fs: set<PurePath>, base: string)
    requires Parse(base) !in fs
    ensures EnsureTargetDirectory(fs, base, None).fs == fs + Lineage(Parse(base))
  {
  }

  // ---------------------------------------------------------------------
  // One run.

  /** `process_all_files` either returns the summary, with the filesystem
      as it is afterwards, or raises what `mkdir` raised. */
  datatype Run = Run(summary: Summary, fs: set<PurePath>) | RunFailed(reason: string)

  /** `process_all_files(dry_run)`: scan; with nothing to do, or in a dry
      run, touch nothing; otherwise make sure the backup folder exists. The
      processor's lists are never changed, so the summary is the one the
      processor had before the call. */
  function ProcessAllFiles(p: Processor, listing: Listing, dryRun: bool,
                           fs: set<PurePath>, mkdirError: Option<string>): (r: Run)
    ensures r.Run? ==> r.summary == GenerateSummary(p)
    ensures dryRun || ScanResult(listing) == [] ==> r == Run(GenerateSummary(p), fs)
    ensures r.Run? && !dryRun && ScanResult(listing) != [] ==>
              Parse(p.backupDir) in r.fs && fs <= r.fs
    ensures r.RunFailed? <==>
              !dryRun && ScanResult(listing) != [] && Parse(p.backupDir) !in fs && mkdirError.Some?
  {
    var files := ScanResult(listing);
    if files == [] then Run(GenerateSummary(p), fs)
    else if dryRun then Run(GenerateSummary(p), fs)
    else
      match EnsureTargetDirectory(fs, p.backupDir, mkdirError)
      case EnsureFailed(e) => RunFailed(e)
      case Ensured(fs', _) => Run(GenerateSummary(p), fs')
  }

  /** A dry run creates no folder. */
  lemma DryRunTouchesNothing(p: Processor, listing: Listing, fs: set<PurePath>,
                             mkdirError: Option<string>)
    ensures ProcessAllFiles(p, listing, true, fs, mkdirError).Run?
    ensures ProcessAllFiles(p, listing, true, fs, mkdirError).fs == fs
  {
  }

  /** After one successful run, a second run over the same walk changes the
      filesystem no further and reports the same summary. */
  lemma ProcessIdempotent(p: Processor, listing: Listing, dryRun: bool,
                          fs: set<PurePath>, e1: Option<string>, e2: Option<string>)
    requires ProcessAllFiles(p, listing, dryRun, fs, e1).Run?
    ensures var r := ProcessAllFiles(p, listing, dryRun, fs, e1);
            ProcessAllFiles(p, listing, dryRun, r.fs, e2) == r
  {
  }

  /** A fresh processor's run reports zero processed and zero failed files. */
  lemma FreshRunReportsNothing(exportDir: string, backupDir: string, listing: Listing,
                               dryRun: bool, fs: set<PurePath>, mkdirError: Option<string>)
    requires ProcessAllFiles(NewProcessor(exportDir, backupDir), listing, dryRun, fs, mkdirError).Run?
    ensures var s := ProcessAllFiles(NewProcessor(exportDir, backupDir), listing, dryRun, fs, mkdirError).summary;
            s.filesProcessed == 0 && s.filesFailed == 0
  {
  }
}
