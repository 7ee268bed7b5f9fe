/**
 * The local-files watcher: scanning the watch directory, diffing the scan
 * against the known files, ingesting changed files, deleting removed ones,
 * reconciling orphans and persisting the known files after each cycle.
 */
module LocalWatcher {
  import opened Wrappers
  import opened Strings
  import opened DocumentStore
  import SyncManager

  /** A regular file below the watch directory: the sub-directories leading to it, its name and `os.stat` data. */
  datatype DiskFile = DiskFile(dirs: seq<string>, name: string, modifiedTime: string, size: nat, statOk: bool)

  /** The watch directory: its configured path, whether it exists, and its files in walk order. */
  datatype WatchDirectory = WatchDirectory(path: string, present: bool, files: seq<DiskFile>)

  /**
   * The watcher's collaborators. All are deterministic: `fileIdOf` is the MD5
   * hex digest of the absolute path, `guessMimeType` is extension-based MIME
   * guessing, and the rest report whether reading, text extraction, RAG
   * ingestion and deletion succeed for a given path or file id.
   */
  datatype Env = Env(
    pipelineId: string,
    supportedMimeTypes: seq<string>,
    fileIdOf: string -> string,
    guessMimeType: string -> Option<string>,
    readable: string -> bool,
    hasText: string -> bool,
    ragSucceeds: string -> bool,
    deleteFails: string -> bool)

  /** A file as the scan reports it. */
  datatype FileInfo = FileInfo(id: string, name: string, path: string, mimeType: string, modifiedTime: string, size: nat)

  /** The in-memory state a cycle works on: the known files (id to modification time) and the documents table. */
  datatype WatcherState = WatcherState(known: map<string, string>, store: Rows)

  const DEFAULT_MIME_TYPE := "text/plain"

  // ---------------------------------------------------------------------
  // Scanning
  // ---------------------------------------------------------------------

  /** The MIME type of a path: the guessed type, or `text/plain` when none is guessed. */
  function GetFileMimeType(env: Env, path: string): (m: string)
    ensures m != ""
    ensures env.guessMimeType(path).Some? && env.guessMimeType(path).value != "" ==> m == env.guessMimeType(path).value
    ensures env.guessMimeType(path).None? ==> m == DEFAULT_MIME_TYPE
  {
    match env.guessMimeType(path)
    case Some(m) => if m != "" then m else DEFAULT_MIME_TYPE
    case None => DEFAULT_MIME_TYPE
  }

  /** A path is supported iff its inferred MIME type is one of the configured ones. */
  predicate IsSupportedFile(env: Env, path: string)
  {
    GetFileMimeType(env, path) in env.supportedMimeTypes
  }

  /** Names starting with a dot are hidden. */
  predicate IsHidden(name: string)
  {
    StartsWith(name, ".")
  }

  /** `os.path.join(root, d1, ..., dn, name)` with `/` as separator. */
  function JoinPath(root: string, dirs: seq<string>, name: string): string
    decreases |dirs|
  {
    if |dirs| == 0 then root + "/" + name else JoinPath(root + "/" + dirs[0], dirs[1..], name)
  }

  function PathOf(root: string, d: DiskFile): string
  {
    JoinPath(root, d.dirs, d.name)
  }

  /** A file makes it into the scan iff no directory on its way and not its own name is hidden, it is supported, and `os.stat` works. */
  predicate Scanned(env: Env, root: string, d: DiskFile)
  {
    && (forall k | 0 <= k < |d.dirs| :: !IsHidden(d.dirs[k]))
    && !IsHidden(d.name)
    && IsSupportedFile(env, PathOf(root, d))
    && d.statOk
  }

  function Describe(env: Env, root: string, d: DiskFile): FileInfo
  {
    var path := PathOf(root, d);
    FileInfo(env.fileIdOf(path), d.name, path, GetFileMimeType(env, path), d.modifiedTime, d.size)
  }

  function ScanFiles(env: Env, root: string, files: seq<DiskFile>): (r: seq<FileInfo>)
    ensures |r| <= |files|
    ensures forall f :: f in r <==> exists i | 0 <= i < |files| :: Scanned(env, root, files[i]) && f == Describe(env, root, files[i])
  {
    if |files| == 0 then []
    else
      var rest := ScanFiles(env, root, files[1..]);
      assert forall i | 0 < i < |files| :: files[i] == files[1..][i - 1];
      if Scanned(env, root, files[0]) then [Describe(env, root, files[0])] + rest else rest
  }

  /**
   * `scan_directory`: the supported, visible files of the watch directory.
   * An empty or missing watch directory gives an empty scan.
   */
  function ScanDirectory(env: Env, dir: WatchDirectory): (r: seq<FileInfo>)
    ensures dir.path == "" || !dir.present ==> r == []
    ensures forall f | f in r :: !IsHidden(f.name) && f.mimeType in env.supportedMimeTypes
    ensures dir.path != "" && dir.present ==>
      forall f :: f in r <==> exists i | 0 <= i < |dir.files| :: Scanned(env, dir.path, dir.files[i]) && f == Describe(env, dir.path, dir.files[i])
  {
    if dir.path == "" || !dir.present then [] else ScanFiles(env, dir.path, dir.files)
  }

  // ---------------------------------------------------------------------
  // Change detection
  // ---------------------------------------------------------------------

  function ScanIds(files: seq<FileInfo>): set<string>
  {
    set i | 0 <= i < |files| :: files[i].id
  }

  /** New, or carrying a modification time string strictly greater than the known one. */
  predicate IsNewOrModified(known: map<string, string>, f: FileInfo)
  {
    f.id !in known || LexLess(known[f.id], f.modifiedTime)
  }

  function FilterChanged(known: map<string, string>, files: seq<FileInfo>): (r: seq<FileInfo>)
    ensures |r| <= |files|
    ensures forall f :: f in r <==> f in files && IsNewOrModified(known, f)
  {
    if |files| == 0 then []
    else
      var rest := FilterChanged(known, files[1..]);
      assert forall f :: f in files <==> f == files[0] || f in files[1..];
      if IsNewOrModified(known, files[0]) then [files[0]] + rest else rest
  }

  /** What `get_changes` reports: the changed files in scan order, and the deleted ids. */
  datatype Changes = Changes(changed: seq<FileInfo>, deleted: set<string>)

  function GetChanges(known: map<string, string>, scan: seq<FileInfo>): (c: Changes)
    ensures forall f :: f in c.changed <==> f in scan && IsNewOrModified(known, f)
    ensures forall id :: id in c.deleted <==> id in known && forall i | 0 <= i < |scan| :: scan[i].id != id
    ensures c.deleted !! ScanIds(scan)
    ensures |scan| == 0 ==> c.deleted == known.Keys
  {
    Changes(FilterChanged(known, scan), known.Keys - ScanIds(scan))
  }

  /** A scanned file whose time equals the known one is never reported changed. */
  lemma UnchangedNotReported(known: map<string, string>, scan: seq<FileInfo>, f: FileInfo)
    requires f.id in known && known[f.id] == f.modifiedTime
    ensures f !in GetChanges(known, scan).changed
  {
    LexLessIrreflexive(f.modifiedTime);
  }

  /** A file whose time went backwards (a restored older copy) is not reported changed either. */
  lemma BackdatedNotReported(known: map<string, string>, scan: seq<FileInfo>, f: FileInfo)
    requires f.id in known && LexLess(f.modifiedTime, known[f.id])
    ensures f !in GetChanges(known, scan).changed
  {
    LexLessAsymmetric(f.modifiedTime, known[f.id]);
  }

  // ---------------------------------------------------------------------
  // Ingestion
  // ---------------------------------------------------------------------

  /** The success path of `process_file`: the file is read, yields text, and RAG processing succeeds. */
  predicate Ingests(env: Env, f: FileInfo)
  {
    env.readable(f.path) && env.hasText(f.id) && env.ragSucceeds(f.id)
  }

  /**
   * `process_file`: on success the file is indexed and its time recorded; a
   * read failure, empty text or a failing or raising RAG step returns false
   * and leaves the known files and the table untouched.
   */
  function ProcessFile(env: Env, st: WatcherState, f: FileInfo): (r: (bool, WatcherState))
    ensures r.0 <==> Ingests(env, f)
    ensures !r.0 ==> r.1 == st
    ensures r.0 ==> r.1.known == st.known[f.id := f.modifiedTime]
    ensures r.0 ==> FileIds(r.1.store) == FileIds(st.store) + ({f.id} - {""})
  {
    if !env.readable(f.path) then (false, st)
    else if !env.hasText(f.id) then (false, st)
    else if !env.ragSucceeds(f.id) then (false, st)
    else (true, WatcherState(st.known[f.id := f.modifiedTime], IndexFile(st.store, f.id)))
  }

  function Ingested(env: Env, files: seq<FileInfo>): (r: seq<FileInfo>)
    ensures |r| <= |files|
    ensures forall f :: f in r <==> f in files && Ingests(env, f)
  {
    if |files| == 0 then []
    else
      var rest := Ingested(env, files[1..]);
      assert forall f :: f in files <==> f == files[0] || f in files[1..];
      if Ingests(env, files[0]) then [files[0]] + rest else rest
  }

  function IngestedIds(env: Env, files: seq<FileInfo>): set<string>
  {
    set f | f in files && Ingests(env, f) :: f.id
  }

  lemma IngestedIdsCons(env: Env, files: seq<FileInfo>)
    requires |files| > 0
    ensures IngestedIds(env, files) == (if Ingests(env, files[0]) then {files[0].id} else {}) + IngestedIds(env, files[1..])
  {
    assert forall f :: f in files <==> f == files[0] || f in files[1..];
  }

  /** `files[i]` is ingested and no later file with the same id is, so its time is the one left recorded. */
  predicate LastIngested(env: Env, files: seq<FileInfo>, i: int)
  {
    && 0 <= i < |files| && Ingests(env, files[i])
    && forall j | i < j < |files| :: Ingests(env, files[j]) ==> files[j].id != files[i].id
  }

  lemma LastIngestedCons(env: Env, files: seq<FileInfo>)
    requires |files| > 0
    ensures LastIngested(env, files, 0) ==> files[0].id !in IngestedIds(env, files[1..])
    ensures forall i | 0 < i < |files| :: LastIngested(env, files, i) ==> LastIngested(env, files[1..], i - 1)
  {
    if LastIngested(env, files, 0) {
      forall f | f in files[1..] && Ingests(env, f) ensures f.id != files[0].id {
        var j :| 0 <= j < |files[1..]| && files[1..][j] == f;
        assert files[j + 1] == f;
      }
    }
  }

  /**
   * The loop over changed files in `check_for_changes`: returns how many were
   * processed and the new state. Only successfully ingested ids gain or change
   * an entry; every other entry is kept.
   */
  function ProcessChanged(env: Env, st: WatcherState, files: seq<FileInfo>): (r: (nat, WatcherState))
    ensures r.0 == |Ingested(env, files)|
    ensures r.1.known.Keys == st.known.Keys + IngestedIds(env, files)
    ensures forall id | id in st.known && id !in IngestedIds(env, files) :: r.1.known[id] == st.known[id]
    decreases |files|
  {
    if |files| == 0 then (0, st)
    else
      var step := ProcessFile(env, st, files[0]);
      var rest := ProcessChanged(env, step.1, files[1..]);
      IngestedIdsCons(env, files);
      assert Ingested(env, files) == (if step.0 then [files[0]] else []) + Ingested(env, files[1..]);
      (rest.0 + (if step.0 then 1 else 0), rest.1)
  }

  /** Each ingested id ends with the time of the last file of that id that was ingested. */
  lemma {:induction false} ProcessChangedTimes(env: Env, st: WatcherState, files: seq<FileInfo>)
    ensures var r := ProcessChanged(env, st, files);
      forall i | LastIngested(env, files, i) :: files[i].id in r.1.known && r.1.known[files[i].id] == files[i].modifiedTime
    decreases |files|
  {
    if |files| > 0 {
      var step := ProcessFile(env, st, files[0]);
      var rest := ProcessChanged(env, step.1, files[1..]);
      assert ProcessChanged(env, st, files) == (rest.0 + (if step.0 then 1 else 0), rest.1);
      ProcessChangedTimes(env, step.1, files[1..]);
      LastIngestedCons(env, files);
      IngestedIdsCons(env, files);
      forall i | LastIngested(env, files, i) ensures files[i].id in rest.1.known && rest.1.known[files[i].id] == files[i].modifiedTime {
        if i > 0 {
          assert LastIngested(env, files[1..], i - 1);
          assert files[1..][i - 1] == files[i];
        }
      }
    }
  }

  /** After the processing pass the table holds documents for exactly the old ids plus the ingested non-empty ids. */
  lemma {:induction false} ProcessChangedIndexes(env: Env, st: WatcherState, files: seq<FileInfo>)
    ensures FileIds(ProcessChanged(env, st, files).1.store) == FileIds(st.store) + (IngestedIds(env, files) - {""})
    decreases |files|
  {
    if |files| > 0 {
      var step := ProcessFile(env, st, files[0]);
      ProcessChangedIndexes(env, step.1, files[1..]);
      IngestedIdsCons(env, files);
      var head: set<string> := if step.0 then {files[0].id} else {};
      assert (head + IngestedIds(env, files[1..])) - {""} == (head - {""}) + (IngestedIds(env, files[1..]) - {""});
    }
  }

  // ---------------------------------------------------------------------
  // One cycle
  // ---------------------------------------------------------------------

  /** The counters `check_for_changes` returns (the duration is left out). */
  datatype CycleStats = CycleStats(filesProcessed: nat, filesDeleted: nat, errors: nat, orphanedDeleted: nat)

  datatype CycleResult = CycleResult(stats: CycleStats, state: WatcherState, table: SyncManager.StateTable<string>)

  /** The outcome of the two passes over the changes: ingest the changed files, then delete the removed ones. */
  datatype Pass = Pass(processed: nat, deleted: nat, errors: nat, state: WatcherState)

  /**
   * The processing and deletion passes of `check_for_changes`. A deleted id
   * leaves the known files only when its documents were deleted; every failed
   * ingestion and every failed deletion counts as one error.
   */
  function ApplyChanges(env: Env, st: WatcherState, c: Changes): (p: Pass)
    ensures p.processed == |Ingested(env, c.changed)| && p.processed <= |c.changed|
    ensures p.deleted == |Deletable(c.deleted, env.deleteFails)| && p.deleted <= |c.deleted|
    ensures p.errors == (|c.changed| - p.processed) + (|c.deleted| - p.deleted)
    ensures forall id :: id in p.state.known <==>
      (id in st.known || id in IngestedIds(env, c.changed)) && !(id in c.deleted && !env.deleteFails(id))
    ensures forall id | id in p.state.known && id !in IngestedIds(env, c.changed) :: p.state.known[id] == st.known[id]
    ensures forall i | LastIngested(env, c.changed, i) && !(c.changed[i].id in c.deleted && !env.deleteFails(c.changed[i].id)) ::
      c.changed[i].id in p.state.known && p.state.known[c.changed[i].id] == c.changed[i].modifiedTime
    ensures FileIds(p.state.store) ==
      (FileIds(st.store) + (IngestedIds(env, c.changed) - {""})) - Deletable(c.deleted, env.deleteFails)
  {
    ProcessChangedIndexes(env, st, c.changed);
    ProcessChangedTimes(env, st, c.changed);
    var processed := ProcessChanged(env, st, c.changed);
    var d := DeleteAll(processed.1.store, c.deleted, env.deleteFails);
    Pass(processed.0, |d.deleted|, (|c.changed| - processed.0) + d.failures,
         WatcherState(processed.1.known - d.deleted, d.rows))
  }

  /**
   * `check_for_changes`: scan and diff, ingest the changed files, delete the
   * removed ones, reconcile orphans against the known ids left after both
   * passes, and persist the known files with `now` as the last check time.
   * `listingFails` and `saveFails` model failing queries on the documents
   * and state tables.
   */
  function CheckForChanges(env: Env, st: WatcherState, table: SyncManager.StateTable<string>,
                           dir: WatchDirectory, listingFails: bool, saveFails: bool, now: string): (r: CycleResult)
    ensures CycleOutcome(env, st, GetChanges(st.known, ScanDirectory(env, dir)), table, listingFails, saveFails, r)
  {
    var c := GetChanges(st.known, ScanDirectory(env, dir));
    ChangedNotDeleted(st.known, ScanDirectory(env, dir));
    Cycle(env, st, c, table, listingFails, saveFails, now)
  }

  /** A changed file is in the scan, so its id is never among the deleted ones. */
  lemma ChangedNotDeleted(known: map<string, string>, scan: seq<FileInfo>)
    ensures var c := GetChanges(known, scan);
      forall i | 0 <= i < |c.changed| :: c.changed[i].id !in c.deleted
  {
    var c := GetChanges(known, scan);
    forall i | 0 <= i < |c.changed| ensures c.changed[i].id !in c.deleted {
      assert c.changed[i] in scan;
    }
  }

  /**
   * What a cycle over the changes `c` produces:
   *  - the counters: one processed per ingesting file, one deleted per
   *    successful delete, one error per other changed file or deleted id;
   *  - the known files: an id is known iff it was known or ingested and its
   *    delete did not succeed; untouched ids keep their times, and the last
   *    ingesting file of each surviving id sets its time;
   *  - the table: the ids after ingestion and deletion, minus exactly the
   *    orphans (indexed ids that are not known) whose delete succeeds, which
   *    `orphaned_deleted` counts; a failed listing removes no orphans;
   *  - persistence: a successful save stores exactly the final known files,
   *    a failed one leaves the state table alone.
   */
  ghost predicate CycleOutcome(env: Env, st: WatcherState, c: Changes, table: SyncManager.StateTable<string>,
                         listingFails: bool, saveFails: bool, r: CycleResult)
  {
    && r.stats.filesProcessed == |Ingested(env, c.changed)| <= |c.changed|
    && r.stats.filesDeleted == |Deletable(c.deleted, env.deleteFails)| <= |c.deleted|
    && r.stats.errors == (|c.changed| - r.stats.filesProcessed) + (|c.deleted| - r.stats.filesDeleted)
    && (forall id :: id in r.state.known <==>
          (id in st.known || id in IngestedIds(env, c.changed)) && !(id in c.deleted && !env.deleteFails(id)))
    && (forall id | id in r.state.known && id !in IngestedIds(env, c.changed) :: r.state.known[id] == st.known[id])
    && (forall i | LastIngested(env, c.changed, i) ::
          c.changed[i].id in r.state.known && r.state.known[c.changed[i].id] == c.changed[i].modifiedTime)
    && (var indexed := (FileIds(st.store) + (IngestedIds(env, c.changed) - {""})) - Deletable(c.deleted, env.deleteFails);
        var orphans := Deletable(indexed - r.state.known.Keys, env.deleteFails);
        && (listingFails ==> r.stats.orphanedDeleted == 0 && FileIds(r.state.store) == indexed)
        && (!listingFails ==> r.stats.orphanedDeleted == |orphans| && FileIds(r.state.store) == indexed - orphans))
    && (!listingFails ==> forall id | id in FileIds(r.state.store) :: id in r.state.known || env.deleteFails(id))
    && (!saveFails ==> SyncManager.LoadPipelineState(r.table, env.pipelineId, false).knownFiles == r.state.known)
    && (saveFails ==> r.table == table)
  }

  /**
   * A cycle over given changes whose changed files are never among the
   * deleted ids, as the diff guarantees: the two passes, then orphan sync
   * and persistence.
   */
  function Cycle(env: Env, st: WatcherState, c: Changes, table: SyncManager.StateTable<string>,
                 listingFails: bool, saveFails: bool, now: string): (r: CycleResult)
    requires forall i | 0 <= i < |c.changed| :: c.changed[i].id !in c.deleted
    ensures CycleOutcome(env, st, c, table, listingFails, saveFails, r)
  {
    Reconcile(env, ApplyChanges(env, st, c), table, listingFails, saveFails, now)
  }

  /**
   * The end of a cycle: orphan sync against the known ids left by the two
   * passes, then persisting the known files. Counters other than the orphan
   * count and the known files are carried over from the passes.
   */
  function Reconcile(env: Env, p: Pass, table: SyncManager.StateTable<string>,
                     listingFails: bool, saveFails: bool, now: string): (r: CycleResult)
    ensures r.stats.filesProcessed == p.processed && r.stats.filesDeleted == p.deleted && r.stats.errors == p.errors
    ensures r.state.known == p.state.known
    ensures !listingFails ==> forall id | id in FileIds(r.state.store) :: id in r.state.known || env.deleteFails(id)
    ensures listingFails ==> r.stats.orphanedDeleted == 0 && FileIds(r.state.store) == FileIds(p.state.store)
    ensures !listingFails ==> var orphans := Deletable(FileIds(p.state.store) - p.state.known.Keys, env.deleteFails);
      r.stats.orphanedDeleted == |orphans| && FileIds(r.state.store) == FileIds(p.state.store) - orphans
    ensures !saveFails ==> SyncManager.LoadPipelineState(r.table, env.pipelineId, false).knownFiles == r.state.known
    ensures saveFails ==> r.table == table
  {
    var sync := SyncManager.SyncDeletions(p.state.store, listingFails, p.state.known.Keys, env.deleteFails);
    var saved := SyncManager.SavePipelineState(table, env.pipelineId, "local_files", p.state.known, Some(now), now, saveFails).0;
    CycleResult(CycleStats(p.processed, p.deleted, p.errors, sync.0.deletedSuccess), WatcherState(p.state.known, sync.1), saved)
  }

  /**
   * Restart safety: when the scan shows exactly the known files with their
   * known times, a cycle processes nothing, deletes nothing and reports no
   * error, and the known files stay as they are.
   */
  lemma NoChangesNoWork(env: Env, st: WatcherState, table: SyncManager.StateTable<string>,
                        dir: WatchDirectory, listingFails: bool, saveFails: bool, now: string)
    requires var scan := ScanDirectory(env, dir);
      && (forall i | 0 <= i < |scan| :: scan[i].id in st.known && st.known[scan[i].id] == scan[i].modifiedTime)
      && (forall id | id in st.known :: exists i | 0 <= i < |scan| :: scan[i].id == id)
    ensures var r := CheckForChanges(env, st, table, dir, listingFails, saveFails, now);
      r.stats.filesProcessed == 0 && r.stats.filesDeleted == 0 && r.stats.errors == 0 && r.state.known == st.known
  {
    var scan := ScanDirectory(env, dir);
    NothingChanged(st.known, scan);
    ApplyNothing(env, st);
  }

  /** With nothing changed and nothing deleted the two passes are idle. */
  lemma ApplyNothing(env: Env, st: WatcherState)
    ensures var p := ApplyChanges(env, st, Changes([], {}));
      p.processed == 0 && p.deleted == 0 && p.errors == 0 && p.state.known == st.known
  {
    var processed := ProcessChanged(env, st, []);
    assert processed == (0, st);
    var d := DeleteAll(st.store, {}, env.deleteFails);
    assert d.deleted == {} && d.failures == 0;
    var p := ApplyChanges(env, st, Changes([], {}));
    assert p.state.known == st.known - d.deleted;
  }

  /** The diff half of restart safety: a scan that matches the known files exactly yields no changes. */
  lemma NothingChanged(known: map<string, string>, scan: seq<FileInfo>)
    requires forall i | 0 <= i < |scan| :: scan[i].id in known && known[scan[i].id] == scan[i].modifiedTime
    requires forall id | id in known :: exists i | 0 <= i < |scan| :: scan[i].id == id
    ensures GetChanges(known, scan) == Changes([], {})
  {
    var c := GetChanges(known, scan);
    forall f | f in scan ensures !IsNewOrModified(known, f) {
      LexLessIrreflexive(f.modifiedTime);
    }
    FilterChangedNone(known, scan);
  }

  lemma {:induction false} FilterChangedNone(known: map<string, string>, files: seq<FileInfo>)
    requires forall f | f in files :: !IsNewOrModified(known, f)
    ensures FilterChanged(known, files) == []
    decreases |files|
  {
    if |files| > 0 {
      assert files[0] in files;
      FilterChangedNone(known, files[1..]);
    }
  }

  /**
   * An empty directory with no known files and no indexed documents: the
   * cycle reports zeros and the table keeps its (empty) set of file ids.
   */
  lemma EmptyDirectoryCycle(env: Env, store: Rows, table: SyncManager.StateTable<string>,
                            dir: WatchDirectory, listingFails: bool, saveFails: bool, now: string)
    requires dir.files == [] && FileIds(store) == {}
    ensures var r := CheckForChanges(env, WatcherState(map[], store), table, dir, listingFails, saveFails, now);
      r.stats == CycleStats(0, 0, 0, 0) && r.state.known == map[] && FileIds(r.state.store) == {}
  {
  }

  /**
   * A missing watch directory scans as empty, so every known id is reported
   * deleted; with a reachable documents table and deletes that succeed, the
   * cycle forgets every known file and empties the table of file ids.
   */
  lemma MissingDirectoryForgetsEverything(env: Env, st: WatcherState, table: SyncManager.StateTable<string>,
                                          dir: WatchDirectory, saveFails: bool, now: string)
    requires !dir.present
    requires forall id :: !env.deleteFails(id)
    ensures var r := CheckForChanges(env, st, table, dir, false, saveFails, now);
      r.stats.filesDeleted == |st.known| && r.state.known == map[] && FileIds(r.state.store) == {}
  {
    var c := GetChanges(st.known, ScanDirectory(env, dir));
    assert c.changed == [] && c.deleted == st.known.Keys;
    ForgetAll(env, st, c, table, saveFails, CheckForChanges(env, st, table, dir, false, saveFails, now));
  }

  lemma ForgetAll(env: Env, st: WatcherState, c: Changes, table: SyncManager.StateTable<string>,
                  saveFails: bool, r: CycleResult)
    requires CycleOutcome(env, st, c, table, false, saveFails, r)
    requires c.changed == [] && c.deleted == st.known.Keys && forall id :: !env.deleteFails(id)
    ensures r.stats.filesDeleted == |st.known| && r.state.known == map[] && FileIds(r.state.store) == {}
  {
    assert Deletable(c.deleted, env.deleteFails) == st.known.Keys;
    assert IngestedIds(env, c.changed) == {};
    assert r.state.known.Keys == {};
  }

  // ---------------------------------------------------------------------
  // Start-up
  // ---------------------------------------------------------------------

  /** What `load_config` leaves behind: the known files and the `initialized` flag. */
  datatype Startup = Startup(known: map<string, string>, initialized: bool)

  /**
   * `load_config`: when the config file can be read, a non-empty persisted
   * known-file map is adopted and marks the watcher initialized; otherwise
   * the watcher starts empty and uninitialized.
   */
  function LoadConfig(configReadable: bool, loaded: SyncManager.LoadedState<string>): (s: Startup)
    ensures s.initialized <==> configReadable && loaded.knownFiles != map[]
    ensures s.initialized ==> s.known == loaded.knownFiles
    ensures !s.initialized ==> s.known == map[]
  {
    if configReadable && loaded.knownFiles != map[] then Startup(loaded.knownFiles, true)
    else Startup(map[], false)
  }

  lemma ScanIdsCons(files: seq<FileInfo>)
    requires |files| > 0
    ensures ScanIds(files) == {files[0].id} + ScanIds(files[1..])
  {
    assert forall i | 0 < i < |files| :: files[i] == files[1..][i - 1];
  }

  /** No file after `files[i]` carries its id. */
  predicate LastWithId(files: seq<FileInfo>, i: int)
  {
    0 <= i < |files| && forall j | i < j < |files| :: files[j].id != files[i].id
  }

  /**
   * The loop of the initial scan: each file is processed, and then its time
   * is recorded whatever the outcome, so every scanned id ends with the time
   * of the last file of that id.
   */
  function InitialPass(env: Env, st: WatcherState, files: seq<FileInfo>): (r: WatcherState)
    ensures r.known.Keys == st.known.Keys + ScanIds(files)
    ensures forall id | id in st.known && id !in ScanIds(files) :: r.known[id] == st.known[id]
    ensures forall i | LastWithId(files, i) :: files[i].id in r.known && r.known[files[i].id] == files[i].modifiedTime
    decreases |files|
  {
    if |files| == 0 then st
    else
      var step := ProcessFile(env, st, files[0]).1;
      ScanIdsCons(files);
      var r := InitialPass(env, WatcherState(step.known[files[0].id := files[0].modifiedTime], step.store), files[1..]);
      assert forall i | LastWithId(files, i) :: files[i].id in r.known && r.known[files[i].id] == files[i].modifiedTime by {
        forall i | LastWithId(files, i) ensures files[i].id in r.known && r.known[files[i].id] == files[i].modifiedTime {
          if i == 0 {
            forall k | 0 <= k < |files[1..]| ensures files[1..][k].id != files[0].id {
              assert files[1..][k] == files[k + 1];
            }
          } else {
            assert LastWithId(files[1..], i - 1);
          }
        }
      }
      r
  }

  /**
   * The documents the initial scan's loop leaves: every scanned file is
   * handed to `process_file`, so the table ends holding the old ids plus the
   * ingested non-empty ids.
   */
  lemma {:induction false} InitialPassIndexes(env: Env, st: WatcherState, files: seq<FileInfo>)
    ensures FileIds(InitialPass(env, st, files).store) == FileIds(st.store) + (IngestedIds(env, files) - {""})
    decreases |files|
  {
    if |files| > 0 {
      var step := ProcessFile(env, st, files[0]);
      var next := WatcherState(step.1.known[files[0].id := files[0].modifiedTime], step.1.store);
      assert InitialPass(env, st, files) == InitialPass(env, next, files[1..]);
      InitialPassIndexes(env, next, files[1..]);
      IngestedIdsCons(env, files);
      var head: set<string> := if step.0 then {files[0].id} else {};
      assert (head + IngestedIds(env, files[1..])) - {""} == (head - {""}) + (IngestedIds(env, files[1..]) - {""});
    }
  }

  /**
   * The initial-scan branch of `watch_for_changes`: only when the watcher is
   * not yet initialized, every scanned file is processed, so the table gains
   * the ids of the files that ingest, and then recorded as known whatever
   * the outcome; the watcher ends up initialized.
   */
  function InitialScan(env: Env, st: WatcherState, dir: WatchDirectory, initialized: bool): (r: (bool, WatcherState))
    ensures r.0
    ensures initialized ==> r.1 == st
    ensures !initialized ==> r.1.known.Keys == st.known.Keys + ScanIds(ScanDirectory(env, dir))
    ensures !initialized ==> var scan := ScanDirectory(env, dir);
      forall i | LastWithId(scan, i) :: scan[i].id in r.1.known && r.1.known[scan[i].id] == scan[i].modifiedTime
    ensures !initialized ==>
      FileIds(r.1.store) == FileIds(st.store) + (IngestedIds(env, ScanDirectory(env, dir)) - {""})
  {
    if initialized then (true, st)
    else
      InitialPassIndexes(env, st, ScanDirectory(env, dir));
      (true, InitialPass(env, st, ScanDirectory(env, dir)))
  }

  /**
   * Restart safety of start-up: a readable config with a non-empty persisted
   * state skips the initial scan entirely.
   */
  lemma PersistedStateSkipsInitialScan(env: Env, loaded: SyncManager.LoadedState<string>, store: Rows, dir: WatchDirectory)
    requires loaded.knownFiles != map[]
    ensures var s := LoadConfig(true, loaded);
      InitialScan(env, WatcherState(s.known, store), dir, s.initialized) == (true, WatcherState(loaded.knownFiles, store))
  {
  }
}
