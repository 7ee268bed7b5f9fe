/**
 * The Google Drive watcher's cycle rules: per-file processing (trashed files
 * purged, unsupported types skipped, the modification time recorded after
 * any RAG attempt), deletion detection from the trashed flag or a not-found
 * lookup error, the change-check cycle and the initial scan.
 */
module DriveWatcher {
  import opened Wrappers
  import opened Strings
  import opened DocumentStore

  /** A file's metadata as the Drive listing returns it; `modifiedTime` may be absent. */
  datatype DriveFile = DriveFile(id: string, name: string, mimeType: string, modifiedTime: Option<string>, trashed: bool)

  /** How `process_file_for_rag` ends: it returns true, returns false, or raises. */
  datatype RagOutcome = RagSucceeded | RagFailed | RagRaised

  /** The result of fetching one file's metadata: found (trashed or not), or an error with its message. */
  datatype Lookup = Found(trashed: bool) | LookupFailed(message: string)

  /**
   * The watcher's collaborators, keyed by file id: whether the download
   * yields content, whether text extraction yields text, how RAG processing
   * ends, whether deleting the file's documents raises, and what a metadata
   * lookup returns.
   */
  datatype Env = Env(
    supportedMimeTypes: seq<string>,
    downloads: string -> bool,
    hasText: string -> bool,
    rag: string -> RagOutcome,
    deleteRaises: string -> bool,
    lookup: string -> Lookup)

  /** Known files map ids to the listed `modifiedTime`, which may be absent. */
  type Known = map<string, Option<string>>

  datatype DriveState = DriveState(known: Known, store: Rows, lastCheckTime: string)

  const EPOCH := "1970-01-01T00:00:00.000Z"

  // ---------------------------------------------------------------------
  // Start-up
  // ---------------------------------------------------------------------

  /**
   * The `last_check_time` of `load_config`: the stored value when the config
   * is readable and the value parses, the epoch otherwise (also when the key
   * is absent, since the default is the epoch).
   */
  function LoadLastCheckTime(configReadable: bool, stored: Option<string>, parses: string -> bool): (t: string)
    ensures t == EPOCH || (configReadable && stored == Some(t) && parses(t))
    ensures configReadable && stored.Some? && parses(stored.value) ==> t == stored.value
    ensures !configReadable || stored.None? ==> t == EPOCH
  {
    if configReadable && stored.Some? && parses(stored.value) then stored.value else EPOCH
  }

  /** A MIME type is supported iff it starts with one of the configured prefixes. */
  predicate SupportedMime(env: Env, mimeType: string)
  {
    exists k | 0 <= k < |env.supportedMimeTypes| :: StartsWith(mimeType, env.supportedMimeTypes[k])
  }

  // ---------------------------------------------------------------------
  // One file
  // ---------------------------------------------------------------------

  /** The outcome of `process_file`: whether it raised, and the known files and table it leaves. */
  datatype Step = Step(raised: bool, known: Known, store: Rows)

  /** `process_file` raises iff the trashed-file delete raises or, on the ingest path, RAG processing raises. */
  predicate Raises(env: Env, f: DriveFile)
  {
    if f.trashed then env.deleteRaises(f.id)
    else SupportedMime(env, f.mimeType) && env.downloads(f.id) && env.hasText(f.id) && env.rag(f.id) == RagRaised
  }

  /** The path of `process_file` that reaches RAG processing. */
  predicate ReachesRag(env: Env, f: DriveFile)
  {
    !f.trashed && SupportedMime(env, f.mimeType) && env.downloads(f.id) && env.hasText(f.id)
  }

  /**
   * `process_file`. A trashed file has its documents deleted and leaves the
   * known files; it is never downloaded. An unsupported type, a failed
   * download or empty text changes nothing. Once RAG processing has been
   * attempted, the time is recorded whether it succeeded or not.
   */
  function ProcessFile(env: Env, known: Known, store: Rows, f: DriveFile): (r: Step)
    ensures r.raised <==> Raises(env, f)
    ensures r.raised ==> r.known == known && r.store == store
    ensures f.trashed && !r.raised ==> r.known == known - {f.id} && FileIds(r.store) == FileIds(store) - {f.id}
    ensures !f.trashed && !ReachesRag(env, f) ==> r == Step(false, known, store)
    ensures ReachesRag(env, f) && !r.raised ==> r.known == known[f.id := f.modifiedTime]
    ensures ReachesRag(env, f) && env.rag(f.id) == RagSucceeded && f.id != "" ==> FileIds(r.store) == FileIds(store) + {f.id}
    ensures ReachesRag(env, f) && env.rag(f.id) == RagSucceeded && f.id == "" ==> FileIds(r.store) == FileIds(store)
    ensures ReachesRag(env, f) && env.rag(f.id) != RagSucceeded ==> r.store == store
  {
    if f.trashed then
      if env.deleteRaises(f.id) then Step(true, known, store)
      else Step(false, known - {f.id}, DeleteByFileId(store, f.id))
    else if !SupportedMime(env, f.mimeType) then Step(false, known, store)
    else if !env.downloads(f.id) then Step(false, known, store)
    else if !env.hasText(f.id) then Step(false, known, store)
    else match env.rag(f.id)
      case RagRaised => Step(true, known, store)
      case RagFailed => Step(false, known[f.id := f.modifiedTime], store)
      case RagSucceeded => Step(false, known[f.id := f.modifiedTime], IndexFile(store, f.id))
  }

  // ---------------------------------------------------------------------
  // Deletion detection
  // ---------------------------------------------------------------------

  /** A lookup shows the file gone iff it is trashed or the error mentions "File not found" or "404". */
  predicate IsGone(l: Lookup)
  {
    match l
    case Found(trashed) => trashed
    case LookupFailed(message) => Contains(message, "File not found") || Contains(message, "404")
  }

  function GoneIds(env: Env, known: Known): set<string>
  {
    set id | id in known && IsGone(env.lookup(id))
  }

  /**
   * `check_for_deleted_files`: looks up every known id and collects those
   * that are gone; any other lookup error marks nothing.
   */
  method CheckForDeletedFiles(env: Env, known: Known) returns (deleted: set<string>)
    ensures known == map[] ==> deleted == {}
    ensures forall id :: id in deleted <==> (id in known &&
      (env.lookup(id) == Found(true)
       || (env.lookup(id).LookupFailed? && (Contains(env.lookup(id).message, "File not found") || Contains(env.lookup(id).message, "404")))))
    ensures deleted == GoneIds(env, known)
  {
    deleted := {};
    var remaining := known.Keys;
    while remaining != {}
      invariant remaining <= known.Keys
      invariant forall id :: id in deleted <==> id in known && id !in remaining && IsGone(env.lookup(id))
      decreases |remaining|
    {
      var id :| id in remaining;
      if IsGone(env.lookup(id)) {
        deleted := deleted + {id};
      }
      remaining := remaining - {id};
    }
  }

  // ---------------------------------------------------------------------
  // One cycle
  // ---------------------------------------------------------------------

  /** The files of a listing whose processing does not raise. */
  function Completing(env: Env, files: seq<DriveFile>): (r: seq<DriveFile>)
    ensures |r| <= |files|
    ensures forall f :: f in r <==> f in files && !Raises(env, f)
  {
    if |files| == 0 then []
    else
      var rest := Completing(env, files[1..]);
      assert forall f :: f in files <==> f == files[0] || f in files[1..];
      if Raises(env, files[0]) then rest else [files[0]] + rest
  }

  function CompletedIds(env: Env, files: seq<DriveFile>): set<string>
  {
    set f | f in files && !Raises(env, f) :: f.id
  }

  lemma CompletedIdsCons(env: Env, files: seq<DriveFile>)
    requires |files| > 0
    ensures CompletedIds(env, files) == (if Raises(env, files[0]) then {} else {files[0].id}) + CompletedIds(env, files[1..])
  {
    assert forall f :: f in files <==> f == files[0] || f in files[1..];
  }

  /** The running counters and state of the processing pass. */
  datatype Tally = Tally(processed: nat, errors: nat, known: Known, store: Rows)

  /**
   * The processing pass of `check_for_changes`: each file is processed, and
   * unless that raises, its time is recorded and it counts as processed;
   * otherwise it counts as an error. Since the time is recorded even after a
   * trashed file's removal, the pass never drops a known id.
   */
  function ProcessChanges(env: Env, known: Known, store: Rows, files: seq<DriveFile>): (r: Tally)
    ensures r.processed == |Completing(env, files)|
    ensures r.processed + r.errors == |files|
    ensures r.known.Keys == known.Keys + CompletedIds(env, files)
    decreases |files|
  {
    if |files| == 0 then Tally(0, 0, known, store)
    else
      var f := files[0];
      var step := ProcessFile(env, known, store, f);
      CompletedIdsCons(env, files);
      assert Completing(env, files) == (if step.raised then [] else [f]) + Completing(env, files[1..]);
      var next := if step.raised then step.known else step.known[f.id := f.modifiedTime];
      var rest := ProcessChanges(env, next, step.store, files[1..]);
      if step.raised then Tally(rest.processed, rest.errors + 1, rest.known, rest.store)
      else Tally(rest.processed + 1, rest.errors, rest.known, rest.store)
  }

  /** `files[i]` completes and no later completing file has its id, so its time is the one left recorded. */
  predicate LastCompleting(env: Env, files: seq<DriveFile>, i: int)
  {
    && 0 <= i < |files| && !Raises(env, files[i])
    && forall j | i < j < |files| :: !Raises(env, files[j]) ==> files[j].id != files[i].id
  }

  lemma LastCompletingCons(env: Env, files: seq<DriveFile>)
    requires |files| > 0
    ensures LastCompleting(env, files, 0) ==> files[0].id !in CompletedIds(env, files[1..])
    ensures forall i | 0 < i < |files| :: LastCompleting(env, files, i) ==> LastCompleting(env, files[1..], i - 1)
  {
    if LastCompleting(env, files, 0) {
      forall f | f in files[1..] && !Raises(env, f) ensures f.id != files[0].id {
        var j :| 0 <= j < |files[1..]| && files[1..][j] == f;
        assert files[j + 1] == f;
      }
    }
  }

  /**
   * The times the processing pass leaves: ids no completing file touched keep
   * theirs, and every completing file that no later completing file
   * overrides has its time recorded.
   */
  lemma {:induction false} ProcessChangesTimes(env: Env, known: Known, store: Rows, files: seq<DriveFile>)
    ensures var r := ProcessChanges(env, known, store, files);
      && (forall id | id in known && id !in CompletedIds(env, files) :: r.known[id] == known[id])
      && (forall i | LastCompleting(env, files, i) :: files[i].id in r.known && r.known[files[i].id] == files[i].modifiedTime)
    decreases |files|
  {
    if |files| > 0 {
      var f := files[0];
      var step := ProcessFile(env, known, store, f);
      CompletedIdsCons(env, files);
      LastCompletingCons(env, files);
      var next := if step.raised then step.known else step.known[f.id := f.modifiedTime];
      var rest := ProcessChanges(env, next, step.store, files[1..]);
      assert ProcessChanges(env, known, store, files).known == rest.known;
      ProcessChangesTimes(env, next, step.store, files[1..]);
      forall i | LastCompleting(env, files, i) ensures files[i].id in rest.known && rest.known[files[i].id] == files[i].modifiedTime {
        if i > 0 {
          assert LastCompleting(env, files[1..], i - 1);
          assert files[1..][i - 1] == files[i];
        }
      }
    }
  }

  /** The file ids the table holds after `process_file(f)`, given those it held before. */
  function IdsAfterFile(env: Env, ids: set<string>, f: DriveFile): set<string>
  {
    if f.trashed then (if env.deleteRaises(f.id) then ids else ids - {f.id})
    else if ReachesRag(env, f) && env.rag(f.id) == RagSucceeded then ids + ({f.id} - {""})
    else ids
  }

  /** The file ids after processing `files` in order, computed on id sets alone. */
  function IdsAfter(env: Env, ids: set<string>, files: seq<DriveFile>): set<string>
    decreases |files|
  {
    if |files| == 0 then ids else IdsAfter(env, IdsAfterFile(env, ids, files[0]), files[1..])
  }

  /** The processing pass changes the table's file ids exactly as the id-set reference says. */
  lemma {:induction false} ProcessChangesIndexes(env: Env, known: Known, store: Rows, files: seq<DriveFile>)
    ensures FileIds(ProcessChanges(env, known, store, files).store) == IdsAfter(env, FileIds(store), files)
    decreases |files|
  {
    if |files| > 0 {
      var f := files[0];
      var step := ProcessFile(env, known, store, f);
      var next := if step.raised then step.known else step.known[f.id := f.modifiedTime];
      assert ProcessChanges(env, known, store, files).store == ProcessChanges(env, next, step.store, files[1..]).store;
      assert FileIds(step.store) == IdsAfterFile(env, FileIds(store), f);
      ProcessChangesIndexes(env, next, step.store, files[1..]);
    }
  }

  /** The counters of `check_for_changes` (the duration is left out). */
  datatype CycleStats = CycleStats(filesProcessed: nat, filesDeleted: nat, errors: nat)

  /**
   * `check_for_changes`. `listing` is the result of `get_changes` (None when
   * it raises, which the outer handler counts as one error and which leaves
   * the last check time alone). The gone ids are computed from the known
   * files before processing; each one whose delete succeeds leaves the known
   * files and counts as deleted, each one whose delete raises is an error.
   */
  function CheckForChanges(env: Env, st: DriveState, listing: Option<seq<DriveFile>>, now: string): (r: (CycleStats, DriveState))
    ensures listing.None? ==> r == (CycleStats(0, 0, 1), st)
    ensures listing.Some? ==> var files := listing.value; var gone := GoneIds(env, st.known);
      && r.0.filesProcessed == |Completing(env, files)| <= |files|
      && r.0.filesDeleted == |Deletable(gone, env.deleteRaises)| <= |gone|
      && r.0.errors == (|files| - r.0.filesProcessed) + (|gone| - r.0.filesDeleted)
      && (forall id :: id in r.1.known <==>
            (id in st.known || id in CompletedIds(env, files)) && !(id in gone && !env.deleteRaises(id)))
      && r.1.lastCheckTime == now
    ensures listing.Some? ==> var files := listing.value; var gone := GoneIds(env, st.known);
      && (forall id | id in r.1.known && id !in CompletedIds(env, files) :: r.1.known[id] == st.known[id])
      && (forall i | LastCompleting(env, files, i) && !(files[i].id in gone && !env.deleteRaises(files[i].id)) ::
            files[i].id in r.1.known && r.1.known[files[i].id] == files[i].modifiedTime)
    ensures listing.Some? ==>
      FileIds(r.1.store) == IdsAfter(env, FileIds(st.store), listing.value) - Deletable(GoneIds(env, st.known), env.deleteRaises)
  {
    match listing
    case None => (CycleStats(0, 0, 1), st)
    case Some(files) =>
      var gone := GoneIds(env, st.known);
      ProcessChangesTimes(env, st.known, st.store, files);
      ProcessChangesIndexes(env, st.known, st.store, files);
      var t := ProcessChanges(env, st.known, st.store, files);
      var d := DeleteAll(t.store, gone, env.deleteRaises);
      assert |Completing(env, files)| <= |files|;
      (CycleStats(t.processed, |d.deleted|, t.errors + d.failures), DriveState(t.known - d.deleted, d.rows, now))
  }

  /**
   * The `del known_files[file_id]` of the delete pass never meets a missing
   * key: every gone id was known before the cycle, and the processing pass
   * drops no known id.
   */
  lemma GoneIdsStillKnown(env: Env, st: DriveState, files: seq<DriveFile>)
    ensures GoneIds(env, st.known) <= ProcessChanges(env, st.known, st.store, files).known.Keys
  {
  }

  /**
   * As written, a trashed file of any listing that was not known before the
   * cycle is known afterwards, with its documents gone: `process_file`
   * removes it, and the cycle then records its time again.
   */
  lemma TrashedFileKnownAfterCycle(env: Env, st: DriveState, files: seq<DriveFile>, i: nat, now: string)
    requires i < |files| && files[i].trashed && !env.deleteRaises(files[i].id) && files[i].id !in st.known
    ensures var r := CheckForChanges(env, st, Some(files), now);
      && files[i].id in r.1.known
      && (LastCompleting(env, files, i) ==> r.1.known[files[i].id] == files[i].modifiedTime)
  {
    assert files[i] in files;
  }

  /**
   * A file of any listing whose RAG processing returns false is still
   * recorded with its time and counted as processed, so it is not retried in
   * later cycles unless it changes again.
   */
  lemma FailedRagStillRecorded(env: Env, st: DriveState, files: seq<DriveFile>, i: nat, now: string)
    requires LastCompleting(env, files, i) && ReachesRag(env, files[i]) && env.rag(files[i].id) == RagFailed
    requires files[i].id !in GoneIds(env, st.known)
    ensures var r := CheckForChanges(env, st, Some(files), now);
      && files[i] in Completing(env, files)
      && files[i].id in r.1.known && r.1.known[files[i].id] == files[i].modifiedTime
  {
    assert files[i] in files;
  }

  // ---------------------------------------------------------------------
  // Start-up scan
  // ---------------------------------------------------------------------

  /** `files[i]` is not trashed and no later untrashed file has its id. */
  predicate LastUntrashed(files: seq<DriveFile>, i: int)
  {
    0 <= i < |files| && !files[i].trashed && forall j | i < j < |files| :: !files[j].trashed ==> files[j].id != files[i].id
  }

  /** The ids of the listed files that are not trashed. */
  function UntrashedIds(files: seq<DriveFile>): set<string>
  {
    set i | 0 <= i < |files| && !files[i].trashed :: files[i].id
  }

  /** Records the time of every untrashed file, later files overriding earlier ones with the same id. */
  function RecordUntrashed(known: Known, files: seq<DriveFile>): (r: Known)
    ensures r.Keys == known.Keys + UntrashedIds(files)
    ensures forall id | id in known && id !in UntrashedIds(files) :: r[id] == known[id]
    ensures forall i | LastUntrashed(files, i) :: files[i].id in r && r[files[i].id] == files[i].modifiedTime
    decreases |files|
  {
    if |files| == 0 then known
    else
      assert forall i | 0 < i < |files| :: files[i] == files[1..][i - 1];
      assert UntrashedIds(files) == (if files[0].trashed then {} else {files[0].id}) + UntrashedIds(files[1..]);
      var next := if files[0].trashed then known else known[files[0].id := files[0].modifiedTime];
      var r := RecordUntrashed(next, files[1..]);
      assert forall i | LastUntrashed(files, i) :: files[i].id in r && r[files[i].id] == files[i].modifiedTime by {
        forall i | LastUntrashed(files, i) ensures files[i].id in r && r[files[i].id] == files[i].modifiedTime {
          if i > 0 {
            assert LastUntrashed(files[1..], i - 1);
          }
        }
      }
      r
  }

  /**
   * The initial-scan branch of `watch_for_changes`: when not yet
   * initialized, every listed file that is not trashed is recorded with its
   * time, without processing anything; the watcher is then initialized.
   */
  function InitialScan(st: DriveState, files: seq<DriveFile>, initialized: bool): (r: (bool, DriveState))
    ensures r.0
    ensures initialized ==> r.1 == st
    ensures !initialized ==> r.1.store == st.store && r.1.lastCheckTime == st.lastCheckTime
    ensures !initialized ==> r.1.known.Keys == st.known.Keys + UntrashedIds(files)
    ensures !initialized ==> forall i | LastUntrashed(files, i) :: r.1.known[files[i].id] == files[i].modifiedTime
  {
    if initialized then (true, st)
    else (true, DriveState(RecordUntrashed(st.known, files), st.store, st.lastCheckTime))
  }
}
