/**
 * The pipeline synchronisation manager: persistence of a pipeline's known
 * files in the `rag_pipeline_state` table, the orphan reconciler over the
 * `documents` table, and the three-way diff of two known-file maps.
 */
module SyncManager {
  import opened Wrappers
  import opened DocumentStore

  // ---------------------------------------------------------------------
  // Pipeline state table
  // ---------------------------------------------------------------------

  /** One row of `rag_pipeline_state`; `V` is what a known-file entry stores. */
  datatype StateRow<V> = StateRow(
    pipelineType: string,
    knownFiles: map<string, V>,
    lastCheckTime: Option<string>,
    lastRun: Option<string>)

  /** The state table, keyed by `pipeline_id`. */
  type StateTable<V> = map<string, StateRow<V>>

  /** What `load_pipeline_state` hands back to a watcher. */
  datatype LoadedState<V> = LoadedState(
    knownFiles: map<string, V>,
    lastCheckTime: Option<string>,
    lastRun: Option<string>)

  /**
   * Loads the row of `pipelineId`. A missing row and a failing query both
   * give an empty known-file map and no timestamps.
   */
  function LoadPipelineState<V>(table: StateTable<V>, pipelineId: string, queryFails: bool): (r: LoadedState<V>)
    ensures queryFails || pipelineId !in table ==> r == LoadedState(map[], None, None)
    ensures !queryFails && pipelineId in table ==>
      r.knownFiles == table[pipelineId].knownFiles
      && r.lastCheckTime == table[pipelineId].lastCheckTime
      && r.lastRun == table[pipelineId].lastRun
  {
    if !queryFails && pipelineId in table then
      var row := table[pipelineId];
      LoadedState(row.knownFiles, row.lastCheckTime, row.lastRun)
    else
      LoadedState(map[], None, None)
  }

  /** Python truthiness of an optional timestamp string. */
  predicate Supplied(t: Option<string>)
  {
    t.Some? && t.value != ""
  }

  /**
   * Saves a pipeline's known files: updates the existing row or inserts a new
   * one. `last_run` is set to `now`; `last_check_time` is written only when
   * supplied, so an update without one keeps the stored value. A failing
   * query leaves the table as it was and reports false.
   */
  function SavePipelineState<V>(table: StateTable<V>, pipelineId: string, pipelineType: string,
                                knownFiles: map<string, V>, lastCheckTime: Option<string>,
                                now: string, queryFails: bool): (r: (StateTable<V>, bool))
    ensures r.1 <==> !queryFails
    ensures queryFails ==> r.0 == table
    ensures !queryFails ==>
      && r.0.Keys == table.Keys + {pipelineId}
      && (forall p | p in table && p != pipelineId :: r.0[p] == table[p])
      && r.0[pipelineId].knownFiles == knownFiles
      && r.0[pipelineId].pipelineType == pipelineType
      && r.0[pipelineId].lastRun == Some(now)
      && (Supplied(lastCheckTime) ==> r.0[pipelineId].lastCheckTime == lastCheckTime)
      && (!Supplied(lastCheckTime) && pipelineId in table ==>
            r.0[pipelineId].lastCheckTime == table[pipelineId].lastCheckTime)
      && (!Supplied(lastCheckTime) && pipelineId !in table ==> r.0[pipelineId].lastCheckTime == None)
  {
    if queryFails then (table, false)
    else
      var previous := if pipelineId in table then table[pipelineId].lastCheckTime else None;
      var written := if Supplied(lastCheckTime) then lastCheckTime else previous;
      (table[pipelineId := StateRow(pipelineType, knownFiles, written, Some(now))], true)
  }

  /** Saving and then loading gives back the saved known files (persistence round trip). */
  lemma SaveThenLoad<V>(table: StateTable<V>, pipelineId: string, pipelineType: string,
                        knownFiles: map<string, V>, lastCheckTime: Option<string>, now: string)
    requires Supplied(lastCheckTime)
    ensures var saved := SavePipelineState(table, pipelineId, pipelineType, knownFiles, lastCheckTime, now, false).0;
            LoadPipelineState(saved, pipelineId, false) == LoadedState(knownFiles, lastCheckTime, Some(now))
  {
  }

  // ---------------------------------------------------------------------
  // Orphan reconciler
  // ---------------------------------------------------------------------

  /** The `documents` query result: the rows, or a failed query. */
  datatype Listing = Listed(rows: Rows) | ListingFailed

  /**
   * All distinct non-empty file ids in the documents table; rows whose
   * file id is missing or empty are skipped, and a failed query gives none.
   */
  function GetAllDocumentFileIds(listing: Listing): (ids: set<string>)
    ensures listing.ListingFailed? ==> ids == {}
    ensures listing.Listed? ==>
      forall id :: id in ids <==> id != "" && exists i | 0 <= i < |listing.rows| :: listing.rows[i].fileId == Some(id)
  {
    match listing
    case ListingFailed => {}
    case Listed(rows) => FileIds(rows)
  }

  /**
   * Orphans: ids present in the documents table but absent from the
   * source's current ids. Never overlaps `currentIds`, and is empty when the
   * table could not be listed.
   */
  function FindOrphanedDocuments(listing: Listing, currentIds: set<string>): (orphans: set<string>)
    ensures orphans !! currentIds
    ensures listing.ListingFailed? ==> orphans == {}
    ensures listing.Listed? ==>
      forall id :: id in orphans <==>
        id !in currentIds && id != "" && exists i | 0 <= i < |listing.rows| :: listing.rows[i].fileId == Some(id)
  {
    GetAllDocumentFileIds(listing) - currentIds
  }

  /** Counters returned by `sync_deletions`. */
  datatype SyncStats = SyncStats(orphanedFound: nat, deletedSuccess: nat, deletedFailed: nat)

  /**
   * Deletes every orphan through the delete handler, one at a time; a failing
   * delete is counted and does not stop the others. `listingFails` models a
   * failing `documents` query, in which case nothing is deleted. The result
   * is the new table and the counters.
   */
  function SyncDeletions(rows: Rows, listingFails: bool, currentIds: set<string>, deleteFails: string -> bool)
    : (r: (SyncStats, Rows))
    ensures var orphans := FindOrphanedDocuments(if listingFails then ListingFailed else Listed(rows), currentIds);
      && r.0.orphanedFound == |orphans|
      && r.0.deletedSuccess == |Deletable(orphans, deleteFails)|
      && r.0.deletedSuccess + r.0.deletedFailed == r.0.orphanedFound
      && FileIds(r.1) == FileIds(rows) - Deletable(orphans, deleteFails)
    ensures listingFails ==> r.0 == SyncStats(0, 0, 0) && FileIds(r.1) == FileIds(rows)
    ensures !listingFails ==> forall id | id in FileIds(r.1) :: id in currentIds || deleteFails(id)
  {
    var orphans := FindOrphanedDocuments(if listingFails then ListingFailed else Listed(rows), currentIds);
    var d := DeleteAll(rows, orphans, deleteFails);
    (SyncStats(|orphans|, |d.deleted|, d.failures), d.rows)
  }

  // ---------------------------------------------------------------------
  // Sync-state validation
  // ---------------------------------------------------------------------

  /** A known-file entry as stored: a bare timestamp (or null), or a dictionary. */
  datatype Stamp = Text(text: string) | Null | Dict(fields: map<string, Stamp>)

  /** The timestamp an entry stands for: a dictionary's `modifiedTime` or the bare value. */
  function ReadTime(v: Stamp): Stamp
  {
    match v
    case Dict(fields) => if "modifiedTime" in fields then fields["modifiedTime"] else Null
    case _ => v
  }

  /** The three id sets `validate_sync_state` reports. */
  datatype Validation = Validation(added: set<string>, modified: set<string>, deleted: set<string>)

  function ValidateSyncState(known: map<string, Stamp>, current: map<string, Stamp>): (v: Validation)
    ensures forall id :: id in v.added <==> id in current && id !in known
    ensures forall id :: id in v.deleted <==> id in known && id !in current
    ensures forall id :: id in v.modified <==> id in known && id in current && ReadTime(known[id]) != ReadTime(current[id])
    ensures v.added !! v.modified && v.added !! v.deleted && v.modified !! v.deleted
  {
    Validation(
      current.Keys - known.Keys,
      (set id | id in known.Keys * current.Keys && ReadTime(known[id]) != ReadTime(current[id])),
      known.Keys - current.Keys)
  }

  /** Every id of either map lands in exactly one of added, modified, deleted or "unchanged". */
  lemma ValidationPartitions(known: map<string, Stamp>, current: map<string, Stamp>, id: string)
    requires id in known || id in current
    ensures var v := ValidateSyncState(known, current);
      (id in v.added || id in v.modified || id in v.deleted)
      <==> !(id in known && id in current && ReadTime(known[id]) == ReadTime(current[id]))
  {
  }

  /**
   * Storing a timestamp bare or inside a `{"modifiedTime": ...}` dictionary
   * makes no difference to the validation.
   */
  lemma ValidationIgnoresRepresentation(known: map<string, Stamp>, current: map<string, Stamp>, id: string, t: string)
    requires id in known && known[id] == Text(t)
    ensures ValidateSyncState(known[id := Dict(map["modifiedTime" := Text(t)])], current)
         == ValidateSyncState(known, current)
  {
    var known' := known[id := Dict(map["modifiedTime" := Text(t)])];
    assert known'.Keys == known.Keys;
    assert forall k | k in known :: ReadTime(known'[k]) == ReadTime(known[k]);
  }
}
