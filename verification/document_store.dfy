/**
 * The `documents` table as the pipeline sees it: chunk rows tagged with the
 * `file_id` of the source file they came from, and the two per-file
 * operations the watchers call on it (index a file, delete a file's rows).
 */
module DocumentStore {
  import opened Wrappers

  /** One chunk row; only its `metadata->>file_id` matters to synchronisation. */
  datatype DocRow = DocRow(fileId: Option<string>)

  type Rows = seq<DocRow>

  /** A row counts as tagged with `id` when its file id is present and non-empty. */
  predicate TaggedWith(row: DocRow, id: string)
  {
    row.fileId == Some(id) && id != ""
  }

  /** The distinct non-empty file ids present in the table. */
  function FileIds(rows: Rows): (ids: set<string>)
    ensures forall id :: id in ids <==> exists i | 0 <= i < |rows| :: TaggedWith(rows[i], id)
  {
    set i | 0 <= i < |rows| && rows[i].fileId.Some? && rows[i].fileId.value != "" :: rows[i].fileId.value
  }

  /** The file ids of two concatenated tables are those of either part. */
  lemma FileIdsConcat(a: Rows, b: Rows)
    ensures FileIds(a + b) == FileIds(a) + FileIds(b)
  {
    forall x | x in FileIds(a + b) ensures x in FileIds(a) + FileIds(b) {
      var i :| 0 <= i < |a + b| && TaggedWith((a + b)[i], x);
      if i < |a| { assert TaggedWith(a[i], x); } else { assert TaggedWith(b[i - |a|], x); }
    }
    forall x | x in FileIds(a) ensures x in FileIds(a + b) {
      var i :| 0 <= i < |a| && TaggedWith(a[i], x);
      assert TaggedWith((a + b)[i], x);
    }
    forall x | x in FileIds(b) ensures x in FileIds(a + b) {
      var i :| 0 <= i < |b| && TaggedWith(b[i], x);
      assert TaggedWith((a + b)[|a| + i], x);
    }
  }

  /** The table without the rows whose file id is one of `ids`. */
  function RemoveFiles(rows: Rows, ids: set<string>): (r: Rows)
    ensures FileIds(r) == FileIds(rows) - ids
    ensures forall row :: row in r <==> row in rows && !(row.fileId.Some? && row.fileId.value in ids)
    ensures |r| <= |rows|
  {
    if |rows| == 0 then []
    else
      var rest := RemoveFiles(rows[1..], ids);
      assert rows == [rows[0]] + rows[1..];
      FileIdsConcat([rows[0]], rows[1..]);
      if rows[0].fileId.Some? && rows[0].fileId.value in ids then rest
      else
        FileIdsConcat([rows[0]], rest);
        [rows[0]] + rest
  }

  /** Removing two id sets one after the other is removing their union. */
  lemma {:induction false} RemoveFilesTwice(rows: Rows, a: set<string>, b: set<string>)
    ensures RemoveFiles(RemoveFiles(rows, a), b) == RemoveFiles(rows, a + b)
  {
    if |rows| > 0 {
      RemoveFilesTwice(rows[1..], a, b);
    }
  }

  /** Removing no ids leaves the table as it is. */
  lemma {:induction false} RemoveNothing(rows: Rows)
    ensures RemoveFiles(rows, {}) == rows
  {
    if |rows| > 0 {
      RemoveNothing(rows[1..]);
      assert rows == [rows[0]] + rows[1..];
    }
  }

  /** `delete_document_by_file_id`: drops exactly the rows tagged with `id`. */
  function DeleteByFileId(rows: Rows, id: string): (r: Rows)
    ensures FileIds(r) == FileIds(rows) - {id}
    ensures forall row :: row in r <==> row in rows && row.fileId != Some(id)
  {
    RemoveFiles(rows, {id})
  }

  /**
   * Indexing a file replaces its rows: the old rows for `id` go and one row
   * standing for the new chunks is appended.
   */
  function IndexFile(rows: Rows, id: string): (r: Rows)
    ensures id != "" ==> FileIds(r) == FileIds(rows) + {id}
    ensures id == "" ==> FileIds(r) == FileIds(rows)
    ensures forall row :: row in r && row.fileId != Some(id) <==> row in rows && row.fileId != Some(id)
  {
    var kept := DeleteByFileId(rows, id);
    FileIdsConcat(kept, [DocRow(Some(id))]);
    assert id != "" ==> TaggedWith([DocRow(Some(id))][0], id);
    kept + [DocRow(Some(id))]
  }

  /** The ids of `ids` whose delete handler does not raise. */
  function Deletable(ids: set<string>, deleteFails: string -> bool): (d: set<string>)
    ensures d <= ids
  {
    set id | id in ids && !deleteFails(id)
  }

  /** The net effect of deleting every id of `ids` with failures isolated. */
  datatype Deletion = Deletion(rows: Rows, deleted: set<string>, failures: nat)

  /**
   * Deleting a set of file ids, each through the delete handler: the ids
   * whose handler succeeds are removed, every other one counts as a failure.
   */
  function DeleteAll(rows: Rows, ids: set<string>, deleteFails: string -> bool): (d: Deletion)
    ensures d.deleted <= ids
    ensures forall id | id in ids :: id in d.deleted <==> !deleteFails(id)
    ensures |d.deleted| + d.failures == |ids|
    ensures FileIds(d.rows) == FileIds(rows) - d.deleted
  {
    var deleted := Deletable(ids, deleteFails);
    assert |ids| == |deleted| + |ids - deleted| by {
      assert ids == deleted + (ids - deleted);
    }
    Deletion(RemoveFiles(rows, deleted), deleted, |ids - deleted|)
  }

  /**
   * The delete loop as the watchers run it: one handler call per id, in any
   * order, a raising call counted and the loop continued. Whatever order the
   * ids are taken in, the result is `DeleteAll`.
   */
  method DeleteEach(rows: Rows, ids: set<string>, deleteFails: string -> bool)
    returns (rows': Rows, deleted: set<string>, failures: nat)
    ensures Deletion(rows', deleted, failures) == DeleteAll(rows, ids, deleteFails)
  {
    rows' := rows;
    deleted := {};
    failures := 0;
    var remaining := ids;
    ghost var done: set<string> := {};
    RemoveNothing(rows);
    while remaining != {}
      invariant remaining !! done && remaining + done == ids
      invariant deleted == Deletable(done, deleteFails)
      invariant |deleted| + failures == |done|
      invariant rows' == RemoveFiles(rows, deleted)
      decreases remaining
    {
      var id :| id in remaining;
      if deleteFails(id) {
        failures := failures + 1;
      } else {
        RemoveFilesTwice(rows, deleted, {id});
        rows' := DeleteByFileId(rows', id);
        deleted := deleted + {id};
      }
      DeletableStep(done, id, deleteFails);
      done := done + {id};
      remaining := remaining - {id};
    }
  }

  lemma DeletableStep(done: set<string>, id: string, deleteFails: string -> bool)
    requires id !in done
    ensures Deletable(done + {id}, deleteFails)
         == if deleteFails(id) then Deletable(done, deleteFails) else Deletable(done, deleteFails) + {id}
  {
  }
}
