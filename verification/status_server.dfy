/**
 * The pipeline status aggregate served over HTTP: a key-value record with a
 * list of files in flight, capped histories of completed and failed files,
 * running totals, and the clamped countdown to the next check.
 */
module StatusServer {
  import opened Wrappers

  /** One file in the status lists; `completedAt` is set when it leaves the processing list. */
  datatype Entry = Entry(name: string, id: Option<string>, startedAt: string, completedAt: Option<string>)

  /** A JSON-like status value. */
  datatype Value = Null | Bool(b: bool) | Int(i: int) | Str(s: string) | Entries(list: seq<Entry>)

  type Status = map<string, Value>

  const PROCESSING := "files_processing"
  const COMPLETED := "files_completed"
  const FAILED := "files_failed"
  const TOTAL_PROCESSED := "total_processed"
  const TOTAL_FAILED := "total_failed"
  const LAST_ACTIVITY := "last_activity"

  /** The six structural keys are pairwise different strings. */
  lemma StructuralKeysDistinct()
    ensures |{PROCESSING, COMPLETED, FAILED, TOTAL_PROCESSED, TOTAL_FAILED, LAST_ACTIVITY}| == 6
  {
    assert PROCESSING[6] == 'p' && COMPLETED[6] == 'c' && FAILED[6] == 'f';
    assert TOTAL_PROCESSED[6] == 'p' && TOTAL_FAILED[6] == 'f' && LAST_ACTIVITY[0] == 'l';
    assert PROCESSING[0] == COMPLETED[0] == FAILED[0] == 'f' && TOTAL_PROCESSED[0] == TOTAL_FAILED[0] == 't';
  }

  const COMPLETED_CAP := 10
  const FAILED_CAP := 5

  /** The structural keys hold what the operations expect: three lists and two integer totals. */
  predicate WellFormed(s: Status)
  {
    && PROCESSING in s && s[PROCESSING].Entries?
    && COMPLETED in s && s[COMPLETED].Entries?
    && FAILED in s && s[FAILED].Entries?
    && TOTAL_PROCESSED in s && s[TOTAL_PROCESSED].Int?
    && TOTAL_FAILED in s && s[TOTAL_FAILED].Int?
  }

  function Processing(s: Status): seq<Entry> requires WellFormed(s) { s[PROCESSING].list }
  function Completed(s: Status): seq<Entry> requires WellFormed(s) { s[COMPLETED].list }
  function Failed(s: Status): seq<Entry> requires WellFormed(s) { s[FAILED].list }
  function TotalProcessed(s: Status): int requires WellFormed(s) { s[TOTAL_PROCESSED].i }
  function TotalFailed(s: Status): int requires WellFormed(s) { s[TOTAL_FAILED].i }

  /** The status a fresh aggregate starts with, `now` being the creation time. */
  function Initial(now: string): (s: Status)
    ensures WellFormed(s)
    ensures Processing(s) == [] && Completed(s) == [] && Failed(s) == []
    ensures TotalProcessed(s) == 0 && TotalFailed(s) == 0
    ensures "status" in s && s["status"] == Str("initializing")
    ensures "check_interval" in s && s["check_interval"] == Int(60)
    ensures "next_check_time" in s && s["next_check_time"] == Null
  {
    map[
      "status" := Str("initializing"),
      "pipeline_type" := Null,
      "last_check_time" := Null,
      "next_check_time" := Null,
      PROCESSING := Entries([]),
      COMPLETED := Entries([]),
      FAILED := Entries([]),
      TOTAL_PROCESSED := Int(0),
      TOTAL_FAILED := Int(0),
      "check_interval" := Int(60),
      "is_checking" := Bool(false),
      "started_at" := Str(now),
      LAST_ACTIVITY := Str(now)]
  }

  /**
   * `update`: the given keys are overwritten, `last_activity` is refreshed,
   * and every other key keeps its value.
   */
  function Update(s: Status, changes: map<string, Value>, now: string): (r: Status)
    ensures r.Keys == s.Keys + changes.Keys + {LAST_ACTIVITY}
    ensures forall k | k in changes && k != LAST_ACTIVITY :: r[k] == changes[k]
    ensures forall k | k in s && k !in changes && k != LAST_ACTIVITY :: r[k] == s[k]
    ensures r[LAST_ACTIVITY] == Str(now)
  {
    (s + changes)[LAST_ACTIVITY := Str(now)]
  }

  /** An update that leaves the structural keys alone keeps the status well formed. */
  lemma UpdateKeepsWellFormed(s: Status, changes: map<string, Value>, now: string)
    requires WellFormed(s)
    requires PROCESSING !in changes && COMPLETED !in changes && FAILED !in changes
    requires TOTAL_PROCESSED !in changes && TOTAL_FAILED !in changes
    ensures WellFormed(Update(s, changes, now))
    ensures var r := Update(s, changes, now);
      Processing(r) == Processing(s) && Completed(r) == Completed(s) && Failed(r) == Failed(s)
      && TotalProcessed(r) == TotalProcessed(s) && TotalFailed(r) == TotalFailed(s)
  {
  }

  /** `add_processing_file`: exactly one entry is appended to the processing list; histories and totals stay. */
  function AddProcessingFile(s: Status, filename: string, fileId: Option<string>, now: string): (r: Status)
    requires WellFormed(s)
    ensures WellFormed(r)
    ensures Processing(r) == Processing(s) + [Entry(filename, fileId, now, None)]
    ensures Completed(r) == Completed(s) && Failed(r) == Failed(s)
    ensures TotalProcessed(r) == TotalProcessed(s) && TotalFailed(r) == TotalFailed(s)
    ensures r.Keys == s.Keys + {LAST_ACTIVITY} && r[LAST_ACTIVITY] == Str(now)
    ensures forall k | k in s && k != PROCESSING && k != LAST_ACTIVITY :: r[k] == s[k]
  {
    s[PROCESSING := Entries(Processing(s) + [Entry(filename, fileId, now, None)])][LAST_ACTIVITY := Str(now)]
  }

  /** The entries not named `name`, in order. */
  function WithoutName(entries: seq<Entry>, name: string): (r: seq<Entry>)
    ensures |r| <= |entries|
    ensures forall e :: e in r <==> e in entries && e.name != name
  {
    if |entries| == 0 then []
    else
      var rest := WithoutName(entries[1..], name);
      assert forall e :: e in entries <==> e == entries[0] || e in entries[1..];
      if entries[0].name != name then [entries[0]] + rest else rest
  }

  /** A single entry is kept exactly when it has another name. */
  lemma WithoutNameOfOne(e: Entry, name: string)
    ensures WithoutName([e], name) == if e.name != name then [e] else []
  {
    assert [e][1..] == [];
  }

  /** Dropping the entries of one name keeps the order of the rest: it distributes over concatenation. */
  lemma {:induction false} WithoutNameConcat(a: seq<Entry>, b: seq<Entry>, name: string)
    ensures WithoutName(a + b, name) == WithoutName(a, name) + WithoutName(b, name)
  {
    if |a| == 0 {
      assert a + b == b;
    } else {
      assert (a + b)[0] == a[0] && (a + b)[1..] == a[1..] + b;
      WithoutNameConcat(a[1..], b, name);
    }
  }

  /** The first entry named `name`, if any. */
  function FirstNamed(entries: seq<Entry>, name: string): (r: Option<nat>)
    ensures r.None? <==> forall i | 0 <= i < |entries| :: entries[i].name != name
    ensures r.Some? ==> (r.value < |entries| && entries[r.value].name == name
      && forall i | 0 <= i < r.value :: entries[i].name != name)
  {
    if |entries| == 0 then None
    else if entries[0].name == name then Some(0)
    else match FirstNamed(entries[1..], name)
      case None => None
      case Some(k) => Some(k + 1)
  }

  /** The last `n` entries of `entries` (all of them when there are fewer). */
  function KeepLast(entries: seq<Entry>, n: nat): (r: seq<Entry>)
    ensures |r| == if |entries| <= n then |entries| else n
    ensures r == entries[|entries| - |r|..]
  {
    if |entries| > n then entries[|entries| - n..] else entries
  }

  /**
   * `complete_file`: every processing entry named `filename` leaves the
   * processing list and `last_activity` is refreshed; the first of them is
   * archived by `ArchiveFirst`. Keys other than the lists, the totals and
   * `last_activity` keep their values.
   */
  function CompleteFile(s: Status, filename: string, success: bool, now: string): (r: Status)
    requires WellFormed(s)
    ensures WellFormed(r)
    ensures forall e :: e in Processing(r) <==> e in Processing(s) && e.name != filename
    ensures Processing(r) == WithoutName(Processing(s), filename)
    ensures r.Keys == s.Keys + {LAST_ACTIVITY} && r[LAST_ACTIVITY] == Str(now)
    ensures forall k | k in s && k !in {PROCESSING, COMPLETED, FAILED, TOTAL_PROCESSED, TOTAL_FAILED, LAST_ACTIVITY} :: r[k] == s[k]
  {
    var moved := ArchiveFirst(s, filename, success, now);
    moved[PROCESSING := Entries(WithoutName(Processing(s), filename))][LAST_ACTIVITY := Str(now)]
  }

  /**
   * The archiving half of `complete_file`: the first processing entry named
   * `filename`, stamped with `now`, is appended to the completed list (capped
   * to the last 10) or the failed list (capped to the last 5), and the
   * matching total grows by one. With no match nothing changes.
   */
  function ArchiveFirst(s: Status, filename: string, success: bool, now: string): (r: Status)
    requires WellFormed(s)
    ensures WellFormed(r) && r.Keys == s.Keys && Processing(r) == Processing(s)
    ensures FirstNamed(Processing(s), filename).None? ==> r == s
    ensures FirstNamed(Processing(s), filename).Some? ==>
      var moved := Processing(s)[FirstNamed(Processing(s), filename).value].(completedAt := Some(now));
      if success then
        && Completed(r) == KeepLast(Completed(s) + [moved], COMPLETED_CAP)
        && TotalProcessed(r) == TotalProcessed(s) + 1
        && Failed(r) == Failed(s) && TotalFailed(r) == TotalFailed(s)
      else
        && Failed(r) == KeepLast(Failed(s) + [moved], FAILED_CAP)
        && TotalFailed(r) == TotalFailed(s) + 1
        && Completed(r) == Completed(s) && TotalProcessed(r) == TotalProcessed(s)
    ensures forall k | k in s && k !in {COMPLETED, FAILED, TOTAL_PROCESSED, TOTAL_FAILED} :: r[k] == s[k]
  {
    StructuralKeysDistinct();
    match FirstNamed(Processing(s), filename)
    case None => s
    case Some(k) =>
      var entry := Processing(s)[k].(completedAt := Some(now));
      if success then Archive(s, COMPLETED, TOTAL_PROCESSED, entry, COMPLETED_CAP)
      else Archive(s, FAILED, TOTAL_FAILED, entry, FAILED_CAP)
  }

  /**
   * What `complete_file` does to the histories and totals: they are exactly
   * those of `ArchiveFirst`, so a matched file lands last in the list its
   * outcome selects, that list stays within its cap, and its total grows by one.
   */
  lemma CompleteFileArchives(s: Status, filename: string, success: bool, now: string)
    requires WellFormed(s)
    ensures var r := CompleteFile(s, filename, success, now);
      var a := ArchiveFirst(s, filename, success, now);
      && Completed(r) == Completed(a) && Failed(r) == Failed(a)
      && TotalProcessed(r) == TotalProcessed(a) && TotalFailed(r) == TotalFailed(a)
    ensures var r := CompleteFile(s, filename, success, now);
      FirstNamed(Processing(s), filename).Some? ==>
        var moved := Processing(s)[FirstNamed(Processing(s), filename).value].(completedAt := Some(now));
        var history := if success then Completed(r) else Failed(r);
        && |history| <= (if success then COMPLETED_CAP else FAILED_CAP)
        && |history| > 0 && history[|history| - 1] == moved
  {
    var r := CompleteFile(s, filename, success, now);
    var a := ArchiveFirst(s, filename, success, now);
    assert r == a[PROCESSING := Entries(WithoutName(Processing(s), filename))][LAST_ACTIVITY := Str(now)];
  }

  /** Appends `entry` to the list under `listKey`, keeps its last `cap` entries, and counts it in `totalKey`. */
  function Archive(s: Status, listKey: string, totalKey: string, entry: Entry, cap: nat): (r: Status)
    requires listKey in s && s[listKey].Entries? && totalKey in s && s[totalKey].Int? && listKey != totalKey
    requires cap > 0
    ensures r.Keys == s.Keys
    ensures r[listKey] == Entries(KeepLast(s[listKey].list + [entry], cap))
    ensures |r[listKey].list| <= cap && r[listKey].list[|r[listKey].list| - 1] == entry
    ensures r[totalKey] == Int(s[totalKey].i + 1)
    ensures forall k | k in s && k != listKey && k != totalKey :: r[k] == s[k]
  {
    var kept := KeepLast(s[listKey].list + [entry], cap);
    s[listKey := Entries(kept)][totalKey := Int(s[totalKey].i + 1)]
  }

  /** However long a history grows, completing a file never leaves more than the cap in the list it lands in. */
  lemma HistoriesStayCapped(s: Status, filename: string, success: bool, now: string)
    requires WellFormed(s) && |Completed(s)| <= COMPLETED_CAP && |Failed(s)| <= FAILED_CAP
    ensures var r := CompleteFile(s, filename, success, now);
      |Completed(r)| <= COMPLETED_CAP && |Failed(r)| <= FAILED_CAP
  {
    CompleteFileArchives(s, filename, success, now);
  }

  /** A file added and then completed is counted exactly once in the matching total, and no longer processing. */
  lemma AddThenComplete(s: Status, filename: string, fileId: Option<string>, success: bool, t1: string, t2: string)
    requires WellFormed(s)
    ensures var r := CompleteFile(AddProcessingFile(s, filename, fileId, t1), filename, success, t2);
      && (forall i | 0 <= i < |Processing(r)| :: Processing(r)[i].name != filename)
      && TotalProcessed(r) == TotalProcessed(s) + (if success then 1 else 0)
      && TotalFailed(r) == TotalFailed(s) + (if success then 0 else 1)
  {
    var a := AddProcessingFile(s, filename, fileId, t1);
    var n := |Processing(a)| - 1;
    assert Processing(a)[n].name == filename;
    var r := CompleteFile(a, filename, success, t2);
    CompleteFileArchives(a, filename, success, t2);
    forall i | 0 <= i < |Processing(r)| ensures Processing(r)[i].name != filename {
      assert Processing(r)[i] in Processing(r);
    }
  }

  // ---------------------------------------------------------------------
  // Countdown
  // ---------------------------------------------------------------------

  /** Python truthiness of a status value. */
  predicate Truthy(v: Value)
  {
    match v
    case Null => false
    case Bool(b) => b
    case Int(i) => i != 0
    case Str(t) => t != ""
    case Entries(l) => l != []
  }

  const MICROS_PER_SECOND := 1_000_000

  /**
   * `seconds_until_next_check`, present only when `next_check_time` is
   * truthy. `parse` turns an ISO time into microseconds (None when it does
   * not parse) and `now` is the current time in microseconds. The whole
   * seconds until the next check when it lies ahead, 0 when it is past or
   * does not parse.
   */
  function SecondsUntilNextCheck(nextCheckTime: Value, parse: string -> Option<int>, now: int): (r: Option<int>)
    ensures r.Some? <==> Truthy(nextCheckTime)
    ensures r.Some? ==> r.value >= 0
    ensures r.Some? && nextCheckTime.Str? && parse(nextCheckTime.s).Some? && parse(nextCheckTime.s).value > now ==>
      r.value * MICROS_PER_SECOND <= parse(nextCheckTime.s).value - now < (r.value + 1) * MICROS_PER_SECOND
    ensures r.Some? && !(nextCheckTime.Str? && parse(nextCheckTime.s).Some? && parse(nextCheckTime.s).value > now) ==> r.value == 0
  {
    if !Truthy(nextCheckTime) then None
    else if !nextCheckTime.Str? then Some(0)
    else match parse(nextCheckTime.s)
      case None => Some(0)
      case Some(next) => if next > now then Some((next - now) / MICROS_PER_SECOND) else Some(0)
  }
}
