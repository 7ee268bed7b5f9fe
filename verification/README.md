# A verified model of the deployment example's RAG pipeline and agent helpers

This project models, in Dafny, the logic at the heart of a retrieval-augmented
agent deployment. The model covers these components:

- **File synchronisation.** The local-files watcher and the Google Drive
  watcher diff what the source currently holds against their `known_files`
  maps (file id to modification time). They ingest changed files into the
  documents table and delete the documents of removed files.
- **Pipeline sync manager.** After each local cycle it persists the known
  files in the pipeline-state table. It reconciles orphans, meaning documents
  whose file the source no longer reports.
- **Pipeline status aggregate.** The status served over HTTP, with its capped
  completed and failed histories.
- **Agent API helpers.**
  - The greeting detector, the title-generation rule, the conversation
    summary, the rate-limit predicate and the message record builder.
  - The search-result formatter, the embedding fallback, the similarity
    filter and the content truncation.
  - The read-only SQL guard.
- **MCP server registry.** Config validation, add, remove, start, stop and
  status, the connection retry loop, and the health-check error count.
- **Deployment script.** The `docker compose` command builder and its action
  selection.
- **Entry points.** The exit-status mapping of both pipeline entry points.

Modelling choices:

- Every entity is an immutable datatype, and every step is a pure function
  from the old state to the new state.
- The documents table is a sequence of rows tagged with a file id. The
  pipeline-state table is a map keyed by pipeline id.
- A watcher's collaborators are functions in an environment record:
  - the MD5 file id and MIME-type guessing;
  - reading and text extraction;
  - RAG ingestion and deletion;
  - Drive downloads and metadata lookups.

  They are deterministic, and which of them succeed is left open, so every
  property holds for every combination of successes and failures.
- A query that may fail is modelled with a flag saying whether it fails.
- Timestamps are strings, compared the way Python compares `str`:
  code-point lexicographic order (`Strings.LexLess`).

Modules:

- `Wrappers` and `Strings` hold shared helpers. `Strings` models Python's
  `strip`, `startswith` and `join`, and its `lower` and `upper` for every
  character whose case mapping holds an ASCII letter, multi-character
  results such as `ß` → `SS` included.
- `Utf8` is the UTF-8 codec behind `bytes.decode`.
- `DocumentStore` is the documents table.
- `SyncManager`, `LocalWatcher` and `DriveWatcher` are the synchronisation
  engine.
- `StatusServer`, `DbUtils`, `AgentTools`, `McpManager`, `Deploy` and
  `PipelineMain` are the smaller components.

## Model

| member | source | states |
|---|---|---|
| SyncManager.LoadPipelineState | rag_pipeline/common/sync_manager.py:28-59 | An existing row gives back its known files and both times. A missing row or a failing query gives empty known files and no times. |
| SyncManager.SavePipelineState | rag_pipeline/common/sync_manager.py:61-99 | On success only the pipeline's own row changes (update or insert), `last_run` becomes now, and `last_check_time` is overwritten only when one is supplied. Otherwise the previous value is kept, or it is None for a new row. A failing query changes nothing and reports false. |
| SyncManager.SaveThenLoad | rag_pipeline/common/sync_manager.py:28-99 | Loading right after a successful save returns exactly the saved known files and times. |
| SyncManager.GetAllDocumentFileIds | rag_pipeline/common/sync_manager.py:101-122 | The result is exactly the non-empty file ids that occur in some row. A failed query gives the empty set. |
| SyncManager.FindOrphanedDocuments | rag_pipeline/common/sync_manager.py:124-151 | The orphans are exactly the stored ids minus the current ids, so they never meet the current ids. A failed listing gives no orphans. |
| SyncManager.SyncDeletions | rag_pipeline/common/sync_manager.py:153-191 | `orphaned_found` is the number of orphans, and success plus failure equals `orphaned_found`. The table loses exactly the orphans whose delete succeeded; a failing delete does not stop the others. A failed listing deletes nothing. |
| SyncManager.ValidateSyncState | rag_pipeline/common/sync_manager.py:213-252 | `added` is current minus known and `deleted` is known minus current. `modified` is the ids in both whose read-back times differ. The three sets are pairwise disjoint. |
| SyncManager.ValidationPartitions | rag_pipeline/common/sync_manager.py:230-245 | An id of either map is reported in some set iff it is not present in both with equal times. |
| SyncManager.ValidationIgnoresRepresentation | rag_pipeline/common/sync_manager.py:241-242 | Storing a time bare or as `{"modifiedTime": t}` gives the same validation. |
| DocumentStore.FileIds | rag_pipeline/common/sync_manager.py:110-116 | The id set of a table is exactly the non-empty file ids carried by its rows. |
| DocumentStore.RemoveFiles | rag_pipeline/common/sync_manager.py:176-183 | Removing ids keeps exactly the rows tagged with other ids, and the id set loses exactly those ids. |
| DocumentStore.RemoveFilesTwice | rag_pipeline/common/sync_manager.py:176-183 | Removing two id sets in turn equals removing their union. |
| DocumentStore.DeleteByFileId | rag_pipeline/Local_Files/file_watcher.py:339-344 | Deleting by file id drops exactly the rows of that id, and the id set loses exactly that id. |
| DocumentStore.IndexFile | rag_pipeline/Local_Files/file_watcher.py:276-296 | A successful ingestion adds the (non-empty) id to the id set and leaves every row of other ids in place. |
| DocumentStore.DeleteAll | rag_pipeline/common/sync_manager.py:175-183 | Deleting a set of ids with isolated failures deletes exactly the ids whose delete does not fail. The deleted and failed counts add up to the set's size. |
| DocumentStore.DeleteEach | rag_pipeline/common/sync_manager.py:175-183 | The one-at-a-time deletion loop computes the same table, deleted set and failure count as the set-level `DeleteAll`. |
| LocalWatcher.GetFileMimeType | rag_pipeline/Local_Files/file_watcher.py:139-145 | The guessed MIME type, or `text/plain` when none is guessed. |
| LocalWatcher.ScanFiles | rag_pipeline/Local_Files/file_watcher.py:160-192 | A file is reported iff it and its directories are not hidden, its type is supported and it can be stat-ed. |
| LocalWatcher.ScanDirectory | rag_pipeline/Local_Files/file_watcher.py:153-192 | An unset or missing directory scans as empty. Every reported file is not hidden and has a supported type. |
| LocalWatcher.GetChanges | rag_pipeline/Local_Files/file_watcher.py:194-230 | A scanned file is changed iff its id is unknown or its time is strictly greater as a string. `deleted` is exactly the known ids absent from the scan, so it is disjoint from the scanned ids; an empty scan deletes every known id. |
| LocalWatcher.UnchangedNotReported | rag_pipeline/Local_Files/file_watcher.py:211-221 | A file whose time equals the known time is never reported changed. |
| LocalWatcher.BackdatedNotReported | rag_pipeline/Local_Files/file_watcher.py:211-221 | A file whose time is older than the known one is never reported changed. |
| LocalWatcher.ProcessFile | rag_pipeline/Local_Files/file_watcher.py:232-304 | True iff the file can be read, has text and RAG ingestion succeeds. Only then is `known_files[id]` set to its time and its id indexed; every failure leaves the state unchanged. |
| LocalWatcher.ProcessChanged | rag_pipeline/Local_Files/file_watcher.py:330-336 | The processed count is the number of files that ingest. The known ids grow by exactly their ids, and the times of other ids are unchanged. |
| LocalWatcher.ProcessChangedTimes | rag_pipeline/Local_Files/file_watcher.py:296 | After the processing pass, the last ingesting file of each id has its own modification time recorded as that id's known time. |
| LocalWatcher.ProcessChangedIndexes | rag_pipeline/Local_Files/file_watcher.py:330-336 | After the processing pass the table's id set grows by exactly the ids of the files that ingested. |
| LocalWatcher.ApplyChanges | rag_pipeline/Local_Files/file_watcher.py:330-347 | processed + (changed errors) = the number of changed files, and deleted + (delete errors) = the number of deleted ids. An id is known afterwards iff it was known or ingested and its delete did not succeed; untouched ids keep their times and the last ingesting file of each surviving id sets its time. The table's ids gain the (non-empty) ingested ids and lose exactly the successfully deleted ones. |
| LocalWatcher.CheckForChanges | rag_pipeline/Local_Files/file_watcher.py:306-377 | The cycle's counters, known ids and known times are as in `ApplyChanges` on the diff of the scan. The table's ids are those after ingestion and deletion, minus exactly the orphans (indexed but unknown ids) whose delete succeeds, and `orphaned_deleted` counts them; a failed listing removes no orphans. A successful save persists exactly the final known files. |
| LocalWatcher.Reconcile | rag_pipeline/Local_Files/file_watcher.py:348-363 | Orphan sync removes from the table exactly the indexed ids that are not known and whose delete succeeds, counting them as `orphaned_deleted`; a failed listing removes nothing. The known files and the other counters pass through, and a successful save persists the known files. |
| LocalWatcher.NoChangesNoWork | rag_pipeline/Local_Files/file_watcher.py:306-377 | A scan that matches the known files exactly gives a cycle with zero processed, zero deleted, zero errors and unchanged known files. |
| LocalWatcher.NothingChanged | rag_pipeline/Local_Files/file_watcher.py:194-230 | A scan matching the known files exactly yields no changed and no deleted files. |
| LocalWatcher.EmptyDirectoryCycle | rag_pipeline/Local_Files/tests/test_file_watcher.py:273-281 | An empty directory with nothing known and nothing indexed gives all-zero counters and stays empty. |
| LocalWatcher.MissingDirectoryForgetsEverything | rag_pipeline/Local_Files/file_watcher.py:157-159 | A missing directory reports every known id deleted. With succeeding deletes the cycle deletes all of them and leaves no known files and no indexed ids. |
| LocalWatcher.LoadConfig | rag_pipeline/Local_Files/file_watcher.py:57-91 | The watcher is initialized iff the config is readable and the persisted known files are non-empty, in which case they are adopted. Otherwise it starts empty. |
| LocalWatcher.InitialPass | rag_pipeline/Local_Files/file_watcher.py:397-413 | Every scanned id becomes known, whatever its processing returned, with the time of its last scanned file. Ids not scanned keep their times. |
| LocalWatcher.InitialPassIndexes | rag_pipeline/Local_Files/file_watcher.py:395-404 | Every scanned file is handed to `process_file`: the table ends holding the old ids plus the ids of the scanned files that ingest. |
| LocalWatcher.InitialScan | rag_pipeline/Local_Files/file_watcher.py:391-415 | An initialized watcher skips the scan. Otherwise the known ids grow by exactly the scanned ids, each with the time of its last scanned file, and the table gains exactly the ids of the scanned files that ingest. |
| LocalWatcher.PersistedStateSkipsInitialScan | rag_pipeline/Local_Files/file_watcher.py:81-85 | A readable config with non-empty persisted known files leaves the initial scan with nothing to do. |
| DriveWatcher.LoadLastCheckTime | rag_pipeline/Google_Drive/drive_watcher.py:54-101 | A stored time that parses is used. An unreadable config, a missing key or an unparsable value gives 1970-01-01T00:00:00.000Z. |
| DriveWatcher.ProcessFile | rag_pipeline/Google_Drive/drive_watcher.py:311-359 | A trashed file has its documents deleted and leaves the known files. An unsupported type, a failed download or empty text changes nothing. After a RAG attempt that does not raise, `known_files[id]` is set whether or not RAG succeeded. |
| DriveWatcher.CheckForDeletedFiles | rag_pipeline/Google_Drive/drive_watcher.py:361-398 | Empty known files give `[]`. Otherwise the result is exactly the known ids whose lookup shows them trashed or whose error mentions "File not found" or "404". |
| DriveWatcher.ProcessChanges | rag_pipeline/Google_Drive/drive_watcher.py:432-443 | processed + errors = the number of listed files. processed counts the files whose processing does not raise, and their ids are added to the known ids, trashed and unsupported files included. |
| DriveWatcher.ProcessChangesIndexes | rag_pipeline/Google_Drive/drive_watcher.py:325-352 | The processing pass changes the table's file ids as a per-file reference on id sets says: a trashed file's id leaves unless its delete raises, and a file whose RAG ingestion succeeds adds its (non-empty) id. |
| DriveWatcher.ProcessChangesTimes | rag_pipeline/Google_Drive/drive_watcher.py:432-443 | Ids no completing file touched keep their times. A completing last file's time is the recorded one. |
| DriveWatcher.CheckForChanges | rag_pipeline/Google_Drive/drive_watcher.py:400-464 | A failing listing is one error and changes nothing. Otherwise the counters are exact, an id is known afterwards iff it was known or completed and its gone-delete did not succeed, untouched ids keep their times, the last completing file of each surviving id sets its time, and the last check time becomes now. The table's ids are those the per-file reference gives, minus the successfully deleted gone ids. |
| DriveWatcher.GoneIdsStillKnown | rag_pipeline/Google_Drive/drive_watcher.py:445-457 | Every gone id is still known when the delete pass runs. |
| DriveWatcher.TrashedFileKnownAfterCycle | rag_pipeline/Google_Drive/drive_watcher.py:325-330 | A trashed file that was unknown before the cycle is known after it, because the cycle re-records it after `process_file` removed it; when it is the last completing file of its id, its time is the recorded one. |
| DriveWatcher.FailedRagStillRecorded | rag_pipeline/Google_Drive/drive_watcher.py:350-354 | A file whose RAG processing returns false, as the last completing file of its id, is still counted as processed and recorded with its time after the cycle. |
| DriveWatcher.RecordUntrashed | rag_pipeline/Google_Drive/drive_watcher.py:499-503 | The known ids grow by exactly the ids of the listed non-trashed files, each with the time of its last such file; other ids keep their times. |
| DriveWatcher.InitialScan | rag_pipeline/Google_Drive/drive_watcher.py:483-506 | An initialized watcher skips the scan. Otherwise exactly the non-trashed files are recorded, with their times, and the store and last check time are untouched. |
| StatusServer.Initial | rag_pipeline/status_server.py:16-32 | The initial status has empty lists, zero totals, status "initializing", interval 60 and no next check time. |
| StatusServer.Update | rag_pipeline/status_server.py:34-38 | Exactly the given keys are overwritten, every other key keeps its value, and `last_activity` is refreshed. |
| StatusServer.UpdateKeepsWellFormed | rag_pipeline/status_server.py:34-38 | An update that does not touch the lists and totals keeps them as they were. |
| StatusServer.AddProcessingFile | rag_pipeline/status_server.py:45-54 | Exactly one entry is appended to `files_processing`. The completed and failed lists and both totals are unchanged. |
| StatusServer.WithoutName | rag_pipeline/status_server.py:60 | The filtered list holds exactly the entries with another name, and is no longer than the original. |
| StatusServer.WithoutNameOfOne | rag_pipeline/status_server.py:60 | A single entry is kept iff its name differs. |
| StatusServer.WithoutNameConcat | rag_pipeline/status_server.py:60 | Filtering distributes over concatenation, so the kept entries stay in their original order. |
| StatusServer.CompleteFile | rag_pipeline/status_server.py:56-81 | Every processing entry with the name leaves the processing list and no other entry does; the list left is the name filter of the old one, so order and repeats follow `WithoutNameOfOne` and `WithoutNameConcat`. `last_activity` is refreshed, and keys other than the lists and totals keep their values. |
| StatusServer.ArchiveFirst | rag_pipeline/status_server.py:62-78 | Only the first entry with the name is moved, stamped with its completion time. On success it goes to completed (last 10 kept) and `total_processed` + 1, with failed and its total unchanged. On failure it goes to failed (last 5 kept) and `total_failed` + 1. With no match nothing changes. |
| StatusServer.CompleteFileArchives | rag_pipeline/status_server.py:56-81 | After `complete_file` the histories and totals are those of the archiving step. A matched file is the last entry of the list its outcome selects, and that list is within its cap. |
| StatusServer.HistoriesStayCapped | rag_pipeline/status_server.py:70-78 | Completing a file never leaves more than 10 completed or 5 failed entries. |
| StatusServer.AddThenComplete | rag_pipeline/status_server.py:45-81 | A file added then completed is no longer processing and is counted once in the matching total. |
| StatusServer.SecondsUntilNextCheck | rag_pipeline/status_server.py:98-116 | Present iff `next_check_time` is truthy, and never negative. When the next check is ahead it is the whole seconds until then; when it is past or unparsable it is 0. |
| DbUtils.MatchPatternIsReference | agent_api/db_utils.py:228-239 | The suffix-stripping matcher accepts a cleaned message iff it is a listed phrase followed by an allowed tail (`.`, and `?` for the question pattern). |
| DbUtils.IsSimpleGreetingIsReference | agent_api/db_utils.py:226-240 | `is_simple_greeting` holds iff the lower-cased, stripped message is a phrase of some pattern followed by one of that pattern's allowed tails. |
| DbUtils.GreetingIgnoresSurroundingSpace | agent_api/db_utils.py:236 | Leading or trailing whitespace never changes the verdict. |
| DbUtils.QuestionOnlyAfterHowAreYou | agent_api/db_utils.py:230 | A cleaned message ending in `?` is a greeting iff it matches the "how are you" pattern. |
| DbUtils.ShouldGenerateTitle | agent_api/db_utils.py:243-292 | A failed lookup gives (false, "Error checking title status"). Otherwise the result is true iff: not (count <= 2 and a greeting), and either no title with a non-greeting, or no title with count >= 6, or a title with count >= 10 and count % 8 == 0. |
| DbUtils.RetitleEveryEightMessages | agent_api/db_utils.py:285-286 | With a title the decision is true exactly at counts 16, 24, 32, and so on. |
| DbUtils.FirstSentence | agent_api/db_utils.py:308 | The first sentence is the longest prefix without a `.`, cut at the first `.`. |
| DbUtils.Topics | agent_api/db_utils.py:300-310 | At most one topic per item; every topic is the pick of some item, and every item's pick is among the topics (order: `TopicsOfOne` with `PickedConcat`). |
| DbUtils.HumanTopics | agent_api/db_utils.py:301-304 | No kept human message is a greeting, and every human message that is not a greeting is kept. |
| DbUtils.AiTopics | agent_api/db_utils.py:305-310 | Every kept AI first sentence is longer than 10 characters and has no `.`, and the first sentence of every AI message that is longer than 10 characters is kept. |
| DbUtils.TopicsOfOne | agent_api/db_utils.py:300-310 | A one-item history yields its content when it is a non-greeting human message, its first sentence when it is an AI message whose first sentence is longer than 10 characters, and nothing otherwise. |
| DbUtils.TopicsConcat | agent_api/db_utils.py:300-310 | Human and AI topic collection each distribute over concatenated histories. |
| DbUtils.PickedConcat | agent_api/db_utils.py:300-310 | Picking topics from `a + b` gives the topics of `a` followed by those of `b`. |
| DbUtils.SummaryOf | agent_api/db_utils.py:312-319 | "General conversation" iff both lists are empty. It starts with "User asked about: " iff there are human topics, and then with the whole human part. The text is the human part ("User asked about: " and the topics joined by "; "), the AI part ("Discussion included: " and its topics joined by "; "), or both joined by " \| ". |
| DbUtils.SummaryMentionsTopics | agent_api/db_utils.py:312-319 | Every given human and AI topic occurs in the summary text. |
| DbUtils.GenerateConversationSummary | agent_api/db_utils.py:295-319 | "General conversation" iff the history has neither human nor AI topics. With human topics the summary starts with "User asked about: " and the first three of them joined by "; "; with only AI topics it is "Discussion included: " and the first two joined by "; ". |
| DbUtils.SummaryMentionsFirstTopics | agent_api/db_utils.py:300-319 | The first three human topics and the first two AI topics of a history all occur in its summary. |
| DbUtils.SummaryDependsOnFirstTopics | agent_api/db_utils.py:313-317 | Two histories with the same first three human topics and first two AI topics have the same summary. |
| DbUtils.SummarySettles | agent_api/db_utils.py:315-317 | Once 3 human topics and 2 AI topics exist, later messages never change the summary. |
| DbUtils.CheckRateLimit | agent_api/db_utils.py:165-194 | Allowed iff the count query succeeds and the count is below the limit. A failed query is never allowed. |
| DbUtils.RateLimitMonotone | agent_api/db_utils.py:191 | Fewer requests or a higher limit never turns an allowed request into a refused one. |
| DbUtils.DefaultRateLimit | agent_api/db_utils.py:165 | With the default limit 5, a first request is allowed and a sixth is not. |
| DbUtils.StoreMessage | agent_api/db_utils.py:117-162 | `data` and `files` are included, unchanged, exactly when given and non-empty, and `message_data` exactly when non-empty, as its UTF-8 decoding. Undecodable bytes or a failing insert give HTTP 500. |
| DbUtils.StoredTextRoundTrips | agent_api/db_utils.py:156-157 | Storing the UTF-8 encoding of a non-empty text stores that very text. |
| Utf8.DecodeEncode | agent_api/db_utils.py:157 | Decoding the UTF-8 encoding of any string gives the string back. |
| Utf8.EncodeDecode | agent_api/db_utils.py:157 | Bytes that decode are exactly the UTF-8 encoding of the decoded text. |
| Utf8.DecodeIffEncode | agent_api/db_utils.py:157 | `bs` decodes to `s` iff `s` encodes to `bs`. |
| Utf8.EncodeCharLeads | agent_api/db_utils.py:157 | The encoding of a character starts with a lead byte announcing its own length and decodes back to the character. |
| Strings.LexLessIrreflexive | rag_pipeline/Local_Files/file_watcher.py:219 | No time string is strictly greater than itself. |
| Strings.LexLessAsymmetric | rag_pipeline/Local_Files/file_watcher.py:219 | Two time strings are never each greater than the other. |
| Strings.LexLessTotal | rag_pipeline/Local_Files/file_watcher.py:219 | Two different time strings are always ordered one way or the other. |
| Strings.Strip | agent_api/db_utils.py:236 | The stripped string is a contiguous slice with no whitespace at either end, and everything of the input before and after that slice is whitespace. |
| Strings.JoinContains | agent_api/db_utils.py:315-317 | Every part occurs in the joined text. |
| Strings.StripLeadingSpace | agent_api/db_utils.py:236 | A leading whitespace character does not survive `strip`. |
| Strings.StripTrailingSpace | agent_api/db_utils.py:236 | A trailing whitespace character does not survive `strip`. |
| Strings.LowerConcat | agent_api/db_utils.py:236 | `lower` works character by character: the lowercase of a concatenation is the concatenation of the lowercases. |
| Strings.UpperConcat | agent_api/tools.py:349 | `upper` works character by character: the uppercase of a concatenation is the concatenation of the uppercases. |
| AgentTools.BraveSearch | agent_api/tools.py:47-118 | An error gives "Error performing search: …". An empty list gives the fixed "No results found for query: …" message. Otherwise the first at most 5 results are shown, numbered from 1. |
| AgentTools.SearchShowsFirstFive | agent_api/tools.py:103 | Results past the fifth never change the output. |
| AgentTools.GetEmbedding | agent_api/tools.py:120-141 | The service's vector, or on failure 1536 zeros. |
| AgentTools.FallbackPassesDimensionCheck | agent_api/tools.py:141-170 | The fallback vector passes the 1536-dimension check. |
| AgentTools.RelevantChunks | agent_api/tools.py:192-193 | The kept chunks are exactly those with similarity at least 0.5, a missing score counting as 0. |
| AgentTools.RelevantChunksOfOne | agent_api/tools.py:192-193 | A single chunk is kept iff its similarity is at least 0.5. |
| AgentTools.RelevantChunksConcat | agent_api/tools.py:192-193 | Filtering distributes over concatenation, so the kept chunks stay in their original order. |
| AgentTools.FilterBySimilarity | agent_api/tools.py:191-199 | When some chunk reaches similarity 0.5, exactly those chunks are kept, in order; otherwise all chunks are kept. |
| AgentTools.TruncateContent | agent_api/tools.py:212-220 | Content of at most 600 characters is unchanged. Longer content is cut to 600 characters, then cut after the last `.` when it lies beyond index 400, else suffixed with "...". The result never exceeds 603 characters. |
| AgentTools.SearchWholeWord | agent_api/tools.py:352-353 | The loop finds a whole-word occurrence iff one exists. |
| AgentTools.FirstWholeWord | agent_api/tools.py:351-354 | Returns None iff no word of the list occurs as a whole word. Otherwise it returns the first one in list order that does. |
| AgentTools.FindWriteOperation | agent_api/tools.py:344-354 | The same, for the nine write keywords in the upper-cased, stripped query. |
| AgentTools.ExpandedUppercaseShowsKeyword | agent_api/tools.py:345-354 | `inserẗ` uppercases to `INSERT` and a combining diaeresis, which is no word character, so INSERT occurs as a whole word and the guard rejects the query. |
| AgentTools.GuardSqlQuery | agent_api/tools.py:344-361 | The query is forwarded (stripped) iff no write keyword occurs as a whole word, case-insensitively. Otherwise the first keyword in list order that occurs is named in the rejection message. |
| McpManager.RangeFailures | agent_api/mcp_manager.py:89-92 | Each of the four fields is reported out of range iff its value lies outside its bounds; nothing else is reported. |
| McpManager.ValidateConfig | agent_api/mcp_manager.py:84-107 | Valid iff retry_attempts ∈ [0,10], retry_delay ∈ [1,60], health_check_interval ∈ [10,300] and timeout ∈ [1,60], SSE and HTTP have a URL, and stdio has a command. Each out-of-range field is reported iff it is out of range, all together, before the transport check; with all in range, a missing URL or command is the one failure. |
| McpManager.StartServer | agent_api/mcp_manager.py:235-282 | True iff the server is known, enabled, its subprocess (if any) starts and a connection is made. Then it is CONNECTED with error count 0, a connection and a health task. A raising subprocess or connection gives ERROR and error count + 1. Unknown or disabled servers change nothing. |
| McpManager.StopServer | agent_api/mcp_manager.py:284-327 | Unknown gives false. Otherwise the health task goes; the connection goes and the status becomes DISCONNECTED, unless closing the connection raises, which gives false with the connection kept. |
| McpManager.RestartServer | agent_api/mcp_manager.py:329-333 | A restart succeeds only by leaving the server connected with a health task. A failed restart after a clean stop leaves no connection. |
| McpManager.AddServer | agent_api/mcp_manager.py:335-358 | An existing name gives false and no change. Otherwise the server is registered and, when enabled and auto-started, the result is that of starting it. |
| McpManager.RemoveServer | agent_api/mcp_manager.py:360-382 | Unknown gives false. Otherwise true, the name leaves the servers and the health tasks, and it leaves the connections unless closing the connection raised. |
| McpManager.AddThenRemove | agent_api/mcp_manager.py:335-382 | Adding then removing a new server (clean close) restores the servers and connections. |
| McpManager.GetServerStatus | agent_api/mcp_manager.py:416-430 | None iff the name is unknown. Otherwise the report carries the name, the configured transport and `enabled`, the server's status and error count, and `connected` holds iff the name has a connection. |
| McpManager.AddedServerReportsConnected | agent_api/mcp_manager.py:335-430 | A new enabled auto-start server that connects reports CONNECTED, connected and zero errors. |
| McpManager.CreateConnection | agent_api/mcp_manager.py:472-525 | Zero attempts give no connection. Otherwise it connects iff the transport has its URL or command and, for SSE with a health client, some attempt's probe succeeds. It connects at the first successful attempt, and after the last failed attempt it raises. |
| McpManager.HealthCheckStep | agent_api/mcp_manager.py:527-569 | A dead subprocess gives UNHEALTHY and a restart. For SSE with a URL and client, 200 gives CONNECTED with error count 0, and anything else gives UNHEALTHY with error count + 1. A restart is asked for iff the count reaches 3. |
| McpManager.ThreeFailuresRestart | agent_api/mcp_manager.py:549-564 | From a clean state the third consecutive failed probe, and not an earlier one, asks for a restart. |
| Deploy.DeployStack | deploy.py:44-92 | The command begins `docker compose -p <project> -f <file of the mode>`; an unknown mode or missing file exits 1. `--profile with-rag` follows iff requested for up, down or logs. It ends with the action's words. |
| Deploy.CommandLayout | deploy.py:47-92 | The command is `docker compose -p <project> -f <file>`, then `--profile with-rag` exactly when requested, then the action's words; the length is counted exactly. |
| Deploy.StatusNeverHasProfile | deploy.py:90-92 | `ps` never carries the profile. |
| Deploy.UpRebuildsDetached | deploy.py:71-76 | `up` ends with `up -d --build`. |
| Deploy.CommandDeterminesRequest | deploy.py:44-92 | Reading a built command back recovers the project, the mode, the action and (except for ps) the RAG flag. |
| Deploy.SelectAction | deploy.py:210-217 | down, then logs, then ps, otherwise up. |
| Deploy.Main | deploy.py:125-220 | Missing Docker, `.env` or `docker-compose.yml` exits 1, and every exit is 1. With all three present and a mode whose compose file exists, the command runs with that file and ends with the words of the selected action; a `--down` run ends with `down`. |
| PipelineMain.RunWatcher | rag_pipeline/Google_Drive/main.py:37-71 | A single run calls `check_for_changes` once and never the watch loop, exiting 1 iff there were errors and 0 otherwise. A keyboard interrupt exits 0 and any other exception exits 2. |
| PipelineMain.DriveMain | rag_pipeline/Google_Drive/main.py:33-35 | The watch loop runs iff neither `--single-run` nor `RUN_MODE=single` is given. |
| PipelineMain.LocalMain | rag_pipeline/Local_Files/main.py:45-77 | The check is called once iff `--single-run` is given, and then the watch loop is not entered. |
| PipelineMain.ExitStatuses | rag_pipeline/Local_Files/main.py:63-77 | The exit status is always 0, 1 or 2. A single run exiting 0 means no errors or an interrupt. |
| PipelineMain.RunModeActsAsFlag | rag_pipeline/Google_Drive/main.py:33-35 | `RUN_MODE=single` behaves exactly like `--single-run`, and with the flag given `RUN_MODE` is irrelevant. |

## Left out

- I/O and external services are parameters or flags:
  - the file system walk and `stat`;
  - JSON config reads and writes;
  - the Supabase queries;
  - the Google Drive API and OAuth;
  - downloads;
  - text extraction, chunking and embedding;
  - the HTTP probes and subprocesses of the MCP manager;
  - running `docker compose`.
- Which of these succeed is left open, so every property holds for every combination of outcomes.
- Clocks are parameters (`now`). Durations, sleeps, threads, locks, asyncio tasks and the HTTP status handler are not modelled.
- `LocalWatcher.CheckForChanges`: writing the JSON config file is not modelled. `save_config` catches its own exceptions and only prints them (rag_pipeline/Local_Files/file_watcher.py:121-131), so a failed write changes no counter. The pipeline-state save is modelled, and its failure leaves the table unchanged.
- `LocalWatcher.ProcessFile`: the MD5 file id is an uninterpreted deterministic function; its 32-character length is not stated.
- `LocalWatcher.ProcessFile`: a RAG ingestion that fails is taken to leave the documents table untouched. The ingestion module (`common/db_handler.py`, which deletes a file's rows before inserting new ones) is not part of this model, so the rows a failed ingestion may have removed are not tracked.
- `DriveWatcher.ProcessFile`: likewise, a RAG ingestion that returns false or raises is taken to leave the documents table untouched; `DriveWatcher.ProcessChangesIndexes` and `DriveWatcher.CheckForChanges` state the table's ids under that reading.
- `DriveWatcher.ProcessFile`: text extraction is assumed not to raise; only the RAG call and the trashed-file delete may raise.
- `StatusServer.SecondsUntilNextCheck`: time is in integer microseconds, whereas the source uses floating-point `total_seconds()` truncated by `int`. ISO parsing is a parameter.
- `PipelineStatus.get` returns a shallow copy of the dictionary (rag_pipeline/status_server.py:43). Its lists and entry dictionaries are shared with the live status, which later appends and stamps in place (lines 53, 65, 68, 74), so a snapshot taken earlier can change afterwards. The model has values only; this aliasing is not modelled, and `get` has no member.
- `Strings.Lower` and `Strings.Upper`: a character whose lowercase or uppercase holds no ASCII letter is left as it is, where Python maps it to other non-ASCII characters. Such characters can never be part of a greeting phrase or an SQL keyword, which are ASCII, so the verdicts do not depend on which non-ASCII characters they become; whether they count as word characters next to a keyword is the difference listed under `AgentTools.GuardSqlQuery`. Python's final-sigma rule in `lower` only chooses between two non-ASCII sigmas and is not modelled.
- `AgentTools.GuardSqlQuery`: word boundaries treat only ASCII letters, digits and `_` as word characters. Python's `\b` on `str` also counts non-ASCII letters and digits.
- `AgentTools.FilterBySimilarity`: similarity scores are exact reals, not floating point. The LLM, vision and search calls in the tools module are not modelled.
- `McpManager.CreateConnection`: the retry delay sleep is not modelled. Subprocess start, probes and connection closing are represented by their outcomes.
- `McpManager.HealthCheckStep`: one loop iteration is modelled and returns whether a restart is requested; the restart that follows is not. When the health task itself calls `restart_server`, `stop_server` cancels that very task (agent_api/mcp_manager.py:301-303). The cancellation lands at the task's next suspension point, at the latest the one-second sleep (line 332), and the loop's `CancelledError` handler (lines 566-567) ends it. So a restart the health check asks for never reaches `start_server`, and when closing the connection suspends, `stop_server` itself is cut short there. `McpManager.RestartServer` models a restart called from outside the health task.
- `McpManager.GetServerStatus`: the report leaves out `last_health_check` (agent_api/mcp_manager.py:428). Health-check times come from the clock, which the model does not have.
- `McpManager`: `initialize`, `shutdown`, `load_config`, `save_config`, `get_active_toolsets` and `get_all_servers_status` are not modelled. They are configuration-file I/O and iteration over the operations above.
- `PipelineMain.RunWatcher`: the watch loop catches a keyboard interrupt itself and returns (rag_pipeline/Google_Drive/drive_watcher.py:522-523, rag_pipeline/Local_Files/file_watcher.py:434-435). An interrupt during the loop therefore ends as `Finished`, and `main` returns without calling `sys.exit`; `Interrupted` covers only one that arrives before the loop starts.
- `Deploy.Main`: argument parsing is not modelled (`--mode` is restricted to dev and prod by argparse). Command echoing and the notes printed after deployment are not modelled either.
