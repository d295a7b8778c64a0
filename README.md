# Vault receiver: sync cycle, CSV artifact and local table

This project models the receiving side of the vault app in Dafny: the
`SyncManager` sync cycle, the CSV artifact it writes for each record, and the
Room table `vault_table` behind `MessageDao`.

- **The sync cycle** (`executeVacuum`).
  - The cycle fetches the remote queue `sys_sync_stream`.
  - For each fetched record in order, it validates the record, writes a CSV
    file, inserts a row into the local table and then deletes the record
    remotely by its `event_id`.
  - It catches any failure per record and continues with the next one.
- **The model of the cycle.** It is a class `Sync.SyncManager` that holds the
  remote queue, the artifact files (path to content) and a `Dao.MessageDao`.
  - Every effect of the network, the file system and the database is an input
    outcome: a `FetchOutcome`, and one `StepOutcome` per record telling whether
    the CSV write, the insert and the delete succeed.
  - The clock reading `HHmmss` is also an input.
  - The method `ExecuteVacuum` runs the cycle step by step, with a loop. It is
    proved equal to the pure specification `CycleState`/`CycleTrace`. The trace
    lists the effects the cycle performs and their outcomes (fetch, skip, CSV
    write, insert, remote delete), in order; it is not the log, which per record
    records only skips, completed deletes and caught errors.
  - The lemmas state the cycle's properties over that specification.
- **The artifact** (`createCsvFileOrThrow`). Its file name and content are
  string functions. Parsers give them partners, so each has a round-trip
  lemma.
- **The table** (`MessageEntity`, `MessageDao`).
  - Its state is its rows in primary-key order plus the AUTOINCREMENT mark
    (`sqlite_sequence`).
  - Its invariant has three parts: ascending, and therefore distinct, ids; at
    most one row per `supabase_id`; and ids within the counter.
  - `insert` follows SQLite's `INSERT OR REPLACE`:
    - every row clashing on the primary key or on the unique index is deleted;
    - an `id` of 0 makes the store generate one past the highest id ever used.
  - The two queries are functions over the current rows. The `LIKE` of
    `searchMessages` is modelled as SQLite defines it:
    - `%` and `_` are wildcards;
    - case folding is ASCII only.

Modules:
- `Optional` (`optional.dfy`): the option type for the nullable fields;
- `Entity`, `SqlLike` and `Dao` (`entity.dfy`, `like.dfy`, `dao.dfy`): the table;
- `Remote`, `Csv` and `Sync` (`remote.dfy`, `csv.dfy`, `sync.dfy`): the cycle.

Two things the code does not do, and the model does not claim:
- **Cycles are not isolated.** `executeVacuum` starts the cycle with
  `scope.launch` (SyncManager.kt:51) and returns at once, with no lock around
  it, so two cycles can overlap. The model runs one cycle at a time.
- **A failed remote delete is not retried or treated specially.** It is caught
  by the per-record `catch` (SyncManager.kt:93-96) after the row has been
  stored. The model takes such a delete to have removed nothing, so it keeps
  the record queued with its row already in the table.

## Model

| member | source | states |
|---|---|---|
| Sync.SyncManager.ExecuteVacuum | app/src/main/java/com/admin/vault/receiver/SyncManager.kt:50-107 | one cycle changes the queue, table and files exactly as `CycleState` says and emits the trace `CycleTrace`; the table invariant is kept |
| Sync.SyncManager.ProcessList | app/src/main/java/com/admin/vault/receiver/SyncManager.kt:65-97 | the `forEach` handles every fetched record in order, each in its own `try`; the resulting state is the fold `Drain` over the list and the trace the concatenation of the per-record traces |
| Sync.SyncManager.SyncRecord | app/src/main/java/com/admin/vault/receiver/SyncManager.kt:66-96 | one iteration: skip a record lacking id or timestamp, else write the CSV, insert, delete by event id, stopping at the first failure; state and events equal `ProcessRecord`/`RecordTrace` |
| Sync.ToEntity | app/src/main/java/com/admin/vault/receiver/SyncManager.kt:77-84 | the entity to insert has id 0 (left to the store), the record's event id, timestamp and the CSV path, and each of source, header and payload is the record's value when present and "Unknown", "No Header" or "" when null |
| Remote.WellFormed | app/src/main/java/com/admin/vault/receiver/SyncManager.kt:68 | a record is rejected exactly when its event id or its timestamp is null |
| Sync.Traces | app/src/main/java/com/admin/vault/receiver/SyncManager.kt:65-97 | the effects of a run over a list, record after record; every record contributes at least one event |
| Sync.RecordTrace | app/src/main/java/com/admin/vault/receiver/SyncManager.kt:66-96 | every record produces at least one event, and all its events carry its own position |
| Sync.ProcessRecord | app/src/main/java/com/admin/vault/receiver/SyncManager.kt:66-96 | processing one record keeps the table invariant (unique ids, unique remote ids, ids within the counter) |
| Sync.Drain | app/src/main/java/com/admin/vault/receiver/SyncManager.kt:65-97 | processing any list of records keeps the table invariant |
| Sync.CycleState | app/src/main/java/com/admin/vault/receiver/SyncManager.kt:50-107 | a whole cycle keeps the table invariant |
| Sync.FetchFailureChangesNothing | app/src/main/java/com/admin/vault/receiver/SyncManager.kt:57-58 | a failed fetch or decode ends in the outer catch: queue, table and files unchanged, and the only event is the connection error |
| Sync.EmptyFetchChangesNothing | app/src/main/java/com/admin/vault/receiver/SyncManager.kt:60-99 | an empty fetch result changes nothing and logs only "no new data" |
| Sync.EveryRecordProcessedInOrder | app/src/main/java/com/admin/vault/receiver/SyncManager.kt:65-97 | the trace starts with "found n", its per-record events appear in fetch order, and the events about record k are exactly those record k alone determines, so a failure in one record neither stops nor alters any later one |
| Sync.RecordEventsIndependent | app/src/main/java/com/admin/vault/receiver/SyncManager.kt:65-97 | over a run, the events about position k are exactly `RecordTrace` of record k and its own outcomes |
| Sync.TracesInFetchOrder | app/src/main/java/com/admin/vault/receiver/SyncManager.kt:65-97 | per-record events of a run appear in non-decreasing record position |
| Sync.MalformedRecordUntouched | app/src/main/java/com/admin/vault/receiver/SyncManager.kt:68-71 | a record missing its event id or timestamp yields only a "skipped" event (no CSV, insert or delete), and one missing its event id stays queued |
| Sync.DeleteOnlyAfterInsert | app/src/main/java/com/admin/vault/receiver/SyncManager.kt:74-90 | every remote delete request, whether it then succeeds or fails, comes directly after the same record's successful insert, which comes directly after its CSV write; and every event id deleted successfully has a row in the table after the cycle |
| Sync.TracesDeleteFollowsInsert | app/src/main/java/com/admin/vault/receiver/SyncManager.kt:74-90 | within a run, each delete request ("deleted" or "delete failed") is directly preceded by "inserted" for the same position (with the same key when the delete succeeded), and that by "CSV written" |
| Sync.DeletedKeyStored | app/src/main/java/com/admin/vault/receiver/SyncManager.kt:85-90 | an event id that was deleted remotely has a row in the local table after the run |
| Sync.DrainStoresWritten | app/src/main/java/com/admin/vault/receiver/SyncManager.kt:74-85 | a valid record whose CSV write and insert succeed leaves its event id in the table and its artifact among the files at the end of the run, whatever later records do |
| Sync.RecordRemote | app/src/main/java/com/admin/vault/receiver/SyncManager.kt:87-90 | only a record that went through every step changes the queue, and then by removing the records with its own event id |
| Sync.DrainRemovesOnlySynced | app/src/main/java/com/admin/vault/receiver/SyncManager.kt:87-90 | no record is added to the queue, and a record leaves it only if some fetched record with the same event id went through every step |
| Sync.DrainQueueCopies | app/src/main/java/com/admin/vault/receiver/SyncManager.kt:87-90 | counted with multiplicity, no copy of a record is added to the queue, and a record keeps all its copies unless some fetched record with its event id went through every step |
| Sync.NoRecordLost | app/src/main/java/com/admin/vault/receiver/SyncManager.kt:65-105 | for every fetch outcome, each queued record afterwards still has all its queued copies, or has its event id stored in the table |
| Sync.UnsyncedRecordStaysQueued | app/src/main/java/com/admin/vault/receiver/SyncManager.kt:87-96 | a record that did not go through every step stays queued, with all its copies, unless another record with the same event id did (at-least-once delivery) |
| Sync.RecordKeepsWhatExists | app/src/main/java/com/admin/vault/receiver/SyncManager.kt:66-96 | one record never removes a stored remote id or a file, never adds to the queue, and keeps every row's artifact present |
| Sync.DrainKeepsArtifacts | app/src/main/java/com/admin/vault/receiver/SyncManager.kt:74-85 | if every row points at an existing artifact before a run, it does after |
| Sync.RecordFiles | app/src/main/java/com/admin/vault/receiver/SyncManager.kt:73-74 | only a valid record whose CSV write succeeds changes the files, by writing its content at its artifact path |
| Sync.DrainFiles | app/src/main/java/com/admin/vault/receiver/SyncManager.kt:73-74 | the files after a run are the old ones plus exactly one path per valid record whose CSV write succeeded |
| Sync.CycleArtifacts | app/src/main/java/com/admin/vault/receiver/SyncManager.kt:73-74 | the same for a whole cycle, and rows keep pointing at existing artifacts |
| Sync.StoredRowMatchesRecord | app/src/main/java/com/admin/vault/receiver/SyncManager.kt:77-85 | the stored row has the record's event id, timestamp and artifact path, "Unknown"/"No Header"/"" for a null source/header/payload, a new highest local id, and is the only row with that event id; the artifact holds the record's content |
| Sync.ArtifactVersusRow | app/src/main/java/com/admin/vault/receiver/SyncManager.kt:79-81 | the artifact prints a null header or payload as `null` where the row holds "No Header" or ""; present fields agree |
| Sync.DrainTwo | app/src/main/java/com/admin/vault/receiver/SyncManager.kt:65-97 | a list of two records is processed first, then second |
| Sync.InsertIntoEmptyTable | app/src/main/java/com/admin/vault/receiver/data/MessageDao.kt:14-15 | the first insert into a new table stores the row under id 1 and sets the counter to 1 |
| Sync.ScenarioPath | app/src/main/java/com/admin/vault/receiver/SyncManager.kt:116-127 | a record with no source and event id "a1" at 12:00:00 is written to `<dir>/null_a1_120000.csv` |
| Sync.ScenarioFirstRecord | app/src/main/java/com/admin/vault/receiver/SyncManager.kt:66-96 | a valid record going through every step into an empty table yields one row with id 1, leaves the other queued record, and writes one file |
| Sync.EndToEndScenario | app/src/main/java/com/admin/vault/receiver/SyncManager.kt:50-107 | for the concrete records and outcomes it is given, a queue with a valid record and one lacking a timestamp ends, after a successful cycle, with one row for the first, only the second queued, and one artifact |
| Sync.PrefixStep | app/src/main/java/com/admin/vault/receiver/SyncManager.kt:65-97 | one more iteration extends the state and trace of the processed prefix by that record's step |
| Remote.WithoutId | app/src/main/java/com/admin/vault/receiver/SyncManager.kt:88-90 | the filtered delete removes every copy of each queued record whose event id equals the key and keeps every copy of every other record (counted as a multiset); a record without event id is never removed |
| Csv.FileName | app/src/main/java/com/admin/vault/receiver/SyncManager.kt:118 | the name starts with the source label (a null printed as `null`), ends in `.csv`, and is six characters longer than label, id and time together (two `_`, `.csv`) |
| Csv.ArtifactPath | app/src/main/java/com/admin/vault/receiver/SyncManager.kt:119-127 | the returned path is the vault directory, a `/`, then the file name; when neither the printed source label, the printed event id nor the time holds a `/`, nothing after that separator does, so the artifact lies directly in the vault directory |
| Csv.Content | app/src/main/java/com/admin/vault/receiver/SyncManager.kt:122-123 | the content starts with `Header,Message,Time\n`, ends with a double quote (no final newline), and adds exactly eight characters (six quotes, two commas) to the header line and the three printed fields |
| Csv.FileNameRoundTrip | app/src/main/java/com/admin/vault/receiver/SyncManager.kt:116-118 | the name `source_id_HHmmss.csv` (a null printed as `null`) reads back to its source, id and time, when the event id has no `_` (a UUID has none) and the time has six characters |
| Csv.FileNamesDistinct | app/src/main/java/com/admin/vault/receiver/SyncManager.kt:116-118 | under the same conditions, records differing in source, id or second get different file names |
| Csv.ContentRoundTrip | app/src/main/java/com/admin/vault/receiver/SyncManager.kt:121-125 | the content (header line, then the three quoted fields, null as `null`) reads back to header, payload and timestamp when none holds a double quote, since quotes are not escaped |
| Csv.ContentIsTwoLines | app/src/main/java/com/admin/vault/receiver/SyncManager.kt:122-123 | the content starts with `Header,Message,Time\n`, has no other newline when the fields have none, and ends with a quote (no trailing newline) |
| Csv.SplitAt | app/src/main/java/com/admin/vault/receiver/SyncManager.kt:123 | splitting at the first separator gives the parts around it, or none when the separator is absent |
| Csv.SplitAtLast | app/src/main/java/com/admin/vault/receiver/SyncManager.kt:118 | splitting at the last separator gives the parts around it, the second free of the separator, or none when the separator is absent |
| Csv.SplitAtLastJoin | app/src/main/java/com/admin/vault/receiver/SyncManager.kt:118 | joining two parts by a separator absent from the second splits back into them |
| Csv.SplitAtJoin | app/src/main/java/com/admin/vault/receiver/SyncManager.kt:123 | joining two parts by a separator absent from the first splits back into them |
| Csv.FieldRoundTrip | app/src/main/java/com/admin/vault/receiver/SyncManager.kt:123 | a quoted field without inner quotes reads back with the remaining text |
| Csv.RowRoundTrip | app/src/main/java/com/admin/vault/receiver/SyncManager.kt:123 | the data row of three quoted fields reads back to the three fields |
| Dao.InsertReplace | app/src/main/java/com/admin/vault/receiver/data/MessageDao.kt:14-15 | insert with REPLACE keeps the table invariant, stores the entity with its assigned id, keeps exactly the old rows clashing neither on id nor on `supabase_id`, and never lowers the counter |
| Dao.MessageDao.Insert | app/src/main/java/com/admin/vault/receiver/data/MessageDao.kt:14-15 | the table object's new state is `InsertReplace` of its old one, and the counter never decreases |
| Dao.MessageDao.DeleteAll | app/src/main/java/com/admin/vault/receiver/data/MessageDao.kt:26-27 | the table is left empty and the AUTOINCREMENT counter is kept, so ids are never reused |
| Dao.AssignedId | app/src/main/java/com/admin/vault/receiver/data/MessageEntity.kt:14 | the stored id is never 0, and for an entity with id 0 it exceeds every present id |
| Entity.TableInvariant | app/src/main/java/com/admin/vault/receiver/data/MessageEntity.kt:11-14 | in a table that keeps its constraints, a local id or a remote id identifies at most one row, and every id is non-zero and at most the AUTOINCREMENT counter |
| Dao.Clashes | app/src/main/java/com/admin/vault/receiver/data/MessageDao.kt:14 | the number of rows a REPLACE must delete is at most the row count, and zero exactly when no row has the new id or the new remote id |
| Dao.Purge | app/src/main/java/com/admin/vault/receiver/data/MessageDao.kt:14 | REPLACE's deletion keeps exactly the rows clashing neither on id nor on remote id, and removes as many rows as clash |
| Dao.PurgeKeepsInvariant | app/src/main/java/com/admin/vault/receiver/data/MessageEntity.kt:11-14 | deleting the clashing rows keeps ids ascending and remote ids unique |
| Dao.Place | app/src/main/java/com/admin/vault/receiver/data/MessageDao.kt:14 | inserting the new row with a fresh id keeps rows in ascending id order, adds exactly one row and keeps all others |
| Dao.PlaceKeepsKeysUnique | app/src/main/java/com/admin/vault/receiver/data/MessageEntity.kt:11 | adding a row whose remote id is absent keeps remote ids unique |
| Dao.AutoIdIsFreshAndHighest | app/src/main/java/com/admin/vault/receiver/data/MessageEntity.kt:14 | an entity with id 0 gets the counter plus one, which exceeds every present id, becomes the new counter, and the row becomes the last (highest) one, also when it replaces an older row |
| Dao.InsertNewKey | app/src/main/java/com/admin/vault/receiver/data/MessageDao.kt:14-15 | inserting a new remote id (with id 0 or an unused id) adds exactly one row and keeps every other row |
| Dao.InsertExistingKey | app/src/main/java/com/admin/vault/receiver/data/MessageDao.kt:11-15 | for an entity with id 0 (the only kind the cycle inserts), inserting an existing remote id keeps the row count, leaves exactly one row with that remote id carrying the new fields, and leaves rows with other remote ids as they were |
| Dao.InsertRowCount | app/src/main/java/com/admin/vault/receiver/data/MessageDao.kt:14-15 | any insert changes the row count by at most one, and an insert with id 0 leaves it unchanged or one larger |
| Dao.AutoInsertKeys | app/src/main/java/com/admin/vault/receiver/data/MessageDao.kt:14-15 | after an insert with id 0 the stored remote ids are the old ones plus the new one |
| Dao.ExplicitIdCanShrinkTable | app/src/main/java/com/admin/vault/receiver/data/MessageDao.kt:14-15 | an explicit id clashing with one row while its remote id clashes with another removes both |
| Dao.GetAllMessages | app/src/main/java/com/admin/vault/receiver/data/MessageDao.kt:22-23 | every row exactly once, ordered by id strictly descending |
| Dao.SearchMessages | app/src/main/java/com/admin/vault/receiver/data/MessageDao.kt:18-19 | exactly the rows whose source, payload or header matches the `LIKE` pattern, by id descending, as a subsequence of `getAllMessages` |
| Dao.KeepHits | app/src/main/java/com/admin/vault/receiver/data/MessageDao.kt:18 | the filter keeps exactly the matching rows, as a subsequence of its input |
| Dao.SubsequenceMembers | app/src/main/java/com/admin/vault/receiver/data/MessageDao.kt:18 | every row of a subsequence is a row of the whole |
| Dao.SubsequenceKeepsDescending | app/src/main/java/com/admin/vault/receiver/data/MessageDao.kt:18 | leaving rows out of a list ordered by descending id keeps it ordered, so `ORDER BY id DESC` survives the filter |
| Dao.SearchIsSubstringMatch | app/src/main/java/com/admin/vault/receiver/data/MessageDao.kt:18 | for a query without `%` or `_`, a row is found exactly when one of its three fields contains the query up to ASCII case |
| Dao.SearchEmptyIsAll | app/src/main/java/com/admin/vault/receiver/data/MessageDao.kt:18 | `searchMessages("")` equals `getAllMessages()` |
| SqlLike.Like | app/src/main/java/com/admin/vault/receiver/data/MessageDao.kt:18 | a pattern without `%` or `_` matches exactly the strings equal to it up to ASCII case, and `%` matches every string |
| SqlLike.PatternIsSubstringTest | app/src/main/java/com/admin/vault/receiver/data/MessageDao.kt:18 | `s LIKE '%' || q || '%'` holds exactly when the wildcard-free `q` occurs in `s` up to ASCII case |
| SqlLike.EmptyPatternMatchesAll | app/src/main/java/com/admin/vault/receiver/data/MessageDao.kt:18 | the pattern `'%%'` matches every string |
| SqlLike.Fold | app/src/main/java/com/admin/vault/receiver/data/MessageDao.kt:18 | `LIKE` folds case for ASCII letters only: the folded character is never an upper-case letter, and only upper-case letters change |

## Left out

- The UI is not part of this model:
  - the activity that starts a cycle every ten seconds and asks for storage permission;
  - the list adapter;
  - the search box.
- The database singleton and its destructive migration are not part of this model. They are library configuration and locking.
- The live `Flow` updates of the two queries are not modelled. The queries are one-shot reads of the current rows.
- Concurrency is not modelled. `executeVacuum` launches a coroutine and returns, so cycles can overlap, and the code has no lock. The model runs one cycle at a time, and it claims nothing about overlapping cycles.
- Some effects enter only as success or failure outcomes given to the cycle, not as code:
  - the Supabase client and JSON decoding;
  - `File`, `FileWriter` and `mkdirs`;
  - the toasts and the log.
- The vault directory and the clock reading (`HHmmss`) are parameters.
- A toast that itself throws inside the per-record catch would abort the rest of the cycle. This is not modelled: toasts are taken to succeed.
- Sync.SyncManager.ExecuteVacuum: the fetch returns the queue as it stands when the cycle starts. This leaves out:
  - records that other producers add during the cycle;
  - any reordering by the server.
- Sync.SyncManager.SyncRecord: a failed directory creation and a failed write are one outcome, `csvOk`. A failed write leaves the files unchanged. A partial or empty file left by a write that fails midway is not modelled.
- Sync.ProcessRecord: a failed insert leaves the table unchanged. SQLite's statement atomicity guarantees this; the model does not derive it. A delete that fails on the client is taken to have removed nothing on the server; a delete the server applied before the error reached the client is not modelled, so the "keeps all its copies" statements of Sync.UnsyncedRecordStaysQueued and Sync.DrainQueueCopies rest on that reading for such a record.
- Csv.ArtifactPath: the path is the plain concatenation of the directory, `/` and the file name. java.io.File's normalisation of the joined path (collapsing `//`, so that labels `a//b` and `a/b` name one file) is not modelled; a source label or event id holding `/` therefore gives a path in a subdirectory, and such labels can give two model paths for one device file.
- Dao.InsertReplace: local ids are unbounded integers. Kotlin's 64-bit `Long` and the store's failure once the AUTOINCREMENT counter reaches its maximum are not modelled.
- Dao.InsertRowCount: "unchanged or one larger" is proved only for an entity with id 0, the only kind the cycle inserts. An explicit id that clashes with one row while its remote id clashes with another removes two rows (Dao.ExplicitIdCanShrinkTable).
- Dao.SearchIsSubstringMatch: it states the substring reading only for queries without `%` or `_`. For other queries, `Dao.SearchMessages` is stated against the full `LIKE` matcher.
- Csv.FileNameRoundTrip: the file name reads back only when the event id has no `_`. Event ids are UUIDs, but the decoded type is any string, so the condition is stated rather than derived.
- Remote.WithoutId: the contract fixes how many copies of each record remain, not that the kept records keep their queue order. No property of the cycle depends on that order.
- Sync.ArtifactVersusRow: the round trip of the artifact assumes that no field contains a double quote. Quotes are not escaped, so such a field cannot be read back unambiguously.
- Unicode case folding is not modelled, because SQLite's built-in `LIKE` folds ASCII only.
