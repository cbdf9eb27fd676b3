# Verified model of the manyfaced honeypot cores

manyfaced is a honeypot: many sensor faces capture what bots send, ship each capture to a server, and
store it for a dashboard. This project models the stateful cores of that pipeline in Dafny 4.11 and
proves what they keep.

| area | files | the question answered |
|---|---|---|
| SQLite capture store | `Records`, `CaptureStore`, `CaptureStoreProofs`, `CaptureRecords` | can an accepted capture vanish, over any run of inserts, archives, failures and crashes |
| PostgreSQL store | `PostgresStore`, `PostgresThreads` | what a retried insert leaves behind under any driver failure, alone and among other threads |
| backend singleton | `StorageSingleton` | can two threads end up with two backends, or wait for ever |
| dashboard reads | `Dashboard`, `Aggregates` | do filters, pages and totals agree with the table |
| SSH credential parser | `SshFrames` | does the walker recover what a client encoded |
| supervisor | `Supervisor` | when does a crash loop end the service |
| caches and rate limit | `Lru`, `GeoCache`, `ProfileCache`, `GeoRate` | are two different cache codings one LRU; is the request limit kept |
| batch jobs | `Backfill`, `Etl` | do cut, resumed and repeated runs equal one pass |
| bot profile | `BotProfile` | bounded windows and a monotone escalation level |
| connections | `Connections`, `Credentials` | one attribution in three branches; credentials over split frames |
| report delivery | `ReportSender` | retries, pauses, message framing |
| schema and backups | `SchemaParser`, `SchemaMigration`, `Backups` | column parsing, resumable migration, copy retention |

`Wrappers`, `Text` and `TextOrder` hold an Option type, the string operations the others share with what they mean
position by position, and the order of texts with what it means for numbers and moments. State the source
updates in place is a class whose methods are proved against a pure step function; the lemmas are about
that function. The database, sockets, the clock, child processes and failures enter as parameters: a
script of outcomes, a real number, or a function from an attempt to what happens.

Run `dafny verify dfyconfig.toml` with `--resource-limit 2000000 --verification-time-limit 0`.

Where a natural claim is false of the code, the code is kept, and a lemma gives the exact condition:

- Archiving lists a row as archived before the archive commit. An error that rolls that transaction back,
  or an id issued again after a crash, then deletes a row that no archive holds.
- `scripts/enrich_historical.py` stops a dry run after its first batch; its progress count is the full one
  only if that batch held everything.
- `scripts/migrate_sqlite_to_postgres.py` passes rows keyed `bot_ip`, while the field extraction reads
  `ip`; copied rows have an empty address and collide on the timestamp. Seven more columns are renamed the
  same way and arrive empty, among them the raw request and the detected id.
- Threads that insert through one PostgreSQL storage check, reset and open its connection outside the lock.
  Two that find no connection, or one that fails beside another, can lose a record without a trace.
- The rate limiter's timestamp does not move when a lookup raises, and it is shared without a lock, so that
  lookups that overlap read the same one. The documented 45 requests a minute hold for one thread whose
  lookups complete; with n threads up to 45 * n lookups a minute complete.
- A user name with a colon behind its first character passes for a complete pair before the password came.
- The column parser drops a column whose name starts with UNIQUE or is followed at once by a comma, and takes
  the first word of a FOREIGN KEY or CONSTRAINT line for a column.
- Pruning never matches the copies of a database named by a bare file name, so its copies pile up.
- The geolocation lookup takes every 172.x address for a private one, also those outside 172.16.0.0/12.
- A line that begins with `pa`, a sharp s and a blank upper-cases to PASS and a blank and is heard as a
  password, without its first character.
- A percent sign or an underscore inside a search term or host is not escaped and matches as a wildcard.
- A report counts as sent whatever status the server answers with.

## Model

| member | source | states |
|---|---|---|
| `CaptureStore.SqliteStorage.Insert` | manyfaced/db/storage.py:912-975 | The insert call: what the five attempts leave in the table, and that the record is dumped exactly when all five met a lock and the dump file works; a closed store or a record whose fields do not convert changes nothing |
| `CaptureStore.SqliteStorage.ArchiveOldRecords` | manyfaced/db/storage.py:1030-1144 | The copy loop, archive commit, delete and main commit give exactly the abstract archive step for every per-row fate and every way the call can end; a path is returned only by a call that finished and archived something |
| `CaptureStoreProofs.InsertOutcome` | manyfaced/db/storage.py:934-975 | Accepted iff the first attempt that meets no lock succeeds; given up iff all five meet a lock; every other error drops the record |
| `CaptureRecords.LostIff` | manyfaced/db/storage.py:912-975 | A record is in neither the table nor the dump iff its key was not there before, and its fields do not convert, or no attempt got past its execute and it was not dumped after five locks |
| `CaptureRecords.DurableIff` | manyfaced/db/storage.py:934-975 | Right after the call the key is committed iff it was or the insert was accepted; with the next accepted insert so is whatever a failed commit had left in the open transaction |
| `CaptureStoreProofs.InsertKeeps` | manyfaced/db/storage.py:934-975 | Under any lock and commit failures an insert loses no safe key, keeps the id discipline, makes an accepted key safe, and commits nothing unless it is accepted |
| `CaptureStoreProofs.CrashIsHarmlessIff` | manyfaced/db/storage.py:1081-1138 | From the state after a crash on, every ordinary run keeps every key it accepts if and only if no archive holds an id that only the lost transaction had issued; otherwise one insert and one finished archive call lose a key |
| `CaptureStoreProofs.ArchiveVisibleIff` | manyfaced/db/storage.py:1081-1138 | An archive call that deletes keeps every key in the main table or an archive if and only if no row it counted as archived was rolled back again with its key in no archive |
| `CaptureStoreProofs.ArchiveKeeps` | manyfaced/db/storage.py:1030-1144 | Whatever way the call ends, the id discipline and the safety of every key survive it under the guard for that ending |
| `CaptureStoreProofs.ArchiveRemovesOnlyCopiedOldRows` | manyfaced/db/storage.py:1081-1138 | The rows that leave the main table are exactly the archived ones; rows whose timestamp does not sort before the cutoff stay, and none enters |
| `TextOrder.DigitsInOrder` | manyfaced/db/storage.py:1081-1084 | For texts of as many digits, the order of the texts is the order of the numbers they denote |
| `TextOrder.MomentsInOrder` | manyfaced/db/storage.py:1050-1084 | For two moments written as %Y-%m-%d %H:%M:%S.%f, one text comes before the other iff the one moment is earlier, unit by unit |
| `CaptureStoreProofs.RowsFromTheCutoffOnStay` | manyfaced/db/storage.py:1081-1138 | In time: a row stamped at or after the moment of the cutoff stays in the main table, whichever rows were copied and however the call ends; a crash takes it only if it was not committed |
| `CaptureStoreProofs.ArchiveSplitsAtTheCutoff` | manyfaced/db/storage.py:1050-1144 | In time: when all copies succeed and the call finishes, a row stays iff its moment is not earlier than the cutoff, and one that leaves has its key in an archive |
| `CaptureStoreProofs.ArchivedBodyKeptIff` | manyfaced/db/storage.py:1094-1106 | A copied row reaches the archive unchanged iff the archive had no row of its key (or this very row): the body of a key captured again after archiving is dropped |
| `CaptureStoreProofs.AcceptedKeysSurvive` | manyfaced/db/storage.py:912-1144 | Over any run of inserts, archives, row failures, failed commits and crashes that meets the guards, every key accepted on the way stays in the main table or in an archive |
| `CaptureStoreProofs.OrdinaryRunsAreGuarded` | manyfaced/db/storage.py:1030-1144 | The guards hold by themselves when no copy loop is rolled back and only committed rows are archived |
| `CaptureStoreProofs.FreshStoreLosesNothing` | manyfaced/db/storage.py:912-1144 | A store that starts empty and runs that way never loses an accepted key |
| `CaptureRecords.FirstBodySurvives` | manyfaced/db/storage.py:912-1144 | After an insert is accepted, every ordinary run keeps a row of its key with the body that came first: an archived one, else one already in the table, else the record's own |
| `CaptureRecords.PendingBodyGoesFirst` | manyfaced/db/storage.py:934-975 | That first body can be one of an insert that was never accepted: its commit failed, and the next insert of the key commits it |
| `CaptureStoreProofs.RollbackLosesAnAcceptedKey` | manyfaced/db/storage.py:1094-1138 | Counterexample: an error that rolls the archive transaction back after a row was listed as archived loses that row's key |
| `CaptureStoreProofs.ReusedIdLosesAnAcceptedKey` | manyfaced/db/storage.py:1094-1138 | Such a state is reached: a row archived from an uncommitted transaction, a crash, its id issued again, and the next row of that id is deleted unarchived |
| `CaptureStoreProofs.TakenIdLosesTheRow` | manyfaced/db/storage.py:1094-1138 | A row whose id an archive already gave to another key is counted as archived by INSERT OR IGNORE, deleted, and found nowhere |
| `Records.EscapedTextIsNulFree` | manyfaced/db/sql_builder.py:118-126 | No NUL reaches a TEXT column |
| `Records.EscapeIsIdentityIffNulFree` | manyfaced/db/sql_builder.py:118-126 | Escaping changes a text iff it holds a NUL |
| `Records.ColumnIsStored` | manyfaced/db/sql_builder.py:142-226 | Key and fields of a stored row hold, column by column, what the extraction computed |
| `Records.OnlyReadKeysMatter` | manyfaced/db/sql_builder.py:142-226 | Records that agree on the keys read and on the parsed request are stored alike, whatever else they hold |
| `Records.ReportIsStored` | manyfaced/db/dbconnect.py:36-62 | Every part of a report that comes in is stored in the column of its name and in no other: path as path, command as command, numbers as they are, text with NULs escaped, no hive id, a missing profile as NULL |
| `Records.EscapeReplacesEachNul` | manyfaced/db/sql_builder.py:118-126 | Each NUL becomes the four characters of its escape, and what stands around it is escaped on its own |
| `Records.ShownNumberConverts` | manyfaced/db/sql_builder.py:174-217 | A number written as text converts back to itself |
| `Records.ConvertsIff` | manyfaced/db/sql_builder.py:174-217 | A text converts to a number iff it is a numeral, bare or behind one sign |
| `Records.FallbacksFillIn` | manyfaced/db/sql_builder.py:142-182 | A key of the parsed request goes before the record's own, an older key counts when the newer one is missing, and a port that is missing or no number is 0 |
| `PostgresStore.PostgresStorage.Insert` | manyfaced/db/storage.py:1816-1868 | The whole call under any driver behaviour: the new connection, table and dump, with at most two execute attempts |
| `PostgresStore.InsertOutcome` | manyfaced/db/storage.py:1816-1868 | Exactly: the key is in the table iff it was or a statement was applied; the record is dumped iff nothing raised, nothing committed cleanly and the dump works; never two rows per key, also after a commit that was applied but reported an error |
| `PostgresStore.EveryCaptureIsKept` | manyfaced/db/storage.py:1816-1868 | Every run of calls one after the other: with convertible records and a working dump file each record is in the table or the dump at the end, one row per key |
| `PostgresThreads.NothingIsLostIff` | manyfaced/db/storage.py:1697-1868 | Concurrent calls on the shared connection: in every interleaving every record ends up in the table or the dump if and only if there is at most one call, or the connection is there from the start and the driver never fails |
| `PostgresThreads.RacingConnectsLose` | manyfaced/db/storage.py:1816-1835 | Without a connection two calls can each open one; the first then executes on its own, commits on the other, and returns with nothing stored or dumped |
| `PostgresThreads.ResetLoses` | manyfaced/db/storage.py:1830-1841 | A reset by a failing call between the execute and the commit of another makes that one raise, its record neither stored nor dumped |
| `PostgresThreads.EnsuresAlone` | manyfaced/db/storage.py:1697-1722 | _ensure_connected step by step, exactly: a connection that answers the probe is kept, any other is dropped with what was pending on it, and a new one is opened and set up, or there is none |
| `PostgresThreads.CallAlone` | manyfaced/db/storage.py:1816-1868 | A call that is left alone, whatever connection and driver do, exactly: it ends with the lock free, its record is in the table iff a statement it got to was applied, in the dump iff none succeeded |
| `PostgresThreads.CallAloneIsInsert` | manyfaced/db/storage.py:1816-1868 | Refinement: left alone, a call of the step-by-step model is the insert of the sequential model, with the same record in the table and in the dump and the same connection |
| `PostgresThreads.EveryCallEnds` | manyfaced/db/storage.py:1816-1868 | Liveness: in any interleaving and whatever the driver does, n calls make at most nineteen steps each, and when none can move any more every one has returned or raised |
| `PostgresThreads.StepKeepsLock` | manyfaced/db/storage.py:1829-1850 | In every interleaving the lock is held exactly by the call between its execute and its commit |
| `PostgresThreads.CommitCoversTheConnection` | manyfaced/db/storage.py:1690-1694 | A commit is the connection's: whoever makes it, the setup of the tables included, stores every row pending on it |
| `PostgresStore.LostIff` | manyfaced/db/storage.py:1816-1868 | A record is lost iff its fields do not convert, or no statement was applied and the dump failed |
| `StorageSingleton.OneBackendForAll` | manyfaced/db/storage.py:2415-2455 | Any number of threads, any interleaving, failing constructors included: at most one backend is built and every call that returns, returns it |
| `StorageSingleton.StepKeepsInv` | manyfaced/db/storage.py:2437-2455 | Every single read, write and lock step keeps the locking invariant |
| `StorageSingleton.PublishedStays` | manyfaced/db/storage.py:2437-2455 | Once published the instance never changes and no other is built |
| `StorageSingleton.CallAlone` | manyfaced/db/storage.py:2415-2455 | A call that finds the lock free and is left alone, exactly: it returns the backend there is in two steps, builds and returns one in six, or, when the constructor raises, leaves the lock free and no backend behind |
| `StorageSingleton.EveryCallEnds` | manyfaced/db/storage.py:2437-2455 | Liveness: in any interleaving the calls under way make at most five more steps each, and when none can move any more all have ended: there is no deadlock |
| `StorageSingleton.EndsWithTheBackend` | manyfaced/db/storage.py:2437-2455 | A call ends by returning the one backend, unless it is its own constructor that raises |
| `Dashboard.AppendSearchMethodClauses` | manyfaced/db/storage.py:93-135 | The helper appends fragments and parameters to both lists together |
| `Dashboard.BuildQuery` | manyfaced/db/storage.py:1148-1231 | The clause and parameter lists both read methods build |
| `Dashboard.BuiltQuerySelectsMatches` | manyfaced/db/storage.py:93-135 | As many parameters as placeholders, each bound where it belongs; under three-valued logic the WHERE is true of exactly the rows the filter asks for |
| `Dashboard.MethodsPartitionRow` | manyfaced/db/storage.py:129-135 | A row passing the other filters passes exactly one of GET, POST and OTHER, NULL commands included |
| `Dashboard.MethodsPartitionLog` | manyfaced/db/storage.py:129-135 | The GET, POST and OTHER logs together are the whole log as multisets, and their counts add up |
| `Dashboard.QuerySelectsWanted` | manyfaced/db/storage.py:93-135 | With SQLite's LIKE, its wildcards and case folding written out: for plain terms the query selects exactly the rows that hold the host in the raw text and the search term in one of the seven columns, wherever it stands and in whatever case, and whose command is the verb in any case, or neither GET nor POST |
| `Dashboard.TermIsLiteralIff` | manyfaced/db/storage.py:93-127 | Wrapped in percent signs a term finds exactly the texts that contain it, for every text, iff it holds neither % nor _: they are not escaped |
| `Dashboard.IdleTermsAreIgnored` | manyfaced/db/storage.py:42-84 | A host under three characters, a search under two, or either with a leading wildcard leaves the query as it is without it |
| `Dashboard.SinceInTime` | manyfaced/db/storage.py:1181-1183 | A window that starts at a moment holds exactly the rows stamped then or later |
| `Dashboard.NewestFirstInTime` | manyfaced/db/storage.py:1197 | No row of a log is older, in time, than a row listed after it |
| `Dashboard.PagesTileTheLog` | manyfaced/db/storage.py:184-205 | Pages at offsets 0, L, 2L, ... up to the clamp are, end to end, the beginning of the ordered filtered log, without gap or overlap |
| `Dashboard.CountIsLength` | manyfaced/db/storage.py:1208-1249 | The total of count_recent is the number of rows listed, and those are exactly the rows of the table that match |
| `Dashboard.PagesShowTheWholeLog` | manyfaced/db/storage.py:1148-1249 | For any order the engine gives equal timestamps: when the pages up to the clamp have room for the total, end to end they are the whole log, newest first, with exactly the matching rows |
| `Dashboard.PageRows` | manyfaced/db/storage.py:184-205 | Row by row: a page holds the rows from its start on, as many as the limit allows and the log has; an offset below zero counts as zero, one beyond 100 000 (or beyond a larger limit) as that bound, and a negative limit is none |
| `Dashboard.ReachableIff` | manyfaced/db/storage.py:184-188 | A row can be paged to iff it lies before that bound plus one page |
| `Aggregates.SplitCountsDetected` | manyfaced/db/storage.py:1264-1273 | detected counts exactly the rows is_detected accepts, undetected all others including NULL ids, and they sum to total |
| `Aggregates.ServiceRowsCount` | manyfaced/db/storage.py:1305-1319 | A by_service row counts exactly the captures whose id has that name; the row unknown also those whose id has none, NULL ids among them |
| `Aggregates.ServiceCounts` | manyfaced/db/storage.py:1305-1319 | The Counter loop gives each label the sum over the groups that map to it, and no other labels; when the groups are those of the window, the by_service rows are the groups of the mapped labels and sum to the total |
| `Aggregates.ByServiceGroupsTheLabels` | manyfaced/db/storage.py:1305-1319 | However the rows of the Counter are ordered, they are what GROUP BY on the mapped label would return, and their counts sum to the number of rows |
| `Aggregates.TwoStagesCountLabels` | manyfaced/db/storage.py:1305-1319 | Grouping by id and then summing by label counts, for every label, the rows whose id maps to it |
| `Aggregates.GroupingCoversTotal` | manyfaced/db/storage.py:1318-1323 | The counts of any GROUP BY sum to the number of rows, so the volume series covers the total |
| `SshFrames.ParseBinaryProtocol` | manyfaced/client/ssh_creds.py:76-110 | The walker loop on every byte string: stays in range, terminates, and returns what the recursive walk finds |
| `SshFrames.ParseUserAuthRequest` | manyfaced/client/ssh_creds.py:113-153 | The request parser with its reassigned position equals the recursive reading, of which the next two rows say what it reports |
| `SshFrames.ReportsPasswordIff` | manyfaced/client/ssh_creds.py:113-153 | On every payload: a user and a password are reported iff the payload is the user's string, a service (or what is left of one), then the method "password", a flag of 1 and the password's string |
| `SshFrames.ReportsUserIff` | manyfaced/client/ssh_creds.py:113-153 | On every payload: the user alone is reported iff its string can be read and no such password stands where the method name is looked for |
| `SshFrames.ReadStringAt` | manyfaced/client/ssh_creds.py:119-127 | A string read never leaves the buffer; a failed one leaves the position behind the length |
| `SshFrames.RequestRoundTrip` | manyfaced/client/ssh_creds.py:113-153 | Parsing any encoded password request gives back the user, and the password iff the flag byte is 1 |
| `SshFrames.NoiseIsSkipped` | manyfaced/client/ssh_creds.py:84-91 | Bytes at which no length from 1 to 4096 can be read are stepped over one by one |
| `SshFrames.BannerIsSkipped` | manyfaced/client/ssh_creds.py:76-110 | No offset inside a NUL-free banner is taken for a packet |
| `SshFrames.OtherPacketsAreSkipped` | manyfaced/client/ssh_creds.py:76-110 | Any number of complete packets other than message 50 is stepped over exactly |
| `SshFrames.CaptureRoundTrip` | manyfaced/client/ssh_creds.py:76-153 | Banner, packets, request, padding and trailing bytes encoded, then parsed: exactly the encoded user and password |
| `SshFrames.OtherMethodRoundTrip` | manyfaced/client/ssh_creds.py:76-153 | Through the whole walker: a request for any other method, whatever follows it, or one that ends before its method does, is reported by its user alone |
| `SshFrames.OtherMethodIsNoPassword` | manyfaced/client/ssh_creds.py:136-150 | Every encoded method name but "password", with anything after it, is such a request |
| `SshFrames.CutPacketReportsNothing` | manyfaced/client/ssh_creds.py:84-96 | A capture that breaks off anywhere inside a packet reports nothing |
| `Supervisor.Supervise.LookAt` | manyfaced/mfh.py:217-271 | One child's turn as the source makes it: reset, cool-down, exit or restart |
| `Supervisor.Supervise.Loop` | manyfaced/mfh.py:247-272 | The supervise loop is the run of rounds over the three children, until one gives up; started afresh it exits iff some round finds a child dead after its tenth restart without a healthy look in between |
| `Supervisor.RunKeepsInv` | manyfaced/mfh.py:212-272 | Every run: attempts stay in 0..10, equal the recorded restarts, and restart k+1 comes at least min(2^k, 30) s after restart k |
| `Supervisor.GivesUpOnlyAfter210Seconds` | manyfaced/mfh.py:217-236 | Giving up needs ten restarts in a row and 210 s since the first of them |
| `Supervisor.ExitNeedsACrashLoop` | manyfaced/mfh.py:247-272 | If a round ends the service, some configured child was dead with ten restarts and 210 s behind it |
| `Supervisor.ExitsIff` | manyfaced/mfh.py:212-272 | From the start, over every run: while the service runs, the restarts on the books of a child are exactly those since it was last seen alive; and the service ends iff some child is found dead half a minute or more after its tenth restart with no look in between that saw it alive |
| `Supervisor.FewDeathsNeverExit` | manyfaced/mfh.py:247-272 | A run in which no child is found dead eleven times between two looks that see it alive never ends the service |
| `Supervisor.BackoffSchedule` | manyfaced/mfh.py:212-236 | The waits after the restarts are 2, 4, 8 and 16 seconds, then 30 each |
| `Supervisor.DeadChildEndsTheService` | manyfaced/mfh.py:212-272 | Liveness: from any state a child found dead round after round, a second apart at least, ends the service within 211 rounds, or 210 once it has been restarted, whatever the other two do |
| `Supervisor.DeadChildEndsTheServiceWithin210Rounds` | manyfaced/mfh.py:212-272 | In particular at most 210 rounds after its first restart |
| `Lru.CacheIsLeastRecentlyUsed` | manyfaced/common/geolocate.py:190-206 | After every trace of stores, hits and deletes: at most cap entries, each with the last value stored, ordered by last touch, and a touched key that was not deleted is missing only if cap distinct others were touched since |
| `Lru.PresentIffNotOutrun` | manyfaced/handlers/base_handler.py:171-203 | Without deletions a key is present iff it was touched and fewer than cap distinct others were touched since |
| `Lru.NextEvent` | manyfaced/common/geolocate.py:190-206 | One more store, hit or delete on the dict is one more event of the abstract cache |
| `Lru.PutAfterTrimming` | manyfaced/common/geolocate.py:196-206 | Deleting the key, trimming to cap - 1 and inserting is the abstract store |
| `GeoCache.Cache.LookupIpGeolocation` | manyfaced/common/geolocate.py:93-141 | A hit is unexpired, returns the last stored result and makes it newest; anything else returns empty strings and queues a public address |
| `GeoCache.Cache.LookupSyncCached` | manyfaced/common/geolocate.py:274-311 | The blocking lookup has the same hits but they do not count as a use |
| `GeoCache.Cache.StoreGeo` | manyfaced/common/geolocate.py:190-206 | A store is the abstract store with an expiry, and the size stays within the cap |
| `GeoCache.PrivateIff` | manyfaced/common/geolocate.py:120-121 | Which dotted addresses are never looked up: 10.x, 172.x, 192.168.x and 127.0.0.1 |
| `GeoCache.PrefixTestIsRightIff` | manyfaced/common/geolocate.py:120-121 | That agrees with the private ranges of RFC 1918 and loopback unless the address begins with 172 and lies outside 172.16.0.0/12 |
| `ProfileCache.HandlerProfiles.GetOrCreateProfile` | manyfaced/handlers/base_handler.py:171-203 | A known address gets the very object stored for it and becomes newest; an unknown one gets a fresh profile stored under the cap |
| `ProfileCache.HandlerProfiles.GetProfile` | manyfaced/handlers/base_handler.py:256-267 | A lookup that finds the address is a use; one that does not changes nothing |
| `ProfileCache.HandlerProfiles.ClearProfile` | manyfaced/handlers/base_handler.py:274-279 | Exactly the named profile goes |
| `GeoRate.Limiter.BeginLookup` | manyfaced/common/geolocate.py:149-155 | Clock and timestamp are read and the thread sleeps if it must: its request goes out no earlier than it called and no earlier than one delay after the completion it read |
| `GeoRate.Limiter.EndLookup` | manyfaced/common/geolocate.py:156-187 | The shared timestamp moves to the end of a request, and only if it did not raise |
| `GeoRate.ThreadIsSpaced` | manyfaced/common/geolocate.py:144-187 | In every interleaving the completions of one thread are a delay apart, whatever the others do to the timestamp |
| `GeoRate.AtMost45CompletionsAThread` | manyfaced/common/geolocate.py:144-187 | In every interleaving of n threads, whatever the call times and durations, a half-open minute holds at most 45 * n lookups that complete without raising |
| `GeoRate.RequestLimitIff` | manyfaced/common/geolocate.py:144-187 | For n threads that share the timestamp, the documented limit on requests holds for every timing iff there are at most 45 lookups, or n is 1 and none but the last raises |
| `Backfill.Backfiller.ClassifyRow` | scripts/enrich_historical.py:166-193 | One row classified; an address is looked up once and then comes from the cache |
| `Backfill.Backfiller.Batch` | scripts/enrich_historical.py:263-287 | The rows of a batch up to the limit, and that it fails exactly when the faulty UPDATE is among them |
| `Backfill.Backfiller.Turn` | scripts/enrich_historical.py:245-292 | One SELECT, seen-set, batch and commit: how far it gets, when it ends the loop, and exactly when it fails |
| `Backfill.Backfiller.Run` | scripts/enrich_historical.py:196-316 | Terminates for every batch size and limit; fails exactly when it gets to the faulty UPDATE, commit or read, and then exactly the rows committed before stay classified; otherwise exactly the first Goal NULL rows are; a dry run writes nothing; no address is looked up twice |
| `Backfill.EndsWhere` | scripts/enrich_historical.py:245-316 | From any point of a run between two batches: which operations it still gets to, and what is committed when it fails there |
| `Backfill.WholeBatchesRoundDown` | scripts/enrich_historical.py:245-301 | What is left of a run by a faulty UPDATE is the greatest multiple of the batch size up to its row, and nothing for a negative batch |
| `Backfill.FullRunIsTheMap` | scripts/enrich_historical.py:251-302 | For every batch size a full run is one pass of the per-row map over the NULL rows, other rows unchanged |
| `Backfill.RowsHoldWhatTheyAreClassifiedBy` | scripts/enrich_historical.py:166-193 | Row by row: the verdict of a classified row is the classifier's on the very reverse DNS, organisation, ASN and agent that now stand in it; the two network signals come from the lookup iff the row had an address and neither signal; classified rows are left alone |
| `Backfill.RunsCompose` | scripts/enrich_historical.py:251-302 | A run of a rows and then one of b rows is one of a + b rows |
| `Backfill.ResumedRunIsAFullRun` | scripts/enrich_historical.py:251-302 | A cut or interrupted run followed by a full one gives the table of one full run, and a further run changes nothing |
| `Backfill.DryRunCountsAllIff` | scripts/enrich_historical.py:256-268 | A dry run reports all pending rows iff they fit in its first batch |
| `Etl.Migrate` | scripts/migrate_sqlite_to_postgres.py:47-116 | The copy loop under any driver behaviour: the target is what one insert call per visible row, in order and each once, makes of it; it copies up to the reach of batch and limit, or stops with the exception of the first row whose hive_id is not integral; when the driver connects it raises iff there is such a row within reach |
| `Etl.ConvertsIff` | manyfaced/db/sql_builder.py:159-217 | A row dict converts iff its hive_id does: it has no column the detected id is read from |
| `Etl.CopiedRowsAreKept` | scripts/migrate_sqlite_to_postgres.py:96-112 | Whatever the driver does, every inserted row is in the target or in the dump |
| `Etl.CleanRunIsCopyAll` | scripts/migrate_sqlite_to_postgres.py:96-112 | With a working driver the inserts are the plain copy, first come first kept |
| `Etl.RerunMakesGood` | scripts/migrate_sqlite_to_postgres.py:96-112 | A run under any driver followed by a clean one has the keys of one clean run, each once, so that what was only dumped has come in |
| `Etl.Turn` | scripts/migrate_sqlite_to_postgres.py:72-112 | One page: its inserts, the advance of the keyset or offset, and the three ways to stop |
| `Etl.KeysetVisitsAllIff` | scripts/migrate_sqlite_to_postgres.py:72-90 | Keyset and offset paging visit the same sequence iff every id is positive |
| `Etl.ReachBounds` | scripts/migrate_sqlite_to_postgres.py:72-112 | An unlimited run copies everything; a limited one at most max(limit - 1, 0) + batch rows |
| `Etl.RerunChangesNothing` | scripts/migrate_sqlite_to_postgres.py:96-112 | A partial run followed by a full one, or a repeated run, gives the target of one full run |
| `Etl.CopiedAddressIsEmpty` | manyfaced/db/sql_builder.py:142-144 | The copied key has an empty address: the row is keyed bot_ip, the extraction reads ip |
| `Etl.ColumnArrivesIff` | manyfaced/db/sql_builder.py:142-165 | A column reaches the target unchanged, up to emptiness and NUL escaping, for every row, if and only if its own name is a key the extraction reads |
| `Etl.UnreadColumnIsEmpty` | manyfaced/db/sql_builder.py:142-165 | The other eight (address, raw request, user agent, country, continent, traceroute, DNS name, detected id) arrive empty or NULL in every row |
| `Etl.EveryRowSurvivesIff` | scripts/migrate_sqlite_to_postgres.py:96-112 | Every visited row gets a row of its own iff the timestamps alone tell them apart and none is taken already |
| `BotProfiles.BotProfile.Record` | manyfaced/handlers/bot_profile.py:102-113 | A request is appended, the oldest popped beyond 500, and the analysis runs |
| `BotProfiles.BotProfile.RecordDialogue` | manyfaced/handlers/bot_profile.py:115-177 | An interaction is appended with its sequence number, the oldest popped beyond 500; behaviours and level stay as they are |
| `BotProfiles.BotProfile.Capture` | manyfaced/handlers/bot_profile.py:285-298 | Captured credentials add their behaviour and may raise the level |
| `BotProfiles.WindowsAreTheLatest` | manyfaced/handlers/bot_profile.py:102-177 | After any calls the history is the last 500 requests in order, and the dialogue the last 500 interactions in order, where the k-th interaction ever made carries sequence min(k, 501) |
| `BotProfiles.SequenceNumbersTellApartIff` | manyfaced/handlers/bot_profile.py:152-177 | The numbers tell the entries of a dialogue apart if and only if no more than 501 interactions were ever made |
| `BotProfiles.LevelIsTheLargestWeight` | manyfaced/handlers/bot_profile.py:230-298 | The behaviours are exactly those some call showed and the level is their largest weight |
| `BotProfiles.LevelIgnoresOrder` | manyfaced/handlers/bot_profile.py:270-283 | Level and behaviours depend only on which calls were made, not on order or repetition |
| `BotProfiles.LevelOnlyRises` | manyfaced/handlers/bot_profile.py:270-283 | The level never falls and never takes the value 4 |
| `BotProfiles.DetectedIff` | manyfaced/handlers/bot_profile.py:230-268 | Which requests show which behaviour, by where the patterns stand in any case: SQL and file patterns in path or raw text, command patterns in the raw text alone, two separate pairs of dots in the path, login words in the path of a POST, listed paths at its beginning |
| `BotProfiles.EntryShowsTheExchange` | manyfaced/handlers/bot_profile.py:115-177 | A dialogue entry shows both sides of the exchange, each where it belongs: up to 5000 characters in full, of a longer text the first 5000 and its length |
| `Connections.HandleNonHttpConnection` | manyfaced/client/client.py:588-873 | Every connection yields one report, or none exactly in the listed failures. In all three branches it carries the first frame and the id that frame calls for, said without the sniffer: an HTTP frame the Next.js id iff one of the four marks stands in it; a frame that begins with a verb or header of a protocol, followed by a blank or nothing, that protocol's sentinel iff the face is not its own, else the face's own id; an empty frame is stamped empty in the exact cases the code does. A server-first face reports the captured login iff the frame is neither HTTP nor of a foreign protocol |
| `Connections.SnifferIsRight` | manyfaced/client/client.py:167-195 | The sniffer names the protocol whose verb or header begins the frame, and none for a frame that speaks none; verbs of different protocols never meet |
| `Connections.AttributionIsRight` | manyfaced/client/client.py:198-213 | The decision the branches share gives every frame the id it calls for |
| `Connections.ClientFirstExchange` | manyfaced/client/client.py:671-763 | The client-first branch: one report unless the first reply fails to send or the extractor raises; login is the first offer, reply all replies in order |
| `Connections.LaterFrames` | manyfaced/client/client.py:692-719 | The loop over at most 64 further frames: what it offers, replies and when it raises |
| `Connections.LoginIsTheFirstFind` | manyfaced/client/client.py:689-760 | The login of an exchange is what the extractor finds on the first frame it finds anything on, and none iff it finds nothing; an empty find counts as none |
| `Connections.RepliesAreTheAnswers` | manyfaced/client/client.py:671-719 | The reply of a report is the face's answers to the frames one after the other; a missing or raising handler answers nothing, and neither is an empty first frame answered |
| `Connections.RoundsAre` | manyfaced/client/client.py:692-719 | The loop reads frames until one is empty, the extractor raises on one, an answer is not sent, or 64 are read |
| `Connections.UnreportedIff` | manyfaced/client/client.py:588-719 | No report iff the greeting is not sent, or on a client-first face the first answer is not sent or the extractor raises on a frame that is read |
| `Credentials.ExtractCredentials` | manyfaced/client/cred_extractors.py:20-38 | The line fold: the last USER and the last PASS argument, formatted |
| `Credentials.CaptureCredentials` | manyfaced/client/client.py:279-367 | The accumulation loop over the seed and the received frames in order, at most 16 frames and 8192 bytes; an empty result gives way to the plain-text capture |
| `Credentials.SplitUndoesSent` | manyfaced/client/cred_extractors.py:68-81 | Splitting sent lines gives the lines back for both terminators |
| `Credentials.CollectsThePair` | manyfaced/client/client.py:285-312 | From any point of the exchange on, every line-boundary split ends with "u:p" |
| `Credentials.EverySplitYieldsPairIff` | manyfaced/client/client.py:279-367 | Every split over the seed and up to 16 frames yields exactly "u:p", whatever the plain-text capture would find, iff PASS comes before USER or the name has no colon behind its first character |
| `Credentials.SplitBeforePassword` | manyfaced/client/client.py:285-298 | Counterexample family: with such a colon the split before the password line stops early |
| `Credentials.PlainLinesAreHeard` | manyfaced/client/cred_extractors.py:68-81 | Trimmed non-empty USER and PASS arguments are read back exactly |
| `Credentials.HeardIff` | manyfaced/client/cred_extractors.py:68-81 | On every line: a user name is heard iff the trimmed line begins with USER and a blank in any case, a password iff it begins with PASS and a blank or with pa, a sharp s and a blank, whose upper case is the same text; the argument is what follows five characters |
| `Credentials.SharpPassLosesACharacter` | manyfaced/client/cred_extractors.py:68-81 | Counterexample family: behind the sharp s, one character short, the first character of the password is lost |
| `Credentials.CaptureIsBounded` | manyfaced/client/client.py:279-367 | Only the first sixteen frames count, and a frame that would take the text past 8192 characters ends the exchange |
| `SchemaParser.ParseTargetColumns` | scripts/migrate_db.py:42-72 | The two parser loops compute the names of the lines between the first parenthesis and its match; no parenthesis is the ValueError |
| `SchemaParser.PrintedSchemaParsesIff` | scripts/migrate_db.py:42-72 | For every schema printed one declaration per line, each beginning with an identifier, bare or quoted, and with balanced parentheses: the parser returns the first words of exactly the lines that read as columns (a blank or nothing follows the word, and the line does not begin with UNIQUE or PRIMARY KEY); those are the declared columns in order if every line reads right, and only if, unless a column is named like a constraint's first word |
| `SchemaMigration.Migration.Migrate` | scripts/migrate_db.py:186-227 | The columns after the run and the exit code for every backup result, failing connection and refused ALTER |
| `SchemaMigration.CompletesIff` | scripts/migrate_db.py:211-218 | All missing columns are added iff no ALTER is refused and no name clashes with another in SQLite's case-blind comparison |
| `SchemaMigration.SecondRunAddsNone` | scripts/migrate_db.py:205-218 | A finished run holds existing plus target columns and a second run has nothing to add |
| `SchemaMigration.InterruptedRunIsMadeGood` | scripts/migrate_db.py:211-218 | A run cut between ALTERs, then a full one, gives the columns and the order of one full run |
| `Backups.BackupDirectory.Prune` | scripts/migrate_db.py:75-103 | Exactly the excess copies whose removal is not refused go; when none is refused, each stamped copy that goes carries a smaller number than each one that stays |
| `Backups.MatchesIff` | scripts/migrate_db.py:85-86 | Pruning sees the path itself followed by a dot, fourteen digits, .bak and perhaps one newline, and no other name |
| `Backups.NamesInOrder` | scripts/migrate_db.py:87 | The names it sees sort by the numbers in their stamps |
| `Backups.BackupDirectory.Backup` | scripts/migrate_db.py:106-183 | What is in the directory and what is returned for every keep, missing source, full disk, refused removal and failing copy |
| `Backups.EntryOfPath` | scripts/migrate_db.py:78-93 | Where a copy is listed: beside the database, and for a bare file name under ./ |
| `Backups.OwnCopiesAreSeenIff` | scripts/migrate_db.py:85-92 | Pruning recognises the copies a run writes iff the path has a directory part ending in one slash; otherwise it matches nothing at all |
| `Backups.PruneLeavesExactly` | scripts/migrate_db.py:87-93 | Unrefused pruning leaves min(keep, number of copies) copies |
| `Backups.PruneKeepsTheNewest` | scripts/migrate_db.py:87-93 | The number in the stamp of a copy that goes is smaller than that of a copy that stays |
| `Backups.BackupLeavesTheNewest` | scripts/migrate_db.py:75-134 | With a clock that is not set back, each copy an unrefused backup removes carries a smaller number than each one it leaves, its own included |
| `Backups.BackupKeepsAtMostIff` | scripts/migrate_db.py:75-134 | From every starting directory an unrefused backup with keep = k > 0 leaves at most k stamped copies if and only if the path is directory-qualified (or k is no less than the number of stamps); with any other path k copies become k + 1 |
| `Backups.UnqualifiedPathPrunesNothing` | scripts/migrate_db.py:85-93 | With a bare or doubly slashed path no copy is ever excess, whatever keep is |
| `ReportSender.Sender.SendReport` | manyfaced/client/report_sender.py:80-126 | The retry loop: at most five attempts, the pauses between them, and exactly one of sent, dumped or raised |
| `ReportSender.PausesAreBounded` | manyfaced/client/report_sender.py:80-109 | The pauses are the first n of 2, 4, 8, 16 s and 30 s together at most |
| `ReportSender.DumpedIffAllFail` | manyfaced/client/report_sender.py:81-118 | Dumped iff all five attempts meet a socket failure; any answer counts as sent |
| `ReportSender.MessageRoundTripIff` | manyfaced/handlers/base_handler.py:63-78 | The receiver recovers identifier and ciphertext iff the identifier has no colon, for every ciphertext |
| `ReportSender.ReportRoundTripIff` | manyfaced/client/report_sender.py:78-81 | The pair a report was sent with is recovered iff the sensor id, or without one the client address, has no colon |
| `ReportSender.ParsedMessageJoins` | manyfaced/handlers/base_handler.py:63-78 | Whatever the receiver accepts is the join of what it returns; it refuses iff there is no colon |

## Left out

- Etl.Migrate: starts with an open connection (without one the script ends before it reads anything), and the exit code and the printed progress are not modelled.
- PostgresThreads.NothingIsLostIff: the records convert, have different keys, and the dump file can be written; each call is made once, and a reset drops and closes the connection in one step.
- Records.ColumnIsStored: a dict given as bot_profile_data is taken as the JSON text it serialises to; datetime values are taken as their text.
- CaptureStore.SqliteStorage.Insert: WAL checkpoints, sleeps between attempts and the metrics counter are not modelled.
- Connections.HandleNonHttpConnection: the results of the face handlers, of is_http_request and of credential capture are arbitrary functions or values; the profile note on an empty client-first report is not modelled.
- Credentials.CaptureCredentials: covers faces with the FTP or POP3 extractor; the bytes of a frame are Latin-1 characters, so the replacement of invalid UTF-8 is not modelled, and what the plain-text capture finds is an arbitrary value.
- GeoRate.AtMost45CompletionsAThread: a thread reads the clock and the timestamp at one moment, and reads the clock and stores the timestamp at one moment; a thread stopped between the latter two could move the timestamp back.
- Backfill.Backfiller.Run: an error of the connection or of the first count, before anything is selected, is not modelled.
- Supervisor.DeadChildEndsTheService: a child that exits between the spawn and the next look counts as dead in that look; a spawn that raises is not modelled.
- StorageSingleton.OneBackendForAll: reset_storage_singleton, a helper of the tests, is not a step of the model.
- Backups.BackupDirectory.Prune: the -wal and -shm sidecars removed with a copy are not modelled.
- SchemaParser.ParseTargetColumns: text is Latin-1; other Unicode blanks and line separators are not modelled.
- Dashboard.BuiltQuerySelectsMatches: LIKE itself is an arbitrary matcher (Dashboard.QuerySelectsWanted takes SQLite's), UPPER is ASCII as in SQLite, and a failing query (which returns an empty list) is not modelled.
- Dashboard.QuerySelectsWanted: LIKE is SQLite's; the backslash escape and the wider case folding of PostgreSQL's ILIKE are not modelled.
- CaptureStoreProofs.ArchiveSplitsAtTheCutoff: compares moments as they are written; the program writes captures in UTC and the cutoff in local time.
- Dashboard.PagesShowTheWholeLog: speaks of a table that does not change between pages and an engine that lists equal timestamps the same way for every page.
- Etl.KeysetVisitsAllIff: the offset fallback is taken in rowid order, which for a table with ids is id order.
- delete_old_records, and the archiving of the PostgreSQL backend, which exports through COPY.
- Column order of a migrated main table against a fresh archive table: rows hold their columns by name here.
- int() accepts more texts than an optionally signed digit string (blanks, underscores); only the latter convert in this model.
- The top-15 groupings (country, continent, address, path, port, classification), distinct address counts and the bucket expressions: plain GROUP BY queries; any bucket key is covered by Aggregates.GroupingCoversTotal.
- The PostgreSQL variant of the backfill: it has no seen-set, so its dry run does not end while rows are pending.
- The printed per-class counts of the backfill.
- get_or_create_profile's report fields that no escalation rule reads: metadata extraction, labels, timestamps.
- clear_geo_cache, starting and stopping the lookup worker, and the HTTP request a lookup makes.
- Face handlers, response builders, decoys, the router, fingerprint entropy, AES-GCM, sockets, thread pools, alert delivery, configuration and lock files: plumbing, constant text or single branches.
