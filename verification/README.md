# Verified model of pg_llm

pg_llm is a PostgreSQL extension that calls large language models from SQL. Beneath its SPI and
HTTP plumbing it runs several small stateful algorithms. This project models those algorithms in
Dafny and proves what they promise over every input and every run:

| file | part of the system |
|---|---|
| `EventStream.dfy` | the line splitter that receives a streamed reply in fragments of any size |
| `Sessions.dfy`, `SessionStores.dfy` | the in-memory `SessionManager` and the two session tables, as functions and as objects |
| `MultiTurn.dfy` | multi-turn chat over the session tables |
| `TtlCache.dfy` | the Text2SQL caches with a time to live |
| `Envelope.dfy` | base64, the encrypted payload and its trailing-zero problem |
| `ModelRegistry.dfy` | catalog rows, live instances, adding, removing and lazy loading of models |
| `Parallel.dfy`, `Routing.dfy` | parallel inference in any interleaving, winner, attribution, fallback |
| `SqlText.dfy` | taking an SQL statement out of a reply and classifying it |
| `SchemaGroups.dfy`, `ResultTable.dfy` | grouping catalog rows into tables, aligned result text |
| `Chunking.dfy` | cutting text for knowledge chunks and streams |
| `Common.dfy` | results, `std::string::find`, sequence helpers |

Each object that the system updates in place is a class whose methods are proved against a
function on values; the lemmas are about those functions, over whole runs.

External code is a parameter. JSON parsing is a function from text to an optional value. AES-256-GCM
is a pair of functions under the laws of `Envelope.Lawful`, which `Envelope.ShiftCipherIsLawful` shows
to be satisfiable, and `EventStream.ChunksInvert` does the same for the encoder of the stream round
trip. Model replies, clock readings, generated ids and random vectors are arguments.

## Where the code does less than it seems to

These are the conditions under which an expected property holds, each proved in both directions.

- `base64_decode` removes padding by dropping every trailing zero byte, so a secret is recovered
  exactly when its payload does not end in a zero byte (`Base64RoundTrip`, `EnvelopeRoundTrip`). An
  added model is therefore found exactly when its addition is reloadable or was made by the same
  backend (`InstanceCoherence`); otherwise the next backend loses it (`AddedModelIsLost`), and under
  a simple lawful cipher every model with an API key has a vector that does this
  (`SomeVectorLosesModel`).
- The two session stores disagree about expiry within less than a second: `SessionManager` counts
  whole seconds, the table compares microseconds (`ExpiryAgreesOutsideGap`, `CleanupRefines`,
  `StoresPartInsideGap`).
- A lookup counts as activity in memory only, a state update in the table only, so either keeps the
  stores equal exactly when it falls into the second of the last activity (`ActivityRefinesIff`).
  Messages and limits of a session that both stores hold agree regardless (`SharedSessionsAgree`).
- A window of whole turns survives a turn exactly when the limit is even or still has room, and a
  limit change exactly when it is refused, even or cuts nothing (`TurnKeepsWholeTurnsIff`,
  `ResizeKeepsWholeTurnsIff`, `OddLimitBreaksTurns`).
- Parallel candidates are attributed by their index in the list of all requested names. With
  distinct names that is right exactly when no name up to the producing model fails to load
  (`AttributionIff`). The call fails although a model answered exactly when the name at the winner's
  index has no catalog row or wants a fallback that does not load (`RoutingEndToEnd`, with an
  instance in `UnknownNameFirstFails`).
- An addition that brings an API key or an access key secret is stored encrypted, and only such a one
  (`CatalogHidesSecrets`). The plain key column shows the redacted key; with redaction switched off
  that is the whole key.
- A NULL in a column whose header and values have fewer than two characters makes the padding
  length wrap around, and no text is produced (`FormattingFailsIff`).
- The filler and the final entry of an empty streamed reply both carry number 1 (`StreamMeaning`).
- A cache lookup answers the latest write of its key exactly when no operation has seen that write
  stale, or it is stale now anyway (`TransparentIff`, for all clock readings). A clock that does not
  step back is enough for that (`CacheTransparency`, `EvictionIsUnobservable`); with one that does,
  eviction can show (`EvictionShowsWhenClockStepsBack`).

docs/ARCHITECTURE.md says that the model with the highest confidence is selected and the threshold
of that model applies. Where attribution is wrong, the code applies the threshold and fallback of
another instance; the model follows the code.

## Model

| member | source | states |
|---|---|---|
| EventStream.FragmentationInvariance | src/models/llm_interface.cpp:259-305 | for every byte string and every way of cutting it into callback calls, the final buffer, reply and chunk list equal those of one call on the whole, which is the line-by-line meaning of the bytes |
| EventStream.ByteConservation | src/models/llm_interface.cpp:266-268 | consumed lines, their newlines and the buffer spell the input exactly; neither a line nor the buffer holds a newline |
| EventStream.UniqueSplit | src/models/llm_interface.cpp:264-268 | that reading of the bytes as lines and rest is the only one |
| EventStream.DrainMeaning | src/models/llm_interface.cpp:264-302 | draining any context keeps its reply and chunks and appends exactly the contents of its buffered lines |
| EventStream.FeedMeaning | src/models/llm_interface.cpp:259-305 | one more call turns the meaning of the bytes received so far into the meaning of all of them |
| EventStream.LineContentIff | src/models/llm_interface.cpp:270-301 | a line adds a chunk if and only if it is `data: ` and JSON with a content that is not empty, and is not the end marker; the chunk is that content |
| EventStream.StreamRoundTrip | src/models/llm_interface.cpp:264-302 | replies printed as data lines, mixed with any lines that carry no content (blank, end marker, comments, role-only chunks, unreadable JSON, empty content), followed by an incomplete line and fed in any fragments: the chunks are exactly the replies and the incomplete line stays buffered |
| EventStream.StreamContext.ProcessLine | src/models/llm_interface.cpp:270-301 | a data line other than the end marker whose JSON has a content that is not empty adds that content to reply and chunks; any other line changes nothing |
| EventStream.StreamContext.WriteCallback | src/models/llm_interface.cpp:259-305 | after every call the fields are the meaning of all bytes received; the buffer has no newline, the reply is the concatenation of the chunks, earlier chunks stay, and the fragment's size is returned |
| Sessions.TrimKeepsNewest | src/pg_llm.cpp:338-353 | deleting the ids past `ORDER BY id DESC OFFSET max` leaves exactly the newest `max` messages |
| Sessions.TrimWindow | src/pg_llm.cpp:338-353 | trimming one session leaves every other window untouched although ids are shared |
| Sessions.AppendWindow | src/pg_llm.cpp:355-388 | insert and trim give the old window plus the message, cut to the newest `max` |
| Sessions.ExpiryAgreesOutsideGap | src/pg_llm.cpp:495-506 | the two expiry tests agree exactly outside the sub-second gap; inside it only the table expires |
| Sessions.AppendRefines | src/pg_llm.cpp:355-388 | append keeps the stores related, also for a missing session |
| Sessions.SetMaxRefines | src/pg_llm.cpp:1256-1271 | a limit change keeps the stores related and trims at once |
| Sessions.CleanupRefines | include/models/session_manager.h:88-98 | cleanup keeps the stores related if and only if no session is inside the expiry gap |
| Sessions.ActivityRefinesIff | include/models/session_manager.h:38-46 | a lookup, which moves the activity time in memory only, and a state update, which moves it in the table only, keep the stores related if and only if they fall into the second of the last activity |
| Sessions.StepRefines | include/models/session_manager.h:30-98 | every admissible operation keeps the stores related; the table version reports an error exactly for naming a missing session in an append, a limit change, a read or a state update |
| Sessions.TablesRefineMemory | src/pg_llm.cpp:338-506 | after every admissible run, lookups and state updates included, the tables show, per session, exactly the window, limit and activity second of the in-memory manager |
| Sessions.SharedSessionsAgree | src/pg_llm.cpp:480-506 | over every run in which created ids are new and limits are not negative, whatever lookups, state updates and cleanups did to the activity times: a session that both stores hold has the same messages and limit in both |
| Sessions.StoresPartInsideGap | src/pg_llm.cpp:495-506 | a run ending inside the gap after which only the in-memory session is left |
| Sessions.SessionsAreIsolated | sql/pg_llm--1.1.sql:52-59 | no operation, failing or not, changes the window or row of a session it does not name; cleanup removes a session with all its messages or not at all |
| Sessions.WindowIsLogSuffix | include/models/session_manager.h:49-75 | over every run a window is a suffix, within the limit, of everything appended since creation; with a constant limit exactly the last min(n, max) |
| Sessions.TableWindowIsLogSuffix | src/pg_llm.cpp:355-388 | the same for the tables, for every run without any condition: failing operations, negative limits and duplicate keys included |
| Sessions.OwnStepFollows | src/pg_llm.cpp:355-388 | every operation on a session, failing or not, keeps its window in line with what was successfully appended |
| Sessions.StepErrors | src/pg_llm.cpp:338-388 | which of the three errors each operation reports, if and only if which condition holds; an error leaves sessions and messages alone, and exactly the appends to existing sessions draw an id |
| Sessions.ActivityIsLastTouch | src/pg_llm.cpp:355-506 | over every run the activity time is that of the last creation, append or lookup in memory, and of the last successful creation, append or state update in the table |
| SessionStores.SessionManager.CreateSession | include/models/session_manager.h:30-35 | a new empty session, everything else unchanged |
| SessionStores.SessionManager.GetSession | include/models/session_manager.h:38-46 | a successful lookup refreshes the activity second and nothing else |
| SessionStores.SessionManager.PopOldest | include/models/session_manager.h:55-57 | erasing from the front leaves the newest messages up to the limit |
| SessionStores.SessionManager.AddMessage | include/models/session_manager.h:49-60 | the new map is the old one with the message appended and the window cut; a missing session is ignored |
| SessionStores.SessionManager.SetMaxMessages | include/models/session_manager.h:63-75 | limit changed and window cut, or false for a missing session |
| SessionStores.SessionManager.CleanupExpiredSessions | include/models/session_manager.h:88-98 | exactly the expired sessions are erased, in whatever order they are visited |
| SessionStores.SessionTables.CreateSession | src/pg_llm.cpp:444-457 | inserts a session row, or fails on a duplicate key |
| SessionStores.SessionTables.TrimSessionMessages | src/pg_llm.cpp:338-353 | keeps the newest messages of one session, or fails for a negative limit |
| SessionStores.SessionTables.AppendSessionMessage | src/pg_llm.cpp:355-388 | the whole new state of an append; on failure the rows are as before and only the id sequence has moved |
| SessionStores.SessionTables.LoadSessionMessages | src/pg_llm.cpp:390-410 | the session's messages by ascending id, or an error for a missing session |
| SessionStores.SessionTables.SetMaxMessages | src/pg_llm.cpp:1256-1271 | the whole new state of a limit change; nothing changes on failure |
| SessionStores.SessionTables.UpdateSessionState | src/pg_llm.cpp:480-493 | the activity time of that session is set, or an error for a missing session |
| SessionStores.SessionTables.DeleteSession | src/pg_llm.cpp:459-478 | session and messages are gone, others stay; says whether there was one |
| SessionStores.SessionTables.CleanupSessions | src/pg_llm.cpp:495-506 | expired sessions are gone together with their messages through the foreign key |
| MultiTurn.TurnStructure | src/pg_llm.cpp:562-574 | in every run with even limits, whatever the replies: between turns every window alternates user and assistant in whole turns, and in every chat the model is shown an alternating list that ends in the prompt and has at most max + 1 entries |
| MultiTurn.ModelSeesHistory | src/pg_llm.cpp:562-574 | in every chat of every run, whatever the limits: before the prompt the model is shown a suffix of the session's transcript, as long as the stored window, and under a constant limit exactly its last min(n, max) messages |
| MultiTurn.ChatFailsIff | src/pg_llm.cpp:612-615 | a chat fails if and only if the session is missing or has a negative limit, and then changes no window |
| MultiTurn.TurnKeepsWholeTurnsIff | src/pg_llm.cpp:612-615 | a turn keeps a window of whole turns if and only if the limit is even or has room for both messages |
| MultiTurn.ResizeKeepsWholeTurnsIff | src/pg_llm.cpp:1256-1271 | a limit change keeps a window of whole turns if and only if it is refused, even or cuts nothing |
| MultiTurn.ChatWindow | src/pg_llm.cpp:612-615 | a turn appends prompt and reply to its own window, each with a trim, and touches no other window |
| MultiTurn.TurnsAreSessionRuns | src/pg_llm.cpp:612-615 | every run of turns is a run of the session tables with the corresponding appends, so the results about those hold of chats |
| MultiTurn.WindowIsTranscriptSuffix | src/pg_llm.cpp:562-615 | over every run of turns a window is a suffix of the session's transcript of prompts and replies, within the limit |
| MultiTurn.OddLimitBreaksTurns | src/pg_llm.cpp:612-615 | with limit one the window after a turn is the reply alone |
| TtlCache.CacheTransparency | src/text2sql/text2sql.cpp:43-54 | under a clock that does not step back, after every run of lookups, stores and sweeps a lookup hits with v if and only if the latest store of its key wrote v and its truncated age is below the time to live |
| TtlCache.TransparentIff | src/text2sql/text2sql.cpp:43-107 | for all clock readings: a lookup answers the latest write of its key, if fresh, if and only if the caches are off, there is no such write, no lookup, sweep or store into a full cache has seen it stale since, or it is stale now |
| TtlCache.FreshMeansYoung | src/text2sql/text2sql.cpp:46-48 | the truncated-second test holds if and only if the exact age is below the time to live, or, for an entry from the future, at least a second below |
| TtlCache.StoreKeeps | src/text2sql/text2sql.cpp:57-85 | a store writes its own entry and keeps all others, or, if and only if the chosen cache has reached a limit that is not negative, only the fresh ones of all four caches |
| TtlCache.StoreBound | src/text2sql/text2sql.cpp:79-84 | after a store a cache is within its limit, or all its other entries were fresh |
| TtlCache.DisabledStaysEmpty | src/text2sql/text2sql.cpp:58-60 | switched off, the caches stay empty over every run |
| TtlCache.EvictionIsUnobservable | src/text2sql/text2sql.cpp:79-107 | erasing all lookups and sweeps from the past and changing the size limit never changes what a lookup answers |
| TtlCache.EvictionShowsWhenClockStepsBack | src/text2sql/text2sql.cpp:46-53 | an instance of the failing half: with a clock that steps back, lazy eviction hides a write that is fresh again |
| TtlCache.CacheStore.GetFromCache | src/text2sql/text2sql.cpp:21-55 | the answer and the new caches of a lookup, the stale entry being erased |
| TtlCache.CacheStore.SetCache | src/text2sql/text2sql.cpp:57-85 | the new caches of a store, swept first when the chosen cache is full |
| TtlCache.CacheStore.CleanupCache | src/text2sql/text2sql.cpp:87-107 | a sweep keeps exactly the fresh entries of all four caches |
| TtlCache.CacheStore.CleanupOne | src/text2sql/text2sql.cpp:90-101 | erasing while iterating keeps exactly the fresh entries of one cache |
| Envelope.Base64Decode | src/utils/pg_llm_support.cpp:197-209 | decodes, then removes all trailing zero bytes, those of the decoded bytes included; rejects malformed text |
| Envelope.EncodeDigitTable | src/utils/pg_llm_support.cpp:190-195 | the digits are those of table 1 of RFC 4648 |
| Envelope.EncodedLength | src/utils/pg_llm_support.cpp:190-195 | the encoding has 4 * ((n + 2) / 3) characters, the size allocated for it |
| Envelope.EncodedChar | src/utils/pg_llm_support.cpp:190-195 | every character of every encoding: `=` if and only if its position is at least (8n + 5) / 6, otherwise the table's character for its six bits of the data |
| Envelope.PaddingCount | src/utils/pg_llm_support.cpp:190-195 | none, two or one padding characters, by the length modulo three |
| Envelope.DecodesIff | src/utils/pg_llm_support.cpp:197-204 | a text decodes if and only if it is made of whole groups of four characters of the alphabet |
| Envelope.DecodeBlockEncode | src/utils/pg_llm_support.cpp:190-205 | block decoding of an encoding yields the bytes and one zero per padding character |
| Envelope.StripZerosMeaning | src/utils/pg_llm_support.cpp:205-207 | stripping removes exactly a run of zeros from the end, nothing if and only if there is none |
| Envelope.Base64RoundTrip | src/utils/pg_llm_support.cpp:190-209 | decode after encode gives the bytes without trailing zeros, hence the bytes themselves if and only if they do not end in zero |
| Envelope.EnvelopeRoundTrip | src/utils/pg_llm_support.cpp:211-300 | for every text, the empty one included: encryption fails if and only if no master key is set, and decryption returns the text if and only if the payload does not end in a zero byte |
| Envelope.DecryptIff | src/utils/pg_llm_support.cpp:257-300 | only what encryption makes decrypts: a text yields a plain text if and only if there is a master key and the text decodes to the payload that sealing the plain text with the text's own vector makes |
| Envelope.DecryptErrors | src/utils/pg_llm_support.cpp:257-300 | which of the four errors is reported, if and only if which condition holds; not authentic means that no plain text has this payload |
| ModelRegistry.RebuildIff | src/models/model_manager.cpp:64-78 | the row written for an addition yields the added model again if and only if it is stored in plain or both payloads are recoverable |
| ModelRegistry.InstanceCoherence | src/models/model_manager.cpp:49-94 | after every run of additions, removals, lookups and restarts a lookup finds nothing when the last successful change was not an addition, and otherwise finds exactly the added type, key and configuration if and only if that addition is reloadable or no restart came after it |
| ModelRegistry.ReloadIff | src/models/model_manager.cpp:58-93 | in a fresh backend the last added model is found if and only if its addition is reloadable |
| ModelRegistry.AddedModelIsLost | src/utils/pg_llm_support.cpp:205-207 | for every lawful cipher and after any history, a successful addition that is not reloadable is found by the backend that made it and not by the next |
| ModelRegistry.SomeVectorLosesModel | src/utils/pg_llm_support.cpp:211-250 | such additions exist: under a lawful shift cipher every model with an API key, with any configuration the parser accepts, has a vector whose draw makes it not reloadable |
| ModelRegistry.AddCoherent | src/pg_llm.cpp:1069-1107 | whether an addition succeeds depends on its arguments alone, and it keeps catalog and instances coherent |
| ModelRegistry.AddFailsIff | src/pg_llm.cpp:1069-1107 | why an addition fails: if and only if its configuration is not a JSON object, or it brings a key or an access key secret without a master key, or the model has no credentials; a failed one changes neither catalog nor instances |
| ModelRegistry.CatalogHidesSecrets | src/pg_llm.cpp:1074-1091 | after every run, every catalog row: both columns encrypted and the configuration replaced if and only if the addition brought an API key or an access key secret, the key shown redacted, threshold and fallback as configured |
| ModelRegistry.RemoveAnswers | src/pg_llm.cpp:1109-1115 | after every run a removal answers true if and only if the last successful change of the name was an addition, and nothing is found afterwards |
| ModelRegistry.StepCoherent | src/pg_llm.cpp:1069-1115 | every operation keeps catalog row and instance of each name in line with its last successful change; an instance is the added model if and only if the addition is live or reloadable |
| ModelRegistry.ModelManager.RegisterModel | src/models/model_manager.cpp:17-20 | the creator of that type is replaced |
| ModelRegistry.ModelManager.CreateModelInstance | src/models/model_manager.cpp:22-42 | stores an initialised instance, or reports an unknown type, or raises, leaving the instances unchanged |
| ModelRegistry.ModelManager.Load | src/models/model_manager.cpp:49-94 | cached instance, or one rebuilt from the catalog row and cached; the recursion is at most one call deep |
| ModelRegistry.ModelManager.Add | src/pg_llm.cpp:1069-1107 | the whole new state of an addition; a failed one leaves catalog and instances unchanged |
| ModelRegistry.ModelManager.Remove | src/pg_llm.cpp:1109-1115 | row and instance are gone; true if there was either |
| Parallel.ParallelDeterminism | src/models/model_manager.cpp:100-120 | in every interleaving of launches, completions and collections a finished run has the responses of the sequential pass over the loadable names, in launch order |
| Parallel.EveryRunFinishes | src/models/model_manager.cpp:104-118 | no run is longer than three actions per name, and an unfinished run can always go on |
| Parallel.ParallelInference | src/models/model_manager.cpp:96-121 | the launch and collect loops compute that sequential pass |
| Parallel.FirstMaxUnique | src/models/model_manager.cpp:156-163 | there is only one first response of maximal confidence |
| Parallel.GetBestResponse | src/models/model_manager.cpp:150-164 | the first response of maximal confidence, or the placeholder for an empty list |
| Routing.SelectWinner | src/pg_llm.cpp:647-676 | every response is a candidate under the name at its index, or its own model name past the end of the names; the winner is the first response of maximal confidence, whole |
| Routing.AttributionIff | src/pg_llm.cpp:651-664 | with distinct names, a candidate carries the name of the model that produced it if and only if every name up to that model loads |
| Routing.AttributedWhenAllLoad | src/pg_llm.cpp:651-658 | when all names load, every candidate is the named model's reply to the prompt |
| Routing.RoutingEndToEnd | src/pg_llm.cpp:510-552 | for every list of names with a response: the call fails if and only if the name at the index of the first best response has no catalog row or wants a fallback that does not load, and says which; otherwise all responses are candidates, and the answer is that first best response itself or, if and only if every candidate is below that name's effective threshold and a different fallback is configured, the fallback's reply to its text, with one more event |
| Routing.NoResponsesIff | src/pg_llm.cpp:640-644 | without responses it fails, if and only if no name loads |
| Routing.UnknownNameFirstFails | src/pg_llm.cpp:513-513 | an instance of that failure: an unknown name before the only answering model |
| Routing.ExecuteParallelChat | src/pg_llm.cpp:636-677 | error without responses, otherwise winner selection and then the fallback step |
| SqlText.ExtractionShape | src/text2sql/text2sql.cpp:551-563 | when a keyword occurs the result is a slice of the reply that starts with the chosen keyword, contains no fence and does not end in a blank |
| SqlText.ExtractionExact | src/text2sql/text2sql.cpp:547-565 | in terms of the reply alone: without a keyword the reply itself, otherwise what stands between the first occurrence of the chosen keyword and the next fence or the end, less exactly the trailing blanks, newlines and carriage returns |
| SqlText.ExtractionIdempotent | src/text2sql/text2sql.cpp:523-566 | extracting again changes nothing, for every reply |
| SqlText.ExtractionClassified | src/text2sql/text2sql.cpp:400-417 | what is extracted is classified as SELECT, INSERT, UPDATE or DELETE, by the keyword it starts with |
| SqlText.FencedRoundTrip | src/text2sql/text2sql.cpp:525-563 | a statement between fences after prose without SELECT and before any tail is recovered exactly |
| SqlText.DetectIff | src/text2sql/text2sql.cpp:400-417 | a text has a type if and only if that type's keyword opens it in some mixture of cases; the order of the tests does not matter |
| SqlText.DetectWords | src/text2sql/text2sql.cpp:404-416 | each of the eleven types if and only if the text begins with its word, letter by letter in either case |
| SqlText.KeywordCascade | src/text2sql/text2sql.cpp:525-549 | the nested searches find the first keyword of the priority list that occurs anywhere |
| SqlText.ExtractSql | src/text2sql/text2sql.cpp:523-566 | the nested searches, the cut and the trimming loop compute the extraction function |
| SchemaGroups.GroupRows | src/text2sql/text2sql.cpp:196-222 | the loop with its current table computes the grouping function |
| SchemaGroups.GroupingConserves | src/text2sql/text2sql.cpp:199-222 | flattening the groups gives back all rows in order; no group is empty and neighbours differ in name |
| SchemaGroups.EachTableOnceIff | src/text2sql/text2sql.cpp:205-216 | each table appears once if and only if its rows stand together, and then with all its columns in order |
| SchemaGroups.SortedRowsGroupOnce | src/text2sql/text2sql.cpp:182-186 | rows sorted by table name give each table once and complete |
| SchemaGroups.DescribedByFirstRow | src/text2sql/text2sql.cpp:205-214 | name, description and first column of a table come from a row at which the name changes |
| ResultTable.WidthIsMaximum | src/text2sql/text2sql.cpp:573-588 | a column width bounds its header and values and is attained by one of them |
| ResultTable.LineLength | src/text2sql/text2sql.cpp:590-619 | every header, data and separator line has length 1 + sum(width + 2) |
| ResultTable.CellAtItsPlace | src/text2sql/text2sql.cpp:605-619 | at a column's place in a line stands that cell, NULL spelled out, followed by blanks, whatever the other cells are |
| ResultTable.CellInText | src/text2sql/text2sql.cpp:605-619 | in the whole text every cell of every row is found at (i + 2) lines of equal length plus its column's start, followed by blanks |
| ResultTable.HeaderInText | src/text2sql/text2sql.cpp:590-596 | every header is found at its column's start, followed by blanks |
| ResultTable.TopOfText | src/text2sql/text2sql.cpp:590-603 | the first line begins with a blank, the second is all dashes, both end in a newline after the common length |
| ResultTable.RowOfText | src/text2sql/text2sql.cpp:605-619 | row i is line i + 2, begins with a blank and ends in a newline |
| ResultTable.CountInText | src/text2sql/text2sql.cpp:622-622 | after the rows stands their number and nothing else |
| ResultTable.DecimalReads | src/text2sql/text2sql.cpp:622-622 | the number is written in digits, none superfluous, that read as it |
| ResultTable.FormattingFailsIff | src/text2sql/text2sql.cpp:613-616 | no text is produced if and only if some column holds a NULL while its header and values have fewer than two characters |
| ResultTable.ColumnWidths | src/text2sql/text2sql.cpp:573-588 | the width loops compute those maxima |
| ResultTable.BuildLine | src/text2sql/text2sql.cpp:606-618 | builds the aligned line, or fails exactly when a NULL stands in a column narrower than 2 |
| ResultTable.FormatQueryResults | src/text2sql/text2sql.cpp:569-625 | header, separator, rows and row count, or the length error |
| Chunking.SplitPieces | src/pg_llm.cpp:1021-1030 | the pieces spell the text, all but the last are full, the last is not empty, and their number is the length divided by the size, rounded up |
| Chunking.PiecesUnique | src/pg_llm.cpp:1021-1030 | no other list of pieces has these properties |
| Chunking.SplitLoop | src/pg_llm.cpp:1022-1025 | the offset loop computes the pieces |
| Chunking.SplitContent | src/pg_llm.cpp:1021-1030 | pieces that spell the text, one empty piece for an empty text |
| Chunking.PieceSize | src/pg_llm.cpp:1477-1477 | the larger of the configured size and 32 |
| Chunking.StreamReply | src/models/llm_interface.cpp:170-183 | the numbered entries of a streamed reply |
| Chunking.StreamMeaning | src/models/llm_interface.cpp:170-183 | the entries before the final one spell the reply, in pieces of 24; they are numbered from 1 with one final entry carrying the reply if and only if the reply is not empty |
| Chunking.MockStream | src/models/llm_interface.cpp:318-341 | the numbered entries of a mock stream |
| Chunking.MockStreamMeaning | src/models/llm_interface.cpp:325-340 | a mock stream is always numbered properly; it has the configured pieces, or pieces of 16, and spells the reply unless configured pieces do not |
| Chunking.AddingKeepsReadable | src/pg_llm.cpp:1476-1480 | storing one document keeps every document readable from its chunks by index |
| Chunking.KnowledgeStore.AddKnowledge | src/pg_llm.cpp:1465-1482 | a new document id, its numbered chunks added, and every stored document still readable |

## Left out

- HTTP requests, status handling, headers and request signing: I/O over libraries that are not part of this model.
- JSON libraries: one parser stands for jsoncpp's two readers, and their exceptions on values that are not objects are not modelled.
- AES-GCM and SHA-256 internals: only the laws of `Envelope.Lawful` are assumed: opening inverts sealing, and nothing opens that sealing does not make.
- `EVP_DecodeBlock` also skips blanks around its input; encodings never contain them, and the model rejects them.
- The SQL engine: only the statements on the session, message, model and knowledge tables, each call being its own transaction. Several backends at once, and transactions of several calls that abort after an addition, are not modelled.
- Negative limits in `SessionManager`: its loop would erase from an empty vector, so its methods require a limit that is not negative; the table version's error is modelled.
- `SessionManager` has no call that deletes a single session: runs use the erasure of one map entry as the counterpart of the table version's deletion. It keeps no session state, so the table's state update has no counterpart in memory.
- `get_session` returns a pointer into the map; the model returns the session's value.
- Message columns besides session, role and content, and the session's `state` and `created_at` columns.
- Mutexes: `set_cache` takes its own lock a second time when it sweeps, and a failed initialisation leaves a lock scope by a long jump; the model gives the sequential meaning only.
- Two tasks sharing one model instance when a name is requested twice: replies are functions of model and prompt, so the shared HTTP handle is not modelled.
- NaN confidences: confidences and thresholds are real numbers.
- `execute_single_chat_internal` beyond sessions: the augmented prompt and the reply are arguments of a chat in `MultiTurn`, and its fallback step is the one in `Routing`.
- `pg_llm_multi_turn_chat_stream`: it passes on no prompt and stores no message.
- Characters: strings are sequences of bytes, and `toupper` is that of the C locale.
- Audit and trace logging, reports, Vega-Lite shaping, prompt building, vector search, embeddings, redaction of log output and UUID formatting: plumbing, heuristics or one-branch facts.
