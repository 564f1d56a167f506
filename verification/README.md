# Dialog history store and LLM client of a Telegram chat bot

This project models the core of a Telegram bot that relays a user's messages to an
OpenAI-compatible chat API. The bot remembers each user's recent conversation in
a relational store. The model covers two parts:

- **The history store** (`src/Bot/database/crud.py` over the schema in
  `src/Bot/database/models.py`).
  - Each user has at most one `dialogs` row, keyed by a unique `user_id`.
  - Each `messages` row belongs to a dialog and carries an autoincrement id, a role of
    at most 20 characters, the content and a `created_at` default.
  - `get_or_create_dialog` finds the user's dialog or inserts one.
  - `get_history` reads the newest `limit` messages by id, then reverses them to oldest-first `{role, content}` pairs.
  - `save_message` inserts a message and then trims the dialog to `MAX_CONTEXT_MESSAGES` rows. The trim deletes the surplus ordered by `created_at`.
  - `clear_history` deletes the dialog's messages and keeps the dialog.
- **The pure parts of the LLM client** (`src/Bot/services/openai_service.py`).
  - The request context is the system prompt followed by the history.
  - A missing or empty completion becomes a fixed apology.
  - A failed call becomes one of three user-facing texts. The text is chosen by searching the lower-cased error for "rate limit", then "authentication" or "api key".

Modules:

- `Types`: `Option` and the `{role, content}` turn.
- `Models`: the two tables as sequences of rows.
  - The schema's constraints: unique users and keys, foreign keys, role width, increasing message ids.
  - The lookup by user.
  - The `ondelete="CASCADE"` deletion.
- `CrudSpec`: the views the store reads as functions of the rows.
  - A dialog's messages in id order.
  - The rows left after `DELETE ... WHERE id IN`.
  - The newest-`n` window.
  - The admissible trims `IsTrim`.
  - A user's history.
  - The lemmas the store's operations rely on.
- `Crud`: a `HistoryStore` class holding the two tables and the autoincrement counters as fields.
  - Each query is a method that scans the table in a loop. `FindDialog` is proved against `Models.Lookup`; the others are proved against `CrudSpec` functions.
  - Each statement that changes a table is a method with a `modifies` frame. It keeps the store invariant: the schema constraints, counters ahead of every key, and `created_at` non-decreasing in id order and never past the running process's default.
  - `WithinCap` (no dialog over `maxContext` messages) is kept by every operation that starts from it.
  - The two database tests are methods that replay the same calls on a fresh store.
- `OpenAIService`: ASCII lower-casing, substring search, the error classifier, the context builder, and the reply taken from a completion.

Design points:

- **The trim order is weaker than "keep the newest".** The `created_at` defaults (`models.py` lines 15 and 32) are the value of `datetime.now(...)` computed once, when the module is loaded. Every row one process run inserts therefore carries the same timestamp. A later run (the `Reopen` constructor) opens the tables an earlier run left and stamps its rows with its own, later default; the model takes it that the clock does not go backwards between runs. So timestamps never fall as ids rise, but many rows share one. `_cleanup_old_messages` orders by `created_at` alone, so the choice among equal timestamps is the database's. For this reason:
  - The store's trim contract says only that the deleted rows are the right number and that none is later than a kept row (`IsTrim`).
  - `CrudSpec.NewestMayBeTrimmed` shows that with one shared timestamp, deleting the newest message is an admissible trim.
  - `CrudSpec.TrimUnderIncreasingTimes` shows that, were timestamps strictly increasing per row, every admissible trim would keep exactly the newest `cap` messages.
  - `CrudSpec.EarlierRunTrimmedFirst` shows that rows of an earlier run are always trimmed before rows of a later run.
  - The query at `crud.py` line 88 has no `id` tie-break, so among equal timestamps the database chooses.
- **The trim counts the new message.** `save_message` adds the new message before the trim runs. With the session's autoflush, the count includes it, so the model trims after the insert.
- **Timestamps are parameters.** The two column defaults are constructor parameters of the store. `MAX_CONTEXT_MESSAGES` is one too (`maxContext`).

## Model

| member | source | states |
|---|---|---|
| Models.Lookup | src/Bot/database/crud.py:13-17 | a found dialog is a row of the table with that user id; no result means no row has that user id |
| Models.LookupUnique | src/Bot/database/models.py:14 | with unique user ids, the lookup of a row's user returns that very row |
| Models.LookupAppend | src/Bot/database/crud.py:19-21 | inserting a dialog leaves every existing lookup as it was and makes a previously missing user's lookup find the new row |
| Models.HasDialogIff | src/Bot/database/models.py:29 | the foreign-key test holds exactly when some dialog row has that key |
| Models.DropDialogRow | src/Bot/database/models.py:17 | a row survives the deletion of dialog `did` exactly when its key is not `did` |
| Models.DropDialogMessages | src/Bot/database/models.py:29 | a message survives the deletion of dialog `did` exactly when it belongs to another dialog |
| Models.DropDialogMessagesIncreasing | src/Bot/database/models.py:28 | the surviving messages keep strictly increasing ids |
| Models.DropDialogRowUnique | src/Bot/database/models.py:13-14 | after dropping a dialog row, user ids and dialog keys are still unique |
| Models.CascadeDelete | src/Bot/database/models.py:17-29 | deleting a dialog with the cascade keeps every schema constraint, leaves no row of it and no message pointing to it, and keeps every other dialog and message |
| Models.ForeignKeysGrow | src/Bot/database/models.py:29 | a new dialog row breaks no message's reference |
| Models.ForeignKeysBelow | src/Bot/database/models.py:29 | every message refers to a dialog key below any bound on the keys in use |
| Models.ForeignKeysSub | src/Bot/database/models.py:29 | deleting messages keeps every remaining reference valid |
| Models.OtherUserOtherDialog | src/Bot/database/models.py:13-14 | the dialogs of two different users have different keys |
| CrudSpec.MessagesOf | src/Bot/database/crud.py:42 | a message is selected exactly when it is in the table and belongs to the dialog; never more rows than the table |
| CrudSpec.Without | src/Bot/database/crud.py:95 | a message survives `DELETE ... WHERE id IN` exactly when its id is not listed |
| CrudSpec.LastN | src/Bot/database/crud.py:43-44 | the window holds min(n, length) elements and is a suffix of the list |
| CrudSpec.TrimCount | src/Bot/database/crud.py:81-83 | after deleting that many rows, min(count, cap) remain |
| CrudSpec.WithDialog | src/Bot/database/crud.py:17-21 | after get_or_create_dialog the user has a dialog, and an existing one leaves the table unchanged |
| CrudSpec.WithDialogIdempotent | src/Bot/database/crud.py:10-25 | a second get_or_create_dialog for the same user creates nothing and finds the same dialog |
| CrudSpec.WithDialogLookup | src/Bot/database/crud.py:17-21 | only the user's own lookup changes, and only from nothing to the new row |
| CrudSpec.WithDialogUnique | src/Bot/database/models.py:13-14 | creating a dialog under an unused key keeps user ids and keys unique |
| CrudSpec.MessagesOfAppend | src/Bot/database/crud.py:42 | selecting a dialog's rows distributes over concatenation of tables |
| CrudSpec.WithoutAppend | src/Bot/database/crud.py:95 | deleting by id distributes over concatenation of tables |
| CrudSpec.MessagesOfWithout | src/Bot/database/crud.py:87-95 | deleting by id then selecting a dialog equals selecting then deleting |
| CrudSpec.WithoutUnrelated | src/Bot/database/crud.py:95 | deleting ids no row carries changes nothing |
| CrudSpec.WithoutAll | src/Bot/database/crud.py:95 | deleting every id of the rows leaves none of them |
| CrudSpec.MessagesOfIncreasing | src/Bot/database/models.py:28 | a dialog's messages keep strictly increasing ids |
| CrudSpec.WithoutIncreasing | src/Bot/database/crud.py:94-96 | the rows left after a delete keep strictly increasing ids |
| CrudSpec.MessagesOfNone | src/Bot/database/crud.py:20-23 | a new dialog no message points to has an empty history |
| CrudSpec.MessagesOfSnoc | src/Bot/database/crud.py:58-64 | inserting a message extends its own dialog's messages by it and no other dialog's |
| CrudSpec.SameIdSameRow | src/Bot/database/models.py:28 | two messages with the same primary key are the same row |
| CrudSpec.OtherDialogsUntouched | src/Bot/database/crud.py:85-96 | deleting ids of one dialog's messages leaves every other dialog's messages as they were |
| CrudSpec.MessagesOfDrop | src/Bot/database/crud.py:102-104 | `DELETE ... WHERE dialog_id` empties that dialog and keeps every other dialog's messages |
| CrudSpec.DropNothing | src/Bot/database/crud.py:102-104 | clearing a dialog without messages leaves the table unchanged |
| CrudSpec.DistinctIdsCount | src/Bot/database/crud.py:91 | a list of distinct ids has as many members as elements |
| CrudSpec.IdsCount | src/Bot/database/models.py:28 | rows with increasing ids have as many distinct ids as rows |
| CrudSpec.WithoutCount | src/Bot/database/crud.py:94-96 | a delete by id removes exactly as many rows as the listed ids it hits |
| CrudSpec.LaterDeletedMeansPrefixDeleted | src/Bot/database/crud.py:85-90 | under strictly increasing timestamps, an admissible trim that deletes a later row also deletes every row of the oldest TrimCount |
| CrudSpec.TrimTakesPrefixIds | src/Bot/database/crud.py:85-91 | under strictly increasing timestamps, an admissible trim deletes exactly the ids of the oldest TrimCount rows |
| CrudSpec.PrefixIdsBelow | src/Bot/database/models.py:28 | no row after position k shares an id with the first k rows, and the other way round |
| CrudSpec.WithoutPrefix | src/Bot/database/crud.py:94-96 | deleting the ids of the first k rows leaves exactly the rows after them |
| CrudSpec.KeepNewer | src/Bot/database/crud.py:94-96 | the rows after the first k survive deleting the first k rows' ids |
| CrudSpec.TrimUnderIncreasingTimes | src/Bot/database/crud.py:81-96 | were `created_at` strictly increasing per row, every admissible trim would leave exactly the newest `cap` messages |
| CrudSpec.NewestMayBeTrimmed | src/Bot/database/crud.py:85-90 | with the one shared default timestamp, deleting the newest message of a dialog one over the cap is an admissible trim, and it does not leave the newest `cap` messages |
| CrudSpec.SameTimeAnyOrder | src/Bot/database/models.py:32 | rows sharing one `created_at` may be deleted in any order under `ORDER BY created_at` |
| CrudSpec.ReversedTwice | src/Bot/database/crud.py:50 | reversing the newest-first rows twice restores their order |
| CrudSpec.ReversedCons | src/Bot/database/crud.py:43-50 | an older row read by the backward scan goes at the end of the reversed window |
| CrudSpec.LastNOfLonger | src/Bot/database/crud.py:43-44 | older rows do not enter a window the newer rows already fill |
| CrudSpec.EntriesLastN | src/Bot/database/crud.py:52 | projecting to `{role, content}` commutes with taking the window |
| CrudSpec.EntriesSnoc | src/Bot/database/crud.py:52 | projecting an appended message appends its `{role, content}` |
| CrudSpec.MessagesOfCons | src/Bot/database/crud.py:42 | a row in front joins the dialog's messages exactly when it belongs to the dialog |
| CrudSpec.LastNShort | src/Bot/database/crud.py:44 | a window at least as wide as the history is the whole history |
| CrudSpec.ScanOf | src/Bot/database/crud.py:40-45 | the rows a backward scan reads from the rows it passed: the dialog's rows, newest first, while fewer than `n` were read |
| CrudSpec.ScanOfWindow | src/Bot/database/crud.py:40-45 | what the backward scan reads is the reversed newest-`n` window of the dialog's rows among those passed |
| CrudSpec.ScanOfStep | src/Bot/database/crud.py:40-45 | passing one more, older row keeps the rows read equal to the reversed window |
| CrudSpec.ScanOfShortStep | src/Bot/database/crud.py:43-44 | an older row of the dialog joins a window that is not yet full, in front |
| CrudSpec.ScanOfFullStep | src/Bot/database/crud.py:43-44 | an older row is left out of a window the newer rows already fill |
| CrudSpec.ScanOfFull | src/Bot/database/crud.py:44 | once `n` rows were read, scanning further back reads nothing more |
| CrudSpec.RecentDescending | src/Bot/database/crud.py:43 | the rows read newest first have strictly decreasing ids |
| CrudSpec.LastNIncreasing | src/Bot/database/crud.py:43-44 | the window of rows in id order is in id order |
| CrudSpec.ReversedDescending | src/Bot/database/crud.py:50 | rows in increasing id order, reversed, have decreasing ids |
| CrudSpec.ScanStep | src/Bot/database/crud.py:76 | one forward step adds the row to the dialog's rows exactly when it belongs to the dialog |
| CrudSpec.FirstIdsSnoc | src/Bot/database/crud.py:85-91 | one more row joins the collected ids only while fewer than k were collected |
| CrudSpec.OldestIdsMeaning | src/Bot/database/crud.py:85-91 | with timestamps non-decreasing in id order, the first k ids are min(k, count) distinct ids of the dialog and an oldest-first choice |
| CrudSpec.FirstIdsOldestFirst | src/Bot/database/crud.py:85-91 | the ids of a chronological dialog's first k rows are an oldest-first choice: no kept row is older than a chosen one |
| CrudSpec.Chronological | src/Bot/database/models.py:32 | the `created_at` values never fall as ids rise |
| CrudSpec.ChronologicalSub | src/Bot/database/crud.py:94-104 | rows kept from a chronological table, still in id order, stay chronological |
| CrudSpec.HeadIds | src/Bot/database/crud.py:85-91 | the ids of the dialog's first `k` rows in storage order, collected front to back |
| CrudSpec.FirstIds | src/Bot/database/crud.py:85-91 | a list is the ids of the first `k` rows (all of them when fewer), in order |
| CrudSpec.Ids | src/Bot/database/crud.py:86 | the primary keys of the rows |
| CrudSpec.Members | src/Bot/database/crud.py:91-95 | the ids listed for `WHERE id IN` |
| CrudSpec.HeadIdsFirst | src/Bot/database/crud.py:85-91 | the collected ids are exactly the ids of the dialog's first k rows, in order |
| CrudSpec.HeadIdsStep | src/Bot/database/crud.py:85-91 | one scan step appends the row's id exactly when it belongs to the dialog and fewer than k ids were collected |
| CrudSpec.InvariantNewDialog | src/Bot/database/crud.py:19-23 | inserting a first dialog under the next key appends it, keeps the store invariant, and gives it no messages |
| CrudSpec.InvariantSave | src/Bot/database/crud.py:58-64 | inserting a message into an existing dialog under the next id, with the default time and a fitting role, keeps the store invariant |
| CrudSpec.InvariantTrim | src/Bot/database/crud.py:93-96 | any delete by id keeps the store invariant |
| CrudSpec.InvariantClear | src/Bot/database/crud.py:102-104 | deleting one dialog's messages keeps the store invariant |
| CrudSpec.InvariantIdsBelow | src/Bot/database/models.py:28 | every message id is below the next autoincrement value |
| CrudSpec.OtherHistoriesKept | src/Bot/database/crud.py:37-52 | a change confined to one user's dialog leaves every other user's history as it was |
| CrudSpec.TrimOutcome | src/Bot/database/crud.py:81-96 | deleting the selected oldest ids of a dialog over the cap is an admissible trim, leaves exactly `cap` messages, and keeps every other dialog |
| CrudSpec.SubsetCount | src/Bot/database/crud.py:93-96 | deleting ids that all belong to the rows removes exactly that many rows |
| CrudSpec.OthersUntouched | src/Bot/database/crud.py:85-96 | deleting ids of one dialog keeps every other dialog's messages |
| CrudSpec.NoTrimOutcome | src/Bot/database/crud.py:81 | a dialog within the cap loses nothing, and deleting nothing is the admissible trim |
| CrudSpec.SaveOutcome | src/Bot/database/crud.py:54-69 | appending then trimming grows the user's history by one up to the cap, appends the new turn when under the cap, and changes no other user's history or other dialog's messages |
| CrudSpec.ClearOutcome | src/Bot/database/crud.py:98-104 | deleting a user's dialog messages empties that history, keeps every other history and the cap, and changes nothing when the history was already empty |
| CrudSpec.CapRespected | src/Bot/database/crud.py:81-96 | no dialog holds more than `cap` messages |
| CrudSpec.CapRestored | src/Bot/database/crud.py:81-96 | a change that leaves other dialogs alone and one dialog within the cap keeps every dialog within it |
| CrudSpec.EarlierRunTrimmedFirst | src/Bot/database/crud.py:85-90 | a row of an earlier run (strictly older timestamp) is deleted whenever a row of a later run is |
| CrudSpec.StoreInvariant | src/Bot/database/models.py:13-32 | the schema's constraints, the autoincrement counters ahead of every key, and `created_at` chronological and not past the current default |
| CrudSpec.Entries | src/Bot/database/crud.py:52 | the `{role, content}` pair of each message, in order |
| CrudSpec.Reversed | src/Bot/database/crud.py:50 | the list back to front |
| CrudSpec.IsTrim | src/Bot/database/crud.py:81-91 | an admissible trim: `count - cap` of the dialog's ids when over the cap, none otherwise, with no deleted row later than a kept one |
| CrudSpec.OldestFirst | src/Bot/database/crud.py:88 | no row left out has an earlier `created_at` than a chosen one |
| CrudSpec.HistoryIn | src/Bot/database/crud.py:37-52 | the user's history: the `{role, content}` turns of their dialog in id order, none without a dialog |
| Models.SchemaValid | src/Bot/database/models.py:13-30 | all of the schema's constraints below |
| Models.HasDialog | src/Bot/database/models.py:29 | some dialog row has that primary key |
| Models.UniqueUsers | src/Bot/database/models.py:14 | no two dialogs share a `user_id` |
| Models.UniqueDialogIds | src/Bot/database/models.py:13 | no two dialogs share a primary key |
| Models.ForeignKeys | src/Bot/database/models.py:29 | every message refers to an existing dialog |
| Models.RolesFit | src/Bot/database/models.py:30 | every role fits `String(20)` |
| Models.IncreasingIds | src/Bot/database/models.py:28 | message ids are strictly increasing in table order, as the autoincrement key assigns them |
| Crud.ReverseInPlace | src/Bot/database/crud.py:50 | the array afterwards holds the old contents back to front |
| Crud.ReversedCopy | src/Bot/database/crud.py:50 | the copy holds the rows back to front |
| Crud.NewestRowsOf | src/Bot/database/crud.py:40-47 | the backward scan returns the reversed newest-`limit` window of the dialog's rows |
| Crud.FirstIdsOf | src/Bot/database/crud.py:85-91 | the scan returns the ids of the dialog's first k rows in storage order |
| Crud.HistoryStore.constructor | src/Bot/database/models.py:9-32 | freshly created tables are empty, satisfy the store invariant and are within the cap |
| Crud.HistoryStore.Reopen | src/Bot/database/models.py:15-32 | tables an earlier run left, opened by a run whose defaults are no earlier than any stored timestamp, satisfy the store invariant |
| Crud.HistoryStore.Valid | src/Bot/database/models.py:13-32 | the store invariant over the fields |
| Crud.HistoryStore.WithinCap | src/Bot/database/crud.py:81-96 | no dialog holds more than `maxContext` messages |
| Crud.HistoryStore.NewDialog | src/Bot/database/crud.py:19-21 | the row `Dialog(user_id=u)` becomes when inserted now: the next key and the dialog default timestamp |
| Crud.HistoryStore.History | src/Bot/database/crud.py:37-52 | the user's history over the current tables |
| Crud.HistoryStore.FindDialog | src/Bot/database/crud.py:13-17 | the scan returns the user's one dialog, or none when no row has that user |
| Crud.HistoryStore.GetOrCreateDialog | src/Bot/database/crud.py:10-25 | returns the existing dialog unchanged, or inserts exactly one new dialog under the next key; no message, no history and the cap do not change |
| Crud.HistoryStore.SelectRecent | src/Bot/database/crud.py:40-47 | the rows read are the dialog's newest `limit` messages, newest first, min(limit, count) of them, with strictly decreasing ids |
| Crud.HistoryStore.CountMessages | src/Bot/database/crud.py:75-79 | the count is the number of the dialog's messages |
| Crud.HistoryStore.OldestIds | src/Bot/database/crud.py:85-91 | over chronological tables, returns min(k, count) distinct ids of the dialog, none later by `created_at` than a message left out |
| Crud.HistoryStore.DeleteIds | src/Bot/database/crud.py:93-96 | the table loses exactly the listed ids and keeps the store invariant |
| Crud.HistoryStore.InsertMessage | src/Bot/database/crud.py:58-64 | the new row gets the next id, the dialog's key and the default time; it is appended and the invariant holds |
| Crud.HistoryStore.DeleteDialogMessages | src/Bot/database/crud.py:102-104 | the table loses exactly that dialog's messages and keeps the store invariant |
| Crud.HistoryStore.CleanupOldMessages | src/Bot/database/crud.py:71-96 | the dialog keeps min(count, cap) messages; the deleted ones are an admissible oldest-first trim; no other dialog changes; the cap, once respected, stays respected |
| Crud.HistoryStore.SaveMessage | src/Bot/database/crud.py:54-69 | the user has a dialog, created under the next key only when missing; the user's history grows by the new turn up to the cap (appended when under the cap); every other history is unchanged; the cap stays respected |
| Crud.HistoryStore.AppendMessage | src/Bot/database/crud.py:58-67 | once the dialog exists: the insert under the next id followed by the trim, with the same history and cap guarantees |
| Crud.HistoryStore.GetHistory | src/Bot/database/crud.py:28-52 | returns the newest `limit` turns (default `maxContext`) of the user's history, oldest first; only a missing dialog is created, under the next key |
| Crud.HistoryStore.ClearHistory | src/Bot/database/crud.py:98-106 | the user's history becomes empty, the dialog remains (created under the next key only when missing), every other history is unchanged, clearing an empty history changes nothing, and the cap stays respected |
| Crud.SaveThenReadBack | tests/test_database.py:24-33 | one saved message reads back as the only turn, with its role and content |
| Crud.SaveTwice | tests/test_database.py:38-39 | two messages saved into an empty history read back in save order |
| Crud.SaveTwiceThenClear | tests/test_database.py:35-47 | two saved messages read back as two turns; after clear_history the history is empty |
| OpenAIService.LowerChar | src/Bot/services/openai_service.py:61 | `str.lower` on one ASCII character; the result is never an upper-case ASCII letter |
| OpenAIService.Lower | src/Bot/services/openai_service.py:61 | `str.lower`, character by character |
| OpenAIService.Contains | src/Bot/services/openai_service.py:63-66 | Python's `in` on strings, searched front to back |
| OpenAIService.LowerPointwise | src/Bot/services/openai_service.py:61 | lower-casing keeps the length and maps each character by itself |
| OpenAIService.NoUpperLeft | src/Bot/services/openai_service.py:61 | a lower-cased text has no upper-case ASCII letter |
| OpenAIService.LowerIdempotent | src/Bot/services/openai_service.py:61 | lower-casing twice equals lower-casing once |
| OpenAIService.LowerAppend | src/Bot/services/openai_service.py:61 | lower-casing a concatenation lower-cases each part |
| OpenAIService.SameUpToCaseLower | src/Bot/services/openai_service.py:61 | texts differing only in ASCII case lower-case to the same text |
| OpenAIService.ContainsIff | src/Bot/services/openai_service.py:63 | the substring test holds exactly when the needle occurs at some index |
| OpenAIService.ErrorMessage | src/Bot/services/openai_service.py:58-71 | the rate-limit reply exactly when the lower-cased text mentions "rate limit"; the authorization reply exactly when it does not but mentions "authentication" or "api key"; the generic reply exactly when it mentions none |
| OpenAIService.RepliesDistinct | src/Bot/services/openai_service.py:63-71 | the three error replies are different texts |
| OpenAIService.ErrorMessageIgnoresCase | src/Bot/services/openai_service.py:61-71 | error texts differing only in ASCII case get the same reply |
| OpenAIService.ErrorMessageOfLowered | src/Bot/services/openai_service.py:61 | classifying the lower-cased text gives the same reply |
| OpenAIService.MentionedRateLimitWins | src/Bot/services/openai_service.py:61-64 | an error text with "rate limit" anywhere, in any ASCII case, gets the rate-limit reply whatever else it says |
| OpenAIService.FullContext | src/Bot/services/openai_service.py:35-38 | the system prompt as a `system` turn, followed by the history |
| OpenAIService.FullContextShape | src/Bot/services/openai_service.py:35-38 | the context is one turn longer, opens with the system prompt as a `system` turn, and carries the history unchanged after it |
| OpenAIService.HasAnswer | src/Bot/services/openai_service.py:48 | the completion's first choice has non-empty content |
| OpenAIService.ReplyText | src/Bot/services/openai_service.py:48-52 | the first choice's content when present and non-empty, otherwise the fallback; never empty |
| OpenAIService.GenerateResponse | src/Bot/services/openai_service.py:24-56 | the reply is never empty; a failed call gives its error reply and a completion gives its reply text |
| OpenAIService.ReplyIsKnownOrAnswer | src/Bot/services/openai_service.py:40-56 | every reply is the model's non-empty answer, the fallback, or one of the three error texts |

## Left out

- Crud.HistoryStore.CleanupOldMessages: the docstring promises that only the newest `MAX_CONTEXT_MESSAGES` remain. The contract promises only an oldest-by-`created_at` choice, because all rows of one process run share one default timestamp and the query leaves ties to the database.
- Crud.HistoryStore.SaveMessage: when the dialog is at its cap, it does not promise that the new message survives the trim, for the same reason.
- Crud.HistoryStore.WithinCap: it is not part of `Valid`. A database reopened under a smaller `MAX_CONTEXT_MESSAGES` can hold more messages per dialog than the new cap, and the code only trims the dialog it saves into. The operations promise instead that a store within the cap stays within it.
- Crud.HistoryStore.Reopen: it requires the stored timestamps to be no later than the new run's defaults, that is, a clock that did not go backwards between runs.
- Crud.HistoryStore.OldestIds: it returns the tied rows in storage order, but its contract promises only what `ORDER BY created_at` guarantees.
- Sessions, commits, `refresh`, async execution and concurrent requests are not modelled. Each call is one atomic step on the tables. Transaction rollback on failure is not modelled either.
- The database engine is not modelled.
  - `session.py` (engine and session factory) and `model.py` are not part of this model.
  - SQLite does not enforce the `String(20)` width, so on SQLite a longer role would be stored. The model requires a fitting role, as the column declaration does.
- Configuration is not modelled.
  - `config.py` reads `MAX_CONTENT_MESSAGES` from the environment while the code uses `MAX_CONTEXT_MESSAGES`.
  - It defines `OPEN_API_KEY` while `openai_service.py` reads `OPENAI_API_KEY`, `OPENAI_BASE_URL` and `OPENAI_MODEL`.
  - The cap is a constructor parameter instead.
- Negative `limit` values for get_history are not modelled; `limit` is a natural number or absent. A negative LIMIT means different things on different database engines.
- Timestamps are opaque integers. The `datetime` values and their time zones are not modelled.
- The network call to the chat API is not modelled. Neither are `temperature` and `max_tokens`, logging, and the module-level service instance. The call's outcome (a completion or an exception's text) is a function parameter of `GenerateResponse`.
- `SYSTEM_PROMPT` (`prompts.py`) is not part of this model; it is a parameter.
- `str.lower` is modelled for ASCII letters only. Python's Unicode case mapping is not modelled.
- `str(error)` is taken as given: the exception's text is the parameter of `ErrorMessage`.
- The dialog service that orchestrates these calls is not part of this model, so `test_dialog_service_flow` is not replayed.
