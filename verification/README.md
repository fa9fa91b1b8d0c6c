# Chat memory and product catalogue of the e-commerce chat backend

This project models the conversation-memory core of a small e-commerce backend.
A user sends a message for a session. The service stores it, reads the
session's recent history and the product catalogue, and asks a text generator
for a reply. It then stores the reply and answers with it. The model covers
four layers:

- **Domain entities** (`Entities`). `Product` and `ChatMessage` validate
  themselves on construction. The model gives each a constructor that returns
  a `Result`, and each is a subset type, so an invalid entity cannot be
  written. `Product` also has its stock operations. `ChatContext` keeps a
  suffix window of the conversation and renders it as `role: message` lines.
  Python's `str.strip`, `"\n".join` and `str.split` are modelled in `Text`.
- **SQL repositories** (`ChatRepository`, `ProductRepository`).
  - The chat table is a sequence of rows in insertion order.
  - The product table is a map from primary key to the row's other columns.
  - Reading a row goes through the entity constructor, so a stored row that
    no longer validates makes the query fail with the constructor's error.
  - SQLite's key assignment is modelled: one more than the largest key, or 1
    on an empty table. So are the integrity error for an explicit key already
    in use and the ascending-key order of an unordered full-table query.
- **Repository interfaces** (`Repositories`). Each abstract method's
  documented promise becomes a predicate. A lemma shows that the SQL
  repository keeps that promise.
- **Chat service** (`ChatService`). One turn of `process_user_message` is a
  pure function of both tables, the request, the turn's clock readings and
  the generator. It returns the tables afterwards, the outcome, and the
  arguments the generator was called with. The service has no `try`/`except`,
  so the first failing step ends the turn with its error. Everything saved
  before that step stays saved.

Where the interface and the SQL implementation disagree, the model follows
the implementation:
- `get_session_history` has a default limit of 10 in the implementation. It
  is optional (`None`) in the interface, and the model writes an absent limit
  as a negative one, which SQLite reads as "no limit".
- `get_recent_messages` is the history query with the count as its limit.

`ORDER BY timestamp DESC` leaves the order of equal timestamps to the
database. The model breaks such ties by insertion order, with the later row
counted as newer.

## Model

| member | source | states |
|---|---|---|
| Text.StripLeft | src/domain/entities.py:29 | `lstrip` removes an all-whitespace prefix (CPython's whitespace set) and stops at a non-whitespace character, leaving a suffix of the input |
| Text.StripRight | src/domain/entities.py:29 | `rstrip` removes an all-whitespace suffix and stops at a non-whitespace character, leaving a prefix of the input |
| Text.BlankIffAllSpace | src/domain/entities.py:29-34 | the string test `not s or not s.strip()` holds exactly when every character of `s` is whitespace, proved in both directions |
| Text.IsBlank | src/domain/entities.py:29-34 | the entities' blank test, written as the source writes it (`not s or not s.strip()`), holds exactly when `s` is whitespace only; the constructors test "whitespace only" on the strength of this |
| Text.Join | src/domain/entities.py:119 | `sep.join(lines)`: splitting the result at the separator gives back exactly the lines, when there is at least one and none contains the separator; the result is at least as long as the first line, so joining a non-empty line never gives "" (what the empty-prompt test needs) |
| Entities.NewProduct | src/domain/entities.py:25-34 | construction succeeds iff the name is not blank, price > 0 and stock >= 0; the product then carries exactly the given fields; otherwise the first failing check (name, then price, then stock) is the error |
| Entities.ReduceStock | src/domain/entities.py:40-49 | a quantity <= 0 fails; a quantity above the stock fails with insufficient stock; otherwise only the stock changes, to stock − quantity, and it stays >= 0 |
| Entities.IncreaseStock | src/domain/entities.py:51-57 | a quantity <= 0 fails; otherwise only the stock changes, to stock + quantity |
| Entities.IsAvailable | src/domain/entities.py:36-38 | `is_available()` (stock > 0) holds exactly when `reduce_stock(1)` succeeds |
| Entities.ReduceThenIncrease | src/domain/entities.py:40-57 | increasing by what a successful reduction took gives back the original product |
| Entities.IncreaseThenReduce | src/domain/entities.py:40-57 | reducing by what a successful increase added gives back the original product |
| Entities.NewChatMessage | src/domain/entities.py:74-83 | construction succeeds iff the role is "user" or "assistant", the session id is not blank and the message is not blank; then the fields are kept; otherwise the first failing check (role, then session id, then message) is the error |
| Entities.IsFromUser | src/domain/entities.py:85-87 | `is_from_user()` holds for a valid message exactly when its role is not "assistant" |
| Entities.IsFromAssistant | src/domain/entities.py:89-91 | `is_from_assistant()` holds exactly when `is_from_user()` does not, so every valid message is from exactly one side |
| Entities.PySuffix | src/domain/entities.py:108 | Python's `s[start:]` is a suffix of `s`: for start >= 0 it leaves out min(start, n) elements, for start < 0 it keeps the last min(−start, n) |
| Entities.RecentMessages | src/domain/entities.py:104-108 | for a positive window, the last min(window, n) messages in their original order; a window of 0 gives the whole list (`[-0:]`); a negative window −k drops the first k |
| Entities.RoleLabel | src/domain/entities.py:117 | the tag is always "user" or "assistant", and for a valid message it is the message's own role |
| Entities.PromptLines | src/domain/entities.py:115-118 | one `role: message` line per message, in the messages' order |
| Entities.FormatForPrompt | src/domain/entities.py:110-119 | the rendered prompt is empty exactly when the window is empty (no rendered line is empty) |
| Entities.FormatForPromptLines | src/domain/entities.py:110-119 | splitting the rendered prompt at newlines gives exactly one `"<role>: <message>"` line per windowed message, in chronological order, when no windowed message text contains a newline (earlier messages may hold any text) |
| Entities.DefaultWindowBound | src/domain/entities.py:104-108 | with the default window of 6, the rendered messages are the last min(6, n) of the conversation, each from user or assistant |
| ChatRepository.ToEntity | src/infrastructure/repositories/chat_repository.py:48-55 | a row reads back iff its columns make a valid message, and then it has the row's id, session, role, text and timestamp |
| ChatRepository.ToRow | src/infrastructure/repositories/chat_repository.py:57-64 | `_entity_to_model` stores the message under the given key, with its timestamp or else the write time; reading the row back gives the message carrying that key and timestamp |
| ChatRepository.RowRoundTrip | src/infrastructure/repositories/chat_repository.py:48-64 | writing back a row that was read gives the same row |
| ChatRepository.ToEntities | src/infrastructure/repositories/chat_repository.py:31 | the conversion of a list of rows fails iff some row does not validate; on success it gives one message per row, in order |
| ChatRepository.NextId | src/infrastructure/repositories/chat_repository.py:15-19 | the key of an insert without id is exactly one more than the largest key in the table (1 on an empty table), so it is larger than every key and not in use |
| ChatRepository.NextIdAfterInsert | src/infrastructure/repositories/chat_repository.py:15-19 | two inserts without ids get consecutive keys |
| ChatRepository.SaveMessage | src/infrastructure/repositories/chat_repository.py:15-20 | an explicit id already in use is the integrity error and writes nothing; otherwise exactly one row is appended, holding the message's fields, its id or a fresh one, and its timestamp or the write time; the saved message is returned; well-formedness and unique keys are kept |
| ChatRepository.SessionRows | src/infrastructure/repositories/chat_repository.py:25 | the filter keeps only rows of the session, drawn from the table |
| ChatRepository.SessionEntries | src/infrastructure/repositories/chat_repository.py:23-25 | the session's rows with their table positions: only rows of the session, each once, in table order, and all of them |
| ChatRepository.SortNewestFirst | src/infrastructure/repositories/chat_repository.py:26 | `ORDER BY timestamp DESC` gives a permutation of the session's rows, newest first |
| ChatRepository.Limit | src/infrastructure/repositories/chat_repository.py:27 | `LIMIT n` keeps a prefix of min(n, count) rows, or all of them for a negative n |
| ChatRepository.Reverse | src/infrastructure/repositories/chat_repository.py:30 | `reverse()` gives the same rows in opposite order |
| ChatRepository.HistoryEntries | src/infrastructure/repositories/chat_repository.py:22-30 | the history rows are oldest first, all from the session and without repeats, and there are min(limit, count) of them; no row of the session that was left out is newer than one that was kept |
| ChatRepository.HistoryDistinct | src/infrastructure/repositories/chat_repository.py:22-30 | the history never lists the same stored row (same position in the table) twice |
| ChatRepository.GetSessionHistory | src/infrastructure/repositories/chat_repository.py:22-31 | on a well-formed table it succeeds; the messages belong to the session, number min(limit, count) and are in ascending timestamp order; each is the conversion of the corresponding history row |
| ChatRepository.GetRecentMessages | src/infrastructure/repositories/chat_repository.py:42-43 | on a well-formed table it succeeds, with min(count, n) of the session's n messages (all for a negative count), all of the session and in ascending timestamp order; each is the reading of the matching row of the history window, which holds the session's newest rows |
| ChatRepository.DeleteSessionHistory | src/infrastructure/repositories/chat_repository.py:33-40 | the returned count is the number of the session's rows and the number of rows removed; no row of the session is left, and every remaining row is an original row of another session |
| ChatRepository.DeleteKeepsOtherSessions | src/infrastructure/repositories/chat_repository.py:33-40 | deleting one session leaves every other session's rows exactly as they were, in order |
| ChatRepository.DeleteThenHistory | src/infrastructure/repositories/chat_repository.py:22-40 | after a delete the session's history is empty, and the count returned equals the size of the unlimited history before it |
| ChatRepository.DominantEndsHistory | src/infrastructure/repositories/chat_repository.py:26-30 | a row of the session that is strictly newer than the others ends every non-empty history window |
| ChatRepository.NewestEndsHistory | src/infrastructure/repositories/chat_repository.py:15-31 | a row appended with a timestamp no earlier than any of its session's rows ends that session's history for any non-zero limit |
| ChatRepository.FirstPairHistory | src/infrastructure/repositories/chat_repository.py:22-30 | a new session that gets two rows, the second not timestamped before the first, has both as its history, in insertion order, whenever the limit admits two |
| ChatRepository.PairHistoryRead | src/infrastructure/repositories/chat_repository.py:22-31 | such a pair of valid rows reads back as their two messages, in order |
| ProductRepository.ToEntity | src/infrastructure/repositories/product_repository.py:69-80 | a row reads back iff its columns make a valid product, and then it has exactly the key and the eight columns |
| ProductRepository.ToRow | src/infrastructure/repositories/product_repository.py:82-93 | `_entity_to_model` keeps all eight columns: under any key the row reads back as the product carrying that key |
| ProductRepository.RowRoundTrip | src/infrastructure/repositories/product_repository.py:69-93 | writing back a product that was read gives the same row |
| ProductRepository.SortedKeys | src/infrastructure/repositories/product_repository.py:18 | an unordered full-table scan visits every key exactly once, in strictly ascending order |
| ProductRepository.NextId | src/infrastructure/repositories/product_repository.py:49-52 | the key of an insert without id is exactly one more than the largest key in the table (1 on an empty table), so it is larger than every key and not in use |
| ProductRepository.MatchingKeys | src/infrastructure/repositories/product_repository.py:25-31 | the `WHERE` filter keeps exactly the scanned keys whose row matches |
| ProductRepository.MatchingKeysAscending | src/infrastructure/repositories/product_repository.py:25-31 | filtering keeps the scan's ascending key order |
| ProductRepository.ToEntities | src/infrastructure/repositories/product_repository.py:19 | the conversion of rows fails iff some row does not validate; on success it gives one product per key, in order |
| ProductRepository.Select | src/infrastructure/repositories/product_repository.py:17-31 | a listing query succeeds on a well-formed table and gives only stored, matching products, every one of them, in ascending id order |
| ProductRepository.GetAll | src/infrastructure/repositories/product_repository.py:17-19 | every stored product, exactly once, in ascending id order |
| ProductRepository.GetByBrand | src/infrastructure/repositories/product_repository.py:25-27 | exactly the stored products of that brand, in ascending id order |
| ProductRepository.GetByCategory | src/infrastructure/repositories/product_repository.py:29-31 | exactly the stored products of that category, in ascending id order |
| ProductRepository.GetById | src/infrastructure/repositories/product_repository.py:21-23 | None iff no row has that id; otherwise the stored product |
| ProductRepository.SaveKey | src/infrastructure/repositories/product_repository.py:34-52 | a truthy id is written under itself; the id 0 is inserted explicitly, which is the integrity error if 0 is taken; no id gets a fresh key |
| ProductRepository.Save | src/infrastructure/repositories/product_repository.py:33-56 | it fails only for the id 0 when 0 is taken, and then writes nothing; otherwise the product is stored under its id, or a fresh one if it had none, overwriting all eight columns, with every other row unchanged; the product is returned as stored |
| ProductRepository.Store | src/infrastructure/repositories/product_repository.py:35-52 | the update or insert leaves the key holding the product's columns and no other row changed |
| ProductRepository.Overwrite | src/infrastructure/repositories/product_repository.py:37-45 | the update branch overwrites every column, so the row equals the product's own row and nothing of the old row is left |
| ProductRepository.Delete | src/infrastructure/repositories/product_repository.py:58-64 | true iff the id was present; exactly that key is removed and every other row is kept |
| ProductRepository.SaveThenGetById | src/infrastructure/repositories/product_repository.py:33-56 | what `save` returns is what `get_by_id` then finds under the returned id |
| ProductRepository.DeleteThenGetById | src/infrastructure/repositories/product_repository.py:58-64 | after `delete`, `get_by_id` finds nothing under that id |
| ProductRepository.InsertThenDelete | src/infrastructure/repositories/product_repository.py:46-64 | deleting a product just inserted without id gives back the original table |
| Repositories.GetAllMeetsInterface | src/domain/repositories.py:15-23 | `get_all` returns every registered product and only those, each exactly once and with the columns stored under its id |
| Repositories.GetByIdMeetsInterface | src/domain/repositories.py:25-36 | `get_by_id` returns the product stored under that id, with all its columns, or None exactly when there is none |
| Repositories.GetByAttributeMeetsInterface | src/domain/repositories.py:38-62 | `get_by_brand` and `get_by_category` return the products with that attribute, and only those, each exactly once and with its stored columns |
| Repositories.SaveMeetsInterface | src/domain/repositories.py:64-75 | `save` stores the product under the returned id (a fresh key when it had none): that row reads back as the returned product, which is the given one with that id, and every other product is unchanged |
| Repositories.DeleteMeetsInterface | src/domain/repositories.py:77-88 | `delete` returns true iff a product was removed, and none is left under that id |
| Repositories.SaveMessageMeetsInterface | src/domain/repositories.py:99-110 | `save_message` returns the message with an id assigned, and it is stored |
| Repositories.SessionHistoryMeetsInterface | src/domain/repositories.py:112-124 | `get_session_history` returns readings of stored rows of the session, chronologically and with no message twice when keys are unique: all n of them without a limit, min(limit, n) of them with one |
| Repositories.RecentMessagesMeetInterface | src/domain/repositories.py:139-151 | `get_recent_messages` returns min(count, n) stored messages of the session, chronologically and with no message twice when keys are unique; no stored message of the session that was left out is newer than one returned, so they are the last ones |
| Repositories.LeftOutIsOlder | src/domain/repositories.py:139-151 | a session row whose message was not returned is no newer than any returned message |
| Repositories.DeleteSessionMeetsInterface | src/domain/repositories.py:126-137 | `delete_session_history` returns the number of messages removed, and none of the session is left |
| ChatService.ProcessUserMessage | src/application/chat_service.py:18-54 | a blank session id or message fails before anything is saved or generated; the catalogue is never written; once accepted, the user's row is never rolled back; a success adds the user's row and then the assistant's row with the reply, and answers for the request's session; on well-formed tables the generator is reached |
| ChatService.Converse | src/application/chat_service.py:31-54 | after the user's row is saved, the generator gets the request's text, the whole catalogue and a context of the session's recent messages read after that save; the generator's answer decides the outcome |
| ChatService.Answer | src/application/chat_service.py:41-54 | a failing generator's error propagates; a blank reply fails the assistant message; the turn succeeds iff the reply is non-blank text, and then the response carries the session, the reply and the response time, and both rows are saved |
| ChatService.AnswerText | src/application/chat_service.py:44-54 | a blank reply leaves only the user's row; otherwise the assistant's row follows it and the response holds the reply |
| ChatService.AssistantRowSaved | src/application/chat_service.py:44-51 | the assistant's row is stored right after the user's, under the next key |
| ChatService.GetSessionHistory | src/application/chat_service.py:56-61 | with the default limit of 10, the repository's chronological list for the session: min(limit, count) stored messages of that session, in ascending timestamp order and with no message twice when keys are unique; no session row left out is newer than a message returned, so they are the session's newest |
| ChatService.DeleteSessionHistory | src/application/chat_service.py:63-67 | the repository's count, unchanged; the session is emptied, other sessions and the catalogue are untouched |
| ChatService.ContextWindow | src/application/chat_service.py:33-35 | the context given to the generator holds between one and six messages, all of the request's session, and its window keeps all of them |
| ChatService.ContextEndsWithRequest | src/application/chat_service.py:24-35 | if no earlier message of the session is timestamped after the new one, the context ends with the user's just-saved message |
| ChatService.SavedMessages | src/application/chat_service.py:24-51 | the two saved messages carry consecutive fresh ids, the session, the roles "user" and "assistant", the request's text and the reply, and the turn's clock readings |
| ChatService.FirstTurnHistory | src/application/chat_service.py:18-67 | after the first successful turn of a new session, provided the assistant's timestamp is not earlier than the user's, its history is exactly the user's message and then the reply, and deleting it reports 2 |
| ChatService.FirstPairRead | src/infrastructure/repositories/chat_repository.py:22-31 | for a new session, once the user's row and then the assistant's row are stored, with the assistant's timestamp not earlier, the default-limit history reads back as exactly the saved user message and then the saved reply, and the session has two rows |
| ChatService.GeneratorFailureKeepsUserRow | src/application/chat_service.py:31-51 | when the generator fails, or returns blank text, the turn fails with that error, the user's row stays and no assistant row is added |

## Left out

- HTTP layer (`src/infrastructure/api/main.py`): routing, CORS and the 404/500 translation are framework plumbing.
- Database engine, ORM models, sessions, commits and seeding (`src/infrastructure/db/`): I/O. The tables are values, and a commit is the new value.
- Storage failures other than the duplicate-key integrity error, such as a lost connection: outside the model.
- The Gemini client and `format_products_info` (`src/infrastructure/llm_providers/gemini_service.py`). The generator is a parameter, a total function that returns a reply or a failure. The client's own error swallowing is not part of the service. Its prompt uses float `:.2f` formatting.
- DTOs (`src/application/dtos.py`) and `product_service.py`: field-copying schemas and a passthrough. The service's response is a plain datatype.
- ChatService.GetSessionHistory: returns the repository's messages, not DTOs. As written, `src/application/chat_service.py:61` calls `ChatHistoryDTO.from_entity`, which `src/application/dtos.py:75-79` does not define. So the source raises `AttributeError` for every non-empty history and returns `[]` only for an empty one. The model's success is the evidently intended behaviour, and there is no `is_user` mapping to model.
- `src/domain/exceptions.py`: message-only exception classes that the modelled code never raises. Errors are values of `Entities.Error`.
- Exception messages: each error is a constructor of `Entities.Error`, not the Spanish message text.
- Clock readings (`datetime.utcnow`) are integer parameters: `now` in the repository, and the `Clock` of a turn in the service.
- Async execution and concurrent turns on the same session: each turn is one sequential pass.
- Prices are `real`. Only the comparison with 0 matters, and no price arithmetic happens. A Python float can also be NaN, and `nan <= 0` is false, so the source accepts a NaN price. A `real` cannot represent NaN, so the model has no such product.
- Tie order of equal timestamps: SQL leaves it to the database, and the model fixes it as insertion order.
- ChatService.ContextEndsWithRequest, ChatRepository.NewestEndsHistory, ChatService.FirstTurnHistory and ChatService.FirstPairRead: assume the clock never runs backwards within a session (for the first turn, the assistant's reading is not earlier than the user's). Without that, the just-saved message need not be the newest, and a backwards clock makes the history list the reply before the user's message.
