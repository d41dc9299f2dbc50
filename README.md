# goblocks store, login flow and workspace handlers in Dafny

This project models the part of goblocks that decides what happens to its four
MySQL tables (`systems`, `users`, `blocks`, `metas`):

- the `DatabaseManager` store layer;
- the login-code and federated-login flow of `MakeLogin`;
- the success/fail logic of the JSON API handlers `Login`, `Verify`,
  `GetWorkspaces`, `AddNewWorkspace`, `GetWorkspace` and `UpdateWorkspace`;
- the text helpers of the utilities service.

Each table is a sequence of row records in a `Store.Database` object, with an
AUTO_INCREMENT counter for every table that has one. Each SQL statement becomes
a function over those rows (module `Tables`) or a method that reassigns them
(class `Store.Database`). `Store.DatabaseManager` is bound to one request's
domain and access key, just as the Go struct is. Its methods decide which
statements run, and their contracts state the new tables and the result. The
handlers live in `Api.ApiController`. Each returns a `Reply` value that stands
for the JSON body and the HTTP status written. A Go panic (a failed type
assertion, an index into a nil slice) and the 500 answer gin's recovery writes
are the reply `Crashed`.

Modules, in dependency order:

| module | file | contents |
|---|---|---|
| `Wrappers` | wrappers.dfy | `Option`, `Result` |
| `Strings` | strings.dfy | `strconv.FormatInt`/`Atoi`, `%x` and `%0Nd`, MySQL `LIKE`, substring search, `strings.TrimSpace`, UTF-8 byte length |
| `Json` | json.dfy | `json.Marshal` for the values stored in metas, and decoding of a string literal |
| `Timestamps` | timestamps.dfy | the `2006-01-02 15:04:05` layout (format and `time.Parse`), RFC 3339 output, `FormatTimeToISO` |
| `Tables` | tables.dfy | row records, and the `WHERE`, `ORDER BY`, `LIMIT`/`OFFSET`, `UPDATE` and insert semantics of every statement |
| `Store` | store.dfy | `Database` (the tables) and `DatabaseManager` (the Go methods) |
| `Text` | text.dfy | `CleanText`, `SplitText`, `truncateString`, `uniqid` |
| `Utilities` | utilities.dfy | `MakeLogin`, `GetSubscriptionInfo`'s thread count, `GetProfile` |
| `Api` | api.dfy | the six handlers |

## Behaviour modelled as written

- **AddUser with a new email fails.** AddUser returns on any scan error,
  "no rows" included. So for an email with no user row it returns 0 and
  `sql.ErrNoRows`, and `MakeLogin` gives up: an unknown email never gets an
  account (`Store.AddUserResult`). The insert runs only when a row with that
  email exists and its id is not positive.
  `Store.Database.Valid` does not rule such a row out, so this branch remains
  live in the model.
- **AddBlock's existence check ignores status; its re-read does not.** The check
  is `WHERE slug = ?` and the re-read adds `AND status = 1`. So a soft-deleted
  slug is updated in place and then reported as an error
  (`Tables.UpdateExisting`, `Store.DatabaseManager.AddBlock`).
- **GetBlocks and GetBlock test status differently.** GetBlocks lists rows with
  `status = 1`; GetBlock accepts `status > 0` (`Tables.Listed` vs
  `Tables.Selects`).
- **Verify searches every meta row.** It scans all meta rows, of any parent, key
  or status, for the first whose value contains both `code` and the submitted
  code. It then takes that row's `parent_id` as a user id (`Api.CodeMeta`). An
  empty code therefore matches the first meta that contains `code`
  (`Api.EmptyCodeMatchesAny`).
- **Federated login with no user row panics.** `GetAccessKey` returns a nil
  slice for an unknown id, and indexing it panics. This is reachable from both
  the federated login and `Verify`.
- **The Login reply tests the id, not the outcome.** It says `success` exactly
  when the returned id is above 0. Only the empty access key of the code path
  tells the code path apart.
- **SplitText's chunkSize is never used.** It is given its default of 256 and
  then ignored; only `minSize`, compared with `<` against the byte lengths,
  shapes the chunks.

Go's `rand.Intn`, `time.Now`, `uuid.New` and the MD5 hash are parameters of
the methods that use them:

- `draw` is the value of `rand.Intn(900000)`;
- `draws` holds the fifteen values of `rand.Intn(36)` that NewSlug draws;
- `now` and `timestamp` come from the clock;
- `freshKey` is the new UUID;
- `md5` is the hash.

The email `MakeLogin` sends is returned as the out-parameter `mail` rather
than sent.

## Model

| member | source | states |
|---|---|---|
| Store.NewDatabaseManager | packages/services/database_manager.go:40-68 | empty domain leaves the systems table alone and gives systemID 0; otherwise the system is resolved as `SystemResolved` says; the constructor fails with "user not found" exactly when a non-empty access key matches no user; userID is 0 for an empty key, else the id of the first user with that key; the tables end as `SystemsAfter` says and systemID is `ResolvedSystem` |
| Store.DatabaseManager.Init | packages/services/database_manager.go:41-45 | the struct literal: the db, domain and key given, both ids 0 |
| Store.DatabaseManager.GetSystemIDByDomain | packages/services/database_manager.go:90-119 | reuses the first active system whose subdomain or domain equals the input, else appends exactly one row (subdomain = domain = input, status 1) with the next id and returns that id |
| Tables.AddedSystemServes | packages/services/database_manager.go:92-95 | after that insert, the same lookup finds the new row, so a repeated call reuses it |
| Tables.SystemFor | packages/services/database_manager.go:92-95 | the first active system serving the domain, or None when no row serves it |
| Store.DatabaseManager.GetUserIDByAccessKey | packages/services/database_manager.go:78-88 | Ok iff some user has that key, with the id of the first such user; Err(UserNotFound) otherwise |
| Store.DatabaseManager.AddUser | packages/services/database_manager.go:121-147 | result is `AddUserResult`: (0, no rows) for an unknown email, (id, "user already exists") for an id above 0, else the insert with the next id; the users table changes only in that last case, by one appended row holding the email, hashed password, fresh key and systemID |
| Store.Database.InsertUser | packages/services/database_manager.go:133-144 | appends one user row with the counter's id and returns it as LastInsertId |
| Store.Database.InsertSystem | packages/services/database_manager.go:105-118 | appends one active system row with the counter's id and returns it |
| Store.DatabaseManager.GetAccessKey | packages/services/database_manager.go:149-162 | Some iff a user has that id, then the email and access key of the first such row; None (Go's nil slice) otherwise |
| Store.DatabaseManager.AddMeta | packages/services/database_manager.go:164-198 | metas become `UpsertMeta` of the stored text (a string verbatim, anything else as JSON); keeps one row per triple |
| Store.Database.UpdateMetas | packages/services/database_manager.go:187-190 | every row of the triple gets the value and status 1 |
| Store.Database.InsertMeta | packages/services/database_manager.go:192-195 | one row appended with status 1 |
| Tables.UpsertMetaUnique | packages/services/database_manager.go:177-196 | the upsert keeps at most one row per (parent, parent_id, meta_key) |
| Tables.UpsertMetaEffect | packages/services/database_manager.go:177-213 | after the upsert exactly one row of the triple exists, it is (value, status 1) even if it had status 0, every other row is unchanged, the count grows by one only for a new triple, and GetMeta's lookup then returns the value |
| Tables.SetMeta | packages/services/database_manager.go:187-190 | the UPDATE keeps the number of rows |
| Tables.MetaLookup | packages/services/database_manager.go:200-205 | Some iff a live row of the triple exists, and then the value of the first live row of the triple |
| Store.DatabaseManager.GetMeta | packages/services/database_manager.go:200-213 | the value of the first live row of the triple; "" when there is none |
| Store.DatabaseManager.AddBlock | packages/services/database_manager.go:227-285 | the slug is the given one or `NewSlug(15)`; blocks become `UpsertBlock`; the counter grows only on insert; the result is the view of the live row with that slug, or an error when there is none |
| Tables.UpdateExisting | packages/services/database_manager.go:232-271 | on an existing slug (any status): row count unchanged, only title, content and modified_at of that row change, every other row unchanged; the re-read finds it only when its status is 1 |
| Tables.InsertNew | packages/services/database_manager.go:244-271 | on an unknown slug exactly one row is appended, with author = userID, status 1, the slug, and parent = the given int or 0; slugs stay unique and ids ascending; the re-read finds that row |
| Tables.UpdateBySlug | packages/services/database_manager.go:237-240 | the UPDATE keeps the number of rows |
| Store.Database.UpdateBlocksBySlug | packages/services/database_manager.go:237-240 | blocks become `UpdateBySlug` |
| Store.Database.InsertBlock | packages/services/database_manager.go:250-254 | appends the new block with the counter's id |
| Tables.SlugIndex | packages/services/database_manager.go:233 | the first row with that slug, or None when no row has it |
| Tables.LiveSlugIndex | packages/services/database_manager.go:266-269 | the first row with that slug and status 1, or None when there is none |
| Store.NewSlug | packages/services/database_manager.go:287-295 | the byte-filling loop yields `SlugText`: n characters, each a lower-case letter or digit picked by the draws |
| Store.SlugText | packages/services/database_manager.go:288-293 | length n, character i is the alphabet at draw i |
| Store.SlugTextChars | packages/services/database_manager.go:288 | every slug character is in `[a-z0-9]` |
| Store.DatabaseManager.GetBlocks | packages/services/database_manager.go:297-353 | Err for a negative LIMIT or OFFSET; otherwise the views of `Window(Listing(...), (page-1)·entriesPerPage, entriesPerPage)`, which are newest first (ids strictly descending) whenever the table's ids ascend |
| Store.ScanBlocks | packages/services/database_manager.go:329-350 | the `rows.Next()` loop returns the view of every row, in order |
| Tables.ListingSound | packages/services/database_manager.go:300-318 | every listed row is a table row with the type, status 1, the parent when one is given, and the author or a privilege meta (meta status not checked) |
| Tables.ListingComplete | packages/services/database_manager.go:300-318 | every row the WHERE clause selects is listed |
| Tables.ListingDescending | packages/services/database_manager.go:320 | the listing's ids strictly descend |
| Tables.Window | packages/services/database_manager.go:320-321 | at most limit rows, the slice at offset, empty past the end |
| Tables.WindowDescending | packages/services/database_manager.go:320-321 | a page cut from a newest-first result is newest first |
| Tables.WindowIn | packages/services/database_manager.go:320-321 | a page holds only rows of the full result |
| Tables.WindowsAdjoin | packages/services/database_manager.go:320-321 | consecutive pages neither overlap nor skip rows |
| Tables.PageOffset | packages/services/database_manager.go:298 | `(page-1)*entriesPerPage` with int64 wrap-around |
| Tables.PrivilegeKeyInjective | packages/services/database_manager.go:312 | distinct users have distinct `privilege_<id>` keys |
| Store.DatabaseManager.GetBlock | packages/services/database_manager.go:363-416 | None iff no row passes the filters; otherwise the first such row's view, its "entry" children when there are any, and the map of all its metas |
| Tables.FindBlock | packages/services/database_manager.go:364-385 | the first row passing `status > 0`, author-or-privilege and the optional type, id, slug and parent filters, or None when no row passes |
| Tables.UntypedFindsAuthored | packages/services/database_manager.go:364-368 | with type "" (and no meta whose parent is "") only authored blocks are found |
| Store.DatabaseManager.GetMetas | packages/services/database_manager.go:418-441 | with no keys the loop builds `MetaMap` (a later row wins, meta status ignored); with keys the unbound placeholders make it an error |
| Tables.MetaMapKeys | packages/services/database_manager.go:423-438 | a key is in the map iff some row of the owner has it |
| Tables.MetaMapValue | packages/services/database_manager.go:432-438 | with one row per triple, the map holds each row's value |
| Store.DatabaseManager.DeleteBlock | packages/services/database_manager.go:443-446 | blocks become `SetStatusZero`; store invariant kept |
| Store.Database.SetBlockStatusZero | packages/services/database_manager.go:444 | blocks become `SetStatusZero` |
| Tables.SetStatusZero | packages/services/database_manager.go:444 | the UPDATE keeps the number of rows |
| Tables.DeleteHides | packages/services/database_manager.go:443-446 | only status changes, exactly on rows with that id; afterwards neither GetBlock's lookup nor GetBlocks' listing returns that id, for any user and filters |
| Tables.ViewOfStored | packages/services/database_manager.go:274-284 | a stored block reads back with its times in RFC 3339 and its id, slug and author |
| Tables.Views | packages/services/database_manager.go:338-349 | one view per row, in order |
| Timestamps.FormatTimeToISO | packages/services/database_manager.go:355-361 | "" exactly when the `2006-01-02 15:04:05` layout rejects the text; otherwise the RFC 3339 form of the parsed time |
| Timestamps.ISOOfStorage | packages/services/database_manager.go:355-361 | a stored `YYYY-MM-DD HH:MM:SS` becomes `YYYY-MM-DDTHH:MM:SSZ` |
| Timestamps.ParseFormat | packages/services/database_manager.go:356 | parsing the stored text of a valid time gives that time back |
| Timestamps.ParseFormatExactly | packages/services/database_manager.go:356 | for any time that fits the layout, parsing succeeds iff the date is valid |
| Timestamps.AcceptsShortHour | packages/services/database_manager.go:356 | the layout also accepts several spaces and a one-digit hour |
| Timestamps.ParseStorage | packages/services/database_manager.go:356 | whatever is parsed is a valid date and time |
| Timestamps.FormatStorage | packages/services/database_manager.go:239 | 19 characters with a space at index 10 |
| Timestamps.FormatRFC3339 | packages/services/database_manager.go:360 | 20 characters, `T` at index 10 and `Z` at the end |
| Json.EncodeAdminList | packages/controllers/api.go:221-222 | `[]string{"admin"}` is stored as `["admin"]` |
| Json.EncodeInt | packages/controllers/api.go:298 | an int64 value is stored as its decimal numeral |
| Json.QuoteRoundTrip | packages/services/database_manager.go:170-174 | a JSON-encoded string is quoted and decodes back to itself |
| Json.UnescapeEscape | packages/services/database_manager.go:170-174 | decoding the escaped body of a string literal inverts the escaping |
| Json.EscapeChar | packages/services/database_manager.go:170 | a character is written as itself iff it needs no escape |
| Json.PairContains | packages/services/utilities.go:104-108 | the first field's key and a plain string value occur in an encoded two-field object |
| Strings.FormatInt | packages/services/database_manager.go:312 | decimal digits (with `-` for a negative) whose value is the number |
| Strings.Atoi | packages/controllers/api.go:132 | only a sign and decimal digits are accepted, and the value fits in an int64 |
| Strings.AtoiOfFormatInt | packages/controllers/api.go:132 | Atoi reads back every int64 FormatInt writes |
| Strings.AtoiRejectsNonDigit | packages/controllers/api.go:132 | a non-digit, non-leading-sign character makes Atoi fail |
| Strings.FormatIntInjective | packages/services/database_manager.go:312 | distinct ids have distinct numerals |
| Strings.LikeContains | packages/controllers/api.go:102-106 | `s LIKE '%q%'` for a literal q holds iff q occurs in s |
| Strings.LikePrefix | packages/controllers/api.go:102-106 | `s LIKE 'q%'` for a literal q holds iff q is a prefix of s |
| Strings.LikePercent | packages/controllers/api.go:102-106 | `%` matches every string |
| Strings.TrimSpaceSlice | packages/services/utilities.go:451 | TrimSpace returns a contiguous piece and drops only white space |
| Strings.TrimSpaceEnds | packages/services/utilities.go:451 | the result neither starts nor ends with white space |
| Strings.TrimSpaceTrimmed | packages/services/utilities.go:459-466 | trimming text with no white space at either end changes nothing |
| Strings.Utf8LenConcat | packages/services/utilities.go:452 | Go's `len` of a concatenation is the sum of the lengths |
| Strings.WrapInt64 | packages/services/database_manager.go:298 | the result is in int64 and congruent to the input mod 2^64 |
| Text.CleanText | packages/services/utilities.go:475-490 | every output character is in 0x20-0x7E, with no two adjacent spaces and no space at either end |
| Text.CleanTextIdempotent | packages/services/utilities.go:475-490 | CleanText twice equals CleanText once |
| Text.CleanTextKeepsGraphic | packages/services/utilities.go:481-489 | the printable non-space ASCII characters of the input survive, in order |
| Text.ReplaceNonPrintable | packages/services/utilities.go:482-483 | same length; each character outside 0x20-0x7E becomes a space, every other is kept |
| Text.SpaceRun | packages/services/utilities.go:486-487 | the run of `\s` characters at the start |
| Text.CollapseNoDoubleSpace | packages/services/utilities.go:486-487 | after `\s+` → " " no two spaces are adjacent |
| Text.CollapseFixed | packages/services/utilities.go:486-487 | text with no tab, newline or double space is left unchanged |
| Text.Sentences | packages/services/utilities.go:444-445 | the matches of `([^.]+\.?)\s*`: each non-empty and not starting with `.` |
| Text.SentencesKeepText | packages/services/utilities.go:444-445 | the matches hold every character except periods that no match can start with |
| Text.SplitText | packages/services/utilities.go:435-470 | the loop returns `Chunks`: the sentences packed in order, one joining the chunk while the byte lengths add up to less than minSize (200 when 0), else flushing it |
| Text.PackStep | packages/services/utilities.go:450-463 | one loop step: the sentence joins, or the chunk is flushed and the sentence starts the next |
| Text.ChunksTrimmed | packages/services/utilities.go:450-467 | every chunk is non-empty and trimmed |
| Text.ChunksKeepText | packages/services/utilities.go:444-467 | the chunks in order hold the text's non-space, non-period characters in order: nothing is lost, duplicated or reordered |
| Text.ChunkSizes | packages/services/utilities.go:452-461 | each chunk is at most minSize bytes, or a single sentence |
| Text.TruncateString | packages/services/utilities.go:532-537 | for max ≥ 0 a prefix of str of byte length min(len, max); a negative max is `str[:max]`'s panic (None) |
| Text.TruncateIdempotent | packages/services/utilities.go:532-537 | truncating twice equals truncating once |
| Text.GoRem | packages/services/utilities.go:301 | Go's `%`: the usual remainder for a non-negative dividend, non-positive for a negative one |
| Text.Uniqid | packages/services/utilities.go:299-302 | lower-case hex digits for a non-negative clock |
| Text.UniqidShape | packages/services/utilities.go:299-302 | 10 hex characters, the first two "00", encoding UnixNano mod 2^32 |
| Text.UniqidNegative | packages/services/utilities.go:301 | a negative clock (before 1970) gives a `-` sign instead |
| Utilities.LoginCodeShape | packages/services/utilities.go:72-73 | the code is 6 decimal digits, not starting with 0, unchanged by `%06d`, with value in [100000, 999999] |
| Utilities.DecimalLength | packages/services/utilities.go:73 | a number with k decimal digits has a numeral of length k |
| Utilities.ValidationValueMatches | packages/services/utilities.go:104-108 | the stored validation value matches both of Verify's LIKE patterns for its code |
| Utilities.MakeLogin | packages/services/utilities.go:57-136 | no body → fail; a body without an email → panic; users change as AddUser says; unknown email → fail with no meta or mail; federated (both `aud` and `azp`) → the stored email and key, or a panic when the id names no user, with no meta and no mail; otherwise the validation meta `{code, timestamp}` is upserted, the code is mailed, and the key is "" |
| Utilities.FederatedLogin | packages/services/utilities.go:87-99 | panics iff no user has the id; otherwise returns that user's email and access key |
| Utilities.SendCode | packages/services/utilities.go:103-135 | upserts ("user", id, "validation_key") with the JSON of the code and timestamp, mails the code under the fixed subject, returns an empty key |
| Utilities.SubscriptionInfo | packages/services/utilities.go:590-623 | carries the user id; the stored text is the first subscription meta's value, and "" when there is none; `expiry_date` is "" exactly when no subscription meta exists or the first one holds ""; with ids ascending, `threads` is the number of live threads whose parent is a live workspace the user authored |
| Utilities.ThreadCountCounts | packages/services/utilities.go:607-616 | the join count equals the number of such threads |
| Utilities.JoinCountUnique | packages/services/utilities.go:611-614 | with unique ids, each thread joins at most one workspace row |
| Utilities.JoinCountNone | packages/services/utilities.go:611 | a thread whose parent is no block's id is not counted |
| Utilities.CountedThreads | packages/services/utilities.go:609-614 | a thread is counted iff it is live and its parent is a live workspace of the user |
| Utilities.GetProfile | packages/services/utilities.go:400-430 | None iff no live "thread" has the slug; otherwise the id, title, slug, parent and author of such a row |
| Api.ApiController.constructor | packages/controllers/api.go:18-26 | holds the database |
| Api.ApiController.Login | packages/controllers/api.go:51-75 | the systems table and its counter end as `SystemsAfter` says (untouched for an empty domain, else the domain's resolution, even when the manager then fails); a failed manager → fail, empty key, no user, counter or meta write; no mail without a body or an email; otherwise the users table and its counter are untouched without an email and end as `UsersAfterAdd` says (with the resolved system id) when there is one; else the MakeLogin cases, with `success` iff the returned id is above 0 and the key exactly MakeLogin's ("" on the code path) |
| Api.ApiController.Verify | packages/controllers/api.go:77-127 | the systems table and its counter end as `SystemsAfter` says (untouched for an empty domain, else the domain's resolution, even when the manager then fails); failed manager → fail; no JSON body → 400; otherwise takes uid from the first meta matching both LIKE patterns; panics iff uid > 0 names no user; succeeds iff uid > 0 names a user with a non-empty email, returning that email and key; otherwise fail with empty key and email |
| Api.CodeIsFound | packages/controllers/api.go:102-106 | a stored validation meta for a code is found by Verify's search, at its row or an earlier one |
| Api.EmptyCodeMatchesAny | packages/controllers/api.go:102-106 | an empty code matches the first meta containing `code` |
| Api.LikeCodeContains | packages/controllers/api.go:105-106 | `LIKE '%code%'` is a substring test |
| Api.PageNumber | packages/controllers/api.go:132-135 | the page is at least 1, is 1 unless Atoi gave it, and is Atoi's value whenever that is ≥ 1 |
| Api.ApiController.GetWorkspaces | packages/controllers/api.go:129-178 | the systems table and its counter end as `SystemsAfter` says (untouched for an empty domain, else the domain's resolution, even when the manager then fails); failed manager → fail; otherwise 20 "workspace" listings per page from the clamped page, limit 20, and the subscription info; each listed workspace is visible to the user |
| Api.PageListed | packages/controllers/api.go:151 | every row of a page is a table row the WHERE clause selects |
| Api.ApiController.AddNewWorkspace | packages/controllers/api.go:180-228 | no JSON body → 400 and no change to any table or counter; with a body, the systems table and its counter end as `SystemsAfter` says (untouched for an empty domain, else the domain's resolution, even when the manager then fails); failed manager → fail, no block, block counter or meta write; otherwise AddBlock of a "workspace" (generated slug, empty content, parent 0, the current user), the block counter moving on only for a new slug, then on success the `privilege_<uid>` = `["admin"]` meta on its id |
| Api.CreateWorkspace | packages/controllers/api.go:202-227 | the AddBlock-then-AddMeta sequence, as `WorkspaceCreated` states: blocks become `UpsertBlock`, the block counter grows by one exactly when the slug is new, and only a live read-back is answered and granted `["admin"]` |
| Api.CreatorFindsWorkspace | packages/controllers/api.go:204-227 | with a fresh slug the reply is the new block (next id, the creator as author), the block counter has moved on by one, the creator's GetBlock by that slug finds it, and the creator holds the privilege |
| Api.UpsertGrants | packages/controllers/api.go:222 | writing a user's privilege meta grants them the block |
| Api.ApiController.GetWorkspace | packages/controllers/api.go:230-265 | the systems table and its counter end as `SystemsAfter` says (untouched for an empty domain, else the domain's resolution, even when the manager then fails); failed manager or empty slug → fail; no visible workspace with that slug → no reply; otherwise that block with its children and metas, the page and limit 20 |
| Api.ApiController.UpdateWorkspace | packages/controllers/api.go:279-305 | the systems table and its counter end as `SystemsAfter` says (untouched for an empty domain, else the domain's resolution, even when the manager then fails); failed manager → fail with no meta write; otherwise `success`, and `last_updated_by` = the decimal user id is written only when the slug resolves to a visible workspace; blocks untouched |

## Left out

- HTTP glue: gin routing, header reading, JSON binding and response writing. Headers, the request body and the path parameters are method parameters; the reply is a value.
- SendEmail: network I/O to Mailjet. Its result is ignored by the caller, so the email is a returned value and the transport is not modelled.
- MD5, `uuid.New`, `rand.Seed`/`rand.Intn` and `time.Now`: library internals; they are parameters.
- CosineSimilarity, convertInterfaceSliceToFloat64 and atoi: floating point and a `fmt.Sscanf` wrapper, outside the store and login logic.
- Concurrency: the check-then-act pairs (AddMeta, AddBlock, getSystemIDByDomain) are modelled as running alone.
- Database I/O errors: statements never fail except for the logical outcomes (no rows, a negative LIMIT/OFFSET, unbound placeholders). So Verify's early return when GetAccessKey errors, GetBlock's error path and GetSubscriptionInfo's error are not modelled.
- MySQL collation: comparisons and LIKE are case- and trailing-space-sensitive here, whereas MySQL's default collation is not.
- NULL in `blocks.parent`: the column always holds an integer, since AddBlock never writes NULL.
- Utilities.SubscriptionInfo: the subscription JSON's own fields (merged into the reply by `json.Unmarshal`) are kept as the stored text, not decoded; `expiryDate` is None whenever the stored text is not empty.
- Text.CleanText: the `utf8.ValidString` repair step is the identity on Dafny strings, which cannot hold invalid UTF-8.
- Store.DatabaseManager.GetBlocks: the empty `metas` map attached to each listed block is not part of `BlockView`.
- GetMetas with keys: modelled as the error the driver reports for unbound placeholders; the only live call passes no keys.
- GetWorkspaces, GetWorkspace, UpdateWorkspace and GetWorkspaceMetas of utilities.go: they assert a `status` key the store never returns, and no route reaches them.
- GetWorkspaceProfile, AddNewProfile, DeleteProfile and GetSubscriberUserID: outside the store, login and workspace logic.
- The commented-out handlers, GetThreads and ApiWelcome: the first are dead code; the other two return constants.
- GetCurrentUser and GetSystemID: plain field reads, modelled by reading `userID` and `systemID`.
- The `view/` React front end and its build configuration.
