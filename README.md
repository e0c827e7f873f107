# one_db connector core, modelled in Dafny

`one_db` keeps SQLite database files in a OneDrive folder. Its
`OneDriveConnector` class (`connect_onedrive.py`) does four things that hold
logic of their own, and this project models each one and proves what it
guarantees:

- **Chunked upload** (`post_file`): an upload session, then a loop of PUTs of
  at most 10 MiB (10485760 bytes). Each PUT carries `Content-Length` and a
  `Content-Range: bytes first-last/complete` header, the form of section 14.4
  of RFC 9110. The server's status steers the cursor: 202 moves it to one
  past the upper field of the first `nextExpectedRanges` entry, 201 and 200
  end with True, 500 sends the same range again, and anything else ends with
  False. The loop is the method `ChunkedUpload.PostFile`. It is proved equal
  to the recursive specification `Transfer`, and the properties are lemmas
  about `Transfer`.
- **Index refresh** (`update_local_info`): the local `onedrive_info` table
  (`_id` AUTOINCREMENT, remote `id`, `name`) mirrors the folder listing. Each
  listed item is upserted by name, then rows whose name is not listed are
  deleted. The class `Connector.OneDriveConnector` holds the table's rows and
  its AUTOINCREMENT counter as fields. Its loop `UpdateLocalInfo` is proved
  equal to the specification `IndexCache.Refresh`, and the lemmas about
  `Refresh` give the guarantees: the mirrored map, kept `_id`s, idempotence,
  and partial failure.
- **Reconciliation** (`find_db`, `create_local_db`): refresh, look the file up,
  then upload, download, do nothing or report it missing. `create_local_db`
  creates and uploads a new database file when `find_db` finds it nowhere,
  then always runs `CREATE TABLE IF NOT EXISTS`.
- **SQL builders** (`operate_db`, and the column list of `create_local_db`):
  the statement text and parameters for insert, update, delete and select.
  Every call that neither raises nor selects is followed by a `replace`
  upload.

The network, the disk and SQLite are inputs, not code. The model is given:

- the session status and the sequence of replies to the PUTs;
- each listing, as items with an optional `id` and `name`;
- whether the local file exists, and its bytes;
- whether SQLite accepts a `CREATE TABLE` statement.

Only a finite reply sequence can be given. If the replies run out while the
upload loop would go on, the outcome is `Pending`. This is not a result the
program itself produces.

Python behaviours modelled as the code behaves:

- `status_code / 100 == 5` is true division, so only status 500 is retried.
  A 503 ends the upload with False.
- After a 202 the new start is the field after the first `-` of the first
  expected range, plus one. That field is the range's upper bound, not its
  lower bound. An open range `a-` makes `int('')` raise.
- The file's read position is never rewound. A retried range is therefore
  sent with the bytes that follow, not the same bytes again.
- `find_db` downloads by the row's first column. That column is the local
  `_id`, not the remote item id.

Two of these read differently from what the code seems to aim at. The test
`status_code / 100 == 5` looks like a test for any 5xx status, yet it holds
for 500 alone. The cursor update after a 202 reads the upper field of a
range the server says it still expects. A server that answers the first
chunk of a 24 MiB file with `10485760-25165823` therefore moves the cursor
past the end of the file, and the upload ends with None after one PUT
(`TwentyFourMiBStopsEarly`). The model follows the code in both cases.

## Model

| member | source | states |
|---|---|---|
| Text.ParseNat | connect_onedrive.py:344 | `int(s)` succeeds exactly on a non-empty string of ASCII digits |
| Text.ParseNatToString | connect_onedrive.py:340-344 | a number rendered in decimal parses back to itself |
| Text.NatToString | connect_onedrive.py:339-340 | Python's `str(n)` for the header numbers: non-empty ASCII digits, no leading zero; `ParseNatToString` reads it back |
| Text.Split | connect_onedrive.py:344 | `s.split(sep)` for one character: never empty and no part holds `sep`; `SplitCount` and `JoinSplit` relate it to `s` |
| Text.Join | connect_onedrive.py:255 | `sep.join(parts)`, as for the column list and the SQL lists; `SplitJoin` and `SplitCommaJoin` read it back |
| Text.SplitCount | connect_onedrive.py:344 | `s.split(sep)` has one part more than `s` has separators |
| Text.JoinSplit | connect_onedrive.py:344 | joining the parts of `s.split(sep)` with `sep` gives `s` back |
| Text.SplitJoin | connect_onedrive.py:344 | splitting parts free of `sep` joined with `sep` gives the parts back |
| ChunkedUpload.ContentRangeRoundTrip | connect_onedrive.py:340 | the `bytes first-last/complete` header parses back to the range it was made from |
| ChunkedUpload.Read | connect_onedrive.py:342 | `f.read(n)` returns n bytes, or the rest of the file when fewer remain |
| ChunkedUpload.ContentRange | connect_onedrive.py:340 | the `bytes first-last/complete` header text; `ContentRangeRoundTrip` parses it back to its range |
| ChunkedUpload.NextPut | connect_onedrive.py:337-342 | the PUT sent from a cursor: `SendFromWellFormed` and `TransferStart` state its range, `Content-Length` and body |
| ChunkedUpload.IsServerError | connect_onedrive.py:349 | `status / 100 == 5` holds for status 500 and for no other integer |
| ChunkedUpload.UpperFieldOfClosedRange | connect_onedrive.py:344 | for a range `a-b` the new cursor field read is `b`, the upper bound |
| ChunkedUpload.UpperFieldOfOpenRange | connect_onedrive.py:344 | for an open range `a-` the field is empty and cannot be parsed |
| ChunkedUpload.NextEnd | connect_onedrive.py:334-345 | the chunk from `start` ends inside the file and is min(10485760, bytes left) long |
| ChunkedUpload.UpperField | connect_onedrive.py:344 | the field read for the new cursor fails unless there is a first range holding a `-` |
| ChunkedUpload.SendFrom | connect_onedrive.py:336-355 | the loop sends at most one PUT per server reply |
| ChunkedUpload.React | connect_onedrive.py:343-355 | after a reply at most one PUT per later reply is sent; the loop can end by the cursor passing the end of the file only after a 202 or a 500 |
| ChunkedUpload.Transfer | connect_onedrive.py:326-358 | at most one PUT per reply; when the session request is not answered 200 nothing is sent and the result is falsy |
| ChunkedUpload.SendFromWellFormed | connect_onedrive.py:334-345 | every PUT's range lies inside the file and inside one chunk; Content-Length is last-first+1, at most 10485760; the range ends at min(first+chunk-1, size-1) |
| ChunkedUpload.SendFromSendsConsecutiveBytes | connect_onedrive.py:337-342 | the bodies of all PUTs, concatenated, are exactly the file's bytes from the read position on, in order |
| ChunkedUpload.SendFromReadsOnward | connect_onedrive.py:342 | the k-th PUT's body is read where the earlier bodies ended, whatever the ranges said |
| ChunkedUpload.SendFromReadsOn | connect_onedrive.py:337-342 | each PUT carries what `f.read(Content-Length)` returns at the read position the earlier PUTs left |
| ChunkedUpload.ReadsOnSent | connect_onedrive.py:342 | bodies each read where the previous one ended add up to one contiguous stretch of the file |
| ChunkedUpload.ReadsOnReadAt | connect_onedrive.py:342 | in such a run of reads, the k-th body is read where the bodies before it end |
| ChunkedUpload.SendFromSteering | connect_onedrive.py:343-350 | every PUT but the last got 202 or 500; the next PUT starts where the reply sends it; after 500 the range repeats |
| ChunkedUpload.SendFromLast | connect_onedrive.py:336-355 | a reply that does not send the loop on decides the result (`Stop`); otherwise the loop ended because the cursor passed the end of the file or the replies ran out |
| ChunkedUpload.SendFromOutcome | connect_onedrive.py:343-355 | True iff the last reply is 200 or 201; a raise iff it is a 202 with an unreadable range; False iff it is none of 200, 201, 202, 500; None only once the cursor reaches the end of the file |
| ChunkedUpload.TransferStart | connect_onedrive.py:326-337 | no PUT and False when the session request is not answered 200; no PUT and None for an empty file; the first PUT is `bytes 0-(n-1)/size` with the first n = min(chunk, size) bytes |
| ChunkedUpload.ChunkAcceptedUpTo | connect_onedrive.py:343-345 | after a full chunk answered 202, the loop resumes at the reported upper field plus one |
| ChunkedUpload.ChunkAccepted | connect_onedrive.py:343-352 | a 201 or 200 to any PUT, from any cursor and read position, ends the upload with True right after that PUT, whatever replies would follow |
| ChunkedUpload.AcceptedAtOnce | connect_onedrive.py:346-352 | a 200 or 201 to the first PUT ends the upload with True after that one PUT, whatever the file size |
| ChunkedUpload.ThreeChunkUpload | connect_onedrive.py:334-348 | a 24 MiB file whose two 202 replies name first ranges with upper fields 10485759 and 20971519 (the last byte received, as in `0-10485759`) takes three PUTs, 0-10485759, 10485760-20971519 and 20971520-25165823 (4 MiB), and returns True on the final 201 |
| ChunkedUpload.OpenRangeRaises | connect_onedrive.py:343-344 | for any non-empty file, a 202 with an open first range `a-` after the first PUT makes the upload raise after that one PUT |
| ChunkedUpload.RemainingRangeEndsLoop | connect_onedrive.py:336-345 | for any non-empty file, a 202 naming the range `a-(size-1)` after the first PUT moves the cursor to the end: one PUT, then None |
| ChunkedUpload.TwentyFourMiBStopsEarly | connect_onedrive.py:336-345 | a 24 MiB file answered 202 with `10485760-25165823` sends one PUT of 10485760 bytes and returns None |
| ChunkedUpload.Status503Fails | connect_onedrive.py:349-355 | a 503 is not retried: False after one PUT |
| ChunkedUpload.RetryAfter500 | connect_onedrive.py:349-350 | two 500s resend the same range, with empty bodies because the read position is not rewound |
| ChunkedUpload.OnReply | connect_onedrive.py:343-355 | the status dispatch gives the cursor `Resume` names (upper field + 1 after 202, the same start after 500) and, when the loop stops, the result `Stop` names |
| ChunkedUpload.SendChunk | connect_onedrive.py:337-355 | one turn of the loop: its PUT is the specification's next PUT, and the rest of the specification goes on from the cursor and read position the turn leaves |
| ChunkedUpload.PostFile | connect_onedrive.py:305-358 | the loop's PUTs and result are exactly those of the specification `Transfer` |
| IndexCache.Lookup | connect_onedrive.py:222-223 | `fetchone()` gives a row with that name, and nothing exactly when no row has it |
| IndexCache.Upsert | connect_onedrive.py:222-228 | one item adds at most one row and raises the counter by at most one; existing rows keep their `_id` and name |
| IndexCache.UpsertAll | connect_onedrive.py:218-230 | the loop never removes a row or lowers the counter, and existing rows keep their `_id` and name |
| IndexCache.Refresh | connect_onedrive.py:216-242 | the counter never goes down; when the refresh returns True every remaining row's name is listed |
| IndexCache.SetIdWhereName | connect_onedrive.py:225-226 | the UPDATE changes the `id` of the rows with that name and nothing else |
| IndexCache.Evict | connect_onedrive.py:236-238 | the DELETE keeps only rows whose name is listed |
| IndexCache.Names | connect_onedrive.py:238 | `[item['name'] for item in drive_items]`; `RefreshMirrorsListing` and `RefreshedLookup` use it as the set of listed names |
| IndexCache.UpsertRow | connect_onedrive.py:222-228 | after one item, its name's row holds its id and keeps its `_id`, or gets counter+1; other names are unchanged |
| IndexCache.UpsertValid | connect_onedrive.py:222-228 | one upsert keeps `_id`s increasing, within the counter, and names distinct |
| IndexCache.EvictValid | connect_onedrive.py:236-238 | the eviction keeps the table consistent |
| IndexCache.UpsertAllRows | connect_onedrive.py:218-230 | on a complete listing, each listed name's row holds the id of its last item; rows of unlisted names are untouched; existing `_id`s are kept and new ones exceed the old counter |
| IndexCache.RefreshMirrorsListing | connect_onedrive.py:216-242 | a refresh on a complete listing returns True and leaves the table, as a name-to-id map, equal to the listing, so an empty listing clears it |
| IndexCache.RefreshKeepsRowIds | connect_onedrive.py:222-238 | a listed name keeps the `_id` it had, or gets one above the old counter |
| IndexCache.RefreshedLookup | connect_onedrive.py:218-238 | after a refresh on a complete listing a name has a row exactly when it is listed; the row holds the id of its last item and keeps its old `_id` |
| IndexCache.RefreshStopsAtIncompleteItem | connect_onedrive.py:218-234 | an item without `id` or `name` makes the refresh return False with the earlier items upserted and nothing evicted |
| IndexCache.UpsertAllUnchanged | connect_onedrive.py:222-228 | when every listed name already holds its listed id, the loop changes nothing |
| IndexCache.UpsertAllRelabels | connect_onedrive.py:218-230 | when every listed name already has a row, the loop keeps the rows, their `_id`s and the counter, and only rewrites each row's id to the one the listing gives its name |
| IndexCache.RefreshIdempotent | connect_onedrive.py:216-242 | refreshing again with the same listing changes nothing and returns True |
| IndexCache.MirrorAgrees | connect_onedrive.py:216-242 | after a refresh every row's name is listed and holds the listed id, and every listed name has a row |
| Statements.ToMapLookup | connect_onedrive.py:410 | a dict built from distinct keys maps each key to its own value |
| Statements.PrefixedLookup | connect_onedrive.py:410 | the where map holds `where_x` exactly for the filter's keys `x`, with their values |
| Statements.UpdateParams | connect_onedrive.py:410 | `{**args[1], **{'where_' + k: v ...}}`; what it binds is stated by `UpdateParamsLookup` |
| Statements.Prefixed | connect_onedrive.py:410 | `{'where_' + k: v ...}`; `PrefixedLookup` states what it holds |
| Statements.SetClause | connect_onedrive.py:408 | `key = :key` for each new value; `UpdateRefs` gives the names it refers to |
| Statements.WhereClause | connect_onedrive.py:409 | `key = :where_key` for each filter key; `UpdateRefs` gives the names it refers to |
| Statements.UpdateSql | connect_onedrive.py:407-411 | the UPDATE text; `UpdateRefs` and `UpdateBindsEveryName` state that every name it refers to is bound |
| Statements.UpdateParamsLookup | connect_onedrive.py:410 | the update binds exactly the new-value keys and the `where_` keys; on a shared key the filter's value wins; other new values keep theirs |
| Statements.UpdateCollision | connect_onedrive.py:410 | a new value under `where_a` is overridden by the filter's `a` |
| Statements.PlaceholderCount | connect_onedrive.py:406 | the placeholder list of n values has exactly n `?` |
| Statements.Placeholders | connect_onedrive.py:406 | the `?, ?, ...` list; `PlaceholderCount` counts its `?` |
| Statements.InsertSql | connect_onedrive.py:404-406 | the INSERT text; `InsertBindsEveryPlaceholder` and `InsertColumnsMatchValues` state its columns and placeholders |
| Statements.InsertBindsEveryPlaceholder | connect_onedrive.py:404-406 | an insert has exactly one `?` per value it binds |
| Statements.InsertColumnsMatchValues | connect_onedrive.py:402-406 | the insert lists the columns in dict order and binds the values in the same order |
| Statements.UpdateRefs | connect_onedrive.py:407-411 | the named parameters of an update are its new-value keys, then `where_` plus each filter key, in order |
| Statements.UpdateBindsEveryName | connect_onedrive.py:407-411 | every named parameter an update refers to is bound |
| Statements.FilterUsesFirstEntryOnly | connect_onedrive.py:412-418 | a delete or select with filters that agree on the first entry builds the same statement |
| Statements.DeleteBindsFirstEntry | connect_onedrive.py:412-414 | a delete has one `?`, bound to the first filter value |
| Statements.DeleteSql | connect_onedrive.py:414 | the DELETE text on one column; `DeleteBindsFirstEntry` states its one placeholder |
| Statements.SelectWhereSql | connect_onedrive.py:418 | the filtered SELECT; `SelectFilter` says when it is used |
| Statements.SelectAllSql | connect_onedrive.py:420 | the SELECT of every row; `SelectFilter` says when it is used |
| Statements.SelectFilter | connect_onedrive.py:415-425 | a select never raises; a non-empty dict filters on its first entry; no filter, an empty one or a non-dict selects every row |
| Statements.OperateDb | connect_onedrive.py:401-428 | only `select` returns rows, and it never raises; every executed statement came with a dict as its second argument |
| Statements.OperateDbOutcome | connect_onedrive.py:401-431 | the call raises exactly when a write lacks its dict arguments or a delete's filter is empty; only a select returns rows without uploading; every other call, an unknown operation included, uploads |
| Statements.UploadsAfter | connect_onedrive.py:429-431 | whether the commit and the `replace` upload follow; `OperateDbOutcome` states exactly when |
| Statements.ColumnDefs | connect_onedrive.py:255 | the column list `k v, k v, ...`; that it reads back as the columns is stated by `ColumnDefsRoundTrip` |
| Statements.ColumnDefsRoundTrip | connect_onedrive.py:255 | the column list `k v, k v, ...` reads back as the columns it was made from |
| Statements.SplitCommaJoin | connect_onedrive.py:255 | splitting a `', '`-join at commas gives the first element, then each other one after a space |
| Statements.CreateTableSql | connect_onedrive.py:274-276 | the statement always run; `NewTableDiffers` and `CreateLocalDbReturns` state where it comes |
| Statements.NewTableSql | connect_onedrive.py:261-264 | the statement that creates a new file; `NewTableDiffers` tells it apart from the other one |
| Connector.OneDriveConnector.constructor | connect_onedrive.py:43-50 | the index table is the stored one, or empty when none exists; either way it is consistent |
| Connector.OneDriveConnector.UpsertItem | connect_onedrive.py:222-228 | one turn of the refresh loop changes the table exactly as `Upsert` says and keeps it consistent |
| Connector.OneDriveConnector.UpdateLocalInfo | connect_onedrive.py:205-246 | the new table and the result are those of `Refresh` on the old table; a consistent table stays consistent |
| Connector.Decide | connect_onedrive.py:295-302 | a transfer starts exactly when the file is on one side only; a download uses the row's `_id`; False exactly when it is on neither side |
| Connector.OneDriveConnector.FindDb | connect_onedrive.py:284-303 | the table, result and transfer are those of `FindDbSpec`; a consistent table stays consistent |
| Connector.FindDbSpec | connect_onedrive.py:284-303 | `find_db` returns True or False, or ends as its upload did when that raised or ran out of replies; it never returns None (an exception inside `download_file` is not modelled) |
| Connector.CreateLocalDbSpec | connect_onedrive.py:248-282 | `create_local_db` as a whole; `CreateLocalDbReturns` and `CreateLocalDbNewFile` state its results |
| Connector.AfterFind | connect_onedrive.py:257-282 | `create_local_db` after `find_db`; `AfterFindReturns` states its results |
| Connector.NewDb | connect_onedrive.py:258-282 | the path for a file found nowhere; `CreateLocalDbNewFile` states its result when every step succeeds |
| Connector.OneDriveConnector.CreateLocalDb | connect_onedrive.py:248-282 | the table, result, statements run and transfers (`find_db`'s step, then the upload of a new file) are those of `CreateLocalDbSpec`; a consistent table stays consistent |
| Connector.OneDriveConnector.CreateAfterFind | connect_onedrive.py:257-282 | the part after `find_db`: table, result, statements and transfers match `AfterFind`; a consistent table stays consistent |
| Connector.OneDriveConnector.CreateNewDb | connect_onedrive.py:258-282 | the path for a file found nowhere matches `NewDb`: create, upload with `fail` (its PUTs and result recorded), refresh, then the final `CREATE TABLE IF NOT EXISTS`; a consistent table stays consistent |
| Connector.OneDriveConnector.OperateDb | connect_onedrive.py:383-431 | the statement is the dispatch's; the step is an upload with `replace` exactly when the dispatch neither raised nor selected, and no transfer otherwise |
| Connector.FindDbDecision | connect_onedrive.py:290-303 | on a complete listing: False iff the file is neither local nor listed; upload with `fail` iff local and not listed; download iff listed and not local, by the row's `_id` (kept from before the refresh), not the remote id |
| Connector.FindDbLocalFile | connect_onedrive.py:295-298 | with the file present locally the result is True whatever the upload returned, unless the upload raised; it never downloads |
| Connector.FindDbIgnoresUploadResult | connect_onedrive.py:296-303 | an upload whose session fails still gives True |
| Connector.CreateLocalDbReturns | connect_onedrive.py:257-282 | when it returns, the result is True iff the final `CREATE TABLE IF NOT EXISTS` ran; that statement is the last one run; a new file is created first, and uploaded after `find_db`'s own transfer, iff `find_db` returned False |
| Connector.AfterFindReturns | connect_onedrive.py:257-282 | after `find_db` returned: True iff the final statement ran; it is the last one run; the new-file statement comes first, and a second transfer follows `find_db`'s, iff `find_db` was falsy |
| Connector.NewTableDiffers | connect_onedrive.py:261-276 | the two `CREATE TABLE` texts differ |
| Connector.CreateLocalDbNewFile | connect_onedrive.py:257-279 | a file found nowhere is created with the table, uploaded with `fail` in one PUT after `find_db` transferred nothing, indexed by a second refresh, and True is returned |

## Left out

- MSAL authentication and its retries (`connect`, `get_token`, the rest of `init_app`): calls into a library that is not part of this model.
- `get_user_id`, `get_drive_id`, `get_path_id`: REST lookups that set `user_id`, `drive_id` and `path_id`. No other logic depends on those values, so the fields are not modelled.
- All HTTP requests and JSON decoding. The session status, the PUT replies and each listing are inputs. A response body without a `value` array is the listing `None`.
- `download_file`: network and disk only. The model records the key `find_db` passes to it. Its file-name extraction from `Content-Disposition` is not modelled, so neither is the `IndexError` that `split('filename=')[1]` raises when the header lacks `filename=`; that exception would leave `find_db` and `create_local_db` at once.
- SQLite itself: statement execution, `commit`, `close`, and SQL errors. Statements are text with parameters. The SQL failures modelled are those of the two `CREATE TABLE` statements in `create_local_db`, given as inputs: the first one raising leaves `create_local_db` with the exception, the final one failing makes it return False. The rows `operate_db` returns from a select are not modelled.
- Statements.SelectFilter: does not model the fallback to selecting every row when the filtered SELECT raises inside SQLite (an unknown column, say), because SQL errors are not modelled.
- File reads and `os.path.exists`. The file's bytes and its existence are inputs. The bytes of the database file after `operate_db`'s commit are an input too.
- `time.sleep`, `print` and logging: no effect on state or results.
- The `conflictBehavior` value reaches only the session request body. The model records which value each upload used (`fail` or `replace`), not its effect on the server.
- Statements.ColumnDefsRoundTrip: stated for column names and types that are single words without commas. A type written with spaces, such as `TEXT NOT NULL`, is rendered by `ColumnDefs` like any other but is outside the read-back lemma.
- Text.ParseNat: Python's `int()` also accepts surrounding whitespace, a sign, underscores and non-ASCII digits. The model accepts ASCII digits only. The server's ranges are plain decimals.
- Text encoding: strings are sequences of characters, and bytes are not decoded.
- Items whose `id` or `name` is JSON `null`: the model has no null value, so a present key always holds a string.
- `Pending` is an artefact of the finite reply sequence. The program itself retries a 500 for as long as the server keeps answering it.
- example.py and config.example.py: entry-point wiring and configuration.
