# DoorDash delivery filter Lambda handlers, in Dafny

The repository holds two AWS Lambda handlers. S3 calls them when order files arrive. Each handler keeps the orders whose status is "delivered", writes them to a target bucket and announces the outcome on an SNS topic.

- `app.py` is the current handler.
  - `process_file` reads one object.
  - It decodes the object as line-delimited JSON, or as one JSON document when that fails.
  - It rejects data without a `status` column.
  - It lower-cases the status column in place and keeps the "delivered" rows.
  - It writes them under a derived key: every `-raw_input` becomes `-delivered`, or `processed/` is prefixed when there is none.
  - `lambda_handler` runs this for every record of the event, in order, and stops at the first error. It then publishes one JSON success notification, or one failure notification followed by the re-raise.
- `lambda.functions.py` is the earlier handler.
  - It reads only the first event record and decodes the object as one JSON document.
  - It keeps the rows whose status is exactly "delivered".
  - It writes them only when there are any, under the key with every `raw_input` renamed `processed`.
  - It publishes a plain-text success or failure notification.

S3 and SNS are modelled as a `Cloud` object. It holds the objects that can be read, fixed for the invocation, and a log of every write and publish, in order. The pandas readers are two opaque functions. Each returns the decoded DataFrame (its column labels and its rows) or the `ValueError` it raises. A row is a map from field name to a string, integer, boolean or null value.

Files:
- `types.dfy`: records, events, errors, effects.
- `text.dfy`: ASCII `lower`, `str(n)`, `in` and Python's `str.replace`, with their lemmas.
- `seqs.dfy`: row selection by a mask.
- `services.dfy`: the `Cloud` object.
- `app.dfy`: app.py.
- `legacy.dfy`: lambda.functions.py.

Each handler is a method that performs the effects on `Cloud`. Its postcondition ties the new log and its return value to a specification function: `App.Run` with `App.HandlerEffects`, and `Legacy.HandlerSpec`. The record loop of app.py is the method `App.ProcessRecords`; `App.Loop` is that loop over any per-record step, so its lemmas hold for every step function. The lemmas state the handlers' promises about those functions.

Three behaviours of the code worth stating plainly:
- `str.replace` replaces every occurrence, not only the first. So `2024/01/01-raw_input-raw_input.json` becomes `2024/01/01-delivered-delivered.json` (`App.DeriveKeyTwoMarkers`).
- `"status" not in df.columns` looks at the DataFrame's column labels, not at every row. Rows without the field pass when the column exists, and a DataFrame with the column and no rows passes too: app.py then writes an empty object and reports zero rows, and lambda.functions.py writes nothing and reports success with a count of zero (`App.ColumnWithoutRows`, `Legacy.ColumnWithoutRows`).
- app.py writes the lower-cased status back into the rows it outputs, so the original spelling is not preserved.

## Model

| member | source | states |
|---|---|---|
| App.DeriveKey | app.py:33-35 | the output key never equals the source key, so the input object is never overwritten |
| App.DeriveKeyReplaces | app.py:33-35 | a key containing `-raw_input` has every occurrence replaced by `-delivered`, with no prefix; the length is unchanged and no `-raw_input` remains |
| App.DeriveKeyPrefixes | app.py:33-35 | a key without `-raw_input` becomes exactly `processed/` + key |
| App.DeriveKeyOneMarker | app.py:33-35 | a key with one marker, otherwise free of `-`, has the marker replaced in place |
| App.DeriveKeyTwoMarkers | app.py:33 | two adjacent markers in a key otherwise free of `-` are both replaced, not only the first |
| Text.ReplaceAllPrefix | app.py:33 | the result begins with the input's own first m characters, unless a replacement comes earlier, in which case the input up to that point is followed by the replacement |
| Text.ReplaceAllAbsent | lambda.functions.py:42 | without an occurrence, `str.replace` returns the string unchanged |
| Text.ReplaceAllChanges | app.py:33 | a same-length, different replacement changes any string containing the pattern |
| Text.ReplaceAllLeavesNone | app.py:33 | no occurrence survives when the replacement does not begin with the pattern and neither string ends where the other begins |
| Text.FirstCharOnlyAtStart | app.py:33 | a string in which the other's first character appears only at its start cannot end where the other begins |
| Text.ReplaceAllFree | lambda.functions.py:42 | a string that never holds the pattern's first character is left as it is |
| Text.ReplaceAllAfterFree | lambda.functions.py:42 | text free of the pattern's first character, then the pattern: the text is kept and the pattern replaced |
| Text.ReplaceAll | lambda.functions.py:42 | a replacement of the pattern's length keeps the string's length |
| Text.LowerChar | app.py:30 | `str.lower` of one character: an ASCII capital becomes its small letter, anything else is kept |
| Text.Lower | app.py:30 | `str.lower` of a string, character by character |
| Text.IntToString | app.py:30 | `astype(str)` of an integer cell: a non-empty string starting with `-` or a digit |
| App.StatusText | app.py:30 | `astype(str)` of a row's status cell: the string itself, the integer's digits, "True"/"False", "None", and "nan" for a missing cell |
| App.Normalize | app.py:30 | after the column rewrite a row has the same fields plus `status`, its status is a lower-case string, and every other field is unchanged |
| App.Matches | app.py:30-31 | a row is selected when its status, rendered as a string and lower-cased, equals "delivered" |
| Types.HasDeliveredStatus | app.py:31 | `df["status"] == "delivered"` on one row: the cell is exactly the string "delivered"; a missing cell never is |
| App.DeliveredRows | app.py:30-31 | the rows kept: the rewritten rows whose status equals "delivered" |
| App.NormalizeMatches | app.py:30-31 | after `astype(str).str.lower()` a row is selected exactly when its lower-cased status text is "delivered", and only its status changes, to "delivered" |
| App.OnlyStringsMatch | app.py:30-31 | only a string status can match; numbers, booleans, nulls and missing cells never do |
| App.StatusCaseInsensitive | app.py:30-31 | "delivered", "Delivered" and "DELIVERED" are kept; "cancelled", "" and a missing status are not |
| App.NormalizeAll | app.py:30 | the in-place column rewrite keeps the number of rows |
| Text.LowerIdempotent | app.py:30 | a lower-cased status holds no upper-case letter, so lower-casing it again changes nothing |
| Text.LowerFixed | app.py:30-31 | lower-casing leaves a string without upper-case letters, such as "delivered", as it is |
| App.DeliveredRowsSelect | app.py:30-31 | the kept rows are exactly the matching rows, in original order, each with status "delivered" and other fields unchanged |
| App.DeliveredRowsStatus | app.py:30-31 | every kept row's status is exactly "delivered" |
| App.DeliveredRowsIdempotent | app.py:30-31 | filtering the kept rows again keeps all of them |
| Seqs.FilterSelects | app.py:31 | boolean-mask selection keeps exactly the rows satisfying the mask, each once, in order |
| Seqs.Filter | lambda.functions.py:33 | the selection is no longer than the input and every kept row satisfies the mask |
| Seqs.FilterIdempotent | app.py:31 | selecting twice is selecting once |
| Seqs.FilterAppend | app.py:31 | selection on a concatenation is the concatenation of the selections |
| App.Decode | app.py:22-25 | `read_json(lines=True)`, and on its ValueError `read_json` of the whole document, whose ValueError becomes the error raised |
| App.DecodeOrder | app.py:22-25 | the line-delimited reading wins when it succeeds; the whole-document reading is used only after its ValueError; decoding fails exactly when both readers fail |
| App.DecodeLayoutInvariant | app.py:22-25 | a DataFrame decodes alike from a line-delimited body and from a whole-document body, provided the line-delimited reader rejects the whole-document body |
| Services.Fetch | app.py:19-20 | `get_object` and `read()`: the object's content when it exists, otherwise NoSuchKey |
| Types.HasColumn | app.py:27 | `"status" in df.columns`: membership in the DataFrame's column labels |
| App.ProcessSpec | app.py:17-40 | `process_file` as a function of the readable objects: NoSuchKey, the reader error or the missing column, else the delivered rows with their count and the derived key |
| App.ProcessSpecSucceeds | app.py:17-40 | processing succeeds exactly when the object exists, decodes and has a status column; then it returns the count of the rows written and the derived key |
| App.ProcessSpecFails | app.py:19-28 | a missing object raises NoSuchKey, a body neither reader accepts raises the second reader's error, and a missing status column raises the ValueError, in that order |
| App.ColumnWithoutRows | app.py:27-40 | a DataFrame with a status column and no rows is processed: an empty object is written at the derived key and zero rows are reported |
| App.Frame.LowerStatus | app.py:30 | the status column is replaced by its lower-cased text, row by row |
| App.ProcessFile | app.py:17-40 | on success exactly one write, to the target bucket at the derived key with the delivered rows, even when none matched; on an error no write and the error returned |
| Services.Cloud.GetObject | app.py:19 | a read succeeds exactly when the object exists and returns its content, otherwise NoSuchKey; nothing is logged |
| Services.Cloud.PutObject | app.py:38 | a write appends one Write effect to the log |
| Services.Cloud.PublishMessage | app.py:57-61 | a publish appends one Publish effect to the log |
| App.Entries | app.py:46 | `event.get("Records", [])`: the event's records, or none when the key is absent |
| Types.Uri | app.py:51-52 | the `s3://bucket/key` text of a result's input and output |
| App.Step | app.py:47-54 | one loop iteration: `KeyError` on a missing bucket name or key, the error of `process_file`, or its result entry and write |
| App.Loop | app.py:46-54 | the records in event order, each through the step, stopping at the first error |
| App.Run | app.py:46-54 | the handler's loop: `Loop` with the step that reads the readable objects and processes one record |
| App.LoopCompletes | app.py:46-54 | the loop completes exactly when every record processes |
| App.LoopSucceeds | app.py:46-54 | a completed loop has one result and one write per record, in event order, each the one its record yields |
| App.LoopKeepsFirstError | app.py:44-49 | once a record fails, later records change nothing |
| App.LoopStopsAtFirstError | app.py:44-49 | an error at record j aborts the rest: the writes are those of records before j and the error is record j's |
| App.StepWrites | app.py:47-54 | a record that processes has both names, is written to the target bucket at its derived key, and its result names `s3://bucket/key`, the output and the number of rows written |
| App.LoopOnlyWrites | app.py:46-49 | a loop whose every step writes to one bucket performs only writes to that bucket |
| App.RunOnlyWrites | app.py:46-54 | the loop performs only writes, all to the target bucket |
| App.ProcessRecords | app.py:44-54 | the record loop logs exactly the specified writes and returns the specified results and first error |
| App.HandlerResults | app.py:50-54 | on success result k names `s3://bucket/key`, `s3://TARGET_BUCKET/out_key` with the derived key, and the number of rows written |
| App.Notification | app.py:56-70 | the success publish with the results, or the failure publish with `str(e)` |
| App.Reply | app.py:62-71 | status 200 with the results, or the first error re-raised |
| App.HandlerEffects | app.py:46-70 | the whole invocation's effects: the loop's writes, then the one notification |
| App.HandlerPublishesOnce | app.py:56-71 | exactly one notification is published, after every write; it is the success one exactly when no error occurred, and exactly then the handler returns |
| App.EmptyEvent | app.py:46-62 | an event without records writes nothing, publishes one success with empty results and returns status 200 |
| App.LambdaHandler | app.py:43-71 | the log grows by the loop's writes then the one notification, and the handler returns the results or raises the first error |
| Legacy.TargetKey | lambda.functions.py:42 | `file_key.replace('raw_input', 'processed')`, with no fallback prefix |
| Legacy.TargetKeyChangedIffMarker | lambda.functions.py:42 | the target key keeps the length and differs from the source key exactly when it contains `raw_input` |
| Legacy.TargetKeyNoneRemains | lambda.functions.py:42 | no `raw_input` survives in the target key, for every key |
| Legacy.MarkersDoNotOverlap | lambda.functions.py:42 | `processed` does not begin with `raw_input`, and neither marker ends where the other begins |
| Legacy.TargetKeyEveryOccurrence | lambda.functions.py:42 | two occurrences in text without an 'r' are both renamed in place, not only the first |
| Legacy.FirstLocation | lambda.functions.py:19-21 | `KeyError('Records')`, `IndexError`, `KeyError` on a missing name or key, or the first record's bucket and key |
| Legacy.Work | lambda.functions.py:26-33 | fetch, decode one document, then `KeyError('status')` without the column, else the rows whose status is exactly "delivered" |
| Legacy.Delivered | lambda.functions.py:33 | `data[data['status'] == 'delivered']`: the rows whose status is exactly "delivered", case-sensitive and unchanged |
| Legacy.SuccessPrefix | lambda.functions.py:53 | the success message up to the count: `Successfully processed <key>. Filtered records: ` |
| Legacy.SuccessText | lambda.functions.py:53 | the success message: the prefix followed by `str(len(filtered_data))` |
| Legacy.FailureText | lambda.functions.py:70 | the failure message: `Failed to process <key>. Error: ` followed by `str(e)` |
| Legacy.DeliveredSelect | lambda.functions.py:33 | the kept rows are exactly those whose status is the string "delivered", unchanged and in order |
| Legacy.CaseSensitiveContrast | lambda.functions.py:33 | a row with status "Delivered" is dropped here although app.py keeps it |
| Legacy.HandlerSpec | lambda.functions.py:16-73 | the whole invocation: no effect and the unbound-`file_key` error when extraction fails; otherwise the failure publish and re-raise, or the write when rows match, then the success publish and status 200 |
| Legacy.ColumnWithoutRows | lambda.functions.py:30-63 | a DataFrame with a status column and no rows writes nothing and publishes success with a count of zero |
| Legacy.OnlyFirstRecord | lambda.functions.py:19-21 | events with the same first record behave identically |
| Legacy.NoRecordsNoEffects | lambda.functions.py:19-21 | a missing or empty `Records` list fails with nothing written and nothing published |
| Legacy.PublishesOnceIffBound | lambda.functions.py:53-73 | nothing is published exactly when the first record cannot be read; otherwise one notification, the last effect, and the success one exactly when the handler returns |
| Legacy.WritesIffMatches | lambda.functions.py:35-49 | an object is written exactly when the first record's object yields a matching row; then it is one write of those rows to the target bucket at the target key |
| Legacy.SuccessCountRoundTrip | lambda.functions.py:53-63 | the number in the success message reads back as the number of matching rows, and the response status is 200 |
| Types.ErrorText | app.py:68 | `str(e)` of each error the handlers raise, as published in the failure notifications |
| Text.NatToString | lambda.functions.py:53 | `str(n)` of a count is a non-empty string of decimal digits |
| Text.NatToStringRoundTrip | lambda.functions.py:53 | the decimal rendering of a count reads back as the count |
| Legacy.FailureAfterBind | lambda.functions.py:65-73 | an error after `file_key` is bound writes nothing, publishes one failure naming the key and the error, and is re-raised |
| Legacy.LegacyHandler | lambda.functions.py:16-73 | the log grows by exactly the specified writes and publish, and the handler returns or raises as specified |

## Left out

- Network I/O to S3 and SNS is modelled only as the effect log. `put_object` and `publish` always succeed in the model. A failing write or publish, which would end in the except blocks, is not modelled.
- Only a missing object makes `get_object` fail. Access errors and other service errors are not modelled.
- `pd.read_json` is opaque. The legacy reader also covers the `decode('utf-8')` of line 27, whose `UnicodeDecodeError` is a `ValueError` as well.
- `to_json` and `json.dumps` are not modelled. The output is the sequence of kept records and the success message is the list of results.
- Pandas type coercion is reduced to integers, booleans, null and a missing cell. The renderings "nan", "None", "True" and "False" are approximations. Floats and dates are not modelled. All that matters is that they never read as "delivered".
- `str.lower` is modelled on ASCII letters only.
- Logging, `print` and the Lambda `context` are not modelled.
- Environment reading is not modelled. Target bucket and topic are a fixed `Config`. Neither the legacy default `doordash-target-zn`, nor the unused `LANDING_BUCKET`, nor an unset `SNS_TOPIC_ARN` is modelled.
- The nested `s3` / `bucket` / `object` levels of an event record are collapsed. A missing level is reported as a `KeyError` on the leaf name (`name` or `key`).
- Reads see the objects as they were when the invocation started. A record whose object was written earlier in the same invocation is not modelled.
- The `str(e)` text of a ParseError is the reader's message, as given. The UnboundFileKey wording is that of Python 3.11 and later.
