# Attribution reconciliation: a Dafny model

This project models the core of the `cjms` back office. That core is the batch pass that
reconciles subscription events pulled from the analytics warehouse with live attribution
identifier records (AICs). It also models the rules for the AIC record's lifecycle.

For each warehouse row the pass does the following, in order:

1. It decodes the row into a subscription draft.
2. It looks up the live AIC with the same `flow_id` and copies that AIC's id, `cj_event_value` and `expires` onto the draft.
3. It retires the AIC: it writes an archive copy, then deletes the live record.
4. It stamps the status `not_reported` and inserts the subscription.

Every failure skips the row, except one. If the delete fails after the archive write has
succeeded, the whole run stops.

The model is functional:

- The three tables are immutable values. The live `aic` table is a map keyed by id. The `aic_archive` table is an append-only sequence. The `subscriptions` table is a map keyed by the unique `flow_id`.
- Each stage of a row is a pure function.
- The driver is a recursive function over the rows. It returns `Completed` or `Fatal`, and `Fatal` carries the index of the row that stopped the run.
- A loop method mirrors the source's `while rs.next_row()` and is proved equal to the driver.

The outside world enters as parameters. For each row the caller supplies a `RowEnv`, which holds:

- the UUID generated for the subscription;
- the clock reading used in its status history;
- a `Faults` record that says which store calls fail and with what error.

Modules:

- `Wrappers`: `Option` and `Result`.
- `Primitives`: ids, timestamps, 32-bit integers, the database error shape and SQLSTATE 23505.
- `Aic`: the AIC record and its tables (src/models/aic.rs).
- `Subscriptions`: the subscription record and its table.
- `RowDecoding`: `make_subscription_from_bq_row`.
- `CheckSubscriptions`: the per-row stages, the driver and the run-level properties.
- `Scenarios`: four end-to-end runs (a matched row, a missing column, no AIC, a duplicate flow id).

Timestamps are whole seconds. Thirty days is `30 * 86400` seconds.

## Model

| member | source | states |
|---|---|---|
| `RowDecoding.MakeSubscriptionFromRow` | src/lib/check_subscriptions.rs:15-35 | A decoded subscription is a draft. It has the supplied fresh id. `aic_id`, `aic_expires`, `cj_event_value`, `status` and `status_history` are all absent. `country` is taken from the row when the row has it, and is absent otherwise. |
| `RowDecoding.RequireString` | src/lib/check_subscriptions.rs:18 | The strict text accessor succeeds exactly when the column is present and holds text. It then yields that text. Otherwise it fails and names the column. |
| `RowDecoding.RequireTimestamp` | src/lib/check_subscriptions.rs:20-21 | The strict timestamp accessor succeeds exactly when the column holds a timestamp. Otherwise it fails and names the column. |
| `RowDecoding.RequireInt32` | src/lib/check_subscriptions.rs:23 | The strict i32 accessor succeeds exactly when the column holds an integer in the signed 32-bit range. Otherwise it fails and names the column. |
| `RowDecoding.GetString` | src/lib/check_subscriptions.rs:27 | The lenient accessor yields the text when the column holds text. Otherwise it yields absent and never fails. |
| `RowDecoding.DecodeSucceedsIffRequiredPresent` | src/lib/check_subscriptions.rs:15-34 | Decoding succeeds if and only if all nine required columns are present with the right kind. `country` plays no part. On failure the error names the first missing column in the order the fields are read. |
| `RowDecoding.DecodeFailsAtFirstMissing` | src/lib/check_subscriptions.rs:18-26 | The chain of `?` accessors fails exactly when a required column is missing, and it fails at the first one missing. |
| `RowDecoding.FirstMissingAfterPrefix` | src/lib/check_subscriptions.rs:18-26 | For any ordered column list: if a row carries the first k columns but not column k, column k is the first one missing. |
| `RowDecoding.DecodeKeepsColumns` | src/lib/check_subscriptions.rs:18-26 | Each required field of a decoded draft holds exactly the value of the row's column with the same name. |
| `RowDecoding.DecodeRowOf` | src/lib/check_subscriptions.rs:15-35 | Round trip: decoding the warehouse row that a draft describes gives back that same draft. |
| `Aic.FetchOneById` | src/models/aic.rs:80-84 | The lookup returns the record whose id matches, when there is one. Otherwise it fails with row-not-found. |
| `Aic.Create` | src/models/aic.rs:19-36 | On success the new record has the given id, `cj_event_value` and `flow_id`. Its `created` is now and its `expires` is `created` plus 30 days. It is added under its id and every other record is unchanged. An id already in use is rejected. |
| `Aic.Update` | src/models/aic.rs:38-72 | A missing id fails and writes nothing. Otherwise the record gets the new `cj_event_value` and `flow_id`. If the event value is unchanged, `created` and `expires` are kept. If it changed, `created` becomes now and `expires` becomes now plus 30 days. No other record changes and no record is added. |
| `Aic.CreatePreservesWindow` | src/models/aic.rs:19-22 | `create` keeps "`expires` = `created` + 30 days" true of every record in the table. |
| `Aic.UpdatePreservesWindow` | src/models/aic.rs:48-53 | `update` keeps "`expires` = `created` + 30 days" true in both branches. |
| `Aic.CreateThenFetch` | src/models/aic.rs:19-36 | Fetching by id right after `create` returns the record that was created. |
| `Aic.UpdateIdempotent` | src/models/aic.rs:44-53 | A second identical update changes nothing, even at a later time. This is because the unchanged event value keeps the window. |
| `Aic.FetchOneByFlowId` | src/lib/check_subscriptions.rs:57-58 | The flow-id lookup returns a live record with that flow id, stored under its own id. It fails with row-not-found exactly when no live record has that flow id. An injected fault is returned as it is. |
| `Aic.Delete` | src/lib/check_subscriptions.rs:73-75 | On success the record is gone and every other record is unchanged. On failure the injected error is returned. |
| `Aic.CreateFromAic` | src/lib/check_subscriptions.rs:68 | On success the archive gains exactly one snapshot at its end, and that snapshot is identical to the AIC. On failure the injected error is returned. |
| `Subscriptions.CreateFromSub` | src/lib/check_subscriptions.rs:98-103 | An injected fault wins. Otherwise the insert fails if and only if the flow id is already stored, and then it fails with SQLSTATE 23505. On success only the new row is added. |
| `CheckSubscriptions.ClassifyInsertError` | src/lib/check_subscriptions.rs:100-121 | An insert error is a duplicate key if and only if it is a database error with code 23505. It is another database error if and only if it is a database error with some other code. It is unexpected if and only if it is not a database error. |
| `CheckSubscriptions.AttachAic` | src/lib/check_subscriptions.rs:59-63 | The subscription's `aic_id`, `cj_event_value` and `aic_expires` equal the matched AIC's `id`, `cj_event_value` and `expires`. No other field changes. |
| `CheckSubscriptions.MarkNotReported` | src/lib/check_subscriptions.rs:93-97 | The status is `not_reported`. The history has exactly one entry, `not_reported` at the given time, and the status agrees with that last entry. No other field changes. |
| `CheckSubscriptions.RetireAic` | src/lib/check_subscriptions.rs:68-81 | If the archive write fails, nothing else happens. Otherwise the archive gains the AIC. The record leaves the live table only when the delete succeeds. Retirement succeeds exactly when neither call fails. |
| `CheckSubscriptions.WriteSubscription` | src/lib/check_subscriptions.rs:93-122 | The AIC tables are untouched. An insert error is logged with its classification, for an injected fault as well. Without a fault, the insert fails exactly when the flow id is already stored, and it fails as a duplicate key. A failed insert leaves the subscription table as it was. A success stores the stamped subscription under a flow id that was free. |
| `CheckSubscriptions.ReconcileDraft` | src/lib/check_subscriptions.rs:57-122 | This covers the row after decoding. The first store call that fails decides the outcome, and that call's error is the one logged. An injected lookup fault gives a lookup failure. With no live AIC for the flow id, the outcome is row-not-found. After a match, the archive fault, then the delete fault, then the insert fault or a duplicate flow id decide it. With none of these, the row is reconciled. A failed lookup or archive write changes nothing. A failed delete leaves a snapshot of the AIC matched by the draft's flow id archived, with the record still live. Otherwise that matched AIC has been retired. A reconciled subscription is the draft with every warehouse field kept. It carries that AIC's id, event value and expiry, and starts `not_reported`. |
| `CheckSubscriptions.ProcessRowContract` | src/lib/check_subscriptions.rs:44-123 | This is the per-row state machine. Decoding fails exactly when a required column is missing. For a decodable row, the first store call that fails decides the outcome, as for `ReconcileDraft`, keyed by the row's `flow_id`. Decode, lookup and archive-write failures leave all three tables unchanged. A failed delete archives the AIC matched by the row's `flow_id` and leaves it live. Insert failures keep the retirement. A success inserts exactly one new subscription. It is the decoded row with the fresh id, the AIC's fields and the `not_reported` stamp added. |
| `CheckSubscriptions.DuplicateFlowRejected` | src/lib/check_subscriptions.rs:98-113 | A row whose flow id already has a subscription is never inserted again, and the subscription table does not change. Without an injected fault, reaching the insert is classified as a duplicate key. |
| `CheckSubscriptions.FetchAndProcessNewSubscriptions` | src/lib/check_subscriptions.rs:37-124 | The loop over the cursor computes exactly what the recursive driver `Run` defines. |
| `CheckSubscriptions.RunShape` | src/lib/check_subscriptions.rs:44-123 | A completed run logs one outcome per row and none of them is a failed delete. A fatal run stops at the first failed delete: its log ends at that row and no earlier row was fatal. |
| `CheckSubscriptions.RunFatalIgnoresLaterRows` | src/lib/check_subscriptions.rs:73-75 | After a failed delete no later row is processed. Any rows that follow on the cursor leave the result unchanged. |
| `CheckSubscriptions.RunKeepsStoresConsistent` | src/lib/check_subscriptions.rs:44-123 | Over a completed run the following hold. The live table only loses records. Every lost record was archived, and every new snapshot is a lost record with identical fields. No record is archived twice. Earlier subscriptions are never overwritten. Each new subscription carries a retired AIC's id, event value and expiry, its flow id, and the single `not_reported` entry. After a fatal run the same holds, except that the last snapshot's record is still live. That record is the AIC matched by the `flow_id` of the row that stopped the run. |
| `Scenarios.ScenarioMatchedRow` | src/lib/check_subscriptions.rs:44-97 | A decodable row with one matching AIC and no faults is reconciled. The subscription carries the AIC's id and event value and is `not_reported`. The AIC moves from the live table to the archive. |
| `Scenarios.ScenarioMissingPlanAmount` | src/lib/check_subscriptions.rs:26 | A row that carries the eight required columns read before `plan_amount`, but lacks `plan_amount`, is skipped with an error naming that column. No table changes. |
| `Scenarios.ScenarioNoAic` | src/lib/check_subscriptions.rs:84-91 | A row whose flow id has no live AIC is skipped with row-not-found. No table changes. |
| `Scenarios.ScenarioDuplicateFlow` | src/lib/check_subscriptions.rs:98-121 | Two rows share a flow id and each is matched to its own AIC. Exactly one subscription is stored. The second insert is a duplicate key. Both AICs are retired and the run completes. |

## Left out

- Logging (`println!`) and the metrics the TODO comments ask for. Outcomes are returned in the run's log instead.
- The BigQuery client, the query text and the cursor mechanics. The cursor is a finite sequence of rows, and a row is a map from column name to typed cell.
- The SQL text, connection pooling and async execution. Concurrency is left out, including two runs racing on one flow id.
- A process crash between the archive write and the delete. Only a failed delete is modelled (see `Aic.CreateFromAic` below for what a retry would do).
- UUID generation and `OffsetDateTime::now_utc()`. Both are parameters. Timestamps are whole seconds rather than nanoseconds. The history entry's `t` is kept as a timestamp, not as its string form.
- `AICModel::fetch_one`. It is an unfiltered query whose result depends on database row order.
- The `do_not_report` window check and the fallback lookup in `aic_archive`. Both are TODOs in the source and neither is implemented (src/lib/check_subscriptions.rs:65-67, 83).
- The tests' harness (database creation, server start-up, HTTP helpers, fake data).
- The bodies of `fetch_one_by_flow_id`, `delete`, `create_from_aic` and `create_from_sub`. They are not part of this model and have abstract contracts only. Their failures are injected per row.
- Aic.FetchOneById: the only failure modelled is row-not-found. Transport and database errors of the query are not modelled. `update` panics on those as well, so they would not add a new outcome.
- Aic.Create: the contract does not model transport failures of the insert. It models only the primary-key clash.
- Aic.Update: the source panics on a missing id. The model returns `RowNotFound` instead and writes nothing. Transport failures of the final `UPDATE` are not modelled.
- RowDecoding.GetString: the source's lenient accessor is followed by `?`, so it could in principle fail. The accessor's own failure conditions belong to the BigQuery client, which is not part of this model. The model treats the accessor as never failing.
- Subscriptions.CreateFromSub: only the unique constraint on `flow_id` is modelled. The table's own UUID primary key is assumed fresh.
- Aic.FetchOneByFlowId: `fetch_one_by_flow_id` hands back one row even when several live records share the flow id. The model treats that as a success, like any other match, and returns the record with the least id. Which record the database picks is not modelled.
- Aic.CreateFromAic: this is modelled as a plain append to the archive, with no check for an existing snapshot of the same id. A run that crashed between the archive write and the delete, and was then retried, would add a second snapshot. Within one run no record is archived twice (`CheckSubscriptions.RunKeepsStoresConsistent`).
