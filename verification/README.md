# Health-check coordination core, modelled in Dafny

The health-check system shares two scarce resources among concurrent check
sessions: a pool of NIAM logins (credentials) and a pool of Mito forward
proxies. It also tracks every node's check lifecycle, and it picks which
nodes are due for a check. Each of these four managers is a set of SQL
statements over one or two tables. This project models each table as a
finite map from primary key to an immutable row. Each statement becomes a
pure transition that returns its result and the new table.

- `Wrappers` (`wrappers.dfy`): `Option`, which stands for SQL NULL, and
  `Result`, which stands for Go's `(value, error)` pair.
- `Tables` (`tables.dfy`): generic query building blocks. `Sum` and
  `ComputeSum` model `SUM`. `ArgMin` models `ORDER BY … LIMIT 1`,
  `SortedPrefix` models `ORDER BY … LIMIT n`, and `TakeAny` models a bare
  `LIMIT n`. SQL does not fix the order of tied rows, so these methods choose
  among ties with `:|`. As a result, no contract depends on how ties are broken.
- `UserPool` (`userpool.dfy`): the credential pool. It covers the
  single-shot acquisition transaction, the polling acquisition, release and
  the pool status.
- `StatusTracker` (`status.dfy`): the eight check states, the unchecked
  status overwrite, the completion record, the status read, the active-check
  count and the append-only live-update log.
- `ProxySelector` (`proxy.dfy`): the preferred proxy, the failover list and
  the attempt and failure counters.
- `Inventory` (`inventory.dfy`): the due-for-check queries over the join of
  `hc_nodes` and `hc_node_status`, and the lookup of a node by id.

Time is an opaque integer. Each operation that uses `NOW()` takes a `now`
argument instead. The polling loop of `AcquireUser` becomes a sequence of
ticks. Each tick holds the table as the attempt finds it, because other
sessions may change the table between polls, and the clock at that attempt.
Only the first `MaxAttempts` = 300 s / 2 s = 150 ticks are tried. Later
ticks fall after the timeout.

Where the intended behaviour and the code disagree, the model follows the code:

- Release is not idempotent. A repeated release is meant to be a no-op, but
  the code decrements `current_sessions` whether or not the session id is
  held. `UserPool.ReleaseTwiceIsNotIdempotent` shows this on a concrete table.
- The length of `active_session_ids` is meant to equal `current_sessions`,
  but the code does not keep this. A release of a session that is not held
  breaks it.
- A session id is meant to hold at most one login, but acquisition appends
  `sid` without looking for it elsewhere. `UserPool.AcquireThenRelease`
  covers the case where `sid` already holds the login.
- A node's session and user are meant to be set only while a check is in
  progress, but `UpdateStatus` writes them for any status.

## Model

| member | source | states |
|---|---|---|
| `UserPool.TryAcquire` | pkg/userpool/userpool.go:57-114 | Fails with "no available users" exactly when no row has login status 'Yes', is not expired and has `current_sessions < max_sessions`, and then the table is unchanged (rollback). Otherwise it returns a row that is eligible and minimal by `current_sessions`, then `last_used_at`. That row gains one session and one use, gets `sid` appended and `last_used_at = now`. No other row changes. The returned session count is the value read before the increment. |
| `UserPool.AcquireUser` | pkg/userpool/userpool.go:38-54 | Succeeds at the first tick whose table has an eligible row, and only within the first 150 ticks. Every earlier tick had no eligible row. The success carries the acquisition guarantees of that tick. The call times out exactly when none of the tried ticks had an eligible row. |
| `UserPool.Release` | pkg/userpool/userpool.go:117-132 | The user's count becomes `max(count - 1, 0)` whether or not `sid` was held. When `sid` is held, one copy of it leaves the id list. Password, NIAM address and port, limits, status, timestamps and usage stay the same, and every other user is unchanged. An unknown username changes nothing. |
| `UserPool.RemoveFirst` | pkg/userpool/userpool.go:124-127 | Removing one session id from the JSON list shortens it by one and removes exactly one occurrence of that id from its multiset. |
| `UserPool.PoolStatus` | pkg/userpool/userpool.go:135-158 | Fails exactly on an empty table, where SUM is NULL. Otherwise it reports the row count, the number of logins with status 'Yes', the sums of `max_sessions` and of `current_sessions` over all rows, and available = total − used. |
| `UserPool.AcquirePreservesBounds` | pkg/userpool/userpool.go:71-104 | If every row has `0 ≤ current_sessions ≤ max_sessions`, acquiring an eligible row keeps that true. |
| `UserPool.ReleasePreservesBounds` | pkg/userpool/userpool.go:121-129 | The floored decrement keeps `0 ≤ current_sessions ≤ max_sessions` for every row. |
| `UserPool.UsedWithinCapacity` | pkg/userpool/userpool.go:139-156 | When every row is within bounds, the used capacity lies between 0 and the total capacity, so the available capacity is never negative. |
| `UserPool.AcquireUsesOneSlot` | pkg/userpool/userpool.go:93-104 | An acquisition raises the used capacity by exactly one and leaves the total capacity unchanged. |
| `UserPool.AcquireThenRelease` | pkg/userpool/userpool.go:93-129 | Releasing the session just acquired restores the count and the multiset of held ids. It restores the id list itself when `sid` was not already in it. Other users stay untouched. |
| `UserPool.SingleSlotIsExclusive` | pkg/userpool/userpool.go:68-104 | A one-login pool with `max_sessions = 1` has no eligible row once a session holds the login. Releasing that session gives the count back. |
| `UserPool.ReleaseTwiceIsNotIdempotent` | pkg/userpool/userpool.go:121-129 | On a login with two sessions, releasing the same session id twice takes the count from 2 to 1 and then to 0. |
| `StatusTracker.UpdateStatus` | pkg/status/status.go:34-46 | Overwrites the status, session and username of the matching node from any prior status. `last_check_started` becomes now if and only if the new status is `running`. `updated_at` becomes now. The counters, last completion, duration, result, error message and last success are kept. Other nodes are unchanged, and an unknown node changes nothing. |
| `StatusTracker.RecordCompletion` | pkg/status/status.go:49-74 | Success gives `completed` and "success", and failure gives `failed` and "failed". `total_checks` rises by 1 and `successful_checks` rises by 1 only on success. The failure streak resets on success and grows by 1 on failure. `last_successful_check` becomes now only on success. The duration and error text are stored, and the session and user are cleared. Other nodes are unchanged. |
| `StatusTracker.GetNodeStatus` | pkg/status/status.go:77-90 | Returns the stored status exactly when the node has a status row, and fails otherwise. |
| `StatusTracker.GetActiveChecks` | pkg/status/status.go:93-102 | The count of nodes in queued, connecting, running or polling never exceeds the number of nodes. |
| `StatusTracker.AddLiveUpdate` | pkg/status/status.go:105-112 | Appends exactly one event with the given fields and leaves every earlier event in place. |
| `StatusTracker.UpdateThenGet` | pkg/status/status.go:35-43 | After an overwrite, reading the node's status returns the status just written. |
| `StatusTracker.CompletionIsTerminal` | pkg/status/status.go:50-59 | After a completion the node reads back as `completed` or `failed`. It is never `idle` or `timeout`, and it is not counted as active. |
| `StatusTracker.FailedCompletionScenario` | pkg/status/status.go:49-74 | A failed completion of a running check, with 500 ms and "conn refused", leaves status `failed`, result "failed", that error text and duration, no session, and the failure streak one longer. |
| `StatusTracker.CompletionIgnoresSession` | pkg/status/status.go:49-71 | The table after a completion does not depend on the session id argument. |
| `StatusTracker.CompletionKeepsCounters` | pkg/status/status.go:63-65 | A completion preserves `0 ≤ successful_checks ≤ total_checks` and a non-negative failure streak. |
| `StatusTracker.UpdateKeepsCounters` | pkg/status/status.go:35-43 | A status overwrite preserves the same counter invariant. |
| `StatusTracker.ActiveChecksAfterUpdate` | pkg/status/status.go:93-102 | An overwrite changes the active count by the node's own move into or out of the in-progress states, and by nothing else. |
| `StatusTracker.ActiveChecksAfterCompletion` | pkg/status/status.go:93-102 | A completion lowers the active count by one if the node was in progress, and otherwise leaves it unchanged. |
| `StatusTracker.TimelineAfterAdd` | pkg/status/status.go:105-112 | Logging an event appends it to its own session's timeline and leaves every other session's timeline unchanged. |
| `ProxySelector.GetProxy` | pkg/proxy/proxy.go:33-59 | Fails exactly when no proxy is active. Otherwise it returns the selected columns of an active proxy whose priority is at most that of every active proxy. |
| `ProxySelector.GetAllProxies` | pkg/proxy/proxy.go:87-119 | Lists each active proxy exactly once and nothing else, with non-decreasing priority. The list is as long as the active set, and its head is a preferred proxy. With no active proxy the list is empty and there is no error. |
| `ProxySelector.RecordSuccess` | pkg/proxy/proxy.go:62-71 | `total_attempts` rises by 1 and `failed_attempts` stays the same. `last_success` becomes now. Activity and the selected columns, priority among them, are unchanged. An unknown name changes nothing. |
| `ProxySelector.RecordFailure` | pkg/proxy/proxy.go:74-84 | Both counters rise by 1 and `last_failure` becomes now. Activity and the selected columns are unchanged. An unknown name changes nothing. |
| `ProxySelector.RecordingKeepsSelection` | pkg/proxy/proxy.go:62-84 | Recording either outcome leaves the set of selectable proxies, their returned columns and the preferred proxy unchanged. |
| `ProxySelector.RecordingKeepsCounters` | pkg/proxy/proxy.go:62-84 | Both recordings preserve `0 ≤ failed_attempts ≤ total_attempts` and never lower an attempt count. |
| `ProxySelector.FailoverScenario` | pkg/proxy/proxy.go:37-43 | With active priorities 3, 1 and 2, only the priority-1 proxy is preferred. After it is deactivated, only the priority-2 proxy is. |
| `Inventory.ToNode` | pkg/inventory/inventory.go:40-41 | Every node query returns the row's columns, with a NULL vendor read as "unknown" and a NULL node type read as "router". The same rule appears at lines 93-94 and 125-126. |
| `Inventory.GetNodeByID` | pkg/inventory/inventory.go:85-114 | Finds the node exactly when it exists with login status 'Yes', whatever its check flag or status. Otherwise it fails with "node not found". |
| `Inventory.GetNodesToCheck` | pkg/inventory/inventory.go:32-82 | Returns only nodes that have a status row, login status 'Yes', checks enabled and status `idle`, each once, with exactly `min(limit, #due)` of them. Order is last completion ascending, with NULL treated as 2000-01-01, then priority descending. No due node left out sorts strictly before one returned. Each result equals the lookup by id. An empty answer, including `limit = 0`, is an error. |
| `Inventory.GetNodesByCircle` | pkg/inventory/inventory.go:117-160 | Returns exactly `min(limit, #due in circle)` distinct nodes. Each one passes the same eligibility filter and lies in the circle. An empty answer is not an error. |
| `Inventory.LookupIgnoresCheckState` | pkg/inventory/inventory.go:96 | Every due node is found, with its own columns. A node with login status 'Yes' is not due but is still found when its checks are disabled or its check is in progress. |
| `Inventory.CircleNarrowsDue` | pkg/inventory/inventory.go:129-132 | The circle query's candidates are a subset of the due-for-check candidates. |
| `Inventory.RunningOrFinishedNodesAreNotDue` | pkg/inventory/inventory.go:42-46 | A node set to `running` is not due for a check, and recording its completion does not make it due again. |

## Left out

- Database plumbing is not modelled. This covers connection setup and pooling, and errors from `Begin`, `Exec`, `Query`, `Scan` and `Commit` other than the ones named above. pkg/database/database.go, pkg/config/config.go, cmd/main.go and cmd/test_modules.go are not part of this model.
- Concurrency machinery is not modelled: `sync.Mutex`, `FOR UPDATE` row locks and the ticker/timeout `select`. They only serialise the transitions. The timeout is modelled as the bound of 150 ticks, not as wall-clock time.
- `UserPool.AcquireUser`: the last tick, at 300 s, fires together with the timeout. Go's `select` then picks either one, so the real loop may make 149 attempts instead of 150. The model always allows the 150th.
- `success_rate` is not modelled. It is floating point, and it depends on the order in which MySQL evaluates `SET` assignments.
- `UserPool.Release`: when `sid` is not in `active_session_ids`, the contract says nothing about the list. The engine's result of `JSON_REMOVE` with a NULL path is left unspecified, and the function body just keeps the list. `JSON_SEARCH` treats `%` and `_` as wildcards. The model matches the session id exactly.
- NULL `last_used_at`, NULL counters and NULL `max_sessions` are not modelled, so the sort position of NULL `last_used_at` is not modelled either. These columns are plain integers in the model. A NULL `active_session_ids` is modelled as the empty list, as `COALESCE` reads it on acquisition.
- String comparisons, such as `login_status = 'Yes'` and `Circle = ?`, are exact. MySQL's case-insensitive collations are not modelled.
- `limit` is a natural number. What the engine does with a negative `LIMIT` is not modelled.
- `created_at` of live updates is filled by the schema and is not modelled.
- `StatusTracker.RecordCompletion`: the model keeps `updated_at` unchanged, because the statement does not write it; a schema-level `ON UPDATE` on that column is not modelled.
- Timestamps are opaque integers, and `NOW()` is the `now` argument. The constant 2000-01-01 is 946684800 in Unix seconds.
- The ordering of tied rows is left to the engine. No contract depends on it.
