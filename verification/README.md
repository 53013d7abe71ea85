# IncrediBuild build-history server: record decoding and time-window queries

This project models the core of the IncrediBuild build-history MCP server in
Dafny. The server answers two read-only queries over a SQLite table of past
builds:

- `read_builds_in_time_range(start, end)` returns the builds whose start time
  lies in a closed window of epoch milliseconds.
- `read_recent_builds(start_ago, end_ago)` asks the same question with the
  window given as offsets back from the current time.

Each row the table returns is validated into a `BuildMetadata` record with
eleven fields. The status field may be stored either as an index into the
five status tokens or as the token itself. The warning flag is coerced by
Python truthiness. If any fetched row is malformed, the whole call fails.

The project has six modules, one per layer of the source plus one of worked examples:

- `Wrappers` (`wrappers.dfy`) holds `Option`, `Result` and `Collect`. `Collect` is the
  all-or-first-error behaviour of a list comprehension over a call that can raise.
- `Schema` (`schema.dfy`) holds the raw scalar type `Raw`, the token tuple
  `BuildStatuses`, the eleven `Column`s in declaration order, and the validated
  `BuildRecord` with its invariant `ValidRecord`.
- `Decode` (`decode.dfy`) holds the status normaliser, the warning-flag coercion, the
  typed pass-through of the other fields, and `from_tuple` as `DecodeRow`.
  `DecodeRow` returns a full record or the list of every failing field.
- `Query` (`query.dfy`) holds `read_db_file` as a WHERE filter followed by an ORDER BY
  sort, over an in-memory table of 11-cell rows that stands in for the SQLite table.
  Binding a bound outside SQLite's signed 64-bit INTEGER range fails, as Python's
  `sqlite3` raises `OverflowError` there.
- `Tools` (`tools.dfy`) holds the two tools and a looping method that decodes the fetched
  rows one at a time.
- `Scenarios` (`scenarios.dfy`) holds concrete instances: status examples, the
  narrow-window example from the integration tests, and an out-of-range bound.

The current time is a parameter (`now`) of `Tools.ReadRecentBuilds`.

Some consequences of the code that are easy to miss:

- Python tuple indexing accepts negative indices, so the status indices
  `-5 .. -1` decode too (`-1` gives `"pending"`).
- A Python `bool` is an `int`, so a `True` status decodes as index 1 (`"completed"`).
- The counters and times are plain `int` fields. Nothing in the code rejects a
  negative value.
- `from_tuple` zips field names against the row. Cells past the eleventh are
  therefore ignored. A shorter row fails with a "field required" error for each
  missing field.
- Both bounds are bound as SQL parameters. A bound outside the signed 64-bit range
  makes the query fail before any row is read, so an out-of-range window is an
  error even when it is inverted.

## Model

| member | source | states |
|---|---|---|
| `Schema.Position` | main.py:41-53 | every field has a position below 11, and the declaration-order list holds that field at that position |
| `Schema.PositionInverse` | main.py:41-53 | position and declaration order are inverse: no field is declared twice |
| `Schema.Get` | main.py:41-53 | each field of a valid record carries a value of its declared type, and a status is one of the five tokens |
| `Schema.RecordExtensionality` | main.py:41-53 | a record is determined by its eleven field values |
| `Wrappers.Collect` | main.py:113 | a list of results succeeds iff every element does, and then yields all values in order; otherwise it fails with the error of the first failing element |
| `Wrappers.FirstFailure` | main.py:113 | the index returned is that of the first failure (every earlier element succeeded), or the length when nothing failed |
| `Decode.PyIndex` | main.py:60-62 | Python indexing succeeds exactly for `-len <= v < len`, and then returns the element at `v` taken modulo the length (negative indices wrap) |
| `Decode.DecodeStatus` | main.py:55-65 | a success is always one of the five tokens; an integer decodes iff `-5 <= v <= 4`, to `BuildStatuses[v mod 5]`, and otherwise fails with "invalid status index v"; `True`/`False` read as indices 1/0; a string decodes iff it is a token, and then to itself; any other string, `None` or other scalar fails with "invalid status" |
| `Decode.StatusIndex` | main.py:39 | every token has an index below 5 at which the tuple holds it |
| `Decode.StatusTokensDistinct` | main.py:39 | the five tokens are pairwise distinct, so an index names exactly one token |
| `Decode.StatusIdempotent` | main.py:57-65 | a decoded status is a token, and decoding that token again gives the same result |
| `Decode.StatusEncodingsAgree` | main.py:58-65 | every token is decoded from its string, from its index and from its negative index, all to the same token |
| `Decode.StatusIndexReadsToken` | main.py:58-62 | an integer status decodes iff it is some token's index or that index minus 5 |
| `Scenarios.StatusExamples` | main.py:58-64 | index 2 gives "stop_forced", 99 fails as an invalid index, -1 gives "pending", `True` gives "completed", and "done" fails as an invalid status |
| `Decode.DecodeHasWarnings` | main.py:67-70 | the warning flag is defined for every raw value, and it is false exactly for the falsy values: 0, `False`, the empty string, `None` and any other falsy scalar |
| `Decode.DecodeInt` | main.py:45-52 | an `int` field accepts exactly integers (passed through unchanged) and booleans (`True` as 1, `False` as 0), and otherwise fails naming the value |
| `Decode.DecodeText` | main.py:42-53 | a `str` field accepts exactly strings, unchanged, and otherwise fails naming the value |
| `Decode.DecodeValue` | main.py:41-70 | a validated value has its field's declared type; a `str` field succeeds iff the cell is a string, yielding that string, and otherwise fails naming the cell; the status field succeeds iff status normalisation does, yielding the normalised token or failing with its error; an `int` field succeeds iff integer validation does, yielding that integer or failing naming the cell; the warning flag never fails and equals the cell's truthiness |
| `Decode.DecodeColumn` | main.py:72-75 | a field is reported missing exactly when the row is too short to reach its position; otherwise its outcome is the validation of the cell at its position |
| `Decode.ColumnErrors` | main.py:72-75 | the error list is empty iff every listed field validates; each entry names a listed field together with that field's actual error; every failing field is reported |
| `Decode.AllColumnErrors` | main.py:72-75 | over all eleven fields, no error is reported iff every field validates, and every failing field appears in the error list |
| `Decode.Assemble` | main.py:72-75 | when every field validates, the record built is valid and each of its fields equals the value validated at that field's position |
| `Decode.DecodeRow` | main.py:72-75 | a record is built iff all eleven fields validate; it is valid and its i-th declared field holds the validated i-th cell; otherwise the error list is non-empty, reports every failing field with its error and nothing else; a row shorter than 11 always fails |
| `Decode.DecodeRowIgnoresExtraCells` | main.py:74-75 | cells beyond the eleventh never change the outcome (zip truncation) |
| `Decode.ColumnErrorsCongruent` | main.py:72-75 | two rows whose fields validate alike produce identical error lists |
| `Decode.EncodeRow` | main.py:41-53 | a record is stored as a row of exactly eleven cells, the warning flag as the INTEGER 0 or 1 |
| `Decode.EncodeRowIndexed` | main.py:58-62 | the same row, with the status in its integer form, is also eleven cells wide |
| `Decode.RowRoundTrip` | main.py:41-75 | decoding an encoded record succeeds iff the record is valid, and then returns the record itself; an invalid record fails with exactly one error, the invalid status |
| `Decode.ColumnErrorsOfOneFailure` | main.py:72-75 | when only one field fails, a list of distinct fields reports exactly that field's error when it is listed, and nothing otherwise |
| `Decode.IndexedRowRoundTrip` | main.py:55-75 | a valid record stored with its status as an integer index decodes back to the same record |
| `Decode.DecodeRowIdempotent` | main.py:55-75 | decoding is a normal form: re-encoding a decoded record and decoding it again gives the same record |
| `Query.StartKey` | main.py:81-82 | a StartTime cell compares as a number exactly when it is an integer (or a boolean stored as 0/1), and an integer compares as itself |
| `Query.Where` | main.py:81-82 | every selected row has its StartTime in `[start, end]`, and each row in that window is selected exactly as often as it is stored, while every other row is dropped |
| `Query.Insert` | main.py:82 | inserting into a run sorted by StartTime keeps it sorted, and the result holds exactly the old rows plus the new one |
| `Query.SortedTail` | main.py:82 | the tail of a sorted run is sorted and starts no earlier than its head |
| `Query.LowerBound` | main.py:82 | a row no later than every element of `s` and than `x` is no later than any element of a permutation of `s` plus `x` |
| `Query.SortByStart` | main.py:82 | ORDER BY returns the rows in ascending StartTime, and as a permutation of its input |
| `Query.SortKeepsTieOrder` | main.py:82 | two rows with equal StartTime come out in the order they are stored |
| `Query.Select` | main.py:81-82 | every selected row has `start <= StartTime <= end` (sound); every stored row in that window is selected as often as it is stored, and nothing else is (complete); the rows are in ascending StartTime; the selection is empty when `start > end` |
| `Query.ReadDbFile` | main.py:80-87 | the query succeeds iff both bounds fit a signed 64-bit integer, and otherwise fails with a parameter overflow; on success it returns a sound and complete selection of the window, in ascending StartTime, empty when `start > end` |
| `Query.SelectComplete` | main.py:81-82 | any stored row in the window is among the selected rows |
| `Query.WhereSingle` | main.py:81-82 | a window that only one stored row falls in selects only that row |
| `Query.WhereNone` | main.py:81-82 | a window that no stored row falls in selects nothing |
| `Query.WholeTableWindow` | main.py:81-82 | a window that holds every stored row fetches the whole table, reordered by StartTime, with nothing lost |
| `Tools.DecodeAll` | main.py:113 | decoding the fetched rows succeeds iff every row decodes, and then yields one record per row, in row order, each the decoding of its row; otherwise it fails with the error of the first bad row |
| `Tools.DecodedStart` | main.py:80-82 | a decoded row's record has as its `startTime` the StartTime the store filtered and ordered that row by |
| `Tools.ReadBuildsInTimeRange` | main.py:111-113 | succeeds iff both bounds fit a signed 64-bit integer and every stored row in `[start, end]` decodes; an out-of-range bound fails as a store error, and an in-range query fails with the validation errors of the first bad fetched row; on success returns one record per fetched row, in the same order, each the decoding of its row; every record is valid with `startTime` in the window; the records ascend by start time; an in-range inverted window returns an empty list, not an error |
| `Tools.WindowRowsDecode` | main.py:113 | every fetched row decodes exactly when every stored row in the window does |
| `Tools.DecodedRowsInOrder` | main.py:112-113 | decoding sorted in-window rows gives valid records whose start times lie in the window and ascend |
| `Tools.ReadRecentBuilds` | main.py:123-126 | every returned build started between `end_ago` and `start_ago` milliseconds before `now`; builds come oldest first; when `now - start_ago` or `now - end_ago` leaves the signed 64-bit range the call fails with a parameter overflow; with both in range, swapped offsets return an empty list, not an error |
| `Tools.RecentWindowMembership` | main.py:124-126 | the relative query fetches a stored row exactly when its StartTime lies between `end_ago` and `start_ago` milliseconds before `now` |
| `Tools.RecentShiftInvariant` | main.py:124-126 | a sanity lemma: moving the clock and both offsets by the same amount leaves the result unchanged, since only the absolute window `[now - start_ago, now - end_ago]` reaches the store |
| `Tools.FetchBuilds` | main.py:111-113 | fetching the window (failing on an out-of-range bound) and then decoding row by row, stopping at the first bad row, gives exactly the range tool's result |
| `Tools.DecodeLoop` | main.py:113 | the row-by-row decoding loop returns exactly the all-or-nothing decoding of the rows |
| `Tools.DecodeAllAllSuccess` | main.py:113 | when every row decodes to the given records, the all-or-nothing decoding returns exactly those records |
| `Tools.DecodeAllFirstFailure` | main.py:113 | when row i is the first that fails, the all-or-nothing decoding fails with that row's errors |
| `Scenarios.RowAtDecodes` | main.py:55-75 | a stored row whose integer status is 1 and whose warning flag is 0 decodes to status "completed" and `hasWarnings` false |
| `Scenarios.NarrowWindowFetch` | test_mcp_server.py:43-46 | a 200 ms window starting at one build's start time, with the neighbouring builds a second away, fetches exactly that build's row |
| `Scenarios.NarrowWindowExample` | test_mcp_server.py:43-46 | that window makes the range tool return exactly one record, the decoded build |
| `Scenarios.SingleRowRange` | main.py:112-113 | an in-range window that fetches a single row returns exactly that row's record |
| `Scenarios.OverflowExample` | main.py:84-86 | an upper bound of 2^64 makes the range tool fail with a parameter overflow, whatever the table holds |

## Left out

- SQLite access, the connection's lifetime and the SQL text (main.py:78-87). The table is an
  in-memory sequence of 11-cell rows that have already been projected onto the selected columns.
  A missing table or column (a store-access error) is not modelled.
- `resolve_db_path`, `main` and the `IB_DB_DIR` environment lookup (main.py:89-96, main.py:133-148).
  These are filesystem and process configuration.
- FastMCP registration, `mcp.run`, the tool description strings and `get_version` (main.py:98-131).
  These are protocol plumbing and static text.
- Reading the clock: `int(datetime.now().timestamp() * 1000)` involves a float. `now` is an integer parameter instead.
- Query.StartKey: a REAL StartTime, which SQLite compares numerically, is treated as never inside the window. Floating point is not modelled.
- Query.StartKey: assumes the StartTime column has INTEGER or NUMERIC affinity, so an integer bound is compared with an integer cell as a number and a text cell never matches. The table's DDL is not part of this model; under TEXT affinity SQLite would convert the bound to text and compare text cells with it.
- Query.ReadDbFile: SQL fixes no order among rows with equal StartTime. The model keeps table order among them (`Query.SortKeepsTieOrder` shows it for two rows), but its contract promises only ascending order and a permutation.
- Decode.DecodeInt: pydantic's lax mode also turns numeric strings and integral floats into `int`. The model rejects them, since that conversion is library behaviour outside this code.
- Decode.DecodeText: pydantic's lax mode also decodes bytes into `str`. The model rejects them for the same reason.
- Decode.DecodeRow: pydantic's error messages are reduced to an error kind per field. Errors are listed in declaration order.
- The raw scalars a REAL or BLOB cell yields are abstracted as `ROther`. Only their truthiness is kept.
- test_mcp_server.py and build_history_mcp_check.py are async MCP clients run against a server
  and a test database. Only the narrow-window example is restated, as `Scenarios.NarrowWindowExample`.
  The nine-build database behind the other tests is not part of this model; `Query.WholeTableWindow` states the general fact those tests rely on.
