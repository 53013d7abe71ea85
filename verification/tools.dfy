/** The two query tools: the absolute-window query, which decodes every row
    the store returns and fails as a whole on the first row that does not
    decode, and the relative query, which turns offsets back from a given
    current time into an absolute window. */
module Tools {
  import opened Wrappers
  import opened Schema
  import opened Decode
  import opened Query

  /** Why a tool call failed: the query could not run, or a fetched row did
      not validate (pydantic's ValidationError, with every failing field). */
  datatype ToolError =
    | StoreError(query: QueryError)
    | ValidationError(fields: seq<FieldError>)

  /** Ascending by start time. */
  predicate RecordsSorted(recs: seq<BuildRecord>)
  {
    forall i, j :: 0 <= i < j < |recs| ==> recs[i].startTime <= recs[j].startTime
  }

  /** Every row decoded on its own. */
  function DecodeEach(rows: seq<seq<Raw>>): (rs: seq<Result<BuildRecord, seq<FieldError>>>)
    ensures |rs| == |rows|
    ensures forall i :: 0 <= i < |rows| ==> rs[i] == DecodeRow(rows[i])
  {
    seq(|rows|, i requires 0 <= i < |rows| => DecodeRow(rows[i]))
  }

  /** The list comprehension over `from_tuple`: every row decoded in order, or
      the errors of the first row that fails, with every earlier row decoded. */
  function DecodeAll(rows: seq<seq<Raw>>): (r: Result<seq<BuildRecord>, seq<FieldError>>)
    ensures r.Success? <==> forall i :: 0 <= i < |rows| ==> DecodeRow(rows[i]).Success?
    ensures r.Success? ==> |r.value| == |rows|
    ensures r.Success? ==> forall i :: 0 <= i < |rows| ==> DecodeRow(rows[i]) == Success(r.value[i])
    ensures r.Failure? ==> exists k :: FirstBadRow(rows, k) && DecodeRow(rows[k]) == Failure(r.error)
  {
    var rs := DecodeEach(rows);
    var r := Collect(rs);
    if r.Failure? then
      assert FirstBadRow(rows, FirstFailure(rs));
      r
    else r
  }

  /** Row `k` is the first row that does not decode. */
  predicate FirstBadRow(rows: seq<seq<Raw>>, k: int)
  {
    && 0 <= k < |rows|
    && DecodeRow(rows[k]).Failure?
    && forall i :: 0 <= i < k ==> DecodeRow(rows[i]).Success?
  }

  /** A decoded row keeps the StartTime the store ordered it by. */
  lemma DecodedStart(row: StoredRow)
    requires DecodeRow(row).Success?
    ensures Keyed(row) && DecodeRow(row).value.startTime == Start(row)
  {
    assert Get(DecodeRow(row).value, StartTime) == DecodeColumn(StartTime, row).value;
  }

  /** `read_builds_in_time_range`: the records of every stored row whose
      StartTime is in `[start, end]`, ascending by start time. It fails when a
      bound does not fit a SQLite INTEGER, and otherwise, with the first bad
      row's errors, unless every row in the window decodes. */
  function ReadBuildsInTimeRange(table: Table, start: int, end: int): (r: Result<seq<BuildRecord>, ToolError>)
    ensures r.Success? <==> (IsInt64(start) && IsInt64(end)
                             && forall x :: x in table && InWindow(x, start, end) ==> DecodeRow(x).Success?)
    ensures !(IsInt64(start) && IsInt64(end)) ==> r == Failure(StoreError(ParameterOverflow))
    ensures r.Failure? && IsInt64(start) && IsInt64(end) ==>
      r.error.ValidationError? &&
      exists k :: FirstBadRow(Select(table, start, end), k) &&
                  DecodeRow(Select(table, start, end)[k]) == Failure(r.error.fields)
    ensures r.Success? ==> |r.value| == |Select(table, start, end)|
    ensures r.Success? ==> forall i :: 0 <= i < |r.value| ==>
      DecodeRow(Select(table, start, end)[i]) == Success(r.value[i])
    ensures r.Success? ==> forall i :: 0 <= i < |r.value| ==>
      ValidRecord(r.value[i]) && start <= r.value[i].startTime <= end
    ensures r.Success? ==> RecordsSorted(r.value)
    ensures IsInt64(start) && IsInt64(end) && end < start ==> r == Success([])
  {
    match ReadDbFile(table, start, end)
    case Failure(e) => Failure(StoreError(e))
    case Success(rows) =>
      WindowRowsDecode(table, start, end);
      var d := DecodeAll(rows);
      if d.Success? then
        DecodedRowsInOrder(rows, d.value, start, end);
        Success(d.value)
      else Failure(ValidationError(d.error))
  }

  /** Every fetched row decodes exactly when every stored row in the window does. */
  lemma WindowRowsDecode(table: Table, start: int, end: int)
    ensures (forall x :: x in table && InWindow(x, start, end) ==> DecodeRow(x).Success?)
       <==> (forall i :: 0 <= i < |Select(table, start, end)| ==> DecodeRow(Select(table, start, end)[i]).Success?)
  {
    var rows := Select(table, start, end);
    forall x | x in table && InWindow(x, start, end) ensures x in rows {
      SelectComplete(table, start, end, x);
    }
    forall i | 0 <= i < |rows| ensures rows[i] in table {
      assert rows[i] in multiset(rows);
    }
  }

  /** Decoding the fetched rows keeps their window and their order. */
  lemma DecodedRowsInOrder(rows: seq<StoredRow>, recs: seq<BuildRecord>, start: int, end: int)
    requires |recs| == |rows|
    requires forall i :: 0 <= i < |rows| ==> DecodeRow(rows[i]) == Success(recs[i])
    requires forall i :: 0 <= i < |rows| ==> InWindow(rows[i], start, end)
    requires SortedByStart(rows)
    ensures forall i :: 0 <= i < |recs| ==> ValidRecord(recs[i]) && start <= recs[i].startTime <= end
    ensures RecordsSorted(recs)
  {
    forall i | 0 <= i < |rows| ensures recs[i].startTime == Start(rows[i]) && ValidRecord(recs[i]) {
      DecodedStart(rows[i]);
    }
  }

  /** `read_recent_builds` at current time `now`: the builds that started
      between `startAgo` and `endAgo` milliseconds before `now`, oldest first.
      Both shifted bounds must fit a SQLite INTEGER. */
  function ReadRecentBuilds(table: Table, now: int, startAgo: int, endAgo: int): (r: Result<seq<BuildRecord>, ToolError>)
    ensures r.Success? ==> forall i :: 0 <= i < |r.value| ==>
      endAgo <= now - r.value[i].startTime <= startAgo
    ensures r.Success? ==> RecordsSorted(r.value)
    ensures !(IsInt64(now - startAgo) && IsInt64(now - endAgo)) ==> r == Failure(StoreError(ParameterOverflow))
    ensures IsInt64(now - startAgo) && IsInt64(now - endAgo) && startAgo < endAgo ==> r == Success([])
  {
    ReadBuildsInTimeRange(table, now - startAgo, now - endAgo)
  }

  /** The relative window selects a stored row exactly when the row started
      between `endAgo` and `startAgo` milliseconds before `now`. */
  lemma RecentWindowMembership(table: Table, now: int, startAgo: int, endAgo: int, x: StoredRow)
    requires x in table
    ensures x in Select(table, now - startAgo, now - endAgo)
      <==> Keyed(x) && endAgo <= now - Start(x) <= startAgo
  {
    if Keyed(x) && endAgo <= now - Start(x) <= startAgo {
      SelectComplete(table, now - startAgo, now - endAgo, x);
    }
  }

  /** A sanity check of the relative query: moving the clock and both offsets
      together leaves the result unchanged. */
  lemma RecentShiftInvariant(table: Table, now: int, startAgo: int, endAgo: int, d: int)
    ensures ReadRecentBuilds(table, now + d, startAgo + d, endAgo + d)
         == ReadRecentBuilds(table, now, startAgo, endAgo)
  {
  }

  /** The range tool as it runs: fetch the window, then decode row by row,
      stopping at the first row that fails. */
  method FetchBuilds(table: Table, start: int, end: int) returns (r: Result<seq<BuildRecord>, ToolError>)
    ensures r == ReadBuildsInTimeRange(table, start, end)
  {
    var fetched := ReadDbFile(table, start, end);
    if fetched.Failure? {
      return Failure(StoreError(fetched.error));
    }
    RangeIsDecodeAll(table, start, end);
    var d := DecodeLoop(fetched.value);
    r := d.MapFailure(e => ValidationError(e));
  }

  /** Decodes the rows one at a time, as the list comprehension does. */
  method DecodeLoop(rows: seq<seq<Raw>>) returns (r: Result<seq<BuildRecord>, seq<FieldError>>)
    ensures r == DecodeAll(rows)
  {
    var recs: seq<BuildRecord> := [];
    var i := 0;
    while i < |rows|
      invariant 0 <= i <= |rows|
      invariant |recs| == i
      invariant forall k :: 0 <= k < i ==> DecodeRow(rows[k]) == Success(recs[k])
    {
      var d := DecodeRow(rows[i]);
      if d.Failure? {
        assert FirstBadRow(rows, i);
        DecodeAllFirstFailure(rows, i);
        return d.PropagateFailure();
      }
      recs := recs + [d.value];
      i := i + 1;
    }
    DecodeAllAllSuccess(rows, recs);
    return Success(recs);
  }

  /** When every row decodes, `DecodeAll` returns exactly the decoded rows. */
  lemma DecodeAllAllSuccess(rows: seq<seq<Raw>>, recs: seq<BuildRecord>)
    requires |recs| == |rows|
    requires forall k :: 0 <= k < |rows| ==> DecodeRow(rows[k]) == Success(recs[k])
    ensures DecodeAll(rows) == Success(recs)
  {
    var r := DecodeAll(rows);
    assert r.Success?;
    assert r.value == recs;
  }

  /** When row `i` is the first to fail, `DecodeAll` fails with its errors. */
  lemma DecodeAllFirstFailure(rows: seq<seq<Raw>>, i: nat)
    requires FirstBadRow(rows, i)
    ensures DecodeAll(rows) == Failure(DecodeRow(rows[i]).error)
  {
    var r := DecodeAll(rows);
    var k :| FirstBadRow(rows, k) && DecodeRow(rows[k]) == Failure(r.error);
  }

  /** With bounds that bind, the tool is the all-or-nothing decoding of the
      selected rows. */
  lemma RangeIsDecodeAll(table: Table, start: int, end: int)
    requires IsInt64(start) && IsInt64(end)
    ensures ReadBuildsInTimeRange(table, start, end)
         == DecodeAll(Select(table, start, end)).MapFailure(e => ValidationError(e))
  {
  }
}
