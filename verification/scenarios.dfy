/** Worked examples: status normalisation on a few values, the narrow time
    window over three builds from the integration tests, and a bound outside
    the 64-bit range. */
module Scenarios {
  import opened Wrappers
  import opened Schema
  import opened Decode
  import opened Query
  import opened Tools

  /** Index 2 is the third token, 99 is out of range, -1 wraps to the last
      token, `True` is index 1, and an unknown string is refused. */
  lemma StatusExamples()
    ensures DecodeStatus(RInt(2)) == Success("stop_forced")
    ensures DecodeStatus(RInt(99)) == Failure(InvalidStatusIndex(99))
    ensures DecodeStatus(RInt(-1)) == Success("pending")
    ensures DecodeStatus(RBool(true)) == Success("completed")
    ensures DecodeStatus(RStr("done")) == Failure(InvalidStatus(RStr("done")))
  {
  }

  /** A row that started at `t`, finished with status index 1 and no warnings. */
  function RowAt(t: int): StoredRow
  {
    [RStr("proj"), RInt(1), RInt(0), RInt(t), RInt(t), RInt(0),
     RInt(0), RInt(0), RInt(0), RInt(0), RStr("[]")]
  }

  function RecordAt(t: int): BuildRecord
  {
    BuildRecord("proj", "completed", 0, t, t, false, 0, 0, 0, 0, "[]")
  }

  /** Such a row decodes, its integer status read as "completed". */
  lemma RowAtDecodes(t: int)
    ensures DecodeRow(RowAt(t)) == Success(RecordAt(t))
  {
    var row, rec := RowAt(t), RecordAt(t);
    assert DecodeStatus(RInt(1)) == Success("completed") by {
      assert PyIndex(BuildStatuses, 1) == Some("completed");
    }
    forall c: Column ensures DecodeColumn(c, row) == Success(Get(rec, c)) {
      assert row[Position(c)] == RowAt(t)[Position(c)];
    }
    RecordExtensionality(DecodeRow(row).value, rec);
  }

  /** Three builds a second apart. */
  function ThreeBuilds(t: int): Table
  {
    [RowAt(t + 1000), RowAt(t), RowAt(t - 1000)]
  }

  /** A 200 ms window starting at one build's start, with its neighbours a
      second away, fetches that one row. */
  lemma NarrowWindowFetch(t: int)
    ensures Select(ThreeBuilds(t), t, t + 200) == [RowAt(t)]
  {
    var table := ThreeBuilds(t);
    assert Start(table[0]) == t + 1000;
    assert Start(table[1]) == t;
    assert Start(table[2]) == t - 1000;
    WhereSingle(table, t, t + 200, 1);
    assert SortByStart([RowAt(t)]) == [RowAt(t)];
  }

  /** ... and the range tool returns that one build, decoded (for instance at
      `t` = 1764777170000). */
  lemma NarrowWindowExample(t: int)
    requires IsInt64(t) && IsInt64(t + 200)
    ensures ReadBuildsInTimeRange(ThreeBuilds(t), t, t + 200) == Success([RecordAt(t)])
  {
    NarrowWindowFetch(t);
    RowAtDecodes(t);
    SingleRowRange(ThreeBuilds(t), t, t + 200, RowAt(t), RecordAt(t));
  }

  /** A window that fetches a single row returns that row's record. */
  lemma SingleRowRange(table: Table, start: int, end: int, row: StoredRow, rec: BuildRecord)
    requires IsInt64(start) && IsInt64(end)
    requires Select(table, start, end) == [row]
    requires DecodeRow(row) == Success(rec)
    ensures ReadBuildsInTimeRange(table, start, end) == Success([rec])
  {
    DecodeAllAllSuccess([row], [rec]);
    RangeIsDecodeAll(table, start, end);
  }

  /** A bound past the 64-bit range makes the range tool fail rather than
      return an empty list. */
  lemma OverflowExample(table: Table)
    ensures ReadBuildsInTimeRange(table, 0, 0x1_0000_0000_0000_0000) == Failure(StoreError(ParameterOverflow))
  {
  }
}
