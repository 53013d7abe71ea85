/** The store query behind both tools: the rows of the build-history table
    whose StartTime lies in a closed window, ordered by StartTime. The table is
    an in-memory sequence standing in for the SQLite table, each row already
    projected onto the eleven selected columns in declaration order. */
module Query {
  import opened Wrappers
  import opened Schema

  /** A selected row: one cell per declared field, in declaration order. */
  type StoredRow = row: seq<Raw> | |row| == Arity
    witness [RNull, RNull, RNull, RNull, RNull, RNull, RNull, RNull, RNull, RNull, RNull]

  type Table = seq<StoredRow>

  /** The integer a StartTime cell compares as. An integer (a Python `bool` is
      stored as 0 or 1) compares numerically; NULL compares as unknown, and
      TEXT and BLOB sort above every integer, so none of them can lie inside
      an integer window. */
  function StartKey(v: Raw): (k: Option<int>)
    ensures v.RInt? ==> k == Some(v.i)
    ensures k.Some? <==> v.RInt? || v.RBool?
  {
    match v
    case RInt(i) => Some(i)
    case RBool(b) => Some(if b then 1 else 0)
    case _ => None
  }

  predicate Keyed(row: StoredRow)
  {
    StartKey(row[Position(StartTime)]).Some?
  }

  /** The StartTime of a row whose StartTime cell is numeric. */
  function Start(row: StoredRow): int
    requires Keyed(row)
  {
    StartKey(row[Position(StartTime)]).value
  }

  /** `start <= StartTime AND StartTime <= end`, with SQL's three-valued
      comparison of a non-numeric cell read as "not selected". */
  predicate InWindow(row: StoredRow, start: int, end: int)
  {
    Keyed(row) && start <= Start(row) <= end
  }

  predicate AllKeyed(s: seq<StoredRow>)
  {
    forall i :: 0 <= i < |s| ==> Keyed(s[i])
  }

  /** Ascending by StartTime. */
  predicate SortedByStart(s: seq<StoredRow>)
  {
    AllKeyed(s) && forall i, j :: 0 <= i < j < |s| ==> Start(s[i]) <= Start(s[j])
  }

  /** The WHERE clause: the rows of the window, in table order. */
  function Where(table: Table, start: int, end: int): (r: Table)
    ensures forall i :: 0 <= i < |r| ==> InWindow(r[i], start, end)
    ensures forall x :: multiset(r)[x] == if InWindow(x, start, end) then multiset(table)[x] else 0
  {
    if table == [] then []
    else
      var rest := Where(table[1..], start, end);
      assert table == [table[0]] + table[1..];
      if InWindow(table[0], start, end) then [table[0]] + rest else rest
  }

  /** Inserts a row into a sorted run, before every row with the same StartTime. */
  function Insert(x: StoredRow, s: seq<StoredRow>): (r: seq<StoredRow>)
    requires Keyed(x) && SortedByStart(s)
    ensures SortedByStart(r)
    ensures multiset(r) == multiset(s) + multiset{x}
  {
    if s == [] then [x]
    else if Start(x) <= Start(s[0]) then [x] + s
    else
      SortedTail(s);
      var rest := Insert(x, s[1..]);
      LowerBound(s[0], rest, s[1..], x);
      assert s == [s[0]] + s[1..];
      [s[0]] + rest
  }

  /** The tail of a sorted run is sorted and starts no earlier than its head. */
  lemma SortedTail(s: seq<StoredRow>)
    requires s != [] && SortedByStart(s)
    ensures SortedByStart(s[1..])
    ensures forall i :: 0 <= i < |s[1..]| ==> Start(s[0]) <= Start(s[1..][i])
  {
    assert forall i :: 0 <= i < |s[1..]| ==> s[1..][i] == s[i + 1];
  }

  /** A row no later than every row of `s` and than `x` is no later than any
      row of a permutation of `s` plus `x`. */
  lemma LowerBound(lo: StoredRow, r: seq<StoredRow>, s: seq<StoredRow>, x: StoredRow)
    requires Keyed(lo) && Keyed(x) && AllKeyed(s) && AllKeyed(r)
    requires multiset(r) == multiset(s) + multiset{x}
    requires Start(lo) <= Start(x)
    requires forall i :: 0 <= i < |s| ==> Start(lo) <= Start(s[i])
    ensures forall i :: 0 <= i < |r| ==> Start(lo) <= Start(r[i])
  {
    forall i | 0 <= i < |r| ensures Start(lo) <= Start(r[i]) {
      assert r[i] in multiset(r);
      if r[i] != x {
        assert r[i] in multiset(s);
        var j :| 0 <= j < |s| && s[j] == r[i];
      }
    }
  }

  /** The ORDER BY clause. SQL fixes no order among equal StartTimes; the
      model keeps table order among them (each row is inserted before the
      later rows that tie with it), but promises only the ascending order and
      that no row is lost or added. */
  function SortByStart(s: seq<StoredRow>): (r: seq<StoredRow>)
    requires AllKeyed(s)
    ensures SortedByStart(r)
    ensures multiset(r) == multiset(s)
  {
    if s == [] then []
    else
      assert s == [s[0]] + s[1..];
      Insert(s[0], SortByStart(s[1..]))
  }

  /** Two rows with the same StartTime leave the sort in table order. */
  lemma SortKeepsTieOrder(a: StoredRow, b: StoredRow)
    requires Keyed(a) && Keyed(b) && Start(a) == Start(b)
    ensures SortByStart([a, b]) == [a, b]
  {
    assert [a, b][1..] == [b];
    assert [b][1..] == [];
  }

  /** The SELECT itself: every row of the table whose StartTime is in the
      closed window `[start, end]`, each as often as it is stored, ascending
      by StartTime. */
  function Select(table: Table, start: int, end: int): (r: Table)
    ensures forall i :: 0 <= i < |r| ==> InWindow(r[i], start, end)
    ensures forall x :: multiset(r)[x] == if InWindow(x, start, end) then multiset(table)[x] else 0
    ensures SortedByStart(r)
    ensures end < start ==> r == []
  {
    var hits := Where(table, start, end);
    var r := SortByStart(hits);
    assert forall x :: x in r ==> x in hits by {
      forall x | x in r ensures x in hits {
        assert x in multiset(r);
      }
    }
    if end < start then
      assert |multiset(r)| == 0 by {
        assert forall x :: multiset(r)[x] == 0;
        assert multiset(r) == multiset{};
      }
      r
    else r
  }

  /** Why a query could not run. */
  datatype QueryError =
    | ParameterOverflow  // a bound does not fit a SQLite INTEGER (Python's OverflowError)

  /** A value SQLite can bind as an INTEGER parameter: a signed 64-bit integer. */
  predicate IsInt64(x: int)
  {
    -0x8000_0000_0000_0000 <= x < 0x8000_0000_0000_0000
  }

  /** `read_db_file`: binds both bounds as SQLite INTEGERs, which fails unless
      each fits in 64 bits, and then returns every row of the table whose
      StartTime is in `[start, end]`, each as often as it is stored,
      ascending by StartTime. */
  function ReadDbFile(table: Table, start: int, end: int): (r: Result<Table, QueryError>)
    ensures r.Success? <==> IsInt64(start) && IsInt64(end)
    ensures r.Failure? ==> r.error == ParameterOverflow
    ensures r.Success? ==> forall i :: 0 <= i < |r.value| ==> InWindow(r.value[i], start, end)
    ensures r.Success? ==> forall x ::
      multiset(r.value)[x] == if InWindow(x, start, end) then multiset(table)[x] else 0
    ensures r.Success? ==> SortedByStart(r.value)
    ensures r.Success? && end < start ==> r.value == []
  {
    if IsInt64(start) && IsInt64(end) then Success(Select(table, start, end))
    else Failure(ParameterOverflow)
  }

  /** Every stored row in the window is returned. */
  lemma SelectComplete(table: Table, start: int, end: int, x: StoredRow)
    requires x in table && InWindow(x, start, end)
    ensures x in Select(table, start, end)
  {
    assert multiset(Select(table, start, end))[x] == multiset(table)[x] > 0;
  }

  /** A window that holds every row of the table returns the whole table,
      reordered by StartTime. */
  lemma WholeTableWindow(table: Table, start: int, end: int)
    requires forall i :: 0 <= i < |table| ==> InWindow(table[i], start, end)
    ensures multiset(Select(table, start, end)) == multiset(table)
    ensures |Select(table, start, end)| == |table|
  {
    var r := Select(table, start, end);
    forall x ensures multiset(r)[x] == multiset(table)[x] {
      if !InWindow(x, start, end) {
        assert x !in table;
      }
    }
    assert multiset(r) == multiset(table);
    assert |r| == |multiset(r)| == |multiset(table)| == |table|;
  }

  /** A window that only row `k` of the table falls in selects only that row. */
  lemma {:induction false} WhereSingle(table: Table, start: int, end: int, k: nat)
    requires k < |table|
    requires forall i :: 0 <= i < |table| ==> (InWindow(table[i], start, end) <==> i == k)
    ensures Where(table, start, end) == [table[k]]
  {
    if k == 0 {
      WhereNone(table[1..], start, end);
    } else {
      WhereSingle(table[1..], start, end, k - 1);
    }
  }

  /** A window that no row falls in selects nothing. */
  lemma {:induction false} WhereNone(table: Table, start: int, end: int)
    requires forall i :: 0 <= i < |table| ==> !InWindow(table[i], start, end)
    ensures Where(table, start, end) == []
  {
    if table != [] {
      WhereNone(table[1..], start, end);
    }
  }
}
