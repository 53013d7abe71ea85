/** Decoding a positional raw row into a validated build record: the status
    normalisation, the warning-flag coercion, the typed pass-through of the
    other fields, and the positional zip of a row against the schema. */
module Decode {
  import opened Wrappers
  import opened Schema

  /** Why one field failed to validate. */
  datatype ErrorKind =
    | Missing                        // the row ended before this field
    | InvalidStatusIndex(index: int) // an integer status outside the token list
    | InvalidStatus(value: Raw)      // any other status that is not a token
    | IntExpected(value: Raw)
    | TextExpected(value: Raw)

  /** One entry of a validation error: the field and what was wrong with it. */
  datatype FieldError = FieldError(column: Column, kind: ErrorKind)

  // ---------------------------------------------------------------------------
  // Status

  /** Python sequence indexing: `s[v]`, where a negative `v` counts from the
      end, and anything outside `-|s| .. |s|-1` raises `IndexError` (`None`). */
  function PyIndex<T>(s: seq<T>, v: int): (r: Option<T>)
    ensures r.Some? <==> -|s| <= v < |s|
    ensures r.Some? ==> r.value == s[v % |s|]
  {
    if 0 <= v < |s| then Some(s[v])
    else if -|s| <= v < 0 then Some(s[|s| + v])
    else None
  }

  function StatusAtIndex(v: int): Result<string, ErrorKind>
  {
    match PyIndex(BuildStatuses, v)
    case Some(t) => Success(t)
    case None => Failure(InvalidStatusIndex(v))
  }

  /** The status normaliser. An integer (a `bool` is one) indexes the token
      list Python-style; a string must already be a token; anything else is
      rejected. */
  function DecodeStatus(v: Raw): (r: Result<string, ErrorKind>)
    ensures r.Success? ==> r.value in BuildStatuses
    ensures v.RInt? ==> (r.Success? <==> -|BuildStatuses| <= v.i < |BuildStatuses|)
    ensures v.RInt? && r.Success? ==> r.value == BuildStatuses[v.i % |BuildStatuses|]
    ensures v.RInt? && r.Failure? ==> r.error == InvalidStatusIndex(v.i)
    ensures v.RBool? ==> r == Success(BuildStatuses[if v.b then 1 else 0])
    ensures v.RStr? ==> (r.Success? <==> v.s in BuildStatuses)
    ensures v.RStr? && r.Success? ==> r.value == v.s
    ensures v.RStr? && r.Failure? ==> r.error == InvalidStatus(v)
    ensures v.RNull? || v.ROther? ==> r == Failure(InvalidStatus(v))
  {
    match v
    case RInt(i) => StatusAtIndex(i)
    case RBool(b) => StatusAtIndex(if b then 1 else 0)
    case RStr(s) => if s in BuildStatuses then Success(s) else Failure(InvalidStatus(v))
    case _ => Failure(InvalidStatus(v))
  }

  /** The index of a token in the token list. */
  function StatusIndex(t: string): (i: nat)
    requires t in BuildStatuses
    ensures i < |BuildStatuses| && BuildStatuses[i] == t
  {
    if t == BuildStatuses[0] then 0
    else if t == BuildStatuses[1] then 1
    else if t == BuildStatuses[2] then 2
    else if t == BuildStatuses[3] then 3
    else 4
  }

  /** The five tokens are distinct, so an index names exactly one token. */
  lemma StatusTokensDistinct(i: nat, j: nat)
    requires i < |BuildStatuses| && j < |BuildStatuses|
    requires BuildStatuses[i] == BuildStatuses[j]
    ensures i == j
  {
  }

  /** Normalisation is closed and idempotent: a decoded status is a token, and
      decoding that token again gives it back. */
  lemma StatusIdempotent(v: Raw)
    requires DecodeStatus(v).Success?
    ensures DecodeStatus(v).value in BuildStatuses
    ensures DecodeStatus(RStr(DecodeStatus(v).value)) == DecodeStatus(v)
  {
  }

  /** The two storage encodings of a status agree: each token is decoded from
      its own string, from its index and from its negative index. */
  lemma StatusEncodingsAgree(t: string)
    requires t in BuildStatuses
    ensures DecodeStatus(RStr(t)) == Success(t)
    ensures DecodeStatus(RInt(StatusIndex(t))) == Success(t)
    ensures DecodeStatus(RInt(StatusIndex(t) - |BuildStatuses|)) == Success(t)
  {
  }

  /** A status index decodes exactly when it names a token in one of the two
      encodings, and then to that token. */
  lemma StatusIndexReadsToken(i: int)
    ensures DecodeStatus(RInt(i)).Success?
        <==> exists t :: t in BuildStatuses && (i == StatusIndex(t) || i == StatusIndex(t) - |BuildStatuses|)
  {
    if DecodeStatus(RInt(i)).Success? {
      var t := BuildStatuses[i % |BuildStatuses|];
      if 0 <= i {
        StatusTokensDistinct(StatusIndex(t), i);
        assert i == StatusIndex(t);
      } else {
        StatusTokensDistinct(StatusIndex(t), i + |BuildStatuses|);
        assert i == StatusIndex(t) - |BuildStatuses|;
      }
    }
  }

  // ---------------------------------------------------------------------------
  // Warning flag

  /** Python falsiness of a raw scalar: zero, `False`, the empty string and
      `None` are falsy, as is any other scalar that reports itself falsy. */
  predicate Falsy(v: Raw)
  {
    v == RInt(0) || v == RBool(false) || v == RStr("") || v == RNull || v == ROther(false)
  }

  /** The warning-flag coercion, `bool(v)`; it accepts every raw value. */
  function DecodeHasWarnings(v: Raw): (r: bool)
    ensures r <==> !Falsy(v)
  {
    match v
    case RInt(i) => i != 0
    case RBool(b) => b
    case RStr(s) => |s| > 0
    case RNull => false
    case ROther(t) => t
  }

  // ---------------------------------------------------------------------------
  // Plain fields

  /** An `int` field: integers pass through and a `bool` becomes 0 or 1. */
  function DecodeInt(v: Raw): (r: Result<int, ErrorKind>)
    ensures r.Success? <==> v.RInt? || v.RBool?
    ensures v.RInt? ==> r == Success(v.i)
    ensures v.RBool? ==> r == Success(if v.b then 1 else 0)
    ensures r.Failure? ==> r.error == IntExpected(v)
  {
    match v
    case RInt(i) => Success(i)
    case RBool(b) => Success(if b then 1 else 0)
    case _ => Failure(IntExpected(v))
  }

  /** A `str` field: only strings pass. */
  function DecodeText(v: Raw): (r: Result<string, ErrorKind>)
    ensures r.Success? <==> v.RStr?
    ensures r.Success? ==> v == RStr(r.value)
    ensures r.Failure? ==> r.error == TextExpected(v)
  {
    match v
    case RStr(s) => Success(s)
    case _ => Failure(TextExpected(v))
  }

  /** Validates one raw value as the given field. */
  function DecodeValue(c: Column, v: Raw): (r: Result<Value, ErrorKind>)
    ensures r.Success? ==> HasKind(r.value, KindOf(c))
    ensures r.Failure? ==> r.error != Missing
    ensures KindOf(c) == Text ==> (r.Success? <==> v.RStr?)
    ensures KindOf(c) == Text && r.Success? ==> r.value == VText(v.s)
    ensures KindOf(c) == Text && r.Failure? ==> r.error == TextExpected(v)
    ensures KindOf(c) == Token ==> (r.Success? <==> DecodeStatus(v).Success?)
    ensures KindOf(c) == Token && r.Success? ==> r.value == VText(DecodeStatus(v).value)
    ensures KindOf(c) == Token && r.Failure? ==> r.error == DecodeStatus(v).error
    ensures KindOf(c) == Integer ==> (r.Success? <==> DecodeInt(v).Success?)
    ensures KindOf(c) == Integer && r.Success? ==> r.value == VInt(DecodeInt(v).value)
    ensures KindOf(c) == Integer && r.Failure? ==> r.error == IntExpected(v)
    ensures KindOf(c) == Flag ==> r == Success(VBool(!Falsy(v)))
  {
    match KindOf(c)
    case Text => DecodeText(v).MapValue(s => VText(s))
    case Token => DecodeStatus(v).MapValue(s => VText(s))
    case Integer => DecodeInt(v).MapValue(i => VInt(i))
    case Flag => Success(VBool(DecodeHasWarnings(v)))
  }

  // ---------------------------------------------------------------------------
  // Rows

  /** The field `c` of a positional row: the cell at the field's position, or
      `Missing` when the row is too short to reach it. */
  function DecodeColumn(c: Column, row: seq<Raw>): (r: Result<Value, ErrorKind>)
    ensures r == Failure(Missing) <==> |row| <= Position(c)
    ensures Position(c) < |row| ==> r == DecodeValue(c, row[Position(c)])
  {
    if Position(c) < |row| then DecodeValue(c, row[Position(c)]) else Failure(Missing)
  }

  /** The errors of the given fields of a row, in the order the fields are given. */
  function ColumnErrors(cols: seq<Column>, row: seq<Raw>): (r: seq<FieldError>)
    ensures r == [] <==> forall i :: 0 <= i < |cols| ==> DecodeColumn(cols[i], row).Success?
    ensures forall k :: 0 <= k < |r| ==>
      r[k].column in cols && DecodeColumn(r[k].column, row) == Failure(r[k].kind)
    ensures forall i :: 0 <= i < |cols| && DecodeColumn(cols[i], row).Failure? ==>
      FieldError(cols[i], DecodeColumn(cols[i], row).error) in r
  {
    if cols == [] then []
    else
      var rest := ColumnErrors(cols[1..], row);
      match DecodeColumn(cols[0], row)
      case Success(_) => rest
      case Failure(e) => [FieldError(cols[0], e)] + rest
  }

  /** The errors of all eleven fields are empty exactly when every field
      decodes, and name every field that does not. */
  lemma AllColumnErrors(row: seq<Raw>)
    ensures ColumnErrors(Columns, row) == [] <==> forall c: Column :: DecodeColumn(c, row).Success?
    ensures forall c: Column :: DecodeColumn(c, row).Failure? ==>
      FieldError(c, DecodeColumn(c, row).error) in ColumnErrors(Columns, row)
  {
    assert forall c: Column :: Columns[Position(c)] == c;
  }

  /** The record whose every field is the decoded value at its position. */
  function Assemble(row: seq<Raw>): (r: BuildRecord)
    requires forall c: Column :: DecodeColumn(c, row).Success?
    ensures ValidRecord(r)
    ensures forall c: Column :: Get(r, c) == DecodeColumn(c, row).value
  {
    assert Arity <= |row| by {
      assert DecodeColumn(EnvVars, row).Success?;
    }
    assert DecodeColumn(BuildCaption, row).Success? && DecodeColumn(Status, row).Success?;
    assert DecodeColumn(BuildTime, row).Success? && DecodeColumn(StartTime, row).Success?;
    assert DecodeColumn(EndTime, row).Success? && DecodeColumn(ErrorsNumber, row).Success?;
    assert DecodeColumn(WarningsNumber, row).Success? && DecodeColumn(SysErrorsNumber, row).Success?;
    assert DecodeColumn(SysWarningsNumber, row).Success? && DecodeColumn(EnvVars, row).Success?;
    BuildRecord(
      DecodeText(row[0]).value,
      DecodeStatus(row[1]).value,
      DecodeInt(row[2]).value,
      DecodeInt(row[3]).value,
      DecodeInt(row[4]).value,
      DecodeHasWarnings(row[5]),
      DecodeInt(row[6]).value,
      DecodeInt(row[7]).value,
      DecodeInt(row[8]).value,
      DecodeInt(row[9]).value,
      DecodeText(row[10]).value)
  }

  /** `BuildMetadata.from_tuple`: zips the declared fields against the row by
      position (cells past the last field are dropped, as `zip` does) and
      validates every field; the record is built only if all eleven pass,
      otherwise every failing field is reported. */
  function DecodeRow(row: seq<Raw>): (r: Result<BuildRecord, seq<FieldError>>)
    ensures r.Success? <==> forall c: Column :: DecodeColumn(c, row).Success?
    ensures r.Success? ==> ValidRecord(r.value)
    ensures r.Success? ==> forall c: Column :: Get(r.value, c) == DecodeColumn(c, row).value
    ensures r.Failure? ==> r.error != []
    ensures r.Failure? ==> forall k :: 0 <= k < |r.error| ==>
      DecodeColumn(r.error[k].column, row) == Failure(r.error[k].kind)
    ensures r.Failure? ==> forall c: Column :: DecodeColumn(c, row).Failure? ==>
      FieldError(c, DecodeColumn(c, row).error) in r.error
    ensures |row| < Arity ==> r.Failure?
  {
    AllColumnErrors(row);
    assert |row| < Arity ==> DecodeColumn(EnvVars, row).Failure?;
    var errs := ColumnErrors(Columns, row);
    if errs != [] then Failure(errs) else Success(Assemble(row))
  }

  /** Cells beyond the eleventh never influence the outcome. */
  lemma DecodeRowIgnoresExtraCells(row: seq<Raw>)
    requires Arity <= |row|
    ensures DecodeRow(row) == DecodeRow(row[..Arity])
  {
    forall c: Column ensures DecodeColumn(c, row) == DecodeColumn(c, row[..Arity]) {
    }
    ColumnErrorsCongruent(Columns, row, row[..Arity]);
  }

  /** Two rows whose fields decode alike have the same errors. */
  lemma {:induction false} ColumnErrorsCongruent(cols: seq<Column>, a: seq<Raw>, b: seq<Raw>)
    requires forall c: Column :: DecodeColumn(c, a) == DecodeColumn(c, b)
    ensures ColumnErrors(cols, a) == ColumnErrors(cols, b)
  {
    if cols != [] {
      ColumnErrorsCongruent(cols[1..], a, b);
    }
  }

  // ---------------------------------------------------------------------------
  // Encoding a record back into a row

  /** The row a record is stored as, with the status as its token and the
      warning flag as the INTEGER 0 or 1 that SQLite stores a boolean as. */
  function EncodeRow(r: BuildRecord): (row: seq<Raw>)
    ensures |row| == Arity
  {
    [RStr(r.buildCaption), RStr(r.status), RInt(r.buildTime), RInt(r.startTime),
     RInt(r.endTime), RInt(if r.hasWarnings then 1 else 0), RInt(r.errorsNumber), RInt(r.warningsNumber),
     RInt(r.sysErrorsNumber), RInt(r.sysWarningsNumber), RStr(r.envVars)]
  }

  /** The same row with the status stored in its legacy integer form. */
  function EncodeRowIndexed(r: BuildRecord): (row: seq<Raw>)
    requires ValidRecord(r)
    ensures |row| == Arity
  {
    EncodeRow(r)[Position(Status) := RInt(StatusIndex(r.status))]
  }

  /** Encoding then decoding gives the record back exactly when the record is
      valid; an invalid status is the only way to fail. */
  lemma RowRoundTrip(r: BuildRecord)
    ensures DecodeRow(EncodeRow(r)).Success? <==> ValidRecord(r)
    ensures ValidRecord(r) ==> DecodeRow(EncodeRow(r)) == Success(r)
    ensures !ValidRecord(r) ==> DecodeRow(EncodeRow(r)) == Failure([FieldError(Status, InvalidStatus(RStr(r.status)))])
  {
    var row := EncodeRow(r);
    if ValidRecord(r) {
      forall c: Column ensures DecodeColumn(c, row) == Success(Get(r, c)) {
      }
      RecordExtensionality(DecodeRow(row).value, r);
    } else {
      forall c: Column | c != Status ensures DecodeColumn(c, row).Success? {
      }
      forall i, j | 0 <= i < j < |Columns| ensures Columns[i] != Columns[j] {
        PositionInverse(i);
        PositionInverse(j);
      }
      ColumnErrorsOfOneFailure(Columns, row, Status);
    }
  }

  /** When a single field fails, the errors of a list of distinct fields are
      that field's error if it is listed, and nothing otherwise. */
  lemma {:induction false} ColumnErrorsOfOneFailure(cols: seq<Column>, row: seq<Raw>, c: Column)
    requires forall i, j :: 0 <= i < j < |cols| ==> cols[i] != cols[j]
    requires forall d: Column :: d != c ==> DecodeColumn(d, row).Success?
    requires DecodeColumn(c, row).Failure?
    ensures ColumnErrors(cols, row) ==
      if c in cols then [FieldError(c, DecodeColumn(c, row).error)] else []
  {
    if cols != [] {
      ColumnErrorsOfOneFailure(cols[1..], row, c);
      if cols[0] == c {
        assert c !in cols[1..] by {
          forall j | 1 <= j < |cols| ensures cols[j] != c {
            assert cols[0] != cols[j];
          }
        }
      }
    }
  }

  /** The legacy integer encoding of the status round-trips too. */
  lemma IndexedRowRoundTrip(r: BuildRecord)
    requires ValidRecord(r)
    ensures DecodeRow(EncodeRowIndexed(r)) == Success(r)
  {
    var row := EncodeRowIndexed(r);
    forall c: Column ensures DecodeColumn(c, row) == Success(Get(r, c)) {
    }
    RecordExtensionality(DecodeRow(row).value, r);
  }

  /** Decoding is a normal form: re-encoding a decoded record and decoding it
      again gives the same record. */
  lemma DecodeRowIdempotent(row: seq<Raw>)
    requires DecodeRow(row).Success?
    ensures DecodeRow(EncodeRow(DecodeRow(row).value)) == DecodeRow(row)
  {
    RowRoundTrip(DecodeRow(row).value);
  }
}
