/** The build-record schema: the raw scalars the store hands back, the fixed
    list of status tokens, the eleven columns in declaration order, and the
    validated record those columns are decoded into. */
module Schema {

  /** One scalar of a stored row, as Python sees it after the store returns it.
      `RBool` is kept apart from `RInt` because Python's `bool` is a subclass of
      `int` with its own type and display, although `True` and `False` index,
      compare and test exactly as 1 and 0; `ROther` stands for any
      remaining scalar (a REAL or a BLOB), of which only its truthiness is
      observed here. */
  datatype Raw =
    | RInt(i: int)
    | RBool(b: bool)
    | RStr(s: string)
    | RNull
    | ROther(truthy: bool)

  /** The status tokens, in the order an integer status indexes them. */
  const BuildStatuses: seq<string> :=
    ["running", "completed", "stop_forced", "ib_problem_or_user_interrupt", "pending"]

  /** The eleven fields of a build record; their names are the wire names. */
  datatype Column =
    | BuildCaption
    | Status
    | BuildTime
    | StartTime
    | EndTime
    | HasWarnings
    | ErrorsNumber
    | WarningsNumber
    | SysErrorsNumber
    | SysWarningsNumber
    | EnvVars

  /** The declaration order of the fields: the order in which a positional row
      is zipped against them and in which the columns are selected. */
  const Columns: seq<Column> :=
    [BuildCaption, Status, BuildTime, StartTime, EndTime, HasWarnings,
     ErrorsNumber, WarningsNumber, SysErrorsNumber, SysWarningsNumber, EnvVars]

  /** The number of fields, and so the width of a selected row. */
  const Arity: nat := 11

  /** The position of a field in the declaration order. */
  function Position(c: Column): (i: nat)
    ensures i < |Columns| == Arity
    ensures Columns[i] == c
  {
    match c
    case BuildCaption => 0
    case Status => 1
    case BuildTime => 2
    case StartTime => 3
    case EndTime => 4
    case HasWarnings => 5
    case ErrorsNumber => 6
    case WarningsNumber => 7
    case SysErrorsNumber => 8
    case SysWarningsNumber => 9
    case EnvVars => 10
  }

  /** No field is declared twice: position and declaration order are inverse. */
  lemma PositionInverse(i: nat)
    requires i < |Columns|
    ensures Position(Columns[i]) == i
  {
  }

  /** The declared Python type of a field; `Status` is a `str` whose values are
      confined to the status tokens. */
  datatype Kind = Text | Token | Integer | Flag

  function KindOf(c: Column): Kind
  {
    match c
    case BuildCaption => Text
    case EnvVars => Text
    case Status => Token
    case HasWarnings => Flag
    case _ => Integer
  }

  /** A validated field value, typed by its field's kind. */
  datatype Value = VText(s: string) | VInt(i: int) | VBool(b: bool)

  predicate HasKind(v: Value, k: Kind)
  {
    match k
    case Text => v.VText?
    case Token => v.VText? && v.s in BuildStatuses
    case Integer => v.VInt?
    case Flag => v.VBool?
  }

  /** A validated build record. Counters and times are plain Python `int`s:
      nothing in the schema forces them to be non-negative. */
  datatype BuildRecord = BuildRecord(
    buildCaption: string,
    status: string,
    buildTime: int,
    startTime: int,
    endTime: int,
    hasWarnings: bool,
    errorsNumber: int,
    warningsNumber: int,
    sysErrorsNumber: int,
    sysWarningsNumber: int,
    envVars: string)

  /** The record invariant: the status is one of the known tokens. */
  predicate ValidRecord(r: BuildRecord)
  {
    r.status in BuildStatuses
  }

  /** The value of one field of a record. */
  function Get(r: BuildRecord, c: Column): (v: Value)
    ensures ValidRecord(r) ==> HasKind(v, KindOf(c))
  {
    match c
    case BuildCaption => VText(r.buildCaption)
    case Status => VText(r.status)
    case BuildTime => VInt(r.buildTime)
    case StartTime => VInt(r.startTime)
    case EndTime => VInt(r.endTime)
    case HasWarnings => VBool(r.hasWarnings)
    case ErrorsNumber => VInt(r.errorsNumber)
    case WarningsNumber => VInt(r.warningsNumber)
    case SysErrorsNumber => VInt(r.sysErrorsNumber)
    case SysWarningsNumber => VInt(r.sysWarningsNumber)
    case EnvVars => VText(r.envVars)
  }

  /** A record is determined by its eleven field values. */
  lemma RecordExtensionality(a: BuildRecord, b: BuildRecord)
    requires forall c: Column :: Get(a, c) == Get(b, c)
    ensures a == b
  {
    assert Get(a, BuildCaption) == Get(b, BuildCaption);
    assert Get(a, Status) == Get(b, Status);
    assert Get(a, BuildTime) == Get(b, BuildTime);
    assert Get(a, StartTime) == Get(b, StartTime);
    assert Get(a, EndTime) == Get(b, EndTime);
    assert Get(a, HasWarnings) == Get(b, HasWarnings);
    assert Get(a, ErrorsNumber) == Get(b, ErrorsNumber);
    assert Get(a, WarningsNumber) == Get(b, WarningsNumber);
    assert Get(a, SysErrorsNumber) == Get(b, SysErrorsNumber);
    assert Get(a, SysWarningsNumber) == Get(b, SysWarningsNumber);
    assert Get(a, EnvVars) == Get(b, EnvVars);
  }
}
