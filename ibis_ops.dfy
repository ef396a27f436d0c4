/**
 * The typed operation side the lowering rules read: interval units, data
 * types, literal values and the few value-expression nodes the rules inspect
 * or build themselves before handing them to the translator.
 */
module IbisOps {
  import opened Wrappers
  import opened PyValues

  /** The interval units of the expression language. */
  datatype IntervalUnit =
    | Year | Quarter | Month | Week | Day | Hour | Minute | Second
    | Millisecond | Microsecond | Nanosecond
  {
    /** The unit's short code, `unit.short`. */
    function Short(): string {
      match this
      case Year => "Y"
      case Quarter => "Q"
      case Month => "M"
      case Week => "W"
      case Day => "D"
      case Hour => "h"
      case Minute => "m"
      case Second => "s"
      case Millisecond => "ms"
      case Microsecond => "us"
      case Nanosecond => "ns"
    }
  }

  /** Type tags; a timestamp may carry a time zone, an interval its unit. */
  datatype Kind =
    | Boolean | Int8 | Int32 | Int64 | Float64 | Decimal | String | Binary
    | Date | Time | Timestamp(timezone: Option<string>) | Interval(unit: IntervalUnit)
    | Array(valueType: Kind) | UUID | Null

  datatype DType = DType(kind: Kind, nullable: bool)

  datatype DateTimeParts = DateTimeParts(
    year: int, month: int, day: int,
    hour: int, minute: int, second: int, microsecond: int)

  /** A tzinfo, reduced to its UTC offset in whole minutes. */
  datatype TzInfo = TzInfo(utcOffsetMinutes: int)

  /** The Python values a literal node can hold. */
  datatype Value =
    | NoneValue
    | BoolValue(b: bool)
    | IntValue(i: int)
    | StrValue(s: string)
    | DecimalValue(d: PyDecimal)
    | DateValue(year: int, month: int, day: int)
    | TimestampValue(parts: DateTimeParts, tzinfo: Option<TzInfo>)
    | TimeValue(hour: int, minute: int, second: int, microsecond: int)
    | UuidValue(text: string)
    | BytesValue(bytes: seq<byte>)
    | ListValue(items: seq<Value>)

  /**
   * A literal's value has the shape its data type announces (the literal node
   * validates this when it is built); `None` fits every type.
   */
  predicate Matches(value: Value, dtype: DType) {
    match value
    case NoneValue => true
    case DecimalValue(_) => dtype.kind.Decimal?
    case DateValue(_, _, _) => dtype.kind.Date?
    case TimestampValue(_, tz) =>
      dtype.kind.Timestamp? && (tz.Some? ==> IsUtcOffset(tz.value.utcOffsetMinutes))
    case TimeValue(_, _, _, _) => dtype.kind.Time?
    case UuidValue(_) => dtype.kind.UUID?
    case BytesValue(_) => dtype.kind.Binary?
    case ListValue(_) => dtype.kind.Array?
    case _ =>
      !(dtype.kind.Decimal? || dtype.kind.Date? || dtype.kind.Timestamp? || dtype.kind.Time?
        || dtype.kind.UUID? || dtype.kind.Binary? || dtype.kind.Array?)
  }

  /**
   * Value expressions: a column of a table, any other already-built
   * expression (opaque here), and the Cast, IfElse and Literal nodes that the
   * reduction rule builds.
   */
  datatype Node =
    | TableColumn(name: string, dtype: DType)
    | Expr(description: string, dtype: DType)
    | Cast(arg: Node, to: DType)
    | IfElse(cond: Node, ifTrue: Node, ifFalse: Node)
    | Literal(value: Value, dtype: DType)
  {
    /** The node's output type; an IfElse takes its true branch's type, nullable if either branch is. */
    function DataType(): DType {
      match this
      case TableColumn(_, t) => t
      case Expr(_, t) => t
      case Cast(_, t) => t
      case IfElse(_, a, b) => DType(a.DataType().kind, a.DataType().nullable || b.DataType().nullable)
      case Literal(_, t) => t
    }
  }
}
