/**
 * The MSSQL dialect's override table: which rule lowers each operation
 * kind the dialect overrides. Kinds are grouped as the table groups them.
 */
module MssqlOverrides {
  import opened Wrappers
  import IbisOps

  datatype AggregateKind = Count | Max | Min | Sum | Mean | BitAnd | BitOr | BitXor | GroupConcat

  datatype StringKind =
    | Capitalize | LStrip | Lowercase | RStrip | Repeat | Reverse | StringFind | StringLength
    | StringReplace | Strip | Uppercase | RPad | LPad

  datatype MathKind =
    | Abs | Acos | Asin | Atan2 | Atan | Ceil | Cos | Floor | FloorDivide | Power | Sign | Sin
    | Sqrt | Tan | Round | RandomScalar | Ln | Log | Log2 | Log10 | StandardDev | Variance

  datatype TemporalKind =
    | TimestampNow | ExtractYear | ExtractMonth | ExtractDay | ExtractDayOfYear | ExtractHour
    | ExtractMinute | ExtractSecond | ExtractMillisecond | ExtractWeekOfYear | DayOfWeekIndex
    | ExtractEpochSeconds | TimestampFromUNIX | DateFromYMD | TimestampFromYMDHMS | TimeFromHMS
    | TimestampTruncate | DateTruncate | TimestampBucket | ExtractMicrosecond
    | TimeDelta | DateDelta | TimestampDelta

  datatype HashKind = Hash | HashBytes | HexDigest

  /** Operation kinds the registry names; every other kind is `Other(name)`. */
  datatype OpKind =
    | Not | IfElse | Literal | NthValue
    | Aggregate(aggregate: AggregateKind)
    | StringOp(stringOp: StringKind)
    | MathOp(mathOp: MathKind)
    | TemporalOp(temporalOp: TemporalKind)
    | HashOp(hashOp: HashKind)
    | Other(name: string)

  /**
   * What a registry entry lowers with: one of the rules of this dialect, a
   * one-argument or fixed-arity call named by the SQL it emits, or an entry
   * of the generic tables, opaque here.
   */
  datatype Rule =
    | NotRule
    | ReductionRule(func: string, castType: IbisOps.Kind)
    | StringFindRule
    | StringLengthRule
    | TimestampFromUnixRule
    | TruncateRule
    | BucketRule
    | HashBytesRule
    | HexDigestRule
    | LiteralRule
    | RoundRule
    | ExtractRule(part: string)
    | TemporalDeltaRule
    | VarianceRule(func: string)
    | UnaryRule(sql: string)
    | FixedArityRule(sql: string, arity: nat)
    | BaseRule(name: string)

  function AggregateOverride(kind: AggregateKind): Option<Rule> {
    match kind
    case Count => Some(ReductionRule("count", IbisOps.Int32))
    case Max => Some(ReductionRule("max", IbisOps.Int32))
    case Min => Some(ReductionRule("min", IbisOps.Int32))
    case Sum => Some(ReductionRule("sum", IbisOps.Int32))
    case Mean => Some(ReductionRule("avg", IbisOps.Float64))
    case _ => None
  }

  function StringOverride(kind: StringKind): Option<Rule> {
    match kind
    case Capitalize => Some(UnaryRule("concat(upper(substring(arg, 1, 1)), lower(substring(arg, 2, (len('A' + arg + 'Z') - 2) - 1)))"))
    case LStrip => Some(UnaryRule("ltrim"))
    case Lowercase => Some(UnaryRule("lower"))
    case RStrip => Some(UnaryRule("rtrim"))
    case Repeat => Some(FixedArityRule("replicate", 2))
    case Reverse => Some(UnaryRule("reverse"))
    case StringFind => Some(StringFindRule)
    case StringLength => Some(StringLengthRule)
    case StringReplace => Some(FixedArityRule("replace", 3))
    case Strip => Some(UnaryRule("trim"))
    case Uppercase => Some(UnaryRule("upper"))
    case _ => None
  }

  function MathOverride(kind: MathKind): Rule {
    match kind
    case Abs => UnaryRule("abs")
    case Acos => UnaryRule("acos")
    case Asin => UnaryRule("asin")
    case Atan2 => FixedArityRule("atn2", 2)
    case Atan => UnaryRule("atan")
    case Ceil => UnaryRule("ceiling")
    case Cos => UnaryRule("cos")
    case Floor => UnaryRule("floor")
    case FloorDivide => FixedArityRule("floor(left / right)", 2)
    case Power => FixedArityRule("power", 2)
    case Sign => UnaryRule("sign")
    case Sin => UnaryRule("sin")
    case Sqrt => UnaryRule("sqrt")
    case Tan => UnaryRule("tan")
    case Round => RoundRule
    case RandomScalar => FixedArityRule("RAND", 0)
    case Ln => FixedArityRule("log", 1)
    case Log => FixedArityRule("log(x, p)", 2)
    case Log2 => FixedArityRule("log(x, 2)", 1)
    case Log10 => FixedArityRule("log(x, 10)", 1)
    case StandardDev => VarianceRule("stdev")
    case Variance => VarianceRule("var")
  }

  function TemporalOverride(kind: TemporalKind): Rule {
    match kind
    case TimestampNow => FixedArityRule("GETDATE", 0)
    case ExtractYear => ExtractRule("year")
    case ExtractMonth => ExtractRule("month")
    case ExtractDay => ExtractRule("day")
    case ExtractDayOfYear => ExtractRule("dayofyear")
    case ExtractHour => ExtractRule("hour")
    case ExtractMinute => ExtractRule("minute")
    case ExtractSecond => ExtractRule("second")
    case ExtractMillisecond => ExtractRule("millisecond")
    case ExtractWeekOfYear => ExtractRule("iso_week")
    case DayOfWeekIndex => FixedArityRule("datepart(weekday, x) - 1", 1)
    case ExtractEpochSeconds => FixedArityRule("CAST(datediff(s, '1970-01-01 00:00:00', x) AS BIGINT)", 1)
    case TimestampFromUNIX => TimestampFromUnixRule
    case DateFromYMD => FixedArityRule("datefromparts", 3)
    case TimestampFromYMDHMS => FixedArityRule("datetimefromparts(y, m, d, h, min, s, 0)", 6)
    case TimeFromHMS => FixedArityRule("timefromparts(h, m, s, 0, 0)", 3)
    case TimestampTruncate => TruncateRule
    case DateTruncate => TruncateRule
    case TimestampBucket => BucketRule
    case ExtractMicrosecond => FixedArityRule("datepart(microsecond, arg)", 1)
    case TimeDelta => TemporalDeltaRule
    case DateDelta => TemporalDeltaRule
    case TimestampDelta => TemporalDeltaRule
  }

  function HashOverride(kind: HashKind): Rule {
    match kind
    case Hash => UnaryRule("checksum")
    case HashBytes => HashBytesRule
    case HexDigest => HexDigestRule
  }

  /** The dialect's overrides, one entry per overridden kind. */
  function Override(kind: OpKind): Option<Rule> {
    match kind
    case Not => Some(NotRule)
    case IfElse => Some(FixedArityRule("iif", 3))
    case Literal => Some(LiteralRule)
    case NthValue => None
    case Aggregate(a) => AggregateOverride(a)
    case StringOp(s) => StringOverride(s)
    case MathOp(m) => Some(MathOverride(m))
    case TemporalOp(t) => Some(TemporalOverride(t))
    case HashOp(h) => Some(HashOverride(h))
    case Other(_) => None
  }
}
