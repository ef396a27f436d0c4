/**
 * The MSSQL lowering rules: each maps an operation's children (already
 * wrapped as `Translated` leaves where the rule calls the translator) and
 * the translation context to a SQL expression, or rejects the operation.
 */
module MssqlRules {
  import opened Wrappers
  import opened PyValues
  import opened IbisOps
  import opened SqlAst
  import opened SqlSemantics

  /** The translator's context; the rules read only whether they sit inside a WHERE-like predicate. */
  datatype Context = Context(withinWhere: bool)

  /** `UnsupportedOperationError`, `NotImplementedError(how)` and a failed `assert`. */
  datatype LoweringError = UnsupportedOperation | NotImplemented(how: string) | AssertionFailed

  type Lowered = Result<SqlExpr, LoweringError>

  function IntArg(i: int): SqlExpr { Bind(IntValue(i)) }

  // ---------------------------------------------------------------- reductions

  const ONE: Node := Literal(IntValue(1), DType(Int8, false))
  const ZERO: Node := Literal(IntValue(0), DType(Int8, false))
  const NONE: Node := Literal(NoneValue, DType(Null, true))

  /**
   * `_reduction(func, castType)`: a boolean operand is made numeric (a column
   * is cast to `castType` keeping its nullability, any other boolean
   * expression becomes IfElse(arg, 1, 0)); a `where` predicate then masks the
   * operand as IfElse(where, arg, None); `func` is applied to the translation.
   */
  function Reduction(func: string, castType: Kind, arg: Node, where: Option<Node>): (r: SqlExpr)
    ensures r.Func? && r.name == func && |r.args| == 1 && r.args[0].Translated?
    ensures where.Some? ==>
      r.args[0].node.IfElse? && r.args[0].node.cond == where.value && r.args[0].node.ifFalse == NONE
    ensures var operand := if where.Some? then r.args[0].node.ifTrue else r.args[0].node;
      && (!arg.DataType().kind.Boolean? ==> operand == arg)
      && (arg.DataType().kind.Boolean? && arg.TableColumn? ==>
            operand == Cast(arg, DType(castType, arg.dtype.nullable)))
      && (arg.DataType().kind.Boolean? && !arg.TableColumn? ==> operand == IfElse(arg, ONE, ZERO))
  {
    var coerced :=
      if arg.DataType().kind.Boolean? then
        if arg.TableColumn? then Cast(arg, DType(castType, arg.dtype.nullable)) else IfElse(arg, ONE, ZERO)
      else arg;
    var masked := if where.Some? then IfElse(where.value, coerced, NONE) else coerced;
    Func(func, [Translated(masked)])
  }

  /** With a non-boolean cast target, the aggregate never receives a bare boolean. */
  lemma ReductionOperandNotBoolean(func: string, castType: Kind, arg: Node, where: Option<Node>)
    requires !castType.Boolean?
    ensures !Reduction(func, castType, arg, where).args[0].node.DataType().kind.Boolean?
  {
    var r := Reduction(func, castType, arg, where);
    var operand := if where.Some? then r.args[0].node.ifTrue else r.args[0].node;
    assert !operand.DataType().kind.Boolean?;
  }

  // ---------------------------------------------------------------- negation

  /**
   * `_not`: native NOT inside a predicate; elsewhere, where the dialect has no
   * boolean values, CASE WHEN arg = 0 THEN true ELSE false.
   */
  function LowerNot(ctx: Context, arg: Node): (r: SqlExpr)
    ensures ctx.withinWhere ==> r == Not(Translated(arg))
    ensures !ctx.withinWhere ==>
      r == Case(Eq(Translated(arg), IntArg(0)), Bind(BoolValue(true)), Bind(BoolValue(false)))
  {
    if ctx.withinWhere then Not(Translated(arg))
    else Case(Eq(Translated(arg), IntArg(0)), Bind(BoolValue(true)), Bind(BoolValue(false)))
  }

  /** Inside a predicate the rule negates a boolean operand. */
  lemma LowerNotInWhereNegates(arg: Node, env: Env, b: bool)
    requires env.column(arg) == SqlBool(b)
    ensures Eval(LowerNot(Context(true), arg), env) == Some(SqlBool(!b))
  {
  }

  /**
   * Outside a predicate the rule yields true exactly for the operand 0, so it
   * negates the 0/1 encoding of a boolean.
   */
  lemma {:induction false} LowerNotInSelectionNegatesEncoding(arg: Node, env: Env, v: int)
    requires env.column(arg) == SqlInt(v)
    ensures Eval(LowerNot(Context(false), arg), env) == Some(SqlBool(v == 0))
    ensures v == 0 || v == 1 ==> Eval(LowerNot(Context(false), arg), env) == Some(SqlBool(!(v == 1)))
  {
    var cond := Eq(Translated(arg), IntArg(0));
    assert Eval(cond, env) == Some(SqlBool(v == 0));
  }

  /**
   * A NULL operand: inside a predicate NOT NULL is NULL, so the row is not
   * selected; elsewhere NULL = 0 is not true, and the CASE yields false.
   */
  lemma {:induction false} LowerNotOfNull(arg: Node, env: Env)
    requires env.column(arg) == SqlNull
    ensures Eval(LowerNot(Context(true), arg), env) == Some(SqlNull)
    ensures Eval(LowerNot(Context(false), arg), env) == Some(SqlBool(false))
  {
    var cond := Eq(Translated(arg), IntArg(0));
    assert Eval(cond, env) == Some(SqlNull);
  }

  // ---------------------------------------------------------------- string length

  /** `_len(x)`: LEN('A' + x + 'Z') - 2, so that trailing spaces of x count. */
  function Length(x: SqlExpr): (r: SqlExpr)
    ensures r.Sub? && r.right == IntArg(2)
    ensures r.left == Func("len", [Add(Add(Bind(StrValue("A")), x), Bind(StrValue("Z")))])
  {
    Sub(Func("len", [Add(Add(Bind(StrValue("A")), x), Bind(StrValue("Z")))]), IntArg(2))
  }

  /** The corrected length is the string's full character count, for every string including "". */
  lemma {:induction false} LengthCountsEveryCharacter(x: SqlExpr, env: Env, s: string)
    requires Eval(x, env) == Some(SqlStr(s))
    ensures Eval(Length(x), env) == Some(SqlInt(|s|))
  {
    var padded := Add(Add(Bind(StrValue("A")), x), Bind(StrValue("Z")));
    assert Eval(Add(Bind(StrValue("A")), x), env) == Some(SqlStr("A" + s));
    assert Eval(padded, env) == Some(SqlStr("A" + s + "Z"));
    var t := "A" + s + "Z";
    assert t[|t| - 1] == 'Z';
    assert RTrimSpaces(t) == t;
    assert Eval(Func("len", [padded]), env) == Some(SqlInt(|s| + 2));
  }

  /** The length expression of a string-valued child counts every character of it. */
  lemma LengthOfChild(arg: Node, env: Env, s: string)
    requires env.column(arg) == SqlStr(s)
    ensures Eval(Length(Translated(arg)), env) == Some(SqlInt(|s|))
  {
    LengthCountsEveryCharacter(Translated(arg), env, s);
  }

  /** LEN alone would not do: it drops trailing spaces. */
  lemma NativeLenDropsTrailingSpaces()
    ensures SqlLen("a ") == 1
  {
    assert RTrimSpaces("a ") == RTrimSpaces("a");
  }

  // ---------------------------------------------------------------- string find

  /**
   * `_string_find`: CHARINDEX(substr, arg[, start]) - 1; the start is passed
   * only when present, and the `end` argument is never used.
   */
  function StringFind(arg: Node, substr: Node, start: Option<Node>, end: Option<Node>): (r: SqlExpr)
    ensures r.Sub? && r.right == IntArg(1) && r.left.Func? && r.left.name == "charindex"
    ensures |r.left.args| == (if start.Some? then 3 else 2)
    ensures r.left.args[..2] == [Translated(substr), Translated(arg)]
    ensures start.Some? ==> r.left.args[2] == Translated(start.value)
  {
    var startArg := if start.Some? then [Translated(start.value)] else [];
    Sub(Func("charindex", [Translated(substr), Translated(arg)] + startArg), IntArg(1))
  }

  /** Without a start, the rule finds what Python's `find` finds, for a non-empty needle. */
  lemma StringFindWithoutStartIsPyFind(arg: Node, substr: Node, end: Option<Node>, env: Env, hay: string, needle: string)
    requires env.column(arg) == SqlStr(hay) && env.column(substr) == SqlStr(needle)
    requires needle != []
    ensures Eval(StringFind(arg, substr, None, end), env) == Some(SqlInt(PyFind(hay, needle, 0)))
  {
    var call := Func("charindex", [Translated(substr), Translated(arg)]);
    assert StringFind(arg, substr, None, end) == Sub(call, IntArg(1));
    EvalCharIndex(Translated(substr), Translated(arg), [], env, needle, hay, 0);
    assert [Translated(substr), Translated(arg)] + [] == call.args;
  }

  /**
   * As written, a 0-based start goes straight into the 1-based CHARINDEX:
   * `"ab".find("a", 1)` is -1, the emitted expression yields 0.
   */
  lemma StringFindStartIsOffByOne(arg: Node, substr: Node, start: Node, env: Env)
    requires env.column(arg) == SqlStr("ab") && env.column(substr) == SqlStr("a")
    requires env.column(start) == SqlInt(1)
    ensures PyFind("ab", "a", 1) == -1
    ensures Eval(StringFind(arg, substr, Some(start), None), env) == Some(SqlInt(0))
  {
    var call := Func("charindex", [Translated(substr), Translated(arg), Translated(start)]);
    assert StringFind(arg, substr, Some(start), None) == Sub(call, IntArg(1));
    assert "ab"[0..1] == "a";
    assert FirstMatchFrom("ab", "a", 0) == 0;
    EvalCharIndex(Translated(substr), Translated(arg), [Translated(start)], env, "a", "ab", 1);
    assert [Translated(substr), Translated(arg)] + [Translated(start)] == call.args;
    assert "ab"[1..2] == "b" && 'b' != 'a';
    assert FirstMatchFrom("ab", "a", 2) == -1;
    assert FirstMatchFrom("ab", "a", 1) == -1;
  }

  /**
   * As written, an empty needle finds nothing: CHARINDEX of '' is 0, so the
   * expression is -1, while `hay.find("")` is 0 for every haystack.
   */
  lemma StringFindEmptyNeedleMisses(arg: Node, substr: Node, env: Env, hay: string)
    requires env.column(arg) == SqlStr(hay) && env.column(substr) == SqlStr("")
    ensures PyFind(hay, "", 0) == 0
    ensures Eval(StringFind(arg, substr, None, None), env) == Some(SqlInt(-1))
  {
    var call := Func("charindex", [Translated(substr), Translated(arg)]);
    assert StringFind(arg, substr, None, None) == Sub(call, IntArg(1));
    EvalCharIndex(Translated(substr), Translated(arg), [], env, "", hay, 0);
    assert [Translated(substr), Translated(arg)] + [] == call.args;
    assert hay[0..0] == "";
  }

  /**
   * StringFind corrected on both counts: the 0-based start is shifted to
   * CHARINDEX's 1-based positions, and an empty needle (tested with the
   * trailing-space-safe length) is found at the start when the start is
   * within the haystack, at 0 when there is no start, and nowhere otherwise.
   */
  function StringFindCorrected(arg: Node, substr: Node, start: Option<Node>, end: Option<Node>): (r: SqlExpr)
    ensures r.Case? && r.cond == Eq(Length(Translated(substr)), IntArg(0))
    ensures start.None? ==> r.whenTrue == IntArg(0) && r.orElse == StringFind(arg, substr, start, end)
    ensures start.Some? ==>
      r.whenTrue == Case(Le(Translated(start.value), Length(Translated(arg))), Translated(start.value), IntArg(-1))
    ensures start.Some? ==> r.orElse == Sub(Func("charindex", [Translated(substr), Translated(arg),
                                                               Add(Translated(start.value), IntArg(1))]), IntArg(1))
  {
    var found :=
      if start.Some? then
        Sub(Func("charindex", [Translated(substr), Translated(arg), Add(Translated(start.value), IntArg(1))]), IntArg(1))
      else StringFind(arg, substr, start, end);
    var atEmpty :=
      if start.Some? then Case(Le(Translated(start.value), Length(Translated(arg))), Translated(start.value), IntArg(-1))
      else IntArg(0);
    Case(Eq(Length(Translated(substr)), IntArg(0)), atEmpty, found)
  }

  /** The empty-needle test of the corrected rule is true exactly for "". */
  lemma EmptyNeedleTest(substr: Node, env: Env, needle: string)
    requires env.column(substr) == SqlStr(needle)
    ensures Eval(Eq(Length(Translated(substr)), IntArg(0)), env) == Some(SqlBool(needle == []))
  {
    LengthCountsEveryCharacter(Translated(substr), env, needle);
  }

  /** Without a start, the corrected rule agrees with Python's `find` for every needle, "" included. */
  lemma StringFindCorrectedWithoutStartIsPyFind(arg: Node, substr: Node, end: Option<Node>, env: Env,
                                                hay: string, needle: string)
    requires env.column(arg) == SqlStr(hay) && env.column(substr) == SqlStr(needle)
    ensures Eval(StringFindCorrected(arg, substr, None, end), env) == Some(SqlInt(PyFind(hay, needle, 0)))
  {
    EmptyNeedleTest(substr, env, needle);
    if needle == [] {
      assert hay[0..0] == needle;
    } else {
      StringFindWithoutStartIsPyFind(arg, substr, end, env, hay, needle);
    }
  }

  /** The corrected rule's answer for an empty needle: the start when it is within the haystack, else -1. */
  lemma {:induction false} EmptyNeedleAtStart(arg: Node, start: Node, env: Env, hay: string, k: int)
    requires env.column(arg) == SqlStr(hay) && env.column(start) == SqlInt(k) && k >= 0
    ensures Eval(Case(Le(Translated(start), Length(Translated(arg))), Translated(start), IntArg(-1)), env)
      == Some(SqlInt(PyFind(hay, "", k)))
  {
    LengthCountsEveryCharacter(Translated(arg), env, hay);
    assert Eval(Le(Translated(start), Length(Translated(arg))), env) == Some(SqlBool(k <= |hay|));
    if k <= |hay| {
      assert hay[k..k] == "";
    }
  }

  /** The corrected rule's answer for a non-empty needle: CHARINDEX from start + 1, minus 1, is Python's `find`. */
  lemma ShiftedCharIndexIsPyFind(arg: Node, substr: Node, start: Node, env: Env, hay: string, needle: string, k: int)
    requires env.column(arg) == SqlStr(hay) && env.column(substr) == SqlStr(needle)
    requires env.column(start) == SqlInt(k) && k >= 0 && needle != []
    ensures Eval(Sub(Func("charindex", [Translated(substr), Translated(arg), Add(Translated(start), IntArg(1))]), IntArg(1)), env)
      == Some(SqlInt(PyFind(hay, needle, k)))
  {
    var shifted := Add(Translated(start), IntArg(1));
    assert [Translated(substr), Translated(arg)] + [shifted] == [Translated(substr), Translated(arg), shifted];
    assert Eval(shifted, env) == Some(SqlInt(k + 1));
    EvalCharIndex(Translated(substr), Translated(arg), [shifted], env, needle, hay, k + 1);
  }

  /** With a start, the corrected rule agrees with Python's `find` for every non-negative start and every needle. */
  lemma StringFindCorrectedIsPyFind(arg: Node, substr: Node, start: Node, end: Option<Node>, env: Env,
                                    hay: string, needle: string, k: int)
    requires env.column(arg) == SqlStr(hay) && env.column(substr) == SqlStr(needle)
    requires env.column(start) == SqlInt(k) && k >= 0
    ensures Eval(StringFindCorrected(arg, substr, Some(start), end), env) == Some(SqlInt(PyFind(hay, needle, k)))
  {
    EmptyNeedleTest(substr, env, needle);
    var r := StringFindCorrected(arg, substr, Some(start), end);
    if needle == [] {
      EmptyNeedleAtStart(arg, start, env, hay, k);
      assert Eval(r, env) == Eval(r.whenTrue, env);
    } else {
      ShiftedCharIndexIsPyFind(arg, substr, start, env, hay, needle, k);
      assert Eval(r, env) == Eval(r.orElse, env);
    }
  }

  // ---------------------------------------------------------------- temporal units

  /** `_timestamp_from_unix`: seconds go to DATEADD as they are, milliseconds divided by 1000; other units fail. */
  function TimestampFromUnix(arg: Node, unit: IntervalUnit): (r: Lowered)
    ensures r.Ok? <==> unit == Second || unit == Millisecond
    ensures unit == Second ==>
      r == Ok(Func("dateadd", [Text("s"), Translated(arg), Bind(StrValue("1970-01-01 00:00:00"))]))
    ensures unit == Millisecond ==>
      r == Ok(Func("dateadd", [Text("s"), Div(Translated(arg), IntArg(1000)), Bind(StrValue("1970-01-01 00:00:00"))]))
    ensures r.Err? ==> r.error == UnsupportedOperation
  {
    var x := Translated(arg);
    if unit.Short() == "s" then Ok(Func("dateadd", [Text("s"), x, Bind(StrValue("1970-01-01 00:00:00"))]))
    else if unit.Short() == "ms" then
      Ok(Func("dateadd", [Text("s"), Div(x, IntArg(1000)), Bind(StrValue("1970-01-01 00:00:00"))]))
    else Err(UnsupportedOperation)
  }

  /** `_interval_units`: short code to the dialect's date-part keyword. */
  const INTERVAL_UNITS: map<string, string> := map[
    "us" := "microsecond",
    "ms" := "millisecond",
    "s" := "second",
    "m" := "minute",
    "h" := "hour",
    "D" := "day",
    "W" := "week",
    "M" := "month",
    "Q" := "quarter",
    "Y" := "year"
  ]

  /** The date-part keyword each unit is meant to have; nanoseconds have none. */
  function DatePart(unit: IntervalUnit): Option<string> {
    match unit
    case Year => Some("year")
    case Quarter => Some("quarter")
    case Month => Some("month")
    case Week => Some("week")
    case Day => Some("day")
    case Hour => Some("hour")
    case Minute => Some("minute")
    case Second => Some("second")
    case Millisecond => Some("millisecond")
    case Microsecond => Some("microsecond")
    case Nanosecond => None
  }

  /** The table holds exactly the ten units other than nanoseconds, each under its own keyword. */
  lemma IntervalUnitsTable(unit: IntervalUnit)
    ensures unit.Short() in INTERVAL_UNITS <==> unit != Nanosecond
    ensures unit.Short() in INTERVAL_UNITS ==> DatePart(unit) == Some(INTERVAL_UNITS[unit.Short()])
  {
    match unit
    case Nanosecond =>
      assert INTERVAL_UNITS.Keys == {"us", "ms", "s", "m", "h", "D", "W", "M", "Q", "Y"};
      assert "ns" !in INTERVAL_UNITS.Keys;
    case _ =>
  }

  /**
   * `_timestamp_truncate` (timestamps and dates): DATETRUNC with the unit's
   * keyword as verbatim text; a unit whose short code is not in the table fails.
   */
  function TimestampTruncate(arg: Node, unit: IntervalUnit): (r: Lowered)
    ensures r.Err? <==> unit.Short() !in INTERVAL_UNITS
    ensures r.Err? ==> r.error == UnsupportedOperation
    ensures r.Ok? ==> r.value == Func("datetrunc", [Text(INTERVAL_UNITS[unit.Short()]), Translated(arg)])
  {
    var x := Translated(arg);
    if unit.Short() !in INTERVAL_UNITS then Err(UnsupportedOperation)
    else Ok(Func("datetrunc", [Text(INTERVAL_UNITS[unit.Short()]), x]))
  }

  /** Only nanoseconds are refused, microseconds included; every other unit truncates under its keyword. */
  lemma TruncateUnits(arg: Node, unit: IntervalUnit)
    ensures TimestampTruncate(arg, unit).Err? <==> unit == Nanosecond
    ensures unit != Nanosecond ==>
      TimestampTruncate(arg, unit) == Ok(Func("datetrunc", [Text(DatePart(unit).value), Translated(arg)]))
  {
    IntervalUnitsTable(unit);
  }

  /** An interval operand: its type is an interval, and a literal one holds an integer width. */
  predicate IsIntervalOperand(interval: Node) {
    interval.DataType().kind.Interval?
    && (interval.Literal? ==> interval.value.IntValue?)
  }

  const BUCKET_ORIGIN: SqlExpr := LiteralColumn("CAST('1970-01-01' AS DATETIME2)")

  /**
   * `_timestamp_bucket`: DATE_BUCKET(part, width, arg, 1970-01-01 origin)
   * with part and width as verbatim text; a non-literal interval, a
   * microsecond or unknown unit, and an offset each fail.
   */
  /** Only microseconds have the short code "us". */
  lemma MicrosecondCode(unit: IntervalUnit)
    ensures unit.Short() == "us" <==> unit == Microsecond
  {
  }

  function TimestampBucket(arg: Node, interval: Node, offset: Option<Node>): (r: Lowered)
    requires IsIntervalOperand(interval)
    ensures r.Ok? <==>
      interval.Literal? && interval.DataType().kind.unit.Short() in INTERVAL_UNITS
      && interval.DataType().kind.unit != Microsecond && offset.None?
    ensures r.Err? ==> r.error == UnsupportedOperation
    ensures r.Ok? ==>
      && r.value.Func? && r.value.name == "DATE_BUCKET" && |r.value.args| == 4
      && r.value.args[0] == LiteralColumn(INTERVAL_UNITS[interval.dtype.kind.unit.Short()])
      && r.value.args[1].LiteralColumn? && IsIntText(r.value.args[1].text)
      && ParseInt(r.value.args[1].text) == interval.value.i
      && r.value.args[2] == Translated(arg)
      && r.value.args[3] == BUCKET_ORIGIN
  {
    var unit := interval.DataType().kind.unit.Short();
    MicrosecondCode(interval.DataType().kind.unit);
    if !interval.Literal? then Err(UnsupportedOperation)
    else if unit == "us" || unit !in INTERVAL_UNITS then Err(UnsupportedOperation)
    else if offset.Some? then Err(UnsupportedOperation)
    else
      var part := LiteralColumn(INTERVAL_UNITS[unit]);
      var value := LiteralColumn(IntText(interval.value.i));
      Ok(Func("DATE_BUCKET", [part, value, Translated(arg), BUCKET_ORIGIN]))
  }

  /** Bucketing accepts exactly the literal intervals of the nine units from milliseconds to years, without offset. */
  lemma BucketUnits(arg: Node, interval: Node, offset: Option<Node>)
    requires IsIntervalOperand(interval)
    ensures TimestampBucket(arg, interval, offset).Ok? <==>
      interval.Literal? && offset.None?
      && interval.dtype.kind.unit !in {Microsecond, Nanosecond}
    ensures TimestampBucket(arg, interval, offset).Ok? ==>
      TimestampBucket(arg, interval, offset).value.args[0] == LiteralColumn(DatePart(interval.dtype.kind.unit).value)
  {
    if interval.Literal? {
      IntervalUnitsTable(interval.dtype.kind.unit);
    }
  }

  // ---------------------------------------------------------------- hashing

  /** The HASHBYTES algorithm name for each supported `how`. */
  function HashAlgorithm(how: string): (r: Result<string, LoweringError>)
    ensures r.Err? <==> how !in {"md5", "sha1", "sha256", "sha512"}
    ensures r.Err? ==> r.error == NotImplemented(how)
  {
    if how == "md5" || how == "sha1" then Ok(how)
    else if how == "sha256" then Ok("sha2_256")
    else if how == "sha512" then Ok("sha2_512")
    else Err(NotImplemented(how))
  }

  /** md5 and sha1 pass through, the SHA-2 names are rewritten, and no two algorithms share a name. */
  lemma HashAlgorithmNames(how: string, other: string)
    ensures HashAlgorithm("md5") == Ok("md5") && HashAlgorithm("sha1") == Ok("sha1")
    ensures HashAlgorithm("sha256") == Ok("sha2_256") && HashAlgorithm("sha512") == Ok("sha2_512")
    ensures HashAlgorithm(how).Ok? && HashAlgorithm(other).Ok? && how != other ==>
      HashAlgorithm(how).value != HashAlgorithm(other).value
  {
  }

  /** `_hashbytes`: HASHBYTES(algorithm, arg). */
  function HashBytes(arg: Node, how: string): (r: Lowered)
    ensures r.Err? <==> HashAlgorithm(how).Err?
    ensures r.Err? ==> r.error == NotImplemented(how)
    ensures r.Ok? ==> r.value == Func("hashbytes", [Bind(StrValue(HashAlgorithm(how).value)), Translated(arg)])
  {
    var x := Translated(arg);
    match HashAlgorithm(how)
    case Ok(name) => Ok(Func("hashbytes", [Bind(StrValue(name)), x]))
    case Err(e) => Err(e)
  }

  /**
   * `_hexdigest`: the same HASHBYTES call (with its own copy of the
   * algorithm table) rendered as hex without prefix and lower-cased.
   */
  function HexDigest(arg: Node, how: string): (r: Lowered)
    ensures r.Err? <==> HashBytes(arg, how).Err?
    ensures r.Err? ==> r.error == NotImplemented(how)
    ensures r.Ok? ==>
      r.value == Func("lower", [Func("convert", [LiteralColumn("VARCHAR(MAX)"), HashBytes(arg, how).value, IntArg(2)])])
  {
    var x := Translated(arg);
    var hashBinary :=
      if how == "md5" || how == "sha1" then Ok(Func("hashbytes", [Bind(StrValue(how)), x]))
      else if how == "sha256" then Ok(Func("hashbytes", [Bind(StrValue("sha2_256")), x]))
      else if how == "sha512" then Ok(Func("hashbytes", [Bind(StrValue("sha2_512")), x]))
      else Err(NotImplemented(how));
    match hashBinary
    case Ok(h) => Ok(Func("lower", [Func("convert", [LiteralColumn("VARCHAR(MAX)"), h, IntArg(2)])]))
    case Err(e) => Err(e)
  }

  /**
   * The hex digest evaluates to Python's lower-case `hexdigest()` of the
   * digest HASHBYTES computes: two characters per byte, all in `0-9a-f`.
   */
  lemma HexDigestIsLowerHex(arg: Node, how: string, env: Env)
    requires HexDigest(arg, how).Ok?
    ensures var digest := env.hashbytes(HashAlgorithm(how).value, env.column(arg));
      && Eval(HexDigest(arg, how).value, env) == Some(SqlStr(PyHex(digest)))
      && |PyHex(digest)| == 2 * |digest|
      && forall i :: 0 <= i < |PyHex(digest)| ==> PyHex(digest)[i] in "0123456789abcdef"
  {
    var digest := env.hashbytes(HashAlgorithm(how).value, env.column(arg));
    var h := HashBytes(arg, how).value;
    assert EvalCall(h.name, h.args, env) == Some(SqlBytes(digest));
    assert Eval(h, env) == Some(SqlBytes(digest));
    var conv := Func("convert", [LiteralColumn("VARCHAR(MAX)"), h, IntArg(2)]);
    assert Eval(conv, env) == Some(SqlStr(HexUpper(digest)));
    LowerHexUpperIsPyHex(digest);
    PyHexIsLowerHex(digest);
  }

  // ---------------------------------------------------------------- literals

  function DateTimeArgs(p: DateTimeParts): (r: seq<SqlExpr>)
    ensures |r| == 7
  {
    [IntArg(p.year), IntArg(p.month), IntArg(p.day), IntArg(p.hour), IntArg(p.minute), IntArg(p.second), IntArg(p.microsecond)]
  }

  /**
   * `_literal`: NULL for a missing value; constructor calls for dates, times
   * and timestamps (with a parsed `%z` offset for time-zone-aware ones, whose
   * value must carry a tzinfo); casts for UUIDs and bytes; a normalized
   * decimal; otherwise the value itself as a bound literal.
   */
  function LowerLiteral(value: Value, dtype: DType): (r: Lowered)
    requires Matches(value, dtype)
    ensures value.NoneValue? ==> r == Ok(NullLiteral)
    ensures r.Err? <==> !value.NoneValue? && dtype.kind.Timestamp? && dtype.kind.timezone.Some? && value.tzinfo.None?
    ensures r.Err? ==> r.error == AssertionFailed
    ensures value.DateValue? ==> r == Ok(Func("datefromparts", [IntArg(value.year), IntArg(value.month), IntArg(value.day)]))
    ensures value.TimestampValue? && dtype.kind.timezone.None? ==>
      r == Ok(Func("datetime2fromparts", DateTimeArgs(value.parts) + [IntArg(6)]))
    ensures value.TimestampValue? && dtype.kind.timezone.Some? && value.tzinfo.Some? ==>
      var m := value.tzinfo.value.utcOffsetMinutes;
      r == Ok(Func("datetimeoffsetfromparts",
                   DateTimeArgs(value.parts) + [IntArg(SignedHours(m)), IntArg(UnsignedMinutes(m)), IntArg(6)]))
    ensures value.TimeValue? ==>
      r == Ok(Func("timefromparts", [IntArg(value.hour), IntArg(value.minute), IntArg(value.second),
                                     IntArg(value.microsecond), LiteralColumn("0")]))
    ensures value.UuidValue? ==> r == Ok(SqlCast(Bind(StrValue(value.text)), UniqueIdentifier))
    ensures value.BytesValue? ==> r == Ok(SqlCast(Bind(value), VarBinaryMax))
    ensures value.DecimalValue? ==> r == Ok(Bind(DecimalValue(Normalize(value.d))))
    ensures value.ListValue? ==> r == Ok(Bind(value))
    ensures value.BoolValue? || value.IntValue? || value.StrValue? ==> r == Ok(Bind(value))
  {
    if value.NoneValue? then Ok(NullLiteral)
    else match dtype.kind
      case Array(_) => Ok(Bind(ListValue(value.items)))
      case Decimal => Ok(Bind(DecimalValue(Normalize(value.d))))
      case Date => Ok(Func("datefromparts", [IntArg(value.year), IntArg(value.month), IntArg(value.day)]))
      case Timestamp(timezone) =>
        var args := DateTimeArgs(value.parts);
        if timezone.Some? then
          if value.tzinfo.None? then Err(AssertionFailed)
          else
            var offset := UtcOffsetText(value.tzinfo.value.utcOffsetMinutes);
            UtcOffsetFields(value.tzinfo.value.utcOffsetMinutes);
            var hourOffset := ParseInt(offset[..3]);
            var minuteOffset := ParseInt(offset[|offset| - 2..]);
            Ok(Func("datetimeoffsetfromparts", args + [IntArg(hourOffset), IntArg(minuteOffset), IntArg(6)]))
        else Ok(Func("datetime2fromparts", args + [IntArg(6)]))
      case Time =>
        Ok(Func("timefromparts", [IntArg(value.hour), IntArg(value.minute), IntArg(value.second),
                                  IntArg(value.microsecond), LiteralColumn("0")]))
      case UUID => Ok(SqlCast(Bind(StrValue(value.text)), UniqueIdentifier))
      case Binary => Ok(SqlCast(Bind(value), VarBinaryMax))
      case _ => Ok(Bind(value))
  }

  /**
   * Offsets as the timestamp rule encodes them: +05:30 gives (5, 30), -05:30
   * gives (-5, 30) with an unsigned minute, and -00:30 gives the same (0, 30)
   * as +00:30.
   */
  lemma OffsetEncodingExamples()
    ensures SignedHours(330) == 5 && UnsignedMinutes(330) == 30
    ensures SignedHours(-330) == -5 && UnsignedMinutes(-330) == 30
    ensures SignedHours(-30) == SignedHours(30) == 0 && UnsignedMinutes(-30) == UnsignedMinutes(30) == 30
  {
  }

  /** A date literal lowers to DATEFROMPARTS with exactly its year, month and day. */
  lemma DateLiteralExample()
    ensures LowerLiteral(DateValue(2024, 3, 5), DType(Date, false))
      == Ok(Func("datefromparts", [IntArg(2024), IntArg(3), IntArg(5)]))
  {
  }
}
