/**
 * The MSSQL operation registry: the generic table, overlaid by the window
 * function table and then by this dialect's overrides, with the operations
 * the dialect cannot express removed.
 */
module MssqlRegistry {
  import opened Wrappers
  import IbisOps
  import SqlAst
  import SqlSemantics
  import MssqlRules
  import opened MssqlOverrides

  /** The override table as a dictionary. */
  ghost const OVERRIDES: imap<OpKind, Rule> := imap k | Override(k).Some? :: Override(k).value

  /** `_invalid_operations`: kinds with no correct translation in this dialect. */
  const INVALID_OPERATIONS: set<OpKind> :=
    {StringOp(RPad), StringOp(LPad), Aggregate(BitAnd), Aggregate(BitOr), Aggregate(BitXor), Aggregate(GroupConcat), NthValue}

  /**
   * `operation_registry`: a copy of the generic table, updated with the
   * window-function table, updated with the overrides, then rebuilt without
   * the invalid operations. Every surviving kind resolves to its override if
   * it has one, else to its window-function entry, else to its generic entry.
   */
  ghost function Registry(defaults: imap<OpKind, Rule>, windows: imap<OpKind, Rule>): (r: imap<OpKind, Rule>)
    ensures forall k :: k in r <==> (k in defaults || k in windows || k in OVERRIDES) && k !in INVALID_OPERATIONS
    ensures forall k :: k in r ==>
      r[k] == (if k in OVERRIDES then OVERRIDES[k] else if k in windows then windows[k] else defaults[k])
  {
    var copied := defaults;
    var withWindows := copied + windows;
    var withOverrides := withWindows + OVERRIDES;
    imap k | k in withOverrides && k !in INVALID_OPERATIONS :: withOverrides[k]
  }

  datatype RegistryError = OperationNotDefined(kind: OpKind)

  /** The translator's lookup: a kind without an entry cannot be lowered. */
  ghost function Resolve(registry: imap<OpKind, Rule>, kind: OpKind): (r: Result<Rule, RegistryError>)
    ensures r.Ok? <==> kind in registry
    ensures r.Ok? ==> r.value == registry[kind]
    ensures r.Err? ==> r.error == OperationNotDefined(kind)
  {
    if kind in registry then Ok(registry[kind]) else Err(OperationNotDefined(kind))
  }

  /** The aggregates are overridden by boolean-safe reductions: cast to int32, or to float64 for the mean. */
  lemma ReductionOverrides()
    ensures Override(Aggregate(Count)) == Some(ReductionRule("count", IbisOps.Int32))
    ensures Override(Aggregate(Max)) == Some(ReductionRule("max", IbisOps.Int32))
    ensures Override(Aggregate(Min)) == Some(ReductionRule("min", IbisOps.Int32))
    ensures Override(Aggregate(Sum)) == Some(ReductionRule("sum", IbisOps.Int32))
    ensures Override(Aggregate(Mean)) == Some(ReductionRule("avg", IbisOps.Float64))
  {
  }

  /** The negation and string rules sit under their kinds. */
  lemma StringOverrides()
    ensures Override(Not) == Some(NotRule)
    ensures Override(StringOp(StringFind)) == Some(StringFindRule) && Override(StringOp(StringLength)) == Some(StringLengthRule)
  {
  }

  /** The temporal, hashing and literal rules sit under their kinds; truncation serves both timestamps and dates. */
  lemma TemporalAndLiteralOverrides()
    ensures Override(TemporalOp(TimestampFromUNIX)) == Some(TimestampFromUnixRule)
    ensures Override(TemporalOp(TimestampTruncate)) == Some(TruncateRule) && Override(TemporalOp(DateTruncate)) == Some(TruncateRule)
    ensures Override(TemporalOp(TimestampBucket)) == Some(BucketRule)
    ensures Override(HashOp(HashBytes)) == Some(HashBytesRule) && Override(HashOp(HexDigest)) == Some(HexDigestRule)
    ensures Override(Literal) == Some(LiteralRule)
  {
  }

  /** Exactly the invalid kinds and the kinds the dialect does not name have no override. */
  lemma OverrideCoverage(kind: OpKind)
    ensures Override(kind).None? <==> kind.Other? || kind in INVALID_OPERATIONS
  {
  }

  /** No override is for an invalid operation. */
  lemma OverridesAreValid(kind: OpKind)
    ensures kind in OVERRIDES ==> kind !in INVALID_OPERATIONS
  {
  }

  /**
   * Lookup in the composed registry, whatever the generic and window tables
   * hold: an invalid operation never resolves, an override always wins, and
   * any other kind falls back to the window table, then the generic table.
   */
  lemma ResolveInRegistry(defaults: imap<OpKind, Rule>, windows: imap<OpKind, Rule>, kind: OpKind)
    ensures kind in INVALID_OPERATIONS ==> Resolve(Registry(defaults, windows), kind) == Err(OperationNotDefined(kind))
    ensures kind in OVERRIDES ==> Resolve(Registry(defaults, windows), kind) == Ok(OVERRIDES[kind])
    ensures kind !in OVERRIDES && kind !in INVALID_OPERATIONS && kind in windows ==>
      Resolve(Registry(defaults, windows), kind) == Ok(windows[kind])
    ensures kind !in OVERRIDES && kind !in INVALID_OPERATIONS && kind !in windows && kind in defaults ==>
      Resolve(Registry(defaults, windows), kind) == Ok(defaults[kind])
    ensures kind !in OVERRIDES && kind !in windows && kind !in defaults ==>
      Resolve(Registry(defaults, windows), kind).Err?
  {
    var reg := Registry(defaults, windows);
    OverridesAreValid(kind);
    if kind in OVERRIDES {
      assert kind in reg;
    }
  }

  /** The children a dialect rule reads, one shape per rule. */
  datatype Operands =
    | ReductionOperands(arg: IbisOps.Node, where: Option<IbisOps.Node>)
    | UnaryOperand(operand: IbisOps.Node)
    | FindOperands(haystack: IbisOps.Node, substr: IbisOps.Node, start: Option<IbisOps.Node>, end: Option<IbisOps.Node>)
    | UnitOperands(timestamp: IbisOps.Node, unit: IbisOps.IntervalUnit)
    | BucketOperands(bucketed: IbisOps.Node, interval: IbisOps.Node, offset: Option<IbisOps.Node>)
    | HashOperands(hashed: IbisOps.Node, how: string)
    | LiteralOperands(value: IbisOps.Value, dtype: IbisOps.DType)

  /**
   * Lowering with a registry entry: each of this dialect's own rules applied
   * to operands of its shape. None for an entry that is opaque here (a generic
   * rule, a table-only rule) and for operands the rule cannot take.
   */
  function Apply(rule: Rule, ctx: MssqlRules.Context, ops: Operands): (r: Option<MssqlRules.Lowered>)
    ensures (|| rule.UnaryRule? || rule.FixedArityRule? || rule.BaseRule? || rule.RoundRule?
             || rule.ExtractRule? || rule.TemporalDeltaRule? || rule.VarianceRule?) ==> r.None?
    ensures rule.ReductionRule? && ops.ReductionOperands? ==>
      r == Some(Ok(MssqlRules.Reduction(rule.func, rule.castType, ops.arg, ops.where)))
    ensures rule.NotRule? && ops.UnaryOperand? ==> r == Some(Ok(MssqlRules.LowerNot(ctx, ops.operand)))
    ensures rule.StringFindRule? && ops.FindOperands? ==>
      r == Some(Ok(MssqlRules.StringFind(ops.haystack, ops.substr, ops.start, ops.end)))
    ensures rule.StringLengthRule? && ops.UnaryOperand? ==> r == Some(Ok(MssqlRules.Length(SqlAst.Translated(ops.operand))))
    ensures rule.TimestampFromUnixRule? && ops.UnitOperands? ==>
      r == Some(MssqlRules.TimestampFromUnix(ops.timestamp, ops.unit))
    ensures rule.TruncateRule? && ops.UnitOperands? ==> r == Some(MssqlRules.TimestampTruncate(ops.timestamp, ops.unit))
    ensures rule.BucketRule? && ops.BucketOperands? ==>
      (r.Some? <==> MssqlRules.IsIntervalOperand(ops.interval))
      && (r.Some? ==> r.value == MssqlRules.TimestampBucket(ops.bucketed, ops.interval, ops.offset))
    ensures rule.HashBytesRule? && ops.HashOperands? ==> r == Some(MssqlRules.HashBytes(ops.hashed, ops.how))
    ensures rule.HexDigestRule? && ops.HashOperands? ==> r == Some(MssqlRules.HexDigest(ops.hashed, ops.how))
    ensures rule.LiteralRule? && ops.LiteralOperands? ==>
      (r.Some? <==> IbisOps.Matches(ops.value, ops.dtype))
      && (r.Some? ==> r.value == MssqlRules.LowerLiteral(ops.value, ops.dtype))
  {
    match (rule, ops)
    case (ReductionRule(func, castType), ReductionOperands(arg, where)) =>
      Some(Ok(MssqlRules.Reduction(func, castType, arg, where)))
    case (NotRule, UnaryOperand(arg)) => Some(Ok(MssqlRules.LowerNot(ctx, arg)))
    case (StringFindRule, FindOperands(arg, substr, start, end)) =>
      Some(Ok(MssqlRules.StringFind(arg, substr, start, end)))
    case (StringLengthRule, UnaryOperand(arg)) => Some(Ok(MssqlRules.Length(SqlAst.Translated(arg))))
    case (TimestampFromUnixRule, UnitOperands(arg, unit)) => Some(MssqlRules.TimestampFromUnix(arg, unit))
    case (TruncateRule, UnitOperands(arg, unit)) => Some(MssqlRules.TimestampTruncate(arg, unit))
    case (BucketRule, BucketOperands(arg, interval, offset)) =>
      if MssqlRules.IsIntervalOperand(interval) then Some(MssqlRules.TimestampBucket(arg, interval, offset)) else None
    case (HashBytesRule, HashOperands(arg, how)) => Some(MssqlRules.HashBytes(arg, how))
    case (HexDigestRule, HashOperands(arg, how)) => Some(MssqlRules.HexDigest(arg, how))
    case (LiteralRule, LiteralOperands(value, dtype)) =>
      if IbisOps.Matches(value, dtype) then Some(MssqlRules.LowerLiteral(value, dtype)) else None
    case _ => None
  }

  /**
   * End to end, whatever the generic and window tables hold: each of the five
   * reductions resolves to a rule that hands its aggregate a non-boolean
   * operand, and a count of a boolean column counts its cast to int32.
   */
  lemma ReductionsLowerBooleanSafely(defaults: imap<OpKind, Rule>, windows: imap<OpKind, Rule>,
                                     agg: AggregateKind, ctx: MssqlRules.Context, arg: IbisOps.Node, where: Option<IbisOps.Node>)
    requires agg in {Count, Max, Min, Sum, Mean}
    ensures var entry := Resolve(Registry(defaults, windows), Aggregate(agg));
      && entry.Ok?
      && var lowered := Apply(entry.value, ctx, ReductionOperands(arg, where));
      && lowered.Some? && lowered.value.Ok? && lowered.value.value.Func?
      && !lowered.value.value.args[0].node.DataType().kind.Boolean?
    ensures agg == Count && arg.TableColumn? && arg.dtype.kind.Boolean? && where.None? ==>
      Apply(Resolve(Registry(defaults, windows), Aggregate(agg)).value, ctx, ReductionOperands(arg, where))
        == Some(Ok(SqlAst.Func("count", [SqlAst.Translated(IbisOps.Cast(arg, IbisOps.DType(IbisOps.Int32, arg.dtype.nullable)))])))
  {
    ReductionOverrides();
    ResolveInRegistry(defaults, windows, Aggregate(agg));
    var rule := Override(Aggregate(agg)).value;
    MssqlRules.ReductionOperandNotBoolean(rule.func, rule.castType, arg, where);
  }

  /**
   * End to end: NOT resolves to the dialect's rule, which inside a predicate
   * negates a boolean operand and outside it yields true exactly for 0.
   */
  lemma NotLowersToNegation(defaults: imap<OpKind, Rule>, windows: imap<OpKind, Rule>,
                            arg: IbisOps.Node, env: SqlSemantics.Env, v: SqlSemantics.SqlValue)
    requires env.column(arg) == v
    ensures var entry := Resolve(Registry(defaults, windows), Not);
      && entry.Ok?
      && var inWhere := Apply(entry.value, MssqlRules.Context(true), UnaryOperand(arg));
      && var inSelection := Apply(entry.value, MssqlRules.Context(false), UnaryOperand(arg));
      && inWhere.Some? && inWhere.value.Ok? && inSelection.Some? && inSelection.value.Ok?
      && (v.SqlBool? ==> SqlSemantics.Eval(inWhere.value.value, env) == Some(SqlSemantics.SqlBool(!v.b)))
      && (v.SqlInt? ==> SqlSemantics.Eval(inSelection.value.value, env) == Some(SqlSemantics.SqlBool(v.i == 0)))
  {
    StringOverrides();
    ResolveInRegistry(defaults, windows, Not);
    if v.SqlBool? {
      MssqlRules.LowerNotInWhereNegates(arg, env, v.b);
    }
    if v.SqlInt? {
      MssqlRules.LowerNotInSelectionNegatesEncoding(arg, env, v.i);
    }
  }

  /**
   * End to end: string length resolves to the dialect's rule, whose
   * expression evaluates to the full character count, trailing spaces included.
   */
  lemma StringLengthLowersToFullLength(defaults: imap<OpKind, Rule>, windows: imap<OpKind, Rule>,
                                       ctx: MssqlRules.Context, arg: IbisOps.Node, env: SqlSemantics.Env, s: string)
    requires env.column(arg) == SqlSemantics.SqlStr(s)
    ensures var entry := Resolve(Registry(defaults, windows), StringOp(StringLength));
      && entry.Ok?
      && var lowered := Apply(entry.value, ctx, UnaryOperand(arg));
      && lowered.Some? && lowered.value.Ok?
      && SqlSemantics.Eval(lowered.value.value, env) == Some(SqlSemantics.SqlInt(|s|))
  {
    StringOverrides();
    ResolveInRegistry(defaults, windows, StringOp(StringLength));
    assert Resolve(Registry(defaults, windows), StringOp(StringLength)) == Ok(StringLengthRule);
    var e := MssqlRules.Length(SqlAst.Translated(arg));
    assert Apply(StringLengthRule, ctx, UnaryOperand(arg)) == Some(Ok(e));
    MssqlRules.LengthOfChild(arg, env, s);
  }
}
