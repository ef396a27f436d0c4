/** The abstract SQL expression tree the rules return; rendering it to text is not part of this model. */
module SqlAst {
  import opened IbisOps

  datatype SqlType = UniqueIdentifier | VarBinaryMax

  datatype SqlExpr =
    | Func(name: string, args: seq<SqlExpr>)     // a call `name(args...)`
    | SqlCast(arg: SqlExpr, target: SqlType)     // CAST(arg AS target)
    | Case(cond: SqlExpr, whenTrue: SqlExpr, orElse: SqlExpr)
    | Not(arg: SqlExpr)                          // native NOT
    | Eq(left: SqlExpr, right: SqlExpr)
    | Le(left: SqlExpr, right: SqlExpr)          // `<=`
    | Add(left: SqlExpr, right: SqlExpr)         // `+`, string concatenation on strings
    | Sub(left: SqlExpr, right: SqlExpr)
    | Div(left: SqlExpr, right: SqlExpr)
    | Bind(value: Value)                         // a Python value passed as a bound literal
    | NullLiteral                                // NULL
    | LiteralColumn(text: string)                // verbatim text, never a bound parameter
    | Text(text: string)                         // verbatim text from `sa.text`
    | Translated(node: Node)                     // the translator's output for a child node
}
