/**
 * A reference meaning for the fragment of the dialect the rules emit: LEN,
 * CHARINDEX, HASHBYTES, CONVERT(VARCHAR(MAX), b, 2), LOWER, CASE, NOT, `=`,
 * `<=`, `+` and `-`, evaluated on one row. NOT, `=` and `<=` of a NULL are
 * NULL, and CASE takes its ELSE branch on a NULL condition. Strings compare
 * under a binary collation; HASHBYTES itself is a parameter.
 */
module SqlSemantics {
  import opened Wrappers
  import opened PyValues
  import opened IbisOps
  import opened SqlAst

  datatype SqlValue = SqlInt(i: int) | SqlStr(s: string) | SqlBool(b: bool) | SqlBytes(bytes: seq<byte>) | SqlNull

  /**
   * What one row's evaluation sees: the value of each child expression the
   * translator produced, and the digest HASHBYTES computes for an algorithm
   * name and an input.
   */
  datatype Env = Env(column: Node -> SqlValue, hashbytes: (string, SqlValue) -> seq<byte>)

  /** `s` without its trailing spaces. */
  function RTrimSpaces(s: string): (r: string)
    ensures |r| <= |s| && r == s[..|r|]
    ensures r == [] || r[|r| - 1] != ' '
    ensures forall i :: |r| <= i < |s| ==> s[i] == ' '
  {
    if s == [] || s[|s| - 1] != ' ' then s else RTrimSpaces(s[..|s| - 1])
  }

  /** LEN: the number of characters with trailing spaces not counted. */
  function SqlLen(s: string): nat {
    |RTrimSpaces(s)|
  }

  predicate OccursAt(hay: string, needle: string, p: nat) {
    p + |needle| <= |hay| && hay[p..p + |needle|] == needle
  }

  /** The first 0-based position at or after `from` where `needle` occurs in `hay`, or -1. */
  function FirstMatchFrom(hay: string, needle: string, from: nat): (p: int)
    ensures p == -1 || (from <= p && OccursAt(hay, needle, p))
    ensures p != -1 ==> forall q: nat :: from <= q < p ==> !OccursAt(hay, needle, q)
    ensures p == -1 ==> forall q: nat :: from <= q ==> !OccursAt(hay, needle, q)
    decreases |hay| - from
  {
    if from + |needle| > |hay| then -1
    else if hay[from..from + |needle|] == needle then from
    else FirstMatchFrom(hay, needle, from + 1)
  }

  /**
   * CHARINDEX(needle, hay, start): the 1-based position of the first
   * occurrence at or after position `start` (a start below 1 searches from
   * the beginning), 0 when there is none or the needle is empty.
   */
  function CharIndex(needle: string, hay: string, start: int): nat {
    if needle == [] then 0
    else
      var p := FirstMatchFrom(hay, needle, if start <= 1 then 0 else start - 1);
      if p < 0 then 0 else p + 1
  }

  /** Python's `hay.find(needle, start)`: a negative start counts from the end. */
  function PyFind(hay: string, needle: string, start: int): int {
    var from := if start >= 0 then start else if start + |hay| >= 0 then start + |hay| else 0;
    FirstMatchFrom(hay, needle, from)
  }

  function HexDigit(d: nat, upper: bool): (c: char)
    requires d < 16
  {
    if d < 10 then DigitChar(d) else (((if upper then 'A' else 'a') as int) + d - 10) as char
  }

  /** CONVERT(VARCHAR(MAX), b, 2): two upper-case hex digits per byte, no `0x` prefix. */
  function HexUpper(b: seq<byte>): (s: string)
    ensures |s| == 2 * |b|
  {
    if b == [] then ""
    else [HexDigit((b[0] / 16) as nat, true), HexDigit((b[0] % 16) as nat, true)] + HexUpper(b[1..])
  }

  /** Python's `hashlib` `hexdigest()` rendering: two lower-case hex digits per byte. */
  function PyHex(b: seq<byte>): (s: string)
    ensures |s| == 2 * |b|
  {
    if b == [] then ""
    else [HexDigit((b[0] / 16) as nat, false), HexDigit((b[0] % 16) as nat, false)] + PyHex(b[1..])
  }

  function LowerChar(c: char): char {
    if 'A' <= c <= 'Z' then ((c as int) - ('A' as int) + ('a' as int)) as char else c
  }

  /** LOWER on the ASCII letters. */
  function Lower(s: string): (r: string)
    ensures |r| == |s| && forall i :: 0 <= i < |s| ==> r[i] == LowerChar(s[i])
  {
    seq(|s|, i requires 0 <= i < |s| => LowerChar(s[i]))
  }

  /** The value of a bound Python literal, for the value kinds the fragment knows. */
  function BoundValue(v: Value): Option<SqlValue> {
    match v
    case NoneValue => Some(SqlNull)
    case BoolValue(b) => Some(SqlBool(b))
    case IntValue(i) => Some(SqlInt(i))
    case StrValue(s) => Some(SqlStr(s))
    case BytesValue(b) => Some(SqlBytes(b))
    case _ => None
  }

  /** The value of `e` on one row; None outside the fragment or on a type clash. */
  function Eval(e: SqlExpr, env: Env): Option<SqlValue>
    decreases e
  {
    match e
    case Bind(v) => BoundValue(v)
    case NullLiteral => Some(SqlNull)
    case Translated(n) => Some(env.column(n))
    case Add(l, r) =>
      var a := Eval(l, env);
      var b := Eval(r, env);
      if a.Some? && b.Some? && a.value.SqlStr? && b.value.SqlStr? then Some(SqlStr(a.value.s + b.value.s))
      else if a.Some? && b.Some? && a.value.SqlInt? && b.value.SqlInt? then Some(SqlInt(a.value.i + b.value.i))
      else None
    case Sub(l, r) =>
      var a := Eval(l, env);
      var b := Eval(r, env);
      if a.Some? && b.Some? && a.value.SqlInt? && b.value.SqlInt? then Some(SqlInt(a.value.i - b.value.i))
      else None
    case Eq(l, r) =>
      var a := Eval(l, env);
      var b := Eval(r, env);
      if a == Some(SqlNull) || b == Some(SqlNull) then Some(SqlNull)
      else if a.Some? && b.Some? && a.value.SqlInt? && b.value.SqlInt? then Some(SqlBool(a.value.i == b.value.i))
      else None
    case Le(l, r) =>
      var a := Eval(l, env);
      var b := Eval(r, env);
      if a == Some(SqlNull) || b == Some(SqlNull) then Some(SqlNull)
      else if a.Some? && b.Some? && a.value.SqlInt? && b.value.SqlInt? then Some(SqlBool(a.value.i <= b.value.i))
      else None
    case Not(x) =>
      var a := Eval(x, env);
      if a == Some(SqlNull) then Some(SqlNull)
      else if a.Some? && a.value.SqlBool? then Some(SqlBool(!a.value.b)) else None
    case Case(c, t, f) =>
      var a := Eval(c, env);
      if a == Some(SqlBool(true)) then Eval(t, env)
      else if a == Some(SqlBool(false)) || a == Some(SqlNull) then Eval(f, env)
      else None
    case Func(name, args) => EvalCall(name, args, env)
    case _ => None
  }

  /** The value of a call to one of the fragment's functions. */
  function EvalCall(name: string, args: seq<SqlExpr>, env: Env): Option<SqlValue>
    decreases args
  {
    if name == "len" && |args| == 1 then
      var a := Eval(args[0], env);
      if a.Some? && a.value.SqlStr? then Some(SqlInt(SqlLen(a.value.s))) else None
    else if name == "charindex" && (|args| == 2 || |args| == 3) then
      var n := Eval(args[0], env);
      var h := Eval(args[1], env);
      var st := if |args| == 3 then Eval(args[2], env) else Some(SqlInt(0));
      if n.Some? && n.value.SqlStr? && h.Some? && h.value.SqlStr? && st.Some? && st.value.SqlInt?
      then Some(SqlInt(CharIndex(n.value.s, h.value.s, st.value.i)))
      else None
    else if name == "hashbytes" && |args| == 2 && args[0].Bind? && args[0].value.StrValue? then
      var a := Eval(args[1], env);
      if a.Some? then Some(SqlBytes(env.hashbytes(args[0].value.s, a.value))) else None
    else if name == "convert" && |args| == 3
      && args[0] == LiteralColumn("VARCHAR(MAX)") && args[2] == Bind(IntValue(2)) then
      var a := Eval(args[1], env);
      if a.Some? && a.value.SqlBytes? then Some(SqlStr(HexUpper(a.value.bytes))) else None
    else if name == "lower" && |args| == 1 then
      var a := Eval(args[0], env);
      if a.Some? && a.value.SqlStr? then Some(SqlStr(Lower(a.value.s))) else None
    else None
  }

  /** A CHARINDEX call on string operands, with an optional integer start (0 when absent). */
  lemma EvalCharIndex(needleArg: SqlExpr, hayArg: SqlExpr, startArg: seq<SqlExpr>, env: Env,
                      needle: string, hay: string, start: int)
    requires Eval(needleArg, env) == Some(SqlStr(needle)) && Eval(hayArg, env) == Some(SqlStr(hay))
    requires |startArg| <= 1
    requires startArg == [] ==> start == 0
    requires startArg != [] ==> Eval(startArg[0], env) == Some(SqlInt(start))
    ensures Eval(Func("charindex", [needleArg, hayArg] + startArg), env) == Some(SqlInt(CharIndex(needle, hay, start)))
  {
    var args := [needleArg, hayArg] + startArg;
    assert args[0] == needleArg && args[1] == hayArg;
    assert |args| == 3 ==> args[2] == startArg[0];
    assert EvalCall("charindex", args, env) == Some(SqlInt(CharIndex(needle, hay, start)));
  }

  /** Lower-casing the dialect's hex rendering gives exactly Python's `hexdigest()`. */
  lemma {:induction false} LowerHexUpperIsPyHex(b: seq<byte>)
    ensures Lower(HexUpper(b)) == PyHex(b)
  {
    if b != [] {
      LowerHexUpperIsPyHex(b[1..]);
      var head := [HexDigit((b[0] / 16) as nat, true), HexDigit((b[0] % 16) as nat, true)];
      assert HexUpper(b) == head + HexUpper(b[1..]);
      assert Lower(HexUpper(b)) == Lower(head) + Lower(HexUpper(b[1..]));
    }
  }

  /** Python's hex rendering uses only `0-9a-f`: no upper case, no `x` of a `0x` prefix. */
  lemma {:induction false} PyHexIsLowerHex(b: seq<byte>)
    ensures forall i :: 0 <= i < |PyHex(b)| ==> PyHex(b)[i] in "0123456789abcdef"
  {
    if b != [] {
      PyHexIsLowerHex(b[1..]);
      var head := [HexDigit((b[0] / 16) as nat, false), HexDigit((b[0] % 16) as nat, false)];
      assert PyHex(b) == head + PyHex(b[1..]);
      forall d: nat | d < 16 ensures HexDigit(d, false) in "0123456789abcdef" {
        assert HexDigit(d, false) == "0123456789abcdef"[d];
      }
    }
  }
}
