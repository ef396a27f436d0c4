# Ibis: MSSQL lowering rules and pandas array semantics

This project models two parts of the Ibis dataframe library in Dafny and proves properties of the model.

**1. The MSSQL backend's operation registry (`ibis/backends/mssql/registry.py`).**
Each rule takes a typed operation node and the translator context. The only part of the context the rules read is the "within WHERE" flag. The rule returns an abstract SQL expression tree, or rejects the operation with an error tag.

The rules modelled are:
- reductions with boolean coercion and `where` masking;
- context-dependent `NOT`;
- string find;
- the trailing-space-safe `LEN`;
- UNIX timestamps;
- truncate and bucket with their unit checks;
- `HASHBYTES` and hex digests;
- the literal encoder, including the `%z` UTC-offset text it parses.

The registry composition is also modelled: the generic table is copied, the window-function table and then the dialect's overrides are laid over it, and the invalid operations are dropped. `MssqlRegistry.Apply` runs a looked-up entry's rule on its operands, so lookup and lowering can be stated together.

Small reference semantics give meaning to the SQL the rules emit:
- `SqlSemantics.Eval` covers LEN, CHARINDEX, CONVERT style 2, LOWER, CASE, NOT, `=`, `<=`, `+` and `-`, with NULL propagating through NOT, `=` and `<=`;
- `PyValues` covers Python's `int()`/`str()` on decimal text, `strftime("%z")` and `Decimal.normalize()`.

With these, the lemmas prove what the emitted SQL computes, as well as its shape. Examples:
- the length expression yields the full character count;
- the hex digest is Python's lower-case `hexdigest()`;
- string find agrees with Python's `str.find` when no start is given and the needle is non-empty; the two places where it does not are recorded under "Findings", together with a corrected rule that agrees for every needle and every non-negative start.

**2. The pandas backend's array operations (`ibis/backends/pandas/execution/arrays.py`).**
These are modelled as list semantics. An array is a `seq<T>`, and a column of arrays is a `seq` with one array per row. The operations are construction, length, slice, index, contains, concat (column, scalar and mixed, with broadcast), repeat, flatten and unnest.

Modules:

| module | contents |
|---|---|
| `Wrappers` | `Option`, `Result` |
| `PyValues` | bytes, decimal text, `%z` text, decimals |
| `IbisOps` | interval units, data types, literal values, operation nodes |
| `SqlAst` | the emitted SQL tree |
| `SqlSemantics` | reference meaning of the SQL fragment |
| `MssqlRules` | the lowering rules |
| `MssqlOverrides` | the override table |
| `MssqlRegistry` | composition and lookup |
| `PandasArrays` | the array operations |

## Model

| member | source | states |
|---|---|---|
| MssqlRules.Reduction | ibis/backends/mssql/registry.py:19-34 | The aggregate gets exactly one operand. A non-boolean operand passes unchanged. A boolean column is cast to the cast type with the column's nullability. Any other boolean becomes IfElse(arg, 1, 0). With `where`, the operand is IfElse(where, operand, None). |
| MssqlRules.ReductionOperandNotBoolean | ibis/backends/mssql/registry.py:23-31 | For a non-boolean cast type, the operand the aggregate receives is never boolean, whether or not there is a `where`. |
| MssqlRules.LowerNot | ibis/backends/mssql/registry.py:146-153 | Within a predicate the rule emits native NOT of the operand. Elsewhere it emits CASE WHEN arg = 0 THEN true ELSE false. |
| MssqlRules.LowerNotInWhereNegates | ibis/backends/mssql/registry.py:148-149 | Inside a predicate, the expression evaluates to the negation of a boolean operand. |
| MssqlRules.LowerNotInSelectionNegatesEncoding | ibis/backends/mssql/registry.py:150-153 | Outside a predicate, the expression is true exactly when the operand is 0. So it negates the 0/1 encoding of a boolean. |
| MssqlRules.LowerNotOfNull | ibis/backends/mssql/registry.py:146-153 | A NULL operand: inside a predicate the expression is NULL, so the row is not selected. Outside one, NULL = 0 is not true, so the CASE yields false rather than NULL. |
| MssqlRules.Length | ibis/backends/mssql/registry.py:156-170 | The emitted expression is LEN('A' + x + 'Z') - 2: a subtraction of 2 from LEN of x padded with 'A' in front and 'Z' behind. |
| MssqlRules.LengthCountsEveryCharacter | ibis/backends/mssql/registry.py:156-170 | For every string, including "" and strings with trailing spaces, LEN('A' + x + 'Z') - 2 evaluates to the string's full length. |
| MssqlRules.LengthOfChild | ibis/backends/mssql/registry.py:156-170 | The length expression of a string-valued child evaluates to the child's full character count. |
| MssqlRules.NativeLenDropsTrailingSpaces | ibis/backends/mssql/registry.py:157-166 | LEN alone does not count trailing spaces: LEN('a ') is 1. |
| SqlSemantics.RTrimSpaces | ibis/backends/mssql/registry.py:157 | LEN's view of a string: the longest prefix that does not end in a space. Everything after it is spaces. |
| SqlSemantics.FirstMatchFrom | ibis/backends/mssql/registry.py:61-63 | Searching from a position, it returns -1 when the needle never occurs there. Otherwise it returns the least position at or after the start where the needle occurs. CHARINDEX and Python's `find` are both defined from it. |
| SqlSemantics.EvalCharIndex | ibis/backends/mssql/registry.py:61-63 | A CHARINDEX call on string operands evaluates to the 1-based first match at or after the start, with a missing start treated as 0. |
| MssqlRules.StringFind | ibis/backends/mssql/registry.py:53-63 | The rule emits CHARINDEX(substr, arg[, start]) - 1. The third CHARINDEX argument is present exactly when `start` is given. `end` is never used. |
| MssqlRules.StringFindWithoutStartIsPyFind | ibis/backends/mssql/registry.py:56-63 | Without a start and with a non-empty needle, the expression evaluates to Python's `haystack.find(needle)`. |
| MssqlRules.StringFindStartIsOffByOne | ibis/backends/mssql/registry.py:59-61 | As written, `start` goes 0-based into the 1-based CHARINDEX. `"ab".find("a", 1)` is -1, but the expression yields 0. |
| MssqlRules.StringFindEmptyNeedleMisses | ibis/backends/mssql/registry.py:53-63 | As written, an empty needle is never found. For every haystack `hay.find("")` is 0, but the expression yields -1, because CHARINDEX of '' is 0. |
| MssqlRules.StringFindCorrected | ibis/backends/mssql/registry.py:53-63 | The rule corrected on both counts. First it tests whether the needle's full length is 0. A non-empty needle goes to CHARINDEX with start + 1; without a start this is the rule as written. An empty needle is found at 0 without a start. With a start it is found at the start when `start <= len(haystack)`, and at -1 otherwise. |
| MssqlRules.EmptyNeedleTest | ibis/backends/mssql/registry.py:53-63 | The corrected rule's test is true exactly for the empty needle; a needle of spaces is not mistaken for it. |
| MssqlRules.EmptyNeedleAtStart | ibis/backends/mssql/registry.py:53-63 | The corrected rule's empty-needle branch with a start k >= 0 evaluates to Python's `haystack.find("", k)`. |
| MssqlRules.ShiftedCharIndexIsPyFind | ibis/backends/mssql/registry.py:59-61 | For a non-empty needle, CHARINDEX from start + 1, minus 1, evaluates to Python's `haystack.find(needle, start)` for every start >= 0. |
| MssqlRules.StringFindCorrectedWithoutStartIsPyFind | ibis/backends/mssql/registry.py:53-63 | Without a start, the corrected expression evaluates to Python's `haystack.find(needle)` for every needle, "" included. |
| MssqlRules.StringFindCorrectedIsPyFind | ibis/backends/mssql/registry.py:53-63 | For every non-negative start and every needle, "" included, the corrected expression evaluates to Python's `haystack.find(needle, start)`. |
| MssqlRules.TimestampFromUnix | ibis/backends/mssql/registry.py:86-91 | The rule succeeds iff the unit is seconds or milliseconds. For seconds it emits DATEADD(s, x, '1970-01-01 00:00:00'); for milliseconds, DATEADD(s, x / 1000, ...). Any other unit fails with UnsupportedOperation. |
| MssqlRules.IntervalUnitsTable | ibis/backends/mssql/registry.py:94-105 | The unit table has a key for every unit except nanoseconds. Each key maps to that unit's own date-part keyword. |
| MssqlRules.TimestampTruncate | ibis/backends/mssql/registry.py:108-114 | The rule fails with UnsupportedOperation iff the unit's short code is not a key of the table. Otherwise it emits DATETRUNC(keyword, arg) with the keyword as verbatim text. |
| MssqlRules.TruncateUnits | ibis/backends/mssql/registry.py:108-114 | Truncation fails only for nanoseconds; microseconds succeed. Every other unit truncates under its date-part keyword. |
| MssqlRules.TimestampBucket | ibis/backends/mssql/registry.py:117-137 | The rule succeeds iff the interval is a literal, its unit is in the table and is not microseconds, and there is no offset. Every failure is UnsupportedOperation. On success it emits DATE_BUCKET(part, width, arg, CAST('1970-01-01' AS DATETIME2)). The verbatim width text parses back to the literal's value. |
| MssqlRules.MicrosecondCode | ibis/backends/mssql/registry.py:118-123 | The short code `"us"` that the bucket rule rejects belongs to microseconds and to no other unit. |
| MssqlRules.BucketUnits | ibis/backends/mssql/registry.py:117-137 | Bucketing accepts exactly literal intervals without offset whose unit is neither microseconds nor nanoseconds. The part is that unit's keyword. |
| MssqlRules.HashAlgorithm | ibis/backends/mssql/registry.py:234-241 | The mapping fails with NotImplemented(how) iff `how` is not md5, sha1, sha256 or sha512. |
| MssqlRules.HashAlgorithmNames | ibis/backends/mssql/registry.py:234-239 | md5 and sha1 pass through, sha256 becomes sha2_256 and sha512 becomes sha2_512. No two algorithms get the same name. |
| MssqlRules.HashBytes | ibis/backends/mssql/registry.py:229-241 | The rule fails iff the algorithm is unsupported, with NotImplemented(how). Otherwise it emits HASHBYTES(mapped name, arg). |
| MssqlRules.HexDigest | ibis/backends/mssql/registry.py:244-267 | The rule fails exactly when HashBytes fails, with the same error. Otherwise it emits LOWER(CONVERT(VARCHAR(MAX), that HASHBYTES call, 2)). |
| MssqlRules.HexDigestIsLowerHex | ibis/backends/mssql/registry.py:259-267 | For any digest HASHBYTES computes, the expression evaluates to Python's `hexdigest()` of it: two characters per byte, all in 0-9a-f. |
| SqlSemantics.LowerHexUpperIsPyHex | ibis/backends/mssql/registry.py:259-266 | LOWER of the upper-case hex that CONVERT style 2 produces is Python's lower-case hex of the same bytes. |
| SqlSemantics.PyHexIsLowerHex | ibis/backends/mssql/registry.py:259-261 | Python's hex rendering uses only 0-9a-f. |
| SqlSemantics.Lower | ibis/backends/mssql/registry.py:261 | LOWER keeps the length and lower-cases each character in place. |
| MssqlRules.DateTimeArgs | ibis/backends/mssql/registry.py:187-195 | A timestamp gives exactly seven constructor arguments. |
| MssqlRules.LowerLiteral | ibis/backends/mssql/registry.py:173-226 | A missing value gives NULL whatever the dtype. A date gives DATEFROMPARTS(y, m, d). A naive timestamp gives DATETIME2FROMPARTS with its 7 fields and precision 6. A tz-aware timestamp without tzinfo fails with AssertionFailed; this is the only failure. With tzinfo it gives DATETIMEOFFSETFROMPARTS with the 7 fields, the signed hour offset, the unsigned minute offset and 6. Other cases: TIMEFROMPARTS for times, a UNIQUEIDENTIFIER cast for UUIDs, a VARBINARY(MAX) cast for bytes, a normalized decimal, the list for arrays. Booleans, integers and strings are passed as bound literals unchanged. |
| MssqlRules.OffsetEncodingExamples | ibis/backends/mssql/registry.py:199-201 | +05:30 encodes as (5, 30) and -05:30 as (-5, 30). -00:30 and +00:30 both encode as (0, 30), because the minute carries no sign. |
| MssqlRules.DateLiteralExample | ibis/backends/mssql/registry.py:184-185 | The date 2024-03-05 lowers to DATEFROMPARTS(2024, 3, 5). |
| PyValues.UtcOffsetText | ibis/backends/mssql/registry.py:199 | `strftime("%z")` for a whole-minute offset is five characters. It starts with '-' exactly for negative offsets. |
| PyValues.UtcOffsetFields | ibis/backends/mssql/registry.py:199-201 | `int(offset[:3])` reads the offset's hours with its sign, and `int(offset[-2:])` reads its minutes without the sign. |
| PyValues.IntText | ibis/backends/mssql/registry.py:133 | `str()` of an integer is valid integer text that `int()` parses back to the same integer. |
| PyValues.NatText | ibis/backends/mssql/registry.py:133 | The decimal digits of a natural number read back as the number. |
| PyValues.TwoDigits | ibis/backends/mssql/registry.py:199 | A two-digit `%z` field is two digits that read back as the number. |
| PyValues.Normalize | ibis/backends/mssql/registry.py:182-183 | `Decimal.normalize()` keeps the value, coefficient * 10^exponent. It never lowers the exponent and leaves no trailing zero in a non-zero coefficient. Zero becomes 0E0. |
| MssqlRegistry.Registry | ibis/backends/mssql/registry.py:270-387 | For any generic and window tables: a kind has an entry iff it is in one of the three tables and is not invalid. Its entry is the override if there is one, else the window entry, else the generic entry. |
| MssqlRegistry.Resolve | ibis/backends/mssql/registry.py:385-387 | Lookup succeeds iff the kind has an entry, and yields that entry. Otherwise it fails with OperationNotDefined(kind). |
| MssqlRegistry.ResolveInRegistry | ibis/backends/mssql/registry.py:270-387 | In the composed registry an invalid operation never resolves and an override always wins. Any other kind falls back to the window table, then the generic table, and fails when neither has it. |
| MssqlRegistry.OverridesAreValid | ibis/backends/mssql/registry.py:273-383 | No overridden kind is an invalid operation. |
| MssqlRegistry.OverrideCoverage | ibis/backends/mssql/registry.py:273-383 | Every kind the dialect names has an override, except the seven invalid operations. |
| MssqlRegistry.ReductionOverrides | ibis/backends/mssql/registry.py:277-281 | count, max, min and sum are reductions cast to int32; the mean is avg cast to float64. |
| MssqlRegistry.StringOverrides | ibis/backends/mssql/registry.py:275-296 | NOT, string find and string length are lowered by this dialect's own rules. |
| MssqlRegistry.Apply | ibis/backends/mssql/registry.py:273-369 | Generic and table-only entries are opaque and give nothing. Each of the ten dialect rules, given operands of its shape, lowers with its own function in MssqlRules: reductions under their function name and cast type, NOT in the caller's context, then find, length (of the translated operand), from-unix, truncate, hashbytes and hexdigest. Bucket lowers iff the interval operand is well-typed, and literal lowers iff the value matches its type. |
| MssqlRegistry.ReductionsLowerBooleanSafely | ibis/backends/mssql/registry.py:277-281 | For any generic and window tables, count, max, min, sum and mean resolve and lower to an aggregate whose operand is never boolean. A count of a boolean column counts the column cast to int32, keeping its nullability. |
| MssqlRegistry.NotLowersToNegation | ibis/backends/mssql/registry.py:275 | For any generic and window tables, NOT resolves and lowers in both contexts. Inside a predicate it negates a boolean operand; outside one it is true exactly for the operand 0. |
| MssqlRegistry.StringLengthLowersToFullLength | ibis/backends/mssql/registry.py:296 | For any generic and window tables, string length resolves and lowers to an expression that evaluates to the string's full character count, trailing spaces included. |
| MssqlRegistry.TemporalAndLiteralOverrides | ibis/backends/mssql/registry.py:345-368 | UNIX timestamps, truncation (of timestamps and dates), bucketing, hashing and literals are lowered by this dialect's own rules. |
| MssqlOverrides.Override | ibis/backends/mssql/registry.py:273-369 | The override dictionary, one rule per overridden kind. It has no contract of its own; its contents are stated by MssqlRegistry.ReductionOverrides, StringOverrides, TemporalAndLiteralOverrides and OverrideCoverage. |
| PandasArrays.ExecuteArray | ibis/backends/pandas/execution/arrays.py:20-37 | With no column argument the result is the list of the values. Otherwise row i is an array with one element per argument: a column's i-th value, or the scalar broadcast. The result has as many rows as the columns. |
| PandasArrays.FirstColumnLength | ibis/backends/pandas/execution/arrays.py:23 | None iff no argument is a column. Otherwise it is the length of the first column: every argument before it is a scalar. |
| PandasArrays.ArrayLength | ibis/backends/pandas/execution/arrays.py:40-47 | One length per row, each equal to the scalar rule's `len` of that row. |
| PandasArrays.ArrayLengthScalar | ibis/backends/pandas/execution/arrays.py:45-47 | `len(data)` is 0 exactly for the empty array. ArrayLength's contract says the column rule gives this value on every row. |
| PandasArrays.SliceBound | ibis/backends/pandas/execution/arrays.py:50-57 | A slice bound lands within the array and is unchanged when already in range. |
| PandasArrays.ArraySliceScalar | ibis/backends/pandas/execution/arrays.py:55-57 | `data[start:stop]`. Negative bounds count from the end and are clamped; a missing stop means the end. The result's length is hi - lo, or 0 when the bounds cross. Element k is `data[lo + k]`. |
| PandasArrays.ArraySlice | ibis/backends/pandas/execution/arrays.py:50-52 | Every row sliced as the scalar rule slices it. |
| PandasArrays.SliceSplit | ibis/backends/pandas/execution/arrays.py:55-57 | For every k, negative or out of range included, `a[:k] + a[k:] == a`. |
| PandasArrays.SliceFromEnd | ibis/backends/pandas/execution/arrays.py:55-57 | A start of -n keeps the last n elements. |
| PandasArrays.GetItem | ibis/backends/pandas/execution/arrays.py:72-74 | Indexing succeeds iff -len <= i < len. Otherwise it raises IndexError. |
| PandasArrays.ArrayIndex | ibis/backends/pandas/execution/arrays.py:60-66 | One result per row. It is present iff -len(array) <= index < len(array), and then it is the element with Python's negative indexing. |
| PandasArrays.ArrayIndexScalar | ibis/backends/pandas/execution/arrays.py:69-74 | The result is present iff -len <= index < len, since IndexError is caught as None. It is then the element under Python's negative indexing. ScalarIndexAgreesWithColumn ties it to the column rule. |
| PandasArrays.ScalarIndexAgreesWithColumn | ibis/backends/pandas/execution/arrays.py:60-74 | On every row, the guarded column rule and the try/except scalar rule give the same answer. |
| PandasArrays.ArrayContains | ibis/backends/pandas/execution/arrays.py:77-79 | True iff some element equals the needle. |
| PandasArrays.ConcatAll | ibis/backends/pandas/execution/arrays.py:93 | The concatenation's length is the sum of the parts' lengths. |
| PandasArrays.ConcatAllAppend | ibis/backends/pandas/execution/arrays.py:93 | Concatenating two lists of parts is concatenating their concatenations. |
| PandasArrays.RowAt | ibis/backends/pandas/execution/arrays.py:93 | Row i of each column, in argument order. |
| PandasArrays.ConcatIterables | ibis/backends/pandas/execution/arrays.py:82-93 | Fails with AssertionError iff some column's length differs from the first's. Otherwise it has the first's length, and row i is the concatenation of row i of every column. |
| PandasArrays.ConcatTwoColumns | ibis/backends/pandas/execution/arrays.py:82-93 | Two equal-length columns always concatenate, row by row, to left[i] + right[i]. |
| PandasArrays.ArrayConcatColumns | ibis/backends/pandas/execution/arrays.py:101-103 | Succeeds iff all columns have the first's length. Row i is first[i] + second[i] + the rest's row i. |
| PandasArrays.ConcatRowsSplit | ibis/backends/pandas/execution/arrays.py:101-103 | Row i of the concatenation splits into its first two columns' rows and the rest's. |
| PandasArrays.Broadcast | ibis/backends/pandas/execution/arrays.py:113 | `np.tile(left, (n, 1))` is n rows, each equal to left. |
| PandasArrays.ArrayConcatMixedLeft | ibis/backends/pandas/execution/arrays.py:106-114 | As many rows as the column; row i is left + right[i]. Trailing arguments are ignored. |
| PandasArrays.ArrayConcatMixedRight | ibis/backends/pandas/execution/arrays.py:117-123 | As many rows as the column; row i is left[i] + right. Trailing arguments are ignored. |
| PandasArrays.ArrayConcatScalar | ibis/backends/pandas/execution/arrays.py:126-130 | The result is left ++ right ++ each trailing array. Its length is the sum of all lengths. |
| PandasArrays.TileLength | ibis/backends/pandas/execution/arrays.py:137-143 | `np.tile(data, n)` has len(data) * n elements. |
| PandasArrays.TileAt | ibis/backends/pandas/execution/arrays.py:137-143 | Element i of the tiled array is `data[i mod len(data)]`. |
| PandasArrays.ArrayRepeatScalar | ibis/backends/pandas/execution/arrays.py:140-143 | The length is len(data) * max(n, 0), a negative n gives the empty array, and element i is `data[i mod len(data)]`. |
| PandasArrays.ArrayRepeat | ibis/backends/pandas/execution/arrays.py:133-137 | Every row is repeated as the scalar rule repeats it; negative counts are clamped to 0. |
| PandasArrays.ArrayFlatten | ibis/backends/pandas/execution/arrays.py:168-172 | Rows are kept one for one. A row is null iff it was null. A non-null row becomes the concatenation of its inner arrays, with the sum of their lengths. |
| PandasArrays.NonEmptyRowsKept | ibis/backends/pandas/execution/arrays.py:165 | The mask keeps exactly the non-empty rows, each under its own position. |
| PandasArrays.NonEmptyRowsStep | ibis/backends/pandas/execution/arrays.py:165 | The kept rows of a column are those of all its rows but the last, then the last row if it is non-empty. |
| PandasArrays.NonEmptyRows | ibis/backends/pandas/execution/arrays.py:165 | The mask `data[data.map(lambda v: bool(len(v)))]` keeps at most the rows it is given. NonEmptyRowsKept says exactly which ones. |
| PandasArrays.Explode | ibis/backends/pandas/execution/arrays.py:165 | Exploding yields one entry per element of the kept rows. |
| PandasArrays.Unnest | ibis/backends/pandas/execution/arrays.py:163-165 | The mask, then the explosion. It has no contract of its own; UnnestElements and UnnestLabels state its contents and labels. |
| PandasArrays.UnnestElements | ibis/backends/pandas/execution/arrays.py:163-165 | Unnest loses and invents nothing. Its values, in order, are all rows' elements concatenated, and it has the sum of the lengths. |
| PandasArrays.UnnestLabels | ibis/backends/pandas/execution/arrays.py:163-165 | Each unnested element carries the position of a row that holds it. |
| PandasArrays.ExplodeValues | ibis/backends/pandas/execution/arrays.py:165 | The values of an explosion are the concatenation of the exploded rows. |
| PandasArrays.NonEmptyRowsValues | ibis/backends/pandas/execution/arrays.py:165 | Dropping empty rows does not change the concatenation. |

## Left out

- The SQLAlchemy compile hooks for `substr` and `VARBINARY` (registry.py:37-46) are left out. They assemble final SQL text inside the library.
- The generic rules (`fixed_arity`, `unary`, `variance_reduction`, `substr`) and the generic and window-function tables are opaque. The tables are parameters of `MssqlRegistry.Registry`. One-line override entries are recorded by the SQL they name (`UnaryRule`, `FixedArityRule`) and are not lowered.
- MssqlRegistry.Apply: the generic rules and the table-only rules give no lowering. End-to-end lemmas, from lookup to the meaning of the emitted SQL, exist for the reductions (`ReductionsLowerBooleanSafely`), NOT (`NotLowersToNegation`) and string length (`StringLengthLowersToFullLength`). The other dialect rules are tied to their registry entries only by Apply's contract.
- `_extract`, `_round` and `_temporal_delta` appear only as table entries. They are not rules the model lowers.
- Floating point is not modelled: `FloorDivide`, `avg` and the trigonometric and log functions. `x / 1000` in `TimestampFromUnix` is an abstract division node.
- HASHBYTES' digest computation is a parameter of the evaluation environment. Only the algorithm naming and the hex rendering are modelled.
- String comparison assumes a binary collation. LOWER is modelled on ASCII letters only.
- The `%z` text is modelled for whole-minute offsets strictly within a day. Python's seconds and microseconds suffix of `%z` is not modelled.
- PyValues.Normalize: models `Decimal.normalize()` on exact values. The decimal context's precision rounding and exponent clamping are not modelled, nor are NaN, infinities or the sign of zero.
- MssqlRegistry.Registry: the tables are `imap`s and the composition is a ghost function. A literal 67-entry override dictionary is beyond what the verifier handles, so the override table is the function `MssqlOverrides.Override`, exposed as a map.
- The registry as written does not check that an override's kind exists in the generic table, and neither does the model.
- The failed-lookup error belongs to the translator, not to `registry.py`. `MssqlRegistry.Resolve` models what a missing entry means.
- `MssqlRules.TimestampBucket` reports a non-literal interval as UnsupportedOperation, following the code.
- `MssqlRules.TruncateUnits`: microseconds truncate because `"us"` is a key of the unit table. Only bucketing rejects microseconds explicitly.
- `ArrayCollect` and its groupby variant (arrays.py:146-160) are left out. They depend on an aggregation context and pandas groupby.
- PandasArrays.ExecuteArray: requires all column arguments to have the same length. Pandas index alignment of unequal columns, and numpy object-array conversion, are not modelled.
- The dispatch layer is left out: `execute_array_concat` on a tuple, and multiple-dispatch registration. The target functions are modelled directly.
- PandasArrays.Unnest: models rows that are arrays. The `na_action="ignore"` treatment of null rows is not modelled, and index labels are row positions.
- PandasArrays.ArrayContains: uses Dafny equality. numpy's element-wise `==` and NaN comparisons are not modelled.

## Findings

| source | as written | input that shows it | evidently intended | confidence | as-written member | corrected member |
|---|---|---|---|---|---|---|
| ibis/backends/mssql/registry.py:59-61 | the 0-based `start` of `find` is passed unchanged as CHARINDEX's 1-based start | `"ab".find("a", 1)` is -1, but CHARINDEX('a', 'ab', 1) - 1 is 0 | pass `start + 1`, so both agree for every non-negative start and non-empty needle | medium, not executed | MssqlRules.StringFindStartIsOffByOne | MssqlRules.StringFindCorrected (proved by MssqlRules.StringFindCorrectedIsPyFind) |
| ibis/backends/mssql/registry.py:56-63 | the empty needle goes to CHARINDEX, which returns 0 for it, so the rule yields -1 | `"ab".find("")` is 0, but CHARINDEX('', 'ab') - 1 is -1 | test the needle's full length first. An empty needle is found at the start when the start is at most the haystack's length, at 0 without a start, and otherwise not at all. Then both agree for every needle and every non-negative start | medium, not executed | MssqlRules.StringFindEmptyNeedleMisses | MssqlRules.StringFindCorrected (proved by MssqlRules.StringFindCorrectedWithoutStartIsPyFind and MssqlRules.StringFindCorrectedIsPyFind) |
