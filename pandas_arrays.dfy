/**
 * The pandas backend's array operations as list semantics. An array value
 * ("scalar") is a `seq<T>`; a column of arrays is a `seq` with one array per
 * row. Results keep row order; pandas index labels are reduced to positions.
 */
module PandasArrays {
  import opened Wrappers

  datatype PyError = IndexError | AssertionError

  /** An argument that is either one value for every row or a column with one value per row. */
  datatype Operand<T> = Scalar(value: T) | Column(rows: seq<T>)

  // ---------------------------------------------------------------- concatenation helpers

  /** `np.concatenate` / `itertools.chain.from_iterable`: the parts one after the other. */
  function ConcatAll<T>(parts: seq<seq<T>>): (r: seq<T>)
    ensures |r| == SumLengths(parts)
  {
    if parts == [] then [] else parts[0] + ConcatAll(parts[1..])
  }

  function SumLengths<T>(parts: seq<seq<T>>): nat {
    if parts == [] then 0 else |parts[0]| + SumLengths(parts[1..])
  }

  lemma {:induction false} ConcatAllAppend<T>(xs: seq<seq<T>>, ys: seq<seq<T>>)
    ensures ConcatAll(xs + ys) == ConcatAll(xs) + ConcatAll(ys)
  {
    if xs != [] {
      assert (xs + ys)[0] == xs[0];
      assert (xs + ys)[1..] == xs[1..] + ys;
      ConcatAllAppend(xs[1..], ys);
      calc {
        ConcatAll(xs + ys);
        xs[0] + ConcatAll(xs[1..] + ys);
        xs[0] + (ConcatAll(xs[1..]) + ConcatAll(ys));
        (xs[0] + ConcatAll(xs[1..])) + ConcatAll(ys);
      }
    } else {
      assert xs + ys == ys;
    }
  }

  // ---------------------------------------------------------------- construction

  /** The length of the first column among the arguments, if any: `next((len(v) ...), None)`. */
  function FirstColumnLength<T>(cols: seq<Operand<T>>): (r: Option<nat>)
    ensures r.None? <==> forall j :: 0 <= j < |cols| ==> cols[j].Scalar?
    ensures r.Some? ==> exists j :: 0 <= j < |cols| && cols[j].Column? && |cols[j].rows| == r.value
                                 && forall j' :: 0 <= j' < j ==> cols[j'].Scalar?
  {
    if cols == [] then None
    else if cols[0].Column? then Some(|cols[0].rows|)
    else
      var rest := FirstColumnLength(cols[1..]);
      assert forall j :: 1 <= j < |cols| ==> cols[j] == cols[1..][j - 1];
      rest
  }

  /** All column arguments have the same length (pandas would align them on their index otherwise). */
  predicate ColumnsAligned<T>(cols: seq<Operand<T>>) {
    forall j, k :: 0 <= j < |cols| && 0 <= k < |cols| && cols[j].Column? && cols[k].Column? ==>
      |cols[j].rows| == |cols[k].rows|
  }

  function ValueAt<T>(op: Operand<T>, i: nat): T
    requires op.Column? ==> i < |op.rows|
  {
    if op.Scalar? then op.value else op.rows[i]
  }

  datatype ArrayResult<T> = ScalarList(values: seq<T>) | ArrayColumn(rows: seq<seq<T>>)

  /**
   * `execute_array`: with no column argument, the list of the values; else
   * one array per row holding each argument's value at that row, scalars
   * broadcast to every row.
   */
  function ExecuteArray<T>(cols: seq<Operand<T>>): (r: ArrayResult<T>)
    requires ColumnsAligned(cols)
    ensures (forall j :: 0 <= j < |cols| ==> cols[j].Scalar?) ==>
      r.ScalarList? && |r.values| == |cols| && forall j :: 0 <= j < |cols| ==> r.values[j] == cols[j].value
    ensures (exists j :: 0 <= j < |cols| && cols[j].Column?) ==>
      && r.ArrayColumn?
      && (forall j :: 0 <= j < |cols| && cols[j].Column? ==> |r.rows| == |cols[j].rows|)
      && (forall i :: 0 <= i < |r.rows| ==> |r.rows[i]| == |cols|)
      && (forall i, j :: 0 <= i < |r.rows| && 0 <= j < |cols| ==>
            (cols[j].Scalar? ==> r.rows[i][j] == cols[j].value) && (cols[j].Column? ==> r.rows[i][j] == cols[j].rows[i]))
  {
    match FirstColumnLength(cols)
    case None => ScalarList(seq(|cols|, j requires 0 <= j < |cols| => cols[j].value))
    case Some(length) =>
      ArrayColumn(seq(length, i requires 0 <= i < length =>
        seq(|cols|, j requires 0 <= j < |cols| => ValueAt(cols[j], i))))
  }

  // ---------------------------------------------------------------- length, slice, index, contains

  /** `execute_array_length`: each row's length. */
  function ArrayLength<T>(data: seq<seq<T>>): (r: seq<nat>)
    ensures |r| == |data| && forall k :: 0 <= k < |data| ==> r[k] == ArrayLengthScalar(data[k])
  {
    seq(|data|, k requires 0 <= k < |data| => |data[k]|)
  }

  /** `execute_array_length_scalar`. */
  function ArrayLengthScalar<T>(data: seq<T>): (r: nat)
    ensures r == 0 <==> data == []
  {
    |data|
  }

  /** Where a slice bound lands in a sequence of length `n`: negative counts from the end, then clamped. */
  function SliceBound(i: int, n: nat): (b: nat)
    ensures b <= n
    ensures 0 <= i <= n ==> b == i
  {
    if i < 0 then (if i + n < 0 then 0 else i + n) else if i > n then n else i
  }

  /** `data[start:stop]` with Python slice semantics; a missing stop means the end. */
  function ArraySliceScalar<T>(data: seq<T>, start: int, stop: Option<int>): (r: seq<T>)
    ensures var lo := SliceBound(start, |data|);
      var hi := if stop.None? then |data| else SliceBound(stop.value, |data|);
      && |r| == (if lo <= hi then hi - lo else 0)
      && forall k :: 0 <= k < |r| ==> r[k] == data[lo + k]
  {
    var lo := SliceBound(start, |data|);
    var hi := if stop.None? then |data| else SliceBound(stop.value, |data|);
    if lo <= hi then data[lo..hi] else []
  }

  /** `execute_array_slice`: the same slice of every row. */
  function ArraySlice<T>(data: seq<seq<T>>, start: int, stop: Option<int>): (r: seq<seq<T>>)
    ensures |r| == |data| && forall k :: 0 <= k < |data| ==> r[k] == ArraySliceScalar(data[k], start, stop)
  {
    seq(|data|, k requires 0 <= k < |data| => ArraySliceScalar(data[k], start, stop))
  }

  /** Splitting at any position, negative ones included, and joining gives the array back: `a[:k] + a[k:] == a`. */
  lemma SliceSplit<T>(data: seq<T>, k: int)
    ensures ArraySliceScalar(data, 0, Some(k)) + ArraySliceScalar(data, k, None) == data
  {
    var b := SliceBound(k, |data|);
    assert ArraySliceScalar(data, 0, Some(k)) == data[..b];
    assert ArraySliceScalar(data, k, None) == data[b..];
  }

  /** A negative start `-n` keeps the last `n` elements. */
  lemma SliceFromEnd<T>(data: seq<T>, n: nat)
    requires 0 < n <= |data|
    ensures ArraySliceScalar(data, -(n as int), None) == data[|data| - n..]
  {
  }

  /** Python `s[i]` on a list or one-dimensional array. */
  function GetItem<T>(s: seq<T>, i: int): (r: Result<T, PyError>)
    ensures r.Ok? <==> -|s| <= i < |s|
    ensures r.Err? ==> r.error == IndexError
  {
    if 0 <= i < |s| then Ok(s[i])
    else if -|s| <= i < 0 then Ok(s[|s| + i])
    else Err(IndexError)
  }

  /** `execute_array_index`: per row, the element when `-len(array) <= index < len(array)`, else None. */
  function ArrayIndex<T>(data: seq<seq<T>>, index: int): (r: seq<Option<T>>)
    ensures |r| == |data|
    ensures forall k :: 0 <= k < |data| ==> (r[k].Some? <==> -|data[k]| <= index < |data[k]|)
    ensures forall k :: 0 <= k < |data| && r[k].Some? ==>
      r[k].value == data[k][if index < 0 then |data[k]| + index else index]
  {
    seq(|data|, k requires 0 <= k < |data| =>
      if -|data[k]| <= index < |data[k]| then Some(GetItem(data[k], index).value) else None)
  }

  /** `execute_array_index_scalar`: `data[index]`, with IndexError caught as None. */
  function ArrayIndexScalar<T>(data: seq<T>, index: int): (r: Option<T>)
    ensures r.Some? <==> -|data| <= index < |data|
    ensures r.Some? ==> r.value == data[if index < 0 then |data| + index else index]
  {
    match GetItem(data, index)
    case Ok(x) => Some(x)
    case Err(_) => None
  }

  /** The guarded column rule and the try/except scalar rule give the same answer on every row. */
  lemma ScalarIndexAgreesWithColumn<T>(data: seq<seq<T>>, index: int)
    ensures forall k :: 0 <= k < |data| ==> ArrayIndex(data, index)[k] == ArrayIndexScalar(data[k], index)
  {
  }

  /** `needle in haystack`: a left-to-right search for an equal element. */
  function ArrayContains<T(==)>(haystack: seq<T>, needle: T): (r: bool)
    ensures r <==> exists i :: 0 <= i < |haystack| && haystack[i] == needle
  {
    if haystack == [] then false
    else if haystack[0] == needle then true
    else
      var found := ArrayContains(haystack[1..], needle);
      assert forall i :: 1 <= i < |haystack| ==> haystack[i] == haystack[1..][i - 1];
      found
  }

  // ---------------------------------------------------------------- concat

  /** Row `i` of each column, in argument order. */
  function RowAt<T>(iters: seq<seq<seq<T>>>, i: nat): (r: seq<seq<T>>)
    requires forall j :: 0 <= j < |iters| ==> i < |iters[j]|
    ensures |r| == |iters| && forall j :: 0 <= j < |iters| ==> r[j] == iters[j][i]
  {
    seq(|iters|, j requires 0 <= j < |iters| => iters[j][i])
  }

  /**
   * `_concat_iterables_to_series`: asserts that every column has the first
   * one's length; row `i` of the result concatenates row `i` of each.
   */
  function ConcatIterables<T>(iters: seq<seq<seq<T>>>): (r: Result<seq<seq<T>>, PyError>)
    requires |iters| >= 1
    ensures r.Ok? <==> forall j :: 1 <= j < |iters| ==> |iters[j]| == |iters[0]|
    ensures r.Err? ==> r.error == AssertionError
    ensures r.Ok? ==> |r.value| == |iters[0]| && forall i :: 0 <= i < |iters[0]| ==> r.value[i] == ConcatAll(RowAt(iters, i))
  {
    if forall j :: 1 <= j < |iters| ==> |iters[j]| == |iters[0]| then
      Ok(seq(|iters[0]|, i requires 0 <= i < |iters[0]| => ConcatAll(RowAt(iters, i))))
    else Err(AssertionError)
  }

  /** Two equal-length columns concatenate row by row. */
  lemma ConcatTwoColumns<T>(left: seq<seq<T>>, right: seq<seq<T>>)
    requires |left| == |right|
    ensures ConcatIterables([left, right]).Ok?
    ensures |ConcatIterables([left, right]).value| == |left|
    ensures forall i :: 0 <= i < |left| ==> ConcatIterables([left, right]).value[i] == left[i] + right[i]
  {
    forall i | 0 <= i < |left| ensures ConcatAll(RowAt([left, right], i)) == left[i] + right[i] {
      var row := RowAt([left, right], i);
      assert row == [left[i], right[i]];
      assert row[1..][1..] == [];
    }
  }

  /** `execute_array_concat_series`: every argument is a column. */
  function ArrayConcatColumns<T>(first: seq<seq<T>>, second: seq<seq<T>>, rest: seq<seq<seq<T>>>): (r: Result<seq<seq<T>>, PyError>)
    ensures r.Ok? <==> |second| == |first| && forall j :: 0 <= j < |rest| ==> |rest[j]| == |first|
    ensures r.Ok? ==> |r.value| == |first| && forall i :: 0 <= i < |first| ==>
      r.value[i] == first[i] + second[i] + ConcatAll(RowAt(rest, i))
  {
    var iters := [first, second] + rest;
    assert forall j :: 0 <= j < |rest| ==> iters[j + 2] == rest[j];
    var r := ConcatIterables(iters);
    assert iters[0] == first && iters[1] == second;
    assert r.Ok? ==> |second| == |first| && forall j :: 0 <= j < |rest| ==> |rest[j]| == |first|;
    if r.Ok? then ConcatRowsSplit(first, second, rest); r else r
  }

  lemma ConcatRowsSplit<T>(first: seq<seq<T>>, second: seq<seq<T>>, rest: seq<seq<seq<T>>>)
    requires |second| == |first| && forall j :: 0 <= j < |rest| ==> |rest[j]| == |first|
    ensures forall i :: 0 <= i < |first| ==>
      ConcatAll(RowAt([first, second] + rest, i)) == first[i] + second[i] + ConcatAll(RowAt(rest, i))
  {
    var iters := [first, second] + rest;
    forall i | 0 <= i < |first| ensures ConcatAll(RowAt(iters, i)) == first[i] + second[i] + ConcatAll(RowAt(rest, i)) {
      assert RowAt(iters, i) == [first[i], second[i]] + RowAt(rest, i);
      ConcatAllAppend([first[i], second[i]], RowAt(rest, i));
      assert [first[i], second[i]][1..][1..] == [];
    }
  }

  /** `np.tile(left, (n, 1))`: `n` rows, each a copy of `left`. */
  function Broadcast<T>(left: seq<T>, n: nat): (r: seq<seq<T>>)
    ensures |r| == n && forall i :: 0 <= i < n ==> r[i] == left
  {
    seq(n, i => left)
  }

  /**
   * `execute_array_concat_mixed_left`: the array `left` is broadcast to the
   * column's length and put before each row; trailing arguments are ignored.
   */
  function ArrayConcatMixedLeft<T>(left: seq<T>, right: seq<seq<T>>, args: seq<Operand<seq<T>>>): (r: seq<seq<T>>)
    ensures |r| == |right| && forall i :: 0 <= i < |right| ==> r[i] == left + right[i]
  {
    var tiled := Broadcast(left, |right|);
    ConcatTwoColumns(tiled, right);
    ConcatIterables([tiled, right]).value
  }

  /** `execute_array_concat_mixed_right`: the array `right` is broadcast and put after each row; trailing arguments are ignored. */
  function ArrayConcatMixedRight<T>(left: seq<seq<T>>, right: seq<T>, args: seq<Operand<seq<T>>>): (r: seq<seq<T>>)
    ensures |r| == |left| && forall i :: 0 <= i < |left| ==> r[i] == left[i] + right
  {
    var tiled := Broadcast(right, |left|);
    ConcatTwoColumns(left, tiled);
    ConcatIterables([left, tiled]).value
  }

  /** `execute_array_concat_scalar`: all the arrays one after the other. */
  function ArrayConcatScalar<T>(left: seq<T>, right: seq<T>, args: seq<seq<T>>): (r: seq<T>)
    ensures r == left + right + ConcatAll(args)
    ensures |r| == |left| + |right| + SumLengths(args)
  {
    ConcatAllAppend([left, right], args);
    assert [left, right][1..][1..] == [];
    ConcatAll([left, right] + args)
  }

  // ---------------------------------------------------------------- repeat

  /** `np.tile(data, n)` for a one-dimensional array: `n` copies one after the other. */
  function Tile<T>(data: seq<T>, n: nat): seq<T> {
    if n == 0 then [] else data + Tile(data, n - 1)
  }

  lemma {:induction false} TileLength<T>(data: seq<T>, n: nat)
    ensures |Tile(data, n)| == |data| * n
  {
    if n > 0 {
      TileLength(data, n - 1);
      assert |data| + |data| * (n - 1) == |data| * n;
    }
  }

  /** Element `i` of the tiled array is element `i mod |data|` of the original. */
  lemma {:induction false} TileAt<T>(data: seq<T>, n: nat, i: nat)
    requires |data| > 0 && i < |Tile(data, n)|
    ensures Tile(data, n)[i] == data[i % |data|]
  {
    TileLength(data, n);
    if i >= |data| {
      TileAt(data, n - 1, i - |data|);
      ModShift(i, |data|);
    }
  }

  lemma ModShift(i: nat, m: nat)
    requires 0 < m <= i
    ensures (i - m) % m == i % m
  {
    var q, r := (i - m) / m, (i - m) % m;
    assert i - m == q * m + r;
    assert i == (q + 1) * m + r;
    ModUnique(i, m, q + 1, r);
  }

  /** Euclidean remainders are unique. */
  lemma ModUnique(i: int, m: int, q: int, r: int)
    requires 0 <= r < m && i == q * m + r
    ensures i % m == r
  {
    var q2, r2 := i / m, i % m;
    assert i == q2 * m + r2;
    var d := q - q2;
    assert d * m == r2 - r by {
      assert q * m - q2 * m == (q - q2) * m;
    }
    if d > 0 {
      MulAtLeast(d, m);
    } else if d < 0 {
      MulAtLeast(-d, m);
    }
  }

  lemma MulAtLeast(a: int, m: int)
    requires a >= 1 && m > 0
    ensures a * m >= m
  {
    assert a * m == (a - 1) * m + m;
    if a > 1 { MulAtLeast(a - 1, m); }
  }

  /** `execute_array_repeat_scalar`: a negative count is treated as 0. */
  function ArrayRepeatScalar<T>(data: seq<T>, n: int): (r: seq<T>)
    ensures |r| == |data| * (if n > 0 then n else 0)
    ensures n <= 0 ==> r == []
    ensures forall i :: 0 <= i < |r| ==> r[i] == data[i % |data|]
  {
    var count := if n > 0 then n else 0;
    TileLength(data, count);
    assert forall i :: 0 <= i < |Tile(data, count)| ==> Tile(data, count)[i] == data[i % |data|] by {
      forall i | 0 <= i < |Tile(data, count)| ensures Tile(data, count)[i] == data[i % |data|] {
        TileAt(data, count, i);
      }
    }
    Tile(data, count)
  }

  /** `execute_array_repeat`: every row repeated the same way. */
  function ArrayRepeat<T>(data: seq<seq<T>>, n: int): (r: seq<seq<T>>)
    ensures |r| == |data| && forall k :: 0 <= k < |data| ==> r[k] == ArrayRepeatScalar(data[k], n)
  {
    var count := if n > 0 then n else 0;
    seq(|data|, k requires 0 <= k < |data| => Tile(data[k], count))
  }

  // ---------------------------------------------------------------- flatten, unnest

  /** `execute_array_flatten`: each non-null row becomes the concatenation of its arrays; null rows stay null. */
  function ArrayFlatten<T>(data: seq<Option<seq<seq<T>>>>): (r: seq<Option<seq<T>>>)
    ensures |r| == |data|
    ensures forall k :: 0 <= k < |data| ==> (r[k].None? <==> data[k].None?)
    ensures forall k :: 0 <= k < |data| && data[k].Some? ==>
      r[k].value == ConcatAll(data[k].value) && |r[k].value| == SumLengths(data[k].value)
  {
    seq(|data|, k requires 0 <= k < |data| => if data[k].None? then None else Some(ConcatAll(data[k].value)))
  }

  /** A value with the position of the row it came from (the pandas index label). */
  datatype Labelled<T> = Labelled(index: nat, value: T)

  /** `data[data.map(lambda v: bool(len(v)))]`: the non-empty rows, with their positions. */
  function NonEmptyRows<T>(data: seq<seq<T>>): (r: seq<Labelled<seq<T>>>)
    ensures |r| <= |data|
  {
    if data == [] then []
    else
      var last := data[|data| - 1];
      NonEmptyRows(data[..|data| - 1]) + (if |last| > 0 then [Labelled(|data| - 1, last)] else [])
  }

  /** The mask keeps exactly the non-empty rows, each under its own position. */
  lemma {:induction false} NonEmptyRowsKept<T>(data: seq<seq<T>>)
    ensures forall e :: e in NonEmptyRows(data) ==> e.index < |data| && data[e.index] == e.value && |e.value| > 0
    ensures forall k :: 0 <= k < |data| && |data[k]| > 0 ==> Labelled(k, data[k]) in NonEmptyRows(data)
  {
    if data != [] {
      var init, last := data[..|data| - 1], data[|data| - 1];
      NonEmptyRowsKept(init);
      var tail := if |last| > 0 then [Labelled(|data| - 1, last)] else [];
      assert NonEmptyRows(data) == NonEmptyRows(init) + tail;
      forall k | 0 <= k < |data| - 1 ensures data[k] == init[k] {
      }
    }
  }

  /** `.explode()`: one labelled entry per element, in order. */
  function Explode<T>(rows: seq<Labelled<seq<T>>>): (r: seq<Labelled<T>>)
    ensures |r| == SumLengths(Values(rows))
  {
    if rows == [] then []
    else
      assert Values(rows)[1..] == Values(rows[1..]);
      seq(|rows[0].value|, i requires 0 <= i < |rows[0].value| => Labelled(rows[0].index, rows[0].value[i]))
        + Explode(rows[1..])
  }

  /** The values of labelled entries, position for position. */
  function Values<T>(xs: seq<Labelled<T>>): seq<T> {
    seq(|xs|, i requires 0 <= i < |xs| => xs[i].value)
  }

  /** `execute_unnest`: empty arrays are dropped and the elements of the rest are exploded. */
  function Unnest<T>(data: seq<seq<T>>): seq<Labelled<T>> {
    Explode(NonEmptyRows(data))
  }

  lemma {:induction false} ExplodeValues<T>(rows: seq<Labelled<seq<T>>>)
    ensures Values(Explode(rows)) == ConcatAll(Values(rows))
  {
    if rows != [] {
      ExplodeValues(rows[1..]);
      assert Values(rows)[1..] == Values(rows[1..]);
      var head := seq(|rows[0].value|, i requires 0 <= i < |rows[0].value| => Labelled(rows[0].index, rows[0].value[i]));
      assert Values(head) == rows[0].value;
      assert Explode(rows) == head + Explode(rows[1..]);
      assert Values(head + Explode(rows[1..])) == Values(head) + Values(Explode(rows[1..]));
    }
  }

  /**
   * Unnesting loses no element and invents none: its values, in order, are
   * all the rows' elements concatenated.
   */
  lemma {:induction false} UnnestElements<T>(data: seq<seq<T>>)
    ensures Values(Unnest(data)) == ConcatAll(data)
    ensures |Unnest(data)| == SumLengths(data)
  {
    NonEmptyRowsValues(data);
    ExplodeValues(NonEmptyRows(data));
  }

  /** Every unnested element carries the position of a (non-empty) row that holds it. */
  lemma UnnestLabels<T>(data: seq<seq<T>>)
    ensures forall e :: e in Unnest(data) ==> e.index < |data| && e.value in data[e.index]
  {
    NonEmptyRowsKept(data);
    ExplodeLabels(NonEmptyRows(data));
  }

  lemma {:induction false} ExplodeLabels<T>(rows: seq<Labelled<seq<T>>>)
    ensures forall e :: e in Explode(rows) ==> exists row :: row in rows && row.index == e.index && e.value in row.value
  {
    if rows != [] {
      ExplodeLabels(rows[1..]);
      var head := seq(|rows[0].value|, i requires 0 <= i < |rows[0].value| => Labelled(rows[0].index, rows[0].value[i]));
      assert Explode(rows) == head + Explode(rows[1..]);
      forall e | e in Explode(rows) ensures exists row :: row in rows && row.index == e.index && e.value in row.value {
        if e in head {
          var i :| 0 <= i < |head| && head[i] == e;
          assert rows[0] in rows && e.value == rows[0].value[i];
        } else {
          assert e in Explode(rows[1..]);
          var row :| row in rows[1..] && row.index == e.index && e.value in row.value;
          assert row in rows;
        }
      }
    }
  }

  /** Dropping the empty rows does not change their concatenation. */
  lemma {:induction false} NonEmptyRowsValues<T>(data: seq<seq<T>>)
    ensures ConcatAll(Values(NonEmptyRows(data))) == ConcatAll(data)
  {
    if data != [] {
      var init, last := data[..|data| - 1], data[|data| - 1];
      var kept := Values(NonEmptyRows(init));
      NonEmptyRowsValues(init);
      NonEmptyRowsStep(data);
      assert data == init + [last];
      ConcatAllSnoc(init, last);
      if |last| > 0 {
        calc {
          ConcatAll(Values(NonEmptyRows(data)));
          ConcatAll(kept + [last]);
          { ConcatAllSnoc(kept, last); }
          ConcatAll(kept) + last;
        }
      } else {
        assert Values(NonEmptyRows(data)) == kept + [] == kept;
        assert ConcatAll(data) == ConcatAll(init) + [] == ConcatAll(init);
      }
    }
  }

  /** The kept rows of `data` are those of all but its last row, then the last row if it is non-empty. */
  lemma NonEmptyRowsStep<T>(data: seq<seq<T>>)
    requires data != []
    ensures var last := data[|data| - 1];
      Values(NonEmptyRows(data)) == Values(NonEmptyRows(data[..|data| - 1])) + (if |last| > 0 then [last] else [])
  {
    var init, last := data[..|data| - 1], data[|data| - 1];
    var prefix := NonEmptyRows(init);
    if |last| > 0 {
      var kept := [Labelled(|data| - 1, last)];
      assert NonEmptyRows(data) == prefix + kept;
      ValuesAppend(prefix, kept);
      assert Values(kept) == [last];
    } else {
      assert NonEmptyRows(data) == prefix + [];
      assert prefix + [] == prefix;
      assert Values(prefix) + [] == Values(prefix);
    }
  }

  lemma ConcatAllSnoc<T>(parts: seq<seq<T>>, last: seq<T>)
    ensures ConcatAll(parts + [last]) == ConcatAll(parts) + last
  {
    ConcatAllAppend(parts, [last]);
    assert [last][1..] == [];
  }

  lemma ValuesAppend<T>(xs: seq<Labelled<T>>, ys: seq<Labelled<T>>)
    ensures Values(xs + ys) == Values(xs) + Values(ys)
  {
  }
}
