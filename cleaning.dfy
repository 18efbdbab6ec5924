/**
 * The missing-value cleaning commands of the sidebar: fill with the mean,
 * median, mode or zero, or drop incomplete rows, over a target column set that
 * defaults to the numeric columns (fills) or to all columns (row drop).
 */
module Cleaning {
  import opened Wrappers
  import opened Tables

  /** The options of the "補完方法を選択" select box, without its placeholder. */
  datatype Method = FillMean | FillMedian | FillMode | FillZero | DropRows

  /**
   * The statistics the code takes from pandas without defining them itself:
   * `Series.median()` (None when it is NaN) and `Series.mode()` (the list of
   * most frequent values, whose order is pandas' own).
   */
  datatype Statistics = Statistics(median: Cells -> Option<Value>, mode: Cells -> seq<Value>)

  // ---------------------------------------------------------------------------
  // The mean, computed exactly
  // ---------------------------------------------------------------------------

  /** The number of present numeric entries. */
  function NumCount(cells: Cells): nat {
    if cells == [] then 0
    else (if cells[0].Some? && cells[0].value.Num? then 1 else 0) + NumCount(cells[1..])
  }

  /** The sum of the present numeric entries. */
  function NumSum(cells: Cells): real {
    if cells == [] then 0.0
    else (if cells[0].Some? && cells[0].value.Num? then cells[0].value.x else 0.0) + NumSum(cells[1..])
  }

  /** `Series.mean()`: the average of the present entries, NaN (None) when there is none. */
  function Mean(cells: Cells): (m: Option<Value>)
    ensures m.Some? <==> NumCount(cells) > 0
    ensures m.Some? ==> m.value.Num?
  {
    if NumCount(cells) == 0 then None else Some(Num(NumSum(cells) / (NumCount(cells) as real)))
  }

  /** Every present numeric entry lies in [lo, hi]. */
  predicate NumbersWithin(cells: Cells, lo: real, hi: real) {
    forall i :: 0 <= i < |cells| && cells[i].Some? && cells[i].value.Num? ==>
      lo <= cells[i].value.x <= hi
  }

  /** n copies of x added up. */
  function Times(n: nat, x: real): real {
    if n == 0 then 0.0 else Times(n - 1, x) + x
  }

  lemma {:induction false} TimesIsProduct(n: nat, x: real)
    ensures Times(n, x) == (n as real) * x
  {
    if n > 0 {
      TimesIsProduct(n - 1, x);
      assert ((n - 1) as real) * x + x == (n as real) * x;
    }
  }

  /** A sum of numbers within [lo, hi] lies between count * lo and count * hi. */
  lemma {:induction false} SumWithin(cells: Cells, lo: real, hi: real)
    requires NumbersWithin(cells, lo, hi)
    ensures Times(NumCount(cells), lo) <= NumSum(cells) <= Times(NumCount(cells), hi)
  {
    if cells != [] {
      WithinTail(cells, lo, hi);
      SumWithin(cells[1..], lo, hi);
    }
  }

  lemma WithinTail(cells: Cells, lo: real, hi: real)
    requires cells != [] && NumbersWithin(cells, lo, hi)
    ensures NumbersWithin(cells[1..], lo, hi)
    ensures cells[0].Some? && cells[0].value.Num? ==> lo <= cells[0].value.x <= hi
  {
    assert 0 <= 0 < |cells|;
    forall i | 0 <= i < |cells[1..]| && cells[1..][i].Some? && cells[1..][i].value.Num?
      ensures lo <= cells[1..][i].value.x <= hi
    {
      assert cells[1..][i] == cells[i + 1];
    }
  }

  /** The repeated sums bounding s, written as products. */
  lemma ScaledBounds(n: nat, s: real, lo: real, hi: real)
    requires Times(n, lo) <= s <= Times(n, hi)
    ensures (n as real) * lo <= s <= (n as real) * hi
  {
    TimesIsProduct(n, lo);
    TimesIsProduct(n, hi);
  }

  /** A sum between n * lo and n * hi, divided by n > 0, lies in [lo, hi]. */
  lemma DivWithin(s: real, n: real, lo: real, hi: real)
    requires n > 0.0 && n * lo <= s <= n * hi
    ensures lo <= s / n <= hi
  {
    var q := s / n;
    assert q * n == s;
    assert (q - lo) * n == s - n * lo;
    assert (hi - q) * n == n * hi - s;
  }

  /** The mean of a column lies between the smallest and the largest present value. */
  lemma MeanWithin(cells: Cells, lo: real, hi: real)
    requires NumbersWithin(cells, lo, hi) && NumCount(cells) > 0
    ensures Mean(cells).Some? && lo <= Mean(cells).value.x <= hi
  {
    SumWithin(cells, lo, hi);
    ScaledBounds(NumCount(cells), NumSum(cells), lo, hi);
    DivWithin(NumSum(cells), NumCount(cells) as real, lo, hi);
  }

  // ---------------------------------------------------------------------------
  // fillna on one column
  // ---------------------------------------------------------------------------

  /** `Series.fillna(v)`: missing entries take the value v (a NaN v leaves them missing). */
  function FillNa(cells: Cells, v: Option<Value>): (r: Cells)
    ensures |r| == |cells|
    ensures forall i :: 0 <= i < |cells| && cells[i].Some? ==> r[i] == cells[i]
    ensures forall i :: 0 <= i < |cells| && cells[i].None? ==> r[i] == v
  {
    seq(|cells|, i requires 0 <= i < |cells| => if cells[i].Some? then cells[i] else v)
  }

  /** A defined fill value leaves nothing missing. */
  lemma FillNaCompletes(cells: Cells, v: Option<Value>)
    requires v.Some?
    ensures !HasMissing(FillNa(cells, v))
  {
  }

  /** Filling a column that has nothing missing, or filling with NaN, changes nothing. */
  lemma FillNaNoop(cells: Cells, v: Option<Value>)
    requires !HasMissing(cells) || v.None?
    ensures FillNa(cells, v) == cells
  {
    var r := FillNa(cells, v);
    forall i | 0 <= i < |cells| ensures r[i] == cells[i] {
      if cells[i].None? { assert HasMissing(cells); }
    }
  }

  /**
   * Whether the command touches a column at all: mean and median only touch a
   * column whose dtype is exactly float64 or int64; mode and zero touch any
   * present column.
   */
  function Eligible(c: Column, m: Method): (b: bool)
    ensures b ==> m != DropRows
    ensures m == FillMode || m == FillZero ==> b
    ensures b && (m == FillMean || m == FillMedian) ==> IsNumeric(c.dtype)
    ensures c.dtype == OtherNumeric ==> (b <==> m == FillMode || m == FillZero)
    ensures c.dtype == Float64 || c.dtype == Int64 ==> (b <==> m != DropRows)
  {
    m != DropRows &&
    ((m == FillMean || m == FillMedian) ==> (c.dtype == Float64 || c.dtype == Int64))
  }

  /** The value a fill writes into the missing entries of c; None when the statistic does not exist. */
  function Statistic(c: Column, m: Method, st: Statistics): (v: Option<Value>)
    requires m != DropRows
    ensures m == FillMean ==> v == Mean(c.cells) && (v.Some? <==> NumCount(c.cells) > 0)
    ensures m == FillMedian ==> v == st.median(c.cells)
    ensures m == FillMode ==> (v.Some? <==> |st.mode(c.cells)| > 0)
    ensures m == FillMode && v.Some? ==> v.value == st.mode(c.cells)[0]
    ensures m == FillZero ==> v == Some(Num(0.0))
  {
    match m
    case FillMean => Mean(c.cells)
    case FillMedian => st.median(c.cells)
    case FillMode =>
      var modes := st.mode(c.cells);
      if |modes| > 0 then Some(modes[0]) else None
    case FillZero => Some(Num(0.0))
  }

  /** `df[col] = df[col].fillna(<statistic of df[col]>)`, behind the command's own guard. */
  function FillColumn(c: Column, m: Method, st: Statistics): (r: Column)
    requires m != DropRows
    ensures r.name == c.name && r.dtype == c.dtype && |r.cells| == |c.cells|
    ensures !Eligible(c, m) ==> r == c
    ensures Statistic(c, m, st).None? ==> r == c
  {
    if Eligible(c, m) then
      var v := Statistic(c, m, st);
      assert v.None? ==> FillNa(c.cells, v) == c.cells by {
        if v.None? { FillNaNoop(c.cells, v); }
      }
      c.(cells := FillNa(c.cells, v))
    else c
  }

  /** Filling a column a second time changes nothing, whichever statistic the second pass computes. */
  lemma FillColumnIdempotent(c: Column, m: Method, st: Statistics)
    requires m != DropRows
    ensures FillColumn(FillColumn(c, m, st), m, st) == FillColumn(c, m, st)
  {
    var r := FillColumn(c, m, st);
    if Eligible(c, m) && Statistic(c, m, st).Some? {
      FillNaCompletes(c.cells, Statistic(c, m, st));
      FillNaNoop(r.cells, Statistic(r, m, st));
    }
  }

  // ---------------------------------------------------------------------------
  // The fill loop over the target columns
  // ---------------------------------------------------------------------------

  /** The table after every column named in cols has been filled once. */
  function FillAll(t: Table, m: Method, cols: seq<string>, st: Statistics): (r: Table)
    requires m != DropRows
    ensures r.rows == t.rows && SameSchema(r, t)
    ensures WellFormed(t) ==> WellFormed(r)
    ensures forall k :: 0 <= k < |t.columns| && t.columns[k].name !in cols ==> r.columns[k] == t.columns[k]
  {
    t.(columns := seq(|t.columns|, k requires 0 <= k < |t.columns| =>
      if t.columns[k].name in cols then FillColumn(t.columns[k], m, st) else t.columns[k]))
  }

  /**
   * In a target column the command accepts, every missing entry becomes the
   * column's statistic and every present entry is kept.
   */
  lemma FillAllCells(t: Table, m: Method, cols: seq<string>, st: Statistics, k: nat, i: nat)
    requires WellFormed(t) && m != DropRows
    requires k < |t.columns| && i < t.rows
    requires t.columns[k].name in cols && Eligible(t.columns[k], m)
    ensures var before := t.columns[k].cells[i];
            FillAll(t, m, cols, st).columns[k].cells[i] ==
              if before.Some? then before else Statistic(t.columns[k], m, st)
  {
  }

  /**
   * After the fill, a target column the command accepts and whose statistic
   * exists has no missing entry left.
   */
  lemma FillAllCompletes(t: Table, m: Method, cols: seq<string>, st: Statistics, k: nat)
    requires m != DropRows && k < |t.columns|
    requires t.columns[k].name in cols && Eligible(t.columns[k], m)
    requires Statistic(t.columns[k], m, st).Some?
    ensures !HasMissing(FillAll(t, m, cols, st).columns[k].cells)
  {
    FillNaCompletes(t.columns[k].cells, Statistic(t.columns[k], m, st));
  }

  /** Applying the same fill twice yields the same table as applying it once. */
  lemma FillAllIdempotent(t: Table, m: Method, cols: seq<string>, st: Statistics)
    requires m != DropRows
    ensures FillAll(FillAll(t, m, cols, st), m, cols, st) == FillAll(t, m, cols, st)
  {
    var once := FillAll(t, m, cols, st);
    var twice := FillAll(once, m, cols, st);
    forall k | 0 <= k < |t.columns| ensures twice.columns[k] == once.columns[k] {
      if t.columns[k].name in cols {
        FillColumnIdempotent(t.columns[k], m, st);
      }
    }
  }

  /** One turn of the fill loop: filling one more column name extends the filled prefix. */
  lemma FillStep(t: Table, m: Method, done: seq<string>, col: string, st: Statistics)
    requires WellFormed(t) && m != DropRows
    ensures var r := FillAll(t, m, done, st);
            var k := ColumnIndex(r.columns, col);
            FillAll(t, m, done + [col], st) ==
              if k.Some? then r.(columns := r.columns[k.value := FillColumn(r.columns[k.value], m, st)]) else r
  {
    var r := FillAll(t, m, done, st);
    var k := ColumnIndex(r.columns, col);
    var next := FillAll(t, m, done + [col], st);
    var expected := if k.Some? then r.(columns := r.columns[k.value := FillColumn(r.columns[k.value], m, st)]) else r;
    forall l | 0 <= l < |t.columns| ensures next.columns[l] == expected.columns[l] {
      var name := t.columns[l].name;
      assert (name in done + [col]) <==> (name in done || name == col);
      if k.Some? && l == k.value {
        if name in done {
          FillColumnIdempotent(t.columns[l], m, st);
        }
      }
    }
  }

  /**
   * The `for col in cols` loop of the mean, median, mode and zero branches:
   * each name present among the columns is filled in turn, absent names are
   * skipped.
   */
  method FillTargets(t: Table, m: Method, cols: seq<string>, st: Statistics) returns (r: Table)
    requires WellFormed(t) && m != DropRows
    ensures r == FillAll(t, m, cols, st)
  {
    r := t;
    assert FillAll(t, m, [], st).columns == t.columns;
    for i := 0 to |cols|
      invariant r == FillAll(t, m, cols[..i], st)
    {
      var col := cols[i];
      FillStep(t, m, cols[..i], col, st);
      var k := ColumnIndex(r.columns, col);
      if k.Some? {
        r := r.(columns := r.columns[k.value := FillColumn(r.columns[k.value], m, st)]);
      }
      assert cols[..i + 1] == cols[..i] + [col];
    }
    assert cols[..|cols|] == cols;
  }

  // ---------------------------------------------------------------------------
  // Median soundness
  // ---------------------------------------------------------------------------

  /**
   * What the model relies on of `Series.median()`: it exists exactly when a
   * number is present, and it is a number between the smallest and the
   * largest present one.
   */
  ghost predicate IsMedianOf(cells: Cells, v: Option<Value>) {
    (v.Some? <==> NumCount(cells) > 0) &&
    (v.Some? ==> v.value.Num? && forall lo, hi :: NumbersWithin(cells, lo, hi) ==> lo <= v.value.x <= hi)
  }

  /**
   * Median fill of a float64 or int64 column: with no number present the
   * column is unchanged; otherwise no entry stays missing and every filled
   * entry lies within the range of the column's present numbers.
   */
  lemma MedianFill(c: Column, st: Statistics, lo: real, hi: real)
    requires c.dtype == Float64 || c.dtype == Int64
    requires IsMedianOf(c.cells, st.median(c.cells))
    requires NumbersWithin(c.cells, lo, hi)
    ensures NumCount(c.cells) == 0 ==> FillColumn(c, FillMedian, st) == c
    ensures NumCount(c.cells) > 0 ==>
      !HasMissing(FillColumn(c, FillMedian, st).cells) &&
      NumbersWithin(FillColumn(c, FillMedian, st).cells, lo, hi)
  {
    if NumCount(c.cells) > 0 {
      var v := st.median(c.cells);
      FillNaCompletes(c.cells, v);
      var r := FillColumn(c, FillMedian, st).cells;
      forall i | 0 <= i < |r| && r[i].Some? && r[i].value.Num? ensures lo <= r[i].value.x <= hi {
        if c.cells[i].None? {
          assert r[i] == v;
        }
      }
    }
  }

  // ---------------------------------------------------------------------------
  // Mode soundness
  // ---------------------------------------------------------------------------

  /** How many entries of the column equal v. */
  function Count(cells: Cells, v: Value): nat {
    if cells == [] then 0 else (if cells[0] == Some(v) then 1 else 0) + Count(cells[1..], v)
  }

  /**
   * What pandas promises of `Series.mode()`: empty exactly when every entry is
   * missing, and otherwise a list of values of the column that occur at least
   * as often as any other value.
   */
  ghost predicate IsModeList(cells: Cells, modes: seq<Value>) {
    (modes == [] <==> !HasPresent(cells)) &&
    forall v :: v in modes ==> Count(cells, v) > 0 && forall w :: Count(cells, w) <= Count(cells, v)
  }

  /**
   * Mode fill: a column with no present entry (no mode) is left unchanged;
   * otherwise every missing entry becomes a most frequent value of the column.
   */
  lemma ModeFill(c: Column, st: Statistics)
    requires IsModeList(c.cells, st.mode(c.cells))
    ensures !HasPresent(c.cells) ==> FillColumn(c, FillMode, st) == c
    ensures HasPresent(c.cells) ==> !HasMissing(FillColumn(c, FillMode, st).cells)
    ensures HasPresent(c.cells) ==>
      var v := Statistic(c, FillMode, st).value;
      Count(c.cells, v) > 0 &&
      (forall w :: Count(c.cells, w) <= Count(c.cells, v)) &&
      forall i :: 0 <= i < |c.cells| && c.cells[i].None? ==> FillColumn(c, FillMode, st).cells[i] == Some(v)
  {
    if HasPresent(c.cells) {
      FillNaCompletes(c.cells, Statistic(c, FillMode, st));
    }
  }

  // ---------------------------------------------------------------------------
  // dropna(subset=...)
  // ---------------------------------------------------------------------------

  /** Row i has no missing entry in any column named in subset. */
  predicate RowComplete(t: Table, subset: seq<string>, i: nat)
    requires WellFormed(t) && i < t.rows
  {
    forall k :: 0 <= k < |t.columns| && t.columns[k].name in subset ==> t.columns[k].cells[i].Some?
  }

  /** The indices, in increasing order, of the complete rows among the first n. */
  function KeptRows(t: Table, subset: seq<string>, n: nat): (idx: seq<nat>)
    requires WellFormed(t) && n <= t.rows
    ensures |idx| <= n
    ensures forall p :: 0 <= p < |idx| ==> idx[p] < n && RowComplete(t, subset, idx[p])
    ensures forall i :: 0 <= i < n && RowComplete(t, subset, i) ==> i in idx
    ensures forall p, q :: 0 <= p < q < |idx| ==> idx[p] < idx[q]
  {
    if n == 0 then []
    else KeptRows(t, subset, n - 1) + (if RowComplete(t, subset, n - 1) then [n - 1] else [])
  }

  /** The row positions 0, 1, ..., n - 1 in order. */
  function AllRows(n: nat): (idx: seq<nat>)
    ensures |idx| == n && forall p :: 0 <= p < n ==> idx[p] == p
  {
    if n == 0 then [] else AllRows(n - 1) + [n - 1]
  }

  /** Scanning one more row appends it exactly when it is complete. */
  lemma KeptStep(t: Table, subset: seq<string>, n: nat)
    requires WellFormed(t) && n < t.rows
    ensures KeptRows(t, subset, n + 1) ==
      KeptRows(t, subset, n) + (if RowComplete(t, subset, n) then [n] else [])
  {
  }

  /** The number of incomplete rows among the first n. */
  function IncompleteRows(t: Table, subset: seq<string>, n: nat): nat
    requires WellFormed(t) && n <= t.rows
  {
    if n == 0 then 0
    else IncompleteRows(t, subset, n - 1) + (if RowComplete(t, subset, n - 1) then 0 else 1)
  }

  /** Each of the first n rows is either kept or counted as incomplete. */
  lemma {:induction false} KeptPlusIncomplete(t: Table, subset: seq<string>, n: nat)
    requires WellFormed(t) && n <= t.rows
    ensures |KeptRows(t, subset, n)| + IncompleteRows(t, subset, n) == n
  {
    if n > 0 {
      KeptPlusIncomplete(t, subset, n - 1);
    }
  }

  /** The table restricted to the rows idx, in that order. */
  function Project(t: Table, idx: seq<nat>): (r: Table)
    requires WellFormed(t)
    requires forall p :: 0 <= p < |idx| ==> idx[p] < t.rows
    ensures WellFormed(r) && r.rows == |idx| && SameSchema(r, t)
    ensures forall k, p :: 0 <= k < |t.columns| && 0 <= p < |idx| ==>
      r.columns[k].cells[p] == t.columns[k].cells[idx[p]]
  {
    Table(|idx|, seq(|t.columns|, k requires 0 <= k < |t.columns| =>
      t.columns[k].(cells := seq(|idx|, p requires 0 <= p < |idx| => t.columns[k].cells[idx[p]]))))
  }

  /** The labels of subset that name no column, in subset's order. */
  function AbsentLabels(t: Table, subset: seq<string>): (a: seq<string>)
    ensures forall s :: s in a <==> s in subset && s !in Names(t)
  {
    if subset == [] then []
    else
      assert forall s :: s in subset <==> s == subset[0] || s in subset[1..];
      (if subset[0] in Names(t) then [] else [subset[0]]) + AbsentLabels(t, subset[1..])
  }

  /**
   * `df.dropna(subset=subset)`: pandas raises KeyError with the absent labels
   * when subset names a column the table lacks; otherwise the complete rows
   * survive in their order.
   */
  function DropNa(t: Table, subset: seq<string>): (r: Result<Table, seq<string>>)
    requires WellFormed(t)
    ensures r.Failure? <==> exists s :: s in subset && s !in Names(t)
  {
    var absent := AbsentLabels(t, subset);
    if absent != [] then
      assert absent[0] in absent;
      Failure(absent)
    else Success(Project(t, KeptRows(t, subset, t.rows)))
  }

  /**
   * Row drop keeps exactly the rows with no missing entry in a checked column,
   * in their original order, keeps the column set, and removes as many rows as
   * there were incomplete ones.
   */
  lemma DropNaRows(t: Table, subset: seq<string>)
    requires WellFormed(t) && DropNa(t, subset).Success?
    ensures var r := DropNa(t, subset).value;
            var idx := KeptRows(t, subset, t.rows);
            WellFormed(r) && SameSchema(r, t) &&
            r.rows == |idx| && r.rows <= t.rows &&
            t.rows - r.rows == IncompleteRows(t, subset, t.rows) &&
            (forall i :: 0 <= i < t.rows ==> (i in idx <==> RowComplete(t, subset, i))) &&
            (forall p, q :: 0 <= p < q < |idx| ==> idx[p] < idx[q]) &&
            (forall k, p :: 0 <= k < |t.columns| && 0 <= p < r.rows ==>
               r.columns[k].cells[p] == t.columns[k].cells[idx[p]])
  {
    KeptPlusIncomplete(t, subset, t.rows);
  }

  /** After a row drop no checked column has a missing entry. */
  lemma DropNaCompletes(t: Table, subset: seq<string>, k: nat)
    requires WellFormed(t) && DropNa(t, subset).Success?
    requires k < |t.columns| && t.columns[k].name in subset
    ensures !HasMissing(DropNa(t, subset).value.columns[k].cells)
  {
    var r := DropNa(t, subset).value;
    var idx := KeptRows(t, subset, t.rows);
    forall p | 0 <= p < r.rows ensures r.columns[k].cells[p].Some? {
      assert RowComplete(t, subset, idx[p]);
    }
  }

  /** When every row is complete, the rows kept are all of them. */
  lemma {:induction false} AllKept(t: Table, subset: seq<string>, n: nat)
    requires WellFormed(t) && n <= t.rows
    requires forall i :: 0 <= i < t.rows ==> RowComplete(t, subset, i)
    ensures KeptRows(t, subset, n) == AllRows(n)
  {
    if n > 0 {
      AllKept(t, subset, n - 1);
      assert RowComplete(t, subset, n - 1);
    }
  }

  /** Dropping incomplete rows a second time removes nothing. */
  lemma DropNaIdempotent(t: Table, subset: seq<string>)
    requires WellFormed(t) && DropNa(t, subset).Success?
    ensures DropNa(DropNa(t, subset).value, subset) == DropNa(t, subset)
  {
    var r := DropNa(t, subset).value;
    assert Names(r) == Names(t);
    DroppedRowsComplete(t, subset);
    AllKept(r, subset, r.rows);
    ProjectAll(r);
  }

  /** Every row that survives a drop is complete. */
  lemma DroppedRowsComplete(t: Table, subset: seq<string>)
    requires WellFormed(t) && DropNa(t, subset).Success?
    ensures forall i :: 0 <= i < DropNa(t, subset).value.rows ==> RowComplete(DropNa(t, subset).value, subset, i)
  {
    var r := DropNa(t, subset).value;
    var idx := KeptRows(t, subset, t.rows);
    forall i | 0 <= i < r.rows ensures RowComplete(r, subset, i) {
      assert RowComplete(t, subset, idx[i]);
    }
  }

  /** Projecting onto every row, in order, is the identity. */
  lemma ProjectAll(t: Table)
    requires WellFormed(t)
    ensures Project(t, AllRows(t.rows)) == t
  {
    var again := Project(t, AllRows(t.rows));
    forall k | 0 <= k < |t.columns| ensures again.columns[k] == t.columns[k] {
      assert again.columns[k].cells == t.columns[k].cells;
    }
  }

  // ---------------------------------------------------------------------------
  // Target columns and the dispatcher
  // ---------------------------------------------------------------------------

  /** The options of the target multiselect: the numeric columns for a fill, every column for a row drop. */
  function SelectableTargets(t: Table, m: Method): (opts: seq<string>)
    ensures m == DropRows ==> opts == Names(t)
    ensures m != DropRows ==> forall n :: n in opts <==>
      exists k :: 0 <= k < |t.columns| && t.columns[k].name == n && IsNumeric(t.columns[k].dtype)
  {
    if m == DropRows then Names(t) else NumericNames(t.columns)
  }

  /** `cols = target_cols if target_cols else numeric_cols` */
  function FillColumnsOf(t: Table, selected: seq<string>): (cols: seq<string>)
    ensures selected != [] ==> cols == selected
    ensures selected == [] ==> forall n :: n in cols <==>
      exists k :: 0 <= k < |t.columns| && t.columns[k].name == n && IsNumeric(t.columns[k].dtype)
  {
    if selected != [] then selected else NumericNames(t.columns)
  }

  /** `cols_to_check = target_cols if target_cols else df.columns.tolist()` */
  function DropSubsetOf(t: Table, selected: seq<string>): (check: seq<string>)
    ensures selected != [] ==> check == selected
    ensures selected == [] ==> forall k :: 0 <= k < |t.columns| ==> t.columns[k].name in check
    ensures selected == [] ==> forall n :: n in check ==> n in Names(t)
  {
    if selected != [] then selected else Names(t)
  }

  /** What a cleaning command produces: a filled table, or the remaining rows and how many were deleted. */
  datatype Cleaned = Filled(table: Table) | Dropped(table: Table, deleted: nat)

  /**
   * The body of the "✨ 前処理を実行" button, up to the commit: dispatch on the
   * method, default the targets, and run the chosen command on a copy.
   */
  method Clean(t: Table, m: Method, selected: seq<string>, st: Statistics) returns (r: Result<Cleaned, seq<string>>)
    requires WellFormed(t)
    ensures r.Success? ==> WellFormed(r.value.table) && SameSchema(r.value.table, t)
    ensures m != DropRows ==> r == Success(Filled(FillAll(t, m, FillColumnsOf(t, selected), st)))
    ensures m == DropRows ==> match DropNa(t, DropSubsetOf(t, selected)) {
      case Failure(absent) => r == Failure(absent)
      case Success(kept) => r == Success(Dropped(kept, t.rows - kept.rows)) && kept.rows <= t.rows
    }
  {
    var cols := FillColumnsOf(t, selected);
    if m != DropRows {
      var filled := FillTargets(t, m, cols, st);
      r := Success(Filled(filled));
    } else {
      var check := DropSubsetOf(t, selected);
      var before := t.rows;
      var dropped := DropNa(t, check);
      if dropped.Failure? {
        r := Failure(dropped.error);
      } else {
        assert dropped.value.rows == |KeptRows(t, check, t.rows)| <= before;
        var after := dropped.value.rows;
        r := Success(Dropped(dropped.value, before - after));
      }
    }
  }

  /** With no selection, a zero fill leaves no missing entry in any numeric column. */
  lemma ZeroFillDefaultsToNumeric(t: Table, st: Statistics, k: nat)
    requires WellFormed(t) && k < |t.columns| && IsNumeric(t.columns[k].dtype)
    ensures !HasMissing(FillAll(t, FillZero, FillColumnsOf(t, []), st).columns[k].cells)
  {
    FillAllCompletes(t, FillZero, FillColumnsOf(t, []), st, k);
  }

  /** With no selection, a row drop checks every column, so no missing entry survives anywhere. */
  lemma DropDefaultsToAllColumns(t: Table, k: nat)
    requires WellFormed(t) && k < |t.columns|
    ensures DropNa(t, DropSubsetOf(t, [])).Success?
    ensures !HasMissing(DropNa(t, DropSubsetOf(t, [])).value.columns[k].cells)
  {
    DropNaCompletes(t, DropSubsetOf(t, []), k);
  }
}

module CleaningExamples {
  import opened Wrappers
  import opened Tables
  import opened Cleaning

  /** age = [20, NaN, 40] (float64) and city = ["A", "A", NaN] (object). */
  function AgeCity(): (t: Table)
    ensures WellFormed(t) && t.rows == 3 && |t.columns| == 2
  {
    Table(3, [Column("age", Float64, [Some(Num(20.0)), None, Some(Num(40.0))]),
              Column("city", Object, [Some(Text("A")), Some(Text("A")), None])])
  }

  /** A mean fill of age writes 30 into the gap and leaves city alone. */
  lemma MeanFillExample(st: Statistics)
    ensures var r := FillAll(AgeCity(), FillMean, ["age"], st);
            r.columns[0].cells == [Some(Num(20.0)), Some(Num(30.0)), Some(Num(40.0))] &&
            r.columns[1] == AgeCity().columns[1]
  {
    var cells := AgeCity().columns[0].cells;
    assert cells[1..][1..][1..] == [];
    assert NumCount(cells) == 2;
    assert NumSum(cells) == 60.0;
    assert "city" !in ["age"];
  }

  /** A row drop over city removes the one row whose city is missing. */
  lemma DropExample()
    ensures DropNa(AgeCity(), ["city"]).Success?
    ensures DropNa(AgeCity(), ["city"]).value == Project(AgeCity(), [0, 1])
  {
    var t := AgeCity();
    assert Names(t) == ["age", "city"];
    assert AbsentLabels(t, ["city"]) == [];
    KeptCityRows();
  }

  lemma KeptCityRows()
    ensures KeptRows(AgeCity(), ["city"], 3) == [0, 1]
  {
    var t := AgeCity();
    CityCompleteRows();
    KeptStep(t, ["city"], 0);
    KeptStep(t, ["city"], 1);
    KeptStep(t, ["city"], 2);
  }

  /** Rows 0 and 1 have a city, row 2 does not. */
  lemma CityCompleteRows()
    ensures RowComplete(AgeCity(), ["city"], 0) && RowComplete(AgeCity(), ["city"], 1)
    ensures !RowComplete(AgeCity(), ["city"], 2)
  {
    var t := AgeCity();
    assert t.columns[1].name in ["city"];
  }
}
