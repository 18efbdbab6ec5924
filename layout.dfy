/**
 * The arithmetic behind two charts: the subplot grid of the histogram view
 * and the gate and sample size of the pair plot.
 */
module Layout {
  import opened Tables

  /** The shape of the subplot grid. */
  datatype Grid = Grid(rows: nat, cols: nat)

  /**
   * `n_cols = min(3, len(hist_cols))` and
   * `n_rows = (len(hist_cols) + n_cols - 1) // n_cols`, for a non-empty
   * selection of k columns: at most three plots a row, and just enough rows
   * to give every selected column an axis.
   */
  function HistogramGrid(k: nat): (g: Grid)
    requires k >= 1
    ensures 1 <= g.cols <= 3 && g.cols <= k
    ensures g.cols == 3 || g.cols == k
    ensures g.rows * g.cols >= k
    ensures (g.rows - 1) * g.cols < k
  {
    var c := if k < 3 then k else 3;
    var r := (k + c - 1) / c;
    assert r * c >= k && (r - 1) * c < k by {
      if k == 1 { assert r == 1; }
      else if k == 2 { assert r == 1; }
      else { assert c == 3; }
    }
    Grid(r, c)
  }

  /** `range(len(hist_cols), len(axes))`: the axes hidden after every column has been drawn. */
  function HiddenAxes(k: nat): (h: seq<nat>)
    requires k >= 1
    ensures var g := HistogramGrid(k);
            |h| == g.rows * g.cols - k && |h| < g.cols &&
            (forall a :: 0 <= a < |h| ==> k <= h[a] < g.rows * g.cols) &&
            (forall a, b :: 0 <= a < b < |h| ==> h[a] < h[b]) &&
            forall j :: k <= j < g.rows * g.cols ==> j in h
  {
    var g := HistogramGrid(k);
    var h := seq(g.rows * g.cols - k, a => k + a);
    forall j | k <= j < g.rows * g.cols ensures j in h {
      assert h[j - k] == j;
    }
    h
  }

  /** The histogram selection allows at most six columns, so the grid never needs more than two rows. */
  lemma AtMostTwoRows(k: nat)
    requires 1 <= k <= 6
    ensures HistogramGrid(k).rows <= 2
  {
    var g := HistogramGrid(k);
    if k >= 3 {
      assert g.cols == 3;
    } else {
      assert g.cols == k;
    }
  }

  /**
   * The pair plot is offered when the table has between two and six numeric
   * columns (the correlation tab needs two; more than six gets a notice) and
   * at least one row.
   */
  function PairPlotOffered(t: Table): (b: bool)
    ensures b ==> t.rows >= 1 && 2 <= |NumericNames(t.columns)| <= |t.columns|
    ensures |NumericNames(t.columns)| > 6 ==> !b
    ensures t.rows >= 1 && 2 <= |NumericNames(t.columns)| <= 6 ==> b
  {
    2 <= |NumericNames(t.columns)| <= 6 && t.rows > 0
  }

  /** `n=min(500, len(numeric_df))`: the number of rows the pair plot samples. */
  function PairPlotSampleSize(t: Table): (n: nat)
    ensures n <= 500 && n <= t.rows
    ensures n == 500 || n == t.rows
  {
    if t.rows < 500 then t.rows else 500
  }

  /** Whenever the pair plot is offered it samples at least one row, and every row of a small table. */
  lemma OfferedSampleNonEmpty(t: Table)
    requires PairPlotOffered(t)
    ensures 1 <= PairPlotSampleSize(t) <= 500
    ensures t.rows <= 500 ==> PairPlotSampleSize(t) == t.rows
  {
  }
}
