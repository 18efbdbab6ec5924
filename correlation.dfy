/**
 * The "強い相関を持つ変数ペア" table: scan the upper triangle of the
 * correlation matrix for coefficients whose magnitude reaches the slider's
 * threshold, then order the pairs by magnitude, strongest first.
 */
module Correlation {
  import opened Wrappers

  /** One row of the table: the matrix positions, the two column names and the coefficient. */
  datatype StrongPair = StrongPair(i: nat, j: nat, first: string, second: string, coefficient: real)

  function Abs(r: real): real {
    if r < 0.0 then -r else r
  }

  /** `corr` is a square matrix over the column names; None stands for a NaN coefficient. */
  predicate IsMatrix(names: seq<string>, corr: seq<seq<Option<real>>>) {
    |corr| == |names| && forall i :: 0 <= i < |corr| ==> |corr[i]| == |names|
  }

  /** `abs(corr.iloc[i, j]) >= threshold`, which is false for NaN. */
  function Strong(names: seq<string>, corr: seq<seq<Option<real>>>, threshold: real, i: nat, j: nat): (b: bool)
    requires IsMatrix(names, corr) && i < |names| && j < |names|
    ensures b ==> corr[i][j].Some?
    ensures corr[i][j].Some? ==>
      (b <==> corr[i][j].value >= threshold || corr[i][j].value <= -threshold)
  {
    corr[i][j].Some? && Abs(corr[i][j].value) >= threshold
  }

  /** p is an upper-triangle entry reaching the threshold, recorded with its own names and coefficient. */
  predicate Qualifies(names: seq<string>, corr: seq<seq<Option<real>>>, threshold: real, p: StrongPair)
    requires IsMatrix(names, corr)
  {
    p.i < p.j < |names| && Strong(names, corr, threshold, p.i, p.j) &&
    p.first == names[p.i] && p.second == names[p.j] && p.coefficient == corr[p.i][p.j].value
  }

  function PairAt(names: seq<string>, corr: seq<seq<Option<real>>>, i: nat, j: nat): StrongPair
    requires IsMatrix(names, corr) && i < |names| && j < |names| && corr[i][j].Some?
  {
    StrongPair(i, j, names[i], names[j], corr[i][j].value)
  }

  /** (i, j) comes strictly before (i', j') in row-major order. */
  predicate Before(p: StrongPair, q: StrongPair) {
    p.i < q.i || (p.i == q.i && p.j < q.j)
  }

  predicate RowMajor(s: seq<StrongPair>) {
    forall a, b :: 0 <= a < b < |s| ==> Before(s[a], s[b])
  }

  /** The pairs the inner loop appends for row i while j runs up to m. */
  function RowPairs(names: seq<string>, corr: seq<seq<Option<real>>>, threshold: real, i: nat, m: nat): (s: seq<StrongPair>)
    requires IsMatrix(names, corr) && i < |names| && m <= |names|
    ensures forall p :: p in s <==> p.i == i && p.j < m && Qualifies(names, corr, threshold, p)
    ensures RowMajor(s)
  {
    if m <= i + 1 then []
    else
      var rest := RowPairs(names, corr, threshold, i, m - 1);
      if Strong(names, corr, threshold, i, m - 1) then rest + [PairAt(names, corr, i, m - 1)] else rest
  }

  /** The pairs the scan has emitted once the outer loop has finished rows 0 .. m-1. */
  function ScanPairs(names: seq<string>, corr: seq<seq<Option<real>>>, threshold: real, m: nat): (s: seq<StrongPair>)
    requires IsMatrix(names, corr) && m <= |names|
    ensures forall p :: p in s <==> p.i < m && Qualifies(names, corr, threshold, p)
    ensures RowMajor(s)
  {
    if m == 0 then []
    else
      var done := ScanPairs(names, corr, threshold, m - 1);
      var row := RowPairs(names, corr, threshold, m - 1, |names|);
      assert forall a, b :: 0 <= a < |done| && 0 <= b < |row| ==> Before(done[a], row[b]) by {
        forall a, b | 0 <= a < |done| && 0 <= b < |row| ensures Before(done[a], row[b]) {
          assert done[a] in done && row[b] in row;
        }
      }
      done + row
  }

  /** One more column of row i extends that row's pairs by at most that one entry. */
  lemma RowStep(names: seq<string>, corr: seq<seq<Option<real>>>, threshold: real, i: nat, j: nat)
    requires IsMatrix(names, corr) && i < j < |names|
    ensures RowPairs(names, corr, threshold, i, j + 1) ==
      RowPairs(names, corr, threshold, i, j) +
      (if Strong(names, corr, threshold, i, j) then [PairAt(names, corr, i, j)] else [])
  {
  }

  /** One more finished row extends the scan by that row's pairs. */
  lemma ScanStep(names: seq<string>, corr: seq<seq<Option<real>>>, threshold: real, i: nat)
    requires IsMatrix(names, corr) && i < |names|
    ensures ScanPairs(names, corr, threshold, i + 1) ==
      ScanPairs(names, corr, threshold, i) + RowPairs(names, corr, threshold, i, |names|)
  {
  }

  /** The inner `for j in range(i+1, len(corr.columns))` loop for one row i. */
  method ScanRow(names: seq<string>, corr: seq<seq<Option<real>>>, threshold: real, i: nat) returns (row: seq<StrongPair>)
    requires IsMatrix(names, corr) && i < |names|
    ensures row == RowPairs(names, corr, threshold, i, |names|)
  {
    row := [];
    for j := i + 1 to |names|
      invariant row == RowPairs(names, corr, threshold, i, j)
    {
      RowStep(names, corr, threshold, i, j);
      if corr[i][j].Some? && Abs(corr[i][j].value) >= threshold {
        row := row + [StrongPair(i, j, names[i], names[j], corr[i][j].value)];
      }
    }
  }

  /** The nested `for i` / `for j` loop appending to `strong_corr`. */
  method ScanUpperTriangle(names: seq<string>, corr: seq<seq<Option<real>>>, threshold: real) returns (pairs: seq<StrongPair>)
    requires IsMatrix(names, corr)
    ensures pairs == ScanPairs(names, corr, threshold, |names|)
  {
    pairs := [];
    for i := 0 to |names|
      invariant pairs == ScanPairs(names, corr, threshold, i)
    {
      var row := ScanRow(names, corr, threshold, i);
      ScanStep(names, corr, threshold, i);
      pairs := pairs + row;
    }
  }

  // ---------------------------------------------------------------------------
  // sort_values('相関係数', key=abs, ascending=False)
  // ---------------------------------------------------------------------------

  predicate ByStrength(s: seq<StrongPair>) {
    forall a, b :: 0 <= a < b < |s| ==> Abs(s[a].coefficient) >= Abs(s[b].coefficient)
  }

  function InsertByStrength(p: StrongPair, s: seq<StrongPair>): (r: seq<StrongPair>)
    requires ByStrength(s)
    ensures ByStrength(r) && multiset(r) == multiset(s) + multiset{p}
  {
    if s == [] || Abs(p.coefficient) >= Abs(s[0].coefficient) then [p] + s
    else
      var rest := InsertByStrength(p, s[1..]);
      assert s == [s[0]] + s[1..];
      HeadDominates(p, s, rest);
      [s[0]] + rest
  }

  lemma HeadDominates(p: StrongPair, s: seq<StrongPair>, rest: seq<StrongPair>)
    requires s != [] && ByStrength(s) && ByStrength(rest)
    requires Abs(p.coefficient) < Abs(s[0].coefficient)
    requires multiset(rest) == multiset(s[1..]) + multiset{p}
    ensures ByStrength([s[0]] + rest)
  {
    forall b | 0 <= b < |rest| ensures Abs(s[0].coefficient) >= Abs(rest[b].coefficient) {
      assert rest[b] in multiset(rest);
      if rest[b] != p {
        assert rest[b] in multiset(s[1..]);
        var c :| 0 <= c < |s[1..]| && s[1..][c] == rest[b];
        assert s[c + 1] == rest[b];
      }
    }
  }

  /** Orders the pairs by the magnitude of their coefficient, strongest first. */
  function SortByStrength(s: seq<StrongPair>): (r: seq<StrongPair>)
    ensures ByStrength(r) && multiset(r) == multiset(s)
  {
    if s == [] then []
    else
      assert s == [s[0]] + s[1..];
      InsertByStrength(s[0], SortByStrength(s[1..]))
  }

  // ---------------------------------------------------------------------------
  // The table as displayed
  // ---------------------------------------------------------------------------

  predicate Distinct(s: seq<StrongPair>) {
    forall a, b :: 0 <= a < b < |s| ==> s[a] != s[b]
  }

  lemma {:induction false} DistinctOccursOnce(s: seq<StrongPair>, x: StrongPair)
    requires Distinct(s)
    ensures multiset(s)[x] <= 1
  {
    if s != [] {
      assert s == [s[0]] + s[1..];
      assert Distinct(s[1..]) by {
        forall a, b | 0 <= a < b < |s[1..]| ensures s[1..][a] != s[1..][b] {
          assert s[1..][a] == s[a + 1] && s[1..][b] == s[b + 1];
        }
      }
      DistinctOccursOnce(s[1..], x);
      if s[0] == x {
        assert x !in s[1..] by {
          forall b | 0 <= b < |s[1..]| ensures s[1..][b] != x {
            assert s[1..][b] == s[b + 1];
          }
        }
      }
    }
  }

  lemma RepeatOccursTwice(s: seq<StrongPair>, a: nat, b: nat)
    requires a < b < |s| && s[a] == s[b]
    ensures multiset(s)[s[a]] >= 2
  {
    assert s == s[..b] + s[b..];
    assert s[a] in s[..b];
    assert s[b] in s[b..];
  }

  /** A reordering of a list without repeats has no repeats. */
  lemma DistinctPermutation(s: seq<StrongPair>, r: seq<StrongPair>)
    requires Distinct(s) && multiset(r) == multiset(s)
    ensures Distinct(r)
  {
    forall a, b | 0 <= a < b < |r| ensures r[a] != r[b] {
      if r[a] == r[b] {
        RepeatOccursTwice(r, a, b);
        DistinctOccursOnce(s, r[a]);
      }
    }
  }

  /**
   * The strong-pairs table: exactly the upper-triangle pairs (so never a
   * column with itself, and each unordered pair at most once) whose
   * coefficient reaches the threshold in magnitude, strongest first.
   */
  method StrongCorrelations(names: seq<string>, corr: seq<seq<Option<real>>>, threshold: real) returns (ranked: seq<StrongPair>)
    requires IsMatrix(names, corr)
    ensures forall p :: p in ranked <==> Qualifies(names, corr, threshold, p)
    ensures forall a, b :: 0 <= a < b < |ranked| ==> (ranked[a].i, ranked[a].j) != (ranked[b].i, ranked[b].j)
    ensures ByStrength(ranked)
  {
    var pairs := ScanUpperTriangle(names, corr, threshold);
    ranked := SortByStrength(pairs);
    assert forall p :: p in ranked <==> p in pairs by {
      forall p ensures p in ranked <==> p in pairs {
        assert p in ranked <==> p in multiset(ranked);
      }
    }
    assert Distinct(pairs);
    DistinctPermutation(pairs, ranked);
  }

  /**
   * With columns X, Y, Z, r(X, Y) = 0.6, r(X, Z) = 0.3, r(Y, Z) = 0.0 and a
   * threshold of 0.5, the scan reports the single pair (X, Y).
   */
  lemma ThresholdExample()
    ensures var corr := [[Some(1.0), Some(0.6), Some(0.3)],
                         [Some(0.6), Some(1.0), Some(0.0)],
                         [Some(0.3), Some(0.0), Some(1.0)]];
            IsMatrix(["X", "Y", "Z"], corr) &&
            ScanPairs(["X", "Y", "Z"], corr, 0.5, 3) == [StrongPair(0, 1, "X", "Y", 0.6)]
  {
    var names := ["X", "Y", "Z"];
    var corr := [[Some(1.0), Some(0.6), Some(0.3)],
                 [Some(0.6), Some(1.0), Some(0.0)],
                 [Some(0.3), Some(0.0), Some(1.0)]];
    assert RowPairs(names, corr, 0.5, 0, 3) == [StrongPair(0, 1, "X", "Y", 0.6)] by {
      assert RowPairs(names, corr, 0.5, 0, 2) == [StrongPair(0, 1, "X", "Y", 0.6)];
    }
    assert RowPairs(names, corr, 0.5, 1, 3) == [];
    assert RowPairs(names, corr, 0.5, 2, 3) == [];
    assert ScanPairs(names, corr, 0.5, 1) == [StrongPair(0, 1, "X", "Y", 0.6)];
    assert ScanPairs(names, corr, 0.5, 2) == [StrongPair(0, 1, "X", "Y", 0.6)];
  }
}
