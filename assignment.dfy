/**
 * Labelled score matrices and the constrained assignment of
 * find_best_assignment: the clean-up of the include and exclude constraint
 * lists, the matrix reduced by the fixed pairs, the soft penalty on excluded
 * cells, the all-dummy short cut and the recombination of fixed and solved
 * pairs into one matching.
 */
module Assignment {
  import opened Wrappers
  import Solver

  /** One (row label, column label) pair of a matching, e.g. (spin system, residue). */
  datatype Pair = Pair(row: string, col: string)

  /** A score matrix with its row and column labels. */
  datatype ScoreMatrix = ScoreMatrix(rows: seq<string>, cols: seq<string>, cells: seq<seq<real>>)

  ghost predicate Distinct(s: seq<string>) {
    forall i, j :: 0 <= i < j < |s| ==> s[i] != s[j]
  }

  ghost predicate WellFormed(m: ScoreMatrix) {
    && |m.cells| == |m.rows|
    && (forall i :: 0 <= i < |m.rows| ==> |m.cells[i]| == |m.cols|)
    && Distinct(m.rows) && Distinct(m.cols)
  }

  ghost predicate Square(m: ScoreMatrix) {
    WellFormed(m) && |m.rows| == |m.cols|
  }

  /** The position of x in s. */
  function IndexOf(s: seq<string>, x: string): (r: Option<nat>)
    ensures r.Some? ==> r.value < |s| && s[r.value] == x
    ensures r.None? <==> x !in s
  {
    if |s| == 0 then None
    else if s[0] == x then Some(0)
    else
      var r := IndexOf(s[1..], x);
      assert s == [s[0]] + s[1..];
      if r.Some? then Some(r.value + 1) else None
  }

  lemma IndexOfDistinct(s: seq<string>, i: nat)
    requires Distinct(s) && i < |s|
    ensures IndexOf(s, s[i]) == Some(i)
  {
    var r := IndexOf(s, s[i]);
    assert r.Some?;
  }

  ghost predicate Labels(m: ScoreMatrix, matching: seq<Pair>) {
    forall k :: 0 <= k < |matching| ==> matching[k].row in m.rows && matching[k].col in m.cols
  }

  /** The score of one pair, looked up by its labels. */
  function Lookup(m: ScoreMatrix, p: Pair): real
    requires WellFormed(m) && p.row in m.rows && p.col in m.cols
  {
    var i := IndexOf(m.rows, p.row).value;
    var j := IndexOf(m.cols, p.col).value;
    m.cells[i][j]
  }

  /** The total score of a matching (calc_overall_matching_prob). */
  function MatchingScore(m: ScoreMatrix, matching: seq<Pair>): real
    requires WellFormed(m) && Labels(m, matching)
    decreases |matching|
  {
    if matching == [] then 0.0
    else Lookup(m, matching[0]) + MatchingScore(m, matching[1..])
  }

  /** The score of a matching split in two is the sum of the scores of its parts. */
  lemma {:induction false} MatchingScoreAppend(m: ScoreMatrix, a: seq<Pair>, b: seq<Pair>)
    requires WellFormed(m) && Labels(m, a) && Labels(m, b)
    ensures Labels(m, a + b)
    ensures MatchingScore(m, a + b) == MatchingScore(m, a) + MatchingScore(m, b)
    decreases |a|
  {
    if a != [] {
      assert (a + b)[1..] == a[1..] + b;
      assert (a + b)[0] == a[0];
      MatchingScoreAppend(m, a[1..], b);
    } else {
      assert a + b == b;
    }
  }

  // ---------------------------------------------------------------------
  // Constraint clean-up
  // ---------------------------------------------------------------------

  function RowCount(s: seq<Pair>, r: string): nat {
    if s == [] then 0 else (if s[0].row == r then 1 else 0) + RowCount(s[1..], r)
  }

  function ColCount(s: seq<Pair>, c: string): nat {
    if s == [] then 0 else (if s[0].col == c then 1 else 0) + ColCount(s[1..], c)
  }

  /** No other pair of `inc` shares this pair's row or its column. */
  predicate Unconflicted(inc: seq<Pair>, p: Pair) {
    RowCount(inc, p.row) == 1 && ColCount(inc, p.col) == 1
  }

  /** The pairs of `part` that conflict with no other pair of `inc`, in order. */
  function KeepUnconflicted(inc: seq<Pair>, part: seq<Pair>): (r: seq<Pair>)
    ensures forall p :: p in r <==> p in part && Unconflicted(inc, p)
    ensures |r| <= |part|
  {
    if part == [] then []
    else (if Unconflicted(inc, part[0]) then [part[0]] else []) + KeepUnconflicted(inc, part[1..])
  }

  /** The include pairs that survive the conflict check: every pair that shares a row or a column with another is dropped. */
  function CleanIncludes(inc: seq<Pair>): (r: seq<Pair>)
    ensures forall p :: p in r <==> p in inc && Unconflicted(inc, p)
  {
    KeepUnconflicted(inc, inc)
  }

  function RowsOf(s: seq<Pair>): (r: seq<string>)
    ensures |r| == |s| && forall k :: 0 <= k < |s| ==> r[k] == s[k].row
  {
    seq(|s|, k requires 0 <= k < |s| => s[k].row)
  }

  function ColsOf(s: seq<Pair>): (r: seq<string>)
    ensures |r| == |s| && forall k :: 0 <= k < |s| ==> r[k] == s[k].col
  {
    seq(|s|, k requires 0 <= k < |s| => s[k].col)
  }

  lemma {:induction false} CountPositive(s: seq<Pair>, k: nat)
    requires k < |s|
    ensures RowCount(s, s[k].row) >= 1 && ColCount(s, s[k].col) >= 1
  {
    if k > 0 {
      CountPositive(s[1..], k - 1);
    }
  }

  lemma {:induction false} CountTwice(s: seq<Pair>, i: nat, j: nat)
    requires i < j < |s|
    ensures s[i].row == s[j].row ==> RowCount(s, s[i].row) >= 2
    ensures s[i].col == s[j].col ==> ColCount(s, s[i].col) >= 2
  {
    if i > 0 {
      CountTwice(s[1..], i - 1, j - 1);
    } else {
      CountPositive(s[1..], j - 1);
    }
  }

  /** The surviving include pairs are conflict-free: their rows are distinct and so are their columns. */
  lemma CleanIncludesConflictFree(inc: seq<Pair>)
    ensures Distinct(RowsOf(CleanIncludes(inc))) && Distinct(ColsOf(CleanIncludes(inc)))
  {
    assert inc[0..] == inc;
    SuffixConflictFree(inc, 0);
  }

  lemma {:induction false} SuffixConflictFree(inc: seq<Pair>, k: nat)
    requires k <= |inc|
    ensures Distinct(RowsOf(KeepUnconflicted(inc, inc[k..])))
    ensures Distinct(ColsOf(KeepUnconflicted(inc, inc[k..])))
    decreases |inc| - k
  {
    if k < |inc| {
      assert inc[k..][1..] == inc[k + 1..];
      SuffixConflictFree(inc, k + 1);
      var rest := KeepUnconflicted(inc, inc[k + 1..]);
      if Unconflicted(inc, inc[k]) {
        forall q | q in rest ensures q.row != inc[k].row && q.col != inc[k].col {
          var j :| 0 <= j < |inc[k + 1..]| && inc[k + 1..][j] == q;
          CountTwice(inc, k, k + 1 + j);
        }
        assert KeepUnconflicted(inc, inc[k..]) == [inc[k]] + rest;
        ConsConflictFree(inc[k], rest);
      } else {
        assert KeepUnconflicted(inc, inc[k..]) == rest;
      }
    } else {
      assert inc[k..] == [];
    }
  }

  /** A conflict-free list stays so when a pair sharing no row and no column with it is put in front. */
  lemma ConsConflictFree(p: Pair, rest: seq<Pair>)
    requires Distinct(RowsOf(rest)) && Distinct(ColsOf(rest))
    requires forall q :: q in rest ==> q.row != p.row && q.col != p.col
    ensures Distinct(RowsOf([p] + rest)) && Distinct(ColsOf([p] + rest))
  {
    var r := [p] + rest;
    forall a, b | 0 <= a < b < |r| ensures r[a].row != r[b].row && r[a].col != r[b].col {
      if a == 0 {
        assert r[b] == rest[b - 1] && r[b] in rest;
      } else {
        assert r[a] == rest[a - 1] && r[b] == rest[b - 1];
        assert RowsOf(rest)[a - 1] != RowsOf(rest)[b - 1];
        assert ColsOf(rest)[a - 1] != ColsOf(rest)[b - 1];
      }
    }
  }

  lemma {:induction false} CountAbsent(s: seq<Pair>, r: string, c: string)
    ensures (forall j :: 0 <= j < |s| ==> s[j].row != r) ==> RowCount(s, r) == 0
    ensures (forall j :: 0 <= j < |s| ==> s[j].col != c) ==> ColCount(s, c) == 0
  {
    if s != [] {
      CountAbsent(s[1..], r, c);
      assert forall j :: 1 <= j < |s| ==> s[1..][j - 1] == s[j];
    }
  }

  /** In a conflict-free list every pair's row and column occur once. */
  lemma {:induction false} CountOnce(s: seq<Pair>, k: nat)
    requires k < |s| && Distinct(RowsOf(s)) && Distinct(ColsOf(s))
    ensures RowCount(s, s[k].row) == 1 && ColCount(s, s[k].col) == 1
  {
    var t := s[1..];
    assert forall j :: 0 <= j < |t| ==> t[j] == s[j + 1];
    if k == 0 {
      CountAbsent(t, s[0].row, s[0].col);
    } else {
      assert Distinct(RowsOf(t)) && Distinct(ColsOf(t));
      CountOnce(t, k - 1);
    }
  }

  /** Every pair of a conflict-free list survives the include clean-up. */
  lemma ConflictFreeKept(s: seq<Pair>)
    requires Distinct(RowsOf(s)) && Distinct(ColsOf(s))
    ensures forall p :: p in s ==> p in CleanIncludes(s)
  {
    forall p | p in s ensures Unconflicted(s, p) {
      var k :| 0 <= k < |s| && s[k] == p;
      CountOnce(s, k);
    }
  }

  /** A list of distinct pairs, each a pair of a conflict-free list, is conflict-free. */
  lemma SubsetConflictFree(s: seq<Pair>, t: seq<Pair>)
    requires forall a, b :: 0 <= a < b < |s| ==> s[a] != s[b]
    requires forall p :: p in s ==> p in t
    requires Distinct(RowsOf(t)) && Distinct(ColsOf(t))
    ensures Distinct(RowsOf(s)) && Distinct(ColsOf(s))
  {
    forall a, b | 0 <= a < b < |s| ensures s[a].row != s[b].row && s[a].col != s[b].col {
      assert s[a] in t && s[b] in t;
      var i :| 0 <= i < |t| && t[i] == s[a];
      var j :| 0 <= j < |t| && t[j] == s[b];
      assert RowsOf(t)[i] == s[a].row && RowsOf(t)[j] == s[b].row;
      assert ColsOf(t)[i] == s[a].col && ColsOf(t)[j] == s[b].col;
    }
  }

  /** The exclude pairs sharing no row and no column with a surviving include pair. */
  function CleanExcludes(exc: seq<Pair>, inc: seq<Pair>): (r: seq<Pair>)
    ensures forall p :: p in r <==> p in exc && p.row !in RowsOf(inc) && p.col !in ColsOf(inc)
    ensures |r| <= |exc|
  {
    if exc == [] then []
    else
      (if exc[0].row !in RowsOf(inc) && exc[0].col !in ColsOf(inc) then [exc[0]] else [])
      + CleanExcludes(exc[1..], inc)
  }

  // ---------------------------------------------------------------------
  // The reduced matrix
  // ---------------------------------------------------------------------

  /** The positions of the labels of s that are not in `drop`, in increasing order. */
  function Keep(s: seq<string>, drop: set<string>): (r: seq<nat>)
    ensures forall t :: 0 <= t < |r| ==> r[t] < |s| && s[r[t]] !in drop
    ensures forall i :: 0 <= i < |s| && s[i] !in drop ==> i in r
    ensures forall a, b :: 0 <= a < b < |r| ==> r[a] < r[b]
    decreases |s|
  {
    if s == [] then []
    else
      var r := Keep(s[..|s| - 1], drop);
      if s[|s| - 1] in drop then r else r + [|s| - 1]
  }

  function Pick(s: seq<string>, idx: seq<nat>): (r: seq<string>)
    requires forall t :: 0 <= t < |idx| ==> idx[t] < |s|
    ensures |r| == |idx| && forall t :: 0 <= t < |idx| ==> r[t] == s[idx[t]]
  {
    seq(|idx|, t requires 0 <= t < |idx| => s[idx[t]])
  }

  ghost predicate LabelSet(s: seq<string>, labels: set<string>) {
    forall x :: x in labels <==> x in s
  }

  function LabelsIn(s: seq<string>): set<string> {
    set x | x in s
  }

  /** The rows at positions kr and the columns at positions kc. */
  function SubMatrix(m: ScoreMatrix, kr: seq<nat>, kc: seq<nat>): (r: ScoreMatrix)
    requires WellFormed(m)
    requires forall t :: 0 <= t < |kr| ==> kr[t] < |m.rows|
    requires forall t :: 0 <= t < |kc| ==> kc[t] < |m.cols|
    ensures r.rows == Pick(m.rows, kr) && r.cols == Pick(m.cols, kc)
    ensures |r.cells| == |kr| && forall a :: 0 <= a < |kr| ==> |r.cells[a]| == |kc|
    ensures forall a, b :: 0 <= a < |kr| && 0 <= b < |kc| ==> r.cells[a][b] == m.cells[kr[a]][kc[b]]
  {
    ScoreMatrix(Pick(m.rows, kr), Pick(m.cols, kc),
      seq(|kr|, a requires 0 <= a < |kr| => seq(|kc|, b requires 0 <= b < |kc| => m.cells[kr[a]][kc[b]])))
  }

  /** The matrix without the rows and the columns of the fixed pairs. */
  function Reduce(m: ScoreMatrix, fixed: seq<Pair>): (r: ScoreMatrix)
    requires WellFormed(m)
    ensures WellFormed(r)
    ensures forall x :: x in r.rows <==> x in m.rows && x !in RowsOf(fixed)
    ensures forall x :: x in r.cols <==> x in m.cols && x !in ColsOf(fixed)
    ensures forall a, b :: 0 <= a < |r.rows| && 0 <= b < |r.cols| ==>
      r.cells[a][b] == Lookup(m, Pair(r.rows[a], r.cols[b]))
  {
    var kr := Keep(m.rows, LabelsIn(RowsOf(fixed)));
    var kc := Keep(m.cols, LabelsIn(ColsOf(fixed)));
    KeptLabels(m.rows, LabelsIn(RowsOf(fixed)));
    KeptLabels(m.cols, LabelsIn(ColsOf(fixed)));
    PickDistinct(m.rows, kr);
    PickDistinct(m.cols, kc);
    SubMatrixLookup(m, kr, kc);
    SubMatrix(m, kr, kc)
  }

  /** Every cell of a sub-matrix is the cell of the whole matrix with the same labels. */
  lemma SubMatrixLookup(m: ScoreMatrix, kr: seq<nat>, kc: seq<nat>)
    requires WellFormed(m)
    requires forall t :: 0 <= t < |kr| ==> kr[t] < |m.rows|
    requires forall t :: 0 <= t < |kc| ==> kc[t] < |m.cols|
    ensures var r := SubMatrix(m, kr, kc);
      forall a, b :: 0 <= a < |kr| && 0 <= b < |kc| ==> r.cells[a][b] == Lookup(m, Pair(r.rows[a], r.cols[b]))
  {
    var r := SubMatrix(m, kr, kc);
    forall a, b | 0 <= a < |kr| && 0 <= b < |kc| ensures r.cells[a][b] == Lookup(m, Pair(r.rows[a], r.cols[b])) {
      IndexOfDistinct(m.rows, kr[a]);
      IndexOfDistinct(m.cols, kc[b]);
    }
  }

  lemma KeptLabels(s: seq<string>, drop: set<string>)
    ensures forall x :: x in Pick(s, Keep(s, drop)) <==> x in s && x !in drop
  {
    var k := Keep(s, drop);
    var r := Pick(s, k);
    forall x | x in s && x !in drop ensures x in r {
      var i :| 0 <= i < |s| && s[i] == x;
      var t :| 0 <= t < |k| && k[t] == i;
      assert r[t] == x;
    }
  }

  lemma PickDistinct(s: seq<string>, idx: seq<nat>)
    requires Distinct(s)
    requires forall t :: 0 <= t < |idx| ==> idx[t] < |s|
    requires forall a, b :: 0 <= a < b < |idx| ==> idx[a] < idx[b]
    ensures Distinct(Pick(s, idx))
  {
  }

  /** Reducing by no pairs leaves the matrix as it is. */
  lemma ReduceByNothing(m: ScoreMatrix)
    requires WellFormed(m)
    ensures Reduce(m, []) == m
  {
    assert LabelsIn(RowsOf([])) == {};
    assert LabelsIn(ColsOf([])) == {};
    KeepNothing(m.rows);
    KeepNothing(m.cols);
    SubMatrixWhole(m);
  }

  lemma SubMatrixWhole(m: ScoreMatrix)
    requires WellFormed(m)
    ensures SubMatrix(m, Solver.Range(|m.rows|), Solver.Range(|m.cols|)) == m
  {
    var r := SubMatrix(m, Solver.Range(|m.rows|), Solver.Range(|m.cols|));
    assert r.rows == m.rows;
    assert r.cols == m.cols;
    forall a | 0 <= a < |m.rows| ensures r.cells[a] == m.cells[a] {
      assert forall b :: 0 <= b < |m.cols| ==> r.cells[a][b] == m.cells[a][b];
    }
    assert r.cells == m.cells;
  }

  lemma {:induction false} KeepNothing(s: seq<string>)
    ensures Keep(s, {}) == Solver.Range(|s|)
    decreases |s|
  {
    if s != [] {
      KeepNothing(s[..|s| - 1]);
      assert Solver.Range(|s|) == Solver.Range(|s| - 1) + [|s| - 1];
    }
  }

  /** With distinct labels, the kept positions are those of the labels not dropped. */
  lemma {:induction false} KeepCount(s: seq<string>, drop: set<string>)
    requires Distinct(s)
    ensures |Keep(s, drop)| + |drop * LabelsIn(s)| == |s|
    decreases |s|
  {
    if s != [] {
      var init := s[..|s| - 1];
      var last := s[|s| - 1];
      KeepCount(init, drop);
      LastIsNew(s);
      var before := LabelsIn(init);
      if last in drop {
        assert drop * LabelsIn(s) == (drop * before) + {last};
      } else {
        assert drop * LabelsIn(s) == drop * before;
      }
    }
  }

  lemma LastIsNew(s: seq<string>)
    requires Distinct(s) && s != []
    ensures LabelsIn(s) == LabelsIn(s[..|s| - 1]) + {s[|s| - 1]}
    ensures s[|s| - 1] !in LabelsIn(s[..|s| - 1])
  {
    var init := s[..|s| - 1];
    assert s == init + [s[|s| - 1]];
    forall i | 0 <= i < |init| ensures init[i] != s[|s| - 1] {
      assert init[i] == s[i];
    }
  }

  // ---------------------------------------------------------------------
  // The soft penalty on excluded cells
  // ---------------------------------------------------------------------

  /** The largest absolute value of a row, attained by one of its cells; 0 for an empty row. */
  function MaxAbsRow(row: seq<real>): (r: real)
    ensures r >= 0.0 && forall j :: 0 <= j < |row| ==> -r <= row[j] <= r
    ensures row == [] ==> r == 0.0
    ensures row != [] ==> exists j :: 0 <= j < |row| && (row[j] == r || row[j] == -r)
  {
    if row == [] then 0.0
    else
      var rest := MaxAbsRow(row[1..]);
      var here := if row[0] < 0.0 then -row[0] else row[0];
      assert row[1..] != [] ==> exists j :: 1 <= j < |row| && (row[j] == rest || row[j] == -rest) by {
        if row[1..] != [] {
          var j :| 0 <= j < |row[1..]| && (row[1..][j] == rest || row[1..][j] == -rest);
          assert row[j + 1] == row[1..][j];
        }
      }
      if here > rest then here else rest
  }

  /** The largest absolute score of the matrix: every cell lies within it; 0 for a matrix without cells. */
  function MaxAbs(cells: seq<seq<real>>): (r: real)
    ensures r >= 0.0
    ensures forall i, j :: 0 <= i < |cells| && 0 <= j < |cells[i]| ==> -r <= cells[i][j] <= r
    ensures (forall i :: 0 <= i < |cells| ==> cells[i] == []) ==> r == 0.0
  {
    if cells == [] then 0.0
    else
      var rest := MaxAbs(cells[1..]);
      var here := MaxAbsRow(cells[0]);
      assert forall i :: 1 <= i < |cells| ==> cells[i] == cells[1..][i - 1];
      if here > rest then here else rest
  }

  /** Some cell of a matrix with cells attains its largest absolute score. */
  lemma {:induction false} MaxAbsAttained(cells: seq<seq<real>>)
    requires exists i :: 0 <= i < |cells| && cells[i] != []
    ensures exists i, j :: 0 <= i < |cells| && 0 <= j < |cells[i]| && (cells[i][j] == MaxAbs(cells) || cells[i][j] == -MaxAbs(cells))
  {
    var rest := MaxAbs(cells[1..]);
    var here := MaxAbsRow(cells[0]);
    if cells[0] != [] && (here > rest || !(exists i :: 1 <= i < |cells| && cells[i] != [])) {
      var j :| 0 <= j < |cells[0]| && (cells[0][j] == here || cells[0][j] == -here);
      assert MaxAbs(cells) == here;
    } else {
      var i0 :| 1 <= i0 < |cells| && cells[i0] != [];
      assert cells[1..][i0 - 1] == cells[i0];
      MaxAbsAttained(cells[1..]);
      var i, j :| 0 <= i < |cells[1..]| && 0 <= j < |cells[1..][i]| && (cells[1..][i][j] == rest || cells[1..][i][j] == -rest);
      assert cells[i + 1] == cells[1..][i];
      assert MaxAbs(cells) == rest;
    }
  }

  /** The score written into an excluded cell: twice the largest magnitude, on the losing side. */
  function Penalty(m: ScoreMatrix, maximise: bool): (p: real)
    ensures p == (if maximise then -2.0 else 2.0) * MaxAbs(m.cells)
    ensures maximise ==> forall i, j :: 0 <= i < |m.cells| && 0 <= j < |m.cells[i]| ==> p <= m.cells[i][j]
    ensures !maximise ==> forall i, j :: 0 <= i < |m.cells| && 0 <= j < |m.cells[i]| ==> p >= m.cells[i][j]
  {
    if maximise then -2.0 * MaxAbs(m.cells) else 2.0 * MaxAbs(m.cells)
  }

  /**
   * The cells an exclude pair penalises: an excluded dummy row is excluded
   * against every dummy column, an excluded dummy column against every dummy
   * row, and any other pair only at its own cell.
   */
  predicate Covers(p: Pair, r: string, c: string, dummyRows: set<string>, dummyCols: set<string>) {
    if p.row in dummyRows then r == p.row && c in dummyCols
    else if p.col in dummyCols then c == p.col && r in dummyRows
    else r == p.row && c == p.col
  }

  predicate Excluded(exc: seq<Pair>, r: string, c: string, dummyRows: set<string>, dummyCols: set<string>) {
    exists k :: 0 <= k < |exc| && Covers(exc[k], r, c, dummyRows, dummyCols)
  }

  /** The matrix with every excluded cell overwritten by the penalty. */
  function Penalised(m: ScoreMatrix, exc: seq<Pair>, penalty: real, dummyRows: set<string>, dummyCols: set<string>): (r: ScoreMatrix)
    requires WellFormed(m)
    ensures WellFormed(r) && r.rows == m.rows && r.cols == m.cols
    ensures forall i, j :: 0 <= i < |m.rows| && 0 <= j < |m.cols| ==>
      r.cells[i][j] == if Excluded(exc, m.rows[i], m.cols[j], dummyRows, dummyCols) then penalty else m.cells[i][j]
  {
    m.(cells := seq(|m.rows|, i requires 0 <= i < |m.rows| => seq(|m.cols|, j requires 0 <= j < |m.cols| =>
      if Excluded(exc, m.rows[i], m.cols[j], dummyRows, dummyCols) then penalty else m.cells[i][j])))
  }

  /** Overwrites, in place, the cells one exclude pair penalises. */
  method PenaliseOne(cells: seq<seq<real>>, rows: seq<string>, cols: seq<string>, p: Pair, penalty: real,
                     dummyRows: set<string>, dummyCols: set<string>) returns (out: seq<seq<real>>)
    requires |cells| == |rows| && forall i :: 0 <= i < |rows| ==> |cells[i]| == |cols|
    ensures |out| == |rows| && forall i :: 0 <= i < |rows| ==> |out[i]| == |cols|
    ensures forall i, j :: 0 <= i < |rows| && 0 <= j < |cols| ==>
      out[i][j] == if Covers(p, rows[i], cols[j], dummyRows, dummyCols) then penalty else cells[i][j]
  {
    out := cells;
    var i := 0;
    while i < |rows|
      invariant 0 <= i <= |rows|
      invariant |out| == |rows| && forall a :: 0 <= a < |rows| ==> |out[a]| == |cols|
      invariant forall a, j :: 0 <= a < i && 0 <= j < |cols| ==>
        out[a][j] == if Covers(p, rows[a], cols[j], dummyRows, dummyCols) then penalty else cells[a][j]
      invariant forall a :: i <= a < |rows| ==> out[a] == cells[a]
    {
      var row := out[i];
      var j := 0;
      while j < |cols|
        invariant 0 <= j <= |cols| && |row| == |cols|
        invariant forall b :: 0 <= b < |cols| ==>
          row[b] == if b < j && Covers(p, rows[i], cols[b], dummyRows, dummyCols) then penalty else cells[i][b]
      {
        if Covers(p, rows[i], cols[j], dummyRows, dummyCols) {
          row := row[j := penalty];
        }
        j := j + 1;
      }
      out := out[i := row];
      i := i + 1;
    }
  }

  // ---------------------------------------------------------------------
  // Matchings
  // ---------------------------------------------------------------------

  /** Row i of the matrix paired with column p[i]. */
  function ToPairs(m: ScoreMatrix, p: seq<nat>): (r: seq<Pair>)
    requires |p| == |m.rows| && forall i :: 0 <= i < |p| ==> p[i] < |m.cols|
    // unpacks the definition for the solver
    ensures |r| == |p| && forall i :: 0 <= i < |p| ==> r[i] == Pair(m.rows[i], m.cols[p[i]])
  {
    seq(|p|, i requires 0 <= i < |p| => Pair(m.rows[i], m.cols[p[i]]))
  }

  /** A perfect matching: every row and every column of the matrix used exactly once. */
  ghost predicate PerfectMatching(m: ScoreMatrix, matching: seq<Pair>) {
    && |matching| == |m.rows| == |m.cols|
    && Labels(m, matching)
    && Distinct(RowsOf(matching)) && Distinct(ColsOf(matching))
  }

  /** In a perfect matching every row and every column label occurs. */
  lemma PerfectMatchingCovers(m: ScoreMatrix, matching: seq<Pair>)
    requires WellFormed(m) && PerfectMatching(m, matching)
    ensures forall x :: x in m.rows ==> x in RowsOf(matching)
    ensures forall x :: x in m.cols ==> x in ColsOf(matching)
  {
    FullSubset(RowsOf(matching), m.rows);
    FullSubset(ColsOf(matching), m.cols);
  }

  /** A distinct sequence drawn from a distinct sequence of the same length uses all of it. */
  lemma FullSubset(a: seq<string>, b: seq<string>)
    requires Distinct(a) && Distinct(b) && |a| == |b| && forall x :: x in a ==> x in b
    ensures forall x :: x in b ==> x in a
  {
    DistinctCard(a);
    DistinctCard(b);
    var sa := LabelsIn(a);
    var sb := LabelsIn(b);
    assert sa <= sb;
    assert sb == sa + (sb - sa);
    assert sb - sa == {};
    forall x | x in b ensures x in a {
      assert x in sb;
      assert x in sa;
    }
  }

  lemma {:induction false} DistinctCard(s: seq<string>)
    requires Distinct(s)
    ensures |LabelsIn(s)| == |s|
    decreases |s|
  {
    if s != [] {
      var init := s[..|s| - 1];
      DistinctCard(init);
      assert LabelsIn(s) == LabelsIn(init) + {s[|s| - 1]};
      forall i | 0 <= i < |init| ensures init[i] != s[|s| - 1] {
        assert init[i] == s[i];
      }
    }
  }

  /** Removing the rows and columns of conflict-free fixed pairs from a square matrix leaves a square matrix. */
  lemma ReducedSquare(m: ScoreMatrix, fixed: seq<Pair>)
    requires Square(m) && Labels(m, fixed)
    requires Distinct(RowsOf(fixed)) && Distinct(ColsOf(fixed))
    ensures Square(Reduce(m, fixed)) && |Reduce(m, fixed).rows| == |m.rows| - |fixed|
  {
    var dr := LabelsIn(RowsOf(fixed));
    var dc := LabelsIn(ColsOf(fixed));
    KeepCount(m.rows, dr);
    KeepCount(m.cols, dc);
    DistinctCard(RowsOf(fixed));
    DistinctCard(ColsOf(fixed));
    assert dr * LabelsIn(m.rows) == dr;
    assert dc * LabelsIn(m.cols) == dc;
  }

  /** The fixed pairs followed by a perfect matching of the reduced matrix form a perfect matching of the whole. */
  lemma CombinedIsPerfect(m: ScoreMatrix, fixed: seq<Pair>, r: ScoreMatrix, p: seq<nat>)
    requires Square(m) && Labels(m, fixed)
    requires Distinct(RowsOf(fixed)) && Distinct(ColsOf(fixed))
    requires Square(r) && |r.rows| == |m.rows| - |fixed|
    requires forall x :: x in r.rows <==> x in m.rows && x !in RowsOf(fixed)
    requires forall x :: x in r.cols <==> x in m.cols && x !in ColsOf(fixed)
    requires Solver.IsPermutation(p, |r.rows|)
    ensures Solver.InBounds(p, |r.cols|) && |p| == |r.rows|
    ensures PerfectMatching(m, fixed + ToPairs(r, p))
  {
    Solver.PermutationIsBijection(p, |r.rows|);
    var t := ToPairs(r, p);
    var all := fixed + t;
    assert forall k :: 0 <= k < |t| ==> t[k].row in r.rows && t[k].col in r.cols;
    forall a, b | 0 <= a < b < |all| ensures all[a].row != all[b].row && all[a].col != all[b].col {
      if b < |fixed| {
        assert RowsOf(fixed)[a] != RowsOf(fixed)[b];
        assert ColsOf(fixed)[a] != ColsOf(fixed)[b];
      } else if a < |fixed| {
        assert all[a].row in RowsOf(fixed) && all[a].col in ColsOf(fixed);
        assert all[b] == t[b - |fixed|];
      } else {
        assert all[a] == t[a - |fixed|] && all[b] == t[b - |fixed|];
        assert p[a - |fixed|] != p[b - |fixed|];
      }
    }
  }

  /** The score of the pairs read off a permutation is the permutation's cost. */
  lemma ToPairsScore(m: ScoreMatrix, p: seq<nat>)
    requires Square(m) && |p| == |m.rows| && Solver.InBounds(p, |m.rows|)
    ensures Labels(m, ToPairs(m, p))
    ensures MatchingScore(m, ToPairs(m, p)) == Solver.Cost(m.cells, p)
  {
    assert ToPairs(m, p)[0..] == ToPairs(m, p) && p[0..] == p;
    ToPairsScoreFrom(m, p, 0);
  }

  lemma {:induction false} ToPairsScoreFrom(m: ScoreMatrix, p: seq<nat>, lo: nat)
    requires Square(m) && |p| == |m.rows| && Solver.InBounds(p, |m.rows|) && lo <= |p|
    ensures Labels(m, ToPairs(m, p)[lo..])
    ensures MatchingScore(m, ToPairs(m, p)[lo..]) == Solver.CostFrom(m.cells, lo, p[lo..])
    decreases |p| - lo
  {
    var t := ToPairs(m, p);
    if lo < |p| {
      ToPairsScoreFrom(m, p, lo + 1);
      assert t[lo..][1..] == t[lo + 1..] && p[lo..][1..] == p[lo + 1..];
      assert t[lo..][0] == Pair(m.rows[lo], m.cols[p[lo]]);
      IndexOfDistinct(m.rows, lo);
      IndexOfDistinct(m.cols, p[lo]);
    }
  }

  // ---------------------------------------------------------------------
  // find_best_assignment
  // ---------------------------------------------------------------------

  /** The include pairs that are kept fixed. */
  function Fixed(inc: Option<seq<Pair>>): seq<Pair> {
    if inc.Some? then CleanIncludes(inc.value) else []
  }

  /** The matrix left to solve once the fixed pairs are removed. */
  function Reduced(m: ScoreMatrix, inc: Option<seq<Pair>>): (r: ScoreMatrix)
    requires WellFormed(m)
    ensures WellFormed(r)
  {
    if inc.Some? then Reduce(m, Fixed(inc)) else m
  }

  /** The exclude pairs still in force. */
  function Exclusions(inc: Option<seq<Pair>>, exc: Option<seq<Pair>>): seq<Pair> {
    if exc.None? then [] else if inc.Some? then CleanExcludes(exc.value, Fixed(inc)) else exc.value
  }

  /** The reduced matrix with its excluded cells penalised: the problem handed to the solver. */
  function Problem(m: ScoreMatrix, maximise: bool, inc: Option<seq<Pair>>, exc: Option<seq<Pair>>,
                   dummyRows: set<string>, dummyCols: set<string>): (r: ScoreMatrix)
    requires WellFormed(m)
    ensures WellFormed(r) && r.rows == Reduced(m, inc).rows && r.cols == Reduced(m, inc).cols
  {
    if exc.Some? then Penalised(Reduced(m, inc), Exclusions(inc, exc), Penalty(m, maximise), dummyRows, dummyCols)
    else Reduced(m, inc)
  }

  /** Every row, or every column, of the reduced matrix is a dummy. */
  predicate AllDummy(r: ScoreMatrix, dummyRows: set<string>, dummyCols: set<string>) {
    LabelsIn(r.rows) <= dummyRows || LabelsIn(r.cols) <= dummyCols
  }

  /** p is a best permutation of the square matrix: the highest total when maximising, the lowest otherwise. */
  ghost predicate Optimal(cells: Solver.Matrix, p: seq<nat>, maximise: bool)
    requires Solver.IsSquare(cells)
  {
    && Solver.IsPermutation(p, |cells|) && |p| == |cells| && Solver.InBounds(p, |cells|)
    && forall q :: Solver.IsPermutation(q, |cells|) ==>
         |q| == |cells| && Solver.InBounds(q, |cells|) &&
         (if maximise then Solver.Cost(cells, q) <= Solver.Cost(cells, p) else Solver.Cost(cells, p) <= Solver.Cost(cells, q))
  }

  /** The solver's answer: a best permutation, highest total when maximising and lowest otherwise. */
  function Solve(cells: Solver.Matrix, maximise: bool): (p: seq<nat>)
    requires Solver.IsSquare(cells)
    ensures |p| == |cells| && Solver.InBounds(p, |cells|)
  {
    if maximise then Solver.MaximumAssignment(cells) else Solver.LinearSumAssignment(cells)
  }

  lemma SolveOptimal(cells: Solver.Matrix, maximise: bool)
    requires Solver.IsSquare(cells)
    ensures Optimal(cells, Solve(cells, maximise), maximise)
  {
  }

  /** Two matrices with the same labels and the same cells are the same matrix. */
  lemma SameMatrix(a: ScoreMatrix, b: ScoreMatrix)
    requires WellFormed(a) && WellFormed(b) && a.rows == b.rows && a.cols == b.cols
    requires forall i, j :: 0 <= i < |a.rows| && 0 <= j < |a.cols| ==> a.cells[i][j] == b.cells[i][j]
    ensures a == b
  {
    forall i | 0 <= i < |a.rows| ensures a.cells[i] == b.cells[i] {
    }
  }

  lemma ExcludedStep(exc: seq<Pair>, k: nat, r: string, c: string, dummyRows: set<string>, dummyCols: set<string>)
    requires k < |exc|
    ensures Excluded(exc[..k + 1], r, c, dummyRows, dummyCols)
        <==> Excluded(exc[..k], r, c, dummyRows, dummyCols) || Covers(exc[k], r, c, dummyRows, dummyCols)
  {
    if Excluded(exc[..k + 1], r, c, dummyRows, dummyCols) {
      var t :| 0 <= t < k + 1 && Covers(exc[..k + 1][t], r, c, dummyRows, dummyCols);
      if t < k {
        assert exc[..k][t] == exc[t];
      }
    }
    if Excluded(exc[..k], r, c, dummyRows, dummyCols) {
      var t :| 0 <= t < k && Covers(exc[..k][t], r, c, dummyRows, dummyCols);
      assert exc[..k + 1][t] == exc[t];
    }
    if Covers(exc[k], r, c, dummyRows, dummyCols) {
      assert exc[..k + 1][k] == exc[k];
    }
  }

  function DummiesOr(d: Option<set<string>>): set<string> {
    if d.Some? then d.value else {}
  }

  /**
   * The matching is the fixed include pairs followed by a best solution of
   * the remaining (reduced, penalised) problem.
   */
  ghost predicate BestUnder(m: ScoreMatrix, maximise: bool, inc: Option<seq<Pair>>, exc: Option<seq<Pair>>,
                            dummyRows: set<string>, dummyCols: set<string>, matching: seq<Pair>)
    requires WellFormed(m)
  {
    var problem := Problem(m, maximise, inc, exc, dummyRows, dummyCols);
    && Square(problem) && |problem.rows| == |m.rows| - |Fixed(inc)|
    && matching == Fixed(inc) + ToPairs(problem, Solve(problem.cells, maximise))
  }

  /** A list holding only pairs of another list whose labels are in the matrix has its labels in the matrix too. */
  lemma LabelsOfMembers(m: ScoreMatrix, s: seq<Pair>, t: seq<Pair>)
    requires Labels(m, t) && forall p :: p in s ==> p in t
    ensures Labels(m, s)
  {
    forall k | 0 <= k < |s| ensures s[k].row in m.rows && s[k].col in m.cols {
      assert s[k] in t;
      var j :| 0 <= j < |t| && t[j] == s[k];
    }
  }

  /** Overwrites every cell an exclude pair covers with the penalty, one pair after another. */
  method PenaliseAll(reduced: ScoreMatrix, excluded: seq<Pair>, penalty: real, dr: set<string>, dc: set<string>)
    returns (problem: ScoreMatrix)
    requires WellFormed(reduced)
    ensures problem == Penalised(reduced, excluded, penalty, dr, dc)
  {
    var cells := reduced.cells;
    var k := 0;
    while k < |excluded|
      invariant 0 <= k <= |excluded|
      invariant |cells| == |reduced.rows| && forall i :: 0 <= i < |reduced.rows| ==> |cells[i]| == |reduced.cols|
      invariant forall i, j :: 0 <= i < |reduced.rows| && 0 <= j < |reduced.cols| ==>
        cells[i][j] == if Excluded(excluded[..k], reduced.rows[i], reduced.cols[j], dr, dc) then penalty else reduced.cells[i][j]
    {
      cells := PenaliseOne(cells, reduced.rows, reduced.cols, excluded[k], penalty, dr, dc);
      forall i, j | 0 <= i < |reduced.rows| && 0 <= j < |reduced.cols| {
        ExcludedStep(excluded, k, reduced.rows[i], reduced.cols[j], dr, dc);
      }
      k := k + 1;
    }
    assert excluded[..k] == excluded;
    problem := reduced.(cells := cells);
    SameMatrix(problem, Penalised(reduced, excluded, penalty, dr, dc));
  }

  /**
   * The highest (or lowest) scoring assignment of rows to columns that
   * contains the conflict-free include pairs and avoids the exclude pairs
   * where it can: excluded cells are not forbidden but penalised by twice
   * the largest magnitude in the matrix.  Returns None, when asked to, if
   * what is left to assign is only dummies.
   */
  method FindBestAssignment(m: ScoreMatrix, maximise: bool, inc: Option<seq<Pair>>, exc: Option<seq<Pair>>,
                            dummyRows: Option<set<string>>, dummyCols: Option<set<string>>,
                            returnNoneAllDummy: bool)
    returns (matching: Option<seq<Pair>>)
    requires Square(m)
    requires inc.Some? ==> Labels(m, CleanIncludes(inc.value))
    requires exc.Some? || returnNoneAllDummy ==> dummyRows.Some? && dummyCols.Some?
    ensures matching.None? <==> returnNoneAllDummy && AllDummy(Reduced(m, inc), dummyRows.value, dummyCols.value)
    ensures matching.Some? ==> PerfectMatching(m, matching.value)
    ensures matching.Some? ==> BestUnder(m, maximise, inc, exc, DummiesOr(dummyRows), DummiesOr(dummyCols), matching.value)
  {
    var fixed := Fixed(inc);
    CleanIncludesConflictFree(if inc.Some? then inc.value else []);
    ReducedSquare(m, fixed);
    var reduced := Reduced(m, inc);
    if returnNoneAllDummy && AllDummy(reduced, dummyRows.value, dummyCols.value) {
      return None;
    }
    var dr := DummiesOr(dummyRows);
    var dc := DummiesOr(dummyCols);
    var problem := reduced;
    if exc.Some? {
      problem := PenaliseAll(reduced, Exclusions(inc, exc), Penalty(m, maximise), dr, dc);
    }
    assert problem == Problem(m, maximise, inc, exc, dr, dc);
    var p := Solve(problem.cells, maximise);
    SolveOptimal(problem.cells, maximise);
    CombinedIsPerfect(m, fixed, problem, p);
    matching := Some(fixed + ToPairs(problem, p));
  }
}
