/**
 * The log-probability score matrix of calc_log_prob_matrix: for every
 * (spin system, residue) pair, the log density of the prediction errors of
 * the shared atom types, with a fixed penalty for each missing shift, an
 * optional linear correction of the predictions, an optional correlated
 * (multivariate) error model, and zero scores for dummy rows and columns.
 */
module Scores {
  import opened Wrappers
  import opened ShiftTables
  import Assignment

  /** Slope and intercept of the linear correction for one (atom type, residue type). */
  datatype Correction = Correction(grad: real, offset: real)

  /** The correction parameters, keyed by atom type and residue type. */
  type CorrectionTable = map<(Atom, string), Correction>

  /** The i-1 carbons, whose correction is keyed by the type of the preceding residue. */
  const M1Carbons: set<Atom> := {"C_m1", "CA_m1", "CB_m1"}

  /**
   * How the scores are computed.  `logDensity(atom, delta)` is the log
   * density of a prediction error for one atom type (a normal distribution
   * with that atom's standard deviation); `jointLogDensity` the log density
   * of a whole error vector under the correlated model; `missingPenalty` is
   * log10 of the default probability charged for each missing shift.
   */
  datatype Settings = Settings(
    missingPenalty: real,
    correction: Option<CorrectionTable>,
    correlated: bool,
    logDensity: (Atom, real) -> real,
    jointLogDensity: seq<real> -> real)

  /** The residue types that occur in the prediction table (nulls dropped). */
  function ResidueTypes(preds: seq<Residue>): (s: set<string>)
    ensures forall t :: t in s <==> exists j :: 0 <= j < |preds| && preds[j].resType == Some(t)
  {
    set j | 0 <= j < |preds| && preds[j].resType.Some? :: preds[j].resType.value
  }

  /**
   * The predicted shift after the linear correction, when one applies: the
   * residue's type (the preceding residue's type for an i-1 carbon) must be
   * a residue type of the table and have parameters for this atom.
   */
  function Corrected(pred: real, obs: real, atom: Atom, res: Residue, types: set<string>, table: Option<CorrectionTable>): real {
    if table.None? then pred
    else
      var t := if atom in M1Carbons then res.resTypeM1 else res.resType;
      if t.Some? && t.value in types && (atom, t.value) in table.value then
        var c := table.value[(atom, t.value)];
        pred - c.grad * obs - c.offset
      else pred
  }

  function Shift(s: Shifts, atom: Atom): Option<real> {
    if atom in s then s[atom] else None
  }

  /** The prediction error for one atom type; None when either shift is missing. */
  function Delta(ss: SpinSystem, res: Residue, atom: Atom, types: set<string>, table: Option<CorrectionTable>): (d: Option<real>)
    ensures d.None? <==> Shift(ss.shifts, atom).None? || Shift(res.shifts, atom).None?
  {
    var o := Shift(ss.shifts, atom);
    var p := Shift(res.shifts, atom);
    if o.Some? && p.Some? then Some(Corrected(p.value, o.value, atom, res, types, table) - o.value) else None
  }

  /** One atom type's contribution in the independent model. */
  function AtomTerm(d: Option<real>, atom: Atom, st: Settings): real {
    if d.Some? then st.logDensity(atom, d.value) else st.missingPenalty
  }

  /** The sum of f over the atom types of s. */
  function Total(s: seq<Atom>, f: Atom -> real): real
    decreases |s|
  {
    if s == [] then 0.0 else f(s[0]) + Total(s[1..], f)
  }

  function Term(ss: SpinSystem, res: Residue, types: set<string>, st: Settings): Atom -> real {
    atom => AtomTerm(Delta(ss, res, atom, types, st.correction), atom, st)
  }

  /** The independent model: the sum of the per-atom contributions. */
  function IndependentScore(ss: SpinSystem, res: Residue, atoms: seq<Atom>, types: set<string>, st: Settings): real {
    Total(atoms, Term(ss, res, types, st))
  }

  /** The prediction errors of the atom types, in order. */
  function Deltas(ss: SpinSystem, res: Residue, atoms: seq<Atom>, types: set<string>, table: Option<CorrectionTable>): (ds: seq<Option<real>>)
    // unpacks the definition for the solver
    ensures |ds| == |atoms| && forall k :: 0 <= k < |atoms| ==> ds[k] == Delta(ss, res, atoms[k], types, table)
  {
    seq(|atoms|, k requires 0 <= k < |atoms| => Delta(ss, res, atoms[k], types, table))
  }

  /** Missing errors replaced by zero. */
  function ZeroFilled(ds: seq<Option<real>>): (r: seq<real>)
    ensures |r| == |ds| && forall k :: 0 <= k < |ds| ==> r[k] == if ds[k].Some? then ds[k].value else 0.0
  {
    seq(|ds|, k requires 0 <= k < |ds| => if ds[k].Some? then ds[k].value else 0.0)
  }

  function MissingCount(ds: seq<Option<real>>): (n: nat)
    ensures n <= |ds|
  {
    if ds == [] then 0 else (if ds[0].None? then 1 else 0) + MissingCount(ds[1..])
  }

  /** The correlated model: the joint log density of the errors plus the penalty for each missing one. */
  function CorrelatedScore(ds: seq<Option<real>>, st: Settings): real {
    st.jointLogDensity(ZeroFilled(ds)) + st.missingPenalty * MissingCount(ds) as real
  }

  /** The score of one (spin system, residue) pair; a dummy on either side scores zero. */
  function CellScore(ss: SpinSystem, res: Residue, atoms: seq<Atom>, types: set<string>, st: Settings): real {
    if ss.dummy || res.dummy then 0.0
    else if st.correlated then CorrelatedScore(Deltas(ss, res, atoms, types, st.correction), st)
    else IndependentScore(ss, res, atoms, types, st)
  }

  function SpinSystemNames(rows: seq<SpinSystem>): (r: seq<string>)
    ensures |r| == |rows| && forall i :: 0 <= i < |rows| ==> r[i] == rows[i].name
  {
    seq(|rows|, i requires 0 <= i < |rows| => rows[i].name)
  }

  function ResidueNames(rows: seq<Residue>): (r: seq<string>)
    ensures |r| == |rows| && forall j :: 0 <= j < |rows| ==> r[j] == rows[j].name
  {
    seq(|rows|, j requires 0 <= j < |rows| => rows[j].name)
  }

  /** The score matrix: spin systems as rows, residues as columns. */
  function LogProbMatrix(obs: seq<SpinSystem>, preds: seq<Residue>, atoms: seq<Atom>, st: Settings): (m: Assignment.ScoreMatrix)
    ensures m.rows == SpinSystemNames(obs) && m.cols == ResidueNames(preds)
    ensures |m.cells| == |obs| && forall i :: 0 <= i < |obs| ==> |m.cells[i]| == |preds|
    ensures forall i, j :: 0 <= i < |obs| && 0 <= j < |preds| ==>
      m.cells[i][j] == CellScore(obs[i], preds[j], atoms, ResidueTypes(preds), st)
  {
    var types := ResidueTypes(preds);
    Assignment.ScoreMatrix(SpinSystemNames(obs), ResidueNames(preds),
      seq(|obs|, i requires 0 <= i < |obs| => seq(|preds|, j requires 0 <= j < |preds| =>
        CellScore(obs[i], preds[j], atoms, types, st))))
  }

  // ---------------------------------------------------------------------
  // Properties of the scores
  // ---------------------------------------------------------------------

  lemma {:induction false} TotalAppend(a: seq<Atom>, b: seq<Atom>, f: Atom -> real)
    ensures Total(a + b, f) == Total(a, f) + Total(b, f)
    decreases |a|
  {
    if a == [] {
      assert a + b == b;
    } else {
      assert (a + b)[1..] == a[1..] + b;
      TotalAppend(a[1..], b, f);
    }
  }

  /**
   * The independent score does not depend on the order of the atom types,
   * which are taken from a set: any two orderings of the same atom types
   * give the same total.
   */
  lemma {:induction false} TotalPermutation(s: seq<Atom>, t: seq<Atom>, f: Atom -> real)
    requires multiset(s) == multiset(t)
    ensures Total(s, f) == Total(t, f)
    decreases |s|
  {
    if s != [] {
      assert s[0] in multiset(t);
      var j :| 0 <= j < |t| && t[j] == s[0];
      var rest := t[..j] + t[j + 1..];
      assert t == t[..j] + [t[j]] + t[j + 1..];
      TotalAppend(t[..j] + [t[j]], t[j + 1..], f);
      TotalAppend(t[..j], [t[j]], f);
      TotalAppend(t[..j], t[j + 1..], f);
      assert Total([t[j]], f) == f(t[j]) by {
        assert [t[j]][1..] == [];
      }
      assert s == [s[0]] + s[1..];
      assert multiset(s[1..]) == multiset(rest) by {
        assert multiset(t) == multiset(t[..j]) + multiset{t[j]} + multiset(t[j + 1..]);
        assert multiset(rest) == multiset(t[..j]) + multiset(t[j + 1..]);
        assert multiset(s) == multiset{s[0]} + multiset(s[1..]);
        assert multiset(s[1..]) == multiset(s) - multiset{s[0]};
        assert multiset(rest) == multiset(t) - multiset{t[j]};
      }
      TotalPermutation(s[1..], rest, f);
    } else {
      assert |t| == |multiset(t)| == 0;
    }
  }

  /** Two orderings of the same atom types give the same cell score. */
  lemma CellScoreOrderFree(ss: SpinSystem, res: Residue, a: seq<Atom>, b: seq<Atom>, types: set<string>, st: Settings)
    requires !st.correlated && multiset(a) == multiset(b)
    ensures CellScore(ss, res, a, types, st) == CellScore(ss, res, b, types, st)
  {
    TotalPermutation(a, b, Term(ss, res, types, st));
  }

  /** Each missing shift costs exactly the missing-data penalty: a pair with every shift missing scores it once per atom type. */
  lemma {:induction false} AllMissingScore(ss: SpinSystem, res: Residue, atoms: seq<Atom>, types: set<string>, st: Settings)
    requires forall k :: 0 <= k < |atoms| ==> Shift(ss.shifts, atoms[k]).None?
    ensures IndependentScore(ss, res, atoms, types, st) == st.missingPenalty * |atoms| as real
    ensures CorrelatedScore(Deltas(ss, res, atoms, types, st.correction), st)
         == st.jointLogDensity(seq(|atoms|, k => 0.0)) + st.missingPenalty * |atoms| as real
    decreases |atoms|
  {
    var ds := Deltas(ss, res, atoms, types, st.correction);
    AllMissingCount(ds);
    assert ZeroFilled(ds) == seq(|atoms|, k => 0.0);
    if atoms != [] {
      AllMissingScore(ss, res, atoms[1..], types, st);
    }
  }

  lemma {:induction false} AllMissingCount(ds: seq<Option<real>>)
    requires forall k :: 0 <= k < |ds| ==> ds[k].None?
    ensures MissingCount(ds) == |ds|
  {
    if ds != [] {
      AllMissingCount(ds[1..]);
    }
  }

  /** Without a correction table the error is the plain difference of predicted and observed shift. */
  lemma UncorrectedDelta(ss: SpinSystem, res: Residue, atom: Atom, types: set<string>, o: real, p: real)
    requires Shift(ss.shifts, atom) == Some(o) && Shift(res.shifts, atom) == Some(p)
    ensures Delta(ss, res, atom, types, None) == Some(p - o)
  {
  }

  // ---------------------------------------------------------------------
  // The computation, one atom type at a time
  // ---------------------------------------------------------------------

  /** The matrix of one atom type's contributions in the independent model. */
  function AtomTermMatrix(obs: seq<SpinSystem>, preds: seq<Residue>, atom: Atom, types: set<string>, st: Settings): (m: seq<seq<real>>)
    // unpacks the definition for the solver
    ensures |m| == |obs| && forall i :: 0 <= i < |obs| ==> |m[i]| == |preds|
    ensures forall i, j :: 0 <= i < |obs| && 0 <= j < |preds| ==>
      m[i][j] == AtomTerm(Delta(obs[i], preds[j], atom, types, st.correction), atom, st)
  {
    seq(|obs|, i requires 0 <= i < |obs| => seq(|preds|, j requires 0 <= j < |preds| =>
      AtomTerm(Delta(obs[i], preds[j], atom, types, st.correction), atom, st)))
  }

  /** The matrix of one atom type's prediction errors. */
  function DeltaMatrix(obs: seq<SpinSystem>, preds: seq<Residue>, atom: Atom, types: set<string>, table: Option<CorrectionTable>): (m: seq<seq<Option<real>>>)
    // unpacks the definition for the solver
    ensures |m| == |obs| && forall i :: 0 <= i < |obs| ==> |m[i]| == |preds|
    ensures forall i, j :: 0 <= i < |obs| && 0 <= j < |preds| ==> m[i][j] == Delta(obs[i], preds[j], atom, types, table)
  {
    seq(|obs|, i requires 0 <= i < |obs| => seq(|preds|, j requires 0 <= j < |preds| =>
      Delta(obs[i], preds[j], atom, types, table)))
  }

  function AddCells(a: seq<seq<real>>, b: seq<seq<real>>, rows: nat, cols: nat): (r: seq<seq<real>>)
    requires |a| == rows && |b| == rows
    requires forall i :: 0 <= i < rows ==> |a[i]| == cols && |b[i]| == cols
    ensures |r| == rows && forall i :: 0 <= i < rows ==> |r[i]| == cols
    ensures forall i, j :: 0 <= i < rows && 0 <= j < cols ==> r[i][j] == a[i][j] + b[i][j]
  {
    seq(rows, i requires 0 <= i < rows => seq(cols, j requires 0 <= j < cols => a[i][j] + b[i][j]))
  }

  /** The correlated scores: the deltas of every atom are gathered first, then scored jointly per cell. */
  method CorrelatedCells(obs: seq<SpinSystem>, preds: seq<Residue>, atoms: seq<Atom>, types: set<string>, st: Settings)
    returns (cells: seq<seq<real>>)
    requires |obs| == |preds|
    ensures |cells| == |obs| && forall i :: 0 <= i < |obs| ==> |cells[i]| == |obs|
    ensures forall i, j :: 0 <= i < |obs| && 0 <= j < |obs| ==>
      cells[i][j] == CorrelatedScore(Deltas(obs[i], preds[j], atoms, types, st.correction), st)
  {
    var n := |obs|;
    var deltaList: seq<seq<seq<Option<real>>>> := [];
    for k := 0 to |atoms|
      invariant |deltaList| == k
      invariant forall t :: 0 <= t < k ==> deltaList[t] == DeltaMatrix(obs, preds, atoms[t], types, st.correction)
    {
      deltaList := deltaList + [DeltaMatrix(obs, preds, atoms[k], types, st.correction)];
    }
    cells := seq(n, i requires 0 <= i < n => seq(n, j requires 0 <= j < n =>
      CorrelatedScore(seq(|atoms|, t requires 0 <= t < |atoms| => deltaList[t][i][j]), st)));
    forall i, j | 0 <= i < n && 0 <= j < n
      ensures seq(|atoms|, t requires 0 <= t < |atoms| => deltaList[t][i][j]) == Deltas(obs[i], preds[j], atoms, types, st.correction)
    {
    }
  }

  /** The independent scores, accumulated one atom type at a time. */
  method IndependentCells(obs: seq<SpinSystem>, preds: seq<Residue>, atoms: seq<Atom>, types: set<string>, st: Settings)
    returns (cells: seq<seq<real>>)
    requires |obs| == |preds|
    ensures |cells| == |obs| && forall i :: 0 <= i < |obs| ==> |cells[i]| == |obs|
    ensures forall i, j :: 0 <= i < |obs| && 0 <= j < |obs| ==>
      cells[i][j] == IndependentScore(obs[i], preds[j], atoms, types, st)
  {
    var n := |obs|;
    cells := seq(n, i => seq(n, j => 0.0));
    for k := 0 to |atoms|
      invariant |cells| == n && forall i :: 0 <= i < n ==> |cells[i]| == n
      invariant forall i, j :: 0 <= i < n && 0 <= j < n ==>
        cells[i][j] == IndependentScore(obs[i], preds[j], atoms[..k], types, st)
    {
      cells := AddCells(cells, AtomTermMatrix(obs, preds, atoms[k], types, st), n, n);
      forall i, j | 0 <= i < n && 0 <= j < n
        ensures cells[i][j] == IndependentScore(obs[i], preds[j], atoms[..k + 1], types, st)
      {
        var f := Term(obs[i], preds[j], types, st);
        assert atoms[..k + 1] == atoms[..k] + [atoms[k]];
        TotalAppend(atoms[..k], [atoms[k]], f);
        assert Total([atoms[k]], f) == f(atoms[k]) by {
          assert [atoms[k]][1..] == [];
        }
      }
    }
    assert atoms[..|atoms|] == atoms;
  }

  /**
   * The score matrix, built as the source builds it: a zero matrix to which
   * each atom type's contribution is added in turn (or, in the correlated
   * model, whose per-atom error matrices are collected and combined at the
   * end), then dummy rows and columns are zeroed.  Fails on an empty matrix,
   * whose minimum is undefined.
   */
  method CalcLogProbMatrix(obs: seq<SpinSystem>, preds: seq<Residue>, atoms: seq<Atom>, st: Settings)
    returns (r: Result<Assignment.ScoreMatrix>)
    requires |obs| == |preds|
    ensures r.Failure? <==> |obs| == 0
    ensures r.Success? ==> r.value == LogProbMatrix(obs, preds, atoms, st)
  {
    var n := |obs|;
    var types := ResidueTypes(preds);
    var cells;
    if st.correlated {
      cells := CorrelatedCells(obs, preds, atoms, types, st);
    } else {
      cells := IndependentCells(obs, preds, atoms, types, st);
    }
    if n == 0 {
      return Failure("zero-size array: the minimum of an empty score matrix is undefined");
    }
    // Dummy spin systems and dummy residues score zero.
    cells := seq(n, i requires 0 <= i < n => seq(n, j requires 0 <= j < n =>
      if obs[i].dummy || preds[j].dummy then 0.0 else cells[i][j]));
    var m := Assignment.ScoreMatrix(SpinSystemNames(obs), ResidueNames(preds), cells);
    var spec := LogProbMatrix(obs, preds, atoms, st);
    forall i | 0 <= i < n ensures m.cells[i] == spec.cells[i] {
    }
    r := Success(m);
  }
}
