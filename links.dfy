/**
 * Sequential links between spin systems (calc_mismatch_matrix): for a pair
 * (a, b) of spin systems, read as "a is residue i-1 and b is residue i",
 * each carbon observed both as an i shift and as an i-1 shift is compared:
 * a's own shift against b's i-1 shift.  The mismatch is the largest absolute
 * difference and the link count the number of carbons that agree to within
 * the threshold.
 */
module Links {
  import opened Wrappers
  import opened ShiftTables
  import Scores

  /** The i-1 column of a carbon. */
  function M1(atom: Atom): Atom {
    atom + "_m1"
  }

  /** The carbons, in their fixed order, observed both as i and as i-1 shifts. */
  function SeqAtoms(columns: set<Atom>): (r: seq<Atom>)
    ensures forall a :: a in r <==> a in Carbons && a in columns && M1(a) in columns
    ensures |r| <= 3
  {
    var keep := seq(3, k requires 0 <= k < 3 => Carbons[k] in columns && M1(Carbons[k]) in columns);
    (if keep[0] then ["C"] else []) + (if keep[1] then ["CA"] else []) + (if keep[2] then ["CB"] else [])
  }

  /** The difference between a's shift and b's i-1 shift for one carbon; None when either is missing. */
  function Difference(a: SpinSystem, b: SpinSystem, atom: Atom): Option<real> {
    var x := Scores.Shift(a.shifts, atom);
    var y := Scores.Shift(b.shifts, M1(atom));
    if x.Some? && y.Some? then Some(x.value - y.value) else None
  }

  function Abs(x: real): (r: real)
    ensures r >= 0.0 && (r == x || r == -x)
  {
    if x < 0.0 then -x else x
  }

  function Max(x: real, y: real): (r: real)
    ensures r >= x && r >= y && (r == x || r == y)
  {
    if x < y then y else x
  }

  /** The largest absolute difference over the carbons; missing differences count as zero. */
  function Mismatch(a: SpinSystem, b: SpinSystem, atoms: seq<Atom>): (r: real)
    ensures r >= 0.0
    decreases |atoms|
  {
    if atoms == [] then 0.0
    else
      var d := Difference(a, b, atoms[|atoms| - 1]);
      Max(Mismatch(a, b, atoms[..|atoms| - 1]), if d.Some? then Abs(d.value) else 0.0)
  }

  predicate Agrees(d: Option<real>, threshold: real) {
    d.Some? && Abs(d.value) < threshold
  }

  /** The number of carbons whose difference is below the threshold. */
  function LinkCount(a: SpinSystem, b: SpinSystem, atoms: seq<Atom>, threshold: real): (n: nat)
    ensures n <= |atoms|
    decreases |atoms|
  {
    if atoms == [] then 0
    else LinkCount(a, b, atoms[..|atoms| - 1], threshold) + (if Agrees(Difference(a, b, atoms[|atoms| - 1]), threshold) then 1 else 0)
  }

  /** The number of carbons with both shifts present. */
  function PresentCount(a: SpinSystem, b: SpinSystem, atoms: seq<Atom>): (n: nat)
    ensures n <= |atoms|
    decreases |atoms|
  {
    if atoms == [] then 0
    else PresentCount(a, b, atoms[..|atoms| - 1]) + (if Difference(a, b, atoms[|atoms| - 1]).Some? then 1 else 0)
  }

  /** The mismatch and link-count matrices, rows (i-1) and columns (i) both labelled by the spin systems. */
  datatype SeqLinks = SeqLinks(names: seq<string>, mismatch: seq<seq<real>>, links: seq<seq<nat>>)

  ghost predicate Shaped(t: SeqLinks) {
    && |t.mismatch| == |t.names| && |t.links| == |t.names|
    && forall i :: 0 <= i < |t.names| ==> |t.mismatch[i]| == |t.names| && |t.links[i]| == |t.names|
  }

  /** The matrices for a table of spin systems. */
  function SeqLinksOf(obs: seq<SpinSystem>, atoms: seq<Atom>, threshold: real): (t: SeqLinks)
    ensures Shaped(t) && t.names == Scores.SpinSystemNames(obs)
    ensures forall i, j :: 0 <= i < |obs| && 0 <= j < |obs| ==>
      t.mismatch[i][j] == Mismatch(obs[i], obs[j], atoms) && t.links[i][j] == LinkCount(obs[i], obs[j], atoms, threshold)
  {
    SeqLinks(Scores.SpinSystemNames(obs),
      seq(|obs|, i requires 0 <= i < |obs| => seq(|obs|, j requires 0 <= j < |obs| => Mismatch(obs[i], obs[j], atoms))),
      seq(|obs|, i requires 0 <= i < |obs| => seq(|obs|, j requires 0 <= j < |obs| => LinkCount(obs[i], obs[j], atoms, threshold))))
  }

  // ---------------------------------------------------------------------
  // Properties
  // ---------------------------------------------------------------------

  /**
   * The mismatch is below the threshold exactly when every carbon present
   * on both sides is a consistent link.
   */
  lemma {:induction false} SmallMismatchIffAllLinked(a: SpinSystem, b: SpinSystem, atoms: seq<Atom>, threshold: real)
    requires threshold > 0.0
    ensures Mismatch(a, b, atoms) < threshold <==> LinkCount(a, b, atoms, threshold) == PresentCount(a, b, atoms)
    decreases |atoms|
  {
    if atoms != [] {
      var init := atoms[..|atoms| - 1];
      SmallMismatchIffAllLinked(a, b, init, threshold);
      LinksAtMostPresent(a, b, init, threshold);
    }
  }

  lemma {:induction false} LinksAtMostPresent(a: SpinSystem, b: SpinSystem, atoms: seq<Atom>, threshold: real)
    ensures LinkCount(a, b, atoms, threshold) <= PresentCount(a, b, atoms)
    decreases |atoms|
  {
    if atoms != [] {
      LinksAtMostPresent(a, b, atoms[..|atoms| - 1], threshold);
    }
  }

  /** A spin system without shifts (a dummy) has no mismatch and no links with any other, on either side. */
  lemma {:induction false} NoShiftsNoLinks(a: SpinSystem, b: SpinSystem, atoms: seq<Atom>, threshold: real)
    requires forall x :: x in a.shifts ==> a.shifts[x].None?
    ensures Mismatch(a, b, atoms) == 0.0 && LinkCount(a, b, atoms, threshold) == 0
    ensures Mismatch(b, a, atoms) == 0.0 && LinkCount(b, a, atoms, threshold) == 0
    decreases |atoms|
  {
    if atoms != [] {
      NoShiftsNoLinks(a, b, atoms[..|atoms| - 1], threshold);
    }
  }

  // ---------------------------------------------------------------------
  // The computation, one carbon at a time
  // ---------------------------------------------------------------------

  function MaxCells(a: seq<seq<real>>, b: seq<seq<real>>, n: nat): (r: seq<seq<real>>)
    requires |a| == n && |b| == n && forall i :: 0 <= i < n ==> |a[i]| == n && |b[i]| == n
    ensures |r| == n && forall i :: 0 <= i < n ==> |r[i]| == n
    ensures forall i, j :: 0 <= i < n && 0 <= j < n ==> r[i][j] == Max(a[i][j], b[i][j])
  {
    seq(n, i requires 0 <= i < n => seq(n, j requires 0 <= j < n => Max(a[i][j], b[i][j])))
  }

  function AddCounts(a: seq<seq<nat>>, b: seq<seq<nat>>, n: nat): (r: seq<seq<nat>>)
    requires |a| == n && |b| == n && forall i :: 0 <= i < n ==> |a[i]| == n && |b[i]| == n
    ensures |r| == n && forall i :: 0 <= i < n ==> |r[i]| == n
    ensures forall i, j :: 0 <= i < n && 0 <= j < n ==> r[i][j] == a[i][j] + b[i][j]
  {
    seq(n, i requires 0 <= i < n => seq(n, j requires 0 <= j < n => a[i][j] + b[i][j]))
  }

  /** The absolute differences for one carbon, missing ones as zero. */
  function AbsDifferences(rows: seq<SpinSystem>, atom: Atom): (r: seq<seq<real>>)
    ensures |r| == |rows| && forall i :: 0 <= i < |rows| ==> |r[i]| == |rows|
    ensures forall i, j :: 0 <= i < |rows| && 0 <= j < |rows| ==>
      r[i][j] == var d := Difference(rows[i], rows[j], atom); if d.Some? then Abs(d.value) else 0.0
  {
    seq(|rows|, i requires 0 <= i < |rows| => seq(|rows|, j requires 0 <= j < |rows| =>
      var d := Difference(rows[i], rows[j], atom); if d.Some? then Abs(d.value) else 0.0))
  }

  /** One for each pair that agrees on one carbon, zero otherwise. */
  function Agreements(rows: seq<SpinSystem>, atom: Atom, threshold: real): (r: seq<seq<nat>>)
    ensures |r| == |rows| && forall i :: 0 <= i < |rows| ==> |r[i]| == |rows|
    ensures forall i, j :: 0 <= i < |rows| && 0 <= j < |rows| ==>
      r[i][j] == if Agrees(Difference(rows[i], rows[j], atom), threshold) then 1 else 0
  {
    seq(|rows|, i requires 0 <= i < |rows| => seq(|rows|, j requires 0 <= j < |rows| =>
      if Agrees(Difference(rows[i], rows[j], atom), threshold) then 1 else 0))
  }

  /** Matrices that agree with the definitions cell by cell are the specified ones. */
  lemma SameLinks(rows: seq<SpinSystem>, atoms: seq<Atom>, threshold: real, t: SeqLinks)
    requires t.names == Scores.SpinSystemNames(rows)
    requires |t.mismatch| == |rows| && |t.links| == |rows|
    requires forall i :: 0 <= i < |rows| ==> |t.mismatch[i]| == |rows| && |t.links[i]| == |rows|
    requires forall i, j :: 0 <= i < |rows| && 0 <= j < |rows| ==>
      t.mismatch[i][j] == Mismatch(rows[i], rows[j], atoms) && t.links[i][j] == LinkCount(rows[i], rows[j], atoms, threshold)
    ensures t == SeqLinksOf(rows, atoms, threshold)
  {
    var spec := SeqLinksOf(rows, atoms, threshold);
    assert forall i :: 0 <= i < |rows| ==> t.mismatch[i] == spec.mismatch[i] && t.links[i] == spec.links[i];
  }

  /** Taking one more carbon into account. */
  lemma CarbonStep(a: SpinSystem, b: SpinSystem, atoms: seq<Atom>, k: nat, threshold: real)
    requires k < |atoms|
    ensures var d := Difference(a, b, atoms[k]);
      Mismatch(a, b, atoms[..k + 1]) == Max(Mismatch(a, b, atoms[..k]), if d.Some? then Abs(d.value) else 0.0)
    ensures LinkCount(a, b, atoms[..k + 1], threshold) == LinkCount(a, b, atoms[..k], threshold) + (if Agrees(Difference(a, b, atoms[k]), threshold) then 1 else 0)
  {
    assert atoms[..k + 1][..k] == atoms[..k];
  }

  /** The running maximum of the absolute differences and the running count of agreements, carbon by carbon. */
  method Accumulate(rows: seq<SpinSystem>, atoms: seq<Atom>, threshold: real) returns (mismatch: seq<seq<real>>, links: seq<seq<nat>>)
    ensures |mismatch| == |rows| && |links| == |rows|
    ensures forall i :: 0 <= i < |rows| ==> |mismatch[i]| == |rows| && |links[i]| == |rows|
    ensures forall i, j :: 0 <= i < |rows| && 0 <= j < |rows| ==>
      mismatch[i][j] == Mismatch(rows[i], rows[j], atoms) && links[i][j] == LinkCount(rows[i], rows[j], atoms, threshold)
  {
    var n := |rows|;
    mismatch := seq(n, i => seq(n, j => 0.0));
    links := seq(n, i => seq(n, j => 0));
    for k := 0 to |atoms|
      invariant |mismatch| == n && |links| == n
      invariant forall i :: 0 <= i < n ==> |mismatch[i]| == n && |links[i]| == n
      invariant forall i, j :: 0 <= i < n && 0 <= j < n ==>
        mismatch[i][j] == Mismatch(rows[i], rows[j], atoms[..k]) && links[i][j] == LinkCount(rows[i], rows[j], atoms[..k], threshold)
    {
      var absDiff := AbsDifferences(rows, atoms[k]);
      var agree := Agreements(rows, atoms[k], threshold);
      forall i, j | 0 <= i < n && 0 <= j < n {
        CarbonStep(rows[i], rows[j], atoms, k, threshold);
      }
      mismatch := MaxCells(mismatch, absDiff, n);
      links := AddCounts(links, agree, n);
    }
    assert atoms[..|atoms|] == atoms;
  }

  /**
   * Both matrices, accumulated carbon by carbon as the source does (the
   * running maximum of the absolute differences and the running count of
   * agreements); None when no carbon is observed as both an i and an i-1
   * shift.
   */
  method CalcMismatchMatrix(obs: ObsTable, threshold: real) returns (r: Option<SeqLinks>)
    ensures r.None? <==> SeqAtoms(obs.columns) == []
    ensures r.Some? ==> r.value == SeqLinksOf(obs.rows, SeqAtoms(obs.columns), threshold)
  {
    var atoms := SeqAtoms(obs.columns);
    if atoms == [] {
      return None;
    }
    var mismatch, links := Accumulate(obs.rows, atoms, threshold);
    r := Some(SeqLinks(Scores.SpinSystemNames(obs.rows), mismatch, links));
    SameLinks(obs.rows, atoms, threshold, r.value);
  }
}
