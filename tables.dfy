/**
 * The shift tables and their preparation: the observed spin systems, the
 * predicted residues, the derivation of the i-1 / i+1 columns from residue
 * numbers, and the preprocessing that removes prolines, restricts both tables
 * to the shared atom types, pads the shorter one with dummy rows and builds the
 * neighbour lookup.
 */
module ShiftTables {
  import opened Wrappers
  import Text

  /** A column name such as "CA" or "CB_m1". */
  type Atom = string

  /** One row's shift columns; `None` is a missing (NaN) shift. */
  type Shifts = map<Atom, Option<real>>

  /** Every atom-type column the program knows; other columns are metadata. */
  const AllAtoms: set<Atom> := {"H", "N", "HA", "C", "CA", "CB", "C_m1", "CA_m1", "CB_m1"}

  /** The carbons whose shift is also predicted for the preceding residue. */
  const Carbons: seq<Atom> := ["C", "CA", "CB"]

  const Proline: string := "P"

  /** An observed spin system. */
  datatype SpinSystem = SpinSystem(name: string, shifts: Shifts, dummy: bool)

  /** A predicted residue, with the names of its i-1 and i+1 residues. */
  datatype Residue = Residue(
    name: string,
    resN: Option<int>,
    resType: Option<string>,
    resTypeM1: Option<string>,
    shifts: Shifts,
    nameM1: Option<string>,
    nameP1: Option<string>,
    dummy: bool)

  /** A table: the set of its shift columns and its rows. */
  datatype ObsTable = ObsTable(columns: set<Atom>, rows: seq<SpinSystem>)
  datatype PredTable = PredTable(columns: set<Atom>, rows: seq<Residue>)

  ghost predicate ObsWellFormed(t: ObsTable) {
    forall i :: 0 <= i < |t.rows| ==> t.rows[i].shifts.Keys == t.columns
  }

  ghost predicate PredWellFormed(t: PredTable) {
    forall i :: 0 <= i < |t.rows| ==> t.rows[i].shifts.Keys == t.columns
  }

  /** The names of the residues of a table. */
  function PredNames(rows: seq<Residue>): (s: set<string>)
    ensures forall i :: 0 <= i < |rows| ==> rows[i].name in s
    ensures forall x :: x in s ==> exists i :: 0 <= i < |rows| && rows[i].name == x
  {
    set i | 0 <= i < |rows| :: rows[i].name
  }

  // ---------------------------------------------------------------------
  // i-1 and i+1 columns derived from residue numbers (import_pred_shifts)
  // ---------------------------------------------------------------------

  /** A predicted residue as read from a prediction file, before the i-1 columns exist. */
  datatype RawResidue = RawResidue(resType: string, shifts: Shifts)

  function PadLeft(s: string, width: nat): (r: string)
    ensures |r| == if |s| < width then width else |s|
    ensures r[|r| - |s|..] == s
    ensures forall k :: 0 <= k < |r| - |s| ==> r[k] == ' '
  {
    if |s| < width then seq(width - |s|, _ => ' ') + s else s
  }

  /** The residue name: number then type, left-padded with spaces to width 5. */
  function ResName(resN: int, resType: string): string {
    PadLeft(Text.IntToString(resN) + resType, 5)
  }

  /**
   * Residues with different numbers get different names, whatever their
   * type: a numeral never starts with a space, so the padding can be
   * stripped, and the type is the same suffix on both sides.
   */
  lemma ResNameInjective(m: int, n: int, resType: string)
    requires ResName(m, resType) == ResName(n, resType)
    ensures m == n
  {
    var s1, s2 := Text.IntToString(m) + resType, Text.IntToString(n) + resType;
    var r := ResName(m, resType);
    var p1, p2 := |r| - |s1|, |r| - |s2|;
    assert r[p1] == s1[0] != ' ';
    assert r[p2] == s2[0] != ' ';
    assert p1 == p2;
    assert s1 == r[p1..] == s2;
    assert Text.IntToString(m) == s1[..|s1| - |resType|] == Text.IntToString(n);
    Text.IntToStringInjective(m, n);
  }

  /** The shift of `atom` in the residue numbered `n`, missing when there is no such residue. */
  function ShiftOf(raw: map<int, RawResidue>, n: int, atom: Atom): Option<real> {
    if n in raw && atom in raw[n].shifts then raw[n].shifts[atom] else None
  }

  function NameOf(raw: map<int, RawResidue>, n: int): Option<string> {
    if n in raw then Some(ResName(n, raw[n].resType)) else None
  }

  function TypeOf(raw: map<int, RawResidue>, n: int): Option<string> {
    if n in raw then Some(raw[n].resType) else None
  }

  /** The C_m1, CA_m1 and CB_m1 columns of residue n, for the carbons the file has. */
  function M1Shifts(raw: map<int, RawResidue>, n: int, columns: set<Atom>): (s: Shifts)
    ensures forall c :: c in Carbons && c in columns ==> c + "_m1" in s && s[c + "_m1"] == ShiftOf(raw, n - 1, c)
    ensures forall a :: a in s ==> exists c :: c in Carbons && c in columns && a == c + "_m1"
  {
    assert forall c :: c in Carbons <==> c == "C" || c == "CA" || c == "CB";
    assert "C" + "_m1" == "C_m1" && "CA" + "_m1" == "CA_m1" && "CB" + "_m1" == "CB_m1";
    (if "C" in columns then map["C_m1" := ShiftOf(raw, n - 1, "C")] else map[])
    + (if "CA" in columns then map["CA_m1" := ShiftOf(raw, n - 1, "CA")] else map[])
    + (if "CB" in columns then map["CB_m1" := ShiftOf(raw, n - 1, "CB")] else map[])
  }

  /**
   * The wide prediction table keyed by residue number: every residue gets the
   * C, CA and CB shifts of residue number n-1 as C_m1, CA_m1, CB_m1 (for the
   * carbon columns the file has), the type and name of residue n-1 and the name
   * of residue n+1; the shift columns are then restricted to the known atoms.
   */
  function AddNeighbourColumns(raw: map<int, RawResidue>, columns: set<Atom>): (preds: map<int, Residue>)
    ensures preds.Keys == raw.Keys
  {
    map n | n in raw :: WithNeighbours(raw, n, columns)
  }

  /** Residue n with its i-1 and i+1 columns. */
  function WithNeighbours(raw: map<int, RawResidue>, n: int, columns: set<Atom>): Residue
    requires n in raw
  {
    Residue(
      ResName(n, raw[n].resType),
      Some(n),
      Some(raw[n].resType),
      TypeOf(raw, n - 1),
      Restrict(raw[n].shifts, AllAtoms) + M1Shifts(raw, n, columns),
      NameOf(raw, n - 1),
      NameOf(raw, n + 1),
      false)
  }

  /** Residue numbers with the file offset added. */
  function ApplyOffset(raw: map<int, RawResidue>, offset: int): (r: map<int, RawResidue>)
    ensures forall n :: n in raw <==> n + offset in r
    ensures forall n :: n in raw ==> r[n + offset] == raw[n]
  {
    var keys := set n | n in raw :: n + offset;
    map k | k in keys :: raw[k - offset]
  }

  /**
   * The neighbour columns are consistent in both directions: residue n names
   * residue n-1 as its predecessor exactly when n-1 exists, and then that
   * residue names n as its successor and its type is n's i-1 type; residue n
   * names a successor exactly when n+1 exists, and it is that residue.
   */
  lemma NeighbourColumnsLinked(raw: map<int, RawResidue>, columns: set<Atom>, n: int)
    requires n in raw
    ensures var preds := AddNeighbourColumns(raw, columns);
      && (preds[n].nameM1.Some? <==> n - 1 in raw)
      && (n - 1 in raw ==>
            && preds[n].nameM1 == Some(preds[n - 1].name)
            && preds[n - 1].nameP1 == Some(preds[n].name)
            && preds[n].resTypeM1 == preds[n - 1].resType)
      && (preds[n].nameP1.Some? <==> n + 1 in raw)
      && (n + 1 in raw ==> preds[n].nameP1 == Some(preds[n + 1].name))
  {
    var preds := AddNeighbourColumns(raw, columns);
    assert preds[n] == WithNeighbours(raw, n, columns);
    if n - 1 in raw {
      assert preds[n - 1] == WithNeighbours(raw, n - 1, columns);
    }
    if n + 1 in raw {
      assert preds[n + 1] == WithNeighbours(raw, n + 1, columns);
    }
  }

  /** The i-1 carbon shifts of residue n are the own shifts of residue n-1, missing when there is none. */
  lemma NeighbourShiftsLinked(raw: map<int, RawResidue>, columns: set<Atom>, n: int, c: Atom)
    requires n in raw && c in Carbons && c in columns
    requires forall m :: m in raw ==> raw[m].shifts.Keys == columns
    ensures var preds := AddNeighbourColumns(raw, columns);
      && c + "_m1" in preds[n].shifts
      && preds[n].shifts[c + "_m1"] == (if n - 1 in raw then raw[n - 1].shifts[c] else None)
  {
    var preds := AddNeighbourColumns(raw, columns);
    var m1 := M1Shifts(raw, n, columns);
    assert preds[n] == WithNeighbours(raw, n, columns);
    assert c + "_m1" in m1;
  }

  // ---------------------------------------------------------------------
  // prepare_obs_preds
  // ---------------------------------------------------------------------

  /** The residues other than prolines, in their original order. */
  function DropProlines(rows: seq<Residue>): (r: seq<Residue>)
    ensures |r| <= |rows|
    ensures forall x :: x in r <==> x in rows && x.resType != Some(Proline)
  {
    if rows == [] then []
    else if rows[0].resType == Some(Proline) then DropProlines(rows[1..])
    else [rows[0]] + DropProlines(rows[1..])
  }

  /**
   * DropProlines is the order-preserving filter: it distributes over
   * concatenation, keeps a single non-proline residue and drops a single
   * proline.  With `DropProlines([]) == []` these three facts determine the
   * result of every table, duplicates and order included.
   */
  lemma {:induction false} DropProlinesAppend(a: seq<Residue>, b: seq<Residue>)
    ensures DropProlines(a + b) == DropProlines(a) + DropProlines(b)
    decreases |a|
  {
    if a != [] {
      assert (a + b)[0] == a[0];
      assert (a + b)[1..] == a[1..] + b;
      DropProlinesAppend(a[1..], b);
    } else {
      assert a + b == b;
    }
  }

  lemma DropProlinesSingle(x: Residue)
    ensures DropProlines([x]) == if x.resType == Some(Proline) then [] else [x]
  {
    assert [x][1..] == [];
  }

  /** The columns a table keeps: its metadata columns and the shared atom types. */
  function KeptColumns(columns: set<Atom>, shared: set<Atom>): set<Atom> {
    (columns - AllAtoms) + (shared * columns)
  }

  function Restrict(s: Shifts, keep: set<Atom>): (r: Shifts)
    ensures r.Keys == s.Keys * keep
    ensures forall a :: a in r ==> r[a] == s[a]
  {
    map a | a in s && a in keep :: s[a]
  }

  function NoShifts(columns: set<Atom>): (s: Shifts)
    ensures s.Keys == columns
    ensures forall a :: a in s ==> s[a] == None
  {
    map a | a in columns :: None
  }

  function DummyResidue(i: nat, columns: set<Atom>): Residue {
    Residue("DR_" + Text.NatToString(i), None, None, None, NoShifts(columns), None, None, true)
  }

  function DummySpinSystem(i: nat, columns: set<Atom>): SpinSystem {
    SpinSystem("DSS_" + Text.NatToString(i), NoShifts(columns), true)
  }

  /** The residues of a table, restricted to `keep` and marked as real. */
  function RealResidues(rows: seq<Residue>, keep: set<Atom>): (r: seq<Residue>)
    // unpacks the definition for the solver
    ensures |r| == |rows|
    ensures forall i :: 0 <= i < |r| ==> r[i] == rows[i].(shifts := Restrict(rows[i].shifts, keep), dummy := false)
  {
    seq(|rows|, i requires 0 <= i < |rows| => rows[i].(shifts := Restrict(rows[i].shifts, keep), dummy := false))
  }

  function RealSpinSystems(rows: seq<SpinSystem>, keep: set<Atom>): (r: seq<SpinSystem>)
    // unpacks the definition for the solver
    ensures |r| == |rows|
    ensures forall i :: 0 <= i < |r| ==> r[i] == rows[i].(shifts := Restrict(rows[i].shifts, keep), dummy := false)
  {
    seq(|rows|, i requires 0 <= i < |rows| => rows[i].(shifts := Restrict(rows[i].shifts, keep), dummy := false))
  }

  function DummyResidues(count: nat, columns: set<Atom>): (d: seq<Residue>)
    ensures |d| == count
  {
    seq(count, i requires 0 <= i < count => DummyResidue(i + 1, columns))
  }

  function DummySpinSystems(count: nat, columns: set<Atom>): (d: seq<SpinSystem>)
    ensures |d| == count
  {
    seq(count, i requires 0 <= i < count => DummySpinSystem(i + 1, columns))
  }

  /** The residues, followed by DR_1, DR_2, ... until there are `target` of them. */
  function PadResidues(rows: seq<Residue>, target: nat, columns: set<Atom>): (r: seq<Residue>)
    ensures |r| == if target > |rows| then target else |rows|
    ensures forall i :: 0 <= i < |rows| ==> r[i] == rows[i]
    ensures forall i :: |rows| <= i < |r| ==> r[i] == DummyResidue(i - |rows| + 1, columns)
  {
    if target > |rows| then rows + DummyResidues(target - |rows|, columns) else rows
  }

  /** The spin systems, followed by DSS_1, DSS_2, ... until there are `target` of them. */
  function PadSpinSystems(rows: seq<SpinSystem>, target: nat, columns: set<Atom>): (r: seq<SpinSystem>)
    ensures |r| == if target > |rows| then target else |rows|
    ensures forall i :: 0 <= i < |rows| ==> r[i] == rows[i]
    ensures forall i :: |rows| <= i < |r| ==> r[i] == DummySpinSystem(i - |rows| + 1, columns)
  {
    if target > |rows| then rows + DummySpinSystems(target - |rows|, columns) else rows
  }

  /** One entry of the neighbour lookup, indexed by residue name. */
  datatype Neighbour = Neighbour(res: string, m1: Option<string>, p1: Option<string>)

  /** Keeps a neighbour name only when it names a residue of the table. */
  function Surviving(name: Option<string>, names: set<string>): Option<string> {
    if name.Some? && name.value in names then name else None
  }

  function NeighbourLookup(rows: seq<Residue>): (nb: seq<Neighbour>)
    ensures |nb| == |rows|
  {
    var names := PredNames(rows);
    seq(|rows|, i requires 0 <= i < |rows| =>
      Neighbour(rows[i].name, Surviving(rows[i].nameM1, names), Surviving(rows[i].nameP1, names)))
  }

  datatype Prepared = Prepared(obs: ObsTable, preds: PredTable, neighbours: seq<Neighbour>)

  /** The atom types that are configured and present in both tables. */
  function SharedAtoms(atomSet: set<Atom>, obs: ObsTable, preds: PredTable): set<Atom> {
    atomSet * obs.columns * preds.columns
  }

  /** prepare_obs_preds as one value-level step. */
  function PrepareObsPreds(obs: ObsTable, preds: PredTable, atomSet: set<Atom>): Prepared {
    var shared := SharedAtoms(atomSet, obs, preds);
    var obsCols := KeptColumns(obs.columns, shared);
    var predCols := KeptColumns(preds.columns, shared);
    var obsRows := RealSpinSystems(obs.rows, obsCols);
    var predRows := RealResidues(DropProlines(preds.rows), predCols);
    var paddedPreds := PadResidues(predRows, |obsRows|, predCols);
    Prepared(
      ObsTable(obsCols, PadSpinSystems(obsRows, |predRows|, obsCols)),
      PredTable(predCols, paddedPreds),
      NeighbourLookup(paddedPreds))
  }

  /** After preparation both tables have the same number of rows. */
  lemma PreparedBalanced(obs: ObsTable, preds: PredTable, atomSet: set<Atom>)
    ensures var p := PrepareObsPreds(obs, preds, atomSet);
      |p.obs.rows| == |p.preds.rows| == |p.neighbours|
      && |p.obs.rows| == if |obs.rows| > |DropProlines(preds.rows)| then |obs.rows| else |DropProlines(preds.rows)|
  {
  }

  /**
   * The padding: with more spin systems than (non-proline) residues, the
   * residues DR_1..DR_k are appended and the spin systems are unchanged in
   * number; with more residues, DSS_1..DSS_k are appended to the spin systems;
   * only the added rows are dummies.
   */
  lemma PreparedResiduePadding(obs: ObsTable, preds: PredTable, atomSet: set<Atom>)
    ensures var r := PrepareObsPreds(obs, preds, atomSet).preds.rows;
      var m := |DropProlines(preds.rows)|;
      && (forall i :: 0 <= i < |r| ==> (r[i].dummy <==> i >= m))
      && (forall i :: m <= i < |r| ==> r[i].name == "DR_" + Text.NatToString(i - m + 1))
      && (forall i :: 0 <= i < m ==> r[i].name == DropProlines(preds.rows)[i].name)
  {
    var p := PrepareObsPreds(obs, preds, atomSet);
    ResiduesPadded(preds.rows, |obs.rows|, KeptColumns(preds.columns, SharedAtoms(atomSet, obs, preds)), p.preds.rows);
  }

  lemma PreparedSpinSystemPadding(obs: ObsTable, preds: PredTable, atomSet: set<Atom>)
    ensures var r := PrepareObsPreds(obs, preds, atomSet).obs.rows;
      var n := |obs.rows|;
      && (forall i :: 0 <= i < |r| ==> (r[i].dummy <==> i >= n))
      && (forall i :: n <= i < |r| ==> r[i].name == "DSS_" + Text.NatToString(i - n + 1))
      && (forall i :: 0 <= i < n ==> r[i].name == obs.rows[i].name)
  {
    var p := PrepareObsPreds(obs, preds, atomSet);
    SpinSystemsPadded(obs.rows, |DropProlines(preds.rows)|, KeptColumns(obs.columns, SharedAtoms(atomSet, obs, preds)), p.obs.rows);
  }

  lemma ResiduesPadded(rows: seq<Residue>, target: nat, cols: set<Atom>, r: seq<Residue>)
    requires r == PadResidues(RealResidues(DropProlines(rows), cols), target, cols)
    ensures var m := |DropProlines(rows)|;
      && (forall i :: 0 <= i < |r| ==> (r[i].dummy <==> i >= m))
      && (forall i :: m <= i < |r| ==> r[i].name == "DR_" + Text.NatToString(i - m + 1))
      && (forall i :: 0 <= i < m ==> r[i].name == DropProlines(rows)[i].name)
  {
  }

  lemma SpinSystemsPadded(rows: seq<SpinSystem>, target: nat, cols: set<Atom>, r: seq<SpinSystem>)
    requires r == PadSpinSystems(RealSpinSystems(rows, cols), target, cols)
    ensures var n := |rows|;
      && (forall i :: 0 <= i < |r| ==> (r[i].dummy <==> i >= n))
      && (forall i :: n <= i < |r| ==> r[i].name == "DSS_" + Text.NatToString(i - n + 1))
      && (forall i :: 0 <= i < n ==> r[i].name == rows[i].name)
  {
  }

  /** Padding an already balanced pair of tables adds nothing. */
  lemma BalancedTablesNotPadded(obs: ObsTable, preds: PredTable, atomSet: set<Atom>)
    requires |obs.rows| == |DropProlines(preds.rows)|
    ensures var p := PrepareObsPreds(obs, preds, atomSet);
      && |p.obs.rows| == |obs.rows|
      && (forall i :: 0 <= i < |p.obs.rows| ==> !p.obs.rows[i].dummy)
      && (forall i :: 0 <= i < |p.preds.rows| ==> !p.preds.rows[i].dummy)
  {
  }

  /** The dummy names generated by one padding are pairwise distinct. */
  lemma DummyNamesDistinct(i: nat, j: nat, columns: set<Atom>)
    requires i != j
    ensures DummyResidue(i, columns).name != DummyResidue(j, columns).name
    ensures DummySpinSystem(i, columns).name != DummySpinSystem(j, columns).name
  {
    if DummyResidue(i, columns).name == DummyResidue(j, columns).name {
      assert Text.NatToString(i) == DummyResidue(i, columns).name[3..];
      Text.NatToStringInjective(i, j);
    }
    if DummySpinSystem(i, columns).name == DummySpinSystem(j, columns).name {
      assert Text.NatToString(i) == DummySpinSystem(i, columns).name[4..];
      Text.NatToStringInjective(i, j);
    }
  }

  /** No proline remains among the prepared residues. */
  lemma PreparedHasNoProline(obs: ObsTable, preds: PredTable, atomSet: set<Atom>)
    ensures var p := PrepareObsPreds(obs, preds, atomSet);
      forall i :: 0 <= i < |p.preds.rows| ==> p.preds.rows[i].resType != Some(Proline)
  {
    var noPro := DropProlines(preds.rows);
    forall i | 0 <= i < |noPro| ensures noPro[i].resType != Some(Proline) {
      assert noPro[i] in noPro;
    }
  }

  /**
   * Both prepared tables carry exactly their own metadata columns and the
   * shared atom types, and every row's shifts are over those columns.
   */
  lemma PreparedColumns(obs: ObsTable, preds: PredTable, atomSet: set<Atom>)
    requires ObsWellFormed(obs) && PredWellFormed(preds)
    ensures var p := PrepareObsPreds(obs, preds, atomSet);
      var shared := SharedAtoms(atomSet, obs, preds);
      && p.obs.columns == (obs.columns - AllAtoms) + shared
      && p.preds.columns == (preds.columns - AllAtoms) + shared
      && p.obs.columns * AllAtoms == shared * AllAtoms
      && p.preds.columns * AllAtoms == shared * AllAtoms
      && ObsWellFormed(p.obs) && PredWellFormed(p.preds)
  {
    var noPro := DropProlines(preds.rows);
    forall i | 0 <= i < |noPro| ensures noPro[i].shifts.Keys == preds.columns {
      assert noPro[i] in preds.rows;
    }
  }

  /**
   * The real rows keep their order, their names and their metadata, lose only
   * the dropped atom columns, and are not dummies.
   */
  lemma PreparedRowsKept(obs: ObsTable, preds: PredTable, atomSet: set<Atom>)
    ensures var p := PrepareObsPreds(obs, preds, atomSet);
      var noPro := DropProlines(preds.rows);
      && (forall i :: 0 <= i < |obs.rows| ==>
            p.obs.rows[i] == obs.rows[i].(shifts := Restrict(obs.rows[i].shifts, p.obs.columns), dummy := false))
      && (forall i :: 0 <= i < |noPro| ==>
            p.preds.rows[i] == noPro[i].(shifts := Restrict(noPro[i].shifts, p.preds.columns), dummy := false))
  {
  }

  /**
   * The neighbour lookup keeps an i-1 / i+1 name exactly when it is the name of
   * a prepared residue; every other entry is missing.
   */
  lemma NeighboursSurvive(obs: ObsTable, preds: PredTable, atomSet: set<Atom>, i: nat)
    requires i < |PrepareObsPreds(obs, preds, atomSet).neighbours|
    ensures var p := PrepareObsPreds(obs, preds, atomSet);
      var nb := p.neighbours[i];
      var names := PredNames(p.preds.rows);
      && nb.res == p.preds.rows[i].name
      && (nb.m1.Some? <==> p.preds.rows[i].nameM1.Some? && p.preds.rows[i].nameM1.value in names)
      && (nb.m1.Some? ==> nb.m1 == p.preds.rows[i].nameM1)
      && (nb.p1.Some? <==> p.preds.rows[i].nameP1.Some? && p.preds.rows[i].nameP1.value in names)
      && (nb.p1.Some? ==> nb.p1 == p.preds.rows[i].nameP1)
  {
  }
}
