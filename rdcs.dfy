/**
 * The residual dipolar coupling (RDC) helpers: the three- and one-letter
 * amino-acid code tables, the clean-up of an RDC restraint table, the
 * measured-minus-predicted magnitude matrix and the cell-wise addition of
 * two penalty tables.  A table is a set of named columns of equal height,
 * whose cells are text or NaN.
 */
module Rdcs {
  import opened Wrappers
  import Assignment

  /** A table cell: text or NaN. */
  datatype Value = Text(s: string) | NaN

  // ---------------------------------------------------------------------
  // Amino-acid code tables (translations_3_1_protein)
  // ---------------------------------------------------------------------

  /** The keys of the three-to-one table, in the order of its items. */
  const Threes: seq<string> := [
    "ALA", "ARG", "ASN", "ASP", "CYS", "GLU", "GLN", "GLY", "HIS", "ILE",
    "LEU", "LYS", "MET", "PHE", "PRO", "SER", "THR", "TRP", "TYR", "VAL"]

  /** The one-letter code of each of them. */
  const Ones: seq<string> := [
    "A", "R", "N", "D", "C", "E", "Q", "G", "H", "I",
    "L", "K", "M", "F", "P", "S", "T", "W", "Y", "V"]

  /** No three-letter code occurs twice. */
  lemma ThreesDistinct()
    ensures Assignment.Distinct(Threes)
  {
    var t := Threes;
    forall i, j | 0 <= i < j < 20 ensures t[i] != t[j] {
      assert t[i][0] != t[j][0] || t[i][1] != t[j][1] || t[i][2] != t[j][2];
    }
  }

  /** No one-letter code occurs twice. */
  lemma OnesDistinct()
    ensures Assignment.Distinct(Ones)
  {
    var o := Ones;
    forall i, j | 0 <= i < j < 20 ensures o[i] != o[j] {
      assert o[i][0] != o[j][0];
    }
  }

  /** The dictionary built from items keys[i]: vals[i], in order, a later item overriding an earlier one. */
  function Dict<V>(keys: seq<string>, vals: seq<V>): (d: map<string, V>)
    requires |keys| == |vals|
    ensures d.Keys == Assignment.LabelsIn(keys)
    decreases |keys|
  {
    if keys == [] then map[]
    else
      var n := |keys| - 1;
      assert Assignment.LabelsIn(keys) == Assignment.LabelsIn(keys[..n]) + {keys[n]} by {
        assert keys == keys[..n] + [keys[n]];
      }
      Dict(keys[..n], vals[..n])[keys[n] := vals[n]]
  }

  /** With distinct keys every item is found in the dictionary. */
  lemma {:induction false} DictLookup<V>(keys: seq<string>, vals: seq<V>, i: nat)
    requires |keys| == |vals| && Assignment.Distinct(keys) && i < |keys|
    ensures keys[i] in Dict(keys, vals) && Dict(keys, vals)[keys[i]] == vals[i]
    decreases |keys|
  {
    var n := |keys| - 1;
    if i < n {
      assert Assignment.Distinct(keys[..n]) by {
        forall a, b | 0 <= a < b < n ensures keys[..n][a] != keys[..n][b] {
          assert keys[..n][a] == keys[a] && keys[..n][b] == keys[b];
        }
      }
      DictLookup(keys[..n], vals[..n], i);
      assert keys[..n][i] == keys[i] && vals[..n][i] == vals[i];
    }
  }

  datatype Translations = Translations(threeToOne: map<string, string>, oneToThree: map<string, string>)

  /** The three-to-one table and its inverse, built from the table's items. */
  function TranslationsProtein(): (r: Translations)
    ensures r.threeToOne.Keys == Assignment.LabelsIn(Threes) && r.oneToThree.Keys == Assignment.LabelsIn(Ones)
  {
    Translations(Dict(Threes, Ones), Dict(Ones, Threes))
  }

  /** Every item of the table is in it, in both directions. */
  lemma TranslationsItems(i: nat)
    requires i < 20
    ensures var t := TranslationsProtein();
      && Threes[i] in t.threeToOne && t.threeToOne[Threes[i]] == Ones[i]
      && Ones[i] in t.oneToThree && t.oneToThree[Ones[i]] == Threes[i]
  {
    ThreesDistinct();
    OnesDistinct();
    DictLookup(Threes, Ones, i);
    DictLookup(Ones, Threes, i);
  }

  /** Both tables have twenty entries. */
  lemma TranslationsSize()
    ensures |TranslationsProtein().threeToOne| == 20 && |TranslationsProtein().oneToThree| == 20
  {
    ThreesDistinct();
    OnesDistinct();
    Assignment.DistinctCard(Threes);
    Assignment.DistinctCard(Ones);
  }

  /** Translating to one letter and back is the identity, in both directions. */
  lemma TranslationsRoundTrip()
    ensures var t := TranslationsProtein();
      && (forall k :: k in t.threeToOne ==> t.threeToOne[k] in t.oneToThree && t.oneToThree[t.threeToOne[k]] == k)
      && (forall v :: v in t.oneToThree ==> t.oneToThree[v] in t.threeToOne && t.threeToOne[t.oneToThree[v]] == v)
  {
    var t := TranslationsProtein();
    forall k | k in t.threeToOne ensures t.threeToOne[k] in t.oneToThree && t.oneToThree[t.threeToOne[k]] == k {
      var i :| 0 <= i < |Threes| && Threes[i] == k;
      TranslationsItems(i);
    }
    forall v | v in t.oneToThree ensures t.oneToThree[v] in t.threeToOne && t.threeToOne[t.oneToThree[v]] == v {
      var i :| 0 <= i < |Ones| && Ones[i] == v;
      TranslationsItems(i);
    }
  }

  /** A cell mapped through a dictionary: its image, or NaN when it is not a key. */
  function MapValue(v: Value, table: map<string, string>): (r: Value)
    ensures r.Text? <==> v.Text? && v.s in table
  {
    if v.Text? && v.s in table then Text(table[v.s]) else NaN
  }

  // ---------------------------------------------------------------------
  // Capitalisation (str.capitalize, ASCII letters)
  // ---------------------------------------------------------------------

  /** An ASCII letter in the requested case; any other character unchanged. */
  function Cased(c: char, upper: bool): (r: char)
    ensures upper && 'a' <= c <= 'z' ==> 'A' <= r <= 'Z' && r as int - 'A' as int == c as int - 'a' as int
    ensures !upper && 'A' <= c <= 'Z' ==> 'a' <= r <= 'z' && r as int - 'a' as int == c as int - 'A' as int
    ensures !(if upper then 'a' <= c <= 'z' else 'A' <= c <= 'Z') ==> r == c
  {
    if upper && 'a' <= c <= 'z' then (c as int - 'a' as int + 'A' as int) as char
    else if !upper && 'A' <= c <= 'Z' then (c as int - 'A' as int + 'a' as int) as char
    else c
  }

  /** The first character in upper case, the rest in lower case. */
  function Capitalize(s: string): (r: string)
    ensures |r| == |s|
    ensures |s| > 0 ==> r[0] == Cased(s[0], true)
    ensures forall k :: 1 <= k < |s| ==> r[k] == Cased(s[k], false)
  {
    if s == [] then [] else [Cased(s[0], true)] + seq(|s| - 1, k requires 0 <= k < |s| - 1 => Cased(s[k + 1], false))
  }

  function CapitalizeValue(v: Value): (r: Value)
    ensures r.NaN? <==> v.NaN?
  {
    if v.Text? then Text(Capitalize(v.s)) else NaN
  }

  lemma CasedIdempotent(c: char, upper: bool)
    ensures Cased(Cased(c, upper), upper) == Cased(c, upper)
  {
  }

  /** Capitalising twice is capitalising once. */
  lemma CapitalizeIdempotent(s: string)
    ensures Capitalize(Capitalize(s)) == Capitalize(s)
  {
    var r := Capitalize(s);
    var rr := Capitalize(r);
    if s != [] {
      CasedIdempotent(s[0], true);
      forall k | 1 <= k < |s| ensures rr[k] == r[k] {
        CasedIdempotent(s[k], false);
      }
    }
  }

  /** An upper-case three-letter code is capitalised as the source's residue names are: ASP becomes Asp. */
  lemma CapitalizeCode()
    ensures Capitalize("ASP") == "Asp"
  {
    var r := Capitalize("ASP");
    assert r[0] == 'A' && r[1] == 's' && r[2] == 'p';
  }

  // ---------------------------------------------------------------------
  // Tables (pandas data frames with unique column names)
  // ---------------------------------------------------------------------

  /** A frame: its column names in order, each column's cells, and the number of rows. */
  datatype Table = Table(names: seq<string>, data: map<string, seq<Value>>, height: nat)

  ghost predicate TableValid(t: Table) {
    && Assignment.Distinct(t.names)
    && Assignment.LabelsIn(t.names) == t.data.Keys
    && forall n :: n in t.data ==> |t.data[n]| == t.height
  }

  /** df[name] = col: a new column goes last, an existing one is replaced where it stands. */
  function SetColumn(t: Table, name: string, col: seq<Value>): (r: Table)
    requires |col| == t.height
    ensures name in r.data && r.data[name] == col && r.height == t.height
    ensures forall n :: n != name ==> (n in r.data <==> n in t.data) && (n in t.data ==> r.data[n] == t.data[n])
    ensures name in t.data ==> r.names == t.names
    ensures name !in t.data ==> r.names == t.names + [name]
    ensures TableValid(t) ==> TableValid(r)
  {
    var r := Table(if name in t.data then t.names else t.names + [name], t.data[name := col], t.height);
    assert TableValid(t) ==> Assignment.LabelsIn(r.names) == r.data.Keys by {
      if TableValid(t) && name !in t.data {
        assert Assignment.LabelsIn(t.names + [name]) == Assignment.LabelsIn(t.names) + {name};
      }
    }
    r
  }

  /** A cell mapped through a whole column. */
  function MapColumn(col: seq<Value>, table: map<string, string>): (r: seq<Value>)
    ensures |r| == |col| && forall k :: 0 <= k < |col| ==> r[k] == MapValue(col[k], table)
  {
    seq(|col|, k requires 0 <= k < |col| => MapValue(col[k], table))
  }

  /** The frame with its residue names translated to one-letter codes, unknown names becoming NaN. */
  function Translated(t: Table): (r: Table)
    requires TableValid(t) && "residue_name" in t.data
    ensures TableValid(r) && r.names == t.names
  {
    SetColumn(t, "residue_name", MapColumn(t.data["residue_name"], TranslationsProtein().threeToOne))
  }

  /**
   * A translated residue name is the one-letter code of a known three-letter
   * code, and NaN for anything else; translating back with the inverse
   * table restores every known code.
   */
  lemma TranslatedCells(t: Table, k: nat)
    requires TableValid(t) && "residue_name" in t.data && k < t.height
    ensures var old_ := t.data["residue_name"][k];
      var new_ := Translated(t).data["residue_name"][k];
      && (new_.Text? <==> old_.Text? && old_.s in Assignment.LabelsIn(Threes))
      && (new_.Text? ==> MapValue(new_, TranslationsProtein().oneToThree) == old_)
  {
    var old_ := t.data["residue_name"][k];
    if old_.Text? && old_.s in Assignment.LabelsIn(Threes) {
      TranslationsRoundTrip();
    }
  }

  /** Every cell of the column capitalised. */
  function CapitalizeColumn(col: seq<Value>): (r: seq<Value>)
    ensures |r| == |col| && forall k :: 0 <= k < |col| ==> r[k] == CapitalizeValue(col[k])
  {
    seq(|col|, k requires 0 <= k < |col| => CapitalizeValue(col[k]))
  }

  /** The frame with one column capitalised. */
  function Capitalized(t: Table, column: string): (r: Table)
    requires TableValid(t) && column in t.data
    ensures TableValid(r) && r.names == t.names
  {
    SetColumn(t, column, CapitalizeColumn(t.data[column]))
  }

  /** Capitalising a column twice leaves the frame as capitalising it once. */
  lemma CapitalizedIdempotent(t: Table, column: string)
    requires TableValid(t) && column in t.data
    ensures Capitalized(Capitalized(t, column), column) == Capitalized(t, column)
  {
    var once := Capitalized(t, column);
    var twice := Capitalized(once, column);
    forall k | 0 <= k < t.height ensures twice.data[column][k] == once.data[column][k] {
      var v := t.data[column][k];
      if v.Text? {
        CapitalizeIdempotent(v.s);
      }
    }
    assert twice.data[column] == once.data[column];
    assert twice.data == once.data;
  }

  /** The columns a tidy restraint table keeps, and the names it gives them. */
  const TidySource: seq<string> := ["chain_code_1", "sequence_code_1", "residue_name_1", "atom_name_1", "weight", "target_value"]
  const TidyNames: seq<string> := ["chain_code", "sequence_code", "residue_name", "atom_name", "weight", "target_value"]

  lemma TidyNamesDistinct()
    ensures Assignment.Distinct(TidyNames)
  {
    var s := TidyNames;
    assert s[0][0] == 'c' && s[1][0] == 's' && s[2][0] == 'r' && s[3][0] == 'a' && s[4][0] == 'w' && s[5][0] == 't';
  }

  /**
   * remove_unnecessary_columns: keep the six columns of a tidy restraint
   * table, in that order, and drop the _1 suffix of the first atom's four
   * identifying columns.  A KeyError when one of the six is missing.
   */
  function RemoveUnnecessaryColumns(t: Table): (r: Result<Table>)
    ensures r.Success? <==> forall k :: 0 <= k < 6 ==> TidySource[k] in t.data
    ensures r.Success? ==> (r.value.names == TidyNames && r.value.height == t.height
      && r.value.data.Keys == Assignment.LabelsIn(TidyNames))
  {
    if forall k :: 0 <= k < 6 ==> TidySource[k] in t.data then
      Success(Table(TidyNames, Dict(TidyNames, seq(6, k requires 0 <= k < 6 => t.data[TidySource[k]])), t.height))
    else Failure("KeyError: a column of the tidy table is missing")
  }

  /** The tidy table is a valid table whose k-th column is the k-th kept column of the input, under its new name. */
  lemma TidyColumns(t: Table, k: nat)
    requires TableValid(t) && RemoveUnnecessaryColumns(t).Success? && k < 6
    ensures TableValid(RemoveUnnecessaryColumns(t).value)
    ensures RemoveUnnecessaryColumns(t).value.data[TidyNames[k]] == t.data[TidySource[k]]
  {
    TidyNamesDistinct();
    var cols := seq(6, k requires 0 <= k < 6 => t.data[TidySource[k]]);
    DictLookup(TidyNames, cols, k);
    forall n | n in RemoveUnnecessaryColumns(t).value.data ensures |RemoveUnnecessaryColumns(t).value.data[n]| == t.height {
      var j :| 0 <= j < 6 && TidyNames[j] == n;
      DictLookup(TidyNames, cols, j);
    }
  }

  /** A tidy table is not tidied again: its first column is no longer called chain_code_1. */
  lemma TidyTwiceFails(t: Table)
    requires RemoveUnnecessaryColumns(t).Success?
    ensures RemoveUnnecessaryColumns(RemoveUnnecessaryColumns(t).value).Failure?
  {
    var r := RemoveUnnecessaryColumns(t).value;
    assert TidySource[0] !in r.data by {
      forall j | 0 <= j < 6 ensures TidyNames[j] != TidySource[0] {
        assert |TidyNames[j]| != 12 || TidyNames[j][10] != '_';
      }
    }
  }

  /**
   * check_for_single_residue_and_chain: both atoms of every restraint lie
   * in the same chain and the same residue.  A KeyError when one of the
   * four columns is missing; NaN cells count as equal.
   */
  function CheckSingleResidueAndChain(t: Table): (r: Result<()>)
    ensures r.Success? <==> (
      && "chain_code_1" in t.data && "chain_code_2" in t.data && t.data["chain_code_1"] == t.data["chain_code_2"]
      && "residue_name_1" in t.data && "residue_name_2" in t.data && t.data["residue_name_1"] == t.data["residue_name_2"])
    ensures r == Failure(" RDC value is from different chains") <==>
      "chain_code_1" in t.data && "chain_code_2" in t.data && t.data["chain_code_1"] != t.data["chain_code_2"]
    ensures r == Failure("RDC value contains different residues") <==>
      && "chain_code_1" in t.data && "chain_code_2" in t.data && t.data["chain_code_1"] == t.data["chain_code_2"]
      && "residue_name_1" in t.data && "residue_name_2" in t.data && t.data["residue_name_1"] != t.data["residue_name_2"]
  {
    if "chain_code_1" !in t.data || "chain_code_2" !in t.data then Failure("KeyError: chain_code")
    else if t.data["chain_code_1"] != t.data["chain_code_2"] then Failure(" RDC value is from different chains")
    else if "residue_name_1" !in t.data || "residue_name_2" !in t.data then Failure("KeyError: residue_name")
    else if t.data["residue_name_1"] != t.data["residue_name_2"] then Failure("RDC value contains different residues")
    else Success(())
  }

  /** A table that passes the check has, row by row, one chain and one residue per restraint. */
  lemma SingleResidueRows(t: Table, k: nat)
    requires TableValid(t) && CheckSingleResidueAndChain(t).Success? && k < t.height
    ensures t.data["chain_code_1"][k] == t.data["chain_code_2"][k]
    ensures t.data["residue_name_1"][k] == t.data["residue_name_2"][k]
  {
  }

  /** A data frame whose columns are replaced in place. */
  class Frame {
    var names: seq<string>
    var data: map<string, seq<Value>>
    var height: nat

    function Snapshot(): Table
      reads this
    {
      Table(names, data, height)
    }

    ghost predicate Valid()
      reads this
    {
      TableValid(Snapshot())
    }

    constructor (t: Table)
      requires TableValid(t)
      ensures Snapshot() == t && Valid()
    {
      names, data, height := t.names, t.data, t.height;
    }

    /** df[name] = col */
    method Assign(name: string, col: seq<Value>)
      requires Valid() && |col| == height
      modifies this
      ensures Valid() && Snapshot() == SetColumn(old(Snapshot()), name, col)
    {
      var t := SetColumn(Snapshot(), name, col);
      names, data, height := t.names, t.data, t.height;
    }

    /** apply_translation_3_1_protein: residue names to one-letter codes; a KeyError, and no change, without that column. */
    method ApplyTranslation31Protein() returns (r: Result<()>)
      requires Valid()
      modifies this
      ensures Valid()
      ensures r.Success? <==> "residue_name" in old(data)
      ensures Snapshot() == (if r.Success? then Translated(old(Snapshot())) else old(Snapshot()))
    {
      if "residue_name" !in data {
        return Failure("KeyError: residue_name");
      }
      Assign("residue_name", MapColumn(data["residue_name"], TranslationsProtein().threeToOne));
      return Success(());
    }

    /** translation_3_lowercase: capitalise one column; a KeyError, and no change, without it. */
    method Translation3Lowercase(column: string) returns (r: Result<()>)
      requires Valid()
      modifies this
      ensures Valid()
      ensures r.Success? <==> column in old(data)
      ensures Snapshot() == (if r.Success? then Capitalized(old(Snapshot()), column) else old(Snapshot()))
    {
      if column !in data {
        return Failure("KeyError: " + column);
      }
      Assign(column, CapitalizeColumn(data[column]));
      return Success(());
    }
  }

  // ---------------------------------------------------------------------
  // The magnitude matrix (pred_measured_to_magnitude_matrix)
  // ---------------------------------------------------------------------

  /** astype(str): NaN prints as nan. */
  function StrOf(v: Value): string {
    if v.Text? then v.s else "nan"
  }

  /** A sequence code joined to a residue name; NaN when the name is NaN. */
  function Join(code: Value, name: Value): (r: Value)
    ensures r.NaN? <==> name.NaN?
    ensures r.Text? ==> r.s == StrOf(code) + name.s
  {
    if name.NaN? then NaN else Text(StrOf(code) + name.s)
  }

  function JoinColumns(codes: seq<Value>, names: seq<Value>): (r: seq<Value>)
    requires |codes| == |names|
    ensures |r| == |codes| && forall k :: 0 <= k < |codes| ==> r[k] == Join(codes[k], names[k])
  {
    seq(|codes|, k requires 0 <= k < |codes| => Join(codes[k], names[k]))
  }

  /** The frame with a label column sequence_code + residue_name added; a KeyError without those columns. */
  function Labelled(t: Table, name: string): (r: Result<Table>)
    requires TableValid(t)
    ensures r.Success? <==> "sequence_code" in t.data && "residue_name" in t.data
    ensures r.Success? ==> TableValid(r.value) && r.value.height == t.height && name in r.value.data
    ensures r.Success? ==> r.value.data[name] == JoinColumns(t.data["sequence_code"], t.data["residue_name"])
    ensures r.Success? ==> forall n :: n != name ==> (n in r.value.data <==> n in t.data) && (n in t.data ==> r.value.data[n] == t.data[n])
  {
    if "sequence_code" in t.data && "residue_name" in t.data then
      Success(SetColumn(t, name, JoinColumns(t.data["sequence_code"], t.data["residue_name"])))
    else Failure("KeyError: sequence_code or residue_name")
  }

  /** float(v): NaN stays NaN (None); text is parsed, a ValueError when it is not a number. */
  function Float(v: Value, parse: string -> Option<real>): (r: Result<Option<real>>)
    ensures r.Success? <==> v.NaN? || parse(v.s).Some?
  {
    if v.NaN? then Success(None)
    else if parse(v.s).Some? then Success(parse(v.s))
    else Failure("ValueError: could not convert string to float")
  }

  /** Difference of two floats, NaN when either is. */
  function Minus(x: Option<real>, y: Option<real>): (r: Option<real>)
    ensures r.Some? <==> x.Some? && y.Some?
    ensures r.Some? ==> r.value + y.value == x.value
  {
    if x.Some? && y.Some? then Some(x.value - y.value) else None
  }

  predicate Floats(col: seq<Value>, parse: string -> Option<real>) {
    forall k :: 0 <= k < |col| ==> Float(col[k], parse).Success?
  }

  /** The float of a cell, NaN when it does not parse. */
  function FloatOr(v: Value, parse: string -> Option<real>): (r: Option<real>)
    ensures Float(v, parse).Success? ==> Float(v, parse) == Success(r)
  {
    if Float(v, parse).Success? then Float(v, parse).value else None
  }

  /** The floats of a column, or n NaNs when there is no column. */
  function FloatsOr(col: Option<seq<Value>>, n: nat, parse: string -> Option<real>): (r: seq<Option<real>>)
    requires col.Some? ==> |col.value| == n
    ensures |r| == n && forall k :: 0 <= k < n ==> r[k] == if col.Some? then FloatOr(col.value[k], parse) else None
  {
    seq(n, k requires 0 <= k < n => if col.Some? then FloatOr(col.value[k], parse) else None)
  }

  /** The last position before n that carries label v. */
  function LastBefore(labels: seq<Value>, v: Value, n: nat): (r: Option<nat>)
    requires n <= |labels|
    ensures r.Some? ==> r.value < n && labels[r.value] == v && forall k :: r.value < k < n ==> labels[k] != v
    ensures r.None? ==> forall k :: 0 <= k < n ==> labels[k] != v
  {
    if n == 0 then None
    else if labels[n - 1] == v then Some(n - 1)
    else LastBefore(labels, v, n - 1)
  }

  /** The last position carrying the label of position p. */
  function Last(labels: seq<Value>, p: nat): (r: nat)
    requires p < |labels|
    ensures p <= r < |labels| && labels[r] == labels[p]
    ensures forall k :: r < k < |labels| ==> labels[k] != labels[p]
  {
    LastBefore(labels, labels[p], |labels|).value
  }

  /** A row-major grid of floats with a label per row and per column. */
  datatype Grid = Grid(rows: seq<Value>, cols: seq<Value>, cells: seq<seq<Option<real>>>)

  ghost predicate Shape(cells: seq<seq<Option<real>>>, height: nat, width: nat) {
    |cells| == height && forall p :: 0 <= p < height ==> |cells[p]| == width
  }

  function Blank(height: nat, width: nat): (r: seq<seq<Option<real>>>)
    ensures Shape(r, height, width) && forall p, q :: 0 <= p < height && 0 <= q < width ==> r[p][q].None?
  {
    seq(height, p => seq(width, q => None))
  }

  /**
   * The cells of the matrix: with label-wise writes, the cell at (p, q)
   * holds the difference of the measured value of the last row labelled
   * as row p and the predicted value of the last column labelled as
   * column q.  Failures are those of reading and converting the targets,
   * which happen only when there is a cell to write.
   */
  function MagnitudeCells(rl: seq<Value>, cl: seq<Value>, mt: Option<seq<Value>>, pt: Option<seq<Value>>, parse: string -> Option<real>)
    : (r: Result<seq<seq<Option<real>>>>)
    requires mt.Some? ==> |mt.value| == |rl|
    requires pt.Some? ==> |pt.value| == |cl|
    ensures r.Success? ==> Shape(r.value, |rl|, |cl|)
    ensures r.Failure? <==> |rl| > 0 && |cl| > 0 && !(mt.Some? && pt.Some? && Floats(mt.value, parse) && Floats(pt.value, parse))
  {
    if |rl| == 0 || |cl| == 0 then Success(Blank(|rl|, |cl|))
    else if mt.None? || pt.None? then Failure("KeyError: target_value")
    else if !(Floats(mt.value, parse) && Floats(pt.value, parse)) then Failure("ValueError: could not convert string to float")
    else
      var mf := FloatsOr(mt, |rl|, parse);
      var pf := FloatsOr(pt, |cl|, parse);
      Success(seq(|rl|, p requires 0 <= p < |rl| => seq(|cl|, q requires 0 <= q < |cl| => Minus(mf[Last(rl, p)], pf[Last(cl, q)]))))
  }

  function Column(t: Table, name: string): (r: Option<seq<Value>>)
    requires TableValid(t)
    ensures r.Some? <==> name in t.data
    ensures r.Some? ==> |r.value| == t.height && r.value == t.data[name]
  {
    if name in t.data then Some(t.data[name]) else None
  }

  /** A table with the two columns that make a label. */
  predicate HasLabelColumns(t: Table) {
    "sequence_code" in t.data && "residue_name" in t.data
  }

  /** The magnitude matrix of two restraint tables: row labels from the measured table, column labels from the predicted one. */
  function Magnitude(predicted: Table, measured: Table, parse: string -> Option<real>): (r: Result<Grid>)
    requires TableValid(predicted) && TableValid(measured)
    ensures r.Success? ==> (Shape(r.value.cells, |r.value.rows|, |r.value.cols|)
      && |r.value.rows| == measured.height && |r.value.cols| == predicted.height)
    ensures !(HasLabelColumns(predicted) && HasLabelColumns(measured)) ==> r.Failure?
    ensures HasLabelColumns(predicted) && HasLabelColumns(measured) ==>
      var rl := JoinColumns(measured.data["sequence_code"], measured.data["residue_name"]);
      var cl := JoinColumns(predicted.data["sequence_code"], predicted.data["residue_name"]);
      var cells := MagnitudeCells(rl, cl, Column(measured, "target_value"), Column(predicted, "target_value"), parse);
      (r.Success? <==> cells.Success?) && (r.Success? ==> r.value == Grid(rl, cl, cells.value))
  {
    var p := Labelled(predicted, "SS_name");
    if p.Failure? then Failure(p.error)
    else
      var m := Labelled(measured, "Res_name");
      if m.Failure? then Failure(m.error)
      else
        var rl := m.value.data["Res_name"];
        var cl := p.value.data["SS_name"];
        var cells := MagnitudeCells(rl, cl, Column(m.value, "target_value"), Column(p.value, "target_value"), parse);
        if cells.Failure? then Failure(cells.error) else Success(Grid(rl, cl, cells.value))
  }

  /** With no repeated labels, every cell is the measured value of its row minus the predicted value of its column. */
  lemma MagnitudeDistinct(rl: seq<Value>, cl: seq<Value>, mt: seq<Value>, pt: seq<Value>, parse: string -> Option<real>, p: nat, q: nat)
    requires |mt| == |rl| && |pt| == |cl| && p < |rl| && q < |cl|
    requires forall a, b :: 0 <= a < b < |rl| ==> rl[a] != rl[b]
    requires forall a, b :: 0 <= a < b < |cl| ==> cl[a] != cl[b]
    requires MagnitudeCells(rl, cl, Some(mt), Some(pt), parse).Success?
    ensures Float(mt[p], parse).Success? && Float(pt[q], parse).Success?
    ensures Minus(Float(mt[p], parse).value, Float(pt[q], parse).value) == MagnitudeCells(rl, cl, Some(mt), Some(pt), parse).value[p][q]
  {
    assert Last(rl, p) == p;
    assert Last(cl, q) == q;
  }

  /** Rows that share a label end up with the same cells, and so do columns. */
  lemma MagnitudeRepeatedLabels(rl: seq<Value>, cl: seq<Value>, mt: Option<seq<Value>>, pt: Option<seq<Value>>, parse: string -> Option<real>,
                                p: nat, p': nat, q: nat, q': nat)
    requires mt.Some? ==> |mt.value| == |rl|
    requires pt.Some? ==> |pt.value| == |cl|
    requires p < |rl| && p' < |rl| && q < |cl| && q' < |cl| && rl[p] == rl[p'] && cl[q] == cl[q']
    requires MagnitudeCells(rl, cl, mt, pt, parse).Success?
    ensures MagnitudeCells(rl, cl, mt, pt, parse).value[p][q] == MagnitudeCells(rl, cl, mt, pt, parse).value[p'][q']
  {
    assert Last(rl, p) == Last(rl, p');
    assert Last(cl, q) == Last(cl, q');
  }

  /** magnitude_matrix.loc[a, b] = v: every cell whose row is labelled a and whose column is labelled b. */
  function Write(cells: seq<seq<Option<real>>>, rl: seq<Value>, cl: seq<Value>, a: Value, b: Value, v: Option<real>): (r: seq<seq<Option<real>>>)
    requires Shape(cells, |rl|, |cl|)
    ensures Shape(r, |rl|, |cl|)
    ensures forall p, q :: 0 <= p < |rl| && 0 <= q < |cl| ==> r[p][q] == if rl[p] == a && cl[q] == b then v else cells[p][q]
  {
    seq(|rl|, p requires 0 <= p < |rl| => seq(|cl|, q requires 0 <= q < |cl| => if rl[p] == a && cl[q] == b then v else cells[p][q]))
  }

  /** The cell (p, q) once the rows before i have been written. */
  function WrittenRows(rl: seq<Value>, cl: seq<Value>, mf: seq<Option<real>>, pf: seq<Option<real>>, p: nat, q: nat, i: nat): Option<real>
    requires |mf| == |rl| && |pf| == |cl| && p < |rl| && q < |cl| && i <= |rl|
  {
    var w := LastBefore(rl, rl[p], i);
    if w.Some? then Minus(mf[w.value], pf[Last(cl, q)]) else None
  }

  /** ... and the columns before j of row i. */
  function Written(rl: seq<Value>, cl: seq<Value>, mf: seq<Option<real>>, pf: seq<Option<real>>, p: nat, q: nat, i: nat, j: nat): Option<real>
    requires |mf| == |rl| && |pf| == |cl| && p < |rl| && q < |cl| && i < |rl| && j <= |cl|
  {
    var w := LastBefore(cl, cl[q], j);
    if rl[i] == rl[p] && w.Some? then Minus(mf[i], pf[w.value]) else WrittenRows(rl, cl, mf, pf, p, q, i)
  }

  ghost predicate WrittenUpTo(cells: seq<seq<Option<real>>>, rl: seq<Value>, cl: seq<Value>, mf: seq<Option<real>>, pf: seq<Option<real>>, i: nat, j: nat)
    requires |mf| == |rl| && |pf| == |cl| && i < |rl| && j <= |cl|
  {
    Shape(cells, |rl|, |cl|) && forall p, q :: 0 <= p < |rl| && 0 <= q < |cl| ==> cells[p][q] == Written(rl, cl, mf, pf, p, q, i, j)
  }

  ghost predicate RowsWritten(cells: seq<seq<Option<real>>>, rl: seq<Value>, cl: seq<Value>, mf: seq<Option<real>>, pf: seq<Option<real>>, i: nat)
    requires |mf| == |rl| && |pf| == |cl| && i <= |rl|
  {
    Shape(cells, |rl|, |cl|) && forall p, q :: 0 <= p < |rl| && 0 <= q < |cl| ==> cells[p][q] == WrittenRows(rl, cl, mf, pf, p, q, i)
  }

  /** One write of the inner loop moves the written region one column on. */
  lemma WriteStep(cells: seq<seq<Option<real>>>, rl: seq<Value>, cl: seq<Value>, mf: seq<Option<real>>, pf: seq<Option<real>>, i: nat, j: nat)
    requires |mf| == |rl| && |pf| == |cl| && i < |rl| && j < |cl|
    requires WrittenUpTo(cells, rl, cl, mf, pf, i, j)
    ensures WrittenUpTo(Write(cells, rl, cl, rl[i], cl[j], Minus(mf[i], pf[j])), rl, cl, mf, pf, i, j + 1)
  {
  }

  /** Starting a row changes nothing written so far. */
  lemma RowStart(cells: seq<seq<Option<real>>>, rl: seq<Value>, cl: seq<Value>, mf: seq<Option<real>>, pf: seq<Option<real>>, i: nat)
    requires |mf| == |rl| && |pf| == |cl| && i < |rl|
    requires RowsWritten(cells, rl, cl, mf, pf, i)
    ensures WrittenUpTo(cells, rl, cl, mf, pf, i, 0)
  {
  }

  /** A finished row is a written row. */
  lemma RowEnd(cells: seq<seq<Option<real>>>, rl: seq<Value>, cl: seq<Value>, mf: seq<Option<real>>, pf: seq<Option<real>>, i: nat)
    requires |mf| == |rl| && |pf| == |cl| && i < |rl|
    requires WrittenUpTo(cells, rl, cl, mf, pf, i, |cl|)
    ensures RowsWritten(cells, rl, cl, mf, pf, i + 1)
  {
  }

  /** The inner loop of the source: row i against every predicted column. */
  method FillRow(cells: seq<seq<Option<real>>>, rl: seq<Value>, cl: seq<Value>, mt: Option<seq<Value>>, pt: Option<seq<Value>>,
                 parse: string -> Option<real>, i: nat)
    returns (r: Result<seq<seq<Option<real>>>>)
    requires mt.Some? ==> |mt.value| == |rl|
    requires pt.Some? ==> |pt.value| == |cl|
    requires i < |rl| && |cl| > 0
    requires RowsWritten(cells, rl, cl, FloatsOr(mt, |rl|, parse), FloatsOr(pt, |cl|, parse), i)
    ensures r.Success? <==> mt.Some? && pt.Some? && Float(mt.value[i], parse).Success? && Floats(pt.value, parse)
    ensures r.Success? ==> RowsWritten(r.value, rl, cl, FloatsOr(mt, |rl|, parse), FloatsOr(pt, |cl|, parse), i + 1)
  {
    ghost var mf := FloatsOr(mt, |rl|, parse);
    ghost var pf := FloatsOr(pt, |cl|, parse);
    RowStart(cells, rl, cl, mf, pf, i);
    var row := cells;
    var j := 0;
    while j < |cl|
      invariant 0 <= j <= |cl|
      invariant WrittenUpTo(row, rl, cl, mf, pf, i, j)
      invariant j > 0 ==> mt.Some? && pt.Some? && Float(mt.value[i], parse).Success?
      invariant pt.Some? ==> forall k :: 0 <= k < j ==> Float(pt.value[k], parse).Success?
    {
      if mt.None? {
        return Failure("KeyError: target_value");
      }
      var x := Float(mt.value[i], parse);
      if x.Failure? {
        return Failure(x.error);
      }
      if pt.None? {
        return Failure("KeyError: target_value");
      }
      var y := Float(pt.value[j], parse);
      if y.Failure? {
        return Failure(y.error);
      }
      WriteStep(row, rl, cl, mf, pf, i, j);
      row := Write(row, rl, cl, rl[i], cl[j], Minus(x.value, y.value));
      j := j + 1;
    }
    RowEnd(row, rl, cl, mf, pf, i);
    return Success(row);
  }

  /** The nested loops of the source over two label columns and their targets, writing label-wise. */
  method FillMagnitude(rl: seq<Value>, cl: seq<Value>, mt: Option<seq<Value>>, pt: Option<seq<Value>>, parse: string -> Option<real>)
    returns (r: Result<seq<seq<Option<real>>>>)
    requires mt.Some? ==> |mt.value| == |rl|
    requires pt.Some? ==> |pt.value| == |cl|
    ensures var spec := MagnitudeCells(rl, cl, mt, pt, parse);
      r.Success? == spec.Success? && (r.Success? ==> r.value == spec.value)
  {
    var cells := Blank(|rl|, |cl|);
    if |rl| == 0 || |cl| == 0 {
      return Success(cells);
    }
    var i := 0;
    while i < |rl|
      invariant 0 <= i <= |rl|
      invariant RowsWritten(cells, rl, cl, FloatsOr(mt, |rl|, parse), FloatsOr(pt, |cl|, parse), i)
      invariant i > 0 ==> mt.Some? && pt.Some? && Floats(pt.value, parse)
      invariant mt.Some? ==> forall k :: 0 <= k < i ==> Float(mt.value[k], parse).Success?
    {
      var next := FillRow(cells, rl, cl, mt, pt, parse, i);
      if next.Failure? {
        return Failure(next.error);
      }
      cells := next.value;
      i := i + 1;
    }
    MagnitudeEnd(cells, rl, cl, mt, pt, parse);
    return Success(cells);
  }

  /** All rows written is the specified matrix. */
  lemma MagnitudeEnd(cells: seq<seq<Option<real>>>, rl: seq<Value>, cl: seq<Value>, mt: Option<seq<Value>>, pt: Option<seq<Value>>,
                     parse: string -> Option<real>)
    requires mt.Some? ==> |mt.value| == |rl|
    requires pt.Some? ==> |pt.value| == |cl|
    requires |rl| > 0 && |cl| > 0
    requires RowsWritten(cells, rl, cl, FloatsOr(mt, |rl|, parse), FloatsOr(pt, |cl|, parse), |rl|)
    requires mt.Some? && pt.Some? && Floats(pt.value, parse)
    requires forall k :: 0 <= k < |rl| ==> Float(mt.value[k], parse).Success?
    ensures MagnitudeCells(rl, cl, mt, pt, parse) == Success(cells)
  {
    assert Floats(mt.value, parse);
    var r := MagnitudeCells(rl, cl, mt, pt, parse);
    assert r.Success?;
    var spec := r.value;
    var mf := FloatsOr(mt, |rl|, parse);
    var pf := FloatsOr(pt, |cl|, parse);
    forall p | 0 <= p < |rl| ensures spec[p] == cells[p] {
      forall q | 0 <= q < |cl| ensures spec[p][q] == cells[p][q] {
        assert spec[p][q] == Minus(mf[Last(rl, p)], pf[Last(cl, q)]);
        assert cells[p][q] == WrittenRows(rl, cl, mf, pf, p, q, |rl|);
      }
    }
    assert spec == cells;
  }

  /**
   * pred_measured_to_magnitude_matrix: label the predicted rows SS_name and
   * the measured rows Res_name (sequence code + residue name), in place,
   * then fill the measured-by-predicted matrix of target differences.
   */
  method PredMeasuredToMagnitudeMatrix(predicted: Frame, measured: Frame, parse: string -> Option<real>) returns (r: Result<Grid>)
    requires predicted != measured && predicted.Valid() && measured.Valid()
    modifies predicted, measured
    ensures predicted.Valid() && measured.Valid()
    ensures var p := Labelled(old(predicted.Snapshot()), "SS_name");
      predicted.Snapshot() == (if p.Success? then p.value else old(predicted.Snapshot()))
    ensures var p := Labelled(old(predicted.Snapshot()), "SS_name");
      var m := Labelled(old(measured.Snapshot()), "Res_name");
      measured.Snapshot() == (if p.Success? && m.Success? then m.value else old(measured.Snapshot()))
    ensures var spec := Magnitude(old(predicted.Snapshot()), old(measured.Snapshot()), parse);
      r.Success? == spec.Success? && (r.Success? ==> r.value == spec.value)
  {
    if "sequence_code" !in predicted.data || "residue_name" !in predicted.data {
      return Failure("KeyError: sequence_code or residue_name");
    }
    predicted.Assign("SS_name", JoinColumns(predicted.data["sequence_code"], predicted.data["residue_name"]));
    if "sequence_code" !in measured.data || "residue_name" !in measured.data {
      return Failure("KeyError: sequence_code or residue_name");
    }
    measured.Assign("Res_name", JoinColumns(measured.data["sequence_code"], measured.data["residue_name"]));
    var rl := measured.data["Res_name"];
    var cl := predicted.data["SS_name"];
    var cells := FillMagnitude(rl, cl, Column(measured.Snapshot(), "target_value"), Column(predicted.Snapshot(), "target_value"), parse);
    if cells.Failure? {
      return Failure(cells.error);
    }
    return Success(Grid(rl, cl, cells.value));
  }

  // ---------------------------------------------------------------------
  // Penalty tables (add_penalty_tables)
  // ---------------------------------------------------------------------

  /** Float addition, NaN when either side is. */
  function Plus(x: Option<real>, y: Option<real>): (r: Option<real>)
    ensures r.Some? <==> x.Some? && y.Some?
    ensures r.Some? ==> r.value == x.value + y.value
  {
    if x.Some? && y.Some? then Some(x.value + y.value) else None
  }

  /** snaps + rdc on two tables with the same labels: the cell-wise sum. */
  function AddPenaltyTables(rdc: Grid, snaps: Grid): (r: Grid)
    requires rdc.rows == snaps.rows && rdc.cols == snaps.cols
    requires Shape(rdc.cells, |rdc.rows|, |rdc.cols|) && Shape(snaps.cells, |snaps.rows|, |snaps.cols|)
    ensures r.rows == snaps.rows && r.cols == snaps.cols && Shape(r.cells, |r.rows|, |r.cols|)
    ensures forall p, q :: 0 <= p < |r.rows| && 0 <= q < |r.cols| ==>
      (r.cells[p][q].Some? <==> snaps.cells[p][q].Some? && rdc.cells[p][q].Some?)
  {
    Grid(snaps.rows, snaps.cols,
      seq(|snaps.rows|, p requires 0 <= p < |snaps.rows| =>
        seq(|snaps.cols|, q requires 0 <= q < |snaps.cols| => Plus(snaps.cells[p][q], rdc.cells[p][q]))))
  }

  /** The combined penalty does not depend on which table is which, and each present cell is the sum of the two penalties. */
  lemma AddPenaltyTablesSymmetric(rdc: Grid, snaps: Grid)
    requires rdc.rows == snaps.rows && rdc.cols == snaps.cols
    requires Shape(rdc.cells, |rdc.rows|, |rdc.cols|) && Shape(snaps.cells, |snaps.rows|, |snaps.cols|)
    ensures AddPenaltyTables(rdc, snaps) == AddPenaltyTables(snaps, rdc)
    ensures var r := AddPenaltyTables(rdc, snaps);
      forall p, q :: 0 <= p < |r.rows| && 0 <= q < |r.cols| && r.cells[p][q].Some? ==>
        r.cells[p][q].value == snaps.cells[p][q].value + rdc.cells[p][q].value
  {
    var a := AddPenaltyTables(rdc, snaps);
    var b := AddPenaltyTables(snaps, rdc);
    forall p | 0 <= p < |a.rows| ensures a.cells[p] == b.cells[p] {
      assert forall q :: 0 <= q < |a.cols| ==> a.cells[p][q] == b.cells[p][q];
    }
  }
}
