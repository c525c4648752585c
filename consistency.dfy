/**
 * The sequential consistency of a matching (check_matching_consistency):
 * for every assigned residue, the spin systems assigned to its i-1 and i+1
 * neighbours, the mismatch and link count with each of them, and a
 * confidence label built from the two sides.
 */
module Consistency {
  import opened Wrappers
  import opened ShiftTables
  import Assignment
  import Links

  /** One side's confidence letter: X for a mismatch above the threshold, else S (strong: two or more links), W (weak: one) or N (none). */
  function SideLetter(links: nat, mismatch: Option<real>, threshold: real): (c: char)
    ensures c in "SWNX"
    ensures c == 'X' <==> mismatch.Some? && mismatch.value > threshold
  {
    if mismatch.Some? && mismatch.value > threshold then 'X'
    else if links > 1 then 'S'
    else if links > 0 then 'W'
    else 'N'
  }

  /** The two letters (i-1 side, i+1 side) put in the order S, W, N, X. */
  function Reorder(a: char, b: char): (char, char) {
    var s := (a, b);
    if s == ('W', 'S') then ('S', 'W')
    else if s == ('N', 'S') then ('S', 'N')
    else if s == ('X', 'S') then ('S', 'X')
    else if s == ('N', 'W') then ('W', 'N')
    else if s == ('X', 'W') then ('W', 'X')
    else if s == ('X', 'N') then ('N', 'X')
    else s
  }

  /** The confidence label of a reordered letter pair. */
  function Label(s: (char, char)): string {
    if s in {('S', 'S'), ('S', 'W'), ('S', 'N'), ('W', 'W')} then "High"
    else if s in {('S', 'X'), ('W', 'N')} then "Medium"
    else if s == ('W', 'X') then "Low"
    else if s in {('N', 'X'), ('X', 'X')} then "Unreliable"
    else if s == ('N', 'N') then "Undefined"
    else [s.0, s.1]  // not reached for letters from SideLetter (ConfidenceSymmetric): only the ten keys above arise
  }

  function Confidence(m1: char, p1: char): string {
    Label(Reorder(m1, p1))
  }

  lemma Letters(c: char)
    requires c in "SWNX"
    ensures c == 'S' || c == 'W' || c == 'N' || c == 'X'
  {
    var s := "SWNX";
    assert s[0] == 'S' && s[1] == 'W' && s[2] == 'N' && s[3] == 'X';
  }

  /** The label does not depend on which side is which, and is always one of the five labels. */
  lemma ConfidenceSymmetric(a: char, b: char)
    requires a in "SWNX" && b in "SWNX"
    ensures Confidence(a, b) == Confidence(b, a)
    ensures Confidence(a, b) in {"High", "Medium", "Low", "Unreliable", "Undefined"}
  {
    Letters(a);
    Letters(b);
  }

  /** A side with a mismatch above the threshold makes the label Low or Unreliable. */
  lemma MismatchLowersConfidence(a: char, b: char)
    requires a in "SWNX" && b in "SWNX" && (a == 'X' || b == 'X')
    ensures Confidence(a, b) in {"Medium", "Low", "Unreliable"}
    ensures Confidence(a, b) == "Medium" <==> (a == 'S' || b == 'S')
  {
    Letters(a);
    Letters(b);
  }

  /** The label is High exactly when neither side mismatches and the links amount to at least two weak or one strong. */
  lemma HighConfidence(a: char, b: char)
    requires a in "SWNX" && b in "SWNX"
    ensures Confidence(a, b) == "High" <==> a != 'X' && b != 'X' && (a == 'S' || b == 'S' || (a == 'W' && b == 'W'))
  {
    Letters(a);
    Letters(b);
  }

  /** The consistency information of one assigned pair. */
  datatype Row = Row(
    ss: string, res: string,
    mismatchM1: Option<real>, mismatchP1: Option<real>, maxMismatch: Option<real>,
    linksM1: nat, linksP1: nat, links: nat,
    confidence: string)

  /**
   * The neighbour entry of a residue: the first entry of the lookup table
   * with that residue, or an entry with no neighbours when there is none.
   */
  function NeighbourOf(res: string, neighbours: seq<Neighbour>): (nb: Neighbour)
    ensures nb.res == res
    ensures (forall k :: 0 <= k < |neighbours| ==> neighbours[k].res != res) ==> nb == Neighbour(res, None, None)
    ensures (exists k :: 0 <= k < |neighbours| && neighbours[k].res == res) ==>
      exists k :: 0 <= k < |neighbours| && neighbours[k] == nb && forall j :: 0 <= j < k ==> neighbours[j].res != res
  {
    if neighbours == [] then Neighbour(res, None, None)
    else if neighbours[0].res == res then neighbours[0]
    else
      var nb := NeighbourOf(res, neighbours[1..]);
      assert forall k :: 1 <= k < |neighbours| ==> neighbours[k] == neighbours[1..][k - 1];
      assert (exists k :: 0 <= k < |neighbours| && neighbours[k].res == res) ==>
        exists k :: 0 <= k < |neighbours| && neighbours[k] == nb && forall j :: 0 <= j < k ==> neighbours[j].res != res
      by {
        if exists k :: 0 <= k < |neighbours| && neighbours[k].res == res {
          var k0 :| 0 <= k0 < |neighbours| && neighbours[k0].res == res;
          assert neighbours[1..][k0 - 1].res == res;
          var k :| 0 <= k < |neighbours[1..]| && neighbours[1..][k] == nb && forall j :: 0 <= j < k ==> neighbours[1..][j].res != res;
          assert neighbours[k + 1] == nb;
          forall j | 0 <= j < k + 1 ensures neighbours[j].res != res {
            if j > 0 { assert neighbours[j] == neighbours[1..][j - 1]; }
          }
        }
      }
      nb
  }

  /** The spin system a residue is assigned to in the matching. */
  function AssignedTo(res: Option<string>, matching: seq<Assignment.Pair>): (ss: Option<string>)
    ensures ss.Some? ==> res.Some? && exists k :: 0 <= k < |matching| && matching[k] == Assignment.Pair(ss.value, res.value)
    ensures ss.None? ==> res.None? || forall k :: 0 <= k < |matching| ==> matching[k].col != res.value
  {
    if res.None? || matching == [] then None
    else if matching[0].col == res.value then Some(matching[0].row)
    else
      var r := AssignedTo(res, matching[1..]);
      assert r.Some? ==> exists k :: 0 <= k < |matching| && matching[k] == Assignment.Pair(r.value, res.value) by {
        if r.Some? {
          var k :| 0 <= k < |matching[1..]| && matching[1..][k] == Assignment.Pair(r.value, res.value);
          assert matching[k + 1] == matching[1..][k];
        }
      }
      assert r.None? ==> forall k :: 1 <= k < |matching| ==> matching[k] == matching[1..][k - 1];
      r
  }

  /** The larger of two possibly missing values; missing only when both are. */
  function MaxPresent(x: Option<real>, y: Option<real>): (r: Option<real>)
    ensures r.None? <==> x.None? && y.None?
    ensures r.Some? ==> (x.Some? ==> r.value >= x.value) && (y.Some? ==> r.value >= y.value)
    ensures r.Some? ==> r == x || r == y
  {
    if x.None? then y else if y.None? then x else Some(Links.Max(x.value, y.value))
  }

  ghost predicate Named(t: Links.SeqLinks, matching: seq<Assignment.Pair>) {
    forall k :: 0 <= k < |matching| ==> matching[k].row in t.names
  }

  /** The mismatch and link count of the pair (i-1 spin system, i spin system). */
  function MismatchAt(t: Links.SeqLinks, a: string, b: string): real
    requires Links.Shaped(t) && a in t.names && b in t.names
  {
    t.mismatch[Assignment.IndexOf(t.names, a).value][Assignment.IndexOf(t.names, b).value]
  }

  function LinksAt(t: Links.SeqLinks, a: string, b: string): nat
    requires Links.Shaped(t) && a in t.names && b in t.names
  {
    t.links[Assignment.IndexOf(t.names, a).value][Assignment.IndexOf(t.names, b).value]
  }

  /**
   * The consistency row of one pair of the matching.  Each side is the spin
   * system that the matching assigns to the residue's i-1 (i+1) neighbour:
   * its mismatch and link count with the pair's own spin system, or no
   * mismatch and no links when the neighbour is missing or unassigned.
   */
  function RowOf(p: Assignment.Pair, matching: seq<Assignment.Pair>, neighbours: seq<Neighbour>, t: Links.SeqLinks, threshold: real): (r: Row)
    requires Links.Shaped(t) && Named(t, matching) && p.row in t.names
    ensures r.ss == p.row && r.res == p.col && r.links == r.linksM1 + r.linksP1
    ensures r.maxMismatch == MaxPresent(r.mismatchM1, r.mismatchP1)
    ensures var ssM1 := AssignedTo(NeighbourOf(p.col, neighbours).m1, matching);
      (ssM1.Some? ==> ssM1.value in t.names) &&
      r.mismatchM1 == (if ssM1.Some? then Some(MismatchAt(t, ssM1.value, p.row)) else None) &&
      r.linksM1 == (if ssM1.Some? then LinksAt(t, ssM1.value, p.row) else 0)
    ensures var ssP1 := AssignedTo(NeighbourOf(p.col, neighbours).p1, matching);
      (ssP1.Some? ==> ssP1.value in t.names) &&
      r.mismatchP1 == (if ssP1.Some? then Some(MismatchAt(t, p.row, ssP1.value)) else None) &&
      r.linksP1 == (if ssP1.Some? then LinksAt(t, p.row, ssP1.value) else 0)
    ensures r.confidence == Confidence(SideLetter(r.linksM1, r.mismatchM1, threshold), SideLetter(r.linksP1, r.mismatchP1, threshold))
  {
    var nb := NeighbourOf(p.col, neighbours);
    var ssM1 := AssignedTo(nb.m1, matching);
    var ssP1 := AssignedTo(nb.p1, matching);
    var mmM1 := if ssM1.Some? then Some(MismatchAt(t, ssM1.value, p.row)) else None;
    var mmP1 := if ssP1.Some? then Some(MismatchAt(t, p.row, ssP1.value)) else None;
    var lM1 := if ssM1.Some? then LinksAt(t, ssM1.value, p.row) else 0;
    var lP1 := if ssP1.Some? then LinksAt(t, p.row, ssP1.value) else 0;
    Row(p.row, p.col, mmM1, mmP1, MaxPresent(mmM1, mmP1), lM1, lP1, lM1 + lP1,
        Confidence(SideLetter(lM1, mmM1, threshold), SideLetter(lP1, mmP1, threshold)))
  }

  /**
   * A residue with no i-1 neighbour in the lookup table (the first residue of
   * a chain) has no i-1 mismatch and no i-1 links, and its i-1 letter is N,
   * never X; likewise for i+1.
   */
  lemma MissingNeighbour(p: Assignment.Pair, matching: seq<Assignment.Pair>, neighbours: seq<Neighbour>, t: Links.SeqLinks, threshold: real)
    requires Links.Shaped(t) && Named(t, matching) && p.row in t.names
    requires forall k :: 0 <= k < |neighbours| ==> neighbours[k].res != p.col
    ensures var r := RowOf(p, matching, neighbours, t, threshold);
      r.mismatchM1.None? && r.mismatchP1.None? && r.maxMismatch.None? && r.links == 0 &&
      SideLetter(r.linksM1, r.mismatchM1, threshold) == 'N' && SideLetter(r.linksP1, r.mismatchP1, threshold) == 'N' &&
      r.confidence == "Undefined"
  {
    assert NeighbourOf(p.col, neighbours) == Neighbour(p.col, None, None);
  }

  /**
   * The consistency table of a matching, one row per pair, in the order of
   * the matching.  Fails when there is no mismatch matrix (no carbon is
   * observed as both an i and an i-1 shift).
   */
  function CheckMatchingConsistency(matching: seq<Assignment.Pair>, neighbours: seq<Neighbour>, t: Option<Links.SeqLinks>, threshold: real)
    : (r: Result<seq<Row>>)
    requires t.Some? ==> Links.Shaped(t.value) && Named(t.value, matching)
    ensures r.Failure? <==> t.None?
    ensures r.Success? ==> |r.value| == |matching| && forall k :: 0 <= k < |matching| ==>
      r.value[k].ss == matching[k].row && r.value[k].res == matching[k].col &&
      r.value[k] == RowOf(matching[k], matching, neighbours, t.value, threshold)
  {
    if t.None? then Failure("no mismatch matrix: there are no sequential atoms")
    else Success(seq(|matching|, k requires 0 <= k < |matching| => RowOf(matching[k], matching, neighbours, t.value, threshold)))
  }

  ghost predicate LinksBounded(t: Links.SeqLinks, bound: nat) {
    forall i, j :: 0 <= i < |t.links| && 0 <= j < |t.links[i]| ==> t.links[i][j] <= bound
  }

  /** Each side contributes at most the bound of the link matrix, so a row's total is at most twice it. */
  lemma RowLinksBounded(p: Assignment.Pair, matching: seq<Assignment.Pair>, neighbours: seq<Neighbour>, t: Links.SeqLinks, threshold: real, bound: nat)
    requires Links.Shaped(t) && Named(t, matching) && p.row in t.names && LinksBounded(t, bound)
    ensures RowOf(p, matching, neighbours, t, threshold).links <= 2 * bound
  {
  }

  /** The matrices of a table of spin systems count at most three links per pair, one per carbon. */
  lemma SeqLinksBounded(obs: seq<SpinSystem>, atoms: seq<Atom>, threshold: real)
    requires |atoms| <= 3
    ensures LinksBounded(Links.SeqLinksOf(obs, atoms, threshold), 3)
  {
  }
}
