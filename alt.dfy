/**
 * The alternative assignments of find_alt_assignments: for every pair of
 * the best matching in turn, the next N best assignments of its spin system
 * (or residue), each found by excluding the pairs already listed for it,
 * with its rank and its total score relative to the best matching.
 */
module AltAssign {
  import opened Wrappers
  import opened Assignment

  /** One row of the result: a pair, its rank (1 for the best matching) and its relative log probability. */
  datatype AltRow = AltRow(ss: string, res: string, rank: nat, relProb: real)

  /** The label a search follows: the spin system when by_ss, else the residue. */
  function Key(p: Pair, bySs: bool): string {
    if bySs then p.row else p.col
  }

  /** The first pair of the matching whose key is `key`. */
  function PairWith(matching: seq<Pair>, key: string, bySs: bool): (p: Pair)
    requires exists k :: 0 <= k < |matching| && Key(matching[k], bySs) == key
    ensures p in matching && Key(p, bySs) == key
  {
    if Key(matching[0], bySs) == key then matching[0]
    else
      var k :| 0 <= k < |matching| && Key(matching[k], bySs) == key;
      assert Key(matching[1..][k - 1], bySs) == key;
      PairWith(matching[1..], key, bySs)
  }

  /** A perfect matching holds a pair for every spin system and every residue of the matrix. */
  lemma KeyCovered(m: ScoreMatrix, matching: seq<Pair>, key: string, bySs: bool)
    requires WellFormed(m) && PerfectMatching(m, matching)
    requires if bySs then key in m.rows else key in m.cols
    ensures exists k :: 0 <= k < |matching| && Key(matching[k], bySs) == key
  {
    PerfectMatchingCovers(m, matching);
    if bySs {
      var k :| 0 <= k < |RowsOf(matching)| && RowsOf(matching)[k] == key;
      assert Key(matching[k], bySs) == key;
    } else {
      var k :| 0 <= k < |ColsOf(matching)| && ColsOf(matching)[k] == key;
      assert Key(matching[k], bySs) == key;
    }
  }

  function PairOf(r: AltRow): Pair {
    Pair(r.ss, r.res)
  }

  /** A row justified by the matching it was taken from: a perfect matching holding its pair, scored relative to the best. */
  ghost predicate Justified(m: ScoreMatrix, bestSum: real, row: AltRow, alt: seq<Pair>)
    requires Square(m)
  {
    PerfectMatching(m, alt) && PairOf(row) in alt && row.relProb == MatchingScore(m, alt) - bestSum
  }

  /** Justification as a predicate value. */
  ghost function JustifiedBy(m: ScoreMatrix, bestSum: real): (AltRow, seq<Pair>) -> bool {
    (row, alt) => Square(m) && Justified(m, bestSum, row, alt)
  }

  ghost predicate AllJustified(m: ScoreMatrix, bestSum: real, rows: seq<AltRow>, alts: seq<seq<Pair>>) {
    |rows| == |alts| && forall k :: 0 <= k < |rows| ==> JustifiedBy(m, bestSum)(rows[k], alts[k])
  }

  lemma JustifiedConcat(m: ScoreMatrix, bestSum: real, rows: seq<AltRow>, alts: seq<seq<Pair>>, more: seq<AltRow>, moreAlts: seq<seq<Pair>>)
    requires AllJustified(m, bestSum, rows, alts) && AllJustified(m, bestSum, more, moreAlts)
    ensures AllJustified(m, bestSum, rows + more, alts + moreAlts)
  {
    var ok := JustifiedBy(m, bestSum);
    forall k | 0 <= k < |rows| + |more| ensures ok((rows + more)[k], (alts + moreAlts)[k]) {
      if k < |rows| {
        assert (rows + more)[k] == rows[k] && (alts + moreAlts)[k] == alts[k];
      } else {
        assert (rows + more)[k] == more[k - |rows|] && (alts + moreAlts)[k] == moreAlts[k - |rows|];
      }
    }
  }

  /** A row justified by a matching that is the best one avoiding `excluded`, as a predicate value. */
  ghost function Avoiding(m: ScoreMatrix, bestSum: real, dummyRows: set<string>, dummyCols: set<string>)
    : (AltRow, seq<Pair>, seq<Pair>) -> bool
  {
    (row, alt, excluded) => Square(m) && Justified(m, bestSum, row, alt)
      && BestUnder(m, true, None, Some(excluded), dummyRows, dummyCols, alt)
  }

  lemma AvoidingIntro(m: ScoreMatrix, bestSum: real, dummyRows: set<string>, dummyCols: set<string>,
                      row: AltRow, alt: seq<Pair>, excluded: seq<Pair>)
    requires Square(m) && Justified(m, bestSum, row, alt)
    requires BestUnder(m, true, None, Some(excluded), dummyRows, dummyCols, alt)
    ensures Avoiding(m, bestSum, dummyRows, dummyCols)(row, alt, excluded)
  {
  }

  /**
   * One round: the best assignment avoiding `excluded`, and the row of its
   * pair with the given key at the given rank.
   */
  method AltStep(m: ScoreMatrix, excluded: seq<Pair>, key: string, bySs: bool, rank: nat, bestSum: real,
                 dummyRows: set<string>, dummyCols: set<string>)
    returns (row: AltRow, matching: seq<Pair>)
    requires Square(m) && if bySs then key in m.rows else key in m.cols
    ensures row.rank == rank && Key(PairOf(row), bySs) == key
    ensures Avoiding(m, bestSum, dummyRows, dummyCols)(row, matching, excluded)
  {
    var alt := FindBestAssignment(m, true, None, Some(excluded), Some(dummyRows), Some(dummyCols), false);
    matching := alt.value;
    KeyCovered(m, matching, key, bySs);
    var q := PairWith(matching, key, bySs);
    row := AltRow(q.row, q.col, rank, MatchingScore(m, matching) - bestSum);
    AvoidingIntro(m, bestSum, dummyRows, dummyCols, row, matching, excluded);
  }

  lemma PrefixOfAppend<T>(s: seq<T>, x: T)
    ensures forall j :: 0 <= j <= |s| ==> (s + [x])[..j] == s[..j]
  {
    forall j | 0 <= j <= |s| ensures (s + [x])[..j] == s[..j] {
      assert forall i :: 0 <= i < j ==> (s + [x])[..j][i] == s[..j][i];
    }
  }

  /** The structural invariant of the inner loop survives one more round. */
  lemma GroupExtends(group: seq<AltRow>, excluded: seq<Pair>, row: AltRow, key: string, bySs: bool)
    requires |excluded| == |group| + 1
    requires forall j :: 0 <= j < |group| ==> excluded[j + 1] == PairOf(group[j])
    requires forall j :: 0 <= j < |group| ==> group[j].rank == j + 2 && Key(PairOf(group[j]), bySs) == key
    requires row.rank == |group| + 2 && Key(PairOf(row), bySs) == key
    ensures forall j :: 0 <= j < |group| + 1 ==> (excluded + [PairOf(row)])[j + 1] == PairOf((group + [row])[j])
    ensures forall j :: 0 <= j < |group| + 1 ==>
      (group + [row])[j].rank == j + 2 && Key(PairOf((group + [row])[j]), bySs) == key
  {
  }

  /** The justification invariant of the inner loop survives one more round. */
  lemma JustifiedExtends(ok: (AltRow, seq<Pair>, seq<Pair>) -> bool, group: seq<AltRow>, alts: seq<seq<Pair>>,
                         excluded: seq<Pair>, row: AltRow, matching: seq<Pair>)
    requires |group| == |alts| && |excluded| == |group| + 1
    requires forall j :: 0 <= j < |group| ==> ok(group[j], alts[j], excluded[..j + 1])
    requires ok(row, matching, excluded)
    ensures forall j :: 0 <= j < |group| + 1 ==>
      ok((group + [row])[j], (alts + [matching])[j], (excluded + [PairOf(row)])[..j + 1])
  {
    PrefixOfAppend(excluded, PairOf(row));
    assert excluded == (excluded + [PairOf(row)])[..|group| + 1];
  }

  /**
   * The inner loop for one pair p of the best matching: N rounds, each
   * finding the best assignment that avoids the pairs excluded so far (p
   * and the alternatives already found), listing its pair with p's key at
   * rank j + 2, and excluding that pair in turn.  `excluded` is the final
   * exclusion list.
   */
  method AltGroup(m: ScoreMatrix, p: Pair, n: nat, bySs: bool, bestSum: real, dummyRows: set<string>, dummyCols: set<string>)
    returns (group: seq<AltRow>, alts: seq<seq<Pair>>, excluded: seq<Pair>)
    requires Square(m) && p.row in m.rows && p.col in m.cols
    ensures |group| == n && |alts| == n && |excluded| == n + 1 && excluded[0] == p
    ensures forall j :: 0 <= j < n ==> excluded[j + 1] == PairOf(group[j])
    ensures forall j :: 0 <= j < n ==> group[j].rank == j + 2 && Key(PairOf(group[j]), bySs) == Key(p, bySs)
    ensures forall j :: 0 <= j < n ==> Avoiding(m, bestSum, dummyRows, dummyCols)(group[j], alts[j], excluded[..j + 1])
  {
    ghost var ok := Avoiding(m, bestSum, dummyRows, dummyCols);
    group, alts := [], [];
    excluded := [p];
    var key := Key(p, bySs);
    for j := 0 to n
      invariant |group| == j && |alts| == j && |excluded| == j + 1 && excluded[0] == p
      invariant forall j' :: 0 <= j' < j ==> excluded[j' + 1] == PairOf(group[j'])
      invariant forall j' :: 0 <= j' < j ==> group[j'].rank == j' + 2 && Key(PairOf(group[j']), bySs) == key
      invariant forall j' :: 0 <= j' < j ==> ok(group[j'], alts[j'], excluded[..j' + 1])
    {
      var row, matching := AltStep(m, excluded, key, bySs, j + 2, bestSum, dummyRows, dummyCols);
      GroupExtends(group, excluded, row, key, bySs);
      JustifiedExtends(ok, group, alts, excluded, row, matching);
      group, alts := group + [row], alts + [matching];
      excluded := excluded + [PairOf(row)];
    }
  }

  /** A group's rows are justified. */
  lemma GroupJustified(m: ScoreMatrix, bestSum: real, dummyRows: set<string>, dummyCols: set<string>,
                       group: seq<AltRow>, alts: seq<seq<Pair>>, excluded: seq<Pair>)
    requires |group| == |alts| && |excluded| == |group| + 1
    requires forall j :: 0 <= j < |group| ==> Avoiding(m, bestSum, dummyRows, dummyCols)(group[j], alts[j], excluded[..j + 1])
    ensures AllJustified(m, bestSum, group, alts)
  {
    forall j | 0 <= j < |group| ensures JustifiedBy(m, bestSum)(group[j], alts[j]) {
      assert Avoiding(m, bestSum, dummyRows, dummyCols)(group[j], alts[j], excluded[..j + 1]);
    }
  }

  /** The pairs of some rows, in order. */
  function PairsOf(rows: seq<AltRow>): (ps: seq<Pair>)
    ensures |ps| == |rows| && forall k :: 0 <= k < |rows| ==> ps[k] == PairOf(rows[k])
  {
    seq(|rows|, k requires 0 <= k < |rows| => PairOf(rows[k]))
  }

  /**
   * The alternatives found for the pair p of the best matching, as a
   * predicate value: the j-th row has rank j + 2, carries p's key, and comes
   * from the best assignment that avoids p and the j alternatives before it.
   */
  ghost function GroupOf(m: ScoreMatrix, bestSum: real, bySs: bool, dummyRows: set<string>, dummyCols: set<string>)
    : (Pair, seq<AltRow>, seq<seq<Pair>>) -> bool
  {
    (p: Pair, group: seq<AltRow>, alts: seq<seq<Pair>>) => |group| == |alts| && forall j :: 0 <= j < |group| ==>
      group[j].rank == j + 2 && Key(PairOf(group[j]), bySs) == Key(p, bySs)
      && Avoiding(m, bestSum, dummyRows, dummyCols)(group[j], alts[j], [p] + PairsOf(group[..j]))
  }

  /** What AltGroup ensures, stated as GroupOf. */
  lemma GroupShaped(m: ScoreMatrix, bestSum: real, bySs: bool, dummyRows: set<string>, dummyCols: set<string>,
                    p: Pair, group: seq<AltRow>, alts: seq<seq<Pair>>, excluded: seq<Pair>)
    requires |group| == |alts| && |excluded| == |group| + 1 && excluded[0] == p
    requires forall j :: 0 <= j < |group| ==> excluded[j + 1] == PairOf(group[j])
    requires forall j :: 0 <= j < |group| ==> group[j].rank == j + 2 && Key(PairOf(group[j]), bySs) == Key(p, bySs)
    requires forall j :: 0 <= j < |group| ==> Avoiding(m, bestSum, dummyRows, dummyCols)(group[j], alts[j], excluded[..j + 1])
    ensures GroupOf(m, bestSum, bySs, dummyRows, dummyCols)(p, group, alts)
  {
    ExcludedPrefixes(p, group, excluded);
    var ok := Avoiding(m, bestSum, dummyRows, dummyCols);
    forall j | 0 <= j < |group| ensures ok(group[j], alts[j], [p] + PairsOf(group[..j])) {
      assert excluded[..j + 1] == [p] + PairsOf(group[..j]);
    }
  }

  /** Each prefix of the exclusion list is p followed by the pairs of the rows found before. */
  lemma ExcludedPrefixes(p: Pair, group: seq<AltRow>, excluded: seq<Pair>)
    requires |excluded| == |group| + 1 && excluded[0] == p
    requires forall j :: 0 <= j < |group| ==> excluded[j + 1] == PairOf(group[j])
    ensures forall j :: 0 <= j < |group| ==> excluded[..j + 1] == [p] + PairsOf(group[..j])
  {
    forall j | 0 <= j < |group| ensures excluded[..j + 1] == [p] + PairsOf(group[..j]) {
      assert forall k :: 0 <= k < j ==> excluded[..j + 1][k + 1] == PairsOf(group[..j])[k];
    }
  }

  /** Where the alternatives for the i-th pair of the best matching start, after the b rows of rank 1. */
  function GroupStart(b: nat, n: nat, i: nat): nat {
    b + i * n
  }

  /** The group invariant of the outer loop survives one more group. */
  lemma GroupsExtend(ok: (Pair, seq<AltRow>, seq<seq<Pair>>) -> bool, best: seq<Pair>, n: nat, i: nat,
                     rows: seq<AltRow>, alts: seq<seq<Pair>>, group: seq<AltRow>, groupAlts: seq<seq<Pair>>)
    requires i < |best| && |rows| == |alts| == GroupStart(|best|, n, i) && |group| == |groupAlts| == n
    requires forall i' :: 0 <= i' < i ==> GroupStart(|best|, n, i') + n <= |rows|
    requires forall i' :: 0 <= i' < i ==> ok(best[i'], rows[GroupStart(|best|, n, i')..GroupStart(|best|, n, i') + n],
                                                       alts[GroupStart(|best|, n, i')..GroupStart(|best|, n, i') + n])
    requires ok(best[i], group, groupAlts)
    ensures forall i' :: 0 <= i' < i + 1 ==> GroupStart(|best|, n, i') + n <= |rows + group|
    ensures forall i' :: 0 <= i' < i + 1 ==>
      ok(best[i'], (rows + group)[GroupStart(|best|, n, i')..GroupStart(|best|, n, i') + n],
                   (alts + groupAlts)[GroupStart(|best|, n, i')..GroupStart(|best|, n, i') + n])
  {
    forall i' | 0 <= i' < i + 1
      ensures GroupStart(|best|, n, i') + n <= |rows + group|
      ensures ok(best[i'], (rows + group)[GroupStart(|best|, n, i')..GroupStart(|best|, n, i') + n],
                           (alts + groupAlts)[GroupStart(|best|, n, i')..GroupStart(|best|, n, i') + n])
    {
      var lo := GroupStart(|best|, n, i');
      if i' < i {
        assert (rows + group)[lo..lo + n] == rows[lo..lo + n];
        assert (alts + groupAlts)[lo..lo + n] == alts[lo..lo + n];
      } else {
        assert (rows + group)[lo..lo + n] == group;
        assert (alts + groupAlts)[lo..lo + n] == groupAlts;
      }
    }
  }

  /** Rank 1 and relative probability 0 for every pair of the best matching. */
  function BestRows(best: seq<Pair>): (r: seq<AltRow>)
    ensures |r| == |best| && forall k :: 0 <= k < |best| ==> r[k] == AltRow(best[k].row, best[k].col, 1, 0.0)
  {
    seq(|best|, k requires 0 <= k < |best| => AltRow(best[k].row, best[k].col, 1, 0.0))
  }

  lemma BestJustified(m: ScoreMatrix, best: seq<Pair>)
    requires Square(m) && PerfectMatching(m, best)
    ensures AllJustified(m, MatchingScore(m, best), BestRows(best), seq(|best|, k => best))
  {
    var rows := BestRows(best);
    forall k | 0 <= k < |best| ensures JustifiedBy(m, MatchingScore(m, best))(rows[k], best) {
      assert PairOf(rows[k]) == best[k];
    }
  }

  /** The structural invariant of the outer loop survives one more group. */
  lemma RowsExtend(best: seq<Pair>, n: nat, i: nat, rows: seq<AltRow>, group: seq<AltRow>)
    requires |rows| == |best| + i * n && rows[..|best|] == BestRows(best)
    requires forall k :: |best| <= k < |rows| ==> 2 <= rows[k].rank <= n + 1
    requires |group| == n && forall j :: 0 <= j < n ==> group[j].rank == j + 2
    ensures |rows + group| == |best| + (i + 1) * n && (rows + group)[..|best|] == BestRows(best)
    ensures forall k :: |best| <= k < |rows + group| ==> 2 <= (rows + group)[k].rank <= n + 1
  {
    assert (rows + group)[..|best|] == rows[..|best|];
    forall k | |best| <= k < |rows + group| ensures 2 <= (rows + group)[k].rank <= n + 1 {
      if k >= |rows| {
        assert (rows + group)[k] == group[k - |rows|];
      }
    }
  }

  /** The state of find_alt_assignments after the groups of the first i pairs of the best matching. */
  ghost predicate AfterGroups(m: ScoreMatrix, best: seq<Pair>, n: nat, bySs: bool, dummyRows: set<string>, dummyCols: set<string>,
                              i: nat, rows: seq<AltRow>, alts: seq<seq<Pair>>)
    requires Square(m)
  {
    && PerfectMatching(m, best) && i <= |best| && |rows| == |best| + i * n
    && rows[..|best|] == BestRows(best)
    && (forall k :: |best| <= k < |rows| ==> 2 <= rows[k].rank <= n + 1)
    && AllJustified(m, MatchingScore(m, best), rows, alts)
    && (forall i' :: 0 <= i' < i ==> GroupStart(|best|, n, i') + n <= |rows|)
    && (forall i' :: 0 <= i' < i ==>
          GroupOf(m, MatchingScore(m, best), bySs, dummyRows, dummyCols)(
            best[i'], rows[GroupStart(|best|, n, i')..GroupStart(|best|, n, i') + n],
                      alts[GroupStart(|best|, n, i')..GroupStart(|best|, n, i') + n]))
  }

  /** One round of the outer loop: the alternatives for the i-th pair of the best matching, appended. */
  method AddGroup(m: ScoreMatrix, best: seq<Pair>, n: nat, bySs: bool, dummyRows: set<string>, dummyCols: set<string>,
                  i: nat, rows: seq<AltRow>, alts: seq<seq<Pair>>)
    returns (rows': seq<AltRow>, alts': seq<seq<Pair>>)
    requires Square(m) && PerfectMatching(m, best) && i < |best|
    requires AfterGroups(m, best, n, bySs, dummyRows, dummyCols, i, rows, alts)
    ensures AfterGroups(m, best, n, bySs, dummyRows, dummyCols, i + 1, rows', alts')
  {
    var bestSum := MatchingScore(m, best);
    assert best[i] in best;
    PerfectMatchingCovers(m, best);
    var group, groupAlts, excluded := AltGroup(m, best[i], n, bySs, bestSum, dummyRows, dummyCols);
    GroupJustified(m, bestSum, dummyRows, dummyCols, group, groupAlts, excluded);
    JustifiedConcat(m, bestSum, rows, alts, group, groupAlts);
    RowsExtend(best, n, i, rows, group);
    GroupShaped(m, bestSum, bySs, dummyRows, dummyCols, best[i], group, groupAlts, excluded);
    GroupsExtend(GroupOf(m, bestSum, bySs, dummyRows, dummyCols), best, n, i, rows, alts, group, groupAlts);
    rows', alts' := rows + group, alts + groupAlts;
  }

  /**
   * find_alt_assignments on the best matching: its own rows first, then for
   * each of its pairs the N alternatives, in order.  Each row comes with the
   * perfect matching it was taken from (the best matching for rank 1), and
   * the i-th group of N rows is the i-th pair's alternatives as GroupOf
   * describes them.
   */
  method FindAltAssignments(m: ScoreMatrix, best: seq<Pair>, n: nat, bySs: bool, dummyRows: set<string>, dummyCols: set<string>)
    returns (rows: seq<AltRow>, alts: seq<seq<Pair>>)
    requires Square(m) && PerfectMatching(m, best)
    ensures |rows| == |best| + |best| * n
    ensures rows[..|best|] == BestRows(best)
    ensures forall k :: |best| <= k < |rows| ==> 2 <= rows[k].rank <= n + 1
    ensures AllJustified(m, MatchingScore(m, best), rows, alts)
    ensures forall i :: 0 <= i < |best| ==> GroupStart(|best|, n, i) + n <= |rows|
    ensures forall i :: 0 <= i < |best| ==>
      GroupOf(m, MatchingScore(m, best), bySs, dummyRows, dummyCols)(
        best[i], rows[GroupStart(|best|, n, i)..GroupStart(|best|, n, i) + n],
                 alts[GroupStart(|best|, n, i)..GroupStart(|best|, n, i) + n])
  {
    rows := BestRows(best);
    alts := seq(|best|, k => best);
    BestJustified(m, best);
    for i := 0 to |best|
      invariant AfterGroups(m, best, n, bySs, dummyRows, dummyCols, i, rows, alts)
    {
      rows, alts := AddGroup(m, best, n, bySs, dummyRows, dummyCols, i, rows, alts);
    }
  }
}
