/**
 * The consistency hill-climb (find_consistent_assignments): starting from the
 * best assignment, the pairs that are already well linked to their
 * neighbours are held fixed, the k best assignments under that constraint are
 * searched, and one of them replaces the incumbent when it is more
 * consistent.  The climb is given twice: as written, where the incumbent and
 * the candidates are scored with different mismatch cutoffs and nothing
 * bounds the number of rounds (so it carries fuel), and corrected, with one
 * cutoff, which always terminates.
 */
module HillClimb {
  import opened Wrappers
  import opened ShiftTables
  import opened Assignment
  import KBest
  import Links
  import Consistency

  /** 2 to the power k. */
  function Pow2(k: nat): (r: nat)
    ensures r >= 1
  {
    if k == 0 then 1 else 2 * Pow2(k - 1)
  }

  lemma {:induction false} Pow2Monotone(a: nat, b: nat)
    requires a <= b
    ensures Pow2(a) <= Pow2(b)
    decreases b
  {
    if a < b {
      Pow2Monotone(a, b - 1);
    }
  }

  /** A comparison with a missing value (NaN) is false. */
  predicate Below(x: Option<real>, cutoff: real) {
    x.Some? && x.value < cutoff
  }

  /** The weight of one row: 2 to the number of good links when its largest mismatch is below the cutoff, else 0. */
  function Weight(row: Consistency.Row, cutoff: real): nat {
    if Below(row.maxMismatch, cutoff) then Pow2(row.links) else 0
  }

  /** The consistency sum of a table: the sum of its rows' weights. */
  function ConsistencySum(rows: seq<Consistency.Row>, cutoff: real): nat
    decreases |rows|
  {
    if rows == [] then 0 else Weight(rows[0], cutoff) + ConsistencySum(rows[1..], cutoff)
  }

  // ---------------------------------------------------------------------
  // Properties of the consistency sum
  // ---------------------------------------------------------------------

  /** A larger cutoff never lowers the sum. */
  lemma {:induction false} ConsistencySumMonotone(rows: seq<Consistency.Row>, a: real, b: real)
    requires a <= b
    ensures ConsistencySum(rows, a) <= ConsistencySum(rows, b)
    decreases |rows|
  {
    if rows != [] {
      ConsistencySumMonotone(rows[1..], a, b);
    }
  }

  /** A row whose largest mismatch lies between the two cutoffs makes the sum under the larger one strictly greater. */
  lemma {:induction false} NearMissRaisesSum(rows: seq<Consistency.Row>, a: real, b: real, k: nat)
    requires a <= b && k < |rows|
    requires rows[k].maxMismatch.Some? && a <= rows[k].maxMismatch.value < b
    ensures ConsistencySum(rows, a) < ConsistencySum(rows, b)
    decreases |rows|
  {
    if k == 0 {
      ConsistencySumMonotone(rows[1..], a, b);
    } else {
      assert rows[1..][k - 1] == rows[k];
      NearMissRaisesSum(rows[1..], a, b, k - 1);
    }
  }

  /** With at most `bound` links per row the sum is at most |rows| * 2^bound. */
  lemma {:induction false} ConsistencySumBounded(rows: seq<Consistency.Row>, cutoff: real, bound: nat)
    requires forall k :: 0 <= k < |rows| ==> rows[k].links <= bound
    ensures ConsistencySum(rows, cutoff) <= |rows| * Pow2(bound)
    decreases |rows|
  {
    if rows != [] {
      var p := Pow2(bound);
      Pow2Monotone(rows[0].links, bound);
      assert Weight(rows[0], cutoff) <= p;
      assert forall k :: 0 <= k < |rows[1..]| ==> rows[1..][k] == rows[k + 1];
      ConsistencySumBounded(rows[1..], cutoff, bound);
      assert |rows| * p == (|rows| - 1) * p + p;
    }
  }

  // ---------------------------------------------------------------------
  // The search context
  // ---------------------------------------------------------------------

  /** What the climb reads from the assigner: the score matrix, the neighbour lookup, the link matrices and the dummy labels. */
  datatype Context = Context(m: ScoreMatrix, neighbours: seq<Neighbour>, links: Links.SeqLinks,
                             dummyRows: set<string>, dummyCols: set<string>)

  /** The link matrices cover every spin system of the score matrix and count at most one link per carbon. */
  ghost predicate ContextValid(ctx: Context) {
    && Square(ctx.m)
    && Links.Shaped(ctx.links)
    && (forall x :: x in ctx.m.rows ==> x in ctx.links.names)
    && Consistency.LinksBounded(ctx.links, 3)
  }

  lemma NamedMatching(ctx: Context, matching: seq<Pair>)
    requires ContextValid(ctx) && PerfectMatching(ctx.m, matching)
    ensures Consistency.Named(ctx.links, matching)
  {
  }

  /** The consistency table of a matching, with the default threshold 0.2. */
  function Table(ctx: Context, matching: seq<Pair>): (rows: seq<Consistency.Row>)
    requires ContextValid(ctx) && PerfectMatching(ctx.m, matching)
    ensures |rows| == |matching|
    ensures forall k :: 0 <= k < |rows| ==> rows[k].ss == matching[k].row && rows[k].res == matching[k].col
  {
    NamedMatching(ctx, matching);
    Consistency.CheckMatchingConsistency(matching, ctx.neighbours, Some(ctx.links), 0.2).value
  }

  function Score(ctx: Context, matching: seq<Pair>, cutoff: real): nat
    requires ContextValid(ctx) && PerfectMatching(ctx.m, matching)
  {
    ConsistencySum(Table(ctx, matching), cutoff)
  }

  /** No score exceeds six links (two sides, three carbons each) on every pair. */
  lemma ScoreBounded(ctx: Context, matching: seq<Pair>, cutoff: real)
    requires ContextValid(ctx) && PerfectMatching(ctx.m, matching)
    ensures Score(ctx, matching, cutoff) <= |ctx.m.rows| * Pow2(6)
  {
    var rows := Table(ctx, matching);
    NamedMatching(ctx, matching);
    forall k | 0 <= k < |rows| ensures rows[k].links <= 6 {
      assert matching[k].row in ctx.links.names;
      Consistency.RowLinksBounded(matching[k], matching, ctx.neighbours, ctx.links, 0.2, 3);
    }
    ConsistencySumBounded(rows, cutoff, 6);
  }

  /** The pairs held fixed: those with a largest mismatch below 0.2 and at least four good links, in table order. */
  function ForcedIncludes(rows: seq<Consistency.Row>): (inc: seq<Pair>)
    ensures forall p :: p in inc <==> exists k :: 0 <= k < |rows| && p == Pair(rows[k].ss, rows[k].res)
                                                  && Below(rows[k].maxMismatch, 0.2) && rows[k].links >= 4
    decreases |rows|
  {
    if rows == [] then []
    else
      var rest := ForcedIncludes(rows[1..]);
      assert forall k :: 1 <= k < |rows| ==> rows[k] == rows[1..][k - 1];
      assert forall p :: p in rest ==> exists k :: 1 <= k < |rows| && p == Pair(rows[k].ss, rows[k].res)
                                             && Below(rows[k].maxMismatch, 0.2) && rows[k].links >= 4 by {
        forall p | p in rest ensures exists k :: 1 <= k < |rows| && p == Pair(rows[k].ss, rows[k].res)
                                             && Below(rows[k].maxMismatch, 0.2) && rows[k].links >= 4 {
          var j :| 0 <= j < |rows[1..]| && p == Pair(rows[1..][j].ss, rows[1..][j].res)
                   && Below(rows[1..][j].maxMismatch, 0.2) && rows[1..][j].links >= 4;
          assert rows[j + 1] == rows[1..][j];
        }
      }
      (if Below(rows[0].maxMismatch, 0.2) && rows[0].links >= 4 then [Pair(rows[0].ss, rows[0].res)] else []) + rest
  }

  /** Rows with distinct spin systems and distinct residues force pairs that share no row and no column. */
  lemma {:induction false} ForcedDistinct(rows: seq<Consistency.Row>)
    requires forall a, b :: 0 <= a < b < |rows| ==> rows[a].ss != rows[b].ss && rows[a].res != rows[b].res
    ensures Distinct(RowsOf(ForcedIncludes(rows))) && Distinct(ColsOf(ForcedIncludes(rows)))
    decreases |rows|
  {
    if rows != [] {
      var tail := rows[1..];
      assert forall k :: 0 <= k < |tail| ==> tail[k] == rows[k + 1];
      ForcedDistinct(tail);
      var rest := ForcedIncludes(tail);
      var head := Pair(rows[0].ss, rows[0].res);
      if Below(rows[0].maxMismatch, 0.2) && rows[0].links >= 4 {
        forall q | q in rest ensures q.row != head.row && q.col != head.col {
          var k :| 0 <= k < |tail| && q == Pair(tail[k].ss, tail[k].res) && Below(tail[k].maxMismatch, 0.2) && tail[k].links >= 4;
        }
        ConsConflictFree(head, rest);
        assert ForcedIncludes(rows) == [head] + rest;
      } else {
        assert ForcedIncludes(rows) == rest;
      }
    }
  }

  /** The forced pairs are pairs of the incumbent, so their labels are the matrix's. */
  lemma ForcedLabels(ctx: Context, matching: seq<Pair>)
    requires ContextValid(ctx) && PerfectMatching(ctx.m, matching)
    ensures Labels(ctx.m, ForcedIncludes(Table(ctx, matching)))
  {
    var rows := Table(ctx, matching);
    var inc := ForcedIncludes(rows);
    forall p | p in inc ensures p in matching {
      var k :| 0 <= k < |rows| && p == Pair(rows[k].ss, rows[k].res) && Below(rows[k].maxMismatch, 0.2) && rows[k].links >= 4;
      assert p == matching[k];
    }
    LabelsOfMembers(ctx.m, inc, matching);
  }

  // ---------------------------------------------------------------------
  // One round
  // ---------------------------------------------------------------------

  /** The forced pairs of a perfect matching share no row and no column. */
  lemma ForcedConflictFree(ctx: Context, matching: seq<Pair>)
    requires ContextValid(ctx) && PerfectMatching(ctx.m, matching)
    ensures KBest.ConflictFree(Some(ForcedIncludes(Table(ctx, matching))))
  {
    var rows := Table(ctx, matching);
    forall a, b | 0 <= a < b < |rows| ensures rows[a].ss != rows[b].ss && rows[a].res != rows[b].res {
      assert RowsOf(matching)[a] != RowsOf(matching)[b];
      assert ColsOf(matching)[a] != ColsOf(matching)[b];
    }
    ForcedDistinct(rows);
  }

  /**
   * The candidates of a round from an incumbent: `searchDepth` nodes in the
   * ascending order of the ranking, each the best node under its constraints,
   * each including the incumbent's forced pairs and holding them in its
   * matching, and together the ranked list of a k-best search from the
   * forced pairs.
   */
  ghost predicate CandidatesOf(ctx: Context, incumbent: seq<Pair>, searchDepth: nat, ranked: seq<KBest.Node>)
    requires ContextValid(ctx) && PerfectMatching(ctx.m, incumbent)
  {
    && (exists unranked :: KBest.Search(ctx.m, ctx.dummyRows, ctx.dummyCols, Some(ForcedIncludes(Table(ctx, incumbent))), None, ranked, unranked))
    && |ranked| == searchDepth && KBest.Sorted(ranked)
    && KBest.Every(ranked, KBest.Valid(ctx.m, ctx.dummyRows, ctx.dummyCols))
    && forall i :: 0 <= i < |ranked| ==> forall p :: p in ForcedIncludes(Table(ctx, incumbent)) ==>
         p in KBest.OrEmpty(ranked[i].inc) && p in ranked[i].matching
  }

  /** The k-best search from the incumbent's forced pairs runs out before it has ranked `searchDepth` nodes. */
  ghost predicate SearchRunsOut(ctx: Context, incumbent: seq<Pair>, searchDepth: nat)
    requires ContextValid(ctx) && PerfectMatching(ctx.m, incumbent)
  {
    KBest.SearchRunsOut(ctx.m, ctx.dummyRows, ctx.dummyCols, searchDepth, Some(ForcedIncludes(Table(ctx, incumbent))), None)
  }

  /**
   * The ways a round can fail: the search depth is zero, so there is no
   * candidate to take the maximum of, or the search runs out.
   */
  ghost predicate RoundFails(ctx: Context, incumbent: seq<Pair>, searchDepth: nat)
    requires ContextValid(ctx) && PerfectMatching(ctx.m, incumbent)
  {
    searchDepth == 0 || SearchRunsOut(ctx, incumbent, searchDepth)
  }

  /**
   * The candidates of a round: the k best assignments with the incumbent's
   * well-linked pairs held fixed.  Fails when fewer than k nodes can be
   * ranked.
   */
  method Candidates(ctx: Context, incumbent: seq<Pair>, searchDepth: nat) returns (r: Result<seq<KBest.Node>>)
    requires ContextValid(ctx) && PerfectMatching(ctx.m, incumbent)
    ensures r.Failure? ==> SearchRunsOut(ctx, incumbent, searchDepth)
    ensures r.Success? ==> CandidatesOf(ctx, incumbent, searchDepth, r.value)
    ensures r.Success? ==> forall i :: 0 <= i < |r.value| ==>
      PerfectMatching(ctx.m, r.value[i].matching) && r.value[i].score == MatchingScore(ctx.m, r.value[i].matching)
  {
    var inc0 := ForcedIncludes(Table(ctx, incumbent));
    ForcedLabels(ctx, incumbent);
    ForcedConflictFree(ctx, incumbent);
    var search, ranked, unranked := KBest.FindKBestAssignments(ctx.m, searchDepth, Some(inc0), None, ctx.dummyRows, ctx.dummyCols);
    if search.Failure? {
      assert KBest.Search(ctx.m, ctx.dummyRows, ctx.dummyCols, Some(inc0), None, ranked, []);
      return Failure(search.error);
    }
    RankedAreCandidates(ctx, incumbent, searchDepth, ranked, unranked);
    r := Success(ranked);
  }

  /** A successful search under the incumbent's forced pairs yields its candidates. */
  lemma RankedAreCandidates(ctx: Context, incumbent: seq<Pair>, searchDepth: nat, ranked: seq<KBest.Node>, unranked: seq<KBest.Node>)
    requires ContextValid(ctx) && PerfectMatching(ctx.m, incumbent)
    requires KBest.Search(ctx.m, ctx.dummyRows, ctx.dummyCols, Some(ForcedIncludes(Table(ctx, incumbent))), None, ranked, unranked)
    requires |ranked| == searchDepth && KBest.Sorted(ranked)
    requires KBest.Every(ranked, KBest.Valid(ctx.m, ctx.dummyRows, ctx.dummyCols))
    requires KBest.Every(ranked, KBest.Extends(KBest.OrEmpty(Some(ForcedIncludes(Table(ctx, incumbent))))))
    requires KBest.Every(ranked, KBest.Honoured())
    ensures CandidatesOf(ctx, incumbent, searchDepth, ranked)
    ensures forall i :: 0 <= i < |ranked| ==>
      PerfectMatching(ctx.m, ranked[i].matching) && ranked[i].score == MatchingScore(ctx.m, ranked[i].matching)
  {
    KBest.ValidMatchings(ctx.m, ctx.dummyRows, ctx.dummyCols, ranked);
    var inc0 := ForcedIncludes(Table(ctx, incumbent));
    forall i, p | 0 <= i < |ranked| && p in inc0 ensures p in KBest.OrEmpty(ranked[i].inc) && p in ranked[i].matching {
      assert KBest.Extends(inc0)(ranked[i]) && KBest.Honoured()(ranked[i]);
    }
  }

  /** The consistency sum of every candidate, in order. */
  method ScoreCandidates(ctx: Context, ranked: seq<KBest.Node>, cutoff: real) returns (scores: seq<nat>)
    requires ContextValid(ctx)
    requires forall i :: 0 <= i < |ranked| ==> PerfectMatching(ctx.m, ranked[i].matching)
    ensures |scores| == |ranked|
    ensures forall i :: 0 <= i < |ranked| ==> scores[i] == Score(ctx, ranked[i].matching, cutoff)
  {
    scores := [];
    for i := 0 to |ranked|
      invariant |scores| == i
      invariant forall j :: 0 <= j < i ==> scores[j] == Score(ctx, ranked[j].matching, cutoff)
    {
      scores := scores + [Score(ctx, ranked[i].matching, cutoff)];
    }
  }

  /** The position of the first largest value (list.index(max(list))). */
  method FirstArgMax(s: seq<nat>) returns (k: nat)
    requires |s| > 0
    ensures k < |s|
    ensures forall j :: 0 <= j < |s| ==> s[j] <= s[k]
    ensures forall j :: 0 <= j < k ==> s[j] < s[k]
  {
    k := 0;
    for i := 1 to |s|
      invariant k < i
      invariant forall j :: 0 <= j < i ==> s[j] <= s[k]
      invariant forall j :: 0 <= j < k ==> s[j] < s[k]
    {
      if s[i] > s[k] {
        k := i;
      }
    }
  }

  /**
   * One round: the candidates, scored with `cutoff`, and the position of the
   * first best of them.  Fails when the search fails or finds no candidate.
   */
  method Round(ctx: Context, incumbent: seq<Pair>, searchDepth: nat, cutoff: real) returns (r: Result<(seq<KBest.Node>, nat)>)
    requires ContextValid(ctx) && PerfectMatching(ctx.m, incumbent)
    ensures r.Failure? ==> RoundFails(ctx, incumbent, searchDepth)
    ensures r.Success? ==> var (ranked, k) := r.value;
      CandidatesOf(ctx, incumbent, searchDepth, ranked) && FirstBest(ctx, ranked, k, cutoff)
  {
    var candidates := Candidates(ctx, incumbent, searchDepth);
    if candidates.Failure? {
      return Failure(candidates.error);
    }
    var ranked := candidates.value;
    var tmp := ScoreCandidates(ctx, ranked, cutoff);
    if |tmp| == 0 {
      return Failure("max() arg is an empty sequence: the search depth is zero");
    }
    var k := FirstArgMax(tmp);
    FirstBestIntro(ctx, ranked, tmp, k, cutoff);
    r := Success((ranked, k));
  }

  /** Position k holds the first candidate of greatest consistency sum under the cutoff. */
  ghost predicate FirstBest(ctx: Context, ranked: seq<KBest.Node>, k: nat, cutoff: real)
    requires ContextValid(ctx)
  {
    && k < |ranked|
    && (forall i :: 0 <= i < |ranked| ==> PerfectMatching(ctx.m, ranked[i].matching))
    && (forall i :: 0 <= i < |ranked| ==> Score(ctx, ranked[i].matching, cutoff) <= Score(ctx, ranked[k].matching, cutoff))
    && (forall i :: 0 <= i < k ==> Score(ctx, ranked[i].matching, cutoff) < Score(ctx, ranked[k].matching, cutoff))
  }

  lemma FirstBestIntro(ctx: Context, ranked: seq<KBest.Node>, scores: seq<nat>, k: nat, cutoff: real)
    requires ContextValid(ctx)
    requires forall i :: 0 <= i < |ranked| ==> PerfectMatching(ctx.m, ranked[i].matching)
    requires |scores| == |ranked| && forall i :: 0 <= i < |ranked| ==> scores[i] == Score(ctx, ranked[i].matching, cutoff)
    requires k < |scores| && (forall j :: 0 <= j < |scores| ==> scores[j] <= scores[k]) && (forall j :: 0 <= j < k ==> scores[j] < scores[k])
    ensures FirstBest(ctx, ranked, k, cutoff)
  {
  }

  // ---------------------------------------------------------------------
  // The climb
  // ---------------------------------------------------------------------

  /**
   * One adoption of the climb: y is the first best candidate, under cutoff
   * a, of a round from the incumbent x, and its sum under a exceeds x's
   * under b.
   */
  ghost predicate Adopts(ctx: Context, searchDepth: nat, a: real, b: real, x: seq<Pair>, y: seq<Pair>) {
    && ContextValid(ctx) && PerfectMatching(ctx.m, x) && PerfectMatching(ctx.m, y)
    && (exists ranked: seq<KBest.Node>, k: nat :: CandidatesOf(ctx, x, searchDepth, ranked) && FirstBest(ctx, ranked, k, a) && ranked[k].matching == y)
    && Score(ctx, y, a) > Score(ctx, x, b)
  }

  /** Adopts as a relation value. */
  ghost function AdoptsOf(ctx: Context, searchDepth: nat, a: real, b: real): (seq<Pair>, seq<Pair>) -> bool {
    (x: seq<Pair>, y: seq<Pair>) => Adopts(ctx, searchDepth, a, b, x, y)
  }

  /** The incumbents of a climb, in order: each one after the first adopted from the one before. */
  ghost predicate Path(step: (seq<Pair>, seq<Pair>) -> bool, path: seq<seq<Pair>>) {
    |path| > 0 && forall i :: 0 <= i < |path| - 1 ==> step(path[i], path[i + 1])
  }

  lemma PathExtend(step: (seq<Pair>, seq<Pair>) -> bool, path: seq<seq<Pair>>, y: seq<Pair>)
    requires Path(step, path) && step(path[|path| - 1], y)
    ensures Path(step, path + [y]) && (path + [y])[0] == path[0]
  {
    var path' := path + [y];
    forall i | 0 <= i < |path'| - 1 ensures step(path'[i], path'[i + 1]) {
      assert path'[i] == path[i];
      if i < |path| - 1 {
        assert path'[i + 1] == path[i + 1];
      }
    }
  }

  /** Adopting the first best candidate of a round from the path's last incumbent extends the path. */
  lemma Adopt(ctx: Context, searchDepth: nat, a: real, b: real, path: seq<seq<Pair>>, ranked: seq<KBest.Node>, k: nat)
    requires ContextValid(ctx) && Path(AdoptsOf(ctx, searchDepth, a, b), path) && PerfectMatching(ctx.m, path[|path| - 1])
    requires CandidatesOf(ctx, path[|path| - 1], searchDepth, ranked) && FirstBest(ctx, ranked, k, a)
    requires Score(ctx, ranked[k].matching, a) > Score(ctx, path[|path| - 1], b)
    ensures Adopts(ctx, searchDepth, a, b, path[|path| - 1], ranked[k].matching)
    ensures Path(AdoptsOf(ctx, searchDepth, a, b), path + [ranked[k].matching]) && (path + [ranked[k].matching])[0] == path[0]
  {
    assert Adopts(ctx, searchDepth, a, b, path[|path| - 1], ranked[k].matching);
    PathExtend(AdoptsOf(ctx, searchDepth, a, b), path, ranked[k].matching);
  }

  /** Every adoption along a climb with one cutoff strictly raises the sum, so the last incumbent scores at least as high as the first. */
  lemma {:induction false} PathRaises(ctx: Context, searchDepth: nat, c: real, path: seq<seq<Pair>>)
    requires ContextValid(ctx) && Path(AdoptsOf(ctx, searchDepth, c, c), path) && PerfectMatching(ctx.m, path[0])
    ensures PerfectMatching(ctx.m, path[|path| - 1])
    ensures Score(ctx, path[0], c) + |path| - 1 <= Score(ctx, path[|path| - 1], c)
    decreases |path|
  {
    if |path| > 1 {
      var init := path[..|path| - 1];
      assert Path(AdoptsOf(ctx, searchDepth, c, c), init) by {
        forall i | 0 <= i < |init| - 1 ensures AdoptsOf(ctx, searchDepth, c, c)(init[i], init[i + 1]) {
          assert init[i] == path[i] && init[i + 1] == path[i + 1];
        }
      }
      PathRaises(ctx, searchDepth, c, init);
      assert AdoptsOf(ctx, searchDepth, c, c)(path[|path| - 2], path[|path| - 1]);
    }
  }

  /** When the best candidate of a round does not beat the incumbent, no candidate does. */
  lemma NoneBeats(ctx: Context, ranked: seq<KBest.Node>, k: nat, incumbent: seq<Pair>, a: real, b: real)
    requires ContextValid(ctx) && PerfectMatching(ctx.m, incumbent) && FirstBest(ctx, ranked, k, a)
    requires Score(ctx, ranked[k].matching, a) <= Score(ctx, incumbent, b)
    ensures NoneAbove(ctx, ranked, incumbent, a, b)
  {
  }

  /** No candidate's sum under cutoff a exceeds the incumbent's under b. */
  ghost predicate NoneAbove(ctx: Context, ranked: seq<KBest.Node>, incumbent: seq<Pair>, a: real, b: real)
    requires ContextValid(ctx) && PerfectMatching(ctx.m, incumbent)
  {
    forall i :: 0 <= i < |ranked| ==>
      PerfectMatching(ctx.m, ranked[i].matching) && Score(ctx, ranked[i].matching, a) <= Score(ctx, incumbent, b)
  }

  /** A climb with one cutoff gains at least one per adoption and stays under the bound on the sum. */
  lemma PathBounded(ctx: Context, searchDepth: nat, start: seq<Pair>, path: seq<seq<Pair>>)
    requires Climbing(ctx, searchDepth, 0.1, 0.1)(start, path)
    ensures Score(ctx, start, 0.1) + |path| - 1 <= Score(ctx, path[|path| - 1], 0.1) <= |ctx.m.rows| * Pow2(6)
    ensures |path| <= |ctx.m.rows| * Pow2(6) + 1
  {
    assert Climbed(ctx, searchDepth, 0.1, 0.1, start, path);
    PathRaises(ctx, searchDepth, 0.1, path);
    ScoreBounded(ctx, path[|path| - 1], 0.1);
  }

  /**
   * path is a climb from `start`: its incumbents are perfect matchings, each
   * after the first adopted from the one before.
   */
  ghost predicate Climbed(ctx: Context, searchDepth: nat, a: real, b: real, start: seq<Pair>, path: seq<seq<Pair>>) {
    && ContextValid(ctx) && Path(AdoptsOf(ctx, searchDepth, a, b), path) && path[0] == start
    && PerfectMatching(ctx.m, start) && PerfectMatching(ctx.m, path[|path| - 1])
  }

  /** Climbed as a predicate value. */
  ghost function Climbing(ctx: Context, searchDepth: nat, a: real, b: real): (seq<Pair>, seq<seq<Pair>>) -> bool {
    (start: seq<Pair>, path: seq<seq<Pair>>) => Climbed(ctx, searchDepth, a, b, start, path)
  }

  lemma ClimbStart(ctx: Context, searchDepth: nat, a: real, b: real, start: seq<Pair>)
    requires ContextValid(ctx) && PerfectMatching(ctx.m, start)
    ensures Climbing(ctx, searchDepth, a, b)(start, [start])
  {
    assert Climbed(ctx, searchDepth, a, b, start, [start]);
  }

  /** Adopting the first best candidate of a round from the last incumbent extends the climb. */
  lemma ClimbExtend(ctx: Context, searchDepth: nat, a: real, b: real, start: seq<Pair>, path: seq<seq<Pair>>,
                    ranked: seq<KBest.Node>, k: nat)
    requires ContextValid(ctx) && |path| > 0 && PerfectMatching(ctx.m, path[|path| - 1])
    requires Climbing(ctx, searchDepth, a, b)(start, path)
    requires CandidatesOf(ctx, path[|path| - 1], searchDepth, ranked) && FirstBest(ctx, ranked, k, a)
    requires Score(ctx, ranked[k].matching, a) > Score(ctx, path[|path| - 1], b)
    ensures Adopts(ctx, searchDepth, a, b, path[|path| - 1], ranked[k].matching)
    ensures Climbing(ctx, searchDepth, a, b)(start, path + [ranked[k].matching])
  {
    assert Climbed(ctx, searchDepth, a, b, start, path);
    Adopt(ctx, searchDepth, a, b, path, ranked, k);
    assert Climbed(ctx, searchDepth, a, b, start, path + [ranked[k].matching]);
  }

  /**
   * How a climb whose last incumbent is x ends: a failure only when the
   * round from x fails, and a success only with x itself, where `last` holds
   * the round's candidates and none of them scores above x.
   */
  ghost predicate Outcome(ctx: Context, searchDepth: nat, a: real, b: real, x: seq<Pair>, r: Result<seq<Pair>>, last: seq<KBest.Node>)
    requires ContextValid(ctx) && PerfectMatching(ctx.m, x)
  {
    && (r.Failure? ==> RoundFails(ctx, x, searchDepth))
    && (r.Success? ==> r.value == x && CandidatesOf(ctx, x, searchDepth, last) && NoneAbove(ctx, last, x, a, b))
  }

  /** Outcome as a predicate value. */
  ghost function Ends(ctx: Context, searchDepth: nat, a: real, b: real): (seq<Pair>, Result<seq<Pair>>, seq<KBest.Node>) -> bool {
    (x: seq<Pair>, r: Result<seq<Pair>>, last: seq<KBest.Node>) =>
      ContextValid(ctx) && PerfectMatching(ctx.m, x) && Outcome(ctx, searchDepth, a, b, x, r, last)
  }

  lemma EndsFailing(ctx: Context, searchDepth: nat, a: real, b: real, x: seq<Pair>, error: string)
    requires ContextValid(ctx) && PerfectMatching(ctx.m, x) && RoundFails(ctx, x, searchDepth)
    ensures Ends(ctx, searchDepth, a, b)(x, Failure(error), [])
  {
    assert Outcome(ctx, searchDepth, a, b, x, Failure(error), []);
  }

  /** When the first best candidate does not beat the incumbent, the climb ends with it. */
  lemma EndsSettled(ctx: Context, searchDepth: nat, a: real, b: real, x: seq<Pair>, ranked: seq<KBest.Node>, k: nat)
    requires ContextValid(ctx) && PerfectMatching(ctx.m, x)
    requires CandidatesOf(ctx, x, searchDepth, ranked) && FirstBest(ctx, ranked, k, a)
    requires Score(ctx, ranked[k].matching, a) <= Score(ctx, x, b)
    ensures Ends(ctx, searchDepth, a, b)(x, Success(x), ranked)
  {
    NoneBeats(ctx, ranked, k, x, a, b);
    assert Outcome(ctx, searchDepth, a, b, x, Success(x), ranked);
  }

  /**
   * One round of a climb from the last incumbent x of `path`, with the
   * candidates scored under cutoff a and the incumbent under b.  Fails when
   * the round fails; otherwise yields the adopted candidate, which extends
   * the path, or None when no candidate beats x, and then `last` holds the
   * candidates, none of which scores above x.
   */
  method Advance(ctx: Context, searchDepth: nat, a: real, b: real, ghost start: seq<Pair>, ghost path: seq<seq<Pair>>, x: seq<Pair>)
    returns (r: Result<Option<seq<Pair>>>, last: seq<KBest.Node>)
    requires ContextValid(ctx) && PerfectMatching(ctx.m, x)
    requires |path| > 0 && Climbing(ctx, searchDepth, a, b)(start, path) && path[|path| - 1] == x
    ensures r.Failure? ==> Ends(ctx, searchDepth, a, b)(x, Failure(r.error), [])
    ensures r.Success? && r.value.None? ==> Ends(ctx, searchDepth, a, b)(x, Success(x), last)
    ensures r.Success? && r.value.Some? ==>
      && Adopts(ctx, searchDepth, a, b, x, r.value.value)
      && PerfectMatching(ctx.m, r.value.value)
      && Climbing(ctx, searchDepth, a, b)(start, path + [r.value.value])
  {
    last := [];
    var round := Round(ctx, x, searchDepth, a);
    if round.Failure? {
      EndsFailing(ctx, searchDepth, a, b, x, round.error);
      return Failure(round.error), [];
    }
    var ranked := round.value.0;
    var k := round.value.1;
    if Score(ctx, ranked[k].matching, a) > Score(ctx, x, b) {
      ClimbExtend(ctx, searchDepth, a, b, start, path, ranked, k);
      r := Success(Some(ranked[k].matching));
    } else {
      EndsSettled(ctx, searchDepth, a, b, x, ranked, k);
      r, last := Success(None), ranked;
    }
  }

  /**
   * The climb as written: the incumbent is scored with cutoff 0.1, the
   * candidates with cutoff 0.2, and the first best candidate is adopted while
   * its score exceeds the incumbent's.  Nothing bounds the number of rounds,
   * so the model stops with a failure after `fuel` adoptions.  `path` holds
   * the incumbents in order, from the best assignment, each adopted from the
   * one before.  The climb fails when the fuel runs out or a round fails; on
   * success the result is the last incumbent, no candidate of the last round
   * scores above it, and `last` holds those candidates.
   */
  method FindConsistentAsWritten(ctx: Context, searchDepth: nat, fuel: nat)
    returns (r: Result<seq<Pair>>, last: seq<KBest.Node>, ghost path: seq<seq<Pair>>)
    requires ContextValid(ctx)
    ensures |path| > 0 && Climbing(ctx, searchDepth, 0.2, 0.1)(path[0], path) && |path| <= fuel + 1
    ensures PerfectMatching(ctx.m, path[0]) && BestUnder(ctx.m, true, None, None, ctx.dummyRows, ctx.dummyCols, path[0])
    ensures |path| == fuel + 1 ==> r.Failure?
    ensures |path| <= fuel ==> Ends(ctx, searchDepth, 0.2, 0.1)(path[|path| - 1], r, last)
  {
    var best := FindBestAssignment(ctx.m, true, None, None, Some(ctx.dummyRows), Some(ctx.dummyCols), false);
    var matching0 := best.value;
    path := [matching0];
    ClimbStart(ctx, searchDepth, 0.2, 0.1, matching0);
    var left := fuel;
    last := [];
    while left > 0
      invariant PerfectMatching(ctx.m, matching0)
      invariant |path| > 0 && Climbing(ctx, searchDepth, 0.2, 0.1)(best.value, path) && path[0] == best.value && path[|path| - 1] == matching0
      invariant |path| + left == fuel + 1
      decreases left
    {
      var step, candidates := Advance(ctx, searchDepth, 0.2, 0.1, best.value, path, matching0);
      if step.Failure? {
        r, last := Failure(step.error), [];
        assert Ends(ctx, searchDepth, 0.2, 0.1)(matching0, r, last);
        return;
      }
      if step.value.None? {
        r, last := Success(matching0), candidates;
        assert Ends(ctx, searchDepth, 0.2, 0.1)(matching0, r, last);
        return;
      }
      path := path + [step.value.value];
      matching0 := step.value.value;
      left := left - 1;
    }
    assert |path| == fuel + 1;
    r := Failure("no stable assignment within the fuel bound");
  }

  /**
   * The climb with one cutoff from a given perfect matching: a candidate is
   * adopted only when its consistency sum under 0.1 exceeds the
   * incumbent's.  `path` holds the incumbents in order from `start`, each
   * adopted from the one before; every adoption raises the sum by at least
   * one, and the sum is bounded, so the climb terminates after a bounded
   * number of rounds.  It fails only when a round fails; on success the
   * result is the last incumbent, no candidate of the last round scores above
   * it, and `last` holds those candidates.
   */
  method Climb(ctx: Context, start: seq<Pair>, searchDepth: nat)
    returns (r: Result<seq<Pair>>, last: seq<KBest.Node>, ghost path: seq<seq<Pair>>)
    requires ContextValid(ctx) && PerfectMatching(ctx.m, start)
    ensures |path| > 0 && Climbing(ctx, searchDepth, 0.1, 0.1)(start, path) && PerfectMatching(ctx.m, path[|path| - 1])
    ensures Score(ctx, start, 0.1) + |path| - 1 <= Score(ctx, path[|path| - 1], 0.1) <= |ctx.m.rows| * Pow2(6)
    ensures Ends(ctx, searchDepth, 0.1, 0.1)(path[|path| - 1], r, last)
  {
    var matching0 := start;
    path := [start];
    ClimbStart(ctx, searchDepth, 0.1, 0.1, start);
    last := [];
    ghost var bound := |ctx.m.rows| * Pow2(6) + 1;
    while true
      invariant PerfectMatching(ctx.m, matching0)
      invariant |path| > 0 && Climbing(ctx, searchDepth, 0.1, 0.1)(start, path) && path[|path| - 1] == matching0
      invariant |path| <= bound
      decreases bound - |path|
    {
      var step, candidates := Advance(ctx, searchDepth, 0.1, 0.1, start, path, matching0);
      if step.Failure? || step.value.None? {
        PathBounded(ctx, searchDepth, start, path);
        if step.Failure? {
          return Failure(step.error), [], path;
        }
        return Success(matching0), candidates, path;
      }
      path := path + [step.value.value];
      matching0 := step.value.value;
      PathBounded(ctx, searchDepth, start, path);
    }
  }

  /**
   * find_consistent_assignments with the one cutoff: climb from the best
   * assignment, which is returned as `start`.
   */
  method FindConsistentAssignments(ctx: Context, searchDepth: nat)
    returns (r: Result<seq<Pair>>, start: seq<Pair>, last: seq<KBest.Node>, ghost path: seq<seq<Pair>>)
    requires ContextValid(ctx)
    ensures PerfectMatching(ctx.m, start) && BestUnder(ctx.m, true, None, None, ctx.dummyRows, ctx.dummyCols, start)
    ensures |path| > 0 && Climbing(ctx, searchDepth, 0.1, 0.1)(start, path) && PerfectMatching(ctx.m, path[|path| - 1])
    ensures Score(ctx, start, 0.1) + |path| - 1 <= Score(ctx, path[|path| - 1], 0.1) <= |ctx.m.rows| * Pow2(6)
    ensures Ends(ctx, searchDepth, 0.1, 0.1)(path[|path| - 1], r, last)
  {
    var best := FindBestAssignment(ctx.m, true, None, None, Some(ctx.dummyRows), Some(ctx.dummyCols), false);
    start := best.value;
    r, last, path := Climb(ctx, start, searchDepth);
  }

  // ---------------------------------------------------------------------
  // The two cutoffs of the climb as written
  // ---------------------------------------------------------------------

  /** The test deciding whether the climb as written adopts a candidate over the incumbent. */
  predicate AsWrittenAdopts(incumbent: seq<Consistency.Row>, candidate: seq<Consistency.Row>) {
    ConsistencySum(candidate, 0.2) > ConsistencySum(incumbent, 0.1)
  }

  /**
   * The test as written prefers the incumbent to itself whenever one of its
   * pairs has a largest mismatch in [0.1, 0.2): such a round adopts a
   * matching with the same consistency and repeats.
   */
  lemma AsWrittenReadopts(rows: seq<Consistency.Row>, k: nat)
    requires k < |rows| && rows[k].maxMismatch.Some? && 0.1 <= rows[k].maxMismatch.value < 0.2
    ensures AsWrittenAdopts(rows, rows)
  {
    NearMissRaisesSum(rows, 0.1, 0.2, k);
  }

  /** One pair with a largest mismatch of 0.15 and one good link: the incumbent sums 0 under 0.1 and 2 under 0.2. */
  lemma AsWrittenReadoptsExample()
    ensures var rows := [Consistency.Row("SS1", "  1A", Some(0.15), None, Some(0.15), 1, 0, 1, "High")];
      ConsistencySum(rows, 0.1) == 0 && ConsistencySum(rows, 0.2) == 2 && AsWrittenAdopts(rows, rows)
  {
    var rows := [Consistency.Row("SS1", "  1A", Some(0.15), None, Some(0.15), 1, 0, 1, "High")];
    assert rows[1..] == [];
  }
}
