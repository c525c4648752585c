/**
 * The k best assignments by Murty's ranking algorithm
 * (find_kbest_assignments).  A node is a set of constraints (pairs that must
 * be included, pairs that must be excluded) with the best matching under
 * them.  The best unranked node is repeatedly taken out, split into child
 * nodes that partition the rest of its matchings, and ranked.
 */
module KBest {
  import opened Wrappers
  import opened Assignment

  datatype Node = Node(score: real, matching: seq<Pair>, inc: Option<seq<Pair>>, exc: Option<seq<Pair>>)

  /** Ascending by score, as a sorted list keyed on the score keeps its nodes. */
  ghost predicate Sorted(s: seq<Node>) {
    forall i, j :: 0 <= i < j < |s| ==> s[i].score <= s[j].score
  }

  /** Adds a node to a sorted list, after every node of no greater score. */
  function Insert(s: seq<Node>, n: Node): (r: seq<Node>)
    requires Sorted(s)
    ensures Sorted(r) && multiset(r) == multiset(s) + multiset{n} && |r| == |s| + 1
    decreases |s|
  {
    if s == [] then [n]
    else if s[|s| - 1].score <= n.score then s + [n]
    else
      var init := s[..|s| - 1];
      var last := s[|s| - 1];
      var below := Insert(init, n);
      assert s == init + [last];
      InsertedBelow(below, init, n, last);
      below + [last]
  }

  lemma InsertedBelow(r: seq<Node>, init: seq<Node>, n: Node, last: Node)
    requires Sorted(init + [last]) && n.score < last.score
    requires Sorted(r) && multiset(r) == multiset(init) + multiset{n}
    ensures Sorted(r + [last])
  {
    forall i | 0 <= i < |r| ensures r[i].score <= last.score {
      assert r[i] in multiset(r);
      if r[i] != n {
        assert r[i] in multiset(init);
        var j :| 0 <= j < |init| && init[j] == r[i];
        assert (init + [last])[j] == init[j] && (init + [last])[|init|] == last;
      }
    }
  }

  /** The highest-scoring node of a sorted list and the list without it. */
  function PopBest(s: seq<Node>): (r: (Node, seq<Node>))
    requires Sorted(s) && |s| > 0
    ensures Sorted(r.1) && multiset(s) == multiset(r.1) + multiset{r.0} && |r.1| == |s| - 1
    ensures forall i :: 0 <= i < |s| ==> s[i].score <= r.0.score
  {
    assert s == s[..|s| - 1] + [s[|s| - 1]];
    (s[|s| - 1], s[..|s| - 1])
  }

  /** The pairs in s, each kept at its first occurrence. */
  function Dedup(s: seq<Pair>): (r: seq<Pair>)
    ensures forall p :: p in r <==> p in s
    ensures forall i, j :: 0 <= i < j < |r| ==> r[i] != r[j]
    decreases |s|
  {
    if s == [] then []
    else
      var r := Dedup(s[..|s| - 1]);
      assert forall p :: p in s <==> p in s[..|s| - 1] || p == s[|s| - 1];
      if s[|s| - 1] in r then r else r + [s[|s| - 1]]
  }

  function OrEmpty(s: Option<seq<Pair>>): seq<Pair> {
    if s.Some? then s.value else []
  }

  /** The pairs of the matching whose spin system is not fixed by an include pair. */
  function FreePairs(matching: seq<Pair>, inc: Option<seq<Pair>>): (r: seq<Pair>)
    ensures forall p :: p in r <==> p in matching && (inc.Some? ==> p.row !in RowsOf(inc.value))
    ensures |r| <= |matching|
  {
    if inc.None? then matching
    else if matching == [] then []
    else
      (if matching[0].row !in RowsOf(inc.value) then [matching[0]] else []) + FreePairs(matching[1..], inc)
  }

  /** The i-th child excludes the i-th free pair on top of the parent's exclusions. */
  function ChildExc(free: seq<Pair>, i: nat, exc: Option<seq<Pair>>): (r: seq<Pair>)
    requires i < |free|
    ensures |r| > 0 && r[0] == free[i]
  {
    [free[i]] + OrEmpty(exc)
  }

  /** The i-th child includes the free pairs before the i-th and the parent's include pairs; None when that is nothing. */
  function ChildInc(free: seq<Pair>, i: nat, inc: Option<seq<Pair>>): (r: Option<seq<Pair>>)
    requires i <= |free|
    ensures r.None? <==> i == 0 && |OrEmpty(inc)| == 0
    ensures r.Some? ==> forall p :: p in r.value <==> p in free[..i] || p in OrEmpty(inc)
  {
    var s := Dedup(free[..i] + OrEmpty(inc));
    DedupEmpty(free[..i] + OrEmpty(inc));
    if |s| == 0 then None else Some(s)
  }

  lemma DedupEmpty(s: seq<Pair>)
    ensures |Dedup(s)| == 0 <==> |s| == 0
  {
    if |s| > 0 {
      assert s[0] in Dedup(s);
    }
  }

  /**
   * A node as the search keeps it: its matching is a perfect matching of the
   * matrix, the best under the node's constraints, and its score is the
   * matching's total score.
   */
  ghost predicate NodeValid(m: ScoreMatrix, dummyRows: set<string>, dummyCols: set<string>, n: Node)
    requires Square(m)
  {
    && PerfectMatching(m, n.matching)
    && n.score == MatchingScore(m, n.matching)
    && (n.inc.Some? ==> Labels(m, n.inc.value))
    && BestUnder(m, true, n.inc, n.exc, dummyRows, dummyCols, n.matching)
  }

  /** The validity of nodes, as a predicate value. */
  ghost function Valid(m: ScoreMatrix, dummyRows: set<string>, dummyCols: set<string>): Node -> bool {
    n => Square(m) && NodeValid(m, dummyRows, dummyCols, n)
  }

  ghost predicate Every(s: seq<Node>, ok: Node -> bool) {
    forall i :: 0 <= i < |s| ==> ok(s[i])
  }

  /** Every node of a valid list holds a perfect matching and its score. */
  lemma ValidMatchings(m: ScoreMatrix, dummyRows: set<string>, dummyCols: set<string>, s: seq<Node>)
    requires Every(s, Valid(m, dummyRows, dummyCols))
    ensures |s| > 0 ==> Square(m)
    ensures forall i :: 0 <= i < |s| ==> PerfectMatching(m, s[i].matching) && s[i].score == MatchingScore(m, s[i].matching)
  {
    forall i | 0 <= i < |s| ensures PerfectMatching(m, s[i].matching) && s[i].score == MatchingScore(m, s[i].matching) {
      ValidMatching(m, dummyRows, dummyCols, s[i]);
    }
    if |s| > 0 {
      ValidMatching(m, dummyRows, dummyCols, s[0]);
    }
  }

  lemma ValidMatching(m: ScoreMatrix, dummyRows: set<string>, dummyCols: set<string>, n: Node)
    requires Valid(m, dummyRows, dummyCols)(n)
    ensures Square(m) && PerfectMatching(m, n.matching) && n.score == MatchingScore(m, n.matching)
  {
    assert Square(m) && NodeValid(m, dummyRows, dummyCols, n);
  }

  lemma InsertKeeps(s: seq<Node>, n: Node, ok: Node -> bool)
    requires Sorted(s) && Every(s, ok) && ok(n)
    ensures Every(Insert(s, n), ok)
  {
    var r := Insert(s, n);
    forall i | 0 <= i < |r| ensures ok(r[i]) {
      assert r[i] in multiset(r);
      if r[i] != n {
        assert r[i] in multiset(s);
        var j :| 0 <= j < |s| && s[j] == r[i];
      }
    }
  }

  lemma PopKeeps(s: seq<Node>, ok: Node -> bool)
    requires Sorted(s) && |s| > 0 && Every(s, ok)
    ensures ok(PopBest(s).0) && Every(PopBest(s).1, ok)
  {
    var r := PopBest(s).1;
    forall i | 0 <= i < |r| ensures ok(r[i]) {
      assert r[i] == s[i];
    }
  }

  lemma LabelsAppend(m: ScoreMatrix, a: seq<Pair>, b: seq<Pair>)
    requires Labels(m, a) && Labels(m, b)
    ensures Labels(m, a + b)
  {
    forall t | 0 <= t < |a + b| ensures (a + b)[t].row in m.rows && (a + b)[t].col in m.cols {
      if t >= |a| {
        assert (a + b)[t] == b[t - |a|];
      } else {
        assert (a + b)[t] == a[t];
      }
    }
  }

  /** The constraints of a child have their labels in the matrix. */
  lemma ChildLabels(m: ScoreMatrix, parent: seq<Pair>, parentInc: Option<seq<Pair>>, free: seq<Pair>, i: nat)
    requires Labels(m, parent) && (parentInc.Some? ==> Labels(m, parentInc.value))
    requires forall p :: p in free ==> p in parent
    requires i < |free|
    ensures var inc := ChildInc(free, i, parentInc); inc.Some? ==> Labels(m, inc.value) && Labels(m, CleanIncludes(inc.value))
  {
    var inc := ChildInc(free, i, parentInc);
    if inc.Some? {
      var both := parent + OrEmpty(parentInc);
      LabelsAppend(m, parent, OrEmpty(parentInc));
      forall p | p in inc.value ensures p in both {
        if p in free[..i] {
          assert p in free;
        }
      }
      LabelsOfMembers(m, inc.value, both);
      LabelsOfMembers(m, CleanIncludes(inc.value), inc.value);
    }
  }

  lemma ValidNode(m: ScoreMatrix, dummyRows: set<string>, dummyCols: set<string>, n: Node)
    requires Square(m) && NodeValid(m, dummyRows, dummyCols, n)
    ensures Valid(m, dummyRows, dummyCols)(n)
  {
  }

  /** Every pair of `base` is among the node's include pairs. */
  ghost function Extends(base: seq<Pair>): Node -> bool {
    (n: Node) => forall p :: p in base ==> p in OrEmpty(n.inc)
  }

  /** The node's matching contains every one of its include pairs. */
  ghost function Honoured(): Node -> bool {
    (n: Node) => forall p :: p in OrEmpty(n.inc) ==> p in n.matching
  }

  /** Include pairs that share no row and no column: none of them is dropped as conflicting. */
  ghost predicate ConflictFree(inc: Option<seq<Pair>>) {
    Distinct(RowsOf(OrEmpty(inc))) && Distinct(ColsOf(OrEmpty(inc)))
  }

  /**
   * c is the i-th child of the node: None exactly when only dummies are left
   * to match once the child's include pairs are fixed, and otherwise the node
   * of the child's constraints with the best matching under them.
   */
  ghost predicate IsChild(m: ScoreMatrix, dummyRows: set<string>, dummyCols: set<string>, current: Node, free: seq<Pair>, i: nat, c: Option<Node>)
    requires Square(m) && i < |free|
  {
    var inc := ChildInc(free, i, current.inc);
    && (c.None? <==> AllDummy(Reduced(m, inc), dummyRows, dummyCols))
    && (c.Some? ==> c.value.inc == inc && c.value.exc == Some(ChildExc(free, i, current.exc)) && Valid(m, dummyRows, dummyCols)(c.value))
  }

  /** The nodes among a list of possible children. */
  function Present(kids: seq<Option<Node>>): multiset<Node>
    decreases |kids|
  {
    if kids == [] then multiset{}
    else Present(kids[..|kids| - 1]) + (if kids[|kids| - 1].Some? then multiset{kids[|kids| - 1].value} else multiset{})
  }

  /** The possible children so far, in order: kids[j] is the j-th child. */
  ghost function ChildrenSoFar(m: ScoreMatrix, dummyRows: set<string>, dummyCols: set<string>, current: Node, free: seq<Pair>)
    : seq<Option<Node>> -> bool
  {
    kids => |kids| <= |free| && forall j :: 0 <= j < |kids| ==> ChildAt(m, dummyRows, dummyCols, current, free)(j, kids[j])
  }

  /** IsChild as a predicate value. */
  ghost function ChildAt(m: ScoreMatrix, dummyRows: set<string>, dummyCols: set<string>, current: Node, free: seq<Pair>)
    : (nat, Option<Node>) -> bool
  {
    (j: nat, c: Option<Node>) => Square(m) && j < |free| && IsChild(m, dummyRows, dummyCols, current, free, j, c)
  }

  /** A property of each element at its position survives appending one more element that has it. */
  lemma AppendEach<T>(ok: (nat, T) -> bool, xs: seq<T>, x: T)
    requires forall j :: 0 <= j < |xs| ==> ok(j, xs[j])
    requires ok(|xs|, x)
    ensures forall j :: 0 <= j < |xs| + 1 ==> ok(j, (xs + [x])[j])
  {
    forall j | 0 <= j < |xs| + 1 ensures ok(j, (xs + [x])[j]) {
      if j < |xs| {
        assert (xs + [x])[j] == xs[j];
      }
    }
  }

  lemma ChildrenStep(m: ScoreMatrix, dummyRows: set<string>, dummyCols: set<string>, current: Node, free: seq<Pair>,
                     kids: seq<Option<Node>>, child: Option<Node>)
    requires Square(m) && |kids| < |free| && ChildrenSoFar(m, dummyRows, dummyCols, current, free)(kids)
    requires ChildAt(m, dummyRows, dummyCols, current, free)(|kids|, child)
    ensures ChildrenSoFar(m, dummyRows, dummyCols, current, free)(kids + [child])
  {
    AppendEach(ChildAt(m, dummyRows, dummyCols, current, free), kids, child);
  }

  /** The unranked list gains exactly the present children. */
  lemma PresentStep(out: seq<Node>, unranked: seq<Node>, kids: seq<Option<Node>>, child: Option<Node>)
    requires Sorted(out) && multiset(out) == multiset(unranked) + Present(kids)
    ensures multiset(if child.Some? then Insert(out, child.value) else out) == multiset(unranked) + Present(kids + [child])
  {
    assert (kids + [child])[..|kids|] == kids;
  }

  /** A child includes everything its parent includes. */
  lemma ChildExtends(free: seq<Pair>, i: nat, inc: Option<seq<Pair>>, base: seq<Pair>)
    requires i <= |free| && forall p :: p in base ==> p in OrEmpty(inc)
    ensures forall p :: p in base ==> p in OrEmpty(ChildInc(free, i, inc))
  {
  }

  /**
   * When the parent's matching contains its include pairs, so does the
   * child's: the child's include pairs are distinct pairs of the parent's
   * perfect matching, so none conflicts with another and all are fixed.
   */
  lemma ChildHonoured(m: ScoreMatrix, dummyRows: set<string>, dummyCols: set<string>, current: Node, free: seq<Pair>, i: nat, child: Node)
    requires Square(m) && NodeValid(m, dummyRows, dummyCols, current) && Honoured()(current)
    requires free == FreePairs(current.matching, current.inc) && i < |free|
    requires child.inc == ChildInc(free, i, current.inc) && Valid(m, dummyRows, dummyCols)(child)
    ensures Honoured()(child)
  {
    if child.inc.Some? {
      var s := child.inc.value;
      assert s == Dedup(free[..i] + OrEmpty(current.inc));
      forall p | p in s ensures p in current.matching {
        if p in free[..i] {
          assert p in free;
        }
      }
      SubsetConflictFree(s, current.matching);
      ConflictFreeKept(s);
      assert NodeValid(m, dummyRows, dummyCols, child);
      forall p | p in s ensures p in child.matching {
        assert p in Fixed(child.inc);
      }
    }
  }

  /** The root's matching contains its include pairs when they do not conflict. */
  lemma RootHonoured(m: ScoreMatrix, dummyRows: set<string>, dummyCols: set<string>, root: Node)
    requires Square(m) && NodeValid(m, dummyRows, dummyCols, root) && ConflictFree(root.inc)
    ensures Honoured()(root)
  {
    if root.inc.Some? {
      ConflictFreeKept(root.inc.value);
      forall p | p in root.inc.value ensures p in root.matching {
        assert p in Fixed(root.inc);
      }
    }
  }

  /**
   * The i-th child of a node: the parent's inclusions plus the free pairs
   * before the i-th, the parent's exclusions plus the i-th free pair; None
   * when only dummies remain to be matched.
   */
  method Child(m: ScoreMatrix, current: Node, free: seq<Pair>, i: nat, dummyRows: set<string>, dummyCols: set<string>)
    returns (child: Option<Node>)
    requires Square(m) && NodeValid(m, dummyRows, dummyCols, current)
    requires free == FreePairs(current.matching, current.inc) && i < |free|
    ensures IsChild(m, dummyRows, dummyCols, current, free, i, child)
  {
    var excI := ChildExc(free, i, current.exc);
    var incI := ChildInc(free, i, current.inc);
    ChildLabels(m, current.matching, current.inc, free, i);
    var matchingI := FindBestAssignment(m, true, incI, Some(excI), Some(dummyRows), Some(dummyCols), true);
    if matchingI.Some? {
      var n := Node(MatchingScore(m, matchingI.value), matchingI.value, incI, Some(excI));
      ValidNode(m, dummyRows, dummyCols, n);
      child := Some(n);
    } else {
      child := None;
    }
  }

  /** The number of children of a node: one per free pair but the last. */
  function ChildCount(free: seq<Pair>): nat {
    if |free| > 0 then |free| - 1 else 0
  }

  /**
   * The state of AddChildren after the children `kids`: they are the first
   * children of the node, `out` is the unranked list with exactly the present
   * ones added, and the list keeps its invariants.
   */
  ghost predicate Adding(m: ScoreMatrix, dummyRows: set<string>, dummyCols: set<string>, current: Node, free: seq<Pair>,
                         unranked: seq<Node>, out: seq<Node>, kids: seq<Option<Node>>, base: seq<Pair>, honour: bool)
  {
    && ChildrenSoFar(m, dummyRows, dummyCols, current, free)(kids)
    && multiset(out) == multiset(unranked) + Present(kids)
    && Sorted(out) && Every(out, Valid(m, dummyRows, dummyCols)) && Every(out, Extends(base))
    && (honour ==> Every(out, Honoured()))
  }

  lemma AddingStart(m: ScoreMatrix, dummyRows: set<string>, dummyCols: set<string>, current: Node, free: seq<Pair>,
                    unranked: seq<Node>, base: seq<Pair>, honour: bool)
    requires Square(m) && Sorted(unranked) && Every(unranked, Valid(m, dummyRows, dummyCols)) && Every(unranked, Extends(base))
    requires honour ==> Every(unranked, Honoured())
    ensures Adding(m, dummyRows, dummyCols, current, free, unranked, unranked, [], base, honour)
  {
  }

  /**
   * Adds the children of a node to the unranked list, one per free pair but
   * the last; `kids` are the children in order, None for a child whose
   * remaining rows or columns are all dummies, which is discarded.
   */
  method AddChildren(m: ScoreMatrix, current: Node, unranked: seq<Node>, dummyRows: set<string>, dummyCols: set<string>,
                     ghost base: seq<Pair>, ghost honour: bool)
    returns (out: seq<Node>, kids: seq<Option<Node>>)
    requires Square(m) && NodeValid(m, dummyRows, dummyCols, current)
    requires Sorted(unranked) && Every(unranked, Valid(m, dummyRows, dummyCols))
    requires Extends(base)(current) && Every(unranked, Extends(base))
    requires honour ==> Honoured()(current) && Every(unranked, Honoured())
    ensures |kids| == ChildCount(FreePairs(current.matching, current.inc))
    ensures ChildrenSoFar(m, dummyRows, dummyCols, current, FreePairs(current.matching, current.inc))(kids)
    ensures multiset(out) == multiset(unranked) + Present(kids)
    ensures Sorted(out) && Every(out, Valid(m, dummyRows, dummyCols)) && Every(out, Extends(base))
    ensures honour ==> Every(out, Honoured())
  {
    out := unranked;
    kids := [];
    var free := FreePairs(current.matching, current.inc);
    AddingStart(m, dummyRows, dummyCols, current, free, unranked, base, honour);
    for i := 0 to ChildCount(free)
      invariant |kids| == i
      invariant Adding(m, dummyRows, dummyCols, current, free, unranked, out, kids, base, honour)
    {
      out, kids := AddChild(m, current, free, unranked, out, kids, dummyRows, dummyCols, base, honour);
    }
  }

  /** One step of AddChildren: the next child, inserted when it is not None. */
  method AddChild(m: ScoreMatrix, current: Node, free: seq<Pair>, unranked: seq<Node>, out: seq<Node>, kids: seq<Option<Node>>,
                  dummyRows: set<string>, dummyCols: set<string>, ghost base: seq<Pair>, ghost honour: bool)
    returns (out': seq<Node>, kids': seq<Option<Node>>)
    requires Square(m) && NodeValid(m, dummyRows, dummyCols, current)
    requires free == FreePairs(current.matching, current.inc) && |kids| < |free|
    requires Extends(base)(current) && (honour ==> Honoured()(current))
    requires Adding(m, dummyRows, dummyCols, current, free, unranked, out, kids, base, honour)
    ensures |kids'| == |kids| + 1 && kids'[..|kids|] == kids
    ensures Adding(m, dummyRows, dummyCols, current, free, unranked, out', kids', base, honour)
  {
    var i := |kids|;
    var child := Child(m, current, free, i, dummyRows, dummyCols);
    assert ChildAt(m, dummyRows, dummyCols, current, free)(i, child);
    ChildrenStep(m, dummyRows, dummyCols, current, free, kids, child);
    PresentStep(out, unranked, kids, child);
    out' := out;
    if child.Some? {
      InsertKeeps(out, child.value, Valid(m, dummyRows, dummyCols));
      ChildExtends(free, i, current.inc, base);
      InsertKeeps(out, child.value, Extends(base));
      if honour {
        ChildHonoured(m, dummyRows, dummyCols, current, free, i, child.value);
        InsertKeeps(out, child.value, Honoured());
      }
      out' := Insert(out, child.value);
    }
    kids' := kids + [child];
  }

  lemma Singleton(n: Node, ok: Node -> bool)
    requires ok(n)
    ensures Every([n], ok)
  {
    assert [n][0] == n;
  }

  /** The node of the initial constraints, with the best matching under them. */
  method RootNode(m: ScoreMatrix, initInc: Option<seq<Pair>>, initExc: Option<seq<Pair>>,
                  dummyRows: set<string>, dummyCols: set<string>) returns (root: Node)
    requires Square(m)
    requires initInc.Some? ==> Labels(m, initInc.value)
    ensures NodeValid(m, dummyRows, dummyCols, root) && root.inc == initInc && root.exc == initExc
    ensures Every([root], Valid(m, dummyRows, dummyCols)) && Every([root], Extends(OrEmpty(initInc)))
    ensures ConflictFree(initInc) ==> Every([root], Honoured())
  {
    if initInc.Some? {
      LabelsOfMembers(m, CleanIncludes(initInc.value), initInc.value);
    }
    var best := FindBestAssignment(m, true, initInc, initExc, Some(dummyRows), Some(dummyCols), false);
    root := Node(MatchingScore(m, best.value), best.value, initInc, initExc);
    Singleton(root, Valid(m, dummyRows, dummyCols));
    Singleton(root, Extends(OrEmpty(initInc)));
    if ConflictFree(initInc) {
      RootHonoured(m, dummyRows, dummyCols, root);
      Singleton(root, Honoured());
    }
  }

  /**
   * One round of the ranking loop, from (ranked, unranked) to (ranked',
   * unranked'): the highest unranked node is popped and inserted into the
   * ranked list, `kids` are its possible children in order, and the rest of
   * the unranked list gains exactly the present ones.
   */
  ghost predicate Step(m: ScoreMatrix, dummyRows: set<string>, dummyCols: set<string>,
                       ranked: seq<Node>, unranked: seq<Node>, ranked': seq<Node>, unranked': seq<Node>, kids: seq<Option<Node>>)
  {
    && Sorted(ranked) && Sorted(unranked) && |unranked| > 0
    && var (current, rest) := PopBest(unranked);
       var free := FreePairs(current.matching, current.inc);
       && ranked' == Insert(ranked, current)
       && |kids| == ChildCount(free)
       && ChildrenSoFar(m, dummyRows, dummyCols, current, free)(kids)
       && multiset(unranked') == multiset(rest) + Present(kids)
  }

  /** Step as a relation between whole states. */
  ghost function StepOf(m: ScoreMatrix, dummyRows: set<string>, dummyCols: set<string>)
    : ((seq<Node>, seq<Node>), (seq<Node>, seq<Node>), seq<Option<Node>>) -> bool
  {
    (s: (seq<Node>, seq<Node>), s': (seq<Node>, seq<Node>), kids: seq<Option<Node>>) =>
      Step(m, dummyRows, dummyCols, s.0, s.1, s'.0, s'.1, kids)
  }

  /** states[i + 1] follows states[i] by `step` with the label labels[i]. */
  ghost predicate Chain<S, L>(step: (S, S, L) -> bool, states: seq<S>, labels: seq<L>) {
    && |states| == |labels| + 1
    && forall i :: 0 <= i < |labels| ==> step(states[i], states[i + 1], labels[i])
  }

  /** A run of the loop: states[i + 1] follows states[i] by one Step with the children kidss[i]. */
  ghost predicate Run(m: ScoreMatrix, dummyRows: set<string>, dummyCols: set<string>,
                      states: seq<(seq<Node>, seq<Node>)>, kidss: seq<seq<Option<Node>>>)
  {
    Chain(StepOf(m, dummyRows, dummyCols), states, kidss)
  }

  /** The loop can go from (ranked0, unranked0) to (ranked, unranked) in some number of rounds. */
  ghost predicate Reaches(m: ScoreMatrix, dummyRows: set<string>, dummyCols: set<string>,
                          ranked0: seq<Node>, unranked0: seq<Node>, ranked: seq<Node>, unranked: seq<Node>)
  {
    exists states, kidss :: Run(m, dummyRows, dummyCols, states, kidss)
      && states[0] == (ranked0, unranked0) && states[|states| - 1] == (ranked, unranked)
  }

  lemma ChainExtend<S, L>(step: (S, S, L) -> bool, states: seq<S>, labels: seq<L>, s': S, l: L)
    requires Chain(step, states, labels) && step(states[|states| - 1], s', l)
    ensures Chain(step, states + [s'], labels + [l])
  {
    var states', labels' := states + [s'], labels + [l];
    forall i | 0 <= i < |labels'| ensures step(states'[i], states'[i + 1], labels'[i]) {
      if i < |labels| {
        assert states'[i] == states[i] && states'[i + 1] == states[i + 1] && labels'[i] == labels[i];
      }
    }
  }

  /** Along a chain whose every step adds one to `size`, the size grows by the number of steps. */
  lemma {:induction false} ChainCounts<S, L>(step: (S, S, L) -> bool, size: S -> int, states: seq<S>, labels: seq<L>)
    requires Chain(step, states, labels)
    requires forall a, b, l :: step(a, b, l) ==> size(b) == size(a) + 1
    ensures size(states[|states| - 1]) == size(states[0]) + |labels|
    decreases |labels|
  {
    if labels != [] {
      var n := |labels|;
      assert Chain(step, states[..n], labels[..n - 1]) by {
        forall i | 0 <= i < n - 1 ensures step(states[..n][i], states[..n][i + 1], labels[..n - 1][i]) {
          assert states[..n][i] == states[i] && states[..n][i + 1] == states[i + 1] && labels[..n - 1][i] == labels[i];
        }
      }
      ChainCounts(step, size, states[..n], labels[..n - 1]);
      assert step(states[n - 1], states[n], labels[n - 1]);
    }
  }

  /** A round ranks exactly one more node. */
  lemma StepRanksOne(m: ScoreMatrix, dummyRows: set<string>, dummyCols: set<string>)
    ensures forall a, b, kids :: StepOf(m, dummyRows, dummyCols)(a, b, kids) ==> |b.0| == |a.0| + 1
  {
  }

  /** Every round of a run ranks exactly one more node, so a run of n rounds ranks n nodes. */
  lemma RunRanks(m: ScoreMatrix, dummyRows: set<string>, dummyCols: set<string>,
                 states: seq<(seq<Node>, seq<Node>)>, kidss: seq<seq<Option<Node>>>)
    requires Run(m, dummyRows, dummyCols, states, kidss)
    ensures |states[|states| - 1].0| == |states[0].0| + |kidss|
  {
    StepRanksOne(m, dummyRows, dummyCols);
    ChainCounts(StepOf(m, dummyRows, dummyCols), (s: (seq<Node>, seq<Node>)) => |s.0|, states, kidss);
  }

  /** The root of a search: the best node under the initial constraints. */
  ghost predicate IsRoot(m: ScoreMatrix, dummyRows: set<string>, dummyCols: set<string>,
                         initInc: Option<seq<Pair>>, initExc: Option<seq<Pair>>, root: Node)
  {
    Square(m) && NodeValid(m, dummyRows, dummyCols, root) && root.inc == initInc && root.exc == initExc
  }

  /** The loop, started from the root alone with nothing ranked, can end in (ranked, unranked). */
  ghost predicate Search(m: ScoreMatrix, dummyRows: set<string>, dummyCols: set<string>,
                         initInc: Option<seq<Pair>>, initExc: Option<seq<Pair>>, ranked: seq<Node>, unranked: seq<Node>)
  {
    exists root :: IsRoot(m, dummyRows, dummyCols, initInc, initExc, root)
      && Reaches(m, dummyRows, dummyCols, [], [root], ranked, unranked)
  }

  /** The search runs out of unranked nodes before it has ranked k of them. */
  ghost predicate SearchRunsOut(m: ScoreMatrix, dummyRows: set<string>, dummyCols: set<string>, k: nat,
                                initInc: Option<seq<Pair>>, initExc: Option<seq<Pair>>)
  {
    exists ranked :: |ranked| < k && Search(m, dummyRows, dummyCols, initInc, initExc, ranked, [])
  }

  /**
   * The search never runs out before the first round: the root is always
   * there to be ranked, so a request for one assignment cannot fail.
   */
  lemma RootAlwaysRanked(m: ScoreMatrix, dummyRows: set<string>, dummyCols: set<string>,
                         initInc: Option<seq<Pair>>, initExc: Option<seq<Pair>>)
    ensures !SearchRunsOut(m, dummyRows, dummyCols, 1, initInc, initExc)
  {
    if SearchRunsOut(m, dummyRows, dummyCols, 1, initInc, initExc) {
      var ranked :| |ranked| < 1 && Search(m, dummyRows, dummyCols, initInc, initExc, ranked, []);
      var root :| IsRoot(m, dummyRows, dummyCols, initInc, initExc, root) && Reaches(m, dummyRows, dummyCols, [], [root], ranked, []);
      var states, kidss :| Run(m, dummyRows, dummyCols, states, kidss)
        && states[0] == ([], [root]) && states[|states| - 1] == (ranked, []);
      RunRanks(m, dummyRows, dummyCols, states, kidss);
      assert false;
    }
  }

  /**
   * One round: the best unranked node is ranked and its children (`kids`,
   * the ones that are not None) join the other unranked nodes.
   */
  method RankBest(m: ScoreMatrix, ranked: seq<Node>, unranked: seq<Node>, dummyRows: set<string>, dummyCols: set<string>,
                  ghost base: seq<Pair>, ghost honour: bool)
    returns (ranked': seq<Node>, unranked': seq<Node>, kids: seq<Option<Node>>)
    requires Square(m) && Sorted(ranked) && Sorted(unranked) && |unranked| > 0
    requires Every(ranked, Valid(m, dummyRows, dummyCols)) && Every(unranked, Valid(m, dummyRows, dummyCols))
    requires Every(ranked, Extends(base)) && Every(unranked, Extends(base))
    requires honour ==> Every(ranked, Honoured()) && Every(unranked, Honoured())
    ensures Sorted(ranked') && Sorted(unranked') && |ranked'| == |ranked| + 1
    ensures Every(ranked', Valid(m, dummyRows, dummyCols)) && Every(unranked', Valid(m, dummyRows, dummyCols))
    ensures Every(ranked', Extends(base)) && Every(unranked', Extends(base))
    ensures honour ==> Every(ranked', Honoured()) && Every(unranked', Honoured())
    ensures Step(m, dummyRows, dummyCols, ranked, unranked, ranked', unranked', kids)
  {
    PopKeeps(unranked, Valid(m, dummyRows, dummyCols));
    PopKeeps(unranked, Extends(base));
    if honour {
      PopKeeps(unranked, Honoured());
    }
    var (current, rest) := PopBest(unranked);
    ValidMatching(m, dummyRows, dummyCols, current);
    unranked', kids := AddChildren(m, current, rest, dummyRows, dummyCols, base, honour);
    InsertKeeps(ranked, current, Valid(m, dummyRows, dummyCols));
    InsertKeeps(ranked, current, Extends(base));
    if honour {
      InsertKeeps(ranked, current, Honoured());
    }
    ranked' := Insert(ranked, current);
  }

  /**
   * Ranks nodes, best first, until k are ranked; fails exactly when the
   * unranked nodes run out first, as popping an empty list does.  `ranked`
   * and `unranked` are the lists when the loop stops.
   */
  method RankUntil(m: ScoreMatrix, k: nat, ranked0: seq<Node>, unranked0: seq<Node>, dummyRows: set<string>, dummyCols: set<string>,
                   ghost base: seq<Pair>, ghost honour: bool)
    returns (r: Result<(seq<Node>, seq<Node>)>, ranked: seq<Node>, unranked: seq<Node>)
    requires Square(m) && |ranked0| <= k && Sorted(ranked0) && Sorted(unranked0)
    requires Every(ranked0, Valid(m, dummyRows, dummyCols)) && Every(unranked0, Valid(m, dummyRows, dummyCols))
    requires Every(ranked0, Extends(base)) && Every(unranked0, Extends(base))
    requires honour ==> Every(ranked0, Honoured()) && Every(unranked0, Honoured())
    ensures r.Success? <==> |ranked| == k
    ensures r.Success? ==> r.value == (ranked, unranked)
    ensures r.Failure? ==> |ranked| < k && unranked == []
    ensures Reaches(m, dummyRows, dummyCols, ranked0, unranked0, ranked, unranked)
    ensures |ranked0| <= |ranked| <= k && Sorted(ranked) && Sorted(unranked)
    ensures Every(ranked, Valid(m, dummyRows, dummyCols)) && Every(unranked, Valid(m, dummyRows, dummyCols))
    ensures Every(ranked, Extends(base)) && Every(unranked, Extends(base))
    ensures honour ==> Every(ranked, Honoured()) && Every(unranked, Honoured())
  {
    ranked, unranked := ranked0, unranked0;
    ghost var states: seq<(seq<Node>, seq<Node>)> := [(ranked0, unranked0)];
    ghost var kidss: seq<seq<Option<Node>>> := [];
    while |ranked| < k
      invariant Run(m, dummyRows, dummyCols, states, kidss)
      invariant states[0] == (ranked0, unranked0) && states[|states| - 1] == (ranked, unranked)
      invariant |ranked0| <= |ranked| <= k && Sorted(ranked) && Sorted(unranked)
      invariant Every(ranked, Valid(m, dummyRows, dummyCols)) && Every(unranked, Valid(m, dummyRows, dummyCols))
      invariant Every(ranked, Extends(base)) && Every(unranked, Extends(base))
      invariant honour ==> Every(ranked, Honoured()) && Every(unranked, Honoured())
      decreases k - |ranked|
    {
      if |unranked| == 0 {
        return Failure("pop from empty list: fewer than k assignments are distinct"), ranked, unranked;
      }
      var ranked', unranked', kids := RankBest(m, ranked, unranked, dummyRows, dummyCols, base, honour);
      ChainExtend(StepOf(m, dummyRows, dummyCols), states, kidss, (ranked', unranked'), kids);
      states, kidss := states + [(ranked', unranked')], kidss + [kids];
      ranked, unranked := ranked', unranked';
    }
    r := Success((ranked, unranked));
  }

  /**
   * The k best assignments: returns the k ranked nodes, in ascending order
   * of score, and the nodes still unranked.  Taking a node from an empty
   * list of unranked nodes is an error, as popping an empty list is in the
   * source.  Every node includes all the initial include pairs, and when
   * those do not conflict every node's matching contains its include pairs.
   */
  method FindKBestAssignments(m: ScoreMatrix, k: nat, initInc: Option<seq<Pair>>, initExc: Option<seq<Pair>>,
                              dummyRows: set<string>, dummyCols: set<string>)
    returns (r: Result<(seq<Node>, seq<Node>)>, ranked: seq<Node>, unranked: seq<Node>)
    requires Square(m)
    requires initInc.Some? ==> Labels(m, initInc.value)
    ensures r.Success? <==> |ranked| == k
    ensures r.Success? ==> r.value == (ranked, unranked)
    ensures r.Failure? ==> |ranked| < k && unranked == []
    ensures Search(m, dummyRows, dummyCols, initInc, initExc, ranked, unranked)
    ensures Sorted(ranked) && Sorted(unranked)
    ensures Every(ranked, Valid(m, dummyRows, dummyCols)) && Every(unranked, Valid(m, dummyRows, dummyCols))
    ensures Every(ranked, Extends(OrEmpty(initInc))) && Every(unranked, Extends(OrEmpty(initInc)))
    ensures ConflictFree(initInc) ==> Every(ranked, Honoured()) && Every(unranked, Honoured())
  {
    var root := RootNode(m, initInc, initExc, dummyRows, dummyCols);
    r, ranked, unranked := RankUntil(m, k, [], [root], dummyRows, dummyCols, OrEmpty(initInc), ConflictFree(initInc));
    assert IsRoot(m, dummyRows, dummyCols, initInc, initExc, root);
  }
}
