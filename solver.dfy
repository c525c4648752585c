/**
 * The linear assignment problem solved by scipy's linear_sum_assignment,
 * specified by its contract: on a square cost matrix it returns a perfect
 * matching (a permutation: row i goes to column p[i]) of least total cost.
 * The solver here is an exhaustive search over permutations, proved optimal.
 */
module Solver {

  type Matrix = seq<seq<real>>

  ghost predicate IsSquare(m: Matrix) {
    forall i :: 0 <= i < |m| ==> |m[i]| == |m|
  }

  /** The columns 0, 1, ..., n-1. */
  function Range(n: nat): (r: seq<nat>)
    ensures |r| == n
    ensures forall i :: 0 <= i < n ==> r[i] == i
  {
    seq(n, i requires 0 <= i < n => i)
  }

  /** `p` assigns the rows 0..n-1 to distinct columns 0..n-1. */
  ghost predicate IsPermutation(p: seq<nat>, n: nat) {
    multiset(p) == multiset(Range(n))
  }

  ghost predicate InBounds(q: seq<nat>, n: nat) {
    forall t :: 0 <= t < |q| ==> q[t] < n
  }

  /** The cost of assigning rows lo, lo+1, ... to the columns q[0], q[1], .... */
  function CostFrom(m: Matrix, lo: nat, q: seq<nat>): real
    requires IsSquare(m) && lo + |q| <= |m| && InBounds(q, |m|)
    decreases |q|
  {
    if q == [] then 0.0 else m[lo][q[0]] + CostFrom(m, lo + 1, q[1..])
  }

  function Cost(m: Matrix, p: seq<nat>): real
    requires IsSquare(m) && |p| == |m| && InBounds(p, |m|)
  {
    CostFrom(m, 0, p)
  }

  /** `s` without its element at position k. */
  function RemoveAt(s: seq<nat>, k: nat): (r: seq<nat>)
    requires k < |s|
    ensures |r| == |s| - 1
    ensures forall t :: 0 <= t < k ==> r[t] == s[t]
    ensures forall t :: k <= t < |r| ==> r[t] == s[t + 1]
    decreases k
  {
    if k == 0 then s[1..]
    else
      var rest := RemoveAt(s[1..], k - 1);
      assert forall t :: 0 < t <= |rest| ==> ([s[0]] + rest)[t] == rest[t - 1];
      [s[0]] + rest
  }

  lemma {:induction false} RemoveAtCounts(s: seq<nat>, k: nat)
    requires k < |s|
    ensures multiset(RemoveAt(s, k)) + multiset{s[k]} == multiset(s)
    decreases k
  {
    assert s == [s[0]] + s[1..];
    if k > 0 {
      RemoveAtCounts(s[1..], k - 1);
    }
  }

  /** The arrangements in `ps`, each preceded by the column c. */
  function PrependAll(c: nat, ps: seq<seq<nat>>): (r: seq<seq<nat>>)
    ensures |r| == |ps| && forall i :: 0 <= i < |ps| ==> r[i] == [c] + ps[i]
  {
    seq(|ps|, i requires 0 <= i < |ps| => [c] + ps[i])
  }

  /**
   * Every ordering of the columns of `avail`: the first row takes avail[0],
   * avail[1], ... in turn and the remaining rows every ordering of the rest.
   */
  function Arrangements(avail: seq<nat>): seq<seq<nat>>
    decreases |avail|, 1, 0
  {
    if |avail| == 0 then [[]] else ArrangementsFrom(avail, 0)
  }

  /** The orderings of `avail` whose first column is one of avail[k..]. */
  function ArrangementsFrom(avail: seq<nat>, k: nat): seq<seq<nat>>
    requires k <= |avail|
    decreases |avail|, 0, |avail| - k
  {
    if k == |avail| then []
    else PrependAll(avail[k], Arrangements(RemoveAt(avail, k))) + ArrangementsFrom(avail, k + 1)
  }

  /** Every ordering listed uses each column of `avail` exactly once. */
  lemma {:induction false} ArrangementsRearrange(avail: seq<nat>, p: seq<nat>)
    requires p in Arrangements(avail)
    ensures multiset(p) == multiset(avail)
    decreases |avail|, 1, 0
  {
    if |avail| > 0 {
      ArrangementsFromRearrange(avail, 0, p);
    }
  }

  lemma {:induction false} ArrangementsFromRearrange(avail: seq<nat>, k: nat, p: seq<nat>)
    requires k < |avail| && p in ArrangementsFrom(avail, k)
    ensures multiset(p) == multiset(avail)
    decreases |avail|, 0, |avail| - k
  {
    var rem := RemoveAt(avail, k);
    var firsts := PrependAll(avail[k], Arrangements(rem));
    if p in firsts {
      var i :| 0 <= i < |firsts| && firsts[i] == p;
      ArrangementsRearrange(rem, Arrangements(rem)[i]);
      RemoveAtCounts(avail, k);
      PrependCounts(avail[k], Arrangements(rem)[i], rem, avail, p);
    } else {
      assert k + 1 < |avail|;
      ArrangementsFromRearrange(avail, k + 1, p);
    }
  }

  lemma PrependCounts(c: nat, cols: seq<nat>, rem: seq<nat>, avail: seq<nat>, p: seq<nat>)
    requires p == [c] + cols
    requires multiset(cols) == multiset(rem) && multiset(rem) + multiset{c} == multiset(avail)
    ensures multiset(p) == multiset(avail)
  {
  }

  /** Every ordering of the columns of `avail` is listed. */
  lemma {:induction false} ArrangementsComplete(avail: seq<nat>, q: seq<nat>)
    requires multiset(q) == multiset(avail)
    ensures q in Arrangements(avail)
    decreases |avail|, 1, 0
  {
    assert |q| == |multiset(q)| == |multiset(avail)| == |avail|;
    if |avail| > 0 {
      assert q[0] in multiset(avail);
      var j :| 0 <= j < |avail| && avail[j] == q[0];
      FirstChoiceListed(avail, j, q);
      ArrangementsFromComplete(avail, 0, j, q);
    }
  }

  /** An ordering listed among those starting with avail[j] is listed from any k <= j on. */
  lemma {:induction false} ArrangementsFromComplete(avail: seq<nat>, k: nat, j: nat, q: seq<nat>)
    requires k <= j < |avail|
    requires q in PrependAll(avail[j], Arrangements(RemoveAt(avail, j)))
    ensures q in ArrangementsFrom(avail, k)
    decreases j - k
  {
    if k < j {
      ArrangementsFromComplete(avail, k + 1, j, q);
    }
  }

  lemma {:induction false} FirstChoiceListed(avail: seq<nat>, k: nat, q: seq<nat>)
    requires |q| > 0 && multiset(q) == multiset(avail)
    requires k < |avail| && avail[k] == q[0]
    ensures q in PrependAll(avail[k], Arrangements(RemoveAt(avail, k)))
    decreases |avail|, 0, 0
  {
    var rem := RemoveAt(avail, k);
    RestIsRearrangement(avail, k, q);
    ArrangementsComplete(rem, q[1..]);
    var i :| 0 <= i < |Arrangements(rem)| && Arrangements(rem)[i] == q[1..];
    assert PrependAll(avail[k], Arrangements(rem))[i] == q;
  }

  lemma RestIsRearrangement(avail: seq<nat>, k: nat, q: seq<nat>)
    requires k < |avail| && multiset(q) == multiset(avail) && |q| > 0 && q[0] == avail[k]
    ensures multiset(q[1..]) == multiset(RemoveAt(avail, k))
  {
    var rem := RemoveAt(avail, k);
    RemoveAtCounts(avail, k);
    assert q == [q[0]] + q[1..];
    assert multiset(q[1..]) + multiset{q[0]} == multiset(rem) + multiset{q[0]};
    CancelOne(multiset(q[1..]), multiset(rem), q[0]);
  }

  lemma CancelOne(a: multiset<nat>, b: multiset<nat>, c: nat)
    requires a + multiset{c} == b + multiset{c}
    ensures a == b
  {
    assert a == (a + multiset{c}) - multiset{c};
    assert b == (b + multiset{c}) - multiset{c};
  }

  /** Every sequence in `ps` assigns each row of `m` a column of it. */
  ghost predicate AllFit(m: Matrix, ps: seq<seq<nat>>) {
    forall i :: 0 <= i < |ps| ==> |ps[i]| == |m| && InBounds(ps[i], |m|)
  }

  /** The first sequence of `ps` whose cost is least. */
  function Cheapest(m: Matrix, ps: seq<seq<nat>>): (p: seq<nat>)
    requires IsSquare(m) && |ps| > 0 && AllFit(m, ps)
    ensures p in ps && |p| == |m| && InBounds(p, |m|)
    ensures forall i :: 0 <= i < |ps| ==> Cost(m, p) <= Cost(m, ps[i])
    decreases |ps|
  {
    if |ps| == 1 then ps[0]
    else
      var rest := Cheapest(m, ps[1..]);
      assert forall i :: 1 <= i < |ps| ==> ps[i] == ps[1..][i - 1];
      if Cost(m, ps[0]) <= Cost(m, rest) then ps[0] else rest
  }

  lemma SameElements(q: seq<nat>, avail: seq<nat>, n: nat)
    requires multiset(q) == multiset(avail) && InBounds(avail, n)
    ensures |q| == |avail| && InBounds(q, n)
  {
    assert |q| == |multiset(q)| == |multiset(avail)| == |avail|;
    forall t | 0 <= t < |q| ensures q[t] < n {
      assert q[t] in multiset(avail);
    }
  }

  /** Every ordering of the columns 0..n-1 of a square matrix fits it. */
  lemma OrderingsFit(m: Matrix)
    requires IsSquare(m)
    ensures |Arrangements(Range(|m|))| > 0 && AllFit(m, Arrangements(Range(|m|)))
  {
    var all := Arrangements(Range(|m|));
    ArrangementsComplete(Range(|m|), Range(|m|));
    forall i | 0 <= i < |all| ensures |all[i]| == |m| && InBounds(all[i], |m|) {
      ArrangementsRearrange(Range(|m|), all[i]);
      SameElements(all[i], Range(|m|), |m|);
    }
  }

  /** Rows of the matrix paired with columns so that the total cost is least. */
  function LinearSumAssignment(m: Matrix): (p: seq<nat>)
    requires IsSquare(m)
    ensures IsPermutation(p, |m|) && |p| == |m| && InBounds(p, |m|)
    ensures forall q :: IsPermutation(q, |m|) ==> |q| == |m| && InBounds(q, |m|) && Cost(m, p) <= Cost(m, q)
  {
    OrderingsFit(m);
    var all := Arrangements(Range(|m|));
    var p := Cheapest(m, all);
    ArrangementsRearrange(Range(|m|), p);
    assert forall q | IsPermutation(q, |m|) :: |q| == |m| && InBounds(q, |m|) && Cost(m, p) <= Cost(m, q) by {
      forall q | IsPermutation(q, |m|) ensures |q| == |m| && InBounds(q, |m|) && Cost(m, p) <= Cost(m, q) {
        SameElements(q, Range(|m|), |m|);
        ArrangementsComplete(Range(|m|), q);
        var i :| 0 <= i < |all| && all[i] == q;
      }
    }
    p
  }

  function Negate(m: Matrix): (n: Matrix)
    ensures |n| == |m|
    ensures forall i :: 0 <= i < |m| ==> |n[i]| == |m[i]| && forall j :: 0 <= j < |m[i]| ==> n[i][j] == -m[i][j]
  {
    seq(|m|, i requires 0 <= i < |m| => seq(|m[i]|, j requires 0 <= j < |m[i]| => -m[i][j]))
  }

  lemma {:induction false} NegatedCost(m: Matrix, lo: nat, q: seq<nat>)
    requires IsSquare(m) && lo + |q| <= |m| && InBounds(q, |m|)
    ensures IsSquare(Negate(m)) && CostFrom(Negate(m), lo, q) == -CostFrom(m, lo, q)
    decreases |q|
  {
    if q != [] {
      NegatedCost(m, lo + 1, q[1..]);
    }
  }

  /** The matching of greatest total score: the least-cost one of the negated matrix. */
  function MaximumAssignment(m: Matrix): (p: seq<nat>)
    requires IsSquare(m)
    ensures IsPermutation(p, |m|) && |p| == |m| && InBounds(p, |m|)
    ensures forall q :: IsPermutation(q, |m|) ==> |q| == |m| && InBounds(q, |m|) && Cost(m, q) <= Cost(m, p)
  {
    NegatedCost(m, 0, []);
    var p := LinearSumAssignment(Negate(m));
    forall q | IsPermutation(q, |m|) ensures |q| == |m| && InBounds(q, |m|) && Cost(m, q) <= Cost(m, p) {
      NegatedCost(m, 0, p);
      NegatedCost(m, 0, q);
    }
    p
  }

  /** Each column occurs once in a permutation: it is a bijection of rows onto columns. */
  lemma PermutationIsBijection(p: seq<nat>, n: nat)
    requires IsPermutation(p, n)
    ensures |p| == n
    ensures forall i :: 0 <= i < |p| ==> p[i] < n
    ensures forall i, j :: 0 <= i < j < |p| ==> p[i] != p[j]
    ensures forall c :: 0 <= c < n ==> c in p
  {
    assert |p| == |multiset(p)| == |multiset(Range(n))| == n;
    forall i | 0 <= i < |p| ensures p[i] < n {
      assert p[i] in multiset(Range(n));
    }
    forall c | 0 <= c < n ensures c in p {
      assert Range(n)[c] == c;
      assert c in multiset(Range(n));
    }
    forall i, j | 0 <= i < j < |p| ensures p[i] != p[j] {
      if p[i] == p[j] {
        TwiceCounted(p, i, j);
        RangeCountsOnce(n, p[i]);
        assert false;
      }
    }
  }

  lemma TwiceCounted(p: seq<nat>, i: nat, j: nat)
    requires i < j < |p| && p[i] == p[j]
    ensures multiset(p)[p[i]] >= 2
  {
    assert p == p[..j] + [p[j]] + p[j + 1..];
    assert p[i] in p[..j];
  }

  lemma {:induction false} RangeCountsOnce(n: nat, c: nat)
    ensures multiset(Range(n))[c] == if c < n then 1 else 0
  {
    if n > 0 {
      assert Range(n) == Range(n - 1) + [n - 1];
      RangeCountsOnce(n - 1, c);
    }
  }
}
