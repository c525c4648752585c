/**
 * The assigner object: the observed and predicted shift tables, the
 * neighbour lookup, the log-probability matrix and the sequential-link
 * matrices, which its preparation and scoring steps replace in place.  The
 * searches (best, k-best and consistent assignments) read these fields and
 * are the module-level methods of Assignment, KBest and HillClimb.
 */
module Snaps {
  import opened Wrappers
  import opened ShiftTables
  import Assignment
  import Scores
  import Links
  import Consistency

  class Assigner {
    var obs: ObsTable
    var preds: PredTable
    /** The predictions as imported, prolines included. */
    var allPreds: PredTable
    var neighbours: seq<Neighbour>
    var logProbMatrix: Option<Assignment.ScoreMatrix>
    /** The mismatch and consistent-links matrices, computed together. */
    var seqLinks: Option<Links.SeqLinks>
    /** The atom types the scores use. */
    const atomSet: set<Atom>

    constructor (obs: ObsTable, preds: PredTable, atomSet: set<Atom>)
      ensures this.obs == obs && this.preds == preds && this.allPreds == preds && this.atomSet == atomSet
      ensures neighbours == [] && logProbMatrix.None? && seqLinks.None?
    {
      this.obs := obs;
      this.preds := preds;
      this.allPreds := preds;
      this.atomSet := atomSet;
      neighbours := [];
      logProbMatrix := None;
      seqLinks := None;
    }

    /**
     * prepare_obs_preds: keep the imported predictions, then replace both
     * tables by their prepared versions and build the neighbour lookup
     * (equally long, by PreparedBalanced).  The matrices are left as they
     * were.
     */
    method PrepareObsPreds()
      modifies this
      ensures ShiftTables.Prepared(obs, preds, neighbours) == ShiftTables.PrepareObsPreds(old(obs), old(preds), atomSet)
      ensures allPreds == old(preds)
      ensures logProbMatrix == old(logProbMatrix) && seqLinks == old(seqLinks)
    {
      var p := ShiftTables.PrepareObsPreds(obs, preds, atomSet);
      allPreds := preds;
      obs, preds, neighbours := p.obs, p.preds, p.neighbours;
    }

    /**
     * calc_log_prob_matrix: score every (spin system, residue) pair over the
     * configured atom types present in the observations, and keep the
     * matrix.  `atoms` is that set as a list; Python leaves its order open.
     * Fails, leaving the field alone, when there are no rows.
     */
    method CalcLogProbMatrix(atoms: seq<Atom>, st: Scores.Settings) returns (r: Result<Assignment.ScoreMatrix>)
      requires |obs.rows| == |preds.rows|
      requires Assignment.Distinct(atoms) && Assignment.LabelsIn(atoms) == atomSet * obs.columns
      modifies this
      ensures r.Failure? <==> |obs.rows| == 0
      ensures r.Success? ==> r.value == Scores.LogProbMatrix(obs.rows, preds.rows, atoms, st)
      ensures logProbMatrix == if r.Success? then Some(r.value) else old(logProbMatrix)
      ensures obs == old(obs) && preds == old(preds) && allPreds == old(allPreds)
      ensures neighbours == old(neighbours) && seqLinks == old(seqLinks)
    {
      r := Scores.CalcLogProbMatrix(obs.rows, preds.rows, atoms, st);
      if r.Success? {
        logProbMatrix := Some(r.value);
      }
    }

    /**
     * calc_mismatch_matrix: the matrices over the observed spin systems,
     * kept when there is a sequential carbon; otherwise nothing changes.
     */
    method CalcMismatchMatrix(threshold: real) returns (r: Option<Links.SeqLinks>)
      modifies this
      ensures r.None? <==> Links.SeqAtoms(obs.columns) == []
      ensures r.Some? ==> r.value == Links.SeqLinksOf(obs.rows, Links.SeqAtoms(obs.columns), threshold)
      ensures seqLinks == if r.Some? then r else old(seqLinks)
      ensures obs == old(obs) && preds == old(preds) && allPreds == old(allPreds)
      ensures neighbours == old(neighbours) && logProbMatrix == old(logProbMatrix)
    {
      r := Links.CalcMismatchMatrix(obs, threshold);
      if r.Some? {
        seqLinks := r;
      }
    }

    /**
     * check_matching_consistency: compute the link matrices first when
     * there are none yet (with the default threshold 0.2, not the one
     * given), then classify every pair of the matching.
     */
    method CheckMatchingConsistency(matching: seq<Assignment.Pair>, threshold: real) returns (r: Result<seq<Consistency.Row>>)
      requires forall k :: 0 <= k < |matching| ==> matching[k].row in Scores.SpinSystemNames(obs.rows)
      requires seqLinks.Some? ==> Links.Shaped(seqLinks.value) && Consistency.Named(seqLinks.value, matching)
      modifies this
      ensures old(seqLinks).Some? ==> seqLinks == old(seqLinks)
      ensures old(seqLinks).None? ==> (seqLinks ==
        if Links.SeqAtoms(obs.columns) == [] then None else Some(Links.SeqLinksOf(obs.rows, Links.SeqAtoms(obs.columns), 0.2)))
      ensures seqLinks.Some? ==> Links.Shaped(seqLinks.value) && Consistency.Named(seqLinks.value, matching)
      ensures r == Consistency.CheckMatchingConsistency(matching, neighbours, seqLinks, threshold)
      ensures obs == old(obs) && preds == old(preds) && allPreds == old(allPreds)
      ensures neighbours == old(neighbours) && logProbMatrix == old(logProbMatrix)
    {
      if seqLinks.None? {
        var _ := CalcMismatchMatrix(0.2);
      }
      r := Consistency.CheckMatchingConsistency(matching, neighbours, seqLinks, threshold);
    }
  }
}
