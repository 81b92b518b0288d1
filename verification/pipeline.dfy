/** The recommend and evaluate steps composed: what the chain recommends can be scored. */
module Pipeline {
  import opened Results
  import opened Recommend
  import opened Evaluation

  /** When the chain's recommendation run completes, every user's row scores within the
      promised optimum, and the optimum never exceeds the requested count. */
  lemma RecommendedScoresWithinOptimal<U(!new), I>(
    c: Chain<I>, data: seq<(U, seq<Build.Interaction<I>>)>, numRecs: nat,
    accepts: Node -> bool, tie: U -> nat, walk: (U, Option<State>) -> seq<State>,
    purchases: map<U, set<I>>)
    requires WellFormed(c) && WalkOracle(c, walk)
    ensures RecommendAll(c, data, numRecs, accepts, tie, walk).Success? ==>
              var evals := Evaluate(RecommendAll(c, data, numRecs, accepts, tie, walk).value, purchases);
              forall u :: u in evals ==> evals[u].purchased <= evals[u].optimal <= numRecs
  {
    var r := RecommendAll(c, data, numRecs, accepts, tie, walk);
    if r.Success? {
      forall u | u in Evaluate(r.value, purchases)
        ensures Evaluate(r.value, purchases)[u].purchased <= Evaluate(r.value, purchases)[u].optimal <= numRecs
      {
        EvaluateWithinOptimal(r.value, purchases, u);
      }
    }
  }
}
