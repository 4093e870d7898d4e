/** The bookkeeping of one successor loop of the alpha-beta search, stated over
    the children's exact minimax values `vals`, in the order the loop visits
    them. The loop sees each child only through the value a recursive call
    returned for it, which is related to the exact value by `FailSoft`.
 */
module Scan {
  import opened Values

  /** The fail-soft relation between a value `v` returned with window
      (alpha, beta) and the exact value: exact inside the window, an upper
      bound at or below alpha, a lower bound at or above beta. */
  predicate FailSoft(v: Value, alpha: Value, beta: Value, exact: Value)
  {
    && (Lt(alpha, v) && Lt(v, beta) ==> v == exact)
    && (Le(v, alpha) ==> Le(exact, v))
    && (Le(beta, v) ==> Le(v, exact))
  }

  /** With the full window the fail-soft value is the exact value. */
  lemma FullWindowExact(v: Value, exact: Value)
    requires FailSoft(v, NegInf, PosInf, exact)
    ensures v == exact
  {
  }

  /** A maximizing loop that has examined the first k children without a
      cutoff and holds `best` (from child `idx` unless it is still -infinity):
      `best` is below beta, bounds every examined child from above, strictly
      beats every child before `idx`, and is exact when above alpha. */
  ghost predicate MaxScan(vals: seq<Value>, k: nat, alpha: Value, beta: Value, best: Value, idx: nat)
  {
    && k <= |vals|
    && Lt(best, beta)
    && (forall i :: 0 <= i < k ==> Le(vals[i], best))
    && (best != NegInf ==>
          && idx < k
          && (forall i :: 0 <= i < idx ==> Lt(vals[i], best))
          && (Lt(alpha, best) ==> vals[idx] == best))
  }

  /** The mirror image of `MaxScan` for a minimizing loop. */
  ghost predicate MinScan(vals: seq<Value>, k: nat, alpha: Value, beta: Value, best: Value, idx: nat)
  {
    && k <= |vals|
    && Lt(alpha, best)
    && (forall i :: 0 <= i < k ==> Le(best, vals[i]))
    && (best != PosInf ==>
          && idx < k
          && (forall i :: 0 <= i < idx ==> Lt(best, vals[i]))
          && (Lt(best, beta) ==> vals[idx] == best))
  }

  /** One iteration of the maximizing loop: child k returned `w` for the window
      (max(alpha, best), beta). Either the loop goes on with the invariant
      re-established, or `w` became the best value and reached beta, in which
      case it is a lower bound of child k and beats every earlier child. */
  lemma MaxScanStep(vals: seq<Value>, k: nat, alpha: Value, beta: Value,
                        best: Value, idx: nat, w: Value)
    requires Lt(alpha, beta) && MaxScan(vals, k, alpha, beta, best, idx) && k < |vals|
    requires FailSoft(w, Max(alpha, best), beta, vals[k])
    ensures Lt(best, w) && Lt(w, beta) ==> MaxScan(vals, k + 1, alpha, beta, w, k)
    ensures !Lt(best, w) ==> MaxScan(vals, k + 1, alpha, beta, best, idx)
    ensures Lt(best, w) && Le(beta, w) ==>
              Le(w, vals[k]) && forall i :: 0 <= i < k ==> Lt(vals[i], w)
  {
  }

  /** One iteration of the minimizing loop, the mirror image of `MaxScanStep`. */
  lemma MinScanStep(vals: seq<Value>, k: nat, alpha: Value, beta: Value,
                        best: Value, idx: nat, w: Value)
    requires Lt(alpha, beta) && MinScan(vals, k, alpha, beta, best, idx) && k < |vals|
    requires FailSoft(w, alpha, Min(beta, best), vals[k])
    ensures Lt(w, best) && Lt(alpha, w) ==> MinScan(vals, k + 1, alpha, beta, w, k)
    ensures !Lt(w, best) ==> MinScan(vals, k + 1, alpha, beta, best, idx)
    ensures Lt(w, best) && Le(w, alpha) ==>
              Le(vals[k], w) && forall i :: 0 <= i < k ==> Lt(w, vals[i])
  {
  }

  /** A maximizing loop that examined every child returns a fail-soft value. */
  lemma {:induction false} MaxScanDone(vals: seq<Value>, alpha: Value, beta: Value, best: Value, idx: nat)
    requires MaxScan(vals, |vals|, alpha, beta, best, idx)
    ensures FailSoft(best, alpha, beta, Extreme(vals, true))
  {
    ExtremeBoundedBy(vals, true, best);
    if best != NegInf {
      ExtremeBounds(vals, true, idx);
    }
  }

  /** A minimizing loop that examined every child returns a fail-soft value. */
  lemma {:induction false} MinScanDone(vals: seq<Value>, alpha: Value, beta: Value, best: Value, idx: nat)
    requires MinScan(vals, |vals|, alpha, beta, best, idx)
    ensures FailSoft(best, alpha, beta, Extreme(vals, false))
  {
    ExtremeBoundedBy(vals, false, best);
    if best != PosInf {
      ExtremeBounds(vals, false, idx);
    }
  }
}
