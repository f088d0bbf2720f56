/** Minimal and maximal values of a set variable among the models of a formula. */
module Optima {
  import opened Cnf
  import opened Lists
  import opened Sets

  /** S lies on the sought side of bound: below it when minimizing, above it when maximizing. */
  ghost predicate Within(maximize: bool, S: set<nat>, bound: set<nat>) {
    if maximize then bound <= S else S <= bound
  }

  ghost predicate HasPlace(pgen: Option<nat>, S: set<nat>) {
    pgen.Some? ==> pgen.value in S
  }

  /** a satisfies f0 and puts the generating place, if any, into the set. */
  ghost predicate Model(f0: seq<Clause>, base: nat, n: nat, pgen: Option<nat>, a: Assignment) {
    Sat(a, f0) && HasPlace(pgen, SetVal(a, base, n))
  }

  /** f is f0 with the set restricted to the sought side of bound. */
  ghost predicate Pinned(f: seq<Clause>, f0: seq<Clause>, base: nat, n: nat, maximize: bool, bound: set<nat>) {
    forall a: Assignment :: Sat(a, f) <==> Sat(a, f0) && Within(maximize, SetVal(a, base, n), bound)
  }

  /** Every model of f0 keeps the places in keep on the side where they are forced to be. */
  ghost predicate Respected(f0: seq<Clause>, base: nat, n: nat, maximize: bool, keep: set<nat>) {
    forall a: Assignment, q: nat :: Sat(a, f0) && q in keep && q < n ==> (q in SetVal(a, base, n)) != maximize
  }

  /** No model can move place q to the sought side any more. */
  ghost predicate Refused(f0: seq<Clause>, base: nat, n: nat, maximize: bool, bound: set<nat>, pgen: Option<nat>,
                          q: nat) {
    forall a: Assignment :: Model(f0, base, n, pgen, a) && Within(maximize, SetVal(a, base, n), bound) ==>
      (q in SetVal(a, base, n)) != maximize
  }

  ghost predicate Settled(f0: seq<Clause>, base: nat, n: nat, maximize: bool, bound: set<nat>, keep: set<nat>,
                          pgen: Option<nat>, q: nat) {
    || (q in bound) == maximize
    || pgen == Some(q)
    || q in keep
    || Refused(f0, base, n, maximize, bound, pgen, q)
  }

  /** No model has a set strictly on the sought side of M. */
  ghost predicate Optimal(f0: seq<Clause>, base: nat, n: nat, maximize: bool, pgen: Option<nat>, M: set<nat>) {
    forall a: Assignment :: Model(f0, base, n, pgen, a) && Within(maximize, SetVal(a, base, n), M) ==>
      SetVal(a, base, n) == M
  }

  /** Optimal, spelled out. */
  lemma OptimalRules(f0: seq<Clause>, base: nat, n: nat, maximize: bool, pgen: Option<nat>, M: set<nat>)
    ensures Optimal(f0, base, n, maximize, pgen, M) <==>
            forall a: Assignment ::
              var S := SetVal(a, base, n);
              Sat(a, f0) && (pgen.Some? ==> pgen.value in S) && (if maximize then M <= S else S <= M) ==> S == M
  {
    hide Sat, SetVal;
  }

  ghost predicate Achieved(f0: seq<Clause>, base: nat, n: nat, pgen: Option<nat>, M: set<nat>) {
    exists a: Assignment :: Model(f0, base, n, pgen, a) && SetVal(a, base, n) == M
  }

  lemma SettledMono(f0: seq<Clause>, base: nat, n: nat, maximize: bool, bound: set<nat>, bound': set<nat>,
                    keep: set<nat>, pgen: Option<nat>, q: nat)
    requires Settled(f0, base, n, maximize, bound, keep, pgen, q) && Within(maximize, bound', bound)
    ensures Settled(f0, base, n, maximize, bound', keep, pgen, q)
  {
    hide Sat, SetVal;
    if Refused(f0, base, n, maximize, bound, pgen, q) {
      forall a: Assignment | Model(f0, base, n, pgen, a) && Within(maximize, SetVal(a, base, n), bound')
        ensures (q in SetVal(a, base, n)) != maximize
      {
        assert Within(maximize, SetVal(a, base, n), bound);
      }
    }
  }

  /** When every place is settled the bound is optimal. */
  lemma AllSettledOptimal(f0: seq<Clause>, base: nat, n: nat, maximize: bool, M: set<nat>, keep: set<nat>,
                          pgen: Option<nat>)
    requires forall q: nat :: q < n ==> Settled(f0, base, n, maximize, M, keep, pgen, q)
    requires Respected(f0, base, n, maximize, keep) && HasPlace(pgen, M)
    requires forall q :: q in M ==> q < n
    ensures Optimal(f0, base, n, maximize, pgen, M)
  {
    hide Sat;
    forall a: Assignment | Model(f0, base, n, pgen, a) && Within(maximize, SetVal(a, base, n), M)
      ensures SetVal(a, base, n) == M
    {
      var S := SetVal(a, base, n);
      assert forall q :: q in S ==> q < n;
      forall q: nat | q < n ensures q in S <==> q in M {
        assert Settled(f0, base, n, maximize, M, keep, pgen, q);
      }
    }
  }

  /** The condition that the places of W have the given value. */
  ghost predicate AllHave(a: Assignment, base: nat, W: set<nat>, value: bool) {
    forall p :: p in W ==> Holds(a, base, p) == value
  }

  /** Pinning the places between two bounds moves the restriction from one to the other. */
  lemma PinnedMore(f: seq<Clause>, f': seq<Clause>, f0: seq<Clause>, base: nat, n: nat, maximize: bool, bound: set<nat>,
                   bound': set<nat>, W: set<nat>)
    requires Pinned(f, f0, base, n, maximize, bound) && Within(maximize, bound', bound)
    requires forall a: Assignment :: Sat(a, f') <==> Sat(a, f) && AllHave(a, base, W, maximize)
    requires W == (if maximize then bound' - bound else bound - bound')
    requires (forall p :: p in bound ==> p < n) && (forall p :: p in bound' ==> p < n)
    ensures Pinned(f', f0, base, n, maximize, bound')
  {
    hide Sat, Holds;
    forall a: Assignment ensures Sat(a, f') <==> Sat(a, f0) && Within(maximize, SetVal(a, base, n), bound') {
      WithinMore(a, base, n, maximize, bound, bound', W);
    }
  }

  lemma WithinMore(a: Assignment, base: nat, n: nat, maximize: bool, bound: set<nat>, bound': set<nat>, W: set<nat>)
    requires Within(maximize, bound', bound)
    requires W == (if maximize then bound' - bound else bound - bound')
    requires (forall p :: p in bound ==> p < n) && (forall p :: p in bound' ==> p < n)
    ensures Within(maximize, SetVal(a, base, n), bound) && AllHave(a, base, W, maximize)
            <==> Within(maximize, SetVal(a, base, n), bound')
  {
    hide Holds;
    var S := SetVal(a, base, n);
    assert forall p: nat :: p < n ==> (p in S <==> Holds(a, base, p));
  }

  /** The state between two trials: bound is reached by some model, f is f0
      restricted by it, and a current solution has exactly it. */
  ghost predicate Progressing(f: seq<Clause>, f0: seq<Clause>, base: nat, n: nat, maximize: bool, bound: set<nat>,
                              pgen: Option<nat>,
                              satisfied: bool, solution: Assignment) {
    && Pinned(f, f0, base, n, maximize, bound)
    && Achieved(f0, base, n, pgen, bound)
    && (satisfied ==> Sat(solution, f0) && SetVal(solution, base, n) == bound)
  }

  /** A failed trial means that no model can move the place. */
  lemma TrialRefused(f: seq<Clause>, f0: seq<Clause>, base: nat, n: nat, maximize: bool, bound: set<nat>,
                     pgen: Option<nat>, p: nat)
    requires Pinned(f, f0, base, n, maximize, bound) && p < n && (pgen.Some? ==> pgen.value < n)
    requires forall a: Assignment :: !(Sat(a, f) && Holds(a, base, p) == maximize
                                       && (pgen.Some? ==> Holds(a, base, pgen.value)))
    ensures Refused(f0, base, n, maximize, bound, pgen, p)
  {
    hide Sat, Holds;
  }

  /** A successful trial yields a better bound. */
  lemma TrialAccepted(f: seq<Clause>, f0: seq<Clause>, base: nat, n: nat, maximize: bool, bound: set<nat>,
                      pgen: Option<nat>, p: nat, a: Assignment)
    requires Pinned(f, f0, base, n, maximize, bound) && p < n && (pgen.Some? ==> pgen.value < n)
    requires Sat(a, f) && Holds(a, base, p) == maximize && (pgen.Some? ==> Holds(a, base, pgen.value))
    ensures Model(f0, base, n, pgen, a) && Within(maximize, SetVal(a, base, n), bound)
    ensures (p in SetVal(a, base, n)) == maximize
    ensures Achieved(f0, base, n, pgen, SetVal(a, base, n))
  {
    hide Sat, Holds;
  }

  /** Solving once more at the end gives the optimal set again. */
  lemma FinalSolution(f: seq<Clause>, f0: seq<Clause>, base: nat, n: nat, maximize: bool, M: set<nat>,
                      pgen: Option<nat>, a: Assignment)
    requires Pinned(f, f0, base, n, maximize, M) && Optimal(f0, base, n, maximize, pgen, M)
    requires (pgen.Some? ==> pgen.value < n)
    requires Sat(a, f) && (pgen.Some? ==> Holds(a, base, pgen.value))
    ensures Sat(a, f0) && SetVal(a, base, n) == M
  {
    hide Sat, Holds;
    assert Model(f0, base, n, pgen, a);
  }

  lemma AchievedSat(f: seq<Clause>, f0: seq<Clause>, base: nat, n: nat, maximize: bool, M: set<nat>, pgen: Option<nat>)
    returns (a: Assignment)
    requires Pinned(f, f0, base, n, maximize, M) && Achieved(f0, base, n, pgen, M) && (pgen.Some? ==> pgen.value < n)
    ensures Sat(a, f) && (pgen.Some? ==> Holds(a, base, pgen.value))
  {
    hide Sat, Holds;
    a :| Model(f0, base, n, pgen, a) && SetVal(a, base, n) == M;
  }

  ghost function KeepSet(maximize: bool, enforce: Option<set<nat>>, forbid: Option<set<nat>>): set<nat> {
    var o := if maximize then forbid else enforce;
    if o.Some? then o.value else {}
  }

  lemma StartPinned(f0: seq<Clause>, base: nat, n: nat, maximize: bool)
    ensures Pinned(f0, f0, base, n, maximize, if maximize then {} else Range(0, n))
  {
    hide Sat, Holds;
  }

  lemma AchievedBy(f0: seq<Clause>, base: nat, n: nat, pgen: Option<nat>, a: Assignment)
    requires Model(f0, base, n, pgen, a)
    ensures Achieved(f0, base, n, pgen, SetVal(a, base, n))
  {
    hide Model;
  }

  lemma AchievedHas(f0: seq<Clause>, base: nat, n: nat, pgen: Option<nat>, M: set<nat>)
    requires Achieved(f0, base, n, pgen, M)
    ensures HasPlace(pgen, M)
  {
    hide Sat;
  }
}
