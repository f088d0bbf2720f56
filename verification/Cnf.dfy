/** Propositional formulas in conjunctive normal form, as sequences of clauses of
    non-zero literals, and the clause patterns that the encoders emit. */
module Cnf {

  type Literal = int
  type Clause = seq<Literal>
  type Assignment = nat -> bool

  predicate LitTrue(a: Assignment, l: Literal) {
    if l > 0 then a(l) else if l < 0 then !a(-l) else false
  }

  ghost predicate ClauseTrue(a: Assignment, c: Clause) {
    exists l :: l in c && LitTrue(a, l)
  }

  ghost predicate Sat(a: Assignment, f: seq<Clause>) {
    forall c :: c in f ==> ClauseTrue(a, c)
  }

  /** The variable of place p in the block that starts at base. */
  predicate Holds(a: Assignment, base: nat, p: nat) {
    a(base + p)
  }

  /** The set of places that a block of variables starting at base stands for. */
  ghost function SetVal(a: Assignment, base: nat, n: nat): set<nat> {
    set p: nat | p < n && Holds(a, base, p)
  }

  lemma SatConcat(a: Assignment, f: seq<Clause>, g: seq<Clause>)
    ensures Sat(a, f + g) <==> Sat(a, f) && Sat(a, g)
  {
    hide ClauseTrue;
    assert forall c :: c in f + g <==> c in f || c in g;
  }

  lemma SatOne(a: Assignment, c: Clause)
    ensures Sat(a, [c]) <==> ClauseTrue(a, c)
  {
    hide ClauseTrue;
    assert c in [c];
  }

  lemma ClauseCons(a: Assignment, l: Literal, c: Clause)
    ensures ClauseTrue(a, [l] + c) <==> LitTrue(a, l) || ClauseTrue(a, c)
  {
    hide LitTrue;
    assert forall k :: k in [l] + c <==> k == l || k in c;
  }

  // ---------- variables below a bound ----------

  ghost predicate AgreeBelow(a: Assignment, b: Assignment, k: nat) {
    forall v: nat :: v < k ==> a(v) == b(v)
  }

  /** The formula only depends on the variables below k. */
  ghost predicate DependsOn(f: seq<Clause>, k: nat) {
    forall a: Assignment, b: Assignment :: AgreeBelow(a, b, k) ==> (Sat(a, f) <==> Sat(b, f))
  }

  // ---------- blocks of literals ----------

  /** The literals base + p for the first k places p of a set of arcs. */
  function ArcLits(arcs: map<nat, nat>, base: nat, k: nat): Clause {
    if k == 0 then []
    else ArcLits(arcs, base, k - 1) + if k - 1 in arcs then [base + k - 1] else []
  }

  lemma {:induction false} ArcLitsMembers(arcs: map<nat, nat>, base: nat, k: nat, l: Literal)
    ensures l in ArcLits(arcs, base, k) <==> base <= l < base + k && (l - base) as nat in arcs
  {
    if k > 0 { ArcLitsMembers(arcs, base, k - 1, l); }
  }

  ghost predicate MeetsVal(a: Assignment, arcs: map<nat, nat>, base: nat) {
    exists p :: p in arcs && Holds(a, base, p)
  }

  lemma ArcLitsTrue(a: Assignment, arcs: map<nat, nat>, base: nat, n: nat)
    requires base >= 1 && forall p :: p in arcs ==> p < n
    ensures ClauseTrue(a, ArcLits(arcs, base, n)) <==> MeetsVal(a, arcs, base)
  {
    forall l ensures l in ArcLits(arcs, base, n) <==> base <= l < base + n && (l - base) as nat in arcs {
      ArcLitsMembers(arcs, base, n, l);
    }
    if ClauseTrue(a, ArcLits(arcs, base, n)) {
      var l :| l in ArcLits(arcs, base, n) && LitTrue(a, l);
      assert Holds(a, base, l - base);
    }
    if p :| p in arcs && Holds(a, base, p) {
      assert base + p in ArcLits(arcs, base, n);
    }
  }

  /** For the first k places p of some arcs: the clause (not base + p) or rest. */
  function EachArc(arcs: map<nat, nat>, base: nat, k: nat, rest: Clause): seq<Clause> {
    if k == 0 then []
    else EachArc(arcs, base, k - 1, rest) + if k - 1 in arcs then [[-(base + k - 1)] + rest] else []
  }

  lemma {:induction false} EachArcTrue(a: Assignment, arcs: map<nat, nat>, base: nat, k: nat, rest: Clause)
    requires base >= 1
    ensures Sat(a, EachArc(arcs, base, k, rest)) <==>
            (forall p :: p in arcs && p < k && Holds(a, base, p) ==> ClauseTrue(a, rest))
  {
    hide ClauseTrue;
    if k > 0 {
      EachArcTrue(a, arcs, base, k - 1, rest);
      if k - 1 in arcs {
        var c := [-(base + k - 1)] + rest;
        SatConcat(a, EachArc(arcs, base, k - 1, rest), [c]);
        SatOne(a, c);
        ClauseCons(a, -(base + k - 1), rest);
      }
    }
  }
}
