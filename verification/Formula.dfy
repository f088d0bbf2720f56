/** The incrementally built formula: variables, encoders, and the solver. */
module Formulas {
  import opened Cnf
  import opened Components
  import opened Encoders
  import opened Lists
  import opened MaxTraps
  import opened Optima
  import opened PetriNets
  import opened PlaceComponents
  import opened Sets

  type Solver = seq<Clause> -> Option<Assignment>

  /** The solver finds a model whenever there is one, and only models. */
  ghost predicate ExactSolver(solver: Solver) {
    forall f: seq<Clause> ::
      match solver(f)
      case Some(a) => Sat(a, f)
      case None => forall a: Assignment :: !Sat(a, f)
  }

  // ---------- allocation of variables ----------

  ghost predicate InBlock(n: nat, svtov: map<nat, nat>, sv: nat, v: nat) {
    sv in svtov && svtov[sv] <= v < svtov[sv] + n
  }

  /** Blocks and single variables lie below ffv and never overlap. */
  ghost predicate Allocation(n: nat, ffv: nat, ffsv: nat, svtov: map<nat, nat>, singles: set<nat>) {
    && 1 <= ffv && 1 <= ffsv
    && (forall sv :: sv in svtov ==> 1 <= sv < ffsv && 1 <= svtov[sv] && svtov[sv] + n <= ffv)
    && (forall sv, sv', v :: InBlock(n, svtov, sv, v) && InBlock(n, svtov, sv', v) ==> sv == sv')
    && (forall v :: v in singles ==> 1 <= v < ffv)
    && (forall sv, v :: v in singles ==> !InBlock(n, svtov, sv, v))
  }

  lemma NewVarOK(n: nat, ffv: nat, ffsv: nat, svtov: map<nat, nat>, singles: set<nat>)
    requires Allocation(n, ffv, ffsv, svtov, singles)
    ensures Allocation(n, ffv + 1, ffsv, svtov, singles + {ffv})
  {
  }

  lemma NewSetVarOK(n: nat, ffv: nat, ffsv: nat, svtov: map<nat, nat>, singles: set<nat>)
    requires Allocation(n, ffv, ffsv, svtov, singles)
    ensures ffsv !in svtov
    ensures Allocation(n, ffv + n, ffsv + 1, svtov[ffsv := ffv], singles)
  {
    var svtov' := svtov[ffsv := ffv];
    forall sv: nat, v: nat | InBlock(n, svtov', sv, v)
      ensures if sv == ffsv then ffv <= v else InBlock(n, svtov, sv, v) && v < ffv { }
  }

  // ---------- dependence on variables ----------

  lemma DependsConcat(f: seq<Clause>, g: seq<Clause>, k: nat, m: nat)
    requires DependsOn(f, k) && DependsOn(g, m) && k <= m
    ensures DependsOn(f + g, m)
  {
    hide Sat;
    forall a: Assignment, b: Assignment | AgreeBelow(a, b, m) ensures Sat(a, f + g) <==> Sat(b, f + g) {
      assert AgreeBelow(a, b, k);
      SatConcat(a, f, g);
      SatConcat(b, f, g);
    }
  }

  /** A condition on blocks below k only depends on the variables below k. */
  lemma BlockDepends(net: Net, base: nat, k: nat)
    requires WellFormedNet(net) && base >= 1 && base + net.places <= k
    ensures DependsOn(NonEmptyClauses(net, base), k) && DependsOn(EmptyClauses(net, base), k)
    ensures DependsOn(MarkedClauses(net, base), k) && DependsOn(UnmarkedClauses(net, base), k)
    ensures DependsOn(SiphonClauses(net, base), k) && DependsOn(TrapClauses(net, base), k)
  {
    hide Sat, SetVal, NonEmptyClauses, EmptyClauses, MarkedClauses, UnmarkedClauses, SiphonClauses, TrapClauses,
      AgreeBelow, MarkedAt, Siphon, Trap;
    forall a: Assignment, b: Assignment | AgreeBelow(a, b, k)
      ensures Sat(a, NonEmptyClauses(net, base)) <==> Sat(b, NonEmptyClauses(net, base))
      ensures Sat(a, EmptyClauses(net, base)) <==> Sat(b, EmptyClauses(net, base))
      ensures Sat(a, MarkedClauses(net, base)) <==> Sat(b, MarkedClauses(net, base))
      ensures Sat(a, UnmarkedClauses(net, base)) <==> Sat(b, UnmarkedClauses(net, base))
      ensures Sat(a, SiphonClauses(net, base)) <==> Sat(b, SiphonClauses(net, base))
      ensures Sat(a, TrapClauses(net, base)) <==> Sat(b, TrapClauses(net, base))
    {
      AgreeSetVal(a, b, base, net.places, k);
      SimpleConditions(net, base, a);
      SimpleConditions(net, base, b);
      SiphonTrapCorrect(net, base, a);
      SiphonTrapCorrect(net, base, b);
    }
  }

  lemma LitDepends(l: Literal, a: Assignment, b: Assignment, k: nat)
    requires AgreeBelow(a, b, k) && -(k as int) < l < k
    ensures LitTrue(a, l) <==> LitTrue(b, l)
  {
    if l > 0 { assert a(l) == b(l); } else if l < 0 { assert a(-l) == b(-l); }
  }

  lemma StepDepends(net: Net, zold: nat, z: nat, xs: nat, k: nat)
    requires WellFormedNet(net) && zold >= 1 && z >= 1 && xs >= 1
    requires zold + net.places <= k && z + net.places <= k && xs + |net.post| <= k
    ensures DependsOn(StepClauses(net, zold, z, xs), k)
  {
    hide Sat, SetVal, StepClauses, Shrink, AgreeBelow, HelpersOK;
    forall a: Assignment, b: Assignment | AgreeBelow(a, b, k)
      ensures Sat(a, StepClauses(net, zold, z, xs)) <==> Sat(b, StepClauses(net, zold, z, xs))
    {
      AgreeSetVal(a, b, zold, net.places, k);
      AgreeSetVal(a, b, z, net.places, k);
      StepCorrect(net, zold, z, xs, a);
      StepCorrect(net, zold, z, xs, b);
      AgreeFlip(a, b, k);
      if HelpersOK(net, zold, xs, |net.post|, a) { AgreeHelpers(net, zold, xs, a, b, k); }
      if HelpersOK(net, zold, xs, |net.post|, b) { AgreeHelpers(net, zold, xs, b, a, k); }
    }
  }

  lemma AgreeFlip(a: Assignment, b: Assignment, k: nat)
    requires AgreeBelow(a, b, k)
    ensures AgreeBelow(b, a, k)
  {
  }

  lemma DependsMono(f: seq<Clause>, k: nat, m: nat)
    requires DependsOn(f, k) && k <= m
    ensures DependsOn(f, m)
  {
    hide Sat;
    forall a: Assignment, b: Assignment | AgreeBelow(a, b, m) ensures Sat(a, f) <==> Sat(b, f) {
      assert AgreeBelow(a, b, k);
    }
  }

  lemma NothingDepends(k: nat)
    ensures DependsOn([], k)
  {
    forall a: Assignment, b: Assignment ensures Sat(a, []) <==> Sat(b, []) {
      SatNone(a);
      SatNone(b);
    }
  }

  lemma {:induction false} MaxTrapDepends(net: Net, zold: nat, trap: nat, v: nat, j: nat)
    requires WellFormedNet(net) && zold >= 1 && trap >= 1 && v >= 1
    requires zold + net.places <= v && trap + net.places <= v
    ensures DependsOn(MaxTrapFrom(net, zold, trap, v, j), FreeAfter(net, v, j))
    decreases net.places - j
  {
    hide DependsOn, StepClauses;
    var n := net.places;
    if j >= n {
      NothingDepends(v);
    } else if j + 1 < n {
      var w := v + n + |net.post|;
      StepDepends(net, zold, v, v + n, w);
      MaxTrapDepends(net, v, trap, w, j + 1);
      DependsConcat(StepClauses(net, zold, v, v + n), MaxTrapFrom(net, v, trap, w, j + 1), w, FreeAfter(net, v, j));
    } else {
      StepDepends(net, zold, trap, v, v + |net.post|);
    }
  }

  ghost predicate LitsBelow(lits: seq<Literal>, k: nat) {
    forall l :: l in lits ==> -(k as int) < l < k
  }

  lemma ConnectivesDepend(x: nat, lits: seq<Literal>)
    requires x >= 1 && LitsBelow(lits, x)
    ensures DependsOn(AndClauses(x, lits), x + 1) && DependsOn(OrClauses(x, lits), x + 1)
  {
    hide Sat, AndClauses, OrClauses, LitTrue;
    forall a: Assignment, b: Assignment | AgreeBelow(a, b, x + 1)
      ensures Sat(a, AndClauses(x, lits)) <==> Sat(b, AndClauses(x, lits))
      ensures Sat(a, OrClauses(x, lits)) <==> Sat(b, OrClauses(x, lits))
    {
      AndCorrect(x, lits, a);
      AndCorrect(x, lits, b);
      OrCorrect(x, lits, a);
      OrCorrect(x, lits, b);
      forall i | 0 <= i < |lits| ensures LitTrue(a, lits[i]) <==> LitTrue(b, lits[i]) {
        assert lits[i] in lits;
        LitDepends(lits[i], a, b, x + 1);
      }
      assert a(x) == b(x);
    }
  }

  lemma BinaryDepend(x: nat, l1: Literal, l2: Literal)
    requires x >= 1 && l1 != 0 && l2 != 0 && LitsBelow([l1, l2], x)
    ensures DependsOn(ImpliesClauses(x, l1, l2), x + 1) && DependsOn(EqualsClauses(x, l1, l2), x + 1)
  {
    assert l1 in [l1, l2] && l2 in [l1, l2];
    hide Sat, ImpliesClauses, EqualsClauses, LitTrue;
    forall a: Assignment, b: Assignment | AgreeBelow(a, b, x + 1)
      ensures Sat(a, ImpliesClauses(x, l1, l2)) <==> Sat(b, ImpliesClauses(x, l1, l2))
      ensures Sat(a, EqualsClauses(x, l1, l2)) <==> Sat(b, EqualsClauses(x, l1, l2))
    {
      ImpliesCorrect(x, l1, l2, a);
      EqualsCorrect(x, l1, l2, a);
      ImpliesCorrect(x, l1, l2, b);
      EqualsCorrect(x, l1, l2, b);
      LitDepends(l1, a, b, x + 1);
      LitDepends(l2, a, b, x + 1);
      assert a(x) == b(x);
    }
  }

  lemma EmptyVarDepends(net: Net, base: nat, x: nat)
    requires base >= 1 && x >= 1 && base + net.places <= x
    ensures DependsOn(EmptyVarClauses(net, base, x), x + 1)
  {
    hide Sat, EmptyVarClauses, SetVal;
    forall a: Assignment, b: Assignment | AgreeBelow(a, b, x + 1)
      ensures Sat(a, EmptyVarClauses(net, base, x)) <==> Sat(b, EmptyVarClauses(net, base, x))
    {
      AgreeSetVal(a, b, base, net.places, x + 1);
      EmptyVarCorrect(net, base, x, a);
      EmptyVarCorrect(net, base, x, b);
      assert a(x) == b(x);
    }
  }

  lemma FlowVarDepends(net: Net, from: seq<map<nat, nat>>, to: seq<map<nat, nat>>, base: nat, x: nat)
    requires |from| == |to| && base >= 1 && x >= 1 && ArcsInside(net, from) && ArcsInside(net, to)
    requires base + net.places <= x
    ensures DependsOn(FlowVarClauses(net, from, to, base, x), x + 1 + |from|)
  {
    hide Sat, FlowVarClauses, SetVal, Flows, Violates;
    var k := x + 1 + |from|;
    forall a: Assignment, b: Assignment | AgreeBelow(a, b, k)
      ensures Sat(a, FlowVarClauses(net, from, to, base, x)) <==> Sat(b, FlowVarClauses(net, from, to, base, x))
    {
      AgreeSetVal(a, b, base, net.places, k);
      FlowVarCorrect(net, from, to, base, x, a);
      FlowVarCorrect(net, from, to, base, x, b);
      assert a(x) == b(x);
      forall t: nat | t < |from| ensures Flagged(a, x, t) <==> Flagged(b, x, t) {
        assert a(x + 1 + t) == b(x + 1 + t);
      }
    }
  }

  /** The components of a net consist of places of the net. */
  lemma ComponentsInside(net: Net, scc: seq<set<nat>>)
    requires WellFormedNet(net) && (scc == [] || IsPartition(PlaceEdges(net, |net.pre|), scc))
    ensures forall i, p :: 0 <= i < |scc| && p in scc[i] ==> p < net.places
  {
    hide IsComponent, Disjoint, Ordered;
    forall i, p | 0 <= i < |scc| && p in scc[i] ensures p < net.places {
      var E := PlaceEdges(net, |net.pre|);
      assert InComps(scc, |scc|, p);
      assert OnArc(E, p);
      var q :| (p, q) in E || (q, p) in E;
    }
  }

  lemma CoverDepends(net: Net, scc: seq<set<nat>>, base: nat, x: nat)
    requires base >= 1 && x >= 1 && base + net.places <= x
    requires forall i, p :: 0 <= i < |scc| && p in scc[i] ==> p < net.places
    ensures DependsOn(CoverClauses(net, scc, base, x), x + 1 + |scc|)
  {
    hide Sat, CoverClauses, SetVal;
    var k := x + 1 + |scc|;
    forall a: Assignment, b: Assignment | AgreeBelow(a, b, k)
      ensures Sat(a, CoverClauses(net, scc, base, x)) <==> Sat(b, CoverClauses(net, scc, base, x))
    {
      AgreeSetVal(a, b, base, net.places, k);
      CoverCorrect(net, scc, base, x, a);
      CoverCorrect(net, scc, base, x, b);
      assert a(x) == b(x);
      forall i: nat | i < |scc| ensures Flagged(a, x, i) <==> Flagged(b, x, i) {
        assert a(x + 1 + i) == b(x + 1 + i);
      }
    }
  }

  lemma ArcLitsBelow(arcs: map<nat, nat>, base: nat, n: nat, k: nat)
    requires base + n <= k && base >= 1
    ensures LitsBelow(ArcLits(arcs, base, n), k)
  {
    forall l | l in ArcLits(arcs, base, n) ensures -(k as int) < l < k { ArcLitsMembers(arcs, base, n, l); }
  }

  lemma UnrollStep(net: Net, zold: nat, trap: nat, v: nat, j: nat)
    requires j < net.places
    ensures j + 1 < net.places ==>
              MaxTrapFrom(net, zold, trap, v, j) ==
                StepClauses(net, zold, v, v + net.places)
                + MaxTrapFrom(net, v, trap, v + net.places + |net.post|, j + 1)
              && FreeAfter(net, v, j) == FreeAfter(net, v + net.places + |net.post|, j + 1)
    ensures j + 1 == net.places ==>
              MaxTrapFrom(net, zold, trap, v, j) ==
                StepClauses(net, zold, trap, v) + MaxTrapFrom(net, trap, trap, v + |net.post|, j + 1)
              && FreeAfter(net, v, j) == FreeAfter(net, v + |net.post|, j + 1)
  {
    hide StepClauses;
  }

  lemma UnrollEnd(net: Net, zold: nat, trap: nat, v: nat, j: nat)
    requires j >= net.places
    ensures MaxTrapFrom(net, zold, trap, v, j) == [] && FreeAfter(net, v, j) == v
  {
  }

  // ---------- the formula ----------

  class Formula {
    const net: Net
    const minisat: Solver
    var f: seq<Clause>
    var ffv: nat
    var ffsv: nat
    var svtov: map<nat, nat>
    var satisfied: bool
    var mssolution: Assignment
    var scc: seq<set<nat>>
    ghost var singles: set<nat>

    ghost predicate Valid()
      reads this
    {
      && WellFormedNet(net)
      && (scc == [] || IsPartition(PlaceEdges(net, |net.pre|), scc))
      && Allocation(net.places, ffv, ffsv, svtov, singles)
      && DependsOn(f, ffv)
    }

    constructor (net: Net, minisat: Solver)
      requires WellFormedNet(net)
      ensures this.net == net && this.minisat == minisat
      ensures Valid() && f == [] && ffv == 1 && ffsv == 1 && svtov == map[] && singles == {} && !satisfied
    {
      this.net := net;
      this.minisat := minisat;
      f := [];
      ffv := 1;
      ffsv := 1;
      svtov := map[];
      satisfied := false;
      scc := [];
      singles := {};
      mssolution := _ => false;
      new;
      NothingDepends(1);
    }

    /** A new single variable, different from every variable handed out before. */
    method CreateVar() returns (v: nat)
      requires Valid()
      modifies this`ffv, this`singles
      ensures Valid() && v == old(ffv) && ffv == v + 1 && singles == old(singles) + {v}
    {
      NewVarOK(net.places, ffv, ffsv, svtov, singles);
      DependsMono(f, ffv, ffv + 1);
      v := ffv;
      ffv := ffv + 1;
      singles := singles + {v};
    }

    /** A new set variable with a block of one variable for each place. */
    method CreateSetVar() returns (sv: nat)
      requires Valid()
      modifies this`ffv, this`ffsv, this`svtov
      ensures Valid() && sv == old(ffsv) && ffsv == sv + 1 && sv !in old(svtov) && sv != 0
      ensures svtov == old(svtov)[sv := old(ffv)] && ffv == old(ffv) + net.places
    {
      NewSetVarOK(net.places, ffv, ffsv, svtov, singles);
      DependsMono(f, ffv, ffv + net.places);
      sv := ffsv;
      ffsv := ffsv + 1;
      svtov := svtov[sv := ffv];
      ffv := ffv + net.places;
    }

    /** The variable of place p inside the set variable, or 0 for an unknown place. */
    function GetVar(sv: nat, p: nat): (v: nat)
      requires Valid() && sv in svtov
      reads this
      ensures p < net.places ==> InBlock(net.places, svtov, sv, v)
    {
      if p < net.places then svtov[sv] + p else 0
    }

    /** The places that the last solution puts into the set variable. */
    method GetAssignment(sv: nat) returns (result: set<nat>)
      requires Valid() && (sv == 0 || sv in svtov)
      ensures result == if sv == 0 || !satisfied then {} else SetVal(mssolution, svtov[sv], net.places)
    {
      result := {};
      if sv == 0 || !satisfied {
        return;
      }
      for i := 0 to net.places
        invariant result == set p: nat | p < i && Holds(mssolution, svtov[sv], p)
      {
        if mssolution(svtov[sv] + i) {
          result := result + {i};
        }
      }
    }

    /** Solves the formula. */
    method Solve() returns (b: bool)
      requires ExactSolver(minisat)
      modifies this`satisfied, this`mssolution
      ensures b == satisfied
      ensures satisfied ==> Sat(mssolution, f)
      ensures !satisfied ==> forall a: Assignment :: !Sat(a, f)
    {
      hide Sat;
      var r := minisat(f);
      satisfied := r.Some?;
      if r.Some? {
        mssolution := r.value;
      }
      b := satisfied;
    }

    method RemoveLastClause()
      modifies this`f
      ensures f == if old(f) == [] then [] else old(f)[..|old(f)| - 1]
    {
      if f != [] {
        f := f[..|f| - 1];
      }
    }

    /** Forces the variable v to the given value. */
    method SetTo(v: nat, value: bool)
      requires Valid() && 1 <= v < ffv
      modifies this`f
      ensures Valid() && f == old(f) + [[if value then v else Minus(v)]]
    {
      UnitDepends(v, value, ffv);
      DependsConcat(f, [[if value then v else Minus(v)]], ffv, ffv);
      f := f + [[if value then v else Minus(v)]];
    }

    // ---------- connectives ----------

    /** A variable that is true exactly if all the non-zero literals are. */
    method And(lits: seq<Literal>) returns (x: nat)
      requires Valid() && LitsBelow(lits, ffv)
      modifies this`f, this`ffv, this`singles
      ensures Valid() && x == old(ffv) && ffv == x + 1
      ensures f == old(f) + AndClauses(x, lits)
    {
      hide DependsOn, LitsBelow, Allocation;
      ghost var f0, v0 := f, ffv;
      ConnectivesDepend(FirstFree(), lits);
      x := CreateVar();
      var nclause: Clause := [x];
      var clauses := f;
      for i := 0 to |lits|
        invariant nclause == [x] + Negated(lits, i)
        invariant clauses == f0 + EachLit(lits, x, i)
      {
        if lits[i] != 0 {
          clauses := clauses + [[lits[i], Minus(x)]];
          nclause := nclause + [-lits[i]];
        }
      }
      DependsConcat(f0, AndClauses(x, lits), v0, ffv);
      f := clauses + [nclause];
      assert f == f0 + AndClauses(x, lits);
    }

    /** A variable that is true exactly if some of the non-zero literals is. */
    method Or(lits: seq<Literal>) returns (x: nat)
      requires Valid() && LitsBelow(lits, ffv)
      modifies this`f, this`ffv, this`singles
      ensures Valid() && x == old(ffv) && ffv == x + 1
      ensures f == old(f) + OrClauses(x, lits)
    {
      hide DependsOn, LitsBelow, Allocation;
      ghost var f0, v0 := f, ffv;
      ConnectivesDepend(FirstFree(), lits);
      x := CreateVar();
      var pclause: Clause := [Minus(x)];
      var clauses := f;
      for i := 0 to |lits|
        invariant pclause == [Minus(x)] + NonZero(lits, i)
        invariant clauses == f0 + EachNegated(lits, x, i)
      {
        if lits[i] != 0 {
          clauses := clauses + [[-lits[i], x]];
          pclause := pclause + [lits[i]];
        }
      }
      DependsConcat(f0, OrClauses(x, lits), v0, ffv);
      f := clauses + [pclause];
      assert f == f0 + OrClauses(x, lits);
    }

    /** A variable that is true exactly if l1 implies l2. */
    method Implies(l1: Literal, l2: Literal) returns (x: nat)
      requires Valid() && l1 != 0 && l2 != 0 && LitsBelow([l1, l2], ffv)
      modifies this`f, this`ffv, this`singles
      ensures Valid() && x == old(ffv) && ffv == x + 1
      ensures f == old(f) + ImpliesClauses(x, l1, l2)
    {
      hide DependsOn, LitsBelow, Allocation;
      BinaryDepend(FirstFree(), l1, l2);
      x := CreateVar();
      Append([[Minus(x), -l1, l2], [x, l1], [x, -l2]]);
    }

    /** A variable that is true exactly if l1 and l2 have the same value. */
    method Equals(l1: Literal, l2: Literal) returns (x: nat)
      requires Valid() && l1 != 0 && l2 != 0 && LitsBelow([l1, l2], ffv)
      modifies this`f, this`ffv, this`singles
      ensures Valid() && x == old(ffv) && ffv == x + 1
      ensures f == old(f) + EqualsClauses(x, l1, l2)
    {
      hide DependsOn, LitsBelow, Allocation;
      BinaryDepend(FirstFree(), l1, l2);
      x := CreateVar();
      Append([[Minus(x), -l1, l2], [Minus(x), l1, -l2], [x, l1, l2], [x, -l1, -l2]]);
    }

    ghost function FirstFree(): (v: nat)
      requires Valid()
      reads this
      ensures v == ffv >= 1
    {
      ffv
    }

    // ---------- loops shared by the encoders ----------

    /** Collects the literals of the places of some arcs. */
    method Literals(arcs: map<nat, nat>, base: nat) returns (clause: Clause)
      ensures clause == ArcLits(arcs, base, net.places)
    {
      clause := [];
      for p := 0 to net.places
        invariant clause == ArcLits(arcs, base, p)
      {
        if p in arcs {
          clause := clause + [base + p];
        }
      }
    }

    /** Adds the clause (not p or rest) for every place p of some arcs. */
    method AddEachArc(clauses: seq<Clause>, arcs: map<nat, nat>, base: nat, rest: Clause) returns (more: seq<Clause>)
      ensures more == clauses + EachArc(arcs, base, net.places, rest)
    {
      more := clauses;
      for p := 0 to net.places
        invariant more == clauses + EachArc(arcs, base, p, rest)
      {
        if p in arcs {
          more := more + [[-(base + p)] + rest];
        }
      }
    }

    /** Adds clauses that only depend on variables below ffv. */
    method Append(clauses: seq<Clause>)
      requires Valid() && DependsOn(clauses, ffv)
      modifies this`f
      ensures Valid() && f == old(f) + clauses
    {
      DependsConcat(f, clauses, ffv, ffv);
      f := f + clauses;
    }

    /** A set variable that was created has its block below ffv. */
    lemma BlockKnown(sv: nat)
      requires Valid() && sv in svtov
      ensures sv >= 1 && svtov[sv] >= 1 && svtov[sv] + net.places <= ffv
    {
    }

    // ---------- conditions on set variables ----------

    method XNEmpty(sv: nat)
      requires Valid() && (sv == 0 || sv in svtov)
      modifies this`f
      ensures Valid() && f == old(f) + if sv == 0 then [] else NonEmptyClauses(net, svtov[sv])
    {
      hide DependsOn, Allocation;
      if sv == 0 { return; }
      BlockKnown(sv);
      BlockDepends(net, svtov[sv], ffv);
      var clause := Literals(AllArcs(net.places), svtov[sv]);
      Append([clause]);
    }

    method XEmpty(sv: nat)
      requires Valid() && (sv == 0 || sv in svtov)
      modifies this`f
      ensures Valid() && f == old(f) + if sv == 0 then [] else EmptyClauses(net, svtov[sv])
    {
      hide DependsOn, Allocation;
      if sv == 0 { return; }
      BlockKnown(sv);
      BlockDepends(net, svtov[sv], ffv);
      var clauses := AddEachArc([], AllArcs(net.places), svtov[sv], []);
      assert clauses == EmptyClauses(net, svtov[sv]);
      Append(clauses);
    }

    method XMarked(sv: nat)
      requires Valid() && (sv == 0 || sv in svtov)
      modifies this`f
      ensures Valid() && f == old(f) + if sv == 0 then [] else MarkedClauses(net, svtov[sv])
    {
      hide DependsOn, Allocation;
      if sv == 0 { return; }
      BlockKnown(sv);
      BlockDepends(net, svtov[sv], ffv);
      var clause := Literals(MarkedArcs(net.m0), svtov[sv]);
      Append([clause]);
    }

    method XNMarked(sv: nat)
      requires Valid() && (sv == 0 || sv in svtov)
      modifies this`f
      ensures Valid() && f == old(f) + if sv == 0 then [] else UnmarkedClauses(net, svtov[sv])
    {
      hide DependsOn, Allocation;
      if sv == 0 { return; }
      BlockKnown(sv);
      BlockDepends(net, svtov[sv], ffv);
      var clauses := AddEachArc([], MarkedArcs(net.m0), svtov[sv], []);
      assert clauses == UnmarkedClauses(net, svtov[sv]);
      Append(clauses);
    }

    /** The clauses that force each of the flows from one set of arcs to the other. */
    method Flow(from: seq<map<nat, nat>>, to: seq<map<nat, nat>>, base: nat) returns (clauses: seq<Clause>)
      requires |from| == |to|
      ensures clauses == FlowClauses(net, from, to, base, |from|)
    {
      clauses := [];
      for t := 0 to |from|
        invariant clauses == FlowClauses(net, from, to, base, t)
      {
        var clause := Literals(to[t], base);
        clauses := AddEachArc(clauses, from[t], base, clause);
      }
    }

    method XSiphon(sv: nat)
      requires Valid() && (sv == 0 || sv in svtov)
      modifies this`f
      ensures Valid() && f == old(f) + if sv == 0 then [] else SiphonClauses(net, svtov[sv])
    {
      hide DependsOn, Allocation;
      if sv == 0 { return; }
      BlockKnown(sv);
      BlockDepends(net, svtov[sv], ffv);
      var clauses := Flow(net.post, net.pre, svtov[sv]);
      Append(clauses);
    }

    method XTrap(sv: nat)
      requires Valid() && (sv == 0 || sv in svtov)
      modifies this`f
      ensures Valid() && f == old(f) + if sv == 0 then [] else TrapClauses(net, svtov[sv])
    {
      hide DependsOn, Allocation;
      if sv == 0 { return; }
      BlockKnown(sv);
      BlockDepends(net, svtov[sv], ffv);
      var clauses := Flow(net.pre, net.post, svtov[sv]);
      Append(clauses);
    }

    // ---------- properties as variables ----------

    /** A variable that is true exactly if the set is empty. */
    method Empty(sv: nat) returns (x: nat)
      requires Valid() && (sv == 0 || sv in svtov)
      modifies this`f, this`ffv, this`singles
      ensures Valid()
      ensures sv == 0 ==> x == 0 && f == old(f) && ffv == old(ffv)
      ensures sv != 0 ==> x == old(ffv) && ffv == x + 1 && f == old(f) + EmptyVarClauses(net, svtov[sv], x)
    {
      hide DependsOn, Allocation;
      if sv == 0 { return 0; }
      BlockKnown(sv);
      x := CreateVar();
      EmptyVarDepends(net, svtov[sv], x);
      var clause := Literals(AllArcs(net.places), svtov[sv]);
      var clauses := AddEachArc([clause + [x]], AllArcs(net.places), svtov[sv], [Minus(x)]);
      Append(clauses);
    }

    /** A variable that is true exactly if the set contains a marked place. */
    method Marked(sv: nat) returns (x: nat)
      requires Valid() && (sv == 0 || sv in svtov)
      modifies this`f, this`ffv, this`singles
      ensures Valid()
      ensures sv == 0 ==> x == 0 && f == old(f) && ffv == old(ffv)
      ensures sv != 0 ==> x == old(ffv) && ffv == x + 1
      ensures sv != 0 ==> f == old(f) + OrClauses(x, ArcLits(MarkedArcs(net.m0), svtov[sv], net.places))
    {
      hide DependsOn, Allocation, LitsBelow;
      if sv == 0 { return 0; }
      BlockKnown(sv);
      var clause := Literals(MarkedArcs(net.m0), svtov[sv]);
      ArcLitsBelow(MarkedArcs(net.m0), svtov[sv], net.places, ffv);
      x := Or(clause);
    }

    /** A variable that is true exactly if the set is a siphon. */
    method Siphon(sv: nat) returns (x: nat)
      requires Valid() && (sv == 0 || sv in svtov)
      modifies this`f, this`ffv, this`singles
      ensures Valid()
      ensures sv == 0 ==> x == 0 && f == old(f) && ffv == old(ffv)
      ensures sv != 0 ==> x == old(ffv) && ffv == x + 1 + |net.pre|
      ensures sv != 0 ==> f == old(f) + FlowVarClauses(net, net.post, net.pre, svtov[sv], x)
    {
      hide DependsOn, Allocation;
      if sv == 0 { return 0; }
      BlockKnown(sv);
      FlowVarDepends(net, net.post, net.pre, svtov[sv], FirstFree());
      x := FlowVar(net.post, net.pre, svtov[sv]);
    }

    /** A variable that is true exactly if the set is a trap. */
    method Trap(sv: nat) returns (x: nat)
      requires Valid() && (sv == 0 || sv in svtov)
      modifies this`f, this`ffv, this`singles
      ensures Valid()
      ensures sv == 0 ==> x == 0 && f == old(f) && ffv == old(ffv)
      ensures sv != 0 ==> x == old(ffv) && ffv == x + 1 + |net.pre|
      ensures sv != 0 ==> f == old(f) + FlowVarClauses(net, net.pre, net.post, svtov[sv], x)
    {
      hide DependsOn, Allocation;
      if sv == 0 { return 0; }
      BlockKnown(sv);
      FlowVarDepends(net, net.pre, net.post, svtov[sv], FirstFree());
      x := FlowVar(net.pre, net.post, svtov[sv]);
    }

    /** The common part of Siphon and Trap, which differ in the direction of the arcs. */
    method FlowVar(from: seq<map<nat, nat>>, to: seq<map<nat, nat>>, base: nat) returns (x: nat)
      requires Valid() && |from| == |to|
      requires DependsOn(FlowVarClauses(net, from, to, base, ffv), ffv + 1 + |from|)
      modifies this`f, this`ffv, this`singles
      ensures Valid() && x == old(ffv) && ffv == x + 1 + |from|
      ensures f == old(f) + FlowVarClauses(net, from, to, base, x)
    {
      hide DependsOn, Allocation;
      x := CreateVar();
      var yclause: Clause := [x];
      var clauses: seq<Clause> := [];
      for t := 0 to |from|
        invariant Valid() && f == old(f) && ffv == x + 1 + t
        invariant yclause == [x] + Following(x, t)
        invariant clauses == FlowVarRows(net, from, to, base, x, t)
      {
        var y := CreateVar();
        clauses := AddRow(clauses, from[t], to[t], base, x, y);
        yclause := yclause + [y];
      }
      Append(clauses + [yclause]);
    }

    /** The clauses of one transition, with its helper y. */
    method AddRow(clauses: seq<Clause>, from: map<nat, nat>, to: map<nat, nat>, base: nat, x: nat, y: nat)
      returns (more: seq<Clause>)
      ensures more == clauses + FlowVarRow(net, from, to, base, x, y)
    {
      var lits := Literals(to, base);
      more := clauses;
      for p := 0 to net.places
        invariant more == clauses + EachArcTwice(from, base, p, [Minus(x)] + lits, [y] + lits)
      {
        if p in from {
          more := more + [[-(base + p)] + ([Minus(x)] + lits)];
          more := more + [[-(base + p)] + ([y] + lits)];
        }
      }
      var fromLits := Literals(from, base);
      more := more + [[Minus(y)] + fromLits];
      more := AddEachArc(more, to, base, [Minus(y)]);
    }

    /** A variable that is true exactly if the set covers some component of the net. */
    method CoverSCC(sv: nat) returns (x: nat)
      requires Valid() && (sv == 0 || sv in svtov)
      modifies this`f, this`ffv, this`singles, this`scc
      ensures Valid()
      ensures sv == 0 ==> x == 0 && f == old(f) && ffv == old(ffv)
      ensures sv == 0 || old(scc) != [] ==> scc == old(scc)
      ensures sv != 0 ==> IsPartition(PlaceEdges(net, |net.pre|), scc)
      ensures sv != 0 ==> x == old(ffv) && ffv == x + 1 + |scc|
      ensures sv != 0 ==> f == old(f) + CoverClauses(net, scc, svtov[sv], x)
    {
      hide DependsOn, Allocation, IsPartition, PlaceEdges;
      if sv == 0 { return 0; }
      BlockKnown(sv);
      x := CreateVar();
      if scc == [] {
        scc := ComponentsOf(net);
      }
      ghost var v, S := ffv, scc;
      for i := 0 to |scc|
        invariant Valid() && f == old(f) && ffv == v + i && scc == S
      {
        var s := CreateVar();
      }
      ComponentsInside(net, scc);
      CoverDepends(net, scc, svtov[sv], x);
      var clauses := CoverAll(svtov[sv], x);
      Append(clauses);
    }

    method CoverAll(base: nat, x: nat) returns (clauses: seq<Clause>)
      ensures clauses == CoverClauses(net, scc, base, x)
    {
      clauses := [];
      for i := 0 to |scc|
        invariant clauses == CoverRows(net, scc, base, x, i)
      {
        clauses := AddComponent(clauses, scc[i], base, x + 1 + i);
      }
      var any: Clause := [Minus(x)];
      for i := 0 to |scc|
        invariant any == [Minus(x)] + Following(x, i)
      {
        any := any + [x + 1 + i];
      }
      clauses := clauses + [any];
      ghost var before := clauses;
      for i := 0 to |scc|
        invariant clauses == before + NoneCovered(x, i)
      {
        clauses := clauses + [[x, Minus(x + 1 + i)]];
      }
    }

    method AddComponent(clauses: seq<Clause>, C: set<nat>, base: nat, s: nat) returns (more: seq<Clause>)
      ensures more == clauses + EachMember(C, base, net.places, s) + [[s] + NegatedMembers(C, base, net.places)]
    {
      var clause: Clause := [s];
      more := clauses;
      for p := 0 to net.places
        invariant clause == [s] + NegatedMembers(C, base, p)
        invariant more == clauses + EachMember(C, base, p, s)
      {
        if p in C {
          clause := clause + [-(base + p)];
          more := more + [[Minus(s), base + p]];
        }
      }
      more := more + [clause];
    }

    // ---------- the maximal trap ----------

    /** Makes trap the maximal trap inside the set variable sv. */
    method XMaxTrap(sv: nat, trap: nat)
      requires Valid() && (sv == 0 || sv in svtov) && (trap == 0 || trap in svtov)
      modifies this`f, this`ffv, this`ffsv, this`svtov, this`singles
      ensures Valid()
      ensures sv == 0 || trap == 0 ==> f == old(f)
      ensures sv != 0 && trap != 0 ==> f == old(f) + MaxTrapFrom(net, old(svtov)[sv], old(svtov)[trap], old(ffv), 0)
      ensures forall s :: s in old(svtov) ==> s in svtov && svtov[s] == old(svtov)[s]
      ensures ffv >= old(ffv)
    {
      hide DependsOn, Allocation, MaxTrapFrom, StepClauses;
      if sv == 0 || trap == 0 { return; }
      BlockKnown(sv);
      BlockKnown(trap);
      ghost var v0, X, Y := ffv, svtov[sv], svtov[trap];
      MaxTrapDepends(net, X, Y, v0, 0);
      var clauses: seq<Clause> := [];
      var zoff := svtov[sv];
      for j := 0 to net.places
        invariant Valid() && f == old(f)
        invariant forall s :: s in old(svtov) ==> s in svtov && svtov[s] == old(svtov)[s]
        invariant MaxTrapFrom(net, X, Y, v0, 0) == clauses + MaxTrapFrom(net, zoff, Y, ffv, j)
        invariant FreeAfter(net, v0, 0) == FreeAfter(net, ffv, j)
        invariant ffv >= v0
      {
        var zoffold := zoff;
        UnrollStep(net, zoffold, Y, ffv, j);
        if j + 1 < net.places {
          var av := CreateSetVar();
          zoff := svtov[av];
        } else {
          zoff := svtov[trap];
        }
        var xs := ffv;
        CreateHelpers();
        var step := StepOf(zoffold, zoff, xs);
        clauses := clauses + step;
      }
      assert clauses == MaxTrapFrom(net, X, Y, v0, 0) by { UnrollEnd(net, zoff, Y, ffv, net.places); }
      Append(clauses);
    }

    /** One new variable for every transition. */
    method CreateHelpers()
      requires Valid()
      modifies this`ffv, this`singles
      ensures Valid() && ffv == old(ffv) + |net.post|
    {
      hide DependsOn, Allocation;
      for t := 0 to |net.post|
        invariant Valid() && ffv == old(ffv) + t
      {
        var x := CreateVar();
      }
    }

    /** The clauses of one removal step. */
    method StepOf(zoffold: nat, zoff: nat, xs: nat) returns (clauses: seq<Clause>)
      requires WellFormedNet(net)
      ensures clauses == StepClauses(net, zoffold, zoff, xs)
    {
      clauses := [];
      for t := 0 to |net.post|
        invariant clauses == HelperClauses(net, zoffold, xs, t)
      {
        clauses := AddHelper(clauses, net.post[t], zoffold, xs + t);
      }
      ghost var helpers := clauses;
      for i := 0 to net.places
        invariant clauses == helpers + PlacesClauses(net, zoffold, zoff, xs, i)
      {
        clauses := AddPlace(clauses, i, zoffold, zoff, xs);
      }
    }

    method AddHelper(clauses: seq<Clause>, arcs: map<nat, nat>, zoffold: nat, x: nat) returns (more: seq<Clause>)
      ensures more == clauses + EachMinus(arcs, zoffold, net.places, x) + [[x] + ArcLits(arcs, zoffold, net.places)]
    {
      var clause: Clause := [x];
      more := clauses;
      for p := 0 to net.places
        invariant clause == [x] + ArcLits(arcs, zoffold, p)
        invariant more == clauses + EachMinus(arcs, zoffold, p, x)
      {
        if p in arcs {
          clause := clause + [zoffold + p];
          more := more + [[Minus(x), Minus(zoffold + p)]];
        }
      }
      more := more + [clause];
    }

    method AddPlace(clauses: seq<Clause>, i: nat, zoffold: nat, zoff: nat, xs: nat) returns (more: seq<Clause>)
      ensures more == clauses + PlaceClauses(net, i, zoffold, zoff, xs)
    {
      var first: Clause := [Minus(zoff + i), zoffold + i];
      var clause: Clause := [zoff + i, Minus(zoffold + i)];
      more := clauses + [first];
      for t := 0 to |net.pre|
        invariant clause == [zoff + i, Minus(zoffold + i)] + LosesLits(net, i, xs, t)
        invariant more == clauses + [first] + LosesClauses(net, i, zoff + i, xs, t)
      {
        if i in net.pre[t] {
          clause := clause + [xs + t];
          more := more + [[Minus(zoff + i), Minus(xs + t)]];
        }
      }
      more := more + [clause];
    }

    // ---------- minimizing and maximizing ----------

    /** Forces the places of from that are not in other to the given value. */
    method PinDifference(sv: nat, value: bool, from: set<nat>, other: set<nat>)
      requires Valid() && sv in svtov && forall p :: p in from ==> p < net.places
      modifies this`f
      ensures Valid()
      ensures forall a: Assignment :: Sat(a, f) <==> Sat(a, old(f)) && AllHave(a, svtov[sv], from - other, value)
    {
      hide DependsOn, Allocation, Sat, Holds;
      BlockKnown(sv);
      ghost var done: set<nat> := {};
      for p := 0 to net.places
        invariant Valid()
        invariant forall q :: q in done <==> q in from && q !in other && q < p
        invariant forall a: Assignment :: Sat(a, f) <==> Sat(a, old(f)) && AllHave(a, svtov[sv], done, value)
      {
        if p in from {
          if p !in other {
            Pin(sv, p, value);
            AllHaveMore(svtov[sv], done, p, value);
            done := done + {p};
          }
        }
      }
      assert done == from - other;
    }

    /** Forces one place of the set variable. */
    method Pin(sv: nat, p: nat, value: bool)
      requires Valid() && sv in svtov && p < net.places
      modifies this`f
      ensures Valid() && |f| == |old(f)| + 1 && f[..|f| - 1] == old(f)
      ensures forall a: Assignment :: Sat(a, f) <==> Sat(a, old(f)) && Holds(a, svtov[sv], p) == value
    {
      hide DependsOn, Allocation, Sat;
      BlockKnown(sv);
      ghost var f0 := f;
      var v := GetVar(sv, p);
      SetTo(v, value);
      forall a: Assignment ensures Sat(a, f) <==> Sat(a, f0) && Holds(a, svtov[sv], p) == value {
        SatConcat(a, f0, [[if value then v else Minus(v)]]);
        UnitTrue(v, value, a);
      }
    }

    /** Solves the formula with the place forced to the given value and the
        generating place included; the formula itself is left as it was. */
    method Trial(sv: nat, p: nat, value: bool, pgen: Option<nat>) returns (b: bool)
      requires Valid() && sv in svtov && p < net.places && ExactSolver(minisat)
      requires pgen.Some? ==> pgen.value < net.places
      modifies this`f, this`satisfied, this`mssolution
      ensures Valid() && f == old(f) && b == satisfied
      ensures b ==> Sat(mssolution, f) && Holds(mssolution, svtov[sv], p) == value
      ensures b && pgen.Some? ==> Holds(mssolution, svtov[sv], pgen.value)
      ensures !b ==> forall a: Assignment :: !(Sat(a, f) && Holds(a, svtov[sv], p) == value
                       && (pgen.Some? ==> Holds(a, svtov[sv], pgen.value)))
    {
      hide DependsOn, Allocation, Sat, Holds, ExactSolver;
      Pin(sv, p, value);
      if pgen.Some? {
        Pin(sv, pgen.value, true);
      }
      b := Solve();
      if pgen.Some? {
        RemoveLastClause();
      }
      RemoveLastClause();
    }

    /** One round of MinMax: tries to move place p to the sought side. */
    method TryPlace(sv: nat, p: nat, maximize: bool, enforce: Option<set<nat>>, forbid: Option<set<nat>>,
                    pgen: Option<nat>,
                    pset: set<nat>, ghost f0: seq<Clause>) returns (r: set<nat>)
      requires Valid() && sv in svtov && p < net.places && ExactSolver(minisat)
      requires pgen.Some? ==> pgen.value < net.places
      requires forall q :: q in pset ==> q < net.places
      requires Progressing(f, f0, svtov[sv], net.places, maximize, pset, pgen, satisfied, mssolution)
      modifies this`f, this`satisfied, this`mssolution
      ensures Valid() && forall q :: q in r ==> q < net.places
      ensures Progressing(f, f0, svtov[sv], net.places, maximize, r, pgen, satisfied, mssolution)
      ensures Within(maximize, r, pset)
      ensures pgen == Some(p) || (p in pset) == maximize || p in KeepSet(maximize, enforce, forbid) ==>
                r == pset && f == old(f) && satisfied == old(satisfied) && mssolution == old(mssolution)
      ensures Settled(f0, svtov[sv], net.places, maximize, r, KeepSet(maximize, enforce, forbid), pgen, p)
    {
      hide DependsOn, Allocation, Sat, Holds, ExactSolver, Refused, Achieved, SetVal, Pinned;
      r := pset;
      if pgen == Some(p) { return; }
      if maximize != (p !in pset) { return; }
      if maximize && forbid.Some? && p in forbid.value { return; }
      if !maximize && enforce.Some? && p in enforce.value { return; }
      ghost var base, n, before := svtov[sv], net.places, f;
      var b := Trial(sv, p, maximize, pgen);
      if b {
        TrialAccepted(f, f0, base, n, maximize, pset, pgen, p, mssolution);
        SetValInside(mssolution, base, n);
        BlockKnown(sv);
        r := GetAssignment(sv);
        if maximize {
          PinDifference(sv, maximize, r, pset);
        } else {
          PinDifference(sv, maximize, pset, r);
        }
        PinnedMore(before, f, f0, base, n, maximize, pset, r, if maximize then r - pset else pset - r);
      } else {
        TrialRefused(f, f0, base, n, maximize, pset, pgen, p);
      }
    }

    /** Minimizes or maximizes the value of a set variable in the last solution. */
    method MinMax(sv: nat, maximize: bool, enforce: Option<set<nat>>, forbid: Option<set<nat>>, pgen: Option<nat>)
      requires Valid() && sv in svtov && ExactSolver(minisat)
      requires pgen.Some? ==> pgen.value < net.places
      requires satisfied ==> Model(f, svtov[sv], net.places, pgen, mssolution)
      requires Respected(f, svtov[sv], net.places, maximize, KeepSet(maximize, enforce, forbid))
      modifies this`f, this`satisfied, this`mssolution
      ensures Valid() && satisfied == old(satisfied)
      ensures !satisfied ==> f == old(f)
      ensures satisfied ==> Model(old(f), svtov[sv], net.places, pgen, mssolution)
      ensures satisfied ==> Within(maximize, SetVal(mssolution, svtov[sv], net.places),
                                   SetVal(old(mssolution), svtov[sv], net.places))
      ensures satisfied ==> Optimal(old(f), svtov[sv], net.places, maximize, pgen,
                                    SetVal(mssolution, svtov[sv], net.places))
      ensures satisfied && pgen.Some? ==> pgen.value in SetVal(mssolution, svtov[sv], net.places)
    {
      hide DependsOn, Allocation, Sat, Holds, ExactSolver, Achieved, SetVal, Pinned, Respected, Refused, Settled,
        Optimal;
      if !satisfied { return; }
      ghost var f0, base, n := f, svtov[sv], net.places;
      ghost var keep := KeepSet(maximize, enforce, forbid);
      BlockKnown(sv);
      var all := Range(0, net.places);
      var pset := GetAssignment(sv);
      ghost var start := pset;
      StartPinned(f0, base, n, maximize);
      SetValInside(mssolution, base, n);
      AchievedBy(f0, base, n, pgen, mssolution);
      if maximize {
        PinDifference(sv, maximize, pset, {});
        PinnedMore(f0, f, f0, base, n, maximize, {}, pset, pset - {});
      } else {
        PinDifference(sv, maximize, all, pset);
        PinnedMore(f0, f, f0, base, n, maximize, all, pset, all - pset);
      }
      for p := 0 to net.places
        invariant Valid() && svtov == old(svtov)
        invariant forall q :: q in pset ==> q < n
        invariant Progressing(f, f0, base, n, maximize, pset, pgen, satisfied, mssolution)
        invariant Within(maximize, pset, start)
        invariant forall q: nat :: q < p ==> Settled(f0, base, n, maximize, pset, keep, pgen, q)
      {
        ghost var before := pset;
        pset := TryPlace(sv, p, maximize, enforce, forbid, pgen, pset, f0);
        forall q: nat | q < p ensures Settled(f0, base, n, maximize, pset, keep, pgen, q) {
          SettledMono(f0, base, n, maximize, before, pset, keep, pgen, q);
        }
      }
      AchievedHas(f0, base, n, pgen, pset);
      AllSettledOptimal(f0, base, n, maximize, pset, keep, pgen);
      if !satisfied {
        Resolve(sv, maximize, pgen, pset, f0);
      }
    }

    /** Recomputes the solution after a failed last trial. */
    method Resolve(sv: nat, maximize: bool, pgen: Option<nat>, ghost M: set<nat>, ghost f0: seq<Clause>)
      requires Valid() && sv in svtov && ExactSolver(minisat)
      requires pgen.Some? ==> pgen.value < net.places
      requires Pinned(f, f0, svtov[sv], net.places, maximize, M) && Achieved(f0, svtov[sv], net.places, pgen, M)
      requires Optimal(f0, svtov[sv], net.places, maximize, pgen, M)
      modifies this`f, this`satisfied, this`mssolution
      ensures Valid() && f == old(f) && satisfied
      ensures Sat(mssolution, f0) && SetVal(mssolution, svtov[sv], net.places) == M
    {
      hide DependsOn, Allocation, Sat, Holds, ExactSolver, Achieved, SetVal, Pinned, Optimal;
      ghost var a := AchievedSat(f, f0, svtov[sv], net.places, maximize, M, pgen);
      if pgen.Some? {
        Pin(sv, pgen.value, true);
      }
      var b := Solve();
      if pgen.Some? {
        RemoveLastClause();
      }
      FinalSolution(f, f0, svtov[sv], net.places, maximize, M, pgen, mssolution);
    }
  }

  lemma AllHaveMore(base: nat, W: set<nat>, p: nat, value: bool)
    ensures forall a: Assignment :: AllHave(a, base, W + {p}, value) <==>
            AllHave(a, base, W, value) && Holds(a, base, p) == value
  {
    hide Holds;
    forall a: Assignment ensures AllHave(a, base, W + {p}, value) <==>
      AllHave(a, base, W, value) && Holds(a, base, p) == value {
      assert p in W + {p};
    }
  }

  lemma UnitTrue(v: nat, value: bool, a: Assignment)
    requires v >= 1
    ensures Sat(a, [[if value then v else Minus(v)]]) <==> a(v) == value
  {
    hide Sat, ClauseTrue;
    SatOne(a, [if value then v else Minus(v)]);
    OneLit(a, if value then v else Minus(v));
  }

  lemma UnitDepends(v: nat, value: bool, k: nat)
    requires 1 <= v < k
    ensures DependsOn([[if value then v else Minus(v)]], k)
  {
    hide Sat;
    var c := [if value then v else Minus(v)];
    forall a: Assignment, b: Assignment | AgreeBelow(a, b, k) ensures Sat(a, [c]) <==> Sat(b, [c]) {
      UnitTrue(v, value, a);
      UnitTrue(v, value, b);
      assert a(v) == b(v);
    }
  }
}
