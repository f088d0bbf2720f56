/** The variable-valued encoders are conservative extensions. */
module Definitions {
  import opened Cnf
  import opened Encoders
  import opened Formulas
  import opened MaxTraps
  import opened PetriNets
  import opened PlaceComponents

  ghost function AndDefinition(lits: seq<Literal>): Definition {
    (a: Assignment, v: nat) => AllTrue(a, lits, |lits|)
  }

  ghost function OrDefinition(lits: seq<Literal>): Definition {
    (a: Assignment, v: nat) => SomeTrue(a, lits, |lits|)
  }

  ghost function EmptyDefinition(net: Net, base: nat): Definition {
    (a: Assignment, v: nat) => SetVal(a, base, net.places) == {}
  }

  ghost function MarkedDefinition(net: Net, base: nat): Definition {
    (a: Assignment, v: nat) => MarkedAt(net.m0, SetVal(a, base, net.places))
  }

  /** x says that every transition respects the flow, x + 1 + t that t violates it. */
  ghost function FlowDefinition(net: Net, from: seq<map<nat, nat>>, to: seq<map<nat, nat>>, base: nat,
                                x: nat): Definition
    requires |from| == |to|
  {
    (a: Assignment, v: nat) =>
      var S := SetVal(a, base, net.places);
      if v <= x || v - x > |from| then Flows(from, to, S, |from|) else Violates(from[v - x - 1], to[v - x - 1], S)
  }

  ghost function ImpliesDefinition(l1: Literal, l2: Literal): Definition {
    (a: Assignment, v: nat) => LitTrue(a, l1) ==> LitTrue(a, l2)
  }

  ghost function EqualsDefinition(l1: Literal, l2: Literal): Definition {
    (a: Assignment, v: nat) => LitTrue(a, l1) == LitTrue(a, l2)
  }

  /** x says that some component is covered, x + 1 + i that component i is. */
  ghost function CoverDefinition(scc: seq<set<nat>>, n: nat, base: nat, x: nat): Definition {
    (a: Assignment, v: nat) =>
      var S := SetVal(a, base, n);
      if v <= x || v - x > |scc| then exists i :: 0 <= i < |scc| && scc[i] <= S else scc[v - x - 1] <= S
  }

  /** And and Or define their variable, in terms of the variables below it. */
  lemma ConnectivesDefine(x: nat, lits: seq<Literal>)
    requires x >= 1 && LitsBelow(lits, x)
    ensures Defines(AndClauses(x, lits), x, 1, AndDefinition(lits)) && DependsBelow(AndDefinition(lits), x)
    ensures Defines(OrClauses(x, lits), x, 1, OrDefinition(lits)) && DependsBelow(OrDefinition(lits), x)
  {
    hide Sat, LitTrue;
    forall a: Assignment
      ensures Sat(a, AndClauses(x, lits)) <==> Follows(a, x, 1, AndDefinition(lits))
      ensures Sat(a, OrClauses(x, lits)) <==> Follows(a, x, 1, OrDefinition(lits))
    {
      AndCorrect(x, lits, a);
      OrCorrect(x, lits, a);
    }
    forall a: Assignment, b: Assignment | AgreeBelow(a, b, x)
      ensures AllTrue(a, lits, |lits|) == AllTrue(b, lits, |lits|)
      ensures SomeTrue(a, lits, |lits|) == SomeTrue(b, lits, |lits|)
    {
      forall i | 0 <= i < |lits| ensures LitTrue(a, lits[i]) <==> LitTrue(b, lits[i]) {
        assert lits[i] in lits;
        LitDepends(lits[i], a, b, x);
      }
    }
  }

  /** Empty and Marked define their variable, in terms of the set's block. */
  lemma SetConditionsDefine(net: Net, base: nat, x: nat)
    requires WellFormedNet(net) && base >= 1 && base + net.places <= x
    ensures Defines(EmptyVarClauses(net, base, x), x, 1, EmptyDefinition(net, base))
    ensures DependsBelow(EmptyDefinition(net, base), x)
    ensures Defines(OrClauses(x, ArcLits(MarkedArcs(net.m0), base, net.places)), x, 1, MarkedDefinition(net, base))
    ensures DependsBelow(MarkedDefinition(net, base), x)
  {
    hide Sat, SetVal, MarkedAt, EmptyVarClauses, OrClauses;
    forall a: Assignment
      ensures Sat(a, EmptyVarClauses(net, base, x)) <==> Follows(a, x, 1, EmptyDefinition(net, base))
      ensures Sat(a, OrClauses(x, ArcLits(MarkedArcs(net.m0), base, net.places))) <==>
              Follows(a, x, 1, MarkedDefinition(net, base))
    {
      EmptyVarCorrect(net, base, x, a);
      MarkedVarCorrect(net, base, x, a);
    }
    forall a: Assignment, b: Assignment | AgreeBelow(a, b, x)
      ensures SetVal(a, base, net.places) == SetVal(b, base, net.places) {
      AgreeSetVal(a, b, base, net.places, x);
    }
  }

  /** Siphon and Trap define their variable and its helpers, in terms of the set's block. */
  lemma FlowDefines(net: Net, from: seq<map<nat, nat>>, to: seq<map<nat, nat>>, base: nat, x: nat)
    requires |from| == |to| && base >= 1 && ArcsInside(net, from) && ArcsInside(net, to) && base + net.places <= x
    ensures Defines(FlowVarClauses(net, from, to, base, x), x, 1 + |from|, FlowDefinition(net, from, to, base, x))
    ensures DependsBelow(FlowDefinition(net, from, to, base, x), x)
  {
    hide Sat, SetVal, Flows, Violates, FlowVarClauses;
    var def := FlowDefinition(net, from, to, base, x);
    forall a: Assignment ensures Sat(a, FlowVarClauses(net, from, to, base, x)) <==> Follows(a, x, 1 + |from|, def) {
      FlowVarCorrect(net, from, to, base, x, a);
      var S := SetVal(a, base, net.places);
      assert def(a, x) == Flows(from, to, S, |from|);
      forall t: nat | t < |from| ensures def(a, x + 1 + t) == Violates(from[t], to[t], S)
        && Flagged(a, x, t) == a(x + 1 + t) { }
      FollowsFlow(net, from, to, base, x, a);
    }
    forall a: Assignment, b: Assignment | AgreeBelow(a, b, x)
      ensures SetVal(a, base, net.places) == SetVal(b, base, net.places) {
      AgreeSetVal(a, b, base, net.places, x);
    }
  }

  lemma FollowsFlow(net: Net, from: seq<map<nat, nat>>, to: seq<map<nat, nat>>, base: nat, x: nat, a: Assignment)
    requires |from| == |to|
    ensures Follows(a, x, 1 + |from|, FlowDefinition(net, from, to, base, x)) <==>
              (a(x) <==> Flows(from, to, SetVal(a, base, net.places), |from|))
              && (forall t: nat :: t < |from| ==>
                  (Flagged(a, x, t) <==> Violates(from[t], to[t], SetVal(a, base, net.places))))
  {
    hide SetVal, Flows, Violates;
    var def := FlowDefinition(net, from, to, base, x);
    var S := SetVal(a, base, net.places);
    if Follows(a, x, 1 + |from|, def) {
      forall t: nat | t < |from| ensures Flagged(a, x, t) <==> Violates(from[t], to[t], S) {
        assert a(x + 1 + t) == def(a, x + 1 + t);
      }
    } else {
      var v: nat :| x <= v < x + 1 + |from| && a(v) != def(a, v);
      if v > x { assert Flagged(a, x, v - x - 1) == a(v); }
    }
  }

  /** Implies and Equals define their variable, in terms of the variables below it. */
  lemma BinaryDefine(x: nat, l1: Literal, l2: Literal)
    requires x >= 1 && l1 != 0 && l2 != 0 && LitsBelow([l1, l2], x)
    ensures Defines(ImpliesClauses(x, l1, l2), x, 1, ImpliesDefinition(l1, l2))
    ensures DependsBelow(ImpliesDefinition(l1, l2), x)
    ensures Defines(EqualsClauses(x, l1, l2), x, 1, EqualsDefinition(l1, l2))
    ensures DependsBelow(EqualsDefinition(l1, l2), x)
  {
    assert l1 in [l1, l2] && l2 in [l1, l2];
    hide Sat, LitTrue, ImpliesClauses, EqualsClauses;
    forall a: Assignment
      ensures Sat(a, ImpliesClauses(x, l1, l2)) <==> Follows(a, x, 1, ImpliesDefinition(l1, l2))
      ensures Sat(a, EqualsClauses(x, l1, l2)) <==> Follows(a, x, 1, EqualsDefinition(l1, l2))
    {
      ImpliesCorrect(x, l1, l2, a);
      EqualsCorrect(x, l1, l2, a);
    }
    forall a: Assignment, b: Assignment | AgreeBelow(a, b, x)
      ensures LitTrue(a, l1) == LitTrue(b, l1) && LitTrue(a, l2) == LitTrue(b, l2)
    {
      LitDepends(l1, a, b, x);
      LitDepends(l2, a, b, x);
    }
  }

  /** CoverSCC defines its variable and the helper of every component. */
  lemma CoverDefines(net: Net, scc: seq<set<nat>>, base: nat, x: nat)
    requires base >= 1 && base + net.places <= x && forall i, p :: 0 <= i < |scc| && p in scc[i] ==> p < net.places
    ensures Defines(CoverClauses(net, scc, base, x), x, 1 + |scc|, CoverDefinition(scc, net.places, base, x))
    ensures DependsBelow(CoverDefinition(scc, net.places, base, x), x)
  {
    hide Sat, SetVal, CoverClauses;
    var def := CoverDefinition(scc, net.places, base, x);
    forall a: Assignment ensures Sat(a, CoverClauses(net, scc, base, x)) <==> Follows(a, x, 1 + |scc|, def) {
      CoverCorrect(net, scc, base, x, a);
      FollowsCover(net, scc, base, x, a);
    }
    forall a: Assignment, b: Assignment | AgreeBelow(a, b, x)
      ensures SetVal(a, base, net.places) == SetVal(b, base, net.places) {
      AgreeSetVal(a, b, base, net.places, x);
    }
  }

  lemma FollowsCover(net: Net, scc: seq<set<nat>>, base: nat, x: nat, a: Assignment)
    ensures var S := SetVal(a, base, net.places);
            Follows(a, x, 1 + |scc|, CoverDefinition(scc, net.places, base, x)) <==>
              CoverOK(scc, S, x, |scc|, a) && (a(x) <==> exists i :: 0 <= i < |scc| && scc[i] <= S)
  {
    hide SetVal;
    var def := CoverDefinition(scc, net.places, base, x);
    var S := SetVal(a, base, net.places);
    if Follows(a, x, 1 + |scc|, def) {
      forall i: nat | i < |scc| ensures Flagged(a, x, i) <==> scc[i] <= S {
        assert a(x + 1 + i) == def(a, x + 1 + i);
      }
    } else {
      var v: nat :| x <= v < x + 1 + |scc| && a(v) != def(a, v);
      if v > x { assert Flagged(a, x, v - x - 1) == a(v); }
    }
  }

  // ---------- what an encoder adds to a formula ----------

  /** Every assignment of the variables below k has exactly one extension to the next n
      variables that satisfies C, and f holds of it as before. */
  ghost predicate ExtendsUniquely(f: seq<Clause>, C: seq<Clause>, k: nat, n: nat) {
    forall a: Assignment :: HasOneExtension(f, C, k, n, a)
  }

  ghost predicate HasOneExtension(f: seq<Clause>, C: seq<Clause>, k: nat, n: nat, a: Assignment) {
    exists b: Assignment ::
      && AgreeBelow(a, b, k) && Sat(b, C) && (Sat(b, f + C) <==> Sat(a, f))
      && forall c: Assignment :: AgreeBelow(a, c, k) && Sat(c, C) ==> AgreeBelow(b, c, k + n)
  }

  lemma DefinitionExtends(f: seq<Clause>, C: seq<Clause>, k: nat, n: nat, def: Definition)
    requires DependsOn(f, k) && Defines(C, k, n, def) && DependsBelow(def, k)
    ensures ExtendsUniquely(f, C, k, n)
  {
    hide Sat;
    NothingDepends(k);
    forall a: Assignment ensures HasOneExtension(f, C, k, n, a) {
      SatNone(a);
      Conservative([], C, k, n, def, a);
      var b := Extended(a, k, def);
      assert [] + C == C;
      SatConcat(b, f, C);
      assert AgreeBelow(a, b, k);
      forall c: Assignment | AgreeBelow(a, c, k) && Sat(c, C) ensures AgreeBelow(b, c, k + n) {
        assert forall v: nat :: v < k ==> b(v) == c(v);
      }
    }
  }

  lemma ConnectivesExtend(o: Formula, lits: seq<Literal>)
    requires o.Valid() && LitsBelow(lits, o.ffv)
    ensures ExtendsUniquely(o.f, AndClauses(o.ffv, lits), o.ffv, 1)
    ensures ExtendsUniquely(o.f, OrClauses(o.ffv, lits), o.ffv, 1)
  {
    hide DependsOn, ExtendsUniquely, Defines, DependsBelow;
    ConnectivesDefine(o.ffv, lits);
    DefinitionExtends(o.f, AndClauses(o.ffv, lits), o.ffv, 1, AndDefinition(lits));
    DefinitionExtends(o.f, OrClauses(o.ffv, lits), o.ffv, 1, OrDefinition(lits));
  }

  lemma BinaryExtend(o: Formula, l1: Literal, l2: Literal)
    requires o.Valid() && l1 != 0 && l2 != 0 && LitsBelow([l1, l2], o.ffv)
    ensures ExtendsUniquely(o.f, ImpliesClauses(o.ffv, l1, l2), o.ffv, 1)
    ensures ExtendsUniquely(o.f, EqualsClauses(o.ffv, l1, l2), o.ffv, 1)
  {
    hide DependsOn, ExtendsUniquely, Defines, DependsBelow;
    BinaryDefine(o.ffv, l1, l2);
    DefinitionExtends(o.f, ImpliesClauses(o.ffv, l1, l2), o.ffv, 1, ImpliesDefinition(l1, l2));
    DefinitionExtends(o.f, EqualsClauses(o.ffv, l1, l2), o.ffv, 1, EqualsDefinition(l1, l2));
  }

  lemma SetConditionsExtend(o: Formula, sv: nat)
    requires o.Valid() && sv in o.svtov
    ensures ExtendsUniquely(o.f, EmptyVarClauses(o.net, o.svtov[sv], o.ffv), o.ffv, 1)
    ensures ExtendsUniquely(o.f, OrClauses(o.ffv, ArcLits(MarkedArcs(o.net.m0), o.svtov[sv], o.net.places)), o.ffv, 1)
  {
    hide DependsOn, ExtendsUniquely, Defines, DependsBelow;
    o.BlockKnown(sv);
    var base := o.svtov[sv];
    SetConditionsDefine(o.net, base, o.ffv);
    DefinitionExtends(o.f, EmptyVarClauses(o.net, base, o.ffv), o.ffv, 1, EmptyDefinition(o.net, base));
    DefinitionExtends(o.f, OrClauses(o.ffv, ArcLits(MarkedArcs(o.net.m0), base, o.net.places)), o.ffv, 1,
                      MarkedDefinition(o.net, base));
  }

  /** Siphon takes the arcs from outputs to inputs, Trap from inputs to outputs. */
  lemma FlowExtend(o: Formula, sv: nat)
    requires o.Valid() && sv in o.svtov
    ensures ExtendsUniquely(o.f, FlowVarClauses(o.net, o.net.post, o.net.pre, o.svtov[sv], o.ffv), o.ffv,
                            1 + |o.net.pre|)
    ensures ExtendsUniquely(o.f, FlowVarClauses(o.net, o.net.pre, o.net.post, o.svtov[sv], o.ffv), o.ffv,
                            1 + |o.net.pre|)
  {
    hide DependsOn, ExtendsUniquely, Defines, DependsBelow;
    o.BlockKnown(sv);
    FlowExtends(o, o.net.post, o.net.pre, o.svtov[sv]);
    FlowExtends(o, o.net.pre, o.net.post, o.svtov[sv]);
  }

  lemma FlowExtends(o: Formula, from: seq<map<nat, nat>>, to: seq<map<nat, nat>>, base: nat)
    requires o.Valid() && base >= 1 && base + o.net.places <= o.ffv
    requires |from| == |to| && ArcsInside(o.net, from) && ArcsInside(o.net, to)
    ensures ExtendsUniquely(o.f, FlowVarClauses(o.net, from, to, base, o.ffv), o.ffv, 1 + |from|)
  {
    hide DependsOn, ExtendsUniquely, Defines, DependsBelow;
    FlowDefines(o.net, from, to, base, o.ffv);
    DefinitionExtends(o.f, FlowVarClauses(o.net, from, to, base, o.ffv), o.ffv, 1 + |from|,
                      FlowDefinition(o.net, from, to, base, o.ffv));
  }

  lemma CoverExtend(o: Formula, sv: nat, scc: seq<set<nat>>)
    requires o.Valid() && sv in o.svtov && IsPartition(PlaceEdges(o.net, |o.net.pre|), scc)
    ensures ExtendsUniquely(o.f, CoverClauses(o.net, scc, o.svtov[sv], o.ffv), o.ffv, 1 + |scc|)
  {
    hide DependsOn, ExtendsUniquely, Defines, DependsBelow, IsPartition;
    o.BlockKnown(sv);
    ComponentsInside(o.net, scc);
    CoverDefines(o.net, scc, o.svtov[sv], o.ffv);
    DefinitionExtends(o.f, CoverClauses(o.net, scc, o.svtov[sv], o.ffv), o.ffv, 1 + |scc|,
                      CoverDefinition(scc, o.net.places, o.svtov[sv], o.ffv));
  }
}
