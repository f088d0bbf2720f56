/** The clauses that encode properties of sets of places, and what they mean. */
module Encoders {
  import opened Cnf
  import opened PetriNets

  // ---------- conservative extensions ----------

  type Definition = (Assignment, nat) -> bool

  /** The clauses hold exactly if the n variables from k on have their defined values. */
  ghost predicate Defines(C: seq<Clause>, k: nat, n: nat, def: Definition) {
    forall a: Assignment :: Sat(a, C) <==> Follows(a, k, n, def)
  }

  ghost predicate Follows(a: Assignment, k: nat, n: nat, def: Definition) {
    forall v: nat :: k <= v < k + n ==> a(v) == def(a, v)
  }

  /** The defined values only depend on the variables below k. */
  ghost predicate DependsBelow(def: Definition, k: nat) {
    forall a: Assignment, b: Assignment, v: nat :: AgreeBelow(a, b, k) ==> def(a, v) == def(b, v)
  }

  function Extended(a: Assignment, k: nat, def: Definition): Assignment {
    (v: nat) => if v < k then a(v) else def(a, v)
  }

  /** Every model of f has an extension to the new variables that satisfies the
      new clauses, and all such extensions agree on the new variables. */
  lemma Conservative(f: seq<Clause>, C: seq<Clause>, k: nat, n: nat, def: Definition, a: Assignment)
    requires DependsOn(f, k) && Defines(C, k, n, def) && DependsBelow(def, k) && Sat(a, f)
    ensures AgreeBelow(a, Extended(a, k, def), k) && Sat(Extended(a, k, def), f + C)
    ensures forall b: Assignment, v: nat :: AgreeBelow(a, b, k) && Sat(b, f + C) && k <= v < k + n ==>
            b(v) == Extended(a, k, def)(v)
  {
    hide Sat;
    var e := Extended(a, k, def);
    assert AgreeBelow(a, e, k);
    assert AgreeBelow(e, a, k);
    assert Follows(e, k, n, def);
    SatConcat(e, f, C);
    forall b: Assignment, v: nat | AgreeBelow(a, b, k) && Sat(b, f + C) && k <= v < k + n ensures b(v) == e(v) {
      SatConcat(b, f, C);
      assert Follows(b, k, n, def);
    }
  }

  // ---------- connectives ----------

  /** The negation of a variable. */
  function Minus(x: nat): Literal {
    -(x as int)
  }

  /** The clauses (l or not x) for the non-zero literals l. */
  function EachLit(lits: seq<Literal>, x: nat, k: nat): seq<Clause>
    requires k <= |lits|
  {
    if k == 0 then []
    else EachLit(lits, x, k - 1) + if lits[k - 1] == 0 then [] else [[lits[k - 1], Minus(x)]]
  }

  function Negated(lits: seq<Literal>, k: nat): Clause
    requires k <= |lits|
  {
    if k == 0 then []
    else Negated(lits, k - 1) + if lits[k - 1] == 0 then [] else [-lits[k - 1]]
  }

  function AndClauses(x: nat, lits: seq<Literal>): seq<Clause> {
    EachLit(lits, x, |lits|) + [[x] + Negated(lits, |lits|)]
  }

  /** The clauses (not l or x) for the non-zero literals l. */
  function EachNegated(lits: seq<Literal>, x: nat, k: nat): seq<Clause>
    requires k <= |lits|
  {
    if k == 0 then []
    else EachNegated(lits, x, k - 1) + if lits[k - 1] == 0 then [] else [[-lits[k - 1], x]]
  }

  function NonZero(lits: seq<Literal>, k: nat): Clause
    requires k <= |lits|
  {
    if k == 0 then []
    else NonZero(lits, k - 1) + if lits[k - 1] == 0 then [] else [lits[k - 1]]
  }

  function OrClauses(x: nat, lits: seq<Literal>): seq<Clause> {
    EachNegated(lits, x, |lits|) + [[Minus(x)] + NonZero(lits, |lits|)]
  }

  ghost predicate AllTrue(a: Assignment, lits: seq<Literal>, k: nat)
    requires k <= |lits|
  {
    forall i :: 0 <= i < k && lits[i] != 0 ==> LitTrue(a, lits[i])
  }

  ghost predicate SomeTrue(a: Assignment, lits: seq<Literal>, k: nat)
    requires k <= |lits|
  {
    exists i :: 0 <= i < k && LitTrue(a, lits[i])
  }

  lemma TwoLits(a: Assignment, k: Literal, l: Literal)
    ensures ClauseTrue(a, [k, l]) <==> LitTrue(a, k) || LitTrue(a, l)
  {
    assert k in [k, l] && l in [k, l];
  }

  lemma {:induction false} AndParts(a: Assignment, x: nat, lits: seq<Literal>, k: nat)
    requires x >= 1 && k <= |lits|
    ensures Sat(a, EachLit(lits, x, k)) <==> (a(x) ==> AllTrue(a, lits, k))
    ensures ClauseTrue(a, Negated(lits, k)) <==> !AllTrue(a, lits, k)
  {
    hide Sat, ClauseTrue;
    if k == 0 {
      SatNone(a);
      NoLits(a);
    } else {
      AndParts(a, x, lits, k - 1);
      var l := lits[k - 1];
      assert AllTrue(a, lits, k) <==> AllTrue(a, lits, k - 1) && (l != 0 ==> LitTrue(a, l));
      if l != 0 {
        SatConcat(a, EachLit(lits, x, k - 1), [[l, Minus(x)]]);
        SatOne(a, [l, Minus(x)]);
        TwoLits(a, l, Minus(x));
        ClauseSnoc(a, Negated(lits, k - 1), -l);
      } else {
        assert EachLit(lits, x, k) == EachLit(lits, x, k - 1);
        assert Negated(lits, k) == Negated(lits, k - 1);
      }
    }
  }

  lemma SatNone(a: Assignment)
    ensures Sat(a, [])
  {
  }

  lemma ClauseSnoc(a: Assignment, c: Clause, l: Literal)
    ensures ClauseTrue(a, c + [l]) <==> ClauseTrue(a, c) || LitTrue(a, l)
  {
    hide LitTrue;
    assert forall k :: k in c + [l] <==> k in c || k == l;
  }

  /** And: x is true exactly if all non-zero literals are. */
  lemma AndCorrect(x: nat, lits: seq<Literal>, a: Assignment)
    requires x >= 1
    ensures Sat(a, AndClauses(x, lits)) <==> (a(x) <==> AllTrue(a, lits, |lits|))
  {
    hide Sat, ClauseTrue;
    AndParts(a, x, lits, |lits|);
    var c := [x] + Negated(lits, |lits|);
    SatConcat(a, EachLit(lits, x, |lits|), [c]);
    SatOne(a, c);
    ClauseCons(a, x, Negated(lits, |lits|));
  }

  lemma {:induction false} OrParts(a: Assignment, x: nat, lits: seq<Literal>, k: nat)
    requires x >= 1 && k <= |lits|
    ensures Sat(a, EachNegated(lits, x, k)) <==> (SomeTrue(a, lits, k) ==> a(x))
    ensures ClauseTrue(a, NonZero(lits, k)) <==> SomeTrue(a, lits, k)
  {
    hide Sat, ClauseTrue;
    if k == 0 {
      SatNone(a);
      NoLits(a);
    } else {
      OrParts(a, x, lits, k - 1);
      var l := lits[k - 1];
      assert SomeTrue(a, lits, k) <==> SomeTrue(a, lits, k - 1) || LitTrue(a, l);
      if l != 0 {
        SatConcat(a, EachNegated(lits, x, k - 1), [[-l, x]]);
        SatOne(a, [-l, x]);
        TwoLits(a, -l, x);
        ClauseSnoc(a, NonZero(lits, k - 1), l);
      } else {
        assert EachNegated(lits, x, k) == EachNegated(lits, x, k - 1);
        assert NonZero(lits, k) == NonZero(lits, k - 1);
      }
    }
  }

  /** Or: x is true exactly if some literal is. */
  lemma OrCorrect(x: nat, lits: seq<Literal>, a: Assignment)
    requires x >= 1
    ensures Sat(a, OrClauses(x, lits)) <==> (a(x) <==> SomeTrue(a, lits, |lits|))
  {
    hide Sat, ClauseTrue;
    OrParts(a, x, lits, |lits|);
    var c := [Minus(x)] + NonZero(lits, |lits|);
    SatConcat(a, EachNegated(lits, x, |lits|), [c]);
    SatOne(a, c);
    ClauseCons(a, Minus(x), NonZero(lits, |lits|));
  }

  // ---------- properties of one set variable ----------

  function ImpliesClauses(x: nat, l1: Literal, l2: Literal): seq<Clause> {
    [[Minus(x), -l1, l2], [x, l1], [x, -l2]]
  }

  function EqualsClauses(x: nat, l1: Literal, l2: Literal): seq<Clause> {
    [[Minus(x), -l1, l2], [Minus(x), l1, -l2], [x, l1, l2], [x, -l1, -l2]]
  }

  lemma ThreeLits(a: Assignment, j: Literal, k: Literal, l: Literal)
    ensures ClauseTrue(a, [j, k, l]) <==> LitTrue(a, j) || LitTrue(a, k) || LitTrue(a, l)
  {
    hide LitTrue;
    TwoLits(a, k, l);
    ClauseCons(a, j, [k, l]);
    assert [j] + [k, l] == [j, k, l];
  }

  lemma SatCons(a: Assignment, c: Clause, f: seq<Clause>)
    ensures Sat(a, [c] + f) <==> ClauseTrue(a, c) && Sat(a, f)
  {
    hide ClauseTrue, Sat;
    SatConcat(a, [c], f);
    SatOne(a, c);
  }

  lemma NegatedLit(a: Assignment, l: Literal)
    requires l != 0
    ensures LitTrue(a, -l) <==> !LitTrue(a, l)
  {
  }

  /** Implies: x is true exactly if the implication is. */
  lemma ImpliesCorrect(x: nat, l1: Literal, l2: Literal, a: Assignment)
    requires x >= 1 && l1 != 0 && l2 != 0
    ensures Sat(a, ImpliesClauses(x, l1, l2)) <==> (a(x) <==> (LitTrue(a, l1) ==> LitTrue(a, l2)))
  {
    assert LitTrue(a, x) == a(x) && LitTrue(a, Minus(x)) == !a(x);
    NegatedLit(a, l1);
    NegatedLit(a, l2);
    hide Sat, ClauseTrue, LitTrue, Minus;
    TwoLits(a, x, l1);
    TwoLits(a, x, -l2);
    ThreeLits(a, Minus(x), -l1, l2);
    SatOne(a, [x, -l2]);
    SatCons(a, [x, l1], [[x, -l2]]);
    SatCons(a, [Minus(x), -l1, l2], [[x, l1], [x, -l2]]);
    assert [[x, l1]] + [[x, -l2]] == [[x, l1], [x, -l2]];
    assert [[Minus(x), -l1, l2]] + [[x, l1], [x, -l2]] == ImpliesClauses(x, l1, l2);
  }

  /** Equals: x is true exactly if the equivalence is. */
  lemma EqualsCorrect(x: nat, l1: Literal, l2: Literal, a: Assignment)
    requires x >= 1 && l1 != 0 && l2 != 0
    ensures Sat(a, EqualsClauses(x, l1, l2)) <==> (a(x) <==> (LitTrue(a, l1) <==> LitTrue(a, l2)))
  {
    assert LitTrue(a, x) == a(x) && LitTrue(a, Minus(x)) == !a(x);
    NegatedLit(a, l1);
    NegatedLit(a, l2);
    hide Sat, ClauseTrue, LitTrue, Minus;
    ThreeLits(a, Minus(x), -l1, l2);
    ThreeLits(a, Minus(x), l1, -l2);
    ThreeLits(a, x, l1, l2);
    ThreeLits(a, x, -l1, -l2);
    SatOne(a, [x, -l1, -l2]);
    SatCons(a, [x, l1, l2], [[x, -l1, -l2]]);
    SatCons(a, [Minus(x), l1, -l2], [[x, l1, l2], [x, -l1, -l2]]);
    SatCons(a, [Minus(x), -l1, l2], [[Minus(x), l1, -l2], [x, l1, l2], [x, -l1, -l2]]);
    assert [[x, l1, l2]] + [[x, -l1, -l2]] == [[x, l1, l2], [x, -l1, -l2]];
    assert [[Minus(x), l1, -l2]] + [[x, l1, l2], [x, -l1, -l2]] == [[Minus(x), l1, -l2], [x, l1, l2], [x, -l1, -l2]];
    assert [[Minus(x), -l1, l2]] + [[Minus(x), l1, -l2], [x, l1, l2], [x, -l1, -l2]] == EqualsClauses(x, l1, l2);
  }

  function AllArcs(n: nat): (r: map<nat, nat>)
    ensures forall p: nat :: p in r <==> p < n
  {
    if n == 0 then map[] else AllArcs(n - 1)[n - 1 := 1]
  }

  function MarkedArcs(m: seq<nat>): map<nat, nat> {
    map p: nat | p < |m| && m[p] > 0 :: 1
  }

  function NonEmptyClauses(net: Net, base: nat): seq<Clause> {
    [ArcLits(AllArcs(net.places), base, net.places)]
  }

  function EmptyClauses(net: Net, base: nat): seq<Clause> {
    EachArc(AllArcs(net.places), base, net.places, [])
  }

  function MarkedClauses(net: Net, base: nat): seq<Clause> {
    [ArcLits(MarkedArcs(net.m0), base, net.places)]
  }

  function UnmarkedClauses(net: Net, base: nat): seq<Clause> {
    EachArc(MarkedArcs(net.m0), base, net.places, [])
  }

  lemma MeetsSetVal(a: Assignment, arcs: map<nat, nat>, base: nat, n: nat)
    requires forall p :: p in arcs ==> p < n
    ensures MeetsVal(a, arcs, base) <==> Meets(arcs, SetVal(a, base, n))
  {
    hide Holds;
    if MeetsVal(a, arcs, base) {
      var p :| p in arcs && Holds(a, base, p);
      assert p in SetVal(a, base, n);
    }
  }

  lemma NoLits(a: Assignment)
    ensures !ClauseTrue(a, [])
  {
  }

  lemma EachArcEmpty(a: Assignment, arcs: map<nat, nat>, base: nat, n: nat)
    requires base >= 1 && forall p :: p in arcs ==> p < n
    ensures Sat(a, EachArc(arcs, base, n, [])) <==> !Meets(arcs, SetVal(a, base, n))
  {
    hide Sat, ClauseTrue, Holds;
    EachArcTrue(a, arcs, base, n, []);
    NoLits(a);
    MeetsSetVal(a, arcs, base, n);
  }

  lemma ArcLitsMeets(a: Assignment, arcs: map<nat, nat>, base: nat, n: nat)
    requires base >= 1 && forall p :: p in arcs ==> p < n
    ensures ClauseTrue(a, ArcLits(arcs, base, n)) <==> Meets(arcs, SetVal(a, base, n))
  {
    hide ClauseTrue;
    ArcLitsTrue(a, arcs, base, n);
    MeetsSetVal(a, arcs, base, n);
  }

  /** XNEmpty, XEmpty, XMarked and XNMarked say what their names promise. */
  lemma SimpleConditions(net: Net, base: nat, a: Assignment)
    requires WellFormedNet(net) && base >= 1
    ensures Sat(a, NonEmptyClauses(net, base)) <==> SetVal(a, base, net.places) != {}
    ensures Sat(a, EmptyClauses(net, base)) <==> SetVal(a, base, net.places) == {}
    ensures Sat(a, MarkedClauses(net, base)) <==> MarkedAt(net.m0, SetVal(a, base, net.places))
    ensures Sat(a, UnmarkedClauses(net, base)) <==> !MarkedAt(net.m0, SetVal(a, base, net.places))
  {
    hide Sat, ClauseTrue;
    var n := net.places;
    var X := SetVal(a, base, n);
    ArcLitsMeets(a, AllArcs(n), base, n);
    SatOne(a, ArcLits(AllArcs(n), base, n));
    EachArcEmpty(a, AllArcs(n), base, n);
    ArcLitsMeets(a, MarkedArcs(net.m0), base, n);
    SatOne(a, ArcLits(MarkedArcs(net.m0), base, n));
    EachArcEmpty(a, MarkedArcs(net.m0), base, n);
    assert Meets(AllArcs(n), X) <==> X != {} by {
      if X != {} { var p :| p in X; assert p in AllArcs(n); }
    }
    assert Meets(MarkedArcs(net.m0), X) <==> MarkedAt(net.m0, X) by {
      if MarkedAt(net.m0, X) { var p :| p in X && p < |net.m0| && net.m0[p] > 0; assert p in MarkedArcs(net.m0); }
    }
  }

  // ---------- siphons and traps ----------

  /** For the first k transitions: whoever has an arc in from has one in to. */
  function FlowClauses(net: Net, from: seq<map<nat, nat>>, to: seq<map<nat, nat>>, base: nat, k: nat): seq<Clause>
    requires k <= |from| == |to|
  {
    if k == 0 then []
    else FlowClauses(net, from, to, base, k - 1)
         + EachArc(from[k - 1], base, net.places, ArcLits(to[k - 1], base, net.places))
  }

  function SiphonClauses(net: Net, base: nat): seq<Clause>
    requires |net.pre| == |net.post|
  {
    FlowClauses(net, net.post, net.pre, base, |net.pre|)
  }

  function TrapClauses(net: Net, base: nat): seq<Clause>
    requires |net.pre| == |net.post|
  {
    FlowClauses(net, net.pre, net.post, base, |net.pre|)
  }

  ghost predicate ArcsInside(net: Net, arcs: seq<map<nat, nat>>) {
    forall t, p :: 0 <= t < |arcs| && p in arcs[t] ==> p < net.places
  }

  ghost predicate Flows(from: seq<map<nat, nat>>, to: seq<map<nat, nat>>, S: set<nat>, k: nat)
    requires k <= |from| == |to|
  {
    forall t :: 0 <= t < k && Meets(from[t], S) ==> Meets(to[t], S)
  }

  lemma FlowRow(net: Net, from: map<nat, nat>, to: map<nat, nat>, base: nat, a: Assignment)
    requires base >= 1 && (forall p :: p in from ==> p < net.places) && (forall p :: p in to ==> p < net.places)
    ensures Sat(a, EachArc(from, base, net.places, ArcLits(to, base, net.places)))
            <==> (Meets(from, SetVal(a, base, net.places)) ==> Meets(to, SetVal(a, base, net.places)))
  {
    hide Sat, ClauseTrue, Holds;
    EachArcTrue(a, from, base, net.places, ArcLits(to, base, net.places));
    ArcLitsMeets(a, to, base, net.places);
    MeetsSetVal(a, from, base, net.places);
  }

  lemma {:induction false} FlowCorrect(net: Net, from: seq<map<nat, nat>>, to: seq<map<nat, nat>>, base: nat, k: nat,
                                       a: Assignment)
    requires k <= |from| == |to| && base >= 1 && ArcsInside(net, from) && ArcsInside(net, to)
    ensures Sat(a, FlowClauses(net, from, to, base, k)) <==> Flows(from, to, SetVal(a, base, net.places), k)
  {
    hide Sat, Meets, SetVal;
    if k == 0 {
      SatNone(a);
    } else {
      FlowCorrect(net, from, to, base, k - 1, a);
      var row := EachArc(from[k - 1], base, net.places, ArcLits(to[k - 1], base, net.places));
      SatConcat(a, FlowClauses(net, from, to, base, k - 1), row);
      FlowRow(net, from[k - 1], to[k - 1], base, a);
    }
  }

  /** XSiphon and XTrap: the block is a siphon, or a trap. */
  lemma SiphonTrapCorrect(net: Net, base: nat, a: Assignment)
    requires WellFormedNet(net) && base >= 1
    ensures Sat(a, SiphonClauses(net, base)) <==> Siphon(net, SetVal(a, base, net.places))
    ensures Sat(a, TrapClauses(net, base)) <==> Trap(net, SetVal(a, base, net.places))
  {
    hide Sat, Meets, SetVal;
    FlowCorrect(net, net.post, net.pre, base, |net.pre|, a);
    FlowCorrect(net, net.pre, net.post, base, |net.pre|, a);
  }

  // ---------- properties as variables ----------

  function EmptyVarClauses(net: Net, base: nat, x: nat): seq<Clause> {
    [ArcLits(AllArcs(net.places), base, net.places) + [x]]
    + EachArc(AllArcs(net.places), base, net.places, [Minus(x)])
  }

  lemma ClauseConcat(a: Assignment, c: Clause, d: Clause)
    ensures ClauseTrue(a, c + d) <==> ClauseTrue(a, c) || ClauseTrue(a, d)
  {
    hide LitTrue;
    assert forall k :: k in c + d <==> k in c || k in d;
  }

  lemma OneLit(a: Assignment, l: Literal)
    ensures ClauseTrue(a, [l]) <==> LitTrue(a, l)
  {
    assert l in [l];
  }

  /** Empty: x is true exactly if the set is empty. */
  lemma EmptyVarCorrect(net: Net, base: nat, x: nat, a: Assignment)
    requires base >= 1 && x >= 1
    ensures Sat(a, EmptyVarClauses(net, base, x)) <==> (a(x) <==> SetVal(a, base, net.places) == {})
  {
    hide Sat, ClauseTrue;
    var n := net.places;
    var lits := ArcLits(AllArcs(n), base, n);
    SatConcat(a, [lits + [x]], EachArc(AllArcs(n), base, n, [Minus(x)]));
    SatOne(a, lits + [x]);
    ClauseSnoc(a, lits, x);
    ArcLitsMeets(a, AllArcs(n), base, n);
    MeetsSetVal(a, AllArcs(n), base, n);
    EachArcTrue(a, AllArcs(n), base, n, [Minus(x)]);
    OneLit(a, Minus(x));
    assert Meets(AllArcs(n), SetVal(a, base, n)) <==> SetVal(a, base, n) != {} by {
      if SetVal(a, base, n) != {} { var p :| p in SetVal(a, base, n); assert p in AllArcs(n); }
    }
  }

  /** Marked: the disjunction over the marked places is true exactly if the set is marked. */
  lemma MarkedVarCorrect(net: Net, base: nat, x: nat, a: Assignment)
    requires WellFormedNet(net) && base >= 1 && x >= 1
    ensures Sat(a, OrClauses(x, ArcLits(MarkedArcs(net.m0), base, net.places)))
            <==> (a(x) <==> MarkedAt(net.m0, SetVal(a, base, net.places)))
  {
    hide Sat;
    var lits := ArcLits(MarkedArcs(net.m0), base, net.places);
    OrCorrect(x, lits, a);
    SimpleConditions(net, base, a);
    SatOne(a, lits);
    if ClauseTrue(a, lits) {
      var l :| l in lits && LitTrue(a, l);
      var i :| 0 <= i < |lits| && lits[i] == l;
    }
  }

  /** For the first k places p of some arcs: the clauses (not p or first) and (not p or second). */
  function EachArcTwice(arcs: map<nat, nat>, base: nat, k: nat, first: Clause, second: Clause): seq<Clause> {
    if k == 0 then []
    else EachArcTwice(arcs, base, k - 1, first, second)
         + if k - 1 in arcs then [[-(base + k - 1)] + first, [-(base + k - 1)] + second] else []
  }

  lemma {:induction false} EachArcTwiceTrue(a: Assignment, arcs: map<nat, nat>, base: nat, k: nat, first: Clause,
                                            second: Clause)
    requires base >= 1
    ensures Sat(a, EachArcTwice(arcs, base, k, first, second))
            <==> Sat(a, EachArc(arcs, base, k, first)) && Sat(a, EachArc(arcs, base, k, second))
  {
    hide ClauseTrue, Sat;
    if k == 0 {
      SatNone(a);
    } else {
      EachArcTwiceTrue(a, arcs, base, k - 1, first, second);
      if k - 1 in arcs {
        var c, d := [-(base + k - 1)] + first, [-(base + k - 1)] + second;
        SatConcat(a, EachArcTwice(arcs, base, k - 1, first, second), [c, d]);
        SatConcat(a, EachArc(arcs, base, k - 1, first), [c]);
        SatConcat(a, EachArc(arcs, base, k - 1, second), [d]);
        SatConcat(a, [c], [d]);
        assert [c] + [d] == [c, d];
      } else {
        assert EachArcTwice(arcs, base, k, first, second) == EachArcTwice(arcs, base, k - 1, first, second);
        assert EachArc(arcs, base, k, first) == EachArc(arcs, base, k - 1, first);
        assert EachArc(arcs, base, k, second) == EachArc(arcs, base, k - 1, second);
      }
    }
  }

  /** The clauses for one transition; y says that it violates the property x. */
  function FlowVarRow(net: Net, from: map<nat, nat>, to: map<nat, nat>, base: nat, x: nat, y: nat): seq<Clause> {
    EachArcTwice(from, base, net.places, [Minus(x)] + ArcLits(to, base, net.places),
                 [y] + ArcLits(to, base, net.places))
    + [[Minus(y)] + ArcLits(from, base, net.places)]
    + EachArc(to, base, net.places, [Minus(y)])
  }

  function FlowVarRows(net: Net, from: seq<map<nat, nat>>, to: seq<map<nat, nat>>, base: nat, x: nat,
                       k: nat): seq<Clause>
    requires k <= |from| == |to|
  {
    if k == 0 then []
    else FlowVarRows(net, from, to, base, x, k - 1) + FlowVarRow(net, from[k - 1], to[k - 1], base, x, x + k)
  }

  /** The variables x + 1 .. x + k. */
  function Following(x: nat, k: nat): Clause {
    if k == 0 then [] else Following(x, k - 1) + [x + k]
  }

  function FlowVarClauses(net: Net, from: seq<map<nat, nat>>, to: seq<map<nat, nat>>, base: nat, x: nat): seq<Clause>
    requires |from| == |to|
  {
    FlowVarRows(net, from, to, base, x, |from|) + [[x] + Following(x, |from|)]
  }

  ghost predicate Violates(from: map<nat, nat>, to: map<nat, nat>, S: set<nat>) {
    Meets(from, S) && !Meets(to, S)
  }

  lemma FlowVarRowCorrect(net: Net, from: map<nat, nat>, to: map<nat, nat>, base: nat, x: nat, y: nat, a: Assignment)
    requires base >= 1 && x >= 1 && y >= 1
    requires (forall p :: p in from ==> p < net.places) && (forall p :: p in to ==> p < net.places)
    ensures var S := SetVal(a, base, net.places);
            Sat(a, FlowVarRow(net, from, to, base, x, y)) <==>
              (a(y) <==> Violates(from, to, S)) && (a(x) ==> !Violates(from, to, S))
  {
    hide Sat, ClauseTrue, Holds, EachArc, EachArcTwice;
    var n := net.places;
    var lits := ArcLits(to, base, n);
    var first, second := [Minus(x)] + lits, [y] + lits;
    var c := [Minus(y)] + ArcLits(from, base, n);
    SatConcat(a, EachArcTwice(from, base, n, first, second) + [c], EachArc(to, base, n, [Minus(y)]));
    SatConcat(a, EachArcTwice(from, base, n, first, second), [c]);
    SatOne(a, c);
    EachArcTwiceTrue(a, from, base, n, first, second);
    EachArcTrue(a, from, base, n, first);
    EachArcTrue(a, from, base, n, second);
    EachArcTrue(a, to, base, n, [Minus(y)]);
    ClauseCons(a, Minus(x), lits);
    ClauseCons(a, y, lits);
    ClauseCons(a, Minus(y), ArcLits(from, base, n));
    OneLit(a, Minus(y));
    ArcLitsMeets(a, to, base, n);
    ArcLitsMeets(a, from, base, n);
    MeetsSetVal(a, to, base, n);
    MeetsSetVal(a, from, base, n);
  }

  /** The helper variable of transition t. */
  predicate Flagged(a: Assignment, x: nat, t: nat) {
    a(x + 1 + t)
  }

  ghost predicate RowsHold(from: seq<map<nat, nat>>, to: seq<map<nat, nat>>, S: set<nat>, x: nat, k: nat, a: Assignment)
    requires k <= |from| == |to|
  {
    forall t: nat :: t < k ==>
      && (Flagged(a, x, t) <==> Violates(from[t], to[t], S))
      && (a(x) ==> !Violates(from[t], to[t], S))
  }

  lemma {:induction false} FlowVarRowsCorrect(net: Net, from: seq<map<nat, nat>>, to: seq<map<nat, nat>>, base: nat,
                                              x: nat, k: nat, a: Assignment)
    requires k <= |from| == |to| && base >= 1 && x >= 1 && ArcsInside(net, from) && ArcsInside(net, to)
    ensures Sat(a, FlowVarRows(net, from, to, base, x, k)) <==> RowsHold(from, to, SetVal(a, base, net.places), x, k, a)
  {
    hide Sat, FlowVarRow, Violates, SetVal;
    if k == 0 {
      SatNone(a);
    } else {
      FlowVarRowsCorrect(net, from, to, base, x, k - 1, a);
      SatConcat(a, FlowVarRows(net, from, to, base, x, k - 1), FlowVarRow(net, from[k - 1], to[k - 1], base, x, x + k));
      FlowVarRowCorrect(net, from[k - 1], to[k - 1], base, x, x + k, a);
      assert x + k == x + 1 + (k - 1);
    }
  }

  lemma {:induction false} FollowingTrue(a: Assignment, x: nat, k: nat)
    ensures ClauseTrue(a, Following(x, k)) <==> exists t: nat :: t < k && Flagged(a, x, t)
  {
    hide ClauseTrue;
    if k == 0 {
      NoLits(a);
    } else {
      FollowingTrue(a, x, k - 1);
      ClauseSnoc(a, Following(x, k - 1), x + k);
      assert a(x + k) <==> Flagged(a, x, k - 1);
    }
  }

  /** Siphon and Trap: the helper variables say which transitions violate the
      property, and x is true exactly if none does. */
  lemma FlowVarCorrect(net: Net, from: seq<map<nat, nat>>, to: seq<map<nat, nat>>, base: nat, x: nat, a: Assignment)
    requires |from| == |to| && base >= 1 && x >= 1 && ArcsInside(net, from) && ArcsInside(net, to)
    ensures var S := SetVal(a, base, net.places);
            Sat(a, FlowVarClauses(net, from, to, base, x)) <==>
              (a(x) <==> Flows(from, to, S, |from|))
                && (forall t: nat :: t < |from| ==> (Flagged(a, x, t) <==> Violates(from[t], to[t], S)))
  {
    hide Sat, ClauseTrue, SetVal, Meets;
    var c := [x] + Following(x, |from|);
    FlowVarRowsCorrect(net, from, to, base, x, |from|, a);
    SatConcat(a, FlowVarRows(net, from, to, base, x, |from|), [c]);
    SatOne(a, c);
    ClauseCons(a, x, Following(x, |from|));
    FollowingTrue(a, x, |from|);
  }

  // ---------- covering a component ----------

  /** The clauses (not s or p) for the members p of a component. */
  function EachMember(C: set<nat>, base: nat, k: nat, s: nat): seq<Clause> {
    if k == 0 then []
    else EachMember(C, base, k - 1, s) + if k - 1 in C then [[Minus(s), base + k - 1]] else []
  }

  function NegatedMembers(C: set<nat>, base: nat, k: nat): Clause {
    if k == 0 then []
    else NegatedMembers(C, base, k - 1) + if k - 1 in C then [-(base + k - 1)] else []
  }

  /** For the first k components: x + 1 + i is true exactly if component i is covered. */
  function CoverRows(net: Net, scc: seq<set<nat>>, base: nat, x: nat, k: nat): seq<Clause>
    requires k <= |scc|
  {
    if k == 0 then []
    else CoverRows(net, scc, base, x, k - 1)
         + EachMember(scc[k - 1], base, net.places, x + k)
         + [[x + k] + NegatedMembers(scc[k - 1], base, net.places)]
  }

  /** The clauses (x or not s) for the first k component variables s. */
  function NoneCovered(x: nat, k: nat): seq<Clause> {
    if k == 0 then [] else NoneCovered(x, k - 1) + [[x, Minus(x + k)]]
  }

  function CoverClauses(net: Net, scc: seq<set<nat>>, base: nat, x: nat): seq<Clause> {
    CoverRows(net, scc, base, x, |scc|) + [[Minus(x)] + Following(x, |scc|)] + NoneCovered(x, |scc|)
  }

  lemma {:induction false} MembersTrue(a: Assignment, C: set<nat>, base: nat, k: nat, s: nat)
    requires base >= 1 && s >= 1
    ensures Sat(a, EachMember(C, base, k, s)) <==> (a(s) ==> forall p :: p in C && p < k ==> Holds(a, base, p))
    ensures ClauseTrue(a, NegatedMembers(C, base, k)) <==> exists p :: p in C && p < k && !Holds(a, base, p)
  {
    hide Sat, ClauseTrue;
    if k == 0 {
      SatNone(a);
      NoLits(a);
    } else {
      MembersTrue(a, C, base, k - 1, s);
      if k - 1 in C {
        var c := [Minus(s), base + k - 1];
        SatConcat(a, EachMember(C, base, k - 1, s), [c]);
        SatOne(a, c);
        TwoLits(a, Minus(s), base + k - 1);
        ClauseSnoc(a, NegatedMembers(C, base, k - 1), -(base + k - 1));
        assert Holds(a, base, k - 1) <==> a(base + k - 1);
      } else {
        assert EachMember(C, base, k, s) == EachMember(C, base, k - 1, s);
        assert NegatedMembers(C, base, k) == NegatedMembers(C, base, k - 1);
      }
    }
  }

  lemma CoverRow(net: Net, C: set<nat>, base: nat, s: nat, a: Assignment)
    requires base >= 1 && s >= 1 && forall p :: p in C ==> p < net.places
    ensures Sat(a, EachMember(C, base, net.places, s) + [[s] + NegatedMembers(C, base, net.places)])
            <==> (a(s) <==> C <= SetVal(a, base, net.places))
  {
    hide Sat, ClauseTrue, Holds;
    var c := [s] + NegatedMembers(C, base, net.places);
    SatConcat(a, EachMember(C, base, net.places, s), [c]);
    SatOne(a, c);
    ClauseCons(a, s, NegatedMembers(C, base, net.places));
    MembersTrue(a, C, base, net.places, s);
  }

  ghost predicate CoverOK(scc: seq<set<nat>>, S: set<nat>, x: nat, k: nat, a: Assignment)
    requires k <= |scc|
  {
    forall i: nat :: i < k ==> (Flagged(a, x, i) <==> scc[i] <= S)
  }

  lemma {:induction false} CoverRowsCorrect(net: Net, scc: seq<set<nat>>, base: nat, x: nat, k: nat, a: Assignment)
    requires k <= |scc| && base >= 1 && x >= 1 && forall i, p :: 0 <= i < |scc| && p in scc[i] ==> p < net.places
    ensures Sat(a, CoverRows(net, scc, base, x, k)) <==> CoverOK(scc, SetVal(a, base, net.places), x, k, a)
  {
    hide Sat, SetVal;
    if k == 0 {
      SatNone(a);
    } else {
      CoverRowsCorrect(net, scc, base, x, k - 1, a);
      var row := EachMember(scc[k - 1], base, net.places, x + k)
        + [[x + k] + NegatedMembers(scc[k - 1], base, net.places)];
      SatConcat(a, CoverRows(net, scc, base, x, k - 1), row);
      assert CoverRows(net, scc, base, x, k) == CoverRows(net, scc, base, x, k - 1) + row;
      CoverRow(net, scc[k - 1], base, x + k, a);
      assert Flagged(a, x, k - 1) <==> a(x + k);
    }
  }

  lemma {:induction false} NoneCoveredTrue(a: Assignment, x: nat, k: nat)
    requires x >= 1
    ensures Sat(a, NoneCovered(x, k)) <==> (a(x) || forall i: nat :: i < k ==> !Flagged(a, x, i))
  {
    hide Sat, ClauseTrue;
    if k == 0 {
      SatNone(a);
    } else {
      NoneCoveredTrue(a, x, k - 1);
      var c := [x, Minus(x + k)];
      SatConcat(a, NoneCovered(x, k - 1), [c]);
      SatOne(a, c);
      TwoLits(a, x, Minus(x + k));
      assert Flagged(a, x, k - 1) <==> a(x + k);
    }
  }

  /** CoverSCC: the helper variables say which components are covered, and x is
      true exactly if some component is. */
  lemma CoverCorrect(net: Net, scc: seq<set<nat>>, base: nat, x: nat, a: Assignment)
    requires base >= 1 && x >= 1 && forall i, p :: 0 <= i < |scc| && p in scc[i] ==> p < net.places
    ensures var S := SetVal(a, base, net.places);
            Sat(a, CoverClauses(net, scc, base, x)) <==>
              CoverOK(scc, S, x, |scc|, a) && (a(x) <==> exists i :: 0 <= i < |scc| && scc[i] <= S)
  {
    hide Sat, ClauseTrue, SetVal;
    var c := [Minus(x)] + Following(x, |scc|);
    SatConcat(a, CoverRows(net, scc, base, x, |scc|) + [c], NoneCovered(x, |scc|));
    SatConcat(a, CoverRows(net, scc, base, x, |scc|), [c]);
    SatOne(a, c);
    ClauseCons(a, Minus(x), Following(x, |scc|));
    FollowingTrue(a, x, |scc|);
    NoneCoveredTrue(a, x, |scc|);
    CoverRowsCorrect(net, scc, base, x, |scc|, a);
  }
}
