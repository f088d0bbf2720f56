/** The unrolled computation of the maximal trap inside a set of places. */
module MaxTraps {
  import opened Cnf
  import opened Encoders
  import opened PetriNets
  import opened Sets

  // ---------- the iteration on sets ----------

  /** Removes the places from which some transition consumes without producing on S. */
  ghost function Shrink(net: Net, S: set<nat>): set<nat> {
    set p | p in S && forall t :: 0 <= t < |net.pre| && t < |net.post| && p in net.pre[t] ==> Meets(net.post[t], S)
  }

  ghost function Shrunk(net: Net, S: set<nat>, k: nat): set<nat> {
    if k == 0 then S else Shrink(net, Shrunk(net, S, k - 1))
  }

  lemma ShrinkFixpointIsTrap(net: Net, S: set<nat>)
    requires Shrink(net, S) == S
    ensures Trap(net, S)
  {
    forall t | 0 <= t < |net.pre| && t < |net.post| && Meets(net.pre[t], S) ensures Meets(net.post[t], S) {
      var p :| p in net.pre[t] && p in S;
      assert p in Shrink(net, S);
    }
  }

  lemma ShrinkKeepsTraps(net: Net, S: set<nat>, Q: set<nat>)
    requires Trap(net, Q) && Q <= S
    ensures Q <= Shrink(net, S)
  {
    forall p | p in Q ensures p in Shrink(net, S) {
      forall t | 0 <= t < |net.pre| && t < |net.post| && p in net.pre[t] ensures Meets(net.post[t], S) {
        assert Meets(net.pre[t], Q);
        var q :| q in net.post[t] && q in Q;
        assert q in S;
      }
    }
  }

  lemma {:induction false} ShrunkKeepsTraps(net: Net, S: set<nat>, k: nat, Q: set<nat>)
    requires Trap(net, Q) && Q <= S
    ensures Q <= Shrunk(net, S, k)
  {
    if k > 0 {
      ShrunkKeepsTraps(net, S, k - 1, Q);
      ShrinkKeepsTraps(net, Shrunk(net, S, k - 1), Q);
    }
  }

  /** Until the fixpoint is reached every step removes a place. */
  lemma {:induction false} ShrunkProgress(net: Net, S: set<nat>, k: nat)
    ensures Shrunk(net, S, k) <= S
    ensures Shrink(net, Shrunk(net, S, k)) == Shrunk(net, S, k) || |Shrunk(net, S, k)| + k <= |S|
  {
    hide Shrink;
    if k > 0 {
      ShrunkProgress(net, S, k - 1);
      var before := Shrunk(net, S, k - 1);
      ShrinkSmaller(net, before);
      SubsetSize(Shrink(net, before), before);
    }
  }

  lemma ShrinkSmaller(net: Net, S: set<nat>)
    ensures Shrink(net, S) <= S
  {
  }

  /** After as many steps as there are places the maximal trap is reached. */
  lemma ShrunkIsMaximalTrap(net: Net, S: set<nat>)
    requires forall p :: p in S ==> p < net.places
    ensures MaximalTrap(net, S, Shrunk(net, S, net.places))
  {
    hide Shrink, Trap;
    var n := net.places;
    ShrunkProgress(net, S, n);
    SizeBound(S, n);
    var Y := Shrunk(net, S, n);
    ShrinkSmaller(net, Y);
    assert |Y| == 0 ==> Y == {};
    ShrinkFixpointIsTrap(net, Y);
    forall Q: set<nat> | Q <= S && Trap(net, Q) ensures Q <= Y {
      ShrunkKeepsTraps(net, S, n, Q);
    }
  }

  lemma MaximalTrapUnique(net: Net, X: set<nat>, Y: set<nat>, Z: set<nat>)
    requires MaximalTrap(net, X, Y) && MaximalTrap(net, X, Z)
    ensures Y == Z
  {
    hide Trap;
  }

  // ---------- the clauses of one step ----------

  /** Helper x of transition t: true exactly if t produces nothing on the old set. */
  function HelperClauses(net: Net, zold: nat, xs: nat, k: nat): seq<Clause>
    requires k <= |net.post|
  {
    if k == 0 then []
    else HelperClauses(net, zold, xs, k - 1)
         + EachMinus(net.post[k - 1], zold, net.places, xs + k - 1)
         + [[xs + k - 1] + ArcLits(net.post[k - 1], zold, net.places)]
  }

  /** For the first k places p of some arcs: the clause (not x or not p). */
  function EachMinus(arcs: map<nat, nat>, base: nat, k: nat, x: nat): seq<Clause> {
    if k == 0 then []
    else EachMinus(arcs, base, k - 1, x) + if k - 1 in arcs then [[Minus(x), Minus(base + k - 1)]] else []
  }

  /** For the first k transitions t that consume from p: the clause (not z or not x of t). */
  function LosesClauses(net: Net, p: nat, z: nat, xs: nat, k: nat): seq<Clause>
    requires k <= |net.pre|
  {
    if k == 0 then []
    else LosesClauses(net, p, z, xs, k - 1) + if p in net.pre[k - 1] then [[Minus(z), Minus(xs + k - 1)]] else []
  }

  /** The helpers of the first k transitions that consume from p. */
  function LosesLits(net: Net, p: nat, xs: nat, k: nat): Clause
    requires k <= |net.pre|
  {
    if k == 0 then []
    else LosesLits(net, p, xs, k - 1) + if p in net.pre[k - 1] then [xs + k - 1] else []
  }

  function PlaceClauses(net: Net, p: nat, zold: nat, z: nat, xs: nat): seq<Clause> {
    [[Minus(z + p), zold + p]]
    + LosesClauses(net, p, z + p, xs, |net.pre|)
    + [[z + p, Minus(zold + p)] + LosesLits(net, p, xs, |net.pre|)]
  }

  function PlacesClauses(net: Net, zold: nat, z: nat, xs: nat, k: nat): seq<Clause> {
    if k == 0 then [] else PlacesClauses(net, zold, z, xs, k - 1) + PlaceClauses(net, k - 1, zold, z, xs)
  }

  function StepClauses(net: Net, zold: nat, z: nat, xs: nat): seq<Clause> {
    HelperClauses(net, zold, xs, |net.post|) + PlacesClauses(net, zold, z, xs, net.places)
  }

  // ---------- what one step means ----------

  /** The helper variable of transition t. */
  predicate Helper(a: Assignment, xs: nat, t: nat) {
    a(xs + t)
  }

  ghost predicate HelpersOK(net: Net, zold: nat, xs: nat, k: nat, a: Assignment)
    requires k <= |net.post|
  {
    forall t: nat :: t < k ==> (Helper(a, xs, t) <==> !Meets(net.post[t], SetVal(a, zold, net.places)))
  }

  lemma {:induction false} EachMinusTrue(a: Assignment, arcs: map<nat, nat>, base: nat, k: nat, x: nat)
    requires base >= 1 && x >= 1
    ensures Sat(a, EachMinus(arcs, base, k, x)) <==> forall p :: p in arcs && p < k && Holds(a, base, p) ==> !a(x)
  {
    hide ClauseTrue, Sat;
    if k == 0 {
      SatNone(a);
    } else {
      EachMinusTrue(a, arcs, base, k - 1, x);
      if k - 1 in arcs {
        var c := [Minus(x), Minus(base + k - 1)];
        SatConcat(a, EachMinus(arcs, base, k - 1, x), [c]);
        SatOne(a, c);
        TwoLits(a, Minus(x), Minus(base + k - 1));
        assert Holds(a, base, k - 1) <==> a(base + k - 1);
      } else {
        assert EachMinus(arcs, base, k, x) == EachMinus(arcs, base, k - 1, x);
      }
    }
  }

  lemma HelperRow(net: Net, arcs: map<nat, nat>, zold: nat, x: nat, a: Assignment)
    requires zold >= 1 && x >= 1 && forall p :: p in arcs ==> p < net.places
    ensures Sat(a, EachMinus(arcs, zold, net.places, x) + [[x] + ArcLits(arcs, zold, net.places)])
            <==> (a(x) <==> !Meets(arcs, SetVal(a, zold, net.places)))
  {
    hide ClauseTrue, Sat, Holds;
    var c := [x] + ArcLits(arcs, zold, net.places);
    SatConcat(a, EachMinus(arcs, zold, net.places, x), [c]);
    SatOne(a, c);
    ClauseCons(a, x, ArcLits(arcs, zold, net.places));
    ArcLitsMeets(a, arcs, zold, net.places);
    EachMinusTrue(a, arcs, zold, net.places, x);
    MeetsSetVal(a, arcs, zold, net.places);
  }

  lemma {:induction false} HelpersCorrect(net: Net, zold: nat, xs: nat, k: nat, a: Assignment)
    requires WellFormedNet(net) && k <= |net.post| && zold >= 1 && xs >= 1
    ensures Sat(a, HelperClauses(net, zold, xs, k)) <==> HelpersOK(net, zold, xs, k, a)
  {
    hide Sat, Meets, SetVal;
    if k == 0 {
      SatNone(a);
    } else {
      HelpersCorrect(net, zold, xs, k - 1, a);
      var row := EachMinus(net.post[k - 1], zold, net.places, xs + k - 1)
        + [[xs + k - 1] + ArcLits(net.post[k - 1], zold, net.places)];
      SatConcat(a, HelperClauses(net, zold, xs, k - 1), row);
      assert HelperClauses(net, zold, xs, k) == HelperClauses(net, zold, xs, k - 1) + row;
      HelperRow(net, net.post[k - 1], zold, xs + k - 1, a);
      assert Helper(a, xs, k - 1) <==> a(xs + k - 1);
    }
  }

  ghost predicate Loses(net: Net, p: nat, xs: nat, k: nat, a: Assignment)
    requires k <= |net.pre|
  {
    exists t: nat :: t < k && p in net.pre[t] && Helper(a, xs, t)
  }

  lemma {:induction false} LosesCorrect(net: Net, p: nat, z: nat, xs: nat, k: nat, a: Assignment)
    requires k <= |net.pre| && z >= 1 && xs >= 1
    ensures Sat(a, LosesClauses(net, p, z, xs, k)) <==> (a(z) ==> !Loses(net, p, xs, k, a))
    ensures ClauseTrue(a, LosesLits(net, p, xs, k)) <==> Loses(net, p, xs, k, a)
  {
    hide Sat, ClauseTrue;
    if k == 0 {
      SatNone(a);
      NoLits(a);
    } else {
      LosesCorrect(net, p, z, xs, k - 1, a);
      assert Loses(net, p, xs, k, a) <==> Loses(net, p, xs, k - 1, a) || (p in net.pre[k - 1] && Helper(a, xs, k - 1));
      if p in net.pre[k - 1] {
        var c := [Minus(z), Minus(xs + k - 1)];
        SatConcat(a, LosesClauses(net, p, z, xs, k - 1), [c]);
        SatOne(a, c);
        TwoLits(a, Minus(z), Minus(xs + k - 1));
        ClauseSnoc(a, LosesLits(net, p, xs, k - 1), xs + k - 1);
      } else {
        assert LosesClauses(net, p, z, xs, k) == LosesClauses(net, p, z, xs, k - 1);
        assert LosesLits(net, p, xs, k) == LosesLits(net, p, xs, k - 1);
      }
    }
  }

  lemma PlaceCorrect(net: Net, p: nat, zold: nat, z: nat, xs: nat, a: Assignment)
    requires zold >= 1 && z >= 1 && xs >= 1
    ensures Sat(a, PlaceClauses(net, p, zold, z, xs))
            <==> (a(z + p) <==> a(zold + p) && !Loses(net, p, xs, |net.pre|, a))
  {
    hide Sat, ClauseTrue, Loses;
    var m := |net.pre|;
    var c, d := [Minus(z + p), zold + p], [z + p, Minus(zold + p)] + LosesLits(net, p, xs, m);
    SatConcat(a, [c] + LosesClauses(net, p, z + p, xs, m), [d]);
    SatConcat(a, [c], LosesClauses(net, p, z + p, xs, m));
    SatOne(a, c);
    SatOne(a, d);
    TwoLits(a, Minus(z + p), zold + p);
    ClauseConcat(a, [z + p, Minus(zold + p)], LosesLits(net, p, xs, m));
    TwoLits(a, z + p, Minus(zold + p));
    LosesCorrect(net, p, z + p, xs, m, a);
  }

  lemma {:induction false} PlacesCorrect(net: Net, zold: nat, z: nat, xs: nat, k: nat, a: Assignment)
    requires zold >= 1 && z >= 1 && xs >= 1
    ensures Sat(a, PlacesClauses(net, zold, z, xs, k))
            <==> forall p: nat :: p < k ==> (Holds(a, z, p) <==> Holds(a, zold, p) && !Loses(net, p, xs, |net.pre|, a))
  {
    hide Sat, Loses;
    if k == 0 {
      SatNone(a);
    } else {
      PlacesCorrect(net, zold, z, xs, k - 1, a);
      SatConcat(a, PlacesClauses(net, zold, z, xs, k - 1), PlaceClauses(net, k - 1, zold, z, xs));
      PlaceCorrect(net, k - 1, zold, z, xs, a);
      assert Holds(a, z, k - 1) <==> a(z + (k - 1));
      assert Holds(a, zold, k - 1) <==> a(zold + (k - 1));
    }
  }

  /** One step: the helpers have their meaning, and the new block is the old one shrunk. */
  lemma StepCorrect(net: Net, zold: nat, z: nat, xs: nat, a: Assignment)
    requires WellFormedNet(net) && zold >= 1 && z >= 1 && xs >= 1
    ensures Sat(a, StepClauses(net, zold, z, xs)) <==>
              HelpersOK(net, zold, xs, |net.post|, a)
              && SetVal(a, z, net.places) == Shrink(net, SetVal(a, zold, net.places))
  {
    hide Sat, Loses, Holds, Meets, Helper;
    SatConcat(a, HelperClauses(net, zold, xs, |net.post|), PlacesClauses(net, zold, z, xs, net.places));
    HelpersCorrect(net, zold, xs, |net.post|, a);
    PlacesCorrect(net, zold, z, xs, net.places, a);
    if HelpersOK(net, zold, xs, |net.post|, a) {
      forall p: nat | p < net.places
        ensures p in Shrink(net, SetVal(a, zold, net.places)) <==> Holds(a, zold, p) && !Loses(net, p, xs, |net.pre|, a)
      {
        LosesMeaning(net, zold, xs, a, p);
      }
      SameSets(a, z, net.places, Shrink(net, SetVal(a, zold, net.places)));
    }
  }

  lemma SameSets(a: Assignment, z: nat, n: nat, S: set<nat>)
    requires forall p :: p in S ==> p < n
    ensures SetVal(a, z, n) == S <==> forall p: nat :: p < n ==> (Holds(a, z, p) <==> p in S)
  {
    hide Holds;
    if SetVal(a, z, n) == S {
      forall p: nat | p < n ensures Holds(a, z, p) <==> p in S {
        assert p in SetVal(a, z, n) <==> Holds(a, z, p);
      }
    }
  }

  lemma LosesMeaning(net: Net, zold: nat, xs: nat, a: Assignment, p: nat)
    requires WellFormedNet(net) && HelpersOK(net, zold, xs, |net.post|, a) && p < net.places
    ensures p in Shrink(net, SetVal(a, zold, net.places)) <==> Holds(a, zold, p) && !Loses(net, p, xs, |net.pre|, a)
  {
    hide Holds, Meets, Helper;
    var S := SetVal(a, zold, net.places);
    assert p in S <==> Holds(a, zold, p);
  }

  // ---------- the unrolled formula ----------

  /** The clauses of the steps from j on; zold is the current block, v the first free variable. */
  function MaxTrapFrom(net: Net, zold: nat, trap: nat, v: nat, j: nat): seq<Clause>
    decreases net.places - j
  {
    if j >= net.places then []
    else if j + 1 < net.places then
      StepClauses(net, zold, v, v + net.places) + MaxTrapFrom(net, v, trap, v + net.places + |net.post|, j + 1)
    else StepClauses(net, zold, trap, v)
  }

  /** The first free variable after these steps. */
  function FreeAfter(net: Net, v: nat, j: nat): (r: nat)
    ensures r >= v
    decreases net.places - j
  {
    if j >= net.places then v
    else if j + 1 < net.places then FreeAfter(net, v + net.places + |net.post|, j + 1)
    else v + |net.post|
  }

  lemma {:induction false} ShrunkFront(net: Net, S: set<nat>, k: nat)
    requires k >= 1
    ensures Shrunk(net, S, k) == Shrunk(net, Shrink(net, S), k - 1)
  {
    hide Shrink;
    if k > 1 { ShrunkFront(net, S, k - 1); }
  }

  /** A model makes the trap block the result of all remaining steps. */
  lemma {:induction false} MaxTrapSound(net: Net, zold: nat, trap: nat, v: nat, j: nat, a: Assignment)
    requires WellFormedNet(net) && zold >= 1 && trap >= 1 && v >= 1 && j < net.places
    requires Sat(a, MaxTrapFrom(net, zold, trap, v, j))
    ensures SetVal(a, trap, net.places) == Shrunk(net, SetVal(a, zold, net.places), net.places - j)
    decreases net.places - j
  {
    hide Sat, SetVal, Shrink, HelpersOK, StepClauses;
    var n := net.places;
    if j + 1 < n {
      SatConcat(a, StepClauses(net, zold, v, v + n), MaxTrapFrom(net, v, trap, v + n + |net.post|, j + 1));
      StepCorrect(net, zold, v, v + n, a);
      MaxTrapSound(net, v, trap, v + n + |net.post|, j + 1, a);
      ShrunkFront(net, SetVal(a, zold, n), n - j);
    } else {
      StepCorrect(net, zold, trap, v, a);
      assert Shrunk(net, SetVal(a, zold, n), 1) == Shrink(net, Shrunk(net, SetVal(a, zold, n), 0));
    }
  }

  /** a with the variables of one step set to their meaning. */
  ghost function WithStep(net: Net, a: Assignment, zold: nat, z: nat, xs: nat): Assignment {
    var S := SetVal(a, zold, net.places);
    var T := Shrink(net, S);
    (u: nat) =>
      if xs <= u < xs + |net.post| then !Meets(net.post[u - xs], S)
      else if z <= u < z + net.places then (u - z) as nat in T
      else a(u)
  }

  lemma AgreeSetVal(a: Assignment, b: Assignment, base: nat, n: nat, v: nat)
    requires AgreeBelow(a, b, v) && base + n <= v
    ensures SetVal(a, base, n) == SetVal(b, base, n)
  {
    forall p: nat | p < n ensures Holds(a, base, p) <==> Holds(b, base, p) {
      assert a(base + p) == b(base + p);
    }
  }

  lemma AgreeTrans(a: Assignment, b: Assignment, c: Assignment, v: nat, w: nat)
    requires AgreeBelow(a, b, v) && AgreeBelow(b, c, w) && v <= w
    ensures AgreeBelow(a, c, v)
  {
  }

  lemma WithStepInner(net: Net, a: Assignment, zold: nat, v: nat) returns (b: Assignment)
    requires WellFormedNet(net) && zold + net.places <= v
    ensures AgreeBelow(a, b, v)
    ensures HelpersOK(net, zold, v + net.places, |net.post|, b)
    ensures SetVal(b, v, net.places) == Shrink(net, SetVal(a, zold, net.places))
    ensures SetVal(b, zold, net.places) == SetVal(a, zold, net.places)
  {
    hide Shrink, Meets;
    var n := net.places;
    b := WithStep(net, a, zold, v, v + n);
    assert AgreeBelow(a, b, v);
    AgreeSetVal(a, b, zold, n, v);
    var T := Shrink(net, SetVal(a, zold, n));
    ShrinkSmaller(net, SetVal(a, zold, n));
    forall p: nat | p < n ensures Holds(b, v, p) <==> p in T {
      assert b(v + p) <==> p in T;
    }
    SameSets(b, v, n, T);
    forall t: nat | t < |net.post| ensures Helper(b, v + n, t) <==> !Meets(net.post[t], SetVal(b, zold, n)) {
      assert b(v + n + t) <==> !Meets(net.post[t], SetVal(a, zold, n));
    }
  }

  lemma WithStepLast(net: Net, a: Assignment, zold: nat, v: nat) returns (b: Assignment)
    requires WellFormedNet(net) && zold + net.places <= v
    ensures AgreeBelow(a, b, v)
    ensures HelpersOK(net, zold, v, |net.post|, b)
  {
    hide Shrink, Meets;
    var n := net.places;
    b := WithStep(net, a, zold, v + |net.post|, v);
    assert AgreeBelow(a, b, v);
    AgreeSetVal(a, b, zold, n, v);
    forall t: nat | t < |net.post| ensures Helper(b, v, t) <==> !Meets(net.post[t], SetVal(b, zold, n)) {
      assert b(v + t) <==> !Meets(net.post[t], SetVal(a, zold, n));
    }
  }

  /** If the trap block is the result of all remaining steps, the other variables can be chosen. */
  lemma {:induction false} MaxTrapComplete(net: Net, zold: nat, trap: nat, v: nat, j: nat, a: Assignment)
    returns (b: Assignment)
    requires WellFormedNet(net) && zold >= 1 && trap >= 1 && j < net.places
    requires zold + net.places <= v && trap + net.places <= v
    requires SetVal(a, trap, net.places) == Shrunk(net, SetVal(a, zold, net.places), net.places - j)
    ensures AgreeBelow(a, b, v) && Sat(b, MaxTrapFrom(net, zold, trap, v, j))
    decreases net.places - j
  {
    hide Sat, SetVal, Shrink, HelpersOK, StepClauses, AgreeBelow;
    var n := net.places;
    if j + 1 < n {
      var w := v + n + |net.post|;
      var c := WithStepInner(net, a, zold, v);
      AgreeSetVal(a, c, trap, n, v);
      ShrunkFront(net, SetVal(a, zold, n), n - j);
      b := MaxTrapComplete(net, v, trap, w, j + 1, c);
      AgreeTrans(a, c, b, v, w);
      AgreeSetVal(c, b, zold, n, w);
      AgreeSetVal(c, b, v, n, w);
      AgreeHelpers(net, zold, v + n, c, b, w);
      StepCorrect(net, zold, v, v + n, b);
      SatConcat(b, StepClauses(net, zold, v, v + n), MaxTrapFrom(net, v, trap, w, j + 1));
    } else {
      b := WithStepLast(net, a, zold, v);
      AgreeSetVal(a, b, zold, n, v);
      AgreeSetVal(a, b, trap, n, v);
      StepCorrect(net, zold, trap, v, b);
      assert Shrunk(net, SetVal(a, zold, n), 1) == Shrink(net, Shrunk(net, SetVal(a, zold, n), 0));
    }
  }

  lemma AgreeHelpers(net: Net, zold: nat, xs: nat, a: Assignment, b: Assignment, v: nat)
    requires AgreeBelow(a, b, v) && xs + |net.post| <= v && zold + net.places <= v
    requires HelpersOK(net, zold, xs, |net.post|, a)
    ensures HelpersOK(net, zold, xs, |net.post|, b)
  {
    hide Meets;
    AgreeSetVal(a, b, zold, net.places, v);
    forall t: nat | t < |net.post| ensures Helper(b, xs, t) <==> !Meets(net.post[t], SetVal(b, zold, net.places)) {
      assert Helper(a, xs, t) == Helper(b, xs, t) by { assert a(xs + t) == b(xs + t); }
    }
  }

  /** XMaxTrap: values of the two blocks extend to a model of the emitted clauses
      exactly if the trap block is the largest trap inside the other block. */
  lemma MaxTrapExact(net: Net, X: nat, Y: nat, v: nat, a: Assignment)
    requires WellFormedNet(net) && X >= 1 && Y >= 1 && X + net.places <= v && Y + net.places <= v
    ensures (exists b: Assignment :: AgreeBelow(a, b, v) && Sat(b, MaxTrapFrom(net, X, Y, v, 0)))
            <==> MaximalTrap(net, SetVal(a, X, net.places), SetVal(a, Y, net.places))
  {
    hide Sat, AgreeBelow, MaximalTrap, SetVal;
    var n := net.places;
    SetValInside(a, X, n);
    SetValInside(a, Y, n);
    ShrunkIsMaximalTrap(net, SetVal(a, X, n));
    if n == 0 {
      SatNone(a);
      AgreeSelf(a, v);
    } else {
      if b: Assignment :| AgreeBelow(a, b, v) && Sat(b, MaxTrapFrom(net, X, Y, v, 0)) {
        MaxTrapSound(net, X, Y, v, 0, b);
        AgreeSetVal(a, b, X, n, v);
        AgreeSetVal(a, b, Y, n, v);
      }
      if MaximalTrap(net, SetVal(a, X, n), SetVal(a, Y, n)) {
        MaximalTrapUnique(net, SetVal(a, X, n), SetVal(a, Y, n), Shrunk(net, SetVal(a, X, n), n));
        var b := MaxTrapComplete(net, X, Y, v, 0, a);
      }
    }
  }

  lemma SetValInside(a: Assignment, base: nat, n: nat)
    ensures forall p :: p in SetVal(a, base, n) ==> p < n
    ensures n == 0 ==> SetVal(a, base, n) == {}
  {
  }

  lemma AgreeSelf(a: Assignment, v: nat)
    ensures AgreeBelow(a, a, v)
  {
  }
}
