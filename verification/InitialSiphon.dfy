/** Checking that a given set of places is a siphon whose maximal trap is unmarked. */
module InitialSiphons {
  import opened Cnf
  import opened Encoders
  import opened Formulas
  import opened MaxTraps
  import opened PetriNets
  import opened SiphonTraps

  /** What a set of places has to be to start the search for a witness. */
  ghost predicate WithoutMarkedTrap(net: Net, S: set<nat>) {
    Siphon(net, S) && forall Q: set<nat> :: Q <= S && Trap(net, Q) ==> !MarkedAt(net.m0, Q)
  }

  /** One clause for each of the first k places, saying whether it belongs to S. */
  function AssignClauses(x: nat, S: set<nat>, k: nat): seq<Clause> {
    if k == 0 then []
    else AssignClauses(x, S, k - 1) + [[if k - 1 in S then x + k - 1 else Minus(x + k - 1)]]
  }

  lemma {:induction false} AssignExact(x: nat, S: set<nat>, k: nat, a: Assignment)
    requires x >= 1
    ensures Sat(a, AssignClauses(x, S, k)) <==> forall p: nat :: p < k ==> (Holds(a, x, p) <==> p in S)
  {
    hide Sat;
    if k == 0 {
      SatNone(a);
    } else {
      AssignExact(x, S, k - 1, a);
      UnitTrue(x + k - 1, k - 1 in S, a);
      SatConcat(a, AssignClauses(x, S, k - 1), [[if k - 1 in S then x + k - 1 else Minus(x + k - 1)]]);
      assert Holds(a, x, k - 1) == a(x + k - 1);
    }
  }

  function CheckClauses(net: Net, x: nat, y: nat, v: nat, S: set<nat>): seq<Clause>
    requires |net.pre| == |net.post|
  {
    SiphonClauses(net, x) + MaxTrapFrom(net, x, y, v, 0) + UnmarkedClauses(net, y) + AssignClauses(x, S, net.places)
  }

  lemma CheckParts(net: Net, x: nat, y: nat, v: nat, S: set<nat>, a: Assignment)
    requires WellFormedNet(net) && x >= 1 && y >= 1 && forall p :: p in S ==> p < net.places
    ensures Sat(a, CheckClauses(net, x, y, v, S)) <==>
              (&& Siphon(net, SetVal(a, x, net.places)) && Sat(a, MaxTrapFrom(net, x, y, v, 0))
               && !MarkedAt(net.m0, SetVal(a, y, net.places)) && SetVal(a, x, net.places) == S)
  {
    hide Sat, SetVal, Siphon, MarkedAt, SiphonClauses, MaxTrapFrom, UnmarkedClauses, AssignClauses;
    var n := net.places;
    SatConcat(a, SiphonClauses(net, x) + MaxTrapFrom(net, x, y, v, 0) + UnmarkedClauses(net, y),
              AssignClauses(x, S, n));
    SatConcat(a, SiphonClauses(net, x) + MaxTrapFrom(net, x, y, v, 0), UnmarkedClauses(net, y));
    SatConcat(a, SiphonClauses(net, x), MaxTrapFrom(net, x, y, v, 0));
    SiphonTrapCorrect(net, x, a);
    SimpleConditions(net, y, a);
    AssignExact(x, S, n, a);
    SameSets(a, x, n, S);
  }

  /** A model pins the siphon to S and shows its maximal trap, which is unmarked. */
  lemma ModelShowsTrap(net: Net, x: nat, S: set<nat>, a: Assignment)
    requires WellFormedNet(net) && x >= 1 && forall p :: p in S ==> p < net.places
    requires Sat(a, CheckClauses(net, x, x + net.places, x + 2 * net.places, S))
    ensures SetVal(a, x, net.places) == S && MaximalTrap(net, S, SetVal(a, x + net.places, net.places))
    ensures WithoutMarkedTrap(net, S) && !MarkedAt(net.m0, SetVal(a, x + net.places, net.places))
  {
    hide Sat, SetVal, Siphon, Trap, MarkedAt, CheckClauses, MaxTrapFrom, AgreeBelow, MaximalTrap;
    var n := net.places;
    var y, v := x + n, x + 2 * n;
    CheckParts(net, x, y, v, S, a);
    AgreeSelf(a, v);
    MaxTrapExact(net, x, y, v, a);
    MaximalTrapDecides(net, S, SetVal(a, y, n));
  }

  /** The formula is satisfiable exactly for siphons without an initially marked trap. */
  lemma CheckExact(net: Net, x: nat, S: set<nat>)
    requires WellFormedNet(net) && x >= 1 && forall p :: p in S ==> p < net.places
    ensures Unsatisfiable(CheckClauses(net, x, x + net.places, x + 2 * net.places, S)) <==> !WithoutMarkedTrap(net, S)
  {
    hide Sat, SetVal, Siphon, Trap, MarkedAt, CheckClauses, MaxTrapFrom, AgreeBelow, MaximalTrap, TwoBlocks, Shrunk;
    var n := net.places;
    var y, v := x + n, x + 2 * n;
    var f := CheckClauses(net, x, y, v, S);
    if WithoutMarkedTrap(net, S) {
      var Y := Shrunk(net, S, n);
      ShrunkIsMaximalTrap(net, S);
      ShrunkProgress(net, S, n);
      var a := TwoBlocks(x, S, y, Y);
      TwoBlocksValues(x, S, y, Y, n);
      MaxTrapExact(net, x, y, v, a);
      var b :| AgreeBelow(a, b, v) && Sat(b, MaxTrapFrom(net, x, y, v, 0));
      AgreeSetVal(a, b, x, n, v);
      AgreeSetVal(a, b, y, n, v);
      MaximalTrapDecides(net, S, Y);
      CheckParts(net, x, y, v, S, b);
    }
    if !Unsatisfiable(f) {
      var a :| Sat(a, f);
      ModelShowsTrap(net, x, S, a);
    }
  }

  /** Builds the formula that checks S; returns its two set variables. */
  method BuildCheck(f: Formula, S: set<nat>) returns (X: nat, Y: nat)
    requires f.Valid() && f.f == [] && forall p :: p in S ==> p < f.net.places
    modifies f`f, f`ffv, f`ffsv, f`svtov, f`singles
    ensures f.Valid() && X in f.svtov && Y in f.svtov && X != 0 && Y != 0
    ensures f.svtov[X] == old(f.ffv) && f.svtov[Y] == old(f.ffv) + f.net.places
    ensures f.f == CheckClauses(f.net, old(f.ffv), old(f.ffv) + f.net.places, old(f.ffv) + 2 * f.net.places, S)
  {
    hide DependsOn, Allocation, SiphonClauses, MaxTrapFrom, UnmarkedClauses, AssignClauses;
    X := f.CreateSetVar();
    Y := f.CreateSetVar();
    f.XSiphon(X);
    f.XMaxTrap(X, Y);
    f.XNMarked(Y);
    AssignBlock(f, X, S);
  }

  /** Says for every place whether it belongs to S. */
  method AssignBlock(f: Formula, X: nat, S: set<nat>)
    requires f.Valid() && X in f.svtov && X != 0
    modifies f`f
    ensures f.Valid() && f.f == old(f.f) + AssignClauses(f.svtov[X], S, f.net.places)
  {
    hide DependsOn;
    for p := 0 to f.net.places
      invariant f.Valid() && f.f == old(f.f) + AssignClauses(f.svtov[X], S, p)
    {
      f.BlockKnown(X);
      f.SetTo(f.GetVar(X, p), p in S);
    }
  }
}
