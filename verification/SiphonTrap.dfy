/** The predefined formulas of the analyzer, and Commoner's property. */
module SiphonTraps {
  import opened Cnf
  import opened Encoders
  import opened Formulas
  import opened MaxTraps
  import opened PetriNets

  /** The property options of the command line. */
  datatype Options = Options(trap: bool, utrap: bool, mtrap: bool, usiphon: bool, msiphon: bool, swot: bool,
                             swomt: bool) {
    predicate WantsTrap() { trap || utrap || mtrap }
    predicate WantsMarked() { msiphon || mtrap }
    predicate WantsUnmarked() { usiphon || utrap }
    predicate UsesMaxTrap() { swot || swomt }
  }

  /** The sets of places that the options ask for. */
  ghost predicate Wanted(net: Net, o: Options, S: set<nat>) {
    && S != {}
    && (if o.WantsTrap() then Trap(net, S) else Siphon(net, S))
    && (o.WantsMarked() ==> MarkedAt(net.m0, S))
    && (o.WantsUnmarked() ==> !MarkedAt(net.m0, S))
    && (o.swot ==> forall Q: set<nat> :: Q <= S && Trap(net, Q) ==> Q == {})
    && (!o.swot && o.swomt ==> forall Q: set<nat> :: Q <= S && Trap(net, Q) ==> !MarkedAt(net.m0, Q))
  }

  function TrapPart(net: Net, o: Options, y: nat): seq<Clause> {
    if o.swot then EmptyClauses(net, y) else UnmarkedClauses(net, y)
  }

  function SetPart(net: Net, o: Options, x: nat): seq<Clause>
    requires |net.pre| == |net.post|
  {
    (if o.WantsTrap() then TrapClauses(net, x) else SiphonClauses(net, x))
    + NonEmptyClauses(net, x)
    + (if o.WantsMarked() then MarkedClauses(net, x) else [])
    + (if o.WantsUnmarked() then UnmarkedClauses(net, x) else [])
  }

  /** The formula, for the blocks x and y and the first free variable v. */
  function PropertyClauses(net: Net, o: Options, x: nat, y: nat, v: nat): seq<Clause>
    requires |net.pre| == |net.post|
  {
    SetPart(net, o, x) + if o.UsesMaxTrap() then MaxTrapFrom(net, x, y, v, 0) + TrapPart(net, o, y) else []
  }

  /** Builds the formula for the options; returns the main set variable. */
  method GenerateFormula(f: Formula, o: Options) returns (X: nat)
    requires f.Valid()
    modifies f`f, f`ffv, f`ffsv, f`svtov, f`singles
    ensures f.Valid() && X in f.svtov && f.svtov[X] == old(f.ffv) && X == old(f.ffsv)
    ensures !o.swot && !o.swomt ==> f.svtov == old(f.svtov)[X := old(f.ffv)] && f.ffv == old(f.ffv) + f.net.places
    ensures f.f == old(f.f) + PropertyClauses(f.net, o, old(f.ffv), old(f.ffv) + f.net.places,
                                              old(f.ffv) + 2 * f.net.places)
  {
    hide DependsOn, Allocation, SetPart, MaxTrapFrom, TrapPart;
    X := f.CreateSetVar();
    var Y := 0;
    if o.UsesMaxTrap() {
      Y := f.CreateSetVar();
    }
    AddSetPart(f, o, X);
    if o.UsesMaxTrap() {
      AddTrapPart(f, o, X, Y);
    }
  }

  /** The clauses about the main set variable alone. */
  method AddSetPart(f: Formula, o: Options, X: nat)
    requires f.Valid() && X in f.svtov && X != 0
    modifies f`f
    ensures f.Valid() && f.f == old(f.f) + SetPart(f.net, o, f.svtov[X])
  {
    hide DependsOn, Allocation, TrapClauses, SiphonClauses, NonEmptyClauses, MarkedClauses, UnmarkedClauses;
    if o.WantsTrap() {
      f.XTrap(X);
    } else {
      f.XSiphon(X);
    }
    f.XNEmpty(X);
    AddMarkedPart(f, o, X);
  }

  method AddMarkedPart(f: Formula, o: Options, X: nat)
    requires f.Valid() && X in f.svtov && X != 0
    modifies f`f
    ensures f.Valid()
    ensures f.f == old(f.f) + (if o.WantsMarked() then MarkedClauses(f.net, f.svtov[X]) else [])
                   + (if o.WantsUnmarked() then UnmarkedClauses(f.net, f.svtov[X]) else [])
  {
    hide DependsOn, Allocation, MarkedClauses, UnmarkedClauses;
    if o.WantsMarked() {
      f.XMarked(X);
    }
    if o.WantsUnmarked() {
      f.XNMarked(X);
    }
  }

  /** The clauses about the maximal trap Y inside X. */
  method AddTrapPart(f: Formula, o: Options, X: nat, Y: nat)
    requires f.Valid() && X in f.svtov && X != 0 && Y in f.svtov && Y != 0
    modifies f`f, f`ffv, f`ffsv, f`svtov, f`singles
    ensures f.Valid() && X in f.svtov && f.svtov[X] == old(f.svtov)[X]
    ensures f.f == old(f.f) + (MaxTrapFrom(f.net, old(f.svtov)[X], old(f.svtov)[Y], old(f.ffv), 0)
                               + TrapPart(f.net, o, old(f.svtov)[Y]))
  {
    hide DependsOn, Allocation, MaxTrapFrom, EmptyClauses, UnmarkedClauses;
    f.XMaxTrap(X, Y);
    if o.swot {
      f.XEmpty(Y);
    } else {
      f.XNMarked(Y);
    }
  }

  // ---------- what the formula means ----------

  lemma SetPartExact(net: Net, o: Options, x: nat, a: Assignment)
    requires WellFormedNet(net) && x >= 1
    ensures var S := SetVal(a, x, net.places);
            Sat(a, SetPart(net, o, x)) <==>
              (&& S != {}
               && (if o.WantsTrap() then Trap(net, S) else Siphon(net, S))
               && (o.WantsMarked() ==> MarkedAt(net.m0, S))
               && (o.WantsUnmarked() ==> !MarkedAt(net.m0, S)))
  {
    hide Sat, SetVal, Trap, Siphon, MarkedAt, TrapClauses, SiphonClauses, NonEmptyClauses, MarkedClauses,
      UnmarkedClauses;
    var flow := if o.WantsTrap() then TrapClauses(net, x) else SiphonClauses(net, x);
    var marked := if o.WantsMarked() then MarkedClauses(net, x) else [];
    var unmarked := if o.WantsUnmarked() then UnmarkedClauses(net, x) else [];
    SatConcat(a, flow + NonEmptyClauses(net, x) + marked, unmarked);
    SatConcat(a, flow + NonEmptyClauses(net, x), marked);
    SatConcat(a, flow, NonEmptyClauses(net, x));
    SatNone(a);
    SiphonTrapCorrect(net, x, a);
    SimpleConditions(net, x, a);
  }

  lemma TrapPartExact(net: Net, o: Options, y: nat, a: Assignment)
    requires WellFormedNet(net) && y >= 1
    ensures Sat(a, TrapPart(net, o, y)) <==>
              if o.swot then SetVal(a, y, net.places) == {} else !MarkedAt(net.m0, SetVal(a, y, net.places))
  {
    hide Sat, SetVal, MarkedAt, EmptyClauses, UnmarkedClauses;
    SimpleConditions(net, y, a);
  }

  /** All traps in S are empty, or unmarked, exactly if the maximal one is. */
  lemma MaximalTrapDecides(net: Net, S: set<nat>, Y: set<nat>)
    requires MaximalTrap(net, S, Y)
    ensures Y == {} <==> forall Q: set<nat> :: Q <= S && Trap(net, Q) ==> Q == {}
    ensures !MarkedAt(net.m0, Y) <==> forall Q: set<nat> :: Q <= S && Trap(net, Q) ==> !MarkedAt(net.m0, Q)
  {
    hide Trap;
  }

  /** Every model's set is a wanted one. */
  lemma ModelsAreWanted(net: Net, o: Options, x: nat, a: Assignment)
    requires WellFormedNet(net) && x >= 1
    requires Sat(a, PropertyClauses(net, o, x, x + net.places, x + 2 * net.places))
    ensures Wanted(net, o, SetVal(a, x, net.places))
  {
    hide Sat, SetVal, Trap, Siphon, MarkedAt, SetPart, TrapPart, MaxTrapFrom, MaximalTrap, AgreeBelow;
    var n := net.places;
    var y, v := x + n, x + 2 * n;
    var rest := if o.UsesMaxTrap() then MaxTrapFrom(net, x, y, v, 0) + TrapPart(net, o, y) else [];
    SatConcat(a, SetPart(net, o, x), rest);
    SetPartExact(net, o, x, a);
    if o.UsesMaxTrap() {
      SatConcat(a, MaxTrapFrom(net, x, y, v, 0), TrapPart(net, o, y));
      TrapPartExact(net, o, y, a);
      AgreeSelf(a, v);
      MaxTrapExact(net, x, y, v, a);
      MaximalTrapDecides(net, SetVal(a, x, n), SetVal(a, y, n));
    }
  }

  /** The assignment with S in the block x and Y in the block y. */
  function TwoBlocks(x: nat, S: set<nat>, y: nat, Y: set<nat>): Assignment {
    (v: nat) => if v >= y then (v - y) as nat in Y else v >= x && (v - x) as nat in S
  }

  lemma TwoBlocksValues(x: nat, S: set<nat>, y: nat, Y: set<nat>, n: nat)
    requires y == x + n && (forall p :: p in S ==> p < n) && (forall p :: p in Y ==> p < n)
    ensures SetVal(TwoBlocks(x, S, y, Y), x, n) == S && SetVal(TwoBlocks(x, S, y, Y), y, n) == Y
  {
    var a := TwoBlocks(x, S, y, Y);
    forall p: nat | p < n ensures (Holds(a, x, p) <==> p in S) && (Holds(a, y, p) <==> p in Y) {
      assert a(x + p) <==> p in S;
      assert a(y + p) <==> p in Y;
    }
    SameSets(a, x, n, S);
    SameSets(a, y, n, Y);
  }

  /** Every wanted set is the set of some model. */
  lemma WantedHasModel(net: Net, o: Options, x: nat, S: set<nat>) returns (b: Assignment)
    requires WellFormedNet(net) && x >= 1 && (forall p :: p in S ==> p < net.places)
    requires Wanted(net, o, S)
    ensures Sat(b, PropertyClauses(net, o, x, x + net.places, x + 2 * net.places)) && SetVal(b, x, net.places) == S
  {
    hide Sat, SetVal, Trap, Siphon, MarkedAt, SetPart, TrapPart, MaxTrapFrom, MaximalTrap, AgreeBelow, TwoBlocks,
      Shrunk;
    var n := net.places;
    var y, v := x + n, x + 2 * n;
    var Y := Shrunk(net, S, n);
    ShrunkIsMaximalTrap(net, S);
    ShrunkProgress(net, S, n);
    var a := TwoBlocks(x, S, y, Y);
    TwoBlocksValues(x, S, y, Y, n);
    if o.UsesMaxTrap() {
      MaxTrapExact(net, x, y, v, a);
      b :| AgreeBelow(a, b, v) && Sat(b, MaxTrapFrom(net, x, y, v, 0));
      AgreeSetVal(a, b, x, n, v);
      AgreeSetVal(a, b, y, n, v);
      MaximalTrapDecides(net, S, Y);
      TrapPartExact(net, o, y, b);
      SatConcat(b, MaxTrapFrom(net, x, y, v, 0), TrapPart(net, o, y));
      SetPartExact(net, o, x, b);
      SatConcat(b, SetPart(net, o, x), MaxTrapFrom(net, x, y, v, 0) + TrapPart(net, o, y));
    } else {
      b := a;
      SetPartExact(net, o, x, b);
      SatConcat(b, SetPart(net, o, x), []);
      SatNone(b);
    }
  }

  /** Which sets of places the formula accepts, in terms of the flags alone. */
  lemma ModelsByFlags(net: Net, trap: bool, utrap: bool, mtrap: bool, usiphon: bool, msiphon: bool, swot: bool,
                      swomt: bool, x: nat, S: set<nat>)
    requires WellFormedNet(net) && x >= 1 && forall p :: p in S ==> p < net.places
    ensures var o := Options(trap, utrap, mtrap, usiphon, msiphon, swot, swomt);
            HasModel(PropertyClauses(net, o, x, x + net.places, x + 2 * net.places), x, net.places, S) <==>
            && S != {}
            && (trap || utrap || mtrap ==> Trap(net, S))
            && (!trap && !utrap && !mtrap ==> Siphon(net, S))
            && (msiphon || mtrap ==> MarkedAt(net.m0, S))
            && (usiphon || utrap ==> !MarkedAt(net.m0, S))
            && (swot ==> forall Q: set<nat> :: Q <= S && Trap(net, Q) ==> Q == {})
            && (swomt && !swot ==> forall Q: set<nat> :: Q <= S && Trap(net, Q) ==> !MarkedAt(net.m0, Q))
  {
    hide Sat, SetVal, Trap, Siphon, MarkedAt, PropertyClauses;
    var o := Options(trap, utrap, mtrap, usiphon, msiphon, swot, swomt);
    var f := PropertyClauses(net, o, x, x + net.places, x + 2 * net.places);
    if a: Assignment :| Sat(a, f) && SetVal(a, x, net.places) == S {
      ModelsAreWanted(net, o, x, a);
    }
    if Wanted(net, o, S) {
      var b := WantedHasModel(net, o, x, S);
    }
  }

  ghost predicate HasModel(f: seq<Clause>, x: nat, n: nat, S: set<nat>) {
    exists a: Assignment :: Sat(a, f) && SetVal(a, x, n) == S
  }

  /** The options one by one: the sets that each of them alone asks for. Without an option
      these are the siphons. */
  lemma SingleOptions(net: Net, x: nat, S: set<nat>)
    requires WellFormedNet(net) && x >= 1 && forall p :: p in S ==> p < net.places
    ensures Accepts(net, Options(true, false, false, false, false, false, false), x, S) <==> S != {} && Trap(net, S)
    ensures Accepts(net, Options(false, true, false, false, false, false, false), x, S) <==>
            S != {} && Trap(net, S) && !MarkedAt(net.m0, S)
    ensures Accepts(net, Options(false, false, true, false, false, false, false), x, S) <==>
            S != {} && Trap(net, S) && MarkedAt(net.m0, S)
    ensures Accepts(net, Options(false, false, false, true, false, false, false), x, S) <==>
            S != {} && Siphon(net, S) && !MarkedAt(net.m0, S)
    ensures Accepts(net, Options(false, false, false, false, true, false, false), x, S) <==>
            S != {} && Siphon(net, S) && MarkedAt(net.m0, S)
    ensures Accepts(net, Options(false, false, false, false, false, true, false), x, S) <==>
            S != {} && Siphon(net, S) && forall Q: set<nat> :: Q <= S && Trap(net, Q) ==> Q == {}
    ensures Accepts(net, Options(false, false, false, false, false, false, true), x, S) <==>
            S != {} && Siphon(net, S) && forall Q: set<nat> :: Q <= S && Trap(net, Q) ==> !MarkedAt(net.m0, Q)
    ensures Accepts(net, Options(false, false, false, false, false, false, false), x, S) <==> S != {} && Siphon(net, S)
  {
    hide HasModel, Trap, Siphon, MarkedAt, PropertyClauses;
    ModelsByFlags(net, true, false, false, false, false, false, false, x, S);
    ModelsByFlags(net, false, true, false, false, false, false, false, x, S);
    ModelsByFlags(net, false, false, true, false, false, false, false, x, S);
    ModelsByFlags(net, false, false, false, true, false, false, false, x, S);
    ModelsByFlags(net, false, false, false, false, true, false, false, x, S);
    ModelsByFlags(net, false, false, false, false, false, true, false, x, S);
    ModelsByFlags(net, false, false, false, false, false, false, true, x, S);
    ModelsByFlags(net, false, false, false, false, false, false, false, x, S);
  }

  ghost predicate Accepts(net: Net, o: Options, x: nat, S: set<nat>)
    requires |net.pre| == |net.post|
  {
    HasModel(PropertyClauses(net, o, x, x + net.places, x + 2 * net.places), x, net.places, S)
  }

  // ---------- Commoner's property ----------

  const WITHOUT_MARKED_TRAP := Options(false, false, false, false, false, false, true)

  ghost predicate Unsatisfiable(f: seq<Clause>) {
    forall a: Assignment :: !Sat(a, f)
  }

  /** The formula "siphon without marked trap" is unsatisfiable exactly if every
      non-empty siphon contains an initially marked trap. */
  lemma UnsatisfiableIffCommoner(net: Net, x: nat)
    requires WellFormedNet(net) && x >= 1
    ensures Unsatisfiable(PropertyClauses(net, WITHOUT_MARKED_TRAP, x, x + net.places, x + 2 * net.places))
            <==> CommonerProperty(net)
  {
    hide Sat, SetVal, Trap, Siphon, MarkedAt, PropertyClauses;
    var f := PropertyClauses(net, WITHOUT_MARKED_TRAP, x, x + net.places, x + 2 * net.places);
    if Unsatisfiable(f) {
      forall S: set<nat> | S != {} && (forall p :: p in S ==> p < net.places) && Siphon(net, S)
        ensures exists Q: set<nat> :: Q <= S && Trap(net, Q) && MarkedAt(net.m0, Q)
      {
        if !(exists Q: set<nat> :: Q <= S && Trap(net, Q) && MarkedAt(net.m0, Q)) {
          var b := WantedHasModel(net, WITHOUT_MARKED_TRAP, x, S);
        }
      }
    }
    if CommonerProperty(net) {
      forall a: Assignment ensures !Sat(a, f) {
        if Sat(a, f) {
          ModelsAreWanted(net, WITHOUT_MARKED_TRAP, x, a);
          SetValInside(a, x, net.places);
        }
      }
    }
  }

  /** What the analyzer concludes from a failed search for a siphon without marked
      trap: no reachable marking of an ordinary net is dead. */
  lemma NoSuchSiphonNoDeadlock(net: Net, x: nat, m: seq<nat>)
    requires WellFormedNet(net) && Ordinary(net) && |net.pre| > 0 && x >= 1
    requires Unsatisfiable(PropertyClauses(net, WITHOUT_MARKED_TRAP, x, x + net.places, x + 2 * net.places))
    requires Reachable(net, m)
    ensures !DeadMarking(net, m)
  {
    hide Unsatisfiable, PropertyClauses, CommonerProperty;
    UnsatisfiableIffCommoner(net, x);
    CommonerImpliesDeadlockFree(net, m);
  }

  /** The whole check: the answer says whether every non-empty siphon contains an
      initially marked trap. */
  method CheckCommoner(net: Net, minisat: Solver) returns (holds: bool)
    requires WellFormedNet(net) && ExactSolver(minisat)
    ensures holds <==> CommonerProperty(net)
  {
    hide ExactSolver, Sat, PropertyClauses, CommonerProperty;
    var f := new Formula(net, minisat);
    var X := GenerateFormula(f, WITHOUT_MARKED_TRAP);
    assert f.f == PropertyClauses(net, WITHOUT_MARKED_TRAP, 1, 1 + net.places, 1 + 2 * net.places);
    var b := f.Solve();
    UnsatisfiableIffCommoner(net, 1);
    holds := !b;
  }
}
