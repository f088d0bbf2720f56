/** Place-based non-interference: what active triples are, and secure labellings. */
module NonInterference {
  import opened Gadgets
  import opened PetriNets
  import opened TaskNets

  datatype Confidence = Unassigned | Low | High | Down

  datatype Property = PbniPlus | Pbnid

  datatype Kind = Causal | Conflict

  datatype Triple = Triple(place: nat, high: nat, low: nat)

  ghost predicate InNet(net: Net, tr: Triple) {
    tr.place < net.places && tr.high < |net.pre| == |net.post| && tr.low < |net.pre|
  }

  // ---------- active triples ----------

  /** t puts tokens on the place of the triple and is neither its high nor its low transition. */
  predicate Rival(net: Net, tr: Triple, t: nat) {
    t < |net.post| && tr.place in net.post[t] && t != tr.low && t != tr.high
  }

  /** The transitions that may not fire between the high and the low one. */
  ghost function Guarded(net: Net, kind: Kind, tr: Triple, prop: Property, downs: set<nat>): set<nat> {
    (set t: nat | t < |net.post| && Rival(net, tr, t))
    + (if prop.Pbnid? then downs else {}) + (if kind.Conflict? then {tr.high} else {})
  }

  /** Causal: a run fires high and later enables low, and nobody else has supplied the
      place in between. Conflict: high is enabled, but the run enables low without it. */
  ghost predicate Active(net: Net, kind: Kind, tr: Triple, prop: Property, downs: set<nat>)
    requires WellFormedNet(net)
  {
    exists m1, later, m ::
      && Reachable(net, m1) && Enabled(net, m1, tr.high) && tr.high < |net.post|
      && Runs(net, if kind.Causal? then Fire(net, m1, tr.high) else m1, later, m)
      && Avoids(later, Guarded(net, kind, tr, prop, downs)) && Enabled(net, m, tr.low)
  }

  /** A run to m1 where high is enabled, and on (past high for causal triples) to m where low
      is enabled. In between nobody but high and low puts tokens on the place, no downgrade
      transition fires under PBNID, and for conflict triples high does not fire either. */
  ghost predicate LeakingRun(net: Net, kind: Kind, tr: Triple, prop: Property, downs: set<nat>,
                             m1: seq<nat>, later: seq<nat>, m: seq<nat>)
    requires WellFormedNet(net)
  {
    && Reachable(net, m1) && Enabled(net, m1, tr.high) && tr.high < |net.post| && Enabled(net, m, tr.low)
    && (kind == Causal ==> Runs(net, Fire(net, m1, tr.high), later, m))
    && (kind == Conflict ==> Runs(net, m1, later, m))
    && (forall i | 0 <= i < |later| && later[i] < |net.post| && tr.place in net.post[later[i]] ::
          later[i] == tr.low || later[i] == tr.high)
    && (forall i | 0 <= i < |later| :: prop == Pbnid ==> later[i] !in downs)
    && (forall i | 0 <= i < |later| :: kind == Conflict ==> later[i] != tr.high)
  }

  /** A triple is active exactly if there is such a run. */
  lemma ActiveRules(net: Net, kind: Kind, tr: Triple, prop: Property, downs: set<nat>)
    requires WellFormedNet(net)
    ensures Active(net, kind, tr, prop, downs) <==>
            exists m1, later, m :: LeakingRun(net, kind, tr, prop, downs, m1, later, m)
  {
    hide Reachable, Runs, Enabled, WellFormedNet, Guarded, Avoids, Active, LeakingRun;
    if Active(net, kind, tr, prop, downs) {
      var m1, later, m := ActiveRun(net, kind, tr, prop, downs);
      LeakingIff(net, kind, tr, prop, downs, m1, later, m);
    }
    if m1, later, m :| LeakingRun(net, kind, tr, prop, downs, m1, later, m) {
      LeakingIff(net, kind, tr, prop, downs, m1, later, m);
      RunIsActive(net, kind, tr, prop, downs, m1, later, m);
    }
  }

  lemma LeakingIff(net: Net, kind: Kind, tr: Triple, prop: Property, downs: set<nat>,
                   m1: seq<nat>, later: seq<nat>, m: seq<nat>)
    requires WellFormedNet(net)
    ensures LeakingRun(net, kind, tr, prop, downs, m1, later, m) <==>
            && Reachable(net, m1) && Enabled(net, m1, tr.high) && tr.high < |net.post| && Enabled(net, m, tr.low)
            && Runs(net, if kind.Causal? then Fire(net, m1, tr.high) else m1, later, m)
            && Avoids(later, Guarded(net, kind, tr, prop, downs))
  {
    hide Reachable, Runs, Enabled, WellFormedNet, Guarded, Avoids;
    AvoidsGuarded(net, kind, tr, prop, downs, later);
  }

  lemma ActiveRun(net: Net, kind: Kind, tr: Triple, prop: Property, downs: set<nat>)
    returns (m1: seq<nat>, later: seq<nat>, m: seq<nat>)
    requires WellFormedNet(net) && Active(net, kind, tr, prop, downs)
    ensures Reachable(net, m1) && Enabled(net, m1, tr.high) && tr.high < |net.post|
    ensures Runs(net, if kind.Causal? then Fire(net, m1, tr.high) else m1, later, m) && Enabled(net, m, tr.low)
    ensures Avoids(later, Guarded(net, kind, tr, prop, downs))
  {
    hide Reachable, Runs, Enabled, Guarded, Avoids, WellFormedNet;
    m1, later, m :|
      && Reachable(net, m1) && Enabled(net, m1, tr.high) && tr.high < |net.post|
      && Runs(net, if kind.Causal? then Fire(net, m1, tr.high) else m1, later, m)
      && Avoids(later, Guarded(net, kind, tr, prop, downs)) && Enabled(net, m, tr.low);
  }

  lemma RunIsActive(net: Net, kind: Kind, tr: Triple, prop: Property, downs: set<nat>,
                    m1: seq<nat>, later: seq<nat>, m: seq<nat>)
    requires WellFormedNet(net) && Reachable(net, m1) && Enabled(net, m1, tr.high) && tr.high < |net.post|
    requires Runs(net, if kind.Causal? then Fire(net, m1, tr.high) else m1, later, m) && Enabled(net, m, tr.low)
    requires Avoids(later, Guarded(net, kind, tr, prop, downs))
    ensures Active(net, kind, tr, prop, downs)
  {
    hide Reachable, Runs, Enabled, Guarded, Avoids, WellFormedNet;
  }

  lemma AvoidsGuarded(net: Net, kind: Kind, tr: Triple, prop: Property, downs: set<nat>, later: seq<nat>)
    ensures Avoids(later, Guarded(net, kind, tr, prop, downs)) <==>
            && (forall i | 0 <= i < |later| && later[i] < |net.post| && tr.place in net.post[later[i]] ::
                  later[i] == tr.low || later[i] == tr.high)
            && (forall i | 0 <= i < |later| :: prop.Pbnid? ==> later[i] !in downs)
            && (forall i | 0 <= i < |later| :: kind.Conflict? ==> later[i] != tr.high)
  {
  }

  /** What the high transition of the gadget puts back. */
  function Puts(net: Net, kind: Kind, t: nat): map<nat, nat>
    requires t < |net.pre| == |net.post|
  {
    if kind.Causal? then net.post[t] else net.pre[t]
  }

  lemma MoveOf(net: Net, kind: Kind, t: nat, m: seq<nat>)
    requires WellFormedNet(net) && t < |net.pre|
    ensures Covers(m, net.pre[t]) <==> Enabled(net, m, t)
    ensures Covers(m, net.pre[t]) ==>
              Moved(m, net.pre[t], Puts(net, kind, t)) == if kind.Causal? then Fire(net, m, t) else m
  {
    if Covers(m, net.pre[t]) {
      MovedIsFire(net, m, t);
      MovedBack(m, net.pre[t]);
    }
  }

  lemma ActiveIsLeak(net: Net, kind: Kind, tr: Triple, prop: Property, downs: set<nat>)
    requires WellFormedNet(net) && InNet(net, tr)
    ensures Active(net, kind, tr, prop, downs) <==>
              Leaks(net, net.pre[tr.high], Puts(net, kind, tr.high), net.pre[tr.low],
                    Guarded(net, kind, tr, prop, downs))
    ensures MoveReachable(net, net.pre[tr.high], Puts(net, kind, tr.high))
  {
    hide Reachable, Runs, Avoids, Guarded, Puts, Covers, Enabled;
    var takes, puts, lowPre := net.pre[tr.high], Puts(net, kind, tr.high), net.pre[tr.low];
    var guarded := Guarded(net, kind, tr, prop, downs);
    if Active(net, kind, tr, prop, downs) {
      var m1, later, m :| && Reachable(net, m1) && Enabled(net, m1, tr.high)
                          && Runs(net, if kind.Causal? then Fire(net, m1, tr.high) else m1, later, m)
                          && Avoids(later, guarded) && Enabled(net, m, tr.low);
      MoveOf(net, kind, tr.high, m1);
      MoveOf(net, kind, tr.low, m);
      assert HalfWay(net, takes, puts, guarded, m);
    }
    if Leaks(net, takes, puts, lowPre, guarded) {
      var m :| HalfWay(net, takes, puts, guarded, m) && Covers(m, lowPre);
      var m1, later :| Reachable(net, m1) && Covers(m1, takes) && Runs(net, Moved(m1, takes, puts), later, m)
        && Avoids(later, guarded);
      MoveOf(net, kind, tr.high, m1);
      MoveOf(net, kind, tr.low, m);
    }
    forall m | Reachable(net, m) && Covers(m, takes) ensures Reachable(net, Moved(m, takes, puts)) {
      MoveOf(net, kind, tr.high, m);
      if kind.Causal? { ReachableMore(net, m, tr.high); }
    }
  }

  /** The question put to the model checker. */
  ghost predicate CanMark(net: Net, goal: nat)
    requires WellFormedNet(net)
  {
    exists m :: Reachable(net, m) && goal < |m| && m[goal] == 1
  }

  ghost predicate Unit(arcs: map<nat, nat>) {
    forall p :: p in arcs ==> arcs[p] == 1
  }

  lemma FlatUnit(arcs: map<nat, nat>)
    ensures Unit(arcs) <==> Flat(arcs) == arcs
  {
    assert forall p :: p in arcs ==> Flat(arcs)[p] == 1;
  }

  /** The arcs that the gadget copies have weight 1: the inputs of high and low, and for
      causal triples the outputs of high. */
  ghost predicate UnitCopies(net: Net, kind: Kind, tr: Triple) {
    InNet(net, tr) && Unit(net.pre[tr.high]) && Unit(net.pre[tr.low]) && Unit(Puts(net, kind, tr.high))
  }

  /** In m the copies are enabled like the originals, and hC moves the tokens as it should. */
  ghost predicate CopiesAgree(net: Net, kind: Kind, tr: Triple, m: seq<nat>)
    requires WellFormedNet(net) && InNet(net, tr)
  {
    && (Covers(m, Flat(net.pre[tr.high])) <==> Enabled(net, m, tr.high))
    && (Covers(m, Flat(net.pre[tr.low])) <==> Enabled(net, m, tr.low))
    && (Enabled(net, m, tr.high) && Covers(m, Flat(net.pre[tr.high])) ==>
          Moved(m, Flat(net.pre[tr.high]), Flat(Puts(net, kind, tr.high))) ==
          if kind.Causal? then Fire(net, m, tr.high) else m)
  }

  /** The copies behave like the originals in all markings exactly if the copied arcs have
      weight 1. */
  lemma CopiesExact(net: Net, kind: Kind, tr: Triple)
    requires WellFormedNet(net) && InNet(net, tr)
    ensures UnitCopies(net, kind, tr) <==> forall m :: |m| == net.places ==> CopiesAgree(net, kind, tr, m)
  {
    var takes, puts, lowPre := net.pre[tr.high], Puts(net, kind, tr.high), net.pre[tr.low];
    FlatUnit(takes);
    FlatUnit(puts);
    FlatUnit(lowPre);
    assert Inside(takes, net.places) && Inside(puts, net.places) && Inside(lowPre, net.places);
    hide WellFormedNet, Flat, Puts;
    if UnitCopies(net, kind, tr) {
      forall m: seq<nat> | |m| == net.places ensures CopiesAgree(net, kind, tr, m) {
        MoveOf(net, kind, tr.high, m);
        MoveOf(net, kind, tr.low, m);
      }
    }
    if forall m :: |m| == net.places ==> CopiesAgree(net, kind, tr, m) {
      var ones := seq(net.places, _ => 1);
      assert CopiesAgree(net, kind, tr, ones);
      FlatAtOnes(takes, net.places);
      FlatAtOnes(lowPre, net.places);
      MoveOf(net, kind, tr.high, ones);
      MoveOf(net, kind, tr.low, ones);
      assert Unit(takes) && Unit(lowPre);
      MovedUnit(ones, takes, puts);
    }
  }

  /** One token on each place covers the flattened arcs, and the arcs themselves exactly if
      they have weight 1. */
  lemma FlatAtOnes(arcs: map<nat, nat>, n: nat)
    requires Inside(arcs, n)
    ensures var ones := seq(n, _ => 1);
            Covers(ones, Flat(arcs)) && (Covers(ones, arcs) ==> forall p :: p in arcs ==> arcs[p] <= 1)
  {
  }

  lemma MovedUnit(m: seq<nat>, takes: map<nat, nat>, puts: map<nat, nat>)
    requires Covers(m, takes) && Inside(puts, |m|) && Moved(m, takes, Flat(puts)) == Moved(m, takes, puts)
    ensures Unit(puts)
  {
    forall p | p in puts ensures puts[p] == 1 {
      assert Moved(m, takes, Flat(puts))[p] == Moved(m, takes, puts)[p];
    }
  }

  /** Both patterns are exact if the copied arcs have weight 1: goal can be marked in the
      extended net exactly if the triple is active in the original one. */
  lemma PatternExact(net: Net, kind: Kind, tr: Triple, prop: Property, downs: set<nat>,
                     ext: Net, fired: nat, goal: nat, guards: map<nat, nat>)
    requires WellFormedNet(net) && UnitCopies(net, kind, tr)
    requires Gadget(net, ext, Flat(net.pre[tr.high]), Flat(Puts(net, kind, tr.high)), Flat(net.pre[tr.low]), fired,
                    goal, guards)
    requires guards.Values == Guarded(net, kind, tr, prop, downs)
    ensures WellFormedNet(ext) && (CanMark(ext, goal) <==> Active(net, kind, tr, prop, downs))
  {
    hide Active, Leaks, MoveReachable, Guarded, Reachable, NewPlaces;
    FlatUnit(net.pre[tr.high]);
    FlatUnit(net.pre[tr.low]);
    FlatUnit(Puts(net, kind, tr.high));
    ActiveIsLeak(net, kind, tr, prop, downs);
    GadgetExact(net, ext, net.pre[tr.high], Puts(net, kind, tr.high), net.pre[tr.low], fired, goal, guards);
  }

  /** Whatever the weights, the conflict pattern decides exactly whether the original net
      leaks when the arcs of the copies count 1. */
  lemma ConflictBlind(net: Net, tr: Triple, ext: Net, fired: nat, goal: nat, guards: map<nat, nat>)
    requires WellFormedNet(net) && InNet(net, tr)
    requires Gadget(net, ext, Flat(net.pre[tr.high]), Flat(net.pre[tr.high]), Flat(net.pre[tr.low]), fired, goal,
                    guards)
    ensures WellFormedNet(ext)
    ensures CanMark(ext, goal) <==>
              Leaks(net, Flat(net.pre[tr.high]), Flat(net.pre[tr.high]), Flat(net.pre[tr.low]), guards.Values)
  {
    hide Leaks, Reachable, NewPlaces, Flat;
    var takes := Flat(net.pre[tr.high]);
    forall m | Reachable(net, m) && Covers(m, takes) ensures Reachable(net, Moved(m, takes, takes)) {
      MovedBack(m, takes);
    }
    GadgetExact(net, ext, takes, takes, Flat(net.pre[tr.low]), fired, goal, guards);
  }

  // ---------- weighted arcs ----------

  /** The high transition 0 needs two tokens from place 0, which holds one. */
  ghost function TwoTokens(): Net {
    Net(2, [map[0 := 2], map[1 := 1]], [map[1 := 1], map[]], [1, 0])
  }

  lemma FirstStep(net: Net, ms: seq<seq<nat>>, run: seq<nat>)
    requires WellFormedNet(net) && Trace(net, ms, run)
    ensures run != [] ==> Enabled(net, ms[0], run[0]) && run[0] < |net.pre|
  {
    assert run != [] ==> Step(net, ms[0], run[0], ms[1]);
  }

  lemma StuckAtStart(run: seq<nat>, m: seq<nat>)
    requires Runs(TwoTokens(), [1, 0], run, m)
    ensures m == [1, 0]
  {
    var net := TwoTokens();
    var ms :| Trace(net, ms, run) && ms[0] == [1, 0] && ms[|run|] == m;
    assert !Enabled(net, [1, 0], 0) && !Enabled(net, [1, 0], 1) by {
      assert 0 in net.pre[0] && net.pre[0][0] == 2;
      assert 1 in net.pre[1] && net.pre[1][1] == 1;
    }
    FirstStep(net, ms, run);
  }

  /** The new arcs always have weight 1, so with weighted arcs at the high transition
      the causal pattern can report a triple that is not active. */
  lemma WeightsOverlooked(prop: Property, ext: Net, fired: nat, goal: nat, guards: map<nat, nat>)
    requires var net := TwoTokens();
             Gadget(net, ext, Flat(net.pre[0]), Flat(Puts(net, Causal, 0)), Flat(net.pre[1]), fired, goal, guards)
    ensures !Active(TwoTokens(), Causal, Triple(1, 0, 1), prop, {})
    ensures WellFormedNet(ext) && CanMark(ext, goal)
  {
    var net := TwoTokens();
    forall m1 | Reachable(net, m1) ensures !Enabled(net, m1, 0) {
      var run :| Runs(net, net.m0, run, m1);
      StuckAtStart(run, m1);
      assert 0 in net.pre[0] && net.pre[0][0] == 2;
    }
    TwoTokensLeak(guards.Values);
    var e := LeakMeansGoal(net, ext, Flat(net.pre[0]), Flat(Puts(net, Causal, 0)), Flat(net.pre[1]), fired, goal,
                           guards);
  }

  lemma TwoTokensLeak(guarded: set<nat>)
    ensures var net := TwoTokens();
            WellFormedNet(net) && Leaks(net, Flat(net.pre[0]), Flat(Puts(net, Causal, 0)), Flat(net.pre[1]), guarded)
  {
    var net := TwoTokens();
    TwoTokensArcs();
    hide TwoTokens, Flat, Puts, WellFormedNet, Trace;
    var takes, puts: map<nat, nat> := map[0 := 1], map[1 := 1];
    RunsNone(net, [1, 0]);
    assert Reachable(net, [1, 0]) by { assert Runs(net, net.m0, [], [1, 0]); }
    assert Covers([1, 0], takes) && Moved([1, 0], takes, puts) == [0, 1];
    RunsNone(net, [0, 1]);
    hide Runs, Reachable;
    assert Avoids([], guarded);
    assert HalfWay(net, takes, puts, guarded, [0, 1]);
    assert Covers([0, 1], puts);
  }

  lemma TwoTokensArcs()
    ensures var net := TwoTokens();
            && WellFormedNet(net) && |net.pre| == |net.post| == 2 && net.m0 == [1, 0]
            && Flat(net.pre[0]) == map[0 := 1] && Flat(Puts(net, Causal, 0)) == map[1 := 1]
              && Flat(net.pre[1]) == map[1 := 1]
  {
  }

  // ---------- secure labellings ----------

  /** high and low form a triple of this kind at place s. */
  predicate AtPlace(net: Net, kind: Kind, tr: Triple) {
    && tr.high < |net.pre| == |net.post| && tr.low < |net.pre|
    && tr.place in (if kind.Causal? then net.post[tr.high] else net.pre[tr.high])
    && tr.place in net.pre[tr.low]
  }

  /** A potential triple: its transitions are labelled high and low. */
  predicate LabelledAt(net: Net, conf: seq<Confidence>, kind: Kind, tr: Triple)
    requires |conf| == |net.pre|
  {
    AtPlace(net, kind, tr) && conf[tr.high] == High && conf[tr.low] == Low
  }

  ghost predicate ActiveAt(net: Net, conf: seq<Confidence>, kind: Kind, tr: Triple, prop: Property, downs: set<nat>)
    requires WellFormedNet(net) && |conf| == |net.pre|
  {
    LabelledAt(net, conf, kind, tr) && Active(net, kind, tr, prop, downs)
  }

  /** No triple of a high and a low transition is active. */
  ghost predicate Secure(net: Net, conf: seq<Confidence>, prop: Property, downs: set<nat>)
    requires WellFormedNet(net) && |conf| == |net.pre|
  {
    forall kind, tr :: !ActiveAt(net, conf, kind, tr, prop, downs)
  }

  /** Secure, in terms of the arcs and labels alone. */
  lemma SecureRules(net: Net, conf: seq<Confidence>, prop: Property, downs: set<nat>)
    requires WellFormedNet(net) && |conf| == |net.pre|
    ensures Secure(net, conf, prop, downs) <==>
            forall s: nat, h: nat, l: nat |
              h < |conf| && l < |conf| && conf[h] == High && conf[l] == Low && s in net.pre[l] ::
              && (s in net.post[h] ==> !Active(net, Causal, Triple(s, h, l), prop, downs))
              && (s in net.pre[h] ==> !Active(net, Conflict, Triple(s, h, l), prop, downs))
  {
    hide Active;
    if Secure(net, conf, prop, downs) {
      forall s: nat, h: nat, l: nat |
        h < |conf| && l < |conf| && conf[h] == High && conf[l] == Low && s in net.pre[l]
        ensures s in net.post[h] ==> !Active(net, Causal, Triple(s, h, l), prop, downs)
        ensures s in net.pre[h] ==> !Active(net, Conflict, Triple(s, h, l), prop, downs)
      {
        assert !ActiveAt(net, conf, Causal, Triple(s, h, l), prop, downs);
        assert !ActiveAt(net, conf, Conflict, Triple(s, h, l), prop, downs);
      }
    } else {
      var kind, tr :| ActiveAt(net, conf, kind, tr, prop, downs);
      assert tr == Triple(tr.place, tr.high, tr.low);
    }
  }

  /** A total assignment of high (true) and low to the transitions. */
  type Choice = nat -> bool

  function Labels(a: Choice, n: nat): (r: seq<Confidence>)
    ensures |r| == n && forall t :: 0 <= t < n ==> r[t] == if a(t) then High else Low
  {
    seq(n, t requires 0 <= t => if a(t) then High else Low)
  }

  /** The choice keeps the labels that are given already. */
  ghost predicate Extends(a: Choice, conf: seq<Confidence>) {
    forall t: nat :: t < |conf| ==> (conf[t] == High ==> a(t)) && (conf[t] == Low ==> !a(t))
  }

  /** The triples that the characterization looks at: high may still become high, and
      for causal triples low may still become low. */
  predicate Examined(net: Net, conf: seq<Confidence>, kind: Kind, tr: Triple)
    requires |conf| == |net.pre|
  {
    && AtPlace(net, kind, tr) && (conf[tr.high] == High || conf[tr.high] == Unassigned)
    && if kind.Causal? then conf[tr.low] == Low || conf[tr.low] == Unassigned else tr.low != tr.high
  }

  /** What the characterization says about a choice. */
  ghost predicate Characterized(net: Net, conf: seq<Confidence>, prop: Property, a: Choice)
    requires WellFormedNet(net) && |conf| == |net.pre|
  {
    && Extends(a, conf)
    && forall kind, tr :: Examined(net, conf, kind, tr) && Active(net, kind, tr, prop, {}) ==>
      !(a(tr.high) && !a(tr.low))
  }

  /** The characterization describes exactly the secure choices that keep the given labels. */
  lemma CharacterizationExact(net: Net, conf: seq<Confidence>, prop: Property, a: Choice)
    requires WellFormedNet(net) && |conf| == |net.pre| && forall t :: 0 <= t < |conf| ==> conf[t] != Down
    ensures Characterized(net, conf, prop, a) <==> Extends(a, conf) && Secure(net, Labels(a, |net.pre|), prop, {})
  {
    hide Active, WellFormedNet;
    var labels := Labels(a, |net.pre|);
    if Characterized(net, conf, prop, a) {
      forall kind, tr ensures !ActiveAt(net, labels, kind, tr, prop, {}) {
        assert ActiveAt(net, labels, kind, tr, prop, {}) ==> Examined(net, conf, kind, tr);
      }
    }
    if Extends(a, conf) && Secure(net, labels, prop, {}) {
      forall kind, tr | Examined(net, conf, kind, tr) && Active(net, kind, tr, prop, {})
        ensures !(a(tr.high) && !a(tr.low)) {
        assert !ActiveAt(net, labels, kind, tr, prop, {});
      }
    }
  }
}
