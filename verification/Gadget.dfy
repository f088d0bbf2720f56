/** Extending a net by a gadget that turns a statement about runs into the
    reachability of one marked place. */
module Gadgets {
  import opened PetriNets

  // ---------- runs ----------

  lemma RunsNone(net: Net, m: seq<nat>)
    requires WellFormedNet(net)
    ensures Runs(net, m, [], m)
  {
    assert Trace(net, [m], []);
  }

  lemma RunsMore(net: Net, m: seq<nat>, run: seq<nat>, m': seq<nat>, t: nat, m'': seq<nat>)
    requires WellFormedNet(net) && Runs(net, m, run, m') && Step(net, m', t, m'')
    ensures Runs(net, m, run + [t], m'')
  {
    hide Step;
    var ms :| Trace(net, ms, run) && ms[0] == m && ms[|run|] == m';
    var ms', run' := ms + [m''], run + [t];
    forall i | 0 <= i < |run'| ensures Step(net, ms'[i], run'[i], ms'[i + 1]) {
      if i < |run| { assert Step(net, ms[i], run[i], ms[i + 1]); }
    }
    assert Trace(net, ms', run');
  }

  // ---------- moving tokens ----------

  ghost predicate Covers(m: seq<nat>, arcs: map<nat, nat>) {
    forall p :: p in arcs ==> p < |m| && arcs[p] <= m[p]
  }

  ghost function Moved(m: seq<nat>, takes: map<nat, nat>, puts: map<nat, nat>): (m': seq<nat>)
    requires Covers(m, takes)
    ensures |m'| == |m|
    ensures forall p :: 0 <= p < |m| ==> m'[p] == m[p] - Weight(takes, p) + Weight(puts, p)
  {
    seq(|m|, p requires 0 <= p < |m| => m[p] - Weight(takes, p) + Weight(puts, p))
  }

  lemma MovedIsFire(net: Net, m: seq<nat>, t: nat)
    requires WellFormedNet(net) && t < |net.pre| && Covers(m, net.pre[t])
    ensures Enabled(net, m, t) && Moved(m, net.pre[t], net.post[t]) == Fire(net, m, t)
  {
  }

  lemma MovedBack(m: seq<nat>, takes: map<nat, nat>)
    requires Covers(m, takes)
    ensures Moved(m, takes, takes) == m
  {
  }

  lemma CoversByWeight(m: seq<nat>, arcs: map<nat, nat>)
    requires forall p :: p in arcs ==> p < |m|
    ensures Covers(m, arcs) <==> forall p: nat :: p < |m| ==> Weight(arcs, p) <= m[p]
  {
    if Covers(m, arcs) {
      forall p: nat | p < |m| ensures Weight(arcs, p) <= m[p] { }
    } else {
      var p :| p in arcs && arcs[p] > m[p];
      assert Weight(arcs, p) > m[p];
    }
  }

  // ---------- the gadget ----------

  /** The arc weight between place p and the old transition t: a guard place has a
      self-loop on the transition that it guards. */
  function GuardedWeight(arcs: map<nat, nat>, guards: map<nat, nat>, t: nat, p: nat): nat {
    if p in guards then (if guards[p] == t then 1 else 0) else Weight(arcs, p)
  }

  function One(b: bool): nat {
    if b then 1 else 0
  }

  /** ext is net with new places (fired, goal and the guards) and two transitions. The
      last one moves tokens like takes/puts, empties all the guards and marks fired; the
      one before it needs lowPre and fired, and marks goal. */
  ghost predicate Gadget(net: Net, ext: Net, takes: map<nat, nat>, puts: map<nat, nat>, lowPre: map<nat, nat>,
                         fired: nat, goal: nat, guards: map<nat, nat>) {
    && WellFormedNet(net) && WellFormedNet(ext) && |ext.pre| == |net.pre| + 2
    && NewPlaces(net, ext, fired, goal, guards)
    && Inside(takes, net.places) && Inside(puts, net.places) && Inside(lowPre, net.places)
    && (forall t: nat, p: nat :: t < |net.pre| && p < ext.places ==>
        Weight(ext.pre[t], p) == GuardedWeight(net.pre[t], guards, t, p))
    && (forall t: nat, p: nat :: t < |net.pre| && p < ext.places ==>
        Weight(ext.post[t], p) == GuardedWeight(net.post[t], guards, t, p))
    && (forall p: nat :: p < ext.places ==> Weight(ext.pre[|net.pre|], p) == Weight(lowPre, p) + One(p == fired))
    && (forall p: nat :: p < ext.places ==> Weight(ext.post[|net.pre|], p) == One(p == goal))
    && (forall p: nat :: p < ext.places ==> Weight(ext.pre[|net.pre| + 1], p) == Weight(takes, p) + One(p in guards))
    && (forall p: nat :: p < ext.places ==> Weight(ext.post[|net.pre| + 1], p) == Weight(puts, p) + One(p == fired))
  }

  ghost predicate Inside(arcs: map<nat, nat>, n: nat) {
    forall p :: p in arcs ==> p < n
  }

  ghost predicate NewPlaces(net: Net, ext: Net, fired: nat, goal: nat, guards: map<nat, nat>) {
    && net.places <= fired < ext.places && net.places <= goal < ext.places && fired != goal
    && fired !in guards && goal !in guards
    && (forall p :: p in guards ==> net.places <= p < ext.places && guards[p] < |net.pre|)
    && (forall p: nat :: net.places <= p < ext.places ==> p == fired || p == goal || p in guards)
    && |net.m0| == net.places && |ext.m0| == ext.places
    && Tokens(ext.m0, net.m0, fired, goal, guards, 0, 0, 1)
  }

  /** The extended marking consists of m and the given tokens on the new places. */
  ghost predicate Tokens(e: seq<nat>, m: seq<nat>, fired: nat, goal: nat, guards: map<nat, nat>, f: nat, g: nat,
                         k: nat) {
    && |m| <= |e| && fired < |e| && goal < |e|
    && e[..|m|] == m && e[fired] == f && e[goal] == g
    && forall p :: p in guards ==> p < |e| && e[p] == k
  }

  // ---------- the statement about runs ----------

  /** m is reached by a run, then the high move, then transitions that are not guarded. */
  ghost predicate HalfWay(net: Net, takes: map<nat, nat>, puts: map<nat, nat>, guarded: set<nat>, m: seq<nat>)
    requires WellFormedNet(net)
  {
    exists m1, later :: Reachable(net, m1) && Covers(m1, takes) && Runs(net, Moved(m1, takes, puts), later, m)
      && Avoids(later, guarded)
  }

  ghost predicate Avoids(run: seq<nat>, guarded: set<nat>) {
    forall i :: 0 <= i < |run| ==> run[i] !in guarded
  }

  ghost predicate Leaks(net: Net, takes: map<nat, nat>, puts: map<nat, nat>, lowPre: map<nat, nat>, guarded: set<nat>)
    requires WellFormedNet(net)
  {
    exists m :: HalfWay(net, takes, puts, guarded, m) && Covers(m, lowPre)
  }

  /** Moving the tokens leads from reachable markings to reachable markings. */
  ghost predicate MoveReachable(net: Net, takes: map<nat, nat>, puts: map<nat, nat>)
    requires WellFormedNet(net)
  {
    forall m :: Reachable(net, m) && Covers(m, takes) ==> Reachable(net, Moved(m, takes, puts))
  }

  // ---------- from the extended net to the original one ----------

  /** What holds along every run of the extended net until goal is marked. */
  ghost predicate Progress(net: Net, takes: map<nat, nat>, puts: map<nat, nat>, fired: nat, goal: nat,
                           guards: map<nat, nat>, e: seq<nat>)
    requires WellFormedNet(net)
  {
    && net.places <= |e| && fired < |e| && goal < |e|
    && e[goal] == 0 && Reachable(net, e[..net.places])
    && (forall p :: p in guards ==> p < |e| && e[p] <= 1)
    && (e[fired] > 0 ==>
          && (forall p :: p in guards ==> p < |e| && e[p] == 0)
          && HalfWay(net, takes, puts, guards.Values, e[..net.places]))
  }

  lemma EnabledByWeight(net: Net, m: seq<nat>, t: nat)
    requires WellFormedNet(net) && |m| == net.places && t < |net.pre|
    ensures Enabled(net, m, t) <==> forall p: nat :: p < net.places ==> Weight(net.pre[t], p) <= m[p]
  {
    CoversByWeight(m, net.pre[t]);
  }

  /** An old transition does in the extended net what it does in the original one. */
  lemma OldStep(net: Net, ext: Net, takes: map<nat, nat>, puts: map<nat, nat>, lowPre: map<nat, nat>,
                fired: nat, goal: nat, guards: map<nat, nat>, e: seq<nat>, t: nat)
    requires Gadget(net, ext, takes, puts, lowPre, fired, goal, guards) && |e| == ext.places && t < |net.pre|
    ensures Enabled(ext, e, t) <==> Enabled(net, e[..net.places], t) && forall p :: p in guards && guards[p] == t ==>
            e[p] >= 1
    ensures Enabled(ext, e, t) ==>
              && t < |ext.post| == |ext.pre| && |Fire(ext, e, t)| == |e|
              && Fire(ext, e, t)[..net.places] == Fire(net, e[..net.places], t)
              && forall p: nat :: net.places <= p < |e| ==> Fire(ext, e, t)[p] == e[p]
  {
    hide Enabled;
    var n := net.places;
    EnabledByWeight(ext, e, t);
    EnabledByWeight(net, e[..n], t);
    assert forall p: nat :: p < n ==> p !in guards;
    assert forall p: nat :: p < n ==> Weight(ext.pre[t], p) == Weight(net.pre[t], p);
    forall p: nat | n <= p < ext.places ensures Weight(net.pre[t], p) == 0 && Weight(net.post[t], p) == 0 { }
    if Enabled(net, e[..n], t) && forall p :: p in guards && guards[p] == t ==> e[p] >= 1 {
      forall p: nat | p < ext.places ensures Weight(ext.pre[t], p) <= e[p] {
        if p < n { assert Weight(net.pre[t], p) <= e[..n][p]; }
      }
    }
    if Enabled(ext, e, t) {
      forall p: nat | p < n ensures Weight(net.pre[t], p) <= e[..n][p] {
        assert Weight(ext.pre[t], p) <= e[p];
      }
      forall p | p in guards && guards[p] == t ensures e[p] >= 1 {
        assert Weight(ext.pre[t], p) <= e[p];
      }
    }
  }

  /** The high transition of the gadget moves the tokens, empties the guards and marks fired. */
  lemma HighStep(net: Net, ext: Net, takes: map<nat, nat>, puts: map<nat, nat>, lowPre: map<nat, nat>,
                 fired: nat, goal: nat, guards: map<nat, nat>, e: seq<nat>)
    requires Gadget(net, ext, takes, puts, lowPre, fired, goal, guards) && |e| == ext.places
    ensures var h := |net.pre| + 1;
            && (Enabled(ext, e, h) <==> Covers(e[..net.places], takes) && forall p :: p in guards ==> e[p] >= 1)
            && (Enabled(ext, e, h) ==>
                  && h < |ext.post| && |Fire(ext, e, h)| == |e|
                  && Fire(ext, e, h)[..net.places] == Moved(e[..net.places], takes, puts)
                  && Fire(ext, e, h)[fired] == e[fired] + 1 && Fire(ext, e, h)[goal] == e[goal]
                  && forall p :: p in guards ==> Fire(ext, e, h)[p] == e[p] - 1)
  {
    hide Enabled, Covers;
    var n, h := net.places, |net.pre| + 1;
    EnabledByWeight(ext, e, h);
    CoversByWeight(e[..n], takes);
    forall p: nat | n <= p < ext.places ensures Weight(takes, p) == 0 && Weight(puts, p) == 0 { }
    assert forall p: nat :: p < n ==> p !in guards;
    if Covers(e[..n], takes) && forall p :: p in guards ==> e[p] >= 1 {
      forall p: nat | p < ext.places ensures Weight(ext.pre[h], p) <= e[p] {
        if p < n { assert Weight(takes, p) <= e[..n][p]; }
      }
    }
    if Enabled(ext, e, h) {
      forall p: nat | p < n ensures Weight(takes, p) <= e[..n][p] {
        assert Weight(ext.pre[h], p) <= e[p];
      }
      forall p | p in guards ensures e[p] >= 1 {
        assert Weight(ext.pre[h], p) <= e[p];
      }
    }
  }

  /** The low transition of the gadget needs lowPre and fired, and marks goal. */
  lemma LowStep(net: Net, ext: Net, takes: map<nat, nat>, puts: map<nat, nat>, lowPre: map<nat, nat>,
                fired: nat, goal: nat, guards: map<nat, nat>, e: seq<nat>)
    requires Gadget(net, ext, takes, puts, lowPre, fired, goal, guards) && |e| == ext.places
    ensures var l := |net.pre|;
            && (Enabled(ext, e, l) <==> Covers(e[..net.places], lowPre) && e[fired] >= 1)
            && (Enabled(ext, e, l) ==>
                  && l < |ext.post| && |Fire(ext, e, l)| == |e|
                  && Fire(ext, e, l)[goal] == e[goal] + 1)
  {
    hide Enabled, Covers;
    var n, l := net.places, |net.pre|;
    EnabledByWeight(ext, e, l);
    CoversByWeight(e[..n], lowPre);
    forall p: nat | n <= p < ext.places ensures Weight(lowPre, p) == 0 { }
    if Covers(e[..n], lowPre) && e[fired] >= 1 {
      forall p: nat | p < ext.places ensures Weight(ext.pre[l], p) <= e[p] {
        if p < n { assert Weight(lowPre, p) <= e[..n][p]; }
      }
    }
    if Enabled(ext, e, l) {
      forall p: nat | p < n ensures Weight(lowPre, p) <= e[..n][p] {
        assert Weight(ext.pre[l], p) <= e[p];
      }
      assert Weight(ext.pre[l], fired) <= e[fired];
    }
  }

  lemma ReachableMore(net: Net, m: seq<nat>, t: nat)
    requires WellFormedNet(net) && Reachable(net, m) && Enabled(net, m, t) && t < |net.post|
    ensures Reachable(net, Fire(net, m, t))
  {
    hide Runs, Enabled;
    var run :| Runs(net, net.m0, run, m);
    RunsMore(net, net.m0, run, m, t, Fire(net, m, t));
  }

  lemma HalfWayMore(net: Net, takes: map<nat, nat>, puts: map<nat, nat>, guarded: set<nat>, m: seq<nat>, t: nat)
    requires WellFormedNet(net) && HalfWay(net, takes, puts, guarded, m)
    requires Enabled(net, m, t) && t < |net.post| && t !in guarded
    ensures HalfWay(net, takes, puts, guarded, Fire(net, m, t))
  {
    hide Runs, Enabled, Reachable, Covers;
    var m1, later :| Reachable(net, m1) && Covers(m1, takes) && Runs(net, Moved(m1, takes, puts), later, m)
      && Avoids(later, guarded);
    RunsMore(net, Moved(m1, takes, puts), later, m, t, Fire(net, m, t));
    assert Avoids(later + [t], guarded);
  }

  lemma HalfWayStart(net: Net, takes: map<nat, nat>, puts: map<nat, nat>, guarded: set<nat>, m: seq<nat>)
    requires WellFormedNet(net) && Reachable(net, m) && Covers(m, takes)
    ensures HalfWay(net, takes, puts, guarded, Moved(m, takes, puts))
  {
    hide Runs, Reachable, Covers;
    RunsNone(net, Moved(m, takes, puts));
    assert Avoids([], guarded);
  }

  lemma ProgressOld(net: Net, ext: Net, takes: map<nat, nat>, puts: map<nat, nat>, lowPre: map<nat, nat>,
                    fired: nat, goal: nat, guards: map<nat, nat>, e: seq<nat>, t: nat)
    requires Gadget(net, ext, takes, puts, lowPre, fired, goal, guards) && |e| == ext.places && t < |net.pre|
    requires Progress(net, takes, puts, fired, goal, guards, e) && Enabled(ext, e, t) && t < |ext.post|
    ensures Progress(net, takes, puts, fired, goal, guards, Fire(ext, e, t))
  {
    hide Reachable, HalfWay, Enabled, Covers;
    OldStep(net, ext, takes, puts, lowPre, fired, goal, guards, e, t);
    ReachableMore(net, e[..net.places], t);
    if e[fired] > 0 {
      HalfWayMore(net, takes, puts, guards.Values, e[..net.places], t);
    }
  }

  lemma ProgressHigh(net: Net, ext: Net, takes: map<nat, nat>, puts: map<nat, nat>, lowPre: map<nat, nat>,
                     fired: nat, goal: nat, guards: map<nat, nat>, e: seq<nat>)
    requires Gadget(net, ext, takes, puts, lowPre, fired, goal, guards) && |e| == ext.places
    requires MoveReachable(net, takes, puts)
    requires Progress(net, takes, puts, fired, goal, guards, e) && Enabled(ext, e, |net.pre| + 1)
    requires |net.pre| + 1 < |ext.post|
    ensures Progress(net, takes, puts, fired, goal, guards, Fire(ext, e, |net.pre| + 1))
  {
    hide Reachable, HalfWay, Enabled, Covers;
    HighStep(net, ext, takes, puts, lowPre, fired, goal, guards, e);
    HalfWayStart(net, takes, puts, guards.Values, e[..net.places]);
  }

  lemma ProgressStart(net: Net, ext: Net, takes: map<nat, nat>, puts: map<nat, nat>, lowPre: map<nat, nat>,
                      fired: nat, goal: nat, guards: map<nat, nat>)
    requires Gadget(net, ext, takes, puts, lowPre, fired, goal, guards)
    ensures Progress(net, takes, puts, fired, goal, guards, ext.m0)
  {
    hide HalfWay, Runs;
    RunsNone(net, net.m0);
  }

  /** Along a run of the extended net, goal is unmarked or the original net leaks. */
  lemma ProgressStep(net: Net, ext: Net, takes: map<nat, nat>, puts: map<nat, nat>, lowPre: map<nat, nat>,
                     fired: nat, goal: nat, guards: map<nat, nat>, e: seq<nat>, t: nat)
    requires Gadget(net, ext, takes, puts, lowPre, fired, goal, guards) && |e| == ext.places
    requires MoveReachable(net, takes, puts)
    requires Progress(net, takes, puts, fired, goal, guards, e) && Enabled(ext, e, t) && t < |ext.post|
    ensures Progress(net, takes, puts, fired, goal, guards, Fire(ext, e, t))
            || Leaks(net, takes, puts, lowPre, guards.Values)
  {
    if t < |net.pre| {
      ProgressOld(net, ext, takes, puts, lowPre, fired, goal, guards, e, t);
    } else if t == |net.pre| {
      hide Reachable, HalfWay, Enabled, Covers;
      LowStep(net, ext, takes, puts, lowPre, fired, goal, guards, e);
      assert HalfWay(net, takes, puts, guards.Values, e[..net.places]);
    } else {
      ProgressHigh(net, ext, takes, puts, lowPre, fired, goal, guards, e);
    }
  }

  lemma GoalMeansLeak(net: Net, ext: Net, takes: map<nat, nat>, puts: map<nat, nat>, lowPre: map<nat, nat>,
                      fired: nat, goal: nat, guards: map<nat, nat>, e: seq<nat>)
    requires Gadget(net, ext, takes, puts, lowPre, fired, goal, guards) && MoveReachable(net, takes, puts)
    requires Reachable(ext, e) && goal < |e| && e[goal] > 0
    ensures Leaks(net, takes, puts, lowPre, guards.Values)
  {
    hide NewPlaces, Progress, Leaks, MoveReachable, Enabled;
    var run :| Runs(ext, ext.m0, run, e);
    var ms :| Trace(ext, ms, run) && ms[0] == ext.m0 && ms[|run|] == e;
    ProgressStart(net, ext, takes, puts, lowPre, fired, goal, guards);
    var i := 0;
    while i < |run| && !Leaks(net, takes, puts, lowPre, guards.Values)
      invariant 0 <= i <= |run| && |ms[i]| == ext.places
      invariant Progress(net, takes, puts, fired, goal, guards, ms[i]) || Leaks(net, takes, puts, lowPre, guards.Values)
    {
      assert Step(ext, ms[i], run[i], ms[i + 1]);
      EnabledInRange(ext, ms[i], run[i]);
      ProgressStep(net, ext, takes, puts, lowPre, fired, goal, guards, ms[i], run[i]);
      i := i + 1;
    }
    if !Leaks(net, takes, puts, lowPre, guards.Values) {
      ProgressUnmarked(net, takes, puts, fired, goal, guards, e);
    }
  }

  lemma ProgressUnmarked(net: Net, takes: map<nat, nat>, puts: map<nat, nat>, fired: nat, goal: nat,
                         guards: map<nat, nat>, e: seq<nat>)
    requires WellFormedNet(net) && Progress(net, takes, puts, fired, goal, guards, e)
    ensures goal < |e| && e[goal] == 0
  {
  }

  // ---------- from the original net to the extended one ----------

  /** A run of the original net is a run of the extended one, as long as the guard places
      are marked or no guarded transition fires; it leaves the new places alone. */
  lemma Lift(net: Net, ext: Net, takes: map<nat, nat>, puts: map<nat, nat>, lowPre: map<nat, nat>,
             fired: nat, goal: nat, guards: map<nat, nat>, run: seq<nat>, m: seq<nat>, m': seq<nat>, e: seq<nat>)
               returns (e': seq<nat>)
    requires Gadget(net, ext, takes, puts, lowPre, fired, goal, guards) && |e| == ext.places && Reachable(ext, e)
    requires Runs(net, m, run, m') && e[..net.places] == m
    requires (forall p :: p in guards ==> e[p] >= 1) || Avoids(run, guards.Values)
    ensures |e'| == |e| && Reachable(ext, e') && e'[..net.places] == m'
    ensures forall p: nat :: net.places <= p < |e| ==> e'[p] == e[p]
  {
    hide Enabled, Reachable;
    var ms :| Trace(net, ms, run) && ms[0] == m && ms[|run|] == m';
    var i := 0;
    e' := e;
    while i < |run|
      invariant 0 <= i <= |run| && |e'| == |e| && Reachable(ext, e') && e'[..net.places] == ms[i]
      invariant forall p: nat :: net.places <= p < |e| ==> e'[p] == e[p]
    {
      var t := run[i];
      assert Step(net, ms[i], t, ms[i + 1]);
      EnabledInRange(net, ms[i], t);
      OldStep(net, ext, takes, puts, lowPre, fired, goal, guards, e', t);
      if !(forall p :: p in guards ==> e[p] >= 1) {
        assert t !in guards.Values;
        forall p | p in guards ensures guards[p] != t { }
      }
      assert Enabled(ext, e', t);
      ReachableMore(ext, e', t);
      e' := Fire(ext, e', t);
      i := i + 1;
    }
  }

  /** A leak of the original net is a run of the extended one that marks goal. */
  lemma LeakMeansGoal(net: Net, ext: Net, takes: map<nat, nat>, puts: map<nat, nat>, lowPre: map<nat, nat>,
                      fired: nat, goal: nat, guards: map<nat, nat>) returns (e: seq<nat>)
    requires Gadget(net, ext, takes, puts, lowPre, fired, goal, guards)
    requires Leaks(net, takes, puts, lowPre, guards.Values)
    ensures Reachable(ext, e) && goal < |e| && e[goal] == 1
  {
    hide Enabled, Covers, Runs, Avoids;
    var m :| HalfWay(net, takes, puts, guards.Values, m) && Covers(m, lowPre);
    var m1, later :| Reachable(net, m1) && Covers(m1, takes) && Runs(net, Moved(m1, takes, puts), later, m)
      && Avoids(later, guards.Values);
    var first :| Runs(net, net.m0, first, m1);
    RunsNone(ext, ext.m0);
    assert Reachable(ext, ext.m0);
    e := Lift(net, ext, takes, puts, lowPre, fired, goal, guards, first, net.m0, m1, ext.m0);
    HighStep(net, ext, takes, puts, lowPre, fired, goal, guards, e);
    ReachableMore(ext, e, |net.pre| + 1);
    e := Fire(ext, e, |net.pre| + 1);
    e := Lift(net, ext, takes, puts, lowPre, fired, goal, guards, later, Moved(m1, takes, puts), m, e);
    LowStep(net, ext, takes, puts, lowPre, fired, goal, guards, e);
    ReachableMore(ext, e, |net.pre|);
    e := Fire(ext, e, |net.pre|);
  }

  /** The gadget is exact. */
  lemma GadgetExact(net: Net, ext: Net, takes: map<nat, nat>, puts: map<nat, nat>, lowPre: map<nat, nat>,
                    fired: nat, goal: nat, guards: map<nat, nat>)
    requires Gadget(net, ext, takes, puts, lowPre, fired, goal, guards) && MoveReachable(net, takes, puts)
    ensures (exists e :: Reachable(ext, e) && goal < |e| && e[goal] == 1) <==>
            Leaks(net, takes, puts, lowPre, guards.Values)
  {
    hide NewPlaces, Leaks, MoveReachable, Reachable;
    if e :| Reachable(ext, e) && goal < |e| && e[goal] == 1 {
      GoalMeansLeak(net, ext, takes, puts, lowPre, fired, goal, guards, e);
    }
    if Leaks(net, takes, puts, lowPre, guards.Values) {
      var e := LeakMeansGoal(net, ext, takes, puts, lowPre, fired, goal, guards);
    }
  }
}
