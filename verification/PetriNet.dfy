/** Place/transition nets: firing, runs, siphons and traps. */
module PetriNets {

  /** Places are 0 .. places - 1; transition t takes pre[t][p] tokens from p and
      puts post[t][p] tokens on p. */
  datatype Net = Net(places: nat, pre: seq<map<nat, nat>>, post: seq<map<nat, nat>>, m0: seq<nat>)

  ghost predicate WellFormedNet(net: Net) {
    && |net.pre| == |net.post| && |net.m0| == net.places
    && (forall t, p :: 0 <= t < |net.pre| && p in net.pre[t] ==> p < net.places && net.pre[t][p] >= 1)
    && (forall t, p :: 0 <= t < |net.post| && p in net.post[t] ==> p < net.places && net.post[t][p] >= 1)
  }

  /** All arc weights are 1. */
  ghost predicate Ordinary(net: Net) {
    && (forall t, p :: 0 <= t < |net.pre| && p in net.pre[t] ==> net.pre[t][p] == 1)
    && (forall t, p :: 0 <= t < |net.post| && p in net.post[t] ==> net.post[t][p] == 1)
  }

  function Weight(arcs: map<nat, nat>, p: nat): nat {
    if p in arcs then arcs[p] else 0
  }

  ghost predicate Enabled(net: Net, m: seq<nat>, t: nat) {
    t < |net.pre| && forall p :: p in net.pre[t] ==> p < |m| && net.pre[t][p] <= m[p]
  }

  ghost function Fire(net: Net, m: seq<nat>, t: nat): (m': seq<nat>)
    requires Enabled(net, m, t) && t < |net.post|
    ensures |m'| == |m|
    ensures forall p :: 0 <= p < |m| ==> m'[p] == m[p] - Weight(net.pre[t], p) + Weight(net.post[t], p)
  {
    seq(|m|, p requires 0 <= p < |m| => m[p] - Weight(net.pre[t], p) + Weight(net.post[t], p))
  }

  lemma EnabledInRange(net: Net, m: seq<nat>, t: nat)
    requires WellFormedNet(net) && Enabled(net, m, t)
    ensures t < |net.pre| == |net.post| && |Fire(net, m, t)| == |m|
  {
  }

  ghost predicate Step(net: Net, m: seq<nat>, t: nat, m': seq<nat>)
    requires WellFormedNet(net)
  {
    Enabled(net, m, t) && m' == Fire(net, m, t)
  }

  /** ms are the markings that the firing sequence run passes through. */
  ghost predicate Trace(net: Net, ms: seq<seq<nat>>, run: seq<nat>)
    requires WellFormedNet(net)
  {
    |ms| == |run| + 1 && forall i :: 0 <= i < |run| ==> Step(net, ms[i], run[i], ms[i + 1])
  }

  ghost predicate Runs(net: Net, m: seq<nat>, run: seq<nat>, m': seq<nat>)
    requires WellFormedNet(net)
  {
    exists ms :: Trace(net, ms, run) && ms[0] == m && ms[|run|] == m'
  }

  ghost predicate Reachable(net: Net, m: seq<nat>)
    requires WellFormedNet(net)
  {
    exists run :: Runs(net, net.m0, run, m)
  }

  ghost predicate DeadMarking(net: Net, m: seq<nat>) {
    forall t: nat :: !Enabled(net, m, t)
  }

  // ---------- siphons and traps ----------

  ghost predicate Meets(arcs: map<nat, nat>, S: set<nat>) {
    exists p :: p in arcs && p in S
  }

  /** Whoever produces on S also consumes from S. */
  ghost predicate Siphon(net: Net, S: set<nat>) {
    forall t :: 0 <= t < |net.pre| && t < |net.post| && Meets(net.post[t], S) ==> Meets(net.pre[t], S)
  }

  /** Whoever consumes from S also produces on S. */
  ghost predicate Trap(net: Net, S: set<nat>) {
    forall t :: 0 <= t < |net.pre| && t < |net.post| && Meets(net.pre[t], S) ==> Meets(net.post[t], S)
  }

  ghost predicate MaximalTrap(net: Net, X: set<nat>, Y: set<nat>) {
    && Y <= X && Trap(net, Y)
    && forall Q: set<nat> :: Q <= X && Trap(net, Q) ==> Q <= Y
  }

  ghost predicate MarkedAt(m: seq<nat>, S: set<nat>) {
    exists p :: p in S && p < |m| && m[p] > 0
  }

  /** A marked trap stays marked. */
  lemma TrapStaysMarked(net: Net, m: seq<nat>, t: nat, S: set<nat>)
    requires WellFormedNet(net) && Trap(net, S) && |m| == net.places
    requires Enabled(net, m, t) && MarkedAt(m, S)
    ensures MarkedAt(Fire(net, m, t), S)
  {
    var m' := Fire(net, m, t);
    var p :| p in S && p < |m| && m[p] > 0;
    if Meets(net.post[t], S) {
      var q :| q in net.post[t] && q in S;
      assert m'[q] > 0;
    } else {
      assert !Meets(net.pre[t], S);
      assert p !in net.pre[t];
      assert m'[p] > 0;
    }
  }

  lemma TrapStaysMarkedOnRuns(net: Net, run: seq<nat>, m: seq<nat>, m': seq<nat>, S: set<nat>)
    requires WellFormedNet(net) && Trap(net, S) && |m| == net.places
    requires Runs(net, m, run, m') && MarkedAt(m, S)
    ensures MarkedAt(m', S) && |m'| == |m|
  {
    hide Trap, MarkedAt, Enabled;
    var ms :| Trace(net, ms, run) && ms[0] == m && ms[|run|] == m';
    var i := 0;
    while i < |run|
      invariant 0 <= i <= |run| && |ms[i]| == |m| && MarkedAt(ms[i], S)
    {
      assert Step(net, ms[i], run[i], ms[i + 1]);
      TrapStaysMarked(net, ms[i], run[i], S);
      i := i + 1;
    }
  }

  lemma RunLength(net: Net, run: seq<nat>, m: seq<nat>, m': seq<nat>)
    requires WellFormedNet(net) && Runs(net, m, run, m')
    ensures |m'| == |m|
  {
    hide Enabled;
    var ms :| Trace(net, ms, run) && ms[0] == m && ms[|run|] == m';
    var i := 0;
    while i < |run|
      invariant 0 <= i <= |run| && |ms[i]| == |m|
    {
      assert Step(net, ms[i], run[i], ms[i + 1]);
      i := i + 1;
    }
  }

  ghost function Unmarked(m: seq<nat>): set<nat> {
    set p: nat | p < |m| && m[p] == 0
  }

  /** The unmarked places of a dead marking of an ordinary net form a non-empty siphon. */
  lemma DeadSiphon(net: Net, m: seq<nat>)
    requires WellFormedNet(net) && Ordinary(net) && |m| == net.places && |net.pre| > 0
    requires DeadMarking(net, m)
    ensures Siphon(net, Unmarked(m)) && Unmarked(m) != {}
  {
    forall t: nat | t < |net.pre| ensures Meets(net.pre[t], Unmarked(m)) {
      assert !Enabled(net, m, t);
      var p :| p in net.pre[t] && !(p < |m| && net.pre[t][p] <= m[p]);
      assert p in Unmarked(m);
    }
    assert Meets(net.pre[0], Unmarked(m));
  }

  /** Commoner's property: every non-empty siphon contains an initially marked trap. */
  ghost predicate CommonerProperty(net: Net) {
    forall S: set<nat> :: S != {} && (forall p :: p in S ==> p < net.places) && Siphon(net, S) ==>
      exists Q: set<nat> :: Q <= S && Trap(net, Q) && MarkedAt(net.m0, Q)
  }

  /** With Commoner's property no reachable marking of an ordinary net is dead. */
  lemma CommonerImpliesDeadlockFree(net: Net, m: seq<nat>)
    requires WellFormedNet(net) && Ordinary(net) && |net.pre| > 0
    requires CommonerProperty(net) && Reachable(net, m)
    ensures !DeadMarking(net, m)
  {
    hide Siphon, Trap, Enabled, Ordinary, Step;
    var run :| Runs(net, net.m0, run, m);
    RunLength(net, run, net.m0, m);
    if DeadMarking(net, m) {
      DeadSiphon(net, m);
      var Q :| Q <= Unmarked(m) && Trap(net, Q) && MarkedAt(net.m0, Q);
      TrapStaysMarkedOnRuns(net, run, net.m0, m, Q);
    }
  }
}
